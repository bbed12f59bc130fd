/** Starred course modules, kept as user preferences, and the ajax endpoint
    that sets or toggles a star. */
module Stars {
  import opened Optional
  import opened PhpStrings

  /** A user's preferences: name to stored string. */
  type Preferences = map<string, string>

  /** The preference name that holds the star of course module `cmId`. */
  function StarKey(cmId: nat): string {
    "mod-" + NatToString(cmId) + "-star"
  }

  /** Distinct modules never share a preference. */
  lemma {:induction false} StarKeyInjective(a: nat, b: nat)
    requires StarKey(a) == StarKey(b)
    ensures a == b
  {
    var ka, kb := StarKey(a), StarKey(b);
    assert ka[4..|ka| - 5] == NatToString(a);
    assert kb[4..|kb| - 5] == NatToString(b);
    NatToStringInjective(a, b);
  }

  /** `get_user_preferences(name, default)`. */
  function Preference(prefs: Preferences, name: string, default: string): string {
    if name in prefs then prefs[name] else default
  }

  /** One `format_onetopicplus_stars` object: the module and the state string
      read or written so far. */
  datatype StarState = StarState(cmId: nat, cached: Option<string>)

  function NewStars(cmId: nat): StarState {
    StarState(cmId, None)
  }

  /** `get_state`: the first call reads the preference (absent means
      "false") and remembers it; only the exact string "true" is a star. */
  function GetState(st: StarState, prefs: Preferences): (r: (bool, StarState))
    ensures r.1.cmId == st.cmId && r.1.cached.Some?
    ensures st.cached.Some? ==> r.1 == st
    ensures st.cached.None? ==>
              (r.0 <==> StarKey(st.cmId) in prefs && prefs[StarKey(st.cmId)] == "true")
    ensures r.0 <==> r.1.cached.value == "true"
  {
    var state := if st.cached.Some? then st.cached.value
                 else Preference(prefs, StarKey(st.cmId), "false");
    (state == "true", StarState(st.cmId, Some(state)))
  }

  /** `set_state`: stores "true" or "false" both in the object and in the
      user's preferences. */
  function SetState(st: StarState, prefs: Preferences, value: bool): (r: (StarState, Preferences))
    ensures r.0.cmId == st.cmId
    ensures StarKey(st.cmId) in r.1 && r.1.Keys == prefs.Keys + {StarKey(st.cmId)}
    ensures forall k :: k in prefs && k != StarKey(st.cmId) ==> r.1[k] == prefs[k]
  {
    var state := if value then "true" else "false";
    (StarState(st.cmId, Some(state)), prefs[StarKey(st.cmId) := state])
  }

  /** Whether a fresh object for module `cmId` reports a star. */
  function Starred(prefs: Preferences, cmId: nat): bool {
    GetState(NewStars(cmId), prefs).0
  }

  /** What was set is what is read back, by the same object and by a new one. */
  lemma {:induction false} SetThenGet(st: StarState, prefs: Preferences, value: bool)
    ensures var (st', prefs') := SetState(st, prefs, value);
            GetState(st', prefs').0 == value && Starred(prefs', st.cmId) == value
  {
  }

  /** Setting one module's star leaves every other module's star as it was. */
  lemma {:induction false} SetLeavesOthers(st: StarState, prefs: Preferences, value: bool, other: nat)
    requires other != st.cmId
    ensures Starred(SetState(st, prefs, value).1, other) == Starred(prefs, other)
  {
    if StarKey(other) == StarKey(st.cmId) {
      StarKeyInjective(other, st.cmId);
    }
  }

  /** The JSON reply: `{"state": ...}` or `{}` for an unknown action. */
  datatype Response = Response(state: Option<bool>)

  /** ajax.php: `star` sets the star to whether the integer `state` parameter
      (default 0) is non-zero; `togglestar` flips it; anything else changes
      nothing and answers with an empty object. */
  function HandleAjax(action: string, stateParam: Option<int>, cmId: nat, prefs: Preferences): (r: (Preferences, Response))
    ensures action == "star" ==>
              var v := stateParam.GetOr(0) != 0;
              r.1 == Response(Some(v)) && Starred(r.0, cmId) == v
    ensures action == "togglestar" ==>
              r.1 == Response(Some(!Starred(prefs, cmId))) && Starred(r.0, cmId) == !Starred(prefs, cmId)
    ensures action != "star" && action != "togglestar" ==> r == (prefs, Response(None))
    ensures forall k :: k in prefs && k != StarKey(cmId) ==> k in r.0 && r.0[k] == prefs[k]
    ensures forall k :: k in r.0 && k != StarKey(cmId) ==> k in prefs
  {
    if action == "star" then
      var state := stateParam.GetOr(0) != 0;
      var (_, prefs') := SetState(NewStars(cmId), prefs, state);
      SetThenGet(NewStars(cmId), prefs, state);
      (prefs', Response(Some(state)))
    else if action == "togglestar" then
      var (current, st) := GetState(NewStars(cmId), prefs);
      var state := !current;
      var (_, prefs') := SetState(st, prefs, state);
      SetThenGet(st, prefs, state);
      (prefs', Response(Some(state)))
    else
      (prefs, Response(None))
  }

  /** Toggling twice restores the star, and the stored preference is then
      the normalised "true" or "false". */
  lemma {:induction false} ToggleTwice(cmId: nat, prefs: Preferences)
    ensures var once := HandleAjax("togglestar", None, cmId, prefs).0;
            var twice := HandleAjax("togglestar", None, cmId, once).0;
            Starred(twice, cmId) == Starred(prefs, cmId)
            && twice[StarKey(cmId)] == (if Starred(prefs, cmId) then "true" else "false")
  {
  }

  /** A request about one module never changes another module's star. */
  lemma {:induction false} AjaxLeavesOthers(action: string, stateParam: Option<int>, cmId: nat, prefs: Preferences, other: nat)
    requires other != cmId
    ensures Starred(HandleAjax(action, stateParam, cmId, prefs).0, other) == Starred(prefs, other)
  {
    if StarKey(other) == StarKey(cmId) {
      StarKeyInjective(other, cmId);
    }
  }
}
