/** `[[Activity name]]` placeholders in a section summary used as a template:
    the callback `replace_tag_in_expresion` and the scan of
    `preg_replace_callback` that feeds it. */
module Placeholders {
  import opened Optional
  import opened PhpStrings
  import opened TagStrip

  /** `$_tag_string`: where a replacement names the searched module itself. */
  const LabelTag := "{label_tag_replace}"

  /** Text with none of the characters that matter to the placeholder syntax. */
  predicate Plain(s: string) {
    '[' !in s && ']' !in s && ':' !in s && '<' !in s && '>' !in s
  }

  /** The term with every `[[` and then every `]]` deleted. */
  function Unbracket(term: string): string {
    ReplaceAll(ReplaceAll(term, "[[", ""), "]]", "")
  }

  /** `preg_replace('/([^:])+:/', '', $s)`: every run of non-colon characters
      that is followed by a colon is deleted together with that colon; a colon
      with no such run before it is kept. */
  function DropLabels(s: string): (r: string)
    ensures |r| <= |s|
    ensures ':' !in s ==> r == s
    decreases |s|
  {
    if |s| == 0 then ""
    else if s[0] == ':' then [':'] + DropLabels(s[1..])
    else
      var k := SpanUntil(s, ':');
      if k == |s| then s else DropLabels(s[k + 1..])
  }

  /** How many colons `s` starts with. */
  function LeadingColons(s: string): (k: nat)
    ensures k <= |s|
    ensures forall j :: 0 <= j < k ==> s[j] == ':'
    ensures k < |s| ==> s[k] != ':'
  {
    if |s| == 0 || s[0] != ':' then 0 else 1 + LeadingColons(s[1..])
  }

  /** `t` is the text after the last colon of `s` (all of `s` when it has none). */
  predicate LastPart(s: string, t: string) {
    ':' !in t && |t| <= |s| && s[|s| - |t|..] == t
    && (':' in s ==> |t| < |s| && s[|s| - |t| - 1] == ':')
    && (':' !in s ==> t == s)
  }

  /** The text after the last colon of what follows a colon is the text after
      the last colon of the whole. */
  lemma {:induction false} LastPartAfterColon(s: string, k: nat, t: string)
    requires k < |s| && s[k] == ':' && LastPart(s[k + 1..], t)
    ensures LastPart(s, t)
  {
    var u := s[k + 1..];
    assert u[|u| - |t|..] == s[|s| - |t|..];
    if ':' in u {
      assert s[|s| - |t| - 1] == u[|u| - |t| - 1];
    } else {
      assert |s| - |t| - 1 == k;
    }
  }

  /** The labelled text without its labels and without the colons left in front. */
  function Alternative(s: string): string {
    var r := DropLabels(s);
    r[LeadingColons(r)..]
  }

  lemma {:induction false} AlternativeAfterColon(s: string)
    requires |s| > 0 && s[0] == ':'
    ensures Alternative(s) == Alternative(s[1..])
  {
    var r := DropLabels(s);
    assert r[1..] == DropLabels(s[1..]);
  }

  lemma {:induction false} AlternativeAfterLabel(s: string, k: nat)
    requires |s| > 0 && s[0] != ':' && k == SpanUntil(s, ':') && k < |s|
    ensures Alternative(s) == Alternative(s[k + 1..])
  {
    assert DropLabels(s) == DropLabels(s[k + 1..]);
  }

  /** What is left of a labelled text is a run of colons followed by the text
      after its last colon: the alternative text of `[[name:alternative]]`. */
  lemma {:induction false} DropLabelsKeepsLastPart(s: string)
    ensures LastPart(s, Alternative(s))
    decreases |s|
  {
    if |s| == 0 {
    } else if s[0] == ':' {
      DropLabelsKeepsLastPart(s[1..]);
      AlternativeAfterColon(s);
      LastPartAfterColon(s, 0, Alternative(s[1..]));
    } else {
      var k := SpanUntil(s, ':');
      if k < |s| {
        DropLabelsKeepsLastPart(s[k + 1..]);
        AlternativeAfterLabel(s, k);
        LastPartAfterColon(s, k, Alternative(s[k + 1..]));
      } else {
        assert ':' !in s;
        assert Alternative(s) == s[0..] == s;
        LastPartWhole(s);
      }
    }
  }

  lemma {:induction false} LastPartWhole(s: string)
    requires ':' !in s
    ensures LastPart(s, s)
  {
    assert s[|s| - |s|..] == s;
  }

  /** A run of colons followed by colon-free text has no labels left to drop. */
  lemma {:induction false} DropLabelsOfUnlabelled(s: string)
    requires ':' !in s[LeadingColons(s)..]
    ensures DropLabels(s) == s
    decreases |s|
  {
    if |s| > 0 && s[0] == ':' {
      assert s[1..][LeadingColons(s[1..])..] == s[LeadingColons(s)..];
      DropLabelsOfUnlabelled(s[1..]);
    }
  }

  /** Dropping labels twice is dropping them once. */
  lemma {:induction false} DropLabelsIdempotent(s: string)
    ensures DropLabels(DropLabels(s)) == DropLabels(s)
  {
    DropLabelsKeepsLastPart(s);
    assert Alternative(s) == DropLabels(s)[LeadingColons(DropLabels(s))..];
    DropLabelsOfUnlabelled(DropLabels(s));
  }

  /** `replace_tag_in_expresion`: the matched placeholder `term` becomes the
      module's html `replace`, where `search` is the module name.
      - Without a colon in the tag-stripped text, every `search` in the term is
        replaced by `replace`, after `{label_tag_replace}` in `replace` has
        become `search`.
      - With a colon, `search` in `replace` becomes the alternative text. A
        term without markup then becomes exactly that; a term with markup is
        rewritten by the regular expressions around its tags, which
        `rewriteTagged` stands for. */
  function ReplaceTag(term: string, search: string, replace: string,
                      rewriteTagged: (string, string) -> string): string
  {
    var bare := Unbracket(term);
    var text := StripTags(bare);
    if ':' in text then
      var newReplace := ReplaceAll(replace, search, DropLabels(text));
      if '<' in bare || '>' in bare then rewriteTagged(bare, newReplace) else newReplace
    else
      ReplaceAll(bare, search, ReplaceAll(replace, LabelTag, search))
  }

  /** The brackets of a placeholder around plain text come off whole. */
  lemma {:induction false} UnbracketPlain(x: string)
    requires '[' !in x && ']' !in x
    ensures Unbracket("[[" + x + "]]") == x
  {
    var closed := x + "]]";
    assert "[[" + x + "]]" == "[[" + closed;
    ReplaceAllAtFront("[[", closed, "");
    ReplaceAllSkips(x, "]]", "[[", "");
    assert ReplaceAll("]]", "[[", "") == "]]" by {
      assert "]]"[..2] != "[[";
    }
    assert ReplaceAll("[[" + closed, "[[", "") == closed;
    ReplaceAllSkips(x, "]]", "]]", "");
    ReplaceWhole("]]", "");
    assert x + "" == x;
  }

  /** A module name without brackets or angles; it may hold colons. */
  predicate PlainName(s: string) {
    '[' !in s && ']' !in s && '<' !in s && '>' !in s
  }

  /** What `[[Name]]` becomes for a module named `name` with html `html`:
      the html with `{label_tag_replace}` naming the module; but a colon in
      the name makes the placeholder read as `[[label:alternative]]`, so the
      module name in the html is replaced by what follows its last colon. */
  function NameHtml(name: string, html: string): string {
    if ':' in name then ReplaceAll(html, name, DropLabels(DropNul(name)))
    else ReplaceAll(html, LabelTag, name)
  }

  /** `[[Name]]` becomes the module's html, with `{label_tag_replace}` in it
      naming the module. A name holding a colon takes the alternative-text
      branch instead: the module name in the html becomes the text after
      the name's labels. */
  lemma {:induction false} ReplaceTagOfName(name: string, replace: string, rewriteTagged: (string, string) -> string)
    requires |name| > 0 && PlainName(name)
    ensures ':' !in name ==> ReplaceTag("[[" + name + "]]", name, replace, rewriteTagged)
                             == ReplaceAll(replace, LabelTag, name)
    ensures ':' in name ==> ReplaceTag("[[" + name + "]]", name, replace, rewriteTagged)
                            == ReplaceAll(replace, name, DropLabels(DropNul(name)))
  {
    UnbracketPlain(name);
    StripTagsWithoutAngles(name);
    DropNulKeeps(name, ':');
    if ':' !in name {
      ReplaceWhole(name, ReplaceAll(replace, LabelTag, name));
    }
  }

  /** A module whose name holds one colon, such as "Quiz: Week 1", is shown
      under the text after the colon (" Week 1"). */
  lemma {:induction false} ColonName(lead: string, alt: string, replace: string,
                                     rewriteTagged: (string, string) -> string)
    requires |lead| > 0 && Plain(lead) && Plain(alt) && '\0' !in lead && '\0' !in alt
    ensures ReplaceTag("[[" + lead + ":" + alt + "]]", lead + ":" + alt, replace, rewriteTagged)
            == ReplaceAll(replace, lead + ":" + alt, alt)
  {
    var name := lead + ":" + alt;
    assert ':' in name && PlainName(name) && '\0' !in name by {
      assert name[|lead|] == ':';
      assert forall c :: c in name ==> c in lead || c == ':' || c in alt;
    }
    assert DropLabels(DropNul(name)) == alt by {
      DropNulWithout(name);
      LabelledDropsLabel(lead, alt, name);
    }
    assert "[[" + lead + ":" + alt + "]]" == "[[" + name + "]]";
    ReplaceTagOfName(name, replace, rewriteTagged);
  }

  /** `[[Name:alternative]]` becomes the module's html with the module name in
      it replaced by the alternative text, which `strip_tags` has cleared of
      NUL characters. A name of NUL characters only leaves the colon standing
      in front of the alternative. */
  lemma {:induction false} ReplaceTagOfAlternative(name: string, alt: string, replace: string,
                                rewriteTagged: (string, string) -> string)
    requires |name| > 0 && Plain(name) && Plain(alt)
    ensures DropNul(name) != "" ==>
              ReplaceTag("[[" + name + ":" + alt + "]]", name, replace, rewriteTagged)
              == ReplaceAll(replace, name, DropNul(alt))
    ensures DropNul(name) == "" ==>
              ReplaceTag("[[" + name + ":" + alt + "]]", name, replace, rewriteTagged)
              == ReplaceAll(replace, name, ":" + DropNul(alt))
  {
    var x := name + ":" + alt;
    LabelledPieces(name, alt, x);
    UnbracketPlain(x);
    StripTagsWithoutAngles(x);
    LabelledText(name, alt);
  }

  /** What `strip_tags` leaves of `Name:alternative`, with its labels dropped. */
  lemma {:induction false} LabelledText(name: string, alt: string)
    requires Plain(name) && Plain(alt)
    ensures var text := DropNul(name + ":" + alt);
            ':' in text
            && (DropNul(name) != "" ==> DropLabels(text) == DropNul(alt))
            && (DropNul(name) == "" ==> DropLabels(text) == ":" + DropNul(alt))
  {
    var n, y := DropNul(name), DropNul(alt);
    assert name + ":" + alt == name + (":" + alt);
    DropNulAppend(name, ":" + alt);
    DropNulAppend(":", alt);
    assert DropNul(":") == ":";
    PlainDropNul(name);
    PlainDropNul(alt);
    var text := n + ":" + y;
    assert DropNul(name + ":" + alt) == text;
    assert text[|n|] == ':';
    if n != "" {
      LabelledDropsLabel(n, y, text);
    } else {
      assert text == ":" + y;
      assert text[1..] == y;
    }
  }


  /** `strip_tags` keeps text plain. */
  lemma {:induction false} PlainDropNul(s: string)
    requires Plain(s)
    ensures Plain(DropNul(s))
  {
    DropNulKeeps(s, '[');
    DropNulKeeps(s, ']');
    DropNulKeeps(s, ':');
    DropNulKeeps(s, '<');
    DropNulKeeps(s, '>');
  }

  /** `Name:alternative` between plain parts holds no bracket or angle, one
      colon, and sits inside the placeholder brackets as one piece. */
  lemma {:induction false} LabelledPieces(name: string, alt: string, x: string)
    requires Plain(name) && Plain(alt) && x == name + ":" + alt
    ensures '[' !in x && ']' !in x && '<' !in x && '>' !in x && ':' in x
    ensures "[[" + name + ":" + alt + "]]" == "[[" + x + "]]"
  {
    assert x[|name|] == ':';
    assert forall c :: c in x ==> c in name || c == ':' || c in alt;
  }

  /** The label before the one colon of `Name:alternative` is dropped. */
  lemma {:induction false} LabelledDropsLabel(name: string, alt: string, x: string)
    requires |name| > 0 && Plain(name) && Plain(alt) && x == name + ":" + alt
    ensures DropLabels(x) == alt
  {
    var tail := ":" + alt;
    assert x == name + tail;
    SpanUntilStops(name, tail, ':');
    assert x[|name| + 1..] == alt;
  }

  /** The placeholder `preg_replace_callback` finds at the head of `s`:
      `[[`, the module name, a run without `]`, then `]]`; its length. The
      leading-markup group and case-insensitivity of the pattern are left out. */
  function MatchAt(s: string, name: string): (len: Option<nat>)
    ensures len.Some? ==> 4 + |name| <= len.value <= |s|
    ensures len.Some? ==> s[..2] == "[[" && s[2..2 + |name|] == name && s[len.value - 2..len.value] == "]]"
                          && ']' !in s[2 + |name|..len.value - 2]
  {
    var start := 2 + |name|;
    if |s| < start || s[..2] != "[[" || s[2..start] != name then None
    else
      var k := SpanUntil(s[start..], ']');
      if start + k + 1 < |s| && s[start + k + 1] == ']' then Some(start + k + 2) else None
  }

  /** `preg_replace_callback`: placeholders for `name` are found left to right,
      without overlap, and each is replaced by what `callback` makes of it. */
  function Substitute(s: string, name: string, callback: string -> string): string
    decreases |s|
  {
    if |s| == 0 then ""
    else
      match MatchAt(s, name)
      case Some(len) => callback(s[..len]) + Substitute(s[len..], name, callback)
      case None => [s[0]] + Substitute(s[1..], name, callback)
  }

  /** The callback of `replace_resources`: the module named `name` with html
      `html`. */
  function TagCallback(name: string, html: string, rewriteTagged: (string, string) -> string): string -> string {
    term => ReplaceTag(term, name, html, rewriteTagged)
  }

  /** A summary that never opens a placeholder for `name` is left as it is. */
  lemma {:induction false} SubstituteWithoutPlaceholder(s: string, name: string, callback: string -> string)
    requires !Contains(s, "[[" + name)
    ensures Substitute(s, name, callback) == s
    decreases |s|
  {
    if |s| > 0 {
      var open := "[[" + name;
      assert !OccursAt(s, open, 0);
      if |s| >= |open| {
        assert s[..|open|] == s[..2] + s[2..|open|];
      }
      if Contains(s[1..], open) {
        var j: nat :| j <= |s| - 1 && OccursAt(s[1..], open, j);
        OccursShift(s, open, j);
      }
      SubstituteWithoutPlaceholder(s[1..], name, callback);
    }
  }

  /** The placeholder `[[name...]]`, with `rest` between the name and `]]`. */
  function Placeholder(name: string, rest: string): string {
    "[[" + name + rest + "]]"
  }

  /** A placeholder at the head of the text is matched to its closing `]]`. */
  lemma {:induction false} MatchAtPlaceholder(name: string, mid: string, b: string)
    requires ']' !in mid
    ensures MatchAt(Placeholder(name, mid) + b, name) == Some(|Placeholder(name, mid)|)
  {
    var s := Placeholder(name, mid) + b;
    var start := 2 + |name|;
    assert s[..2] == "[[" && s[2..start] == name;
    assert s[start..] == mid + ("]]" + b);
    SpanUntilStops(mid, "]]" + b, ']');
    assert s[start + |mid| + 1] == ']';
  }

  /** A character other than `[` never opens a placeholder. */
  lemma {:induction false} SubstituteSkips(s: string, name: string, callback: string -> string)
    requires |s| > 0 && s[0] != '['
    ensures Substitute(s, name, callback)
         == [s[0]] + Substitute(s[1..], name, callback)
  {
    assert |s| >= 2 ==> s[..2][0] == s[0];
  }

  /** A placeholder at the head is replaced whole. */
  lemma {:induction false} SubstituteHead(name: string, mid: string, b: string, callback: string -> string)
    requires ']' !in mid
    ensures Substitute(Placeholder(name, mid) + b, name, callback)
         == callback(Placeholder(name, mid))
            + Substitute(b, name, callback)
  {
    var p := Placeholder(name, mid);
    MatchAtPlaceholder(name, mid, b);
    assert (p + b)[..|p|] == p && (p + b)[|p|..] == b;
  }

  /** Text without `[` passes through the scan unchanged. */
  lemma {:induction false} SubstituteSkipsPrefix(a: string, t: string, name: string,
                                                 callback: string -> string)
    requires '[' !in a
    ensures Substitute(a + t, name, callback) == a + Substitute(t, name, callback)
    decreases |a|
  {
    if |a| == 0 {
      assert a + t == t;
    } else {
      var s := a + t;
      SubstituteSkips(s, name, callback);
      assert s[1..] == a[1..] + t;
      SubstituteSkipsPrefix(a[1..], t, name, callback);
      var rest := Substitute(t, name, callback);
      assert [a[0]] + (a[1..] + rest) == a + rest;
    }
  }

  /** The first placeholder after bracket-free text is handed to the
      callback whole, and scanning resumes after its `]]`. */
  lemma {:induction false} SubstituteAtPlaceholder(a: string, name: string, mid: string, b: string,
                                callback: string -> string)
    requires '[' !in a && ']' !in mid
    ensures Substitute(a + Placeholder(name, mid) + b, name, callback)
         == a + callback(Placeholder(name, mid)) + Substitute(b, name, callback)
  {
    var p := Placeholder(name, mid);
    assert a + p + b == a + (p + b);
    SubstituteSkipsPrefix(a, p + b, name, callback);
    SubstituteHead(name, mid, b, callback);
  }

  /** A summary holding one `[[Name]]` after bracket-free text gets the
      module's html in its place and nothing else changes. */
  lemma {:induction false} SubstituteName(a: string, name: string, b: string, html: string,
                       rewriteTagged: (string, string) -> string)
    requires '[' !in a && |name| > 0 && PlainName(name) && !Contains(b, "[[" + name)
    ensures Substitute(a + Placeholder(name, "") + b, name, TagCallback(name, html, rewriteTagged))
         == a + NameHtml(name, html) + b
  {
    var callback := TagCallback(name, html, rewriteTagged);
    SubstituteAtPlaceholder(a, name, "", b, callback);
    assert Placeholder(name, "") == "[[" + name + "]]";
    ReplaceTagOfName(name, html, rewriteTagged);
    SubstituteWithoutPlaceholder(b, name, callback);
  }

  /** A summary holding one `[[Name:alternative]]` after bracket-free text
      gets the module's html, naming it by the alternative text, in its place. */
  lemma {:induction false} SubstituteAlternative(a: string, name: string, alt: string, b: string, html: string,
                              rewriteTagged: (string, string) -> string)
    requires '[' !in a && |name| > 0 && Plain(name) && Plain(alt) && !Contains(b, "[[" + name)
    ensures DropNul(name) != "" ==>
              Substitute(a + Placeholder(name, ":" + alt) + b, name, TagCallback(name, html, rewriteTagged))
              == a + ReplaceAll(html, name, DropNul(alt)) + b
    ensures DropNul(name) == "" ==>
              Substitute(a + Placeholder(name, ":" + alt) + b, name, TagCallback(name, html, rewriteTagged))
              == a + ReplaceAll(html, name, ":" + DropNul(alt)) + b
  {
    var callback := TagCallback(name, html, rewriteTagged);
    assert ']' !in ":" + alt;
    SubstituteAtPlaceholder(a, name, ":" + alt, b, callback);
    assert Placeholder(name, ":" + alt) == "[[" + name + ":" + alt + "]]";
    ReplaceTagOfAlternative(name, alt, html, rewriteTagged);
    SubstituteWithoutPlaceholder(b, name, callback);
  }
}
