/** Which section a course page shows when it is opened
    (the section resolution in the format's constructor). */
module DisplaySection {
  import opened Optional
  import opened Course

  /** The section chosen before access is checked: a requested section that
      exists, otherwise the section the user displayed last if it is not past the
      end, otherwise a positive course marker, otherwise 0; anything out of range
      becomes 0, and in multipage mode 0 becomes 1 when there is a section 1. */
  function PreferredSection(requested: int, lastDisplayed: Option<int>, marker: int,
                            courseDisplay: int, numSections: nat): (r: nat)
    ensures r <= numSections
  {
    var chosen :=
      if 0 <= requested <= numSections then requested
      else if lastDisplayed.Some? && lastDisplayed.value <= numSections then lastDisplayed.value
      else if marker > 0 then marker
      else 0;
    var clamped := if chosen < 0 || chosen > numSections then 0 else chosen;
    if IsMultipage(courseDisplay) && clamped == 0 && numSections >= 1 then 1 else clamped
  }

  /** A section the user may be sent to instead: a top-level tab that is
      available and visible to the user. Numbers past the end never qualify. */
  predicate IsFallbackTab(ss: Sections, k: int) {
    0 <= k < |ss| && ss[k].level == 0 && ss[k].available && ss[k].uservisible
  }

  /** The search of the fallback loop: the first qualifying section from `k` on. */
  function FirstFallbackFrom(ss: Sections, k: nat): (r: Option<nat>)
    ensures r.Some? ==> k <= r.value && IsFallbackTab(ss, r.value)
    ensures r.Some? ==> forall j :: k <= j < r.value ==> !IsFallbackTab(ss, j)
    ensures r.None? ==> forall j :: k <= j ==> !IsFallbackTab(ss, j)
    decreases |ss| - k
  {
    if k >= |ss| then None
    else if IsFallbackTab(ss, k) then Some(k)
    else FirstFallbackFrom(ss, k + 1)
  }

  /** Where the fallback search starts: section 1 whenever the course display
      setting is set at all, section 0 otherwise. */
  function FallbackStart(courseDisplay: int): nat {
    if courseDisplay != 0 then 1 else 0
  }

  predicate UserCanOpen(s: Section) {
    s.uservisible && s.available
  }

  /** The section the page displays. */
  function ResolveDisplaySection(requested: int, lastDisplayed: Option<int>, marker: int,
                                 courseDisplay: int, canViewHidden: bool, ss: Sections): (r: nat)
    ensures r <= NumSections(ss)
    ensures var p := PreferredSection(requested, lastDisplayed, marker, courseDisplay, NumSections(ss));
            canViewHidden || UserCanOpen(ss[p]) ==> r == p
    ensures var p := PreferredSection(requested, lastDisplayed, marker, courseDisplay, NumSections(ss));
            var k0 := FallbackStart(courseDisplay);
            !canViewHidden && !UserCanOpen(ss[p]) ==>
              (k0 <= r && IsFallbackTab(ss, r) && forall j :: k0 <= j < r ==> !IsFallbackTab(ss, j))
              || (r == 0 && forall j :: k0 <= j ==> !IsFallbackTab(ss, j))
  {
    var p := PreferredSection(requested, lastDisplayed, marker, courseDisplay, NumSections(ss));
    if !canViewHidden && !UserCanOpen(ss[p]) then
      match FirstFallbackFrom(ss, FallbackStart(courseDisplay))
      case Some(k) => k
      case None => 0
    else p
  }

  /** A user who cannot see hidden sections only lands on a section they can
      open, unless no top-level tab from the search start on is open to them. */
  lemma {:induction false} ResolvedSectionIsOpen(requested: int, lastDisplayed: Option<int>, marker: int,
                              courseDisplay: int, ss: Sections)
    ensures var r := ResolveDisplaySection(requested, lastDisplayed, marker, courseDisplay, false, ss);
            UserCanOpen(ss[r]) || forall j :: FallbackStart(courseDisplay) <= j ==> !IsFallbackTab(ss, j)
  {
  }

  /** An existing requested section is used as it is (multipage mode only
      replaces a requested 0 by 1). */
  lemma {:induction false} RequestedSectionFirst(requested: int, lastDisplayed: Option<int>, marker: int,
                              courseDisplay: int, numSections: nat)
    requires 0 <= requested <= numSections
    ensures var r := PreferredSection(requested, lastDisplayed, marker, courseDisplay, numSections);
            r == requested || (IsMultipage(courseDisplay) && requested == 0 && r == 1)
  {
  }

  /** Without a usable request, the last displayed section comes next when it is
      in range, then a positive marker that is in range, then 0. */
  lemma {:induction false} FallbackPrecedence(requested: int, lastDisplayed: Option<int>, marker: int,
                           courseDisplay: int, numSections: nat)
    requires !(0 <= requested <= numSections)
    ensures var r := PreferredSection(requested, lastDisplayed, marker, courseDisplay, numSections);
            var r0 := if lastDisplayed.Some? && 0 <= lastDisplayed.value <= numSections then lastDisplayed.value
                      else if lastDisplayed.Some? && lastDisplayed.value < 0 then 0
                      else if 0 < marker <= numSections then marker
                      else 0;
            r == (if IsMultipage(courseDisplay) && r0 == 0 && numSections >= 1 then 1 else r0)
  {
  }

  /** Re-resolving with the resolved section remembered and nothing requested
      gives the same section again, except in one case: in multipage mode a
      failed search yields 0, and the preferred 0 then becomes 1. */
  lemma {:induction false} ReopenKeepsSection(requested: int, lastDisplayed: Option<int>, marker: int,
                                              courseDisplay: int, canViewHidden: bool, ss: Sections, again: int)
    requires !(0 <= again <= NumSections(ss))
    ensures var r := ResolveDisplaySection(requested, lastDisplayed, marker, courseDisplay, canViewHidden, ss);
            var r' := ResolveDisplaySection(again, Some(r), marker, courseDisplay, canViewHidden, ss);
            r' == r || (IsMultipage(courseDisplay) && r == 0 && r' == 1)
  {
    var n := NumSections(ss);
    var p := PreferredSection(requested, lastDisplayed, marker, courseDisplay, n);
    var r := ResolveDisplaySection(requested, lastDisplayed, marker, courseDisplay, canViewHidden, ss);
    var p' := PreferredSection(again, Some(r), marker, courseDisplay, n);
    assert p' == r || (IsMultipage(courseDisplay) && r == 0 && n >= 1 && p' == 1);
    if !canViewHidden && !UserCanOpen(ss[r]) {
      assert r != p || (!canViewHidden && !UserCanOpen(ss[p]));
      assert FirstFallbackFrom(ss, FallbackStart(courseDisplay)).None?;
    }
  }

  /** The state of one request that the constructor reads and writes: whether
      it has already run (`self::$loaded`), the global `$section` (None when
      it is not set) and the section each course was last displayed on
      (`$USER->display`). */
  datatype RequestState = RequestState(loaded: bool, section: Option<int>, display: map<nat, int>)

  /** The page types on which the constructor resolves the section. */
  predicate IsCourseViewPage(pageType: string) {
    pageType == "course-view-onetopicplus" || pageType == "course-view"
  }

  /** Whether the constructor does its work at all: once per request, with
      `$section` set, a course id, and on a course page. */
  predicate Resolves(st: RequestState, courseId: nat, pageType: string) {
    !st.loaded && st.section.Some? && courseId != 0 && IsCourseViewPage(pageType)
  }

  /** The constructor: the `section` url parameter (or -1) replaces `$section`
      unless a section id was given, the section is resolved against the
      remembered one, and the result is stored as `$section` and as the
      course's last displayed section. */
  function Construct(st: RequestState, courseId: nat, pageType: string, sectionId: int, urlSection: int,
                     marker: int, courseDisplay: int, canViewHidden: bool, ss: Sections): (r: RequestState)
    ensures !Resolves(st, courseId, pageType) ==> r == st
    ensures Resolves(st, courseId, pageType) ==>
              r.loaded && r.section.Some? && 0 <= r.section.value <= NumSections(ss)
              && courseId in r.display && r.display[courseId] == r.section.value
    ensures forall c :: c != courseId ==> (c in r.display <==> c in st.display)
    ensures forall c :: c != courseId && c in st.display ==> c in r.display && r.display[c] == st.display[c]
  {
    if Resolves(st, courseId, pageType) then
      var requested := if sectionId <= 0 then urlSection else st.section.value;
      var last := if courseId in st.display then Some(st.display[courseId]) else None;
      var shown := ResolveDisplaySection(requested, last, marker, courseDisplay, canViewHidden, ss);
      RequestState(true, Some(shown), st.display[courseId := shown])
    else st
  }

  /** The section stored is the section resolved from the request. */
  lemma {:induction false} ConstructStoresResolved(st: RequestState, courseId: nat, pageType: string, sectionId: int,
                                                   urlSection: int, marker: int, courseDisplay: int,
                                                   canViewHidden: bool, ss: Sections)
    requires Resolves(st, courseId, pageType) && sectionId <= 0
    ensures var r := Construct(st, courseId, pageType, sectionId, urlSection, marker, courseDisplay, canViewHidden, ss);
            var last := if courseId in st.display then Some(st.display[courseId]) else None;
            r.section == Some(ResolveDisplaySection(urlSection, last, marker, courseDisplay, canViewHidden, ss))
  {
  }

  /** A second construction in the same request changes nothing. */
  lemma {:induction false} ConstructOnce(st: RequestState, courseId: nat, pageType: string, sectionId: int,
                                         urlSection: int, marker: int, courseDisplay: int, canViewHidden: bool,
                                         ss: Sections, courseId2: nat, pageType2: string, sectionId2: int,
                                         urlSection2: int, marker2: int, courseDisplay2: int, canViewHidden2: bool,
                                         ss2: Sections)
    requires Resolves(st, courseId, pageType)
    ensures var r := Construct(st, courseId, pageType, sectionId, urlSection, marker, courseDisplay, canViewHidden, ss);
            Construct(r, courseId2, pageType2, sectionId2, urlSection2, marker2, courseDisplay2, canViewHidden2, ss2) == r
  {
  }

  /** A later request for the same course without a section parameter opens
      the section the earlier one stored, except that in multipage mode a
      stored 0 may turn into 1. */
  lemma {:induction false} NextRequestReopens(st: RequestState, courseId: nat, pageType: string, sectionId: int,
                                              urlSection: int, marker: int, courseDisplay: int, canViewHidden: bool,
                                              ss: Sections, global: int)
    requires Resolves(st, courseId, pageType)
    ensures var r := Construct(st, courseId, pageType, sectionId, urlSection, marker, courseDisplay, canViewHidden, ss);
            var next := Construct(RequestState(false, Some(global), r.display), courseId, pageType, 0, -1,
                                  marker, courseDisplay, canViewHidden, ss);
            next.section == r.section
            || (IsMultipage(courseDisplay) && r.section == Some(0) && next.section == Some(1))
  {
    var requested := if sectionId <= 0 then urlSection else st.section.value;
    var last := if courseId in st.display then Some(st.display[courseId]) else None;
    ReopenKeepsSection(requested, last, marker, courseDisplay, canViewHidden, ss, -1);
  }
}
