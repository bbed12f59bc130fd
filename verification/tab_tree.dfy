/** The tab bar of a single-section page: one tab per shown section, child
    tabs grouped under the last top-level tab, and an index tab opening each
    group of child tabs (the tab-building loop of `print_single_section_page`). */
module TabTree {
  import opened Course
  import opened PhpStrings

  /** One tab: the section it opens, its text and tooltip, the CSS classes,
      and whether it can be followed and is highlighted. */
  datatype Tab = Tab(section: nat, content: string, title: string, specialClass: TabClass, active: bool, selected: bool)

  /** The CSS classes of a tab, kept as the facts they encode: section
      position, level, highlighted, dimmed, and index tab. */
  datatype TabClass = TabClass(position: nat, level: int, marker: bool, dimmed: bool, initial: bool)

  /** A top-level tab with its child tabs; when there are children the first
      one is the index tab that stands for the parent section itself. */
  datatype TopTab = TopTab(tab: Tab, children: seq<Tab>)

  /** What the loop consults besides the sections: the course display mode,
      `hiddensections`, the highlighted section, whether the user may view
      hidden sections, and the section being displayed. */
  datatype TabSettings = TabSettings(courseDisplay: int, hiddenSections: int, marker: int,
                                     canViewHidden: bool, displaySection: int)

  /** The language string `index`, used when the parent section sets no
      first tab text. */
  const IndexTabText := "Index"

  function IntToString(i: int): string {
    if i < 0 then "-" + NatToString(-i) else NatToString(i)
  }

  /** A section gets a tab when it is open, when the user may view hidden
      sections, or when hidden sections are not set to be completely invisible. */
  predicate Shown(ss: Sections, k: nat, st: TabSettings)
    requires k < |ss|
  {
    Open(ss[k]) || st.canViewHidden || st.hiddenSections != 1
  }

  function SpecialClass(ss: Sections, k: nat, st: TabSettings): TabClass
    requires k < |ss|
  {
    TabClass(k, ss[k].level, st.marker == k, !Open(ss[k]), false)
  }

  /** The class attribute as written into the page. */
  function Render(c: TabClass): string {
    "tab_position_" + NatToString(c.position) + " tab_level_" + IntToString(c.level)
    + (if c.marker then " marker " else "")
    + (if c.dimmed then " dimmed disabled " else "")
    + (if c.initial then " tab_initial " else "")
  }

  /** The index tab's classes: level 0 turned into level 1, marked initial. */
  function IndexClass(c: TabClass): TabClass {
    c.(level := if c.level == 0 then 1 else c.level, initial := true)
  }

  /** The tab made for section k before it is placed; it is inactive exactly
      when the section is closed and the user may not view hidden sections. */
  function SectionTab(ss: Sections, k: nat, st: TabSettings): Tab
    requires k < |ss|
  {
    Tab(k, ss[k].name, ss[k].name, SpecialClass(ss, k, st), Open(ss[k]) || st.canViewHidden, st.displaySection == k)
  }

  /** The do-while that walks back from `idx` over child sections (level 1)
      without going below `first`, to find the section the index tab stands for. */
  function ScanParent(ss: Sections, idx: nat, first: nat): (p: nat)
    requires idx < |ss|
    ensures p <= idx && (p == idx || p >= first)
    ensures forall q :: p < q <= idx ==> ss[q].level == 1
    ensures ss[p].level != 1 || p <= first
    decreases idx
  {
    if ss[idx].level == 1 && idx >= first + 1 then ScanParent(ss, idx - 1, first) else idx
  }

  /** The index tab: a copy of the parent tab marked as level 1 and initial,
      labelled with the scanned section's first tab text (or "Index"),
      always active, and selected when the scanned section is displayed. */
  function IndexTab(section: nat, parentClass: TabClass, ss: Sections, scanned: nat, st: TabSettings): Tab
    requires scanned < |ss|
  {
    var text := if PhpEmpty(ss[scanned].firstTabText) then IndexTabText else ss[scanned].firstTabText;
    Tab(section, text, text, IndexClass(parentClass),
        true, st.displaySection == scanned)
  }

  /** Placing the tab of shown section k: a level-0 section, or the first one
      shown, opens a new top-level tab; any other becomes a child of the last
      top-level tab, the first child bringing the index tab with it. A selected
      child or index selects its parent. */
  function Place(ss: Sections, st: TabSettings, first: nat, k: nat, tops: seq<TopTab>): seq<TopTab>
    requires k < |ss| && (|tops| > 0 ==> k > 0)
  {
    var t := SectionTab(ss, k, st);
    if ss[k].level == 0 || |tops| == 0 then tops + [TopTab(t, [])]
    else
      var last := tops[|tops| - 1];
      var parent := last.tab;
      if |last.children| == 0 then
        var index := IndexTab(parent.section, parent.specialClass, ss, ScanParent(ss, k - 1, first), st);
        tops[|tops| - 1 := TopTab(parent.(selected := parent.selected || index.selected || t.selected), [index, t])]
      else
        tops[|tops| - 1 := TopTab(parent.(selected := parent.selected || t.selected), last.children + [t])]
  }

  /** One pass of the loop for section k: section 0 is skipped in multipage
      mode, a shown section is placed, any other section is passed over. */
  function Step(ss: Sections, st: TabSettings, k: nat, tops: seq<TopTab>): seq<TopTab>
    requires k < |ss| && (|tops| > 0 ==> k > 0)
  {
    if IsMultipage(st.courseDisplay) && k == 0 then tops
    else if Shown(ss, k, st) then Place(ss, st, FirstSection(st.courseDisplay), k, tops)
    else tops
  }

  /** The loop from section k to the last section. */
  function BuildFrom(ss: Sections, st: TabSettings, k: nat, tops: seq<TopTab>): seq<TopTab>
    requires |tops| > 0 ==> k > 0
    decreases |ss| - k
  {
    if k >= |ss| then tops else BuildFrom(ss, st, k + 1, Step(ss, st, k, tops))
  }

  function BuildTabs(ss: Sections, st: TabSettings): seq<TopTab> {
    BuildFrom(ss, st, 0, [])
  }

  // ---------------------------------------------------------------------------
  // Reference description of the tab bar

  /** The shown sections in [lo, hi), in increasing order. */
  function ShownList(ss: Sections, st: TabSettings, lo: nat, hi: nat): seq<nat>
    requires hi <= |ss|
    decreases hi
  {
    if hi <= lo then [] else ShownList(ss, st, lo, hi - 1) + (if Shown(ss, hi - 1, st) then [hi - 1] else [])
  }

  function SectionsOf(cs: seq<Tab>): seq<nat> {
    if |cs| == 0 then [] else SectionsOf(cs[..|cs| - 1]) + [cs[|cs| - 1].section]
  }

  /** The sections one top-level tab opens, index tab left out. */
  function BlockSections(t: TopTab): seq<nat> {
    [t.tab.section] + (if |t.children| == 0 then [] else SectionsOf(t.children[1..]))
  }

  /** All sections with a tab of their own, left to right. */
  function Flatten(tops: seq<TopTab>): seq<nat> {
    if |tops| == 0 then [] else Flatten(tops[..|tops| - 1]) + BlockSections(tops[|tops| - 1])
  }

  /** Some tab of the list is selected. */
  predicate AnySelected(cs: seq<Tab>) {
    |cs| > 0 && (AnySelected(cs[..|cs| - 1]) || cs[|cs| - 1].selected)
  }

  /** Child tabs are the tabs of sections below the top level. */
  predicate ChildTabsOk(ss: Sections, st: TabSettings, cs: seq<Tab>) {
    |cs| == 0
    || (ChildTabsOk(ss, st, cs[..|cs| - 1])
        && var c := cs[|cs| - 1];
           c.section < |ss| && Shown(ss, c.section, st) && ss[c.section].level != 0
           && c == SectionTab(ss, c.section, st))
  }

  /** What a top-level tab at position `isFirst` (the first or a later one)
      must look like. */
  predicate TopOk(ss: Sections, st: TabSettings, first: nat, t: TopTab, isFirst: bool) {
    var s := t.tab.section;
    s < |ss| && Shown(ss, s, st) && (isFirst || ss[s].level == 0) && |t.children| != 1
    && ParentTabOk(ss, st, t) && ChildrenOk(ss, st, t) && IndexOk(ss, st, first, t)
  }

  /** The top-level tab is its section's tab, selected also when a child is. */
  predicate ParentTabOk(ss: Sections, st: TabSettings, t: TopTab) {
    var s := t.tab.section;
    s < |ss| && t.tab == SectionTab(ss, s, st).(selected := st.displaySection == s || AnySelected(t.children))
  }

  predicate ChildrenOk(ss: Sections, st: TabSettings, t: TopTab) {
    |t.children| > 1 ==> ChildTabsOk(ss, st, t.children[1..])
  }

  /** The first child is the index tab made when the second one was placed. */
  predicate IndexOk(ss: Sections, st: TabSettings, first: nat, t: TopTab) {
    |t.children| > 1 ==>
      1 <= t.children[1].section < |ss|
      && t.children[0] == IndexTab(t.tab.section, t.tab.specialClass, ss, ScanParent(ss, t.children[1].section - 1, first), st)
  }

  /** The loop invariant: the tabs so far cover exactly the shown sections
      below k, in order, and every top-level tab is well formed. */
  predicate WellBuilt(ss: Sections, st: TabSettings, k: nat, tops: seq<TopTab>)
    requires k <= |ss|
  {
    var first := FirstSection(st.courseDisplay);
    Flatten(tops) == ShownList(ss, st, first, k) && AllTopOk(ss, st, first, tops)
  }

  /** Every top-level tab is well formed, the first one allowed any level. */
  predicate AllTopOk(ss: Sections, st: TabSettings, first: nat, tops: seq<TopTab>) {
    |tops| == 0 || (AllTopOk(ss, st, first, tops[..|tops| - 1]) && TopOk(ss, st, first, tops[|tops| - 1], |tops| == 1))
  }

  // ---------------------------------------------------------------------------
  // The loop builds the reference tab bar

  lemma {:induction false} FlattenAppend(tops: seq<TopTab>, t: TopTab)
    ensures Flatten(tops + [t]) == Flatten(tops) + BlockSections(t)
  {
    assert (tops + [t])[..|tops|] == tops;
  }

  lemma {:induction false} FlattenReplaceLast(tops: seq<TopTab>, t: TopTab)
    requires |tops| > 0
    ensures Flatten(tops[|tops| - 1 := t]) == Flatten(tops[..|tops| - 1]) + BlockSections(t)
  {
    assert tops[|tops| - 1 := t][..|tops| - 1] == tops[..|tops| - 1];
  }

  lemma {:induction false} AnySelectedAppend(cs: seq<Tab>, t: Tab)
    ensures AnySelected(cs + [t]) <==> AnySelected(cs) || t.selected
  {
    assert (cs + [t])[..|cs|] == cs;
  }

  lemma {:induction false} ShownListStep(ss: Sections, st: TabSettings, lo: nat, k: nat)
    requires lo <= k < |ss|
    ensures ShownList(ss, st, lo, k + 1) == ShownList(ss, st, lo, k) + (if Shown(ss, k, st) then [k] else [])
  {
  }

  /** A new top-level tab keeps the invariant. */
  lemma {:induction false} PlaceTopPreserves(ss: Sections, st: TabSettings, k: nat, tops: seq<TopTab>)
    requires FirstSection(st.courseDisplay) <= k < |ss| && Shown(ss, k, st)
    requires ss[k].level == 0 || |tops| == 0
    requires WellBuilt(ss, st, k, tops)
    ensures WellBuilt(ss, st, k + 1, tops + [TopTab(SectionTab(ss, k, st), [])])
  {
    var first := FirstSection(st.courseDisplay);
    var t := TopTab(SectionTab(ss, k, st), []);
    FlattenAppend(tops, t);
    ShownListStep(ss, st, first, k);
    assert (tops + [t])[..|tops|] == tops;
    assert !AnySelected(t.children);
    assert TopOk(ss, st, first, t, |tops| == 0);
  }

  /** The first child of a top-level tab brings the index tab along. */
  lemma {:induction false} FirstChildTopOk(ss: Sections, st: TabSettings, first: nat, last: TopTab, isFirst: bool, k: nat)
    requires k < |ss| && k > 0 && ss[k].level != 0 && Shown(ss, k, st)
    requires TopOk(ss, st, first, last, isFirst) && |last.children| == 0
    ensures var parent := last.tab;
            var t := SectionTab(ss, k, st);
            var index := IndexTab(parent.section, parent.specialClass, ss, ScanParent(ss, k - 1, first), st);
            var top := TopTab(parent.(selected := parent.selected || index.selected || t.selected), [index, t]);
            TopOk(ss, st, first, top, isFirst) && BlockSections(top) == BlockSections(last) + [k]
  {
    var parent := last.tab;
    var t := SectionTab(ss, k, st);
    var index := IndexTab(parent.section, parent.specialClass, ss, ScanParent(ss, k - 1, first), st);
    var cs := [index, t];
    assert AnySelected(cs) <==> index.selected || t.selected by {
      AnySelectedAppend([index], t);
      AnySelectedAppend([], index);
      assert [index] + [t] == cs && [] + [index] == [index];
    }
    assert SectionsOf(cs[1..]) == [k];
    assert cs[1..][..0] == [];
  }

  /** A further child is appended after the earlier ones. */
  lemma {:induction false} NextChildTopOk(ss: Sections, st: TabSettings, first: nat, last: TopTab, isFirst: bool, k: nat)
    requires k < |ss| && ss[k].level != 0 && Shown(ss, k, st)
    requires TopOk(ss, st, first, last, isFirst) && |last.children| > 0
    ensures var parent := last.tab;
            var t := SectionTab(ss, k, st);
            var top := TopTab(parent.(selected := parent.selected || t.selected), last.children + [t]);
            TopOk(ss, st, first, top, isFirst) && BlockSections(top) == BlockSections(last) + [k]
  {
    var t := SectionTab(ss, k, st);
    var top := TopTab(last.tab.(selected := last.tab.selected || t.selected), last.children + [t]);
    ParentKept(ss, st, last, t);
    ChildrenKept(ss, st, last, t);
    IndexKept(ss, st, first, last, top);
  }

  /** Appending a child keeps the parent tab well formed. */
  lemma {:induction false} ParentKept(ss: Sections, st: TabSettings, last: TopTab, t: Tab)
    requires ParentTabOk(ss, st, last)
    ensures ParentTabOk(ss, st, TopTab(last.tab.(selected := last.tab.selected || t.selected), last.children + [t]))
  {
    AnySelectedAppend(last.children, t);
  }

  /** Appending a child keeps the child tabs well formed and adds its section
      to the group. */
  lemma {:induction false} ChildrenKept(ss: Sections, st: TabSettings, last: TopTab, t: Tab)
    requires ChildrenOk(ss, st, last) && |last.children| > 1
    requires t.section < |ss| && Shown(ss, t.section, st) && ss[t.section].level != 0
    requires t == SectionTab(ss, t.section, st)
    ensures var top := TopTab(last.tab.(selected := last.tab.selected || t.selected), last.children + [t]);
            ChildrenOk(ss, st, top) && BlockSections(top) == BlockSections(last) + [t.section]
            && top.children[0] == last.children[0] && top.children[1] == last.children[1]
  {
    var tail := last.children[1..];
    ChildTabsAppend(ss, st, tail, t);
    assert (last.children + [t])[1..] == tail + [t];
  }

  /** Appending a child leaves the index tab as it was. */
  lemma {:induction false} IndexKept(ss: Sections, st: TabSettings, first: nat, last: TopTab, top: TopTab)
    requires IndexOk(ss, st, first, last) && |last.children| > 1
    requires top.tab.section == last.tab.section && top.tab.specialClass == last.tab.specialClass
    requires |top.children| > 1 && top.children[0] == last.children[0] && top.children[1] == last.children[1]
    ensures IndexOk(ss, st, first, top)
  {
  }

  /** A child tab appended to well-formed child tabs. */
  lemma {:induction false} ChildTabsAppend(ss: Sections, st: TabSettings, xs: seq<Tab>, t: Tab)
    requires ChildTabsOk(ss, st, xs)
    requires t.section < |ss| && Shown(ss, t.section, st) && ss[t.section].level != 0
    requires t == SectionTab(ss, t.section, st)
    ensures ChildTabsOk(ss, st, xs + [t])
    ensures SectionsOf(xs + [t]) == SectionsOf(xs) + [t.section]
  {
    assert (xs + [t])[..|xs|] == xs;
  }

  /** Replacing the last top-level tab by a well-formed one keeps the invariant. */
  lemma {:induction false} ReplaceLastPreserves(ss: Sections, st: TabSettings, k: nat, tops: seq<TopTab>, top: TopTab)
    requires k < |ss| && |tops| > 0
    requires WellBuilt(ss, st, k, tops)
    requires TopOk(ss, st, FirstSection(st.courseDisplay), top, |tops| == 1)
    requires BlockSections(top) == BlockSections(tops[|tops| - 1]) + [k]
    requires Shown(ss, k, st) && FirstSection(st.courseDisplay) <= k
    ensures WellBuilt(ss, st, k + 1, tops[|tops| - 1 := top])
  {
    var first := FirstSection(st.courseDisplay);
    var n := |tops| - 1;
    var placed := tops[n := top];
    ShownListStep(ss, st, first, k);
    FlattenReplaceLast(tops, top);
    assert Flatten(tops) == Flatten(tops[..n]) + BlockSections(tops[n]);
    assert placed[..n] == tops[..n];
  }

  /** A child tab keeps the invariant. */
  lemma {:induction false} PlaceChildPreserves(ss: Sections, st: TabSettings, k: nat, tops: seq<TopTab>)
    requires FirstSection(st.courseDisplay) <= k < |ss| && Shown(ss, k, st)
    requires ss[k].level != 0 && |tops| > 0 && k > 0
    requires WellBuilt(ss, st, k, tops)
    ensures WellBuilt(ss, st, k + 1, Place(ss, st, FirstSection(st.courseDisplay), k, tops))
  {
    var first := FirstSection(st.courseDisplay);
    var n := |tops| - 1;
    var last := tops[n];
    var parent := last.tab;
    var t := SectionTab(ss, k, st);
    assert TopOk(ss, st, first, last, n == 0);
    if |last.children| == 0 {
      var index := IndexTab(parent.section, parent.specialClass, ss, ScanParent(ss, k - 1, first), st);
      var top := TopTab(parent.(selected := parent.selected || index.selected || t.selected), [index, t]);
      FirstChildTopOk(ss, st, first, last, n == 0, k);
      ReplaceLastPreserves(ss, st, k, tops, top);
    } else {
      var top := TopTab(parent.(selected := parent.selected || t.selected), last.children + [t]);
      NextChildTopOk(ss, st, first, last, n == 0, k);
      ReplaceLastPreserves(ss, st, k, tops, top);
    }
  }

  /** Placing a shown section's tab keeps the invariant. */
  lemma {:induction false} PlacePreserves(ss: Sections, st: TabSettings, k: nat, tops: seq<TopTab>)
    requires FirstSection(st.courseDisplay) <= k < |ss| && Shown(ss, k, st)
    requires |tops| > 0 ==> k > 0
    requires WellBuilt(ss, st, k, tops)
    ensures WellBuilt(ss, st, k + 1, Place(ss, st, FirstSection(st.courseDisplay), k, tops))
  {
    if ss[k].level == 0 || |tops| == 0 {
      PlaceTopPreserves(ss, st, k, tops);
    } else {
      PlaceChildPreserves(ss, st, k, tops);
    }
  }

  /** Passing over a section without a tab keeps the invariant. */
  lemma {:induction false} SkipPreserves(ss: Sections, st: TabSettings, k: nat, tops: seq<TopTab>)
    requires k < |ss| && (k < FirstSection(st.courseDisplay) ==> |tops| == 0)
    requires k >= FirstSection(st.courseDisplay) ==> !Shown(ss, k, st)
    requires WellBuilt(ss, st, k, tops)
    ensures WellBuilt(ss, st, k + 1, tops)
  {
    var first := FirstSection(st.courseDisplay);
    if k >= first {
      ShownListStep(ss, st, first, k);
    }
  }

  /** The invariant of the loop at section k. */
  predicate LoopInv(ss: Sections, st: TabSettings, k: nat, tops: seq<TopTab>) {
    k <= |ss| && (|tops| > 0 ==> k > 0) && (k < FirstSection(st.courseDisplay) ==> |tops| == 0)
    && WellBuilt(ss, st, k, tops)
  }

  lemma {:induction false} StepPreserves(ss: Sections, st: TabSettings, k: nat, tops: seq<TopTab>)
    requires k < |ss| && LoopInv(ss, st, k, tops)
    ensures LoopInv(ss, st, k + 1, Step(ss, st, k, tops))
  {
    if IsMultipage(st.courseDisplay) && k == 0 {
      SkipPreserves(ss, st, k, tops);
    } else if Shown(ss, k, st) {
      PlacePreserves(ss, st, k, tops);
    } else {
      SkipPreserves(ss, st, k, tops);
    }
  }

  lemma {:induction false} BuildFromWellBuilt(ss: Sections, st: TabSettings, k: nat, tops: seq<TopTab>)
    requires LoopInv(ss, st, k, tops)
    ensures WellBuilt(ss, st, |ss|, BuildFrom(ss, st, k, tops))
    decreases |ss| - k
  {
    if k < |ss| {
      StepPreserves(ss, st, k, tops);
      BuildFromWellBuilt(ss, st, k + 1, Step(ss, st, k, tops));
    }
  }

  /** The tab bar the loop builds satisfies the reference description. */
  lemma {:induction false} BuildTabsWellBuilt(ss: Sections, st: TabSettings)
    ensures WellBuilt(ss, st, |ss|, BuildTabs(ss, st))
  {
    BuildFromWellBuilt(ss, st, 0, []);
  }

  // ---------------------------------------------------------------------------
  // What the tab bar looks like

  predicate Increasing(l: seq<nat>) {
    forall i, j :: 0 <= i < j < |l| ==> l[i] < l[j]
  }

  /** A section is listed exactly when it is shown and in range, and the list
      is strictly increasing. */
  lemma {:induction false} ShownListMembers(ss: Sections, st: TabSettings, lo: nat, hi: nat)
    requires hi <= |ss|
    ensures forall k :: k in ShownList(ss, st, lo, hi) <==> lo <= k < hi && Shown(ss, k, st)
    ensures Increasing(ShownList(ss, st, lo, hi))
    decreases hi
  {
    if hi > lo {
      ShownListMembers(ss, st, lo, hi - 1);
      var l' := ShownList(ss, st, lo, hi - 1);
      var l := ShownList(ss, st, lo, hi);
      assert l == l' + (if Shown(ss, hi - 1, st) then [hi - 1] else []);
      forall i, j | 0 <= i < j < |l| ensures l[i] < l[j] {
        assert l[i] == l'[i] && l'[i] in l';
        if j < |l'| {
          assert l[j] == l'[j];
          assert l'[i] < l'[j];
        } else {
          assert l[j] == hi - 1;
        }
      }
    }
  }

  lemma {:induction false} AllTopOkAt(ss: Sections, st: TabSettings, first: nat, tops: seq<TopTab>, i: nat)
    requires AllTopOk(ss, st, first, tops) && i < |tops|
    ensures TopOk(ss, st, first, tops[i], i == 0)
    decreases |tops|
  {
    if i < |tops| - 1 {
      AllTopOkAt(ss, st, first, tops[..|tops| - 1], i);
    }
  }

  lemma {:induction false} ChildTabsOkAt(ss: Sections, st: TabSettings, cs: seq<Tab>, j: nat)
    requires ChildTabsOk(ss, st, cs) && j < |cs|
    ensures cs[j].section < |ss| && Shown(ss, cs[j].section, st) && ss[cs[j].section].level != 0
            && cs[j] == SectionTab(ss, cs[j].section, st)
    decreases |cs|
  {
    if j < |cs| - 1 {
      ChildTabsOkAt(ss, st, cs[..|cs| - 1], j);
    }
  }

  /** Shape facts for any well-built tab bar. */
  lemma {:induction false} TopShapeCore(ss: Sections, st: TabSettings, tops: seq<TopTab>, i: nat)
    requires AllTopOk(ss, st, FirstSection(st.courseDisplay), tops) && i < |tops|
    ensures TopOk(ss, st, FirstSection(st.courseDisplay), tops[i], i == 0)
  {
    AllTopOkAt(ss, st, FirstSection(st.courseDisplay), tops, i);
  }

  lemma {:induction false} ChildShapeCore(ss: Sections, st: TabSettings, tops: seq<TopTab>, i: nat, j: nat)
    requires AllTopOk(ss, st, FirstSection(st.courseDisplay), tops)
    requires i < |tops| && 1 <= j < |tops[i].children|
    ensures var c := tops[i].children[j];
            c.section < |ss| && Shown(ss, c.section, st) && ss[c.section].level != 0
            && c == SectionTab(ss, c.section, st)
  {
    AllTopOkAt(ss, st, FirstSection(st.courseDisplay), tops, i);
    var cs := tops[i].children;
    assert ChildrenOk(ss, st, tops[i]);
    ChildTabsOkAt(ss, st, cs[1..], j - 1);
    assert cs[1..][j - 1] == cs[j];
  }

  /** Every shown section from the first tabbed section on has a tab of its own,
      no other section does, and they appear left to right in section order. */
  lemma {:induction false} TabsFollowShownSections(ss: Sections, st: TabSettings)
    ensures var order := Flatten(BuildTabs(ss, st));
            (forall k :: k in order <==> FirstSection(st.courseDisplay) <= k < |ss| && Shown(ss, k, st))
            && Increasing(order)
  {
    var tops := BuildTabs(ss, st);
    BuildTabsWellBuilt(ss, st);
    assert Flatten(tops) == ShownList(ss, st, FirstSection(st.courseDisplay), |ss|);
    ShownListMembers(ss, st, FirstSection(st.courseDisplay), |ss|);
  }

  /** A top-level tab: a shown section at level 0 (or the first shown one),
      labelled with the section name, active unless closed to a user who may
      not view hidden sections, and selected when its section or one of its
      children is displayed; it never has exactly one child. */
  lemma {:induction false} TopTabShape(ss: Sections, st: TabSettings, i: nat)
    requires i < |BuildTabs(ss, st)|
    ensures var t := BuildTabs(ss, st)[i];
            var s := t.tab.section;
            s < |ss| && Shown(ss, s, st) && (i == 0 || ss[s].level == 0)
            && t.tab.content == ss[s].name && t.tab.specialClass == SpecialClass(ss, s, st)
            && (t.tab.active <==> Open(ss[s]) || st.canViewHidden)
            && (t.tab.selected <==> st.displaySection == s || AnySelected(t.children))
            && |t.children| != 1
  {
    BuildTabsWellBuilt(ss, st);
    TopShapeCore(ss, st, BuildTabs(ss, st), i);
  }

  /** A child tab (any child but the index tab): a shown section below the top
      level, selected exactly when it is the displayed section. */
  lemma {:induction false} ChildTabShape(ss: Sections, st: TabSettings, i: nat, j: nat)
    requires i < |BuildTabs(ss, st)| && 1 <= j < |BuildTabs(ss, st)[i].children|
    ensures var c := BuildTabs(ss, st)[i].children[j];
            c.section < |ss| && Shown(ss, c.section, st) && ss[c.section].level != 0
            && c.content == ss[c.section].name
            && (c.active <==> Open(ss[c.section]) || st.canViewHidden)
            && (c.selected <==> st.displaySection == c.section)
  {
    BuildTabsWellBuilt(ss, st);
    ChildShapeCore(ss, st, BuildTabs(ss, st), i, j);
  }

  /** The index tab opening a group of children: it opens the parent's section,
      is always active, is labelled with the first tab text of the section the
      backward scan from the first child stops at (or "Index"), and is selected
      when that section is displayed. */
  lemma {:induction false} IndexTabShape(ss: Sections, st: TabSettings, i: nat)
    requires i < |BuildTabs(ss, st)| && |BuildTabs(ss, st)[i].children| > 1
    ensures var t := BuildTabs(ss, st)[i];
            var index := t.children[0];
            1 <= t.children[1].section < |ss|
            && var p := ScanParent(ss, t.children[1].section - 1, FirstSection(st.courseDisplay));
            index.section == t.tab.section && index.active
            && index.specialClass == IndexClass(t.tab.specialClass)
            && index.content == (if PhpEmpty(ss[p].firstTabText) then IndexTabText else ss[p].firstTabText)
            && (index.selected <==> st.displaySection == p)
  {
    BuildTabsWellBuilt(ss, st);
    TopShapeCore(ss, st, BuildTabs(ss, st), i);
  }
}
