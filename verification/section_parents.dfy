/** Child tabs and their parents: the map from each section to the top-level
    section it hangs under, and the availability hook that lets a hidden or
    unavailable parent switch its children off. */
module SectionParents {
  import opened Optional
  import opened Course

  /** Section `i` starts a new group: it is at or before the first tab section,
      or its level is not positive. */
  predicate IsTopLevel(ss: seq<Section>, firstSection: nat, i: nat)
    requires i < |ss|
  {
    i <= firstSection || ss[i].level <= 0
  }

  /** A parent as the map records it: its section number and the section object. */
  datatype Parent = Parent(number: nat, section: Section)

  /** Reference definition: the nearest section before `i` that starts a group. */
  function NearestTopLevelBefore(ss: seq<Section>, firstSection: nat, i: nat): (r: Option<nat>)
    requires i <= |ss|
    ensures r.Some? ==> r.value < i && IsTopLevel(ss, firstSection, r.value)
    ensures r.Some? ==> forall j :: r.value < j < i ==> !IsTopLevel(ss, firstSection, j)
    ensures r.None? ==> forall j :: 0 <= j < i ==> !IsTopLevel(ss, firstSection, j)
    decreases i
  {
    if i == 0 then None
    else if IsTopLevel(ss, firstSection, i - 1) then Some(i - 1)
    else NearestTopLevelBefore(ss, firstSection, i - 1)
  }

  /** The parent the reference definition assigns to section `i`. */
  function ExpectedParent(ss: seq<Section>, firstSection: nat, i: nat): Option<Parent>
    requires i < |ss|
  {
    if IsTopLevel(ss, firstSection, i) then None
    else match NearestTopLevelBefore(ss, firstSection, i)
      case None => None
      case Some(j) => Some(Parent(j, ss[j]))
  }

  /** The single forward scan over the sections from `i` on; `lastTop` is the
      most recent section that started a group. */
  function ParentScan(ss: seq<Section>, firstSection: nat, i: nat, lastTop: Option<nat>): (m: seq<Option<Parent>>)
    requires i <= |ss|
    requires lastTop == NearestTopLevelBefore(ss, firstSection, i)
    ensures |m| == |ss| - i
    ensures forall k :: i <= k < |ss| ==> m[k - i] == ExpectedParent(ss, firstSection, k)
    decreases |ss| - i
  {
    if i == |ss| then []
    else
      var top := IsTopLevel(ss, firstSection, i);
      var parent := if top || lastTop.None? then None else Some(Parent(lastTop.value, ss[lastTop.value]));
      [parent] + ParentScan(ss, firstSection, i + 1, if top then Some(i) else lastTop)
  }

  /** The parent map, indexed by section number. */
  function ParentMap(ss: Sections, courseDisplay: int): (m: seq<Option<Parent>>)
    ensures |m| == |ss|
    ensures forall i :: 0 <= i < |ss| ==> (m[i].None? <==> IsTopLevel(ss, FirstSection(courseDisplay), i))
    ensures forall i :: 0 <= i < |ss| && m[i].Some? ==>
              var j := m[i].value.number;
              j < i && m[i].value.section == ss[j] && IsTopLevel(ss, FirstSection(courseDisplay), j)
              && forall k :: j < k < i ==> !IsTopLevel(ss, FirstSection(courseDisplay), k)
  {
    var first := FirstSection(courseDisplay);
    var m := ParentScan(ss, first, 0, None);
    assert forall i :: 0 <= i < |ss| ==> m[i] == ExpectedParent(ss, first, i) by {
      forall i | 0 <= i < |ss| ensures m[i] == ExpectedParent(ss, first, i) {
        assert m[i - 0] == ExpectedParent(ss, first, i);
      }
    }
    assert IsTopLevel(ss, first, 0);
    assert forall i :: 0 < i < |ss| ==> NearestTopLevelBefore(ss, first, i).Some?;
    m
  }

  /** The format object's memo: the parent map, once it has been computed. */
  datatype FormatCache = FormatCache(parentSections: Option<seq<Option<Parent>>>)

  /** `fot_get_sections_extra`: computed on first use and returned from the memo after. */
  function SectionsExtra(cache: FormatCache, ss: Sections, courseDisplay: int): (r: (seq<Option<Parent>>, FormatCache))
    ensures r.1.parentSections == Some(r.0)
    ensures cache.parentSections.None? ==> r.0 == ParentMap(ss, courseDisplay)
  {
    match cache.parentSections
    case Some(m) => (m, cache)
    case None =>
      var m := ParentMap(ss, courseDisplay);
      (m, FormatCache(Some(m)))
  }

  /** Once computed, the map is returned unchanged by every later call,
      whatever sections that call is given. */
  lemma {:induction false} SectionsExtraMemoised(cache: FormatCache, ss1: Sections, cd1: int, ss2: Sections, cd2: int)
    ensures var (m1, c1) := SectionsExtra(cache, ss1, cd1);
            var (m2, c2) := SectionsExtra(c1, ss2, cd2);
            m2 == m1 && c2 == c1
  {
  }

  /** `section_get_available_hook` for the section numbered `number`: returns the
      new `available` and `availableinfo`. */
  function AvailableHook(parents: seq<Option<Parent>>, number: nat, section: Section,
                         available: bool, availableInfo: string): (r: (bool, string))
    ensures section.level == 0 ==> r == (available, availableInfo)
    ensures r.0 ==> available
    ensures r.1 == availableInfo || r.1 == ""
    ensures number < |parents| && parents[number].Some? && section.level != 0 ==>
              var p := parents[number].value.section;
              (r.0 <==> available && Open(p))
              && (r.1 == "" <==> availableInfo == "" || (!Open(p) && !p.uservisible))
    ensures (number >= |parents| || parents[number].None?) ==> r == (available, availableInfo)
  {
    if section.level == 0 then (available, availableInfo)
    else if number < |parents| && parents[number].Some? then
      var p := parents[number].value.section;
      if !(p.visible && p.available) then
        (false, if !p.uservisible then "" else availableInfo)
      else (available, availableInfo)
    else (available, availableInfo)
  }

  /** A child section whose nearest preceding top-level section is hidden or
      unavailable is never available, whatever the host evaluated for it. */
  lemma {:induction false} ChildOfClosedParentIsUnavailable(ss: Sections, courseDisplay: int, i: nat,
                                         available: bool, availableInfo: string)
    requires i < |ss| && !IsTopLevel(ss, FirstSection(courseDisplay), i)
    requires var j := NearestTopLevelBefore(ss, FirstSection(courseDisplay), i);
             j.Some? && !Open(ss[j.value])
    ensures !AvailableHook(ParentMap(ss, courseDisplay), i, ss[i], available, availableInfo).0
  {
    var first := FirstSection(courseDisplay);
    var m := ParentMap(ss, courseDisplay);
    var j := NearestTopLevelBefore(ss, first, i).value;
    var p := m[i].value.number;
    assert p == j;
  }

  /** Sections that start a group keep the availability the host evaluated. */
  lemma {:induction false} TopLevelSectionsUntouched(ss: Sections, courseDisplay: int, i: nat,
                                  available: bool, availableInfo: string)
    requires i < |ss| && IsTopLevel(ss, FirstSection(courseDisplay), i)
    ensures AvailableHook(ParentMap(ss, courseDisplay), i, ss[i], available, availableInfo)
            == (available, availableInfo)
  {
  }
}
