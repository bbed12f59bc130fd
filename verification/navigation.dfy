/** The previous/next section links under a section page (`get_nav_links`). */
module Navigation {
  import opened Optional
  import opened Course

  /** A link to a section, dimmed when the section is hidden. */
  datatype NavLink = NavLink(section: nat, dimmed: bool)

  /** Hidden sections count as viewable here when the user has the capability,
      and also whenever the course does not set hidden sections to be
      completely invisible (`hiddensections` other than 1). */
  function NavCanViewHidden(hasCapability: bool, hiddenSections: int): bool {
    hasCapability || hiddenSections != 1
  }

  predicate Linkable(ss: Sections, k: nat, canViewHidden: bool)
    requires k < |ss|
  {
    canViewHidden || ss[k].uservisible
  }

  /** The lowest section a "previous" link may point to. */
  function LowestLinked(courseDisplay: int): nat {
    if IsMultipage(courseDisplay) then 1 else 0
  }

  method NavLinks(ss: Sections, sectionNo: nat, courseDisplay: int, hasCapability: bool, hiddenSections: int)
    returns (previous: Option<NavLink>, next: Option<NavLink>)
    requires sectionNo < |ss|
    ensures var cvh := NavCanViewHidden(hasCapability, hiddenSections);
            previous.Some? ==>
              var p := previous.value.section;
              LowestLinked(courseDisplay) <= p < sectionNo && Linkable(ss, p, cvh)
              && previous.value.dimmed == !ss[p].visible
              && forall k :: p < k < sectionNo ==> !Linkable(ss, k, cvh)
    ensures var cvh := NavCanViewHidden(hasCapability, hiddenSections);
            previous.None? ==> forall k :: LowestLinked(courseDisplay) <= k < sectionNo ==> !Linkable(ss, k, cvh)
    ensures var cvh := NavCanViewHidden(hasCapability, hiddenSections);
            next.Some? ==>
              var q := next.value.section;
              sectionNo < q <= NumSections(ss) && Linkable(ss, q, cvh)
              && next.value.dimmed == !ss[q].visible
              && forall k :: sectionNo < k < q ==> !Linkable(ss, k, cvh)
    ensures var cvh := NavCanViewHidden(hasCapability, hiddenSections);
            next.None? ==> forall k :: sectionNo < k <= NumSections(ss) ==> !Linkable(ss, k, cvh)
  {
    var cvh := NavCanViewHidden(hasCapability, hiddenSections);
    var multipage := IsMultipage(courseDisplay);
    previous := None;
    var back: int := sectionNo - 1;
    while ((back > 0 && multipage) || (back >= 0 && !multipage)) && previous.None?
      invariant -1 <= back < sectionNo
      invariant previous.None? ==> forall k :: back < k < sectionNo ==> !Linkable(ss, k, cvh)
      invariant previous.Some? ==>
                  var p := previous.value.section;
                  p == back + 1 && LowestLinked(courseDisplay) <= p < sectionNo && Linkable(ss, p, cvh)
                  && previous.value.dimmed == !ss[p].visible
                  && forall k :: p < k < sectionNo ==> !Linkable(ss, k, cvh)
      decreases back + 1
    {
      if cvh || ss[back].uservisible {
        previous := Some(NavLink(back, !ss[back].visible));
      }
      back := back - 1;
    }

    next := None;
    var forward := sectionNo + 1;
    while forward <= NumSections(ss) && next.None?
      invariant sectionNo < forward <= |ss|
      invariant next.None? ==> forall k :: sectionNo < k < forward ==> !Linkable(ss, k, cvh)
      invariant next.Some? ==>
                  var q := next.value.section;
                  q == forward - 1 && sectionNo < q && Linkable(ss, q, cvh)
                  && next.value.dimmed == !ss[q].visible
                  && forall k :: sectionNo < k < q ==> !Linkable(ss, k, cvh)
      decreases |ss| - forward
    {
      if cvh || ss[forward].uservisible {
        next := Some(NavLink(forward, !ss[forward].visible));
      }
      forward := forward + 1;
    }
  }
}
