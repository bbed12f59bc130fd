/** The section edit menu (`section_edit_control_items`): the format's own
    highlight control merged into the controls of the base topics format. */
module EditControls {
  import opened Optional
  import opened OrderedMap

  /** The link a control follows. `OtherUrl` stands for links made by the
      base format, which this model leaves as they are. */
  datatype Url =
    | CourseUrl(section: Option<nat>, marker: int)
    | EditSectionUrl(sectionId: nat, returnSection: int, delete: int)
    | OtherUrl(path: string)

  /** One menu entry: link, icon and the `data-action` of the entry. */
  datatype Control = Control(url: Url, icon: string, action: string)

  /** The highlight control, or none. It is offered on a numbered section that
      is not an orphan beyond `numsections`, to users allowed to set the current
      section; it removes the marker when the section is the marked one and
      marks the section otherwise. */
  function OwnControls(sectionNo: nat, numSections: nat, marker: int, canSetCurrent: bool, onSectionPage: bool): (r: Entries<Control>)
    ensures |r| <= 1 && (|r| == 1 <==> sectionNo <= numSections && sectionNo != 0 && canSetCurrent)
    ensures |r| == 1 ==> r[0].0 == "highlight"
    ensures |r| == 1 && marker == sectionNo ==>
              r[0].1.action == "removemarker" && r[0].1.icon == "i/marked" && r[0].1.url.CourseUrl? && r[0].1.url.marker == 0
    ensures |r| == 1 && marker != sectionNo ==>
              r[0].1.action == "setmarker" && r[0].1.icon == "i/marker" && r[0].1.url.CourseUrl? && r[0].1.url.marker == sectionNo
    ensures |r| == 1 ==> r[0].1.url.CourseUrl? && r[0].1.url.section == (if onSectionPage then Some(sectionNo) else None)
  {
    var isStealth := sectionNo > numSections;
    var page := if onSectionPage then Some(sectionNo) else None;
    if !isStealth && sectionNo != 0 && canSetCurrent then
      if marker == sectionNo then
        [("highlight", Control(CourseUrl(page, 0), "i/marked", "removemarker"))]
      else
        [("highlight", Control(CourseUrl(page, sectionNo), "i/marker", "setmarker"))]
    else []
  }

  /** The base format's delete control, redirected to section deletion that
      returns to the previous section; nothing changes without a delete entry. */
  function RedirectDelete(parent: Entries<Control>, sectionId: nat, sectionNo: nat): Entries<Control> {
    match Lookup(parent, "delete")
    case None => parent
    case Some(c) => Put(parent, "delete", c.(url := EditSectionUrl(sectionId, sectionNo - 1, 1)))
  }

  /** The foreach that copies `parent` and merges `own` right after "edit". */
  function MergeAfterEdit(parent: Entries<Control>, own: Entries<Control>, merged: Entries<Control>): Entries<Control>
    decreases |parent|
  {
    if |parent| == 0 then merged
    else
      var withEntry := Put(merged, parent[0].0, parent[0].1);
      var next := if parent[0].0 == "edit" then Merge(withEntry, own) else withEntry;
      MergeAfterEdit(parent[1..], own, next)
  }

  /** The whole menu; empty unless the page is in editing mode. */
  function SectionEditControlItems(editing: bool, sectionId: nat, sectionNo: nat, numSections: nat, marker: int,
                                   canSetCurrent: bool, onSectionPage: bool, parent: Entries<Control>): Entries<Control>
  {
    if !editing then []
    else
      var own := OwnControls(sectionNo, numSections, marker, canSetCurrent, onSectionPage);
      var base := RedirectDelete(parent, sectionId, sectionNo);
      if HasKey(base, "edit") then MergeAfterEdit(base, own, [])
      else Merge(own, base)
  }

  lemma {:induction false} MergeAfterEditAppend(a: Entries<Control>, b: Entries<Control>, own: Entries<Control>, merged: Entries<Control>)
    ensures MergeAfterEdit(a + b, own, merged) == MergeAfterEdit(b, own, MergeAfterEdit(a, own, merged))
    decreases |a|
  {
    if |a| > 0 {
      assert (a + b)[1..] == a[1..] + b;
      var withEntry := Put(merged, a[0].0, a[0].1);
      var next := if a[0].0 == "edit" then Merge(withEntry, own) else withEntry;
      MergeAfterEditAppend(a[1..], b, own, next);
    } else {
      assert a + b == b;
    }
  }

  /** Without an "edit" entry the loop is a plain `array_merge` of the entries. */
  lemma {:induction false} MergeAfterEditWithoutEdit(p: Entries<Control>, own: Entries<Control>, merged: Entries<Control>)
    requires !HasKey(p, "edit")
    ensures MergeAfterEdit(p, own, merged) == Merge(merged, p)
    decreases |p|
  {
    if |p| > 0 {
      HasKeyTail(p, "edit");
      MergeAfterEditWithoutEdit(p[1..], own, Put(merged, p[0].0, p[0].1));
    }
  }

  /** The loop up to and including "edit": the entries before "edit" in
      order, with the own value for a shared key, then "edit", then the own
      entries with new keys. */
  lemma {:induction false} MergeUpToEdit(a: Entries<Control>, e: Control, own: Entries<Control>)
    requires !HasKey(a, "edit") && !HasKey(own, "edit") && DistinctKeys(a + [("edit", e)]) && DistinctKeys(own)
    ensures MergeAfterEdit(a + [("edit", e)], own, []) == Override(a, own) + [("edit", e)] + Unclaimed(own, a)
    ensures DistinctKeys(Override(a, own) + [("edit", e)] + Unclaimed(own, a))
  {
    var edit: Entries<Control> := [("edit", e)];
    DistinctSplit(a, edit);
    MergeAfterEditAppend(a, edit, own, []);
    MergeAfterEditWithoutEdit(a, own, []);
    MergeDisjoint([], a);
    assert [] + a == a;
    PutAbsent(a, "edit", e);
    MergeShape(a + edit, own);
    MergeDistinct(a + edit, own);
    OverrideAppend(a, edit, own);
    LookupFindsKey(own, "edit");
    assert Override(edit, own) == edit;
    KeysOfAppend(a, edit);
    forall i | 0 <= i < |own| ensures HasKey(a + edit, own[i].0) == HasKey(a, own[i].0) {
      assert KeysOf(own)[i] == own[i].0;
    }
    UnclaimedAgree(own, a + edit, a);
  }

  /** The loop after "edit" over base entries `b` with keys of their own: each
      overwrites an own entry with its key in place, and the rest follow. */
  lemma {:induction false} MergeAfterTheEdit(a: Entries<Control>, e: Control, b: Entries<Control>, own: Entries<Control>)
    requires !HasKey(b, "edit") && !HasKey(own, "edit")
    requires DistinctKeys(a + [("edit", e)] + b) && DistinctKeys(own)
    requires DistinctKeys(Override(a, own) + [("edit", e)] + Unclaimed(own, a))
    ensures var m1 := Override(a, own) + [("edit", e)] + Unclaimed(own, a);
      MergeAfterEdit(b, own, m1) == Override(a, own) + [("edit", e)] + Override(Unclaimed(own, a), b) + Unclaimed(b, own)
  {
    var edit: Entries<Control> := [("edit", e)];
    var oa, u := Override(a, own), Unclaimed(own, a);
    var m1 := oa + edit + u;
    DistinctSplit(a + edit, b);
    DistinctSplit(a, edit);
    DisjointSplitLeft(a, edit, b);
    assert forall i :: 0 <= i < |a| ==> !HasKey(b, a[i].0) by {
      assert forall j :: 0 <= j < |b| ==> KeysOf(b)[j] == b[j].0;
    }
    MergeAfterEditWithoutEdit(b, own, m1);
    MergeShape(m1, b);
    OverrideAppend(oa + edit, u, b);
    OverrideAppend(oa, edit, b);
    forall i | 0 <= i < |oa| ensures Lookup(b, oa[i].0).None? {
      LookupFindsKey(b, oa[i].0);
    }
    OverrideNothing(oa, b);
    LookupFindsKey(b, "edit");
    assert Override(edit, b) == edit;
    forall i | 0 <= i < |b| ensures HasKey(m1, b[i].0) == HasKey(own, b[i].0) {
      var k := b[i].0;
      KeysOfAppend(oa + edit, u);
      KeysOfAppend(oa, edit);
      OverrideKeys(a, own);
      UnclaimedHasKey(own, a, k);
      assert k != "edit" by {
        assert KeysOf(b)[i] == k;
      }
      assert !HasKey(a, k) by {
        assert forall j :: 0 <= j < |a| ==> KeysOf(a)[j] == a[j].0;
      }
    }
    UnclaimedAgree(b, m1, own);
  }

  /** `array_merge` of the own controls right after "edit", laid out: the
      base entries before "edit" (taking the own value for a shared key),
      "edit", the own entries with keys new so far (a later base entry with
      the same key overwrites its value in place), then the remaining base
      entries. */
  lemma {:induction false} OwnControlsFollowEdit(a: Entries<Control>, e: Control, b: Entries<Control>, own: Entries<Control>)
    requires !HasKey(a, "edit") && !HasKey(b, "edit") && !HasKey(own, "edit")
    requires DistinctKeys(a + [("edit", e)] + b) && DistinctKeys(own)
    ensures MergeAfterEdit(a + [("edit", e)] + b, own, [])
            == Override(a, own) + [("edit", e)] + Override(Unclaimed(own, a), b) + Unclaimed(b, own)
  {
    var edit: Entries<Control> := [("edit", e)];
    DistinctSplit(a + edit, b);
    MergeAfterEditAppend(a + edit, b, own, []);
    MergeUpToEdit(a, e, own);
    MergeAfterTheEdit(a, e, b, own);
  }

  /** The own entry for `j` survives the loop: `j` is an own key, the base
      has "edit", and the base does not set `j` again after "edit". */
  predicate OwnWins(p: Entries<Control>, own: Entries<Control>, j: string) {
    HasKey(own, j) && HasKey(p, "edit") && !(KeyIndex(p, "edit") < KeyIndex(p, j) < |p|)
  }

  /** What the copy-and-merge loop maps each key to: the own entry when it
      survives, else the base entry, else what was already there. */
  lemma {:induction false} MergeAfterEditLookup(p: Entries<Control>, own: Entries<Control>, merged: Entries<Control>, j: string)
    requires DistinctKeys(p) && DistinctKeys(own)
    ensures Lookup(MergeAfterEdit(p, own, merged), j) ==
              if OwnWins(p, own, j) then Lookup(own, j)
              else if HasKey(p, j) then Lookup(p, j)
              else Lookup(merged, j)
    decreases |p|
  {
    if |p| > 0 {
      var (k, v) := p[0];
      var p' := p[1..];
      DistinctTail(p);
      var withEntry := Put(merged, k, v);
      var next := if k == "edit" then Merge(withEntry, own) else withEntry;
      MergeAfterEditLookup(p', own, next, j);
      PutLookup(merged, k, v, j);
      if k == "edit" {
        MergeLookup(withEntry, own, j);
        OwnWinsAtEdit(p, own, j);
      } else {
        OwnWinsPastEntry(p, own, j);
      }
    }
  }

  /** With "edit" first, the own controls win for every key the parent does
      not list after it, and no "edit" is left to come. */
  lemma {:induction false} OwnWinsAtEdit(p: Entries<Control>, own: Entries<Control>, j: string)
    requires DistinctKeys(p) && |p| > 0 && p[0].0 == "edit"
    ensures OwnWins(p, own, j) <==> HasKey(own, j) && (j == "edit" || !HasKey(p[1..], j))
    ensures !OwnWins(p[1..], own, j)
    ensures HasKey(p, j) <==> j == "edit" || HasKey(p[1..], j)
    ensures Lookup(p, j) == if j == "edit" then Some(p[0].1) else Lookup(p[1..], j)
  {
    KeysOfCons(p);
    DistinctTail(p);
    assert !HasKey(p[1..], "edit") by {
      forall i | 0 <= i < |p| - 1 ensures KeysOf(p[1..])[i] != "edit" {
        assert KeysOf(p[1..])[i] == p[i + 1].0;
      }
    }
    if HasKey(p[1..], j) {
      assert KeyIndex(p, j) == 1 + KeyIndex(p[1..], j);
    }
  }

  /** Past an entry other than "edit", who wins is decided by the rest,
      except for that entry's own key. */
  lemma {:induction false} OwnWinsPastEntry(p: Entries<Control>, own: Entries<Control>, j: string)
    requires |p| > 0 && p[0].0 != "edit"
    ensures j != p[0].0 ==> (OwnWins(p, own, j) <==> OwnWins(p[1..], own, j))
    ensures j == p[0].0 ==> (OwnWins(p, own, j) <==> HasKey(own, j) && HasKey(p[1..], "edit"))
    ensures HasKey(p, j) <==> j == p[0].0 || HasKey(p[1..], j)
    ensures HasKey(p, "edit") <==> HasKey(p[1..], "edit")
    ensures Lookup(p, j) == if j == p[0].0 then Some(p[0].1) else Lookup(p[1..], j)
  {
    KeysOfCons(p);
  }


  /** The menu in editing mode, key by key: the highlight control (or any own
      entry) when it survives the merge, else the base entry with the delete
      link redirected, else the own entry. */
  lemma {:induction false} MenuLookup(sectionId: nat, sectionNo: nat, numSections: nat, marker: int, canSetCurrent: bool,
                   onSectionPage: bool, parent: Entries<Control>, j: string)
    requires DistinctKeys(parent)
    ensures var menu := SectionEditControlItems(true, sectionId, sectionNo, numSections, marker,
                                                canSetCurrent, onSectionPage, parent);
            var own := OwnControls(sectionNo, numSections, marker, canSetCurrent, onSectionPage);
            Lookup(menu, j) ==
              if OwnWins(parent, own, j) then Lookup(own, j)
              else if j == "delete" && Lookup(parent, "delete").Some? then
                Some(Lookup(parent, "delete").value.(url := EditSectionUrl(sectionId, sectionNo - 1, 1)))
              else if HasKey(parent, j) then Lookup(parent, j)
              else Lookup(own, j)
  {
    var own := OwnControls(sectionNo, numSections, marker, canSetCurrent, onSectionPage);
    var base := RedirectDelete(parent, sectionId, sectionNo);
    LookupFindsKey(parent, "delete");
    LookupFindsKey(own, j);
    RedirectDeleteKeys(parent, sectionId, sectionNo);
    SameKeysDistinct(parent, base);
    KeyIndexSameKeys(parent, base, j);
    KeyIndexSameKeys(parent, base, "edit");
    assert OwnWins(base, own, j) == OwnWins(parent, own, j);
    if Lookup(parent, "delete").Some? {
      var c := Lookup(parent, "delete").value;
      PutLookup(parent, "delete", c.(url := EditSectionUrl(sectionId, sectionNo - 1, 1)), j);
    }
    if HasKey(base, "edit") {
      MergeAfterEditLookup(base, own, [], j);
    } else {
      MergeLookup(own, base, j);
    }
    LookupFindsKey(base, j);
  }

  /** A base "highlight" entry after "edit" overwrites the format's own
      highlight control, on every section, stealth sections included. */
  lemma {:induction false} BaseHighlightAfterEditWins(sectionId: nat, sectionNo: nat, numSections: nat, marker: int,
                                   canSetCurrent: bool, onSectionPage: bool, parent: Entries<Control>, e: nat, h: nat)
    requires DistinctKeys(parent) && e < h < |parent| && parent[e].0 == "edit" && parent[h].0 == "highlight"
    ensures Lookup(SectionEditControlItems(true, sectionId, sectionNo, numSections, marker, canSetCurrent, onSectionPage, parent),
                   "highlight") == Some(parent[h].1)
  {
    KeyAt(parent, e);
    KeyAt(parent, h);
    LookupDistinct(parent, h);
    MenuLookup(sectionId, sectionNo, numSections, marker, canSetCurrent, onSectionPage, parent, "highlight");
  }

  /** A base "highlight" entry before "edit" is overwritten by the format's own
      highlight control whenever the format offers one. */
  lemma {:induction false} OwnHighlightBeforeEditWins(sectionId: nat, sectionNo: nat, numSections: nat, marker: int,
                                   canSetCurrent: bool, onSectionPage: bool, parent: Entries<Control>, h: nat, e: nat)
    requires DistinctKeys(parent) && h < e < |parent| && parent[h].0 == "highlight" && parent[e].0 == "edit"
    requires sectionNo <= numSections && sectionNo != 0 && canSetCurrent
    ensures var own := OwnControls(sectionNo, numSections, marker, canSetCurrent, onSectionPage);
            Lookup(SectionEditControlItems(true, sectionId, sectionNo, numSections, marker, canSetCurrent, onSectionPage, parent),
                   "highlight") == Some(own[0].1)
  {
    var own := OwnControls(sectionNo, numSections, marker, canSetCurrent, onSectionPage);
    KeysOfCons(own);
    KeyAt(parent, e);
    KeyAt(parent, h);
    MenuLookup(sectionId, sectionNo, numSections, marker, canSetCurrent, onSectionPage, parent, "highlight");
  }

  /** Outside editing mode there is no menu at all. */
  lemma {:induction false} MenuOffWhenNotEditing(sectionId: nat, sectionNo: nat, numSections: nat, marker: int, canSetCurrent: bool,
                              onSectionPage: bool, parent: Entries<Control>)
    ensures SectionEditControlItems(false, sectionId, sectionNo, numSections, marker,
                                    canSetCurrent, onSectionPage, parent) == []
  {
  }

  /** The delete redirection rewrites one value and keeps every key in place. */
  lemma {:induction false} RedirectDeleteKeys(parent: Entries<Control>, sectionId: nat, sectionNo: nat)
    ensures KeysOf(RedirectDelete(parent, sectionId, sectionNo)) == KeysOf(parent)
  {
    LookupFindsKey(parent, "delete");
    if Lookup(parent, "delete").Some? {
      PutKeys(parent, "delete", Lookup(parent, "delete").value.(url := EditSectionUrl(sectionId, sectionNo - 1, 1)));
    }
  }

  /** Without an "edit" entry in the base controls, the result is
      `array_merge($own, $base)`: the format's own controls first, each
      overwritten by a base entry with its key, then the other base controls
      in their order. */
  lemma {:induction false} MenuWithoutEdit(sectionId: nat, sectionNo: nat, numSections: nat, marker: int, canSetCurrent: bool,
                        onSectionPage: bool, parent: Entries<Control>)
    requires DistinctKeys(parent) && !HasKey(parent, "edit")
    ensures var own := OwnControls(sectionNo, numSections, marker, canSetCurrent, onSectionPage);
            var base := RedirectDelete(parent, sectionId, sectionNo);
            SectionEditControlItems(true, sectionId, sectionNo, numSections, marker, canSetCurrent, onSectionPage, parent)
            == Override(own, base) + Unclaimed(base, own)
  {
    var own := OwnControls(sectionNo, numSections, marker, canSetCurrent, onSectionPage);
    var base := RedirectDelete(parent, sectionId, sectionNo);
    RedirectDeleteKeys(parent, sectionId, sectionNo);
    SameKeysDistinct(parent, base);
    assert !HasKey(base, "edit");
    MergeShape(own, base);
  }
}
