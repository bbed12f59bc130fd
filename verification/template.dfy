/** A section summary used as a template (`replace_resources`) and the module
    list shown below it (`custom_course_section_cm_list`): a module whose
    placeholder the summary consumed is dropped from the list unless the
    page is being edited. */
module Template {
  import opened Optional
  import opened PhpStrings
  import opened Placeholders
  import OrderedMap

  /** One entry of the format's module table as `replace_resources` uses it:
      the formatted instance name, whether the module is a label, the html the
      course renderer makes for it (link, content, completion, help icon) and
      the availability box it adds after the summary ("" when it has none). */
  datatype Resource = Resource(name: string, isLabel: bool, html: string, more: string)

  /** The format's table of modules still to list, by course-module id. */
  type Mods = map<nat, Resource>

  /** What the loop of `replace_resources` carries: the summary so far, the
      module table and the html collected for after the summary. */
  datatype Scan = Scan(text: string, mods: Mods, more: string)

  /** The html the summary is wrapped in when module icons are hidden. */
  const HideIconsOpen := "<span class=\"onetopic_hideicons\">"
  const HideIconsClose := "</span>"

  /** `m` is `mods` with some entries removed and none changed. */
  predicate SubMap(m: Mods, mods: Mods) {
    forall k :: k in m ==> k in mods && m[k] == mods[k]
  }

  /** One pass of the loop over the section's modules: a module that is not in
      the table, or is a label, is passed over; otherwise its placeholders are
      substituted and, if that changed the summary, it leaves the table. */
  function ResourceStep(st: Scan, id: nat, rewriteTagged: (string, string) -> string): (r: Scan)
    ensures SubMap(r.mods, st.mods) && r.mods.Keys >= st.mods.Keys - {id}
    ensures id in st.mods && !st.mods[id].isLabel ==> (id !in r.mods <==> r.text != st.text)
    ensures id !in st.mods || st.mods[id].isLabel ==> r == st
  {
    if id !in st.mods || st.mods[id].isLabel then st
    else
      var m := st.mods[id];
      var text := Substitute(st.text, m.name, TagCallback(m.name, m.html, rewriteTagged));
      Scan(text, if text != st.text then st.mods - {id} else st.mods, st.more + m.more)
  }

  /** The loop of `replace_resources` over the section's module ids. */
  function ResourceScan(st: Scan, ids: seq<nat>, rewriteTagged: (string, string) -> string): Scan
    decreases |ids|
  {
    if |ids| == 0 then st else ResourceScan(ResourceStep(st, ids[0], rewriteTagged), ids[1..], rewriteTagged)
  }

  /** `replace_resources`: the summary with the section's modules substituted
      into it, followed by the collected availability boxes, and the module
      table left for the module list. */
  function ReplaceResources(summary: string, sequence: seq<nat>, mods: Mods, templateIcons: int,
                            rewriteTagged: (string, string) -> string): (r: (string, Mods))
    ensures SubMap(r.1, mods)
    ensures templateIcons == 0 ==> |r.0| >= |HideIconsOpen| && r.0[..|HideIconsOpen|] == HideIconsOpen
    ensures sequence == [] && templateIcons != 0 ==> r == (summary, mods)
  {
    var st := ResourceScan(Scan(summary, mods, ""), sequence, rewriteTagged);
    ResourceScanOnlyRemoves(Scan(summary, mods, ""), sequence, rewriteTagged);
    var text := if templateIcons == 0 then HideIconsOpen + st.text + HideIconsClose else st.text;
    assert templateIcons == 0 ==> (text + st.more)[..|HideIconsOpen|] == HideIconsOpen;
    assert sequence == [] ==> st == Scan(summary, mods, "") && summary + "" == summary;
    (text + st.more, st.mods)
  }

  /** The step at position `i` of the scan changed the running summary. */
  predicate ChangedAt(st: Scan, ids: seq<nat>, i: nat, rewriteTagged: (string, string) -> string)
    requires i < |ids|
  {
    var before := ResourceScan(st, ids[..i], rewriteTagged);
    ResourceStep(before, ids[i], rewriteTagged).text != before.text
  }

  lemma {:induction false} ChangedAtShift(st: Scan, ids: seq<nat>, i: nat, rewriteTagged: (string, string) -> string)
    requires i + 1 < |ids|
    ensures ChangedAt(st, ids, i + 1, rewriteTagged) == ChangedAt(ResourceStep(st, ids[0], rewriteTagged), ids[1..], i, rewriteTagged)
  {
    assert ids[..i + 1][1..] == ids[1..][..i];
  }

  /** A module of the table leaves it exactly when the step for one of its
      occurrences in the section changed the running summary. */
  lemma {:induction false} ScanRemovesIffChanged(st: Scan, ids: seq<nat>, k: nat, rewriteTagged: (string, string) -> string)
    requires k in st.mods
    ensures k !in ResourceScan(st, ids, rewriteTagged).mods <==>
              exists i :: 0 <= i < |ids| && ids[i] == k && ChangedAt(st, ids, i, rewriteTagged)
    decreases |ids|
  {
    if |ids| > 0 {
      var next := ResourceStep(st, ids[0], rewriteTagged);
      assert ChangedAt(st, ids, 0, rewriteTagged) == (next.text != st.text) by {
        assert ids[..0] == [];
      }
      ResourceScanOnlyRemoves(next, ids[1..], rewriteTagged);
      if k in next.mods {
        ScanRemovesIffChanged(next, ids[1..], k, rewriteTagged);
        forall i | 0 <= i < |ids| - 1 ensures ChangedAt(st, ids, i + 1, rewriteTagged) == ChangedAt(next, ids[1..], i, rewriteTagged) {
          ChangedAtShift(st, ids, i, rewriteTagged);
        }
        if exists i :: 0 <= i < |ids| && ids[i] == k && ChangedAt(st, ids, i, rewriteTagged) {
          var i :| 0 <= i < |ids| && ids[i] == k && ChangedAt(st, ids, i, rewriteTagged);
          assert i > 0;
          assert ids[1..][i - 1] == k && ChangedAt(next, ids[1..], i - 1, rewriteTagged);
        }
        if exists i :: 0 <= i < |ids| - 1 && ids[1..][i] == k && ChangedAt(next, ids[1..], i, rewriteTagged) {
          var i :| 0 <= i < |ids| - 1 && ids[1..][i] == k && ChangedAt(next, ids[1..], i, rewriteTagged);
          assert ids[i + 1] == k && ChangedAt(st, ids, i + 1, rewriteTagged);
        }
      }
    }
  }

  /** The availability box one step collects. */
  function Box(id: nat, mods: Mods): string {
    if id in mods && !mods[id].isLabel then mods[id].more else ""
  }

  /** The availability boxes of the listed modules that are in the table and
      are not labels, in section order. */
  function Boxes(ids: seq<nat>, mods: Mods): string
    decreases |ids|
  {
    if |ids| == 0 then ""
    else Box(ids[0], mods) + Boxes(ids[1..], mods)
  }

  /** Only the entries of the modules the section lists matter to `Boxes`. */
  lemma {:induction false} BoxesAgree(ids: seq<nat>, a: Mods, b: Mods)
    requires forall i :: 0 <= i < |ids| ==> (ids[i] in a <==> ids[i] in b) && (ids[i] in a ==> a[ids[i]] == b[ids[i]])
    ensures Boxes(ids, a) == Boxes(ids, b)
    decreases |ids|
  {
    if |ids| > 0 {
      assert forall i :: 0 <= i < |ids| - 1 ==> ids[1..][i] == ids[i + 1];
      BoxesAgree(ids[1..], a, b);
    }
  }

  lemma {:induction false} StepCollectsBox(st: Scan, id: nat, rewriteTagged: (string, string) -> string)
    ensures ResourceStep(st, id, rewriteTagged).more == st.more + Box(id, st.mods)
  {
  }

  /** Over a section listing each module once, the scan collects the
      availability box of every module of the table that is not a label,
      whether or not the summary names it. */
  lemma {:induction false} ScanCollectsBoxes(st: Scan, ids: seq<nat>, rewriteTagged: (string, string) -> string)
    requires forall i, j :: 0 <= i < j < |ids| ==> ids[i] != ids[j]
    ensures ResourceScan(st, ids, rewriteTagged).more == st.more + Boxes(ids, st.mods)
    decreases |ids|
  {
    if |ids| > 0 {
      var next := ResourceStep(st, ids[0], rewriteTagged);
      var rest := ids[1..];
      var box := Box(ids[0], st.mods);
      CollectStep(st, ids, rewriteTagged);
      ScanCollectsBoxes(next, rest, rewriteTagged);
      assert st.more + box + Boxes(rest, st.mods) == st.more + (box + Boxes(rest, st.mods));
    }
  }

  /** What one step of `ScanCollectsBoxes` needs: the box it adds, the rest
      of the boxes unchanged, and the rest of the section still distinct. */
  lemma {:induction false} CollectStep(st: Scan, ids: seq<nat>, rewriteTagged: (string, string) -> string)
    requires |ids| > 0 && forall i, j :: 0 <= i < j < |ids| ==> ids[i] != ids[j]
    ensures var next := ResourceStep(st, ids[0], rewriteTagged);
      next.more == st.more + Box(ids[0], st.mods)
      && Boxes(ids[1..], next.mods) == Boxes(ids[1..], st.mods)
      && Boxes(ids, st.mods) == Box(ids[0], st.mods) + Boxes(ids[1..], st.mods)
      && ResourceScan(st, ids, rewriteTagged) == ResourceScan(next, ids[1..], rewriteTagged)
      && forall i, j :: 0 <= i < j < |ids[1..]| ==> ids[1..][i] != ids[1..][j]
  {
    var next := ResourceStep(st, ids[0], rewriteTagged);
    var rest := ids[1..];
    assert forall i, j :: 0 <= i < j < |rest| ==> rest[i] != rest[j] by {
      assert forall i :: 0 <= i < |rest| ==> rest[i] == ids[i + 1];
    }
    StepLeavesOthers(st, ids, rewriteTagged);
    BoxesAgree(rest, next.mods, st.mods);
    StepCollectsBox(st, ids[0], rewriteTagged);
  }


  /** A step leaves the entries of the modules listed after it untouched,
      when the section lists each module once. */
  lemma {:induction false} StepLeavesOthers(st: Scan, ids: seq<nat>, rewriteTagged: (string, string) -> string)
    requires |ids| > 0 && forall i, j :: 0 <= i < j < |ids| ==> ids[i] != ids[j]
    ensures var next := ResourceStep(st, ids[0], rewriteTagged);
      forall i :: 0 <= i < |ids| - 1 ==>
        (ids[1..][i] in next.mods <==> ids[1..][i] in st.mods)
        && (ids[1..][i] in next.mods ==> next.mods[ids[1..][i]] == st.mods[ids[1..][i]])
  {
    var next := ResourceStep(st, ids[0], rewriteTagged);
    forall i | 0 <= i < |ids| - 1
      ensures (ids[1..][i] in next.mods <==> ids[1..][i] in st.mods)
    {
      assert ids[1..][i] == ids[i + 1] != ids[0];
    }
  }

  /** A module of the table is missing from the table `replace_resources`
      leaves exactly when the step for one of its occurrences changed the
      summary. */
  lemma {:induction false} ReplaceResourcesRemoves(summary: string, sequence: seq<nat>, mods: Mods, templateIcons: int,
                                                   rewriteTagged: (string, string) -> string, k: nat)
    requires k in mods
    ensures k !in ReplaceResources(summary, sequence, mods, templateIcons, rewriteTagged).1 <==>
              exists i :: 0 <= i < |sequence| && sequence[i] == k && ChangedAt(Scan(summary, mods, ""), sequence, i, rewriteTagged)
  {
    ScanRemovesIffChanged(Scan(summary, mods, ""), sequence, k, rewriteTagged);
  }

  /** The html `replace_resources` returns, for a section listing each module
      once: the substituted summary (inside the `onetopic_hideicons` span,
      closed, when icons are hidden), then the availability boxes of the
      section's non-label modules in order. */
  lemma {:induction false} ReplaceResourcesLayout(summary: string, sequence: seq<nat>, mods: Mods, templateIcons: int,
                                                  rewriteTagged: (string, string) -> string)
    requires forall i, j :: 0 <= i < j < |sequence| ==> sequence[i] != sequence[j]
    ensures var t := ResourceScan(Scan(summary, mods, ""), sequence, rewriteTagged).text;
      ReplaceResources(summary, sequence, mods, templateIcons, rewriteTagged).0 ==
        (if templateIcons == 0 then HideIconsOpen + t + HideIconsClose else t) + Boxes(sequence, mods)
  {
    ScanCollectsBoxes(Scan(summary, mods, ""), sequence, rewriteTagged);
    assert "" + Boxes(sequence, mods) == Boxes(sequence, mods);
  }

  /** The scan only ever removes modules: never a label and never a module
      the section does not list. */
  lemma {:induction false} ResourceScanOnlyRemoves(st: Scan, ids: seq<nat>, rewriteTagged: (string, string) -> string)
    ensures SubMap(ResourceScan(st, ids, rewriteTagged).mods, st.mods)
    ensures forall k :: k in st.mods && (st.mods[k].isLabel || k !in ids)
              ==> k in ResourceScan(st, ids, rewriteTagged).mods
    decreases |ids|
  {
    if |ids| > 0 {
      var next := ResourceStep(st, ids[0], rewriteTagged);
      ResourceScanOnlyRemoves(next, ids[1..], rewriteTagged);
      forall k | k in st.mods && (st.mods[k].isLabel || k !in ids)
        ensures k in next.mods && next.mods[k] == st.mods[k] && (next.mods[k].isLabel || k !in ids[1..])
      {
        assert k != ids[0] || st.mods[k].isLabel;
      }
    }
  }

  /** A module the summary never names stays in the table, and the summary
      is unchanged by it. */
  lemma {:induction false} StepKeepsUnreferenced(st: Scan, id: nat, rewriteTagged: (string, string) -> string)
    requires id in st.mods && !Contains(st.text, "[[" + st.mods[id].name)
    ensures ResourceStep(st, id, rewriteTagged).text == st.text
    ensures id in ResourceStep(st, id, rewriteTagged).mods
  {
    var m := st.mods[id];
    SubstituteWithoutPlaceholder(st.text, m.name, TagCallback(m.name, m.html, rewriteTagged));
  }

  /** A module whose `[[Name]]` the summary holds once has its html put in
      place of the placeholder and leaves the table, unless the html is the
      placeholder itself. */
  lemma {:induction false} StepRemovesReferenced(st: Scan, id: nat, a: string, b: string,
                              rewriteTagged: (string, string) -> string)
    requires id in st.mods && !st.mods[id].isLabel
    requires var name := st.mods[id].name;
      |name| > 0 && PlainName(name) && '[' !in a && !Contains(b, "[[" + name)
      && st.text == a + Placeholder(name, "") + b
      && NameHtml(name, st.mods[id].html) != Placeholder(name, "")
    ensures var name := st.mods[id].name;
      ResourceStep(st, id, rewriteTagged).text == a + NameHtml(name, st.mods[id].html) + b
    ensures id !in ResourceStep(st, id, rewriteTagged).mods
  {
    var m := st.mods[id];
    SubstituteName(a, m.name, b, m.html, rewriteTagged);
    ConcatDiffers(a, NameHtml(m.name, m.html), Placeholder(m.name, ""), b);
  }

  /** One item of the section's module list. */
  datatype ListItem =
    | MoveHere(moveto: nat)      // "move here" target before module `moveto`
    | MoveToSection              // "move here" target at the end of the section
    | ModuleHtml(id: nat, html: string)

  /** Whether the loop of `custom_course_section_cm_list` keeps module `id`:
      outside editing only modules still in the table, never the module being
      moved, and only when its rendered html is not PHP-empty. */
  predicate Listable(id: nat, mods: Mods, editing: bool, movingCopy: Option<nat>, render: nat -> string) {
    (editing || id in mods) && !(editing && movingCopy == Some(id)) && !PhpEmpty(render(id))
  }

  /** `$moduleshtml`: html by module id. Writing a key again keeps its first
      position, and the html is the same, so a repeated id changes nothing. */
  function ListedModules(ids: seq<nat>, mods: Mods, editing: bool, movingCopy: Option<nat>,
                         render: nat -> string): seq<(nat, string)>
    decreases |ids|
  {
    if |ids| == 0 then []
    else
      var list := ListedModules(ids[..|ids| - 1], mods, editing, movingCopy, render);
      var id := ids[|ids| - 1];
      if Listable(id, mods, editing, movingCopy, render) && id !in OrderedMap.KeysOf(list)
      then list + [(id, render(id))] else list
  }

  /** Position of the first `x` in `s`. */
  function FirstIndex(s: seq<nat>, x: nat): (i: nat)
    requires x in s
    ensures i < |s| && s[i] == x && x !in s[..i]
  {
    if s[0] == x then 0
    else
      var i := FirstIndex(s[1..], x);
      assert s[..i + 1] == [s[0]] + s[1..][..i];
      i + 1
  }

  lemma {:induction false} FirstIndexInPrefix(s: seq<nat>, m: nat, x: nat)
    requires m <= |s| && x in s[..m]
    ensures FirstIndex(s, x) == FirstIndex(s[..m], x)
  {
    var i, j := FirstIndex(s, x), FirstIndex(s[..m], x);
    assert s[..m][..j] == s[..j];
  }

  /** A module is listed exactly when the section holds it and it is
      listable; each is listed once, with its html, in the order of first
      appearance in the section. */
  lemma {:induction false} ListedModulesSpec(ids: seq<nat>, mods: Mods, editing: bool,
                                             movingCopy: Option<nat>, render: nat -> string)
    ensures var list := ListedModules(ids, mods, editing, movingCopy, render);
      (forall id :: id in OrderedMap.KeysOf(list) <==> id in ids && Listable(id, mods, editing, movingCopy, render))
      && (forall i :: 0 <= i < |list| ==> list[i].1 == render(list[i].0))
      && (forall i, j :: 0 <= i < j < |list| ==> FirstIndex(ids, list[i].0) < FirstIndex(ids, list[j].0))
  {
    ListedModulesMembers(ids, mods, editing, movingCopy, render);
    ListedModulesHtml(ids, mods, editing, movingCopy, render);
    ListedModulesOrder(ids, mods, editing, movingCopy, render);
  }

  lemma {:induction false} ListedModulesMembers(ids: seq<nat>, mods: Mods, editing: bool,
                                                movingCopy: Option<nat>, render: nat -> string)
    ensures var list := ListedModules(ids, mods, editing, movingCopy, render);
      forall id :: id in OrderedMap.KeysOf(list) <==> id in ids && Listable(id, mods, editing, movingCopy, render)
    decreases |ids|
  {
    if |ids| > 0 {
      var n := |ids| - 1;
      var init := ids[..n];
      var list := ListedModules(init, mods, editing, movingCopy, render);
      ListedModulesMembers(init, mods, editing, movingCopy, render);
      assert ids == init + [ids[n]];
      var id := ids[n];
      if Listable(id, mods, editing, movingCopy, render) && id !in OrderedMap.KeysOf(list) {
        assert OrderedMap.KeysOf(list + [(id, render(id))]) == OrderedMap.KeysOf(list) + [id];
      }
    }
  }

  /** Every listed module carries its own rendered html. */
  predicate HtmlRendered(list: seq<(nat, string)>, render: nat -> string) {
    forall i :: 0 <= i < |list| ==> list[i].1 == render(list[i].0)
  }

  lemma {:induction false} ListedModulesHtml(ids: seq<nat>, mods: Mods, editing: bool,
                                             movingCopy: Option<nat>, render: nat -> string)
    ensures HtmlRendered(ListedModules(ids, mods, editing, movingCopy, render), render)
    decreases |ids|
  {
    if |ids| > 0 {
      var list := ListedModules(ids[..|ids| - 1], mods, editing, movingCopy, render);
      ListedModulesHtml(ids[..|ids| - 1], mods, editing, movingCopy, render);
      var id := ids[|ids| - 1];
      if Listable(id, mods, editing, movingCopy, render) && id !in OrderedMap.KeysOf(list) {
        var list' := list + [(id, render(id))];
        assert forall i :: 0 <= i < |list| ==> list'[i] == list[i];
      }
    }
  }

  lemma {:induction false} ListedModulesOrder(ids: seq<nat>, mods: Mods, editing: bool,
                                              movingCopy: Option<nat>, render: nat -> string)
    ensures var list := ListedModules(ids, mods, editing, movingCopy, render);
      forall i, j :: 0 <= i < j < |list| ==>
        list[i].0 in ids && list[j].0 in ids && FirstIndex(ids, list[i].0) < FirstIndex(ids, list[j].0)
    decreases |ids|
  {
    if |ids| > 0 {
      var n := |ids| - 1;
      var init := ids[..n];
      var list := ListedModules(init, mods, editing, movingCopy, render);
      ListedModulesOrder(init, mods, editing, movingCopy, render);
      ListedModulesMembers(init, mods, editing, movingCopy, render);
      assert ids == init + [ids[n]];
      forall i | 0 <= i < |list|
        ensures list[i].0 in ids && FirstIndex(ids, list[i].0) == FirstIndex(init, list[i].0) < n
      {
        assert list[i].0 in OrderedMap.KeysOf(list);
        FirstIndexInPrefix(ids, n, list[i].0);
      }
      var id := ids[n];
      if Listable(id, mods, editing, movingCopy, render) && id !in OrderedMap.KeysOf(list) {
        assert id !in init;
        assert FirstIndex(ids, id) == n;
      }
    }
  }

  /** The items of the section's list: when a module is being moved, a
      target before every module and one at the end. */
  function SectionItems(list: seq<(nat, string)>, moving: bool): seq<ListItem> {
    if |list| == 0 && !moving then []
    else ModuleItems(list, moving) + (if moving then [MoveToSection] else [])
  }

  function ModuleItems(list: seq<(nat, string)>, moving: bool): (items: seq<ListItem>)
    ensures |items| == if moving then 2 * |list| else |list|
    decreases |list|
  {
    if |list| == 0 then []
    else
      var n := |list| - 1;
      ModuleItems(list[..n], moving)
      + (if moving then [MoveHere(list[n].0)] else [])
      + [ModuleHtml(list[n].0, list[n].1)]
  }

  /** Without a move in progress the items are the listed modules; with one,
      each module follows a target for it and the section's target ends the
      list. */
  lemma {:induction false} ModuleItemsShape(list: seq<(nat, string)>, moving: bool)
    ensures !moving ==> forall i :: 0 <= i < |list| ==> ModuleItems(list, moving)[i] == ModuleHtml(list[i].0, list[i].1)
    ensures moving ==> forall i :: 0 <= i < |list| ==>
      ModuleItems(list, moving)[2 * i] == MoveHere(list[i].0)
      && ModuleItems(list, moving)[2 * i + 1] == ModuleHtml(list[i].0, list[i].1)
    decreases |list|
  {
    if |list| > 0 {
      var n := |list| - 1;
      ModuleItemsShape(list[..n], moving);
    }
  }

  /** `custom_course_section_cm_list` as the items of its `<ul>`. */
  function CustomCmList(sectionMods: seq<nat>, mods: Mods, editing: bool, movingCopy: Option<nat>,
                        render: nat -> string): seq<ListItem>
  {
    SectionItems(ListedModules(sectionMods, mods, editing, movingCopy, render), editing && movingCopy.Some?)
  }

  /** Every module item of the section's list is a listed module. */
  lemma {:induction false} SectionItemsListed(list: seq<(nat, string)>, moving: bool, k: nat)
    requires k < |SectionItems(list, moving)| && SectionItems(list, moving)[k].ModuleHtml?
    ensures SectionItems(list, moving)[k].id in OrderedMap.KeysOf(list)
  {
    var items := ModuleItems(list, moving);
    ModuleItemsShape(list, moving);
    assert k < |items|;
    if moving {
      var i := k / 2;
      if k % 2 == 1 {
        assert items[2 * i + 1] == ModuleHtml(list[i].0, list[i].1);
      }
    } else {
      assert items[k] == ModuleHtml(list[k].0, list[k].1);
    }
  }

  /** Outside editing, a module the summary consumed is not listed; while
      editing, no module being moved is. */
  lemma {:induction false} CustomCmListHidesConsumed(sectionMods: seq<nat>, mods: Mods, editing: bool,
                                  movingCopy: Option<nat>, render: nat -> string, k: nat)
    requires k < |CustomCmList(sectionMods, mods, editing, movingCopy, render)|
    requires CustomCmList(sectionMods, mods, editing, movingCopy, render)[k].ModuleHtml?
    ensures var id := CustomCmList(sectionMods, mods, editing, movingCopy, render)[k].id;
      id in sectionMods && (editing || id in mods) && !(editing && movingCopy == Some(id))
  {
    var list := ListedModules(sectionMods, mods, editing, movingCopy, render);
    ListedModulesSpec(sectionMods, mods, editing, movingCopy, render);
    SectionItemsListed(list, editing && movingCopy.Some?, k);
  }
}
