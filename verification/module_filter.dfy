/** `cm_filter`: the clean-up and custom-field substitution applied to the
    html of one module tile. */
module ModuleFilter {
  import opened Optional
  import opened PhpStrings
  import opened OrderedMap

  /** The empty paragraphs the ATTO editor leaves behind; every tile drops them. */
  const EmptyParagraphs: seq<string> := [
    "<p dir=\"ltr\" style=\"text-align: left;\"><br></p>",
    "<p dir=\"ltr\" style=\"text-align: left;\"></p>",
    "<p></p>",
    "<p><br></p>"
  ]

  /** Where a replacement puts the field's value. */
  const FieldValue := "FIELD.VALUE"

  /** `str_replace($needles, '', $s)` with an array of needles: each needle in
      turn is deleted from the result so far. */
  function DeleteEach(s: string, needles: seq<string>): string
    decreases |needles|
  {
    if |needles| == 0 then s else DeleteEach(ReplaceAll(s, needles[0], ""), needles[1..])
  }

  /** Deleting an occurring non-empty text makes the subject shorter. */
  lemma {:induction false} DeleteShrinks(s: string, n: string)
    requires |n| > 0 && Contains(s, n)
    ensures |ReplaceAll(s, n, "")| < |s|
  {
    IndexOfFindsOccurrence(s, n);
    var i := IndexOf(s, n).value;
    SplitAt(s, i);
    ReplaceAllAtFirst(s, s[..i], s[i..], n, "");
    DeleteNeverGrows(s[i..][|n|..], n);
  }

  lemma {:induction false} DeleteEachNeverGrows(s: string, needles: seq<string>)
    ensures |DeleteEach(s, needles)| <= |s|
    decreases |needles|
  {
    if |needles| > 0 {
      DeleteNeverGrows(s, needles[0]);
      DeleteEachNeverGrows(ReplaceAll(s, needles[0], ""), needles[1..]);
    }
  }

  /** The clean-up changes the html exactly when one of the (non-empty)
      needles occurs in it. */
  lemma {:induction false} DeleteEachChangesIffOccurs(s: string, needles: seq<string>)
    requires forall k :: 0 <= k < |needles| ==> |needles[k]| > 0
    ensures DeleteEach(s, needles) == s <==> forall k :: 0 <= k < |needles| ==> !Contains(s, needles[k])
    decreases |needles|
  {
    if |needles| > 0 {
      var n := needles[0];
      var t := ReplaceAll(s, n, "");
      DeleteEachChangesIffOccurs(t, needles[1..]);
      if Contains(s, n) {
        DeleteShrinks(s, n);
        DeleteEachNeverGrows(t, needles[1..]);
      } else {
        ReplaceAllWithoutOccurrence(s, n, "");
        assert forall k :: 1 <= k < |needles| ==> needles[k] == needles[1..][k - 1];
      }
    }
  }

  /** Length of the first line of `s`. */
  function LineEnd(s: string): (k: nat)
    ensures k <= |s|
    ensures forall j :: 0 <= j < k ==> s[j] != '\r' && s[j] != '\n'
    ensures k < |s| ==> s[k] == '\r' || s[k] == '\n'
  {
    if |s| == 0 || s[0] == '\r' || s[0] == '\n' then 0 else 1 + LineEnd(s[1..])
  }

  /** A line without line breaks. */
  predicate SingleLine(s: string) {
    '\r' !in s && '\n' !in s
  }

  /** `s` without its CR and LF characters. */
  function DropBreaks(s: string): string
    decreases |s|
  {
    if |s| == 0 then "" else (if s[0] == '\r' || s[0] == '\n' then "" else [s[0]]) + DropBreaks(s[1..])
  }

  lemma {:induction false} DropBreaksAppend(a: string, b: string)
    ensures DropBreaks(a + b) == DropBreaks(a) + DropBreaks(b)
    decreases |a|
  {
    if |a| > 0 {
      assert (a + b)[1..] == a[1..] + b;
      DropBreaksAppend(a[1..], b);
    } else {
      assert a + b == b;
    }
  }

  lemma {:induction false} DropBreaksSingle(s: string)
    requires SingleLine(s)
    ensures DropBreaks(s) == s
    decreases |s|
  {
    if |s| > 0 {
      assert forall c :: c in s[1..] ==> c in s;
      DropBreaksSingle(s[1..]);
      assert s == [s[0]] + s[1..];
    }
  }

  /** `preg_split('/\r\n|\r|\n/', $s)`: the lines of `s`, where a line ends at
      CR LF, at a lone CR or at LF. */
  function SplitLines(s: string): (lines: seq<string>)
    ensures |lines| >= 1
    ensures forall i :: 0 <= i < |lines| ==> SingleLine(lines[i])
    decreases |s|
  {
    var k := LineEnd(s);
    if k == |s| then
      [s]
    else
      var width := if s[k] == '\r' && k + 1 < |s| && s[k + 1] == '\n' then 2 else 1;
      var rest := SplitLines(s[k + width..]);
      FirstLine(s, k);
      LinesCons(s[..k], rest);
      [s[..k]] + rest
  }

  /** Put back together, the lines are the text without its line breaks:
      splitting loses nothing but the breaks. */
  lemma {:induction false} SplitLinesJoin(s: string)
    ensures Implode(SplitLines(s), "") == DropBreaks(s)
    decreases |s|
  {
    var k := LineEnd(s);
    if k == |s| {
      DropBreaksSingle(s);
    } else {
      var width := if s[k] == '\r' && k + 1 < |s| && s[k + 1] == '\n' then 2 else 1;
      SplitLinesJoin(s[k + width..]);
      JoinStep(s, k, width);
    }
  }

  /** The first line, then the lines after the break at `k`, join to the
      text without its breaks when the later lines do. */
  lemma {:induction false} JoinStep(s: string, k: nat, width: nat)
    requires k == LineEnd(s) < |s|
    requires width == if s[k] == '\r' && k + 1 < |s| && s[k + 1] == '\n' then 2 else 1
    requires Implode(SplitLines(s[k + width..]), "") == DropBreaks(s[k + width..])
    ensures Implode(SplitLines(s), "") == DropBreaks(s)
  {
    var rest := SplitLines(s[k + width..]);
    SplitLinesAt(s, k, width);
    assert DropBreaks(s) == s[..k] + DropBreaks(s[k + width..]) by {
      FirstLine(s, k);
      SplitPieces(s, k, k + width);
    }
    ImplodeCons(s[..k], rest, "");
  }

  lemma {:induction false} FirstLine(s: string, k: nat)
    requires k <= |s| && forall j :: 0 <= j < k ==> s[j] != '\r' && s[j] != '\n'
    ensures SingleLine(s[..k])
  {
    assert forall j :: 0 <= j < k ==> s[..k][j] == s[j];
  }

  lemma {:induction false} LinesCons(l: string, rest: seq<string>)
    requires SingleLine(l) && forall i :: 0 <= i < |rest| ==> SingleLine(rest[i])
    ensures forall i :: 0 <= i < |[l] + rest| ==> SingleLine(([l] + rest)[i])
  {
    forall i | 0 <= i < |[l] + rest| ensures SingleLine(([l] + rest)[i]) {
      if i > 0 {
        assert ([l] + rest)[i] == rest[i - 1];
      }
    }
  }

  /** Stripped of breaks, text with one or two break characters at `k`
      after a first line is that line followed by what comes after them. */
  lemma {:induction false} SplitPieces(s: string, k: nat, e: nat)
    requires k < e <= |s| && e <= k + 2 && SingleLine(s[..k])
    requires IsBreak(s[k]) && (e == k + 2 ==> IsBreak(s[k + 1]))
    ensures DropBreaks(s) == s[..k] + DropBreaks(s[e..])
  {
    var head, brk, tail := s[..k], s[k..e], s[e..];
    assert s == head + (brk + tail);
    assert brk[0] == s[k] && (e == k + 2 ==> brk[1] == s[k + 1]);
    BreakBetween(head, brk, tail);
  }

  lemma {:induction false} BreakBetween(head: string, brk: string, tail: string)
    requires SingleLine(head)
    requires 1 <= |brk| <= 2 && IsBreak(brk[0]) && (|brk| == 2 ==> IsBreak(brk[1]))
    ensures DropBreaks(head + (brk + tail)) == head + DropBreaks(tail)
  {
    DropBreaksAppend(head, brk + tail);
    DropBreaksAppend(brk, tail);
    DropBreaksSingle(head);
    BreaksDropped(brk);
  }

  predicate IsBreak(c: char) {
    c == '\r' || c == '\n'
  }

  lemma {:induction false} BreaksDropped(b: string)
    requires 1 <= |b| <= 2 && IsBreak(b[0]) && (|b| == 2 ==> IsBreak(b[1]))
    ensures DropBreaks(b) == ""
  {
    var t := b[1..];
    assert DropBreaks(b) == DropBreaks(t);
    if |b| == 2 {
      assert t[0] == b[1] && t[1..] == [];
      assert DropBreaks(t) == DropBreaks(t[1..]);
    }
  }

  /** The line breaks `preg_split` recognises: LF, CR LF and a lone CR. */
  predicate LineBreak(sep: string) {
    sep == "\n" || sep == "\r\n" || sep == "\r"
  }

  /** Lines joined by one kind of line break, as a browser submits a
      textarea with CR LF, split back into the same lines. */
  lemma {:induction false} SplitJoinedLines(lines: seq<string>, sep: string)
    requires |lines| >= 1 && forall i :: 0 <= i < |lines| ==> SingleLine(lines[i])
    requires LineBreak(sep)
    ensures SplitLines(Implode(lines, sep)) == lines
    decreases |lines|
  {
    var l := lines[0];
    if |lines| == 1 {
      assert LineEnd(l) == |l|;
    } else {
      var rest := Implode(lines[1..], sep);
      assert Implode(lines, sep) == l + (sep + rest) by {
        ImplodeCons(l, lines[1..], sep);
        assert lines == [l] + lines[1..];
      }
      RestDoesNotStartWithLF(lines[1..], sep);
      SplitAfterFirstLine(l, sep, rest);
      SplitJoinedLines(lines[1..], sep);
      assert lines == [l] + lines[1..];
    }
  }

  /** A line followed by a line break splits into that line and the lines
      of what follows the break. */
  lemma {:induction false} SplitAfterFirstLine(l: string, sep: string, rest: string)
    requires SingleLine(l) && LineBreak(sep)
    requires sep == "\r" && |rest| > 0 ==> rest[0] != '\n'
    ensures SplitLines(l + (sep + rest)) == [l] + SplitLines(rest)
  {
    var s := l + (sep + rest);
    var k := LineEnd(s);
    assert k == |l| by {
      assert forall j :: 0 <= j < |l| ==> s[j] == l[j];
      assert s[|l|] == sep[0];
    }
    var width := if s[k] == '\r' && k + 1 < |s| && s[k + 1] == '\n' then 2 else 1;
    assert width == |sep| by {
      if sep == "\r\n" {
        assert s[k + 1] == '\n';
      } else if k + 1 < |s| {
        assert s[k + 1] == rest[0];
      }
    }
    assert s[k + width..] == rest && s[..k] == l;
    SplitLinesAt(s, k, width);
  }

  lemma {:induction false} SplitLinesAt(s: string, k: nat, width: nat)
    requires k == LineEnd(s) < |s|
    requires width == if s[k] == '\r' && k + 1 < |s| && s[k + 1] == '\n' then 2 else 1
    ensures SplitLines(s) == [s[..k]] + SplitLines(s[k + width..])
  {
  }

  /** What follows a lone CR in joined lines never starts with LF, so the
      CR is not read as the start of a CR LF. */
  lemma {:induction false} RestDoesNotStartWithLF(lines: seq<string>, sep: string)
    requires |lines| >= 1 && forall i :: 0 <= i < |lines| ==> SingleLine(lines[i])
    requires LineBreak(sep)
    ensures var r := Implode(lines, sep); |r| > 0 ==> (r[0] == sep[0] || r[0] != '\n') && (sep == "\r" ==> r[0] != '\n')
  {
    var l := lines[0];
    if |lines| > 1 {
      ImplodeCons(l, lines[1..], sep);
      assert lines == [l] + lines[1..];
      var r := Implode(lines, sep);
      assert r == l + (sep + Implode(lines[1..], sep));
      if |l| > 0 {
        assert r[0] == l[0];
      } else {
        assert r[0] == sep[0];
      }
    } else if |l| > 0 {
      assert l[0] in l;
    }
  }

  /** `list($key, $value) = explode('|', $line, 2)`: the text before the first
      `|` and the text after it; a line without `|` has no value, which acts
      as the empty replacement. */
  function ParseReplacer(line: string): (entry: (string, string))
    ensures '|' !in entry.0
    ensures |entry.0| <= |line|
  {
    var k := SpanUntil(line, '|');
    if k == |line| then (line, "") else (line[..k], line[k + 1..])
  }

  /** A key and a value joined by `|` parse back into that key and value. */
  lemma {:induction false} ParseReplacerRoundTrip(key: string, value: string)
    requires '|' !in key
    ensures ParseReplacer(key + "|" + value) == (key, value)
  {
    assert key + "|" + value == key + ("|" + value);
    SpanUntilStops(key, "|" + value, '|');
    var line := key + "|" + value;
    assert line[..|key|] == key && line[|key| + 1..] == value;
  }

  /** `$replacers`: one entry per key, in the order keys first appear; a later
      line for a key overwrites its value in place. */
  function Replacers(lines: seq<string>): Entries<string>
    decreases |lines|
  {
    if |lines| == 0 then []
    else
      var entry := ParseReplacer(lines[|lines| - 1]);
      Put(Replacers(lines[..|lines| - 1]), entry.0, entry.1)
  }

  /** A key has an entry exactly when some line gives it. */
  lemma {:induction false} ReplacersHasKey(lines: seq<string>, key: string)
    ensures Lookup(Replacers(lines), key).None?
            <==> forall i :: 0 <= i < |lines| ==> ParseReplacer(lines[i]).0 != key
    decreases |lines|
  {
    if |lines| > 0 {
      var n := |lines| - 1;
      var init := lines[..n];
      var entry := ParseReplacer(lines[n]);
      ReplacersHasKey(init, key);
      PutLookup(Replacers(init), entry.0, entry.1, key);
      assert forall i :: 0 <= i < n ==> lines[i] == init[i];
    }
  }

  /** A line for another key appended after the last line for `key` leaves
      that line the last one for `key`. */
  lemma {:induction false} LastLineExtends(lines: seq<string>, init: seq<string>, key: string, value: string, i: nat)
    requires |lines| > 0 && init == lines[..|lines| - 1] && ParseReplacer(lines[|lines| - 1]).0 != key
    requires i < |init| && ParseReplacer(init[i]) == (key, value)
    requires forall j :: i < j < |init| ==> ParseReplacer(init[j]).0 != key
    ensures ParseReplacer(lines[i]) == (key, value)
    ensures forall j :: i < j < |lines| ==> ParseReplacer(lines[j]).0 != key
  {
    assert forall j :: 0 <= j < |init| ==> lines[j] == init[j];
  }

  /** A key's value is the one the last line for it gives. */
  lemma {:induction false} ReplacersLastWins(lines: seq<string>, key: string)
    requires Lookup(Replacers(lines), key).Some?
    ensures exists i :: 0 <= i < |lines| && ParseReplacer(lines[i]) == (key, Lookup(Replacers(lines), key).value)
              && (forall j :: i < j < |lines| ==> ParseReplacer(lines[j]).0 != key)
    decreases |lines|
  {
    var n := |lines| - 1;
    var init := lines[..n];
    var entry := ParseReplacer(lines[n]);
    var value := Lookup(Replacers(lines), key).value;
    PutLookup(Replacers(init), entry.0, entry.1, key);
    if entry.0 == key {
      assert ParseReplacer(lines[n]) == (key, value);
    } else {
      assert Lookup(Replacers(init), key) == Some(value);
      ReplacersLastWins(init, key);
      var i :| 0 <= i < n && ParseReplacer(init[i]) == (key, value)
        && forall j :: i < j < n ==> ParseReplacer(init[j]).0 != key;
      LastLineExtends(lines, init, key, value, i);
    }
  }

  /** `preg_replace('/%{2}([^%]+)%{2}/', '$1', $find)`: every `%%name%%` with a
      non-empty `name` free of `%` becomes `name`. */
  function FieldName(s: string): (r: string)
    ensures '%' !in s ==> r == s
    decreases |s|
  {
    if |s| < 2 then s
    else if s[0] == '%' && s[1] == '%' then
      var k := SpanUntil(s[2..], '%');
      if k > 0 && 2 + k + 1 < |s| && s[2 + k + 1] == '%' then s[2..2 + k] + FieldName(s[2 + k + 2..])
      else [s[0]] + FieldName(s[1..])
    else
      [s[0]] + FieldName(s[1..])
  }

  /** The marker `%%name%%` names the field `name`. */
  lemma {:induction false} FieldNameOfMarker(name: string)
    requires |name| > 0 && '%' !in name
    ensures FieldName("%%" + name + "%%") == name
  {
    var s := "%%" + name + "%%";
    assert s[2..] == name + "%%";
    SpanUntilStops(name, "%%", '%');
    assert s[2..2 + |name|] == name;
    assert s[2 + |name| + 2..] == "";
  }

  /** One replacer: the field's value (empty when the module has none) put
      into the replacement, or nothing at all when the value is empty; every
      `find` in the html becomes that. */
  function ApplyReplacer(html: string, find: string, replace: string, fields: map<string, string>): string {
    var field := FieldName(find);
    var value := if field in fields then fields[field] else "";
    var out := if |value| > 0 then ReplaceAll(replace, FieldValue, value) else "";
    ReplaceAll(html, find, out)
  }

  /** The replacers in order, each on the result of the ones before. */
  function ApplyAll(html: string, replacers: Entries<string>, fields: map<string, string>): string
    decreases |replacers|
  {
    if |replacers| == 0 then html
    else ApplyAll(ApplyReplacer(html, replacers[0].0, replacers[0].1, fields), replacers[1..], fields)
  }

  /** `cm_filter`: the empty paragraphs go; then, when the custom-field
      handler exists, the course's replacer lines are applied. */
  function CmFilter(html: string, hasHandler: bool, replacerText: string, fields: map<string, string>): string {
    var cleaned := DeleteEach(html, EmptyParagraphs);
    if !hasHandler then cleaned else ApplyAll(cleaned, Replacers(SplitLines(replacerText)), fields)
  }

  /** A single line of settings is a single replacer. */
  lemma {:induction false} ReplacersOfOneLine(text: string)
    requires SingleLine(text)
    ensures Replacers(SplitLines(text)) == [ParseReplacer(text)]
  {
    assert LineEnd(text) == |text|;
    assert SplitLines(text) == [text];
    var entry := ParseReplacer(text);
    assert Replacers([text]) == Put([], entry.0, entry.1);
  }

  /** A setting of one line `find|replace` applies that one replacer after
      the clean-up. */
  lemma {:induction false} CmFilterOneLine(html: string, find: string, replace: string, fields: map<string, string>)
    requires '|' !in find && SingleLine(find + "|" + replace)
    ensures CmFilter(html, true, find + "|" + replace, fields)
            == ApplyReplacer(DeleteEach(html, EmptyParagraphs), find, replace, fields)
  {
    var cleaned := DeleteEach(html, EmptyParagraphs);
    ReplacersOfOneLine(find + "|" + replace);
    ParseReplacerRoundTrip(find, replace);
    assert ApplyAll(cleaned, [(find, replace)], fields) == ApplyReplacer(cleaned, find, replace, fields);
  }

  /** Joining single lines with `|` gives a single line. */
  lemma {:induction false} SingleLineJoin(a: string, b: string)
    requires SingleLine(a) && SingleLine(b)
    ensures SingleLine(a + "|" + b)
  {
    assert forall c :: c in a + "|" + b ==> c in a || c == '|' || c in b;
  }

  /** The course setting `%%name%%|replace` puts the module's value of field
      `name` into `replace` at `FIELD.VALUE` and that in place of every
      `%%name%%`; a field that is empty or missing deletes the marker. */
  lemma {:induction false} CmFilterOneField(html: string, name: string, replace: string, fields: map<string, string>)
    requires |name| > 0 && '%' !in name && '|' !in name && SingleLine(name) && SingleLine(replace)
    ensures var value := if name in fields then fields[name] else "";
      CmFilter(html, true, "%%" + name + "%%|" + replace, fields)
      == ReplaceAll(DeleteEach(html, EmptyParagraphs), "%%" + name + "%%",
                    if value == "" then "" else ReplaceAll(replace, FieldValue, value))
  {
    var find := "%%" + name + "%%";
    assert "%%" + name + "%%|" + replace == find + "|" + replace;
    assert SingleLine(find) && '|' !in find by {
      assert forall c :: c in find ==> c == '%' || c in name;
    }
    SingleLineJoin(find, replace);
    CmFilterOneLine(html, find, replace, fields);
    FieldNameOfMarker(name);
  }

  /** Without the custom-field handler only the clean-up happens, and it
      leaves html that holds none of the empty paragraphs as it is. */
  lemma {:induction false} CmFilterWithoutHandler(html: string, replacerText: string, fields: map<string, string>)
    ensures CmFilter(html, false, replacerText, fields) == html
            <==> forall k :: 0 <= k < |EmptyParagraphs| ==> !Contains(html, EmptyParagraphs[k])
  {
    DeleteEachChangesIffOccurs(html, EmptyParagraphs);
  }
}
