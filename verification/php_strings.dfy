/** Models of the PHP string built-ins the course format uses:
    `strpos`, `strrpos`, `str_replace`, `explode`/`implode`, `strip_tags`,
    `trim`, `empty` and the decimal rendering of integers.
    Strings are sequences of characters; byte encodings play no part here. */
module PhpStrings {
  import opened Optional

  /** `n` occurs in `s` starting at index `i`. */
  predicate OccursAt(s: string, n: string, i: nat) {
    i + |n| <= |s| && s[i..i + |n|] == n
  }

  /** `n` occurs somewhere in `s`. */
  predicate Contains(s: string, n: string) {
    exists i: nat | i <= |s| :: OccursAt(s, n, i)
  }

  lemma {:induction false} OccursShift(s: string, n: string, i: nat)
    requires |s| > 0
    ensures OccursAt(s, n, i + 1) <==> OccursAt(s[1..], n, i)
  {
    if i + 1 + |n| <= |s| {
      assert s[1..][i..i + |n|] == s[i + 1..i + 1 + |n|];
    }
  }

  lemma {:induction false} OccursInPrefix(s: string, n: string, i: nat, j: nat)
    requires i <= |s|
    requires OccursAt(s[..i], n, j)
    ensures OccursAt(s, n, j)
  {
    assert s[..i][j..j + |n|] == s[j..j + |n|];
  }

  /** PHP `strpos($s, $n)`: the first index at which `n` occurs, `None` for `false`.
      What it finds is stated by `IndexOfIsFirstOccurrence`. */
  function IndexOf(s: string, n: string): (r: Option<nat>)
    ensures r.Some? ==> r.value + |n| <= |s|
    decreases |s|
  {
    if |n| > |s| then None
    else if s[..|n|] == n then Some(0)
    else
      match IndexOf(s[1..], n)
      case None => None
      case Some(i) => Some(i + 1)
  }

  /** `strpos` reports the leftmost occurrence, and `false` only when there is none. */
  lemma {:induction false} IndexOfIsFirstOccurrence(s: string, n: string)
    ensures IndexOf(s, n).Some? ==> OccursAt(s, n, IndexOf(s, n).value)
    ensures IndexOf(s, n).Some? ==> forall j: nat :: j < IndexOf(s, n).value ==> !OccursAt(s, n, j)
    ensures IndexOf(s, n).None? ==> forall j: nat :: !OccursAt(s, n, j)
    decreases |s|
  {
    if |n| > |s| {
    } else if s[..|n|] == n {
      assert OccursAt(s, n, 0);
    } else {
      var t := s[1..];
      IndexOfIsFirstOccurrence(t, n);
      assert !OccursAt(s, n, 0);
      match IndexOf(t, n)
      case None =>
        assert IndexOf(s, n).None?;
        forall j: nat ensures !OccursAt(s, n, j) {
          if j > 0 { OccursShift(s, n, j - 1); }
        }
      case Some(i) =>
        assert IndexOf(s, n) == Some(i + 1);
        OccursShift(s, n, i);
        forall j: nat | j < i + 1 ensures !OccursAt(s, n, j) {
          if j > 0 { OccursShift(s, n, j - 1); }
        }
    }
  }

  lemma {:induction false} IndexOfOccurs(s: string, n: string)
    ensures IndexOf(s, n).Some? ==> OccursAt(s, n, IndexOf(s, n).value)
  {
    IndexOfIsFirstOccurrence(s, n);
  }

  /** `strpos` finds something exactly when the text occurs. */
  lemma {:induction false} IndexOfFindsOccurrence(s: string, n: string)
    ensures IndexOf(s, n).Some? <==> Contains(s, n)
  {
    IndexOfIsFirstOccurrence(s, n);
    if IndexOf(s, n).Some? {
      assert OccursAt(s, n, IndexOf(s, n).value);
    }
  }

  /** PHP `str_replace($n, $r, $s)`: every occurrence of `n`, found left to right
      without overlap, is replaced by `r`; an empty `n` leaves `s` as it is. */
  function ReplaceAll(s: string, n: string, r: string): (t: string)
    decreases |s|
  {
    if |n| == 0 || |s| < |n| then s
    else if s[..|n|] == n then r + ReplaceAll(s[|n|..], n, r)
    else [s[0]] + ReplaceAll(s[1..], n, r)
  }

  /** PHP `explode($n, $s)` for a non-empty separator: the pieces between the
      occurrences of `n`. */
  function Explode(s: string, n: string): (parts: seq<string>)
    requires |n| > 0
    ensures |parts| >= 1
    decreases |s|
  {
    match IndexOf(s, n)
    case None => [s]
    case Some(i) => [s[..i]] + Explode(s[i + |n|..], n)
  }

  /** PHP `implode($glue, $parts)`. */
  function Implode(parts: seq<string>, glue: string): string
  {
    if |parts| == 0 then ""
    else if |parts| == 1 then parts[0]
    else parts[0] + glue + Implode(parts[1..], glue)
  }

  lemma {:induction false} SplitThree(s: string, i: nat, j: nat)
    requires i <= j <= |s|
    ensures s == s[..i] + s[i..j] + s[j..]
  {
  }

  lemma {:induction false} SplitAt(s: string, i: nat)
    requires i <= |s|
    ensures s[..i] + s[i..] == s
  {
  }

  lemma {:induction false} ImplodeCons(head: string, tail: seq<string>, glue: string)
    requires |tail| >= 1
    ensures Implode([head] + tail, glue) == head + glue + Implode(tail, glue)
  {
    assert ([head] + tail)[1..] == tail;
  }

  /** No piece produced by `explode` contains the separator. */
  lemma {:induction false} ExplodePiecesAreSeparatorFree(s: string, n: string)
    requires |n| > 0
    ensures forall k :: 0 <= k < |Explode(s, n)| ==> !Contains(Explode(s, n)[k], n)
    decreases |s|
  {
    IndexOfFindsOccurrence(s, n);
    var first := IndexOf(s, n);
    if first.Some? {
      var i := first.value;
      IndexOfIsFirstOccurrence(s, n);
      ExplodePiecesAreSeparatorFree(s[i + |n|..], n);
      if Contains(s[..i], n) {
        var j: nat :| j <= i && OccursAt(s[..i], n, j);
        OccursInPrefix(s, n, i, j);
      }
    }
  }

  /** Exploding on a separator and joining with the same separator gives the text back. */
  lemma {:induction false} ImplodeExplode(s: string, n: string)
    requires |n| > 0
    ensures Implode(Explode(s, n), n) == s
    decreases |s|
  {
    var first := IndexOf(s, n);
    if first.Some? {
      var i := first.value;
      var rest := s[i + |n|..];
      IndexOfOccurs(s, n);
      ImplodeExplode(rest, n);
      ImplodeCons(s[..i], Explode(rest, n), n);
      SplitThree(s, i, i + |n|);
    }
  }

  /** The first occurrence is where the replacement scan first rewrites: with
      the text cut there, everything in front of it is copied and the
      occurrence itself becomes `r`. */
  lemma {:induction false} ReplaceAllAtFirst(s: string, front: string, rest: string, n: string, r: string)
    requires |n| > 0 && s == front + rest && IndexOf(s, n) == Some(|front|)
    ensures |n| <= |rest|
    ensures ReplaceAll(s, n, r) == front + r + ReplaceAll(rest[|n|..], n, r)
    decreases |front|
  {
    if |front| == 0 {
      assert s == rest;
      IndexOfAtStart(rest, n);
      ReplaceAllAtStart(rest, n, r);
      assert front + r == r;
    } else {
      IndexOfStep(s, n, |front|);
      assert s[1..] == front[1..] + rest;
      ReplaceAllAtFirst(s[1..], front[1..], rest, n, r);
      ReplaceAllSkip(s, n, r);
      assert [s[0]] + front[1..] == front;
      Reassociate(ReplaceAll(s, n, r), [s[0]], ReplaceAll(s[1..], n, r), front[1..], front, r,
        ReplaceAll(rest[|n|..], n, r));
    }
  }

  lemma {:induction false} IndexOfAtStart(s: string, n: string)
    requires IndexOf(s, n) == Some(0)
    ensures |n| <= |s| && s[..|n|] == n
  {
  }

  lemma {:induction false} IndexOfStep(s: string, n: string, i: nat)
    requires IndexOf(s, n) == Some(i) && i > 0
    ensures |n| <= |s| && s[..|n|] != n && IndexOf(s[1..], n) == Some(i - 1)
  {
  }

  /** A position where the searched text starts is rewritten. */
  lemma {:induction false} ReplaceAllAtStart(s: string, n: string, r: string)
    requires 0 < |n| <= |s| && s[..|n|] == n
    ensures ReplaceAll(s, n, r) == r + ReplaceAll(s[|n|..], n, r)
  {
  }

  /** A position where the searched text does not start is copied unchanged. */
  lemma {:induction false} ReplaceAllSkip(s: string, n: string, r: string)
    requires 0 < |n| <= |s| && s[..|n|] != n
    ensures ReplaceAll(s, n, r) == [s[0]] + ReplaceAll(s[1..], n, r)
  {
  }

  lemma {:induction false} Reassociate(whole: string, c: string, x: string, p: string, a: string, r: string, tail: string)
    requires whole == c + x && x == p + r + tail && c + p == a
    ensures whole == a + r + tail
  {
  }

  /** Where the searched text does not occur, `str_replace` changes nothing. */
  lemma {:induction false} ReplaceAllWithoutOccurrence(s: string, n: string, r: string)
    requires !Contains(s, n)
    ensures ReplaceAll(s, n, r) == s
    decreases |s|
  {
    if |n| == 0 || |s| < |n| {
    } else {
      assert !OccursAt(s, n, 0);
      if Contains(s[1..], n) {
        var j: nat :| j <= |s| - 1 && OccursAt(s[1..], n, j);
        OccursShift(s, n, j);
      }
      ReplaceAllWithoutOccurrence(s[1..], n, r);
    }
  }

  /** `str_replace` agrees with its reference definition: explode on the
      searched text, then join the pieces with the replacement. */
  lemma {:induction false} ReplaceAllIsImplodeExplode(s: string, n: string, r: string)
    requires |n| > 0
    ensures ReplaceAll(s, n, r) == Implode(Explode(s, n), r)
    decreases |s|
  {
    var first := IndexOf(s, n);
    if first.Some? {
      var front, rest := s[..first.value], s[first.value..];
      SplitAt(s, first.value);
      ReplaceAllAtFirst(s, front, rest, n, r);
      ExplodeAtFirst(s, front, rest, n);
      ReplaceAllIsImplodeExplode(rest[|n|..], n, r);
      ImplodeCons(front, Explode(rest[|n|..], n), r);
    } else {
      NoOccurrenceNoRewrite(s, n, r);
    }
  }

  lemma {:induction false} ExplodeAtFirst(s: string, front: string, rest: string, n: string)
    requires |n| > 0 && s == front + rest && IndexOf(s, n) == Some(|front|)
    ensures |n| <= |rest|
    ensures Explode(s, n) == [front] + Explode(rest[|n|..], n)
  {
    SplitPieces(s, front, rest, |n|);
    assert Explode(s, n) == [s[..|front|]] + Explode(s[|front| + |n|..], n);
  }

  lemma {:induction false} SplitPieces(s: string, front: string, rest: string, m: nat)
    requires s == front + rest && m <= |rest|
    ensures s[..|front|] == front && s[|front| + m..] == rest[m..]
  {
  }

  lemma {:induction false} NoOccurrenceNoRewrite(s: string, n: string, r: string)
    requires |n| > 0
    requires IndexOf(s, n).None?
    ensures ReplaceAll(s, n, r) == s
  {
    IndexOfFindsOccurrence(s, n);
    ReplaceAllWithoutOccurrence(s, n, r);
  }

  lemma {:induction false} DeleteNeverGrows(s: string, n: string)
    ensures |ReplaceAll(s, n, "")| <= |s|
    decreases |s|
  {
    if |n| == 0 || |s| < |n| {
    } else if s[..|n|] == n {
      DeleteNeverGrows(s[|n|..], n);
    } else {
      DeleteNeverGrows(s[1..], n);
    }
  }

  /** Deleting a non-empty text changes the subject exactly when the text occurs in it. */
  lemma {:induction false} DeleteChangesIffOccurs(s: string, n: string)
    requires |n| > 0
    ensures ReplaceAll(s, n, "") == s <==> !Contains(s, n)
  {
    IndexOfFindsOccurrence(s, n);
    if Contains(s, n) {
      var i := IndexOf(s, n).value;
      SplitAt(s, i);
      ReplaceAllAtFirst(s, s[..i], s[i..], n, "");
      DeleteNeverGrows(s[i..][|n|..], n);
    } else {
      ReplaceAllWithoutOccurrence(s, n, "");
    }
  }

  /** `str_replace($n, $r, $n)` is `$r`. */
  lemma {:induction false} ReplaceWhole(n: string, r: string)
    requires |n| > 0
    ensures ReplaceAll(n, n, r) == r
  {
    assert n[..|n|] == n;
    assert n[|n|..] == "";
  }

  /** Texts that differ stay different between the same surroundings. */
  lemma {:induction false} ConcatDiffers(a: string, x: string, y: string, b: string)
    requires x != y
    ensures a + x + b != a + y + b
  {
    if |x| == |y| {
      var i :| 0 <= i < |x| && x[i] != y[i];
      assert (a + x + b)[|a| + i] == x[i];
      assert (a + y + b)[|a| + i] == y[i];
    } else {
      assert |a + x + b| != |a + y + b|;
    }
  }

  /** A searched text at the very front is rewritten there. */
  lemma {:induction false} ReplaceAllAtFront(n: string, b: string, r: string)
    requires |n| > 0
    ensures ReplaceAll(n + b, n, r) == r + ReplaceAll(b, n, r)
  {
    assert (n + b)[..|n|] == n;
    assert (n + b)[|n|..] == b;
  }

  /** A prefix that never holds the first character of the searched text
      passes through `str_replace` untouched. */
  lemma {:induction false} ReplaceAllSkips(a: string, b: string, n: string, r: string)
    requires |n| > 0 && n[0] !in a
    ensures ReplaceAll(a + b, n, r) == a + ReplaceAll(b, n, r)
    decreases |a|
  {
    if |a| == 0 {
      assert a + b == b;
    } else {
      var s := a + b;
      assert s[1..] == a[1..] + b;
      ReplaceAllSkips(a[1..], b, n, r);
      if |s| >= |n| {
        assert s[..|n|][0] == a[0];
        assert ReplaceAll(s, n, r) == [a[0]] + ReplaceAll(s[1..], n, r);
        assert [a[0]] + (a[1..] + ReplaceAll(b, n, r)) == a + ReplaceAll(b, n, r);
      } else {
        assert ReplaceAll(b, n, r) == b;
      }
    }
  }

  /** Length of the longest prefix of `s` without `c`; `|s|` when `c` is absent.
      PHP `strpos($s, $c)` for a one-character needle. */
  function SpanUntil(s: string, c: char): (k: nat)
    ensures k <= |s|
    ensures forall j :: 0 <= j < k ==> s[j] != c
    ensures k < |s| ==> s[k] == c
  {
    if |s| == 0 || s[0] == c then 0 else 1 + SpanUntil(s[1..], c)
  }

  /** The span stops at the first `c`. */
  lemma {:induction false} SpanUntilStops(x: string, y: string, c: char)
    requires c !in x && |y| > 0 && y[0] == c
    ensures SpanUntil(x + y, c) == |x|
  {
    var s := x + y;
    var k := SpanUntil(s, c);
    assert s[|x|] == c;
    assert forall j :: 0 <= j < |x| ==> s[j] == x[j];
  }

  /** PHP `strrpos($s, $c)` for a one-character needle. */
  function LastIndexOfChar(s: string, c: char): (r: Option<nat>)
    ensures r.Some? ==> r.value < |s| && s[r.value] == c
    ensures r.Some? ==> forall j :: r.value < j < |s| ==> s[j] != c
    ensures r.None? <==> c !in s
  {
    if |s| == 0 then None
    else if s[|s| - 1] == c then Some(|s| - 1)
    else
      assert forall j :: 0 <= j < |s| - 1 ==> s[..|s| - 1][j] == s[j];
      LastIndexOfChar(s[..|s| - 1], c)
  }

  /** The characters C's `isspace` accepts, which `strip_tags` consults. */
  predicate IsCSpace(c: char) {
    c == ' ' || c == '\t' || c == '\n' || c == '\r' || c as int == 11 || c as int == 12
  }

  /** The characters PHP `trim` removes by default. */
  predicate IsTrimChar(c: char) {
    c == ' ' || c == '\t' || c == '\n' || c == '\r' || c == '\0' || c as int == 11
  }

  function LeadingBlanks(s: string): (k: nat)
    ensures k <= |s|
    ensures forall j :: 0 <= j < k ==> IsTrimChar(s[j])
    ensures k < |s| ==> !IsTrimChar(s[k])
  {
    if |s| == 0 || !IsTrimChar(s[0]) then 0 else 1 + LeadingBlanks(s[1..])
  }

  function TrailingBlanks(s: string): (k: nat)
    ensures k <= |s|
    ensures forall j :: |s| - k <= j < |s| ==> IsTrimChar(s[j])
    ensures k < |s| ==> !IsTrimChar(s[|s| - k - 1])
  {
    if |s| == 0 || !IsTrimChar(s[|s| - 1]) then 0
    else
      var k := TrailingBlanks(s[..|s| - 1]);
      assert forall j :: 0 <= j < |s| - 1 ==> s[..|s| - 1][j] == s[j];
      1 + k
  }

  /** PHP `trim`: the text without its leading and trailing blanks. */
  function Trim(s: string): (t: string)
    ensures |t| <= |s|
    ensures t != "" ==> !IsTrimChar(t[0]) && !IsTrimChar(t[|t| - 1])
    ensures t == "" <==> forall j :: 0 <= j < |s| ==> IsTrimChar(s[j])
    ensures forall j :: 0 <= j < |s| && !IsTrimChar(s[j]) ==> s[j] in t
    ensures exists i :: BlanksAround(s, i, t)
  {
    var t := Trimmed(s);
    TrimmedEnds(s, t);
    TrimmedKeepsInner(s, t);
    TrimmedInfix(s, t);
    t
  }

  /** `t` stands at position `i` of `s`, with nothing but blanks before and
      after it. */
  predicate BlanksAround(s: string, i: nat, t: string) {
    i + |t| <= |s| && s[i..i + |t|] == t
    && (forall j :: 0 <= j < i ==> IsTrimChar(s[j]))
    && (forall j :: i + |t| <= j < |s| ==> IsTrimChar(s[j]))
  }

  lemma {:induction false} TrimmedInfix(s: string, t: string)
    requires t == Trimmed(s)
    ensures BlanksAround(s, LeadingBlanks(s), t)
  {
    var a := LeadingBlanks(s);
    var rest := s[a..];
    var b := TrailingBlanks(rest);
    assert s[a..a + |t|] == t;
    forall j | a + |t| <= j < |s| ensures IsTrimChar(s[j]) {
      assert s[j] == rest[j - a];
    }
  }

  /** The text between the leading and the trailing blanks. */
  function Trimmed(s: string): string {
    var rest := s[LeadingBlanks(s)..];
    rest[..|rest| - TrailingBlanks(rest)]
  }

  /** The text between the leading and the trailing blanks starts and ends with
      a non-blank. */
  lemma {:induction false} TrimmedEnds(s: string, t: string)
    requires t == Trimmed(s)
    ensures t != "" ==> !IsTrimChar(t[0]) && !IsTrimChar(t[|t| - 1])
  {
    var a := LeadingBlanks(s);
    var rest := s[a..];
    var b := TrailingBlanks(rest);
    if t != "" {
      assert t[0] == s[a];
      assert t[|t| - 1] == rest[|rest| - b - 1];
    }
  }

  /** ... and holds every non-blank character of `s`. */
  lemma {:induction false} TrimmedKeepsInner(s: string, t: string)
    requires t == Trimmed(s)
    ensures t == "" <==> forall j :: 0 <= j < |s| ==> IsTrimChar(s[j])
    ensures forall j :: 0 <= j < |s| && !IsTrimChar(s[j]) ==> s[j] in t
  {
    var a := LeadingBlanks(s);
    var rest := s[a..];
    var b := TrailingBlanks(rest);
    assert t == rest[..|rest| - b];
    assert forall j :: 0 <= j < |t| ==> t[j] == s[a + j];
    assert forall j :: 0 <= j < |s| && !IsTrimChar(s[j]) ==> a <= j < a + |t| by {
      forall j | 0 <= j < |s| && !IsTrimChar(s[j]) ensures a <= j < a + |t| {
        if j >= a { assert rest[j - a] == s[j]; }
      }
    }
  }

  /** The characters of `s` that `trim` would not remove, in order. */
  function NonBlanks(s: string): string
    decreases |s|
  {
    if |s| == 0 then "" else (if IsTrimChar(s[0]) then "" else [s[0]]) + NonBlanks(s[1..])
  }

  lemma {:induction false} NonBlanksAppend(a: string, b: string)
    ensures NonBlanks(a + b) == NonBlanks(a) + NonBlanks(b)
    decreases |a|
  {
    if |a| > 0 {
      assert (a + b)[1..] == a[1..] + b;
      NonBlanksAppend(a[1..], b);
    } else {
      assert a + b == b;
    }
  }

  lemma {:induction false} NonBlanksEmpty(s: string)
    ensures NonBlanks(s) == "" <==> forall j :: 0 <= j < |s| ==> IsTrimChar(s[j])
    decreases |s|
  {
    if |s| > 0 {
      NonBlanksEmpty(s[1..]);
      assert forall j :: 1 <= j < |s| ==> s[1..][j - 1] == s[j];
    }
  }

  /** A leading blank does not change what `trim` keeps. */
  lemma {:induction false} TrimSkipsBlank(s: string)
    requires |s| > 0 && IsTrimChar(s[0])
    ensures Trim(s) == Trim(s[1..])
  {
    TrimmedSkipsBlank(s);
  }

  lemma {:induction false} TrimmedSkipsBlank(s: string)
    requires |s| > 0 && IsTrimChar(s[0])
    ensures Trimmed(s) == Trimmed(s[1..])
  {
    assert LeadingBlanks(s) == 1 + LeadingBlanks(s[1..]);
    assert s[LeadingBlanks(s)..] == s[1..][LeadingBlanks(s[1..])..];
  }

  /** `trim` leaves exactly `"0"` iff the only non-blank character is a `0`. */
  lemma {:induction false} TrimZero(s: string)
    ensures Trim(s) == "0" <==> NonBlanks(s) == "0"
    decreases |s|
  {
    if |s| > 0 {
      if IsTrimChar(s[0]) {
        TrimSkipsBlank(s);
        TrimZero(s[1..]);
      } else {
        TrimZeroFromNonBlank(s);
      }
    }
  }

  lemma {:induction false} TrimZeroFromNonBlank(s: string)
    requires |s| > 0 && !IsTrimChar(s[0])
    ensures Trim(s) == "0" <==> NonBlanks(s) == "0"
  {
    NonBlanksEmpty(s[1..]);
    var b := TrailingBlanks(s);
    assert Trim(s) == s[..|s| - b] by {
      assert LeadingBlanks(s) == 0 && s[0..] == s;
    }
    if NonBlanks(s) == "0" {
      assert b == |s| - 1 by {
        var x := NonBlanks(s[1..]);
        assert "0" == [s[0]] + x;
        assert |x| == 0 && ([s[0]] + x)[0] == s[0];
        assert forall j :: 1 <= j < |s| ==> s[1..][j - 1] == s[j];
      }
    }
    if Trim(s) == "0" {
      assert |s| - b == 1;
      assert forall j :: 0 <= j < |s| - 1 ==> s[1..][j] == s[j + 1];
    }
  }

  /** PHP `empty(trim($s))`: nothing but blanks, or one `0` among them. */
  lemma {:induction false} EmptyAfterTrim(s: string)
    ensures PhpEmpty(Trim(s)) <==> NonBlanks(s) == "" || NonBlanks(s) == "0"
  {
    NonBlanksEmpty(s);
    TrimZero(s);
  }

  /** PHP `empty()` on a string: the empty string and `"0"`. */
  predicate PhpEmpty(s: string) {
    s == "" || s == "0"
  }

  function DigitChar(d: nat): (c: char)
    requires d < 10
    ensures '0' <= c <= '9'
  {
    ('0' as int + d) as char
  }

  predicate AllDigits(s: string) {
    forall i :: 0 <= i < |s| ==> '0' <= s[i] <= '9'
  }

  /** The decimal rendering PHP uses when an integer is concatenated to a string. */
  function NatToString(n: nat): (s: string)
    ensures |s| >= 1 && AllDigits(s)
    decreases n
  {
    if n < 10 then [DigitChar(n)] else NatToString(n / 10) + [DigitChar(n % 10)]
  }

  /** The number a string of decimal digits denotes. */
  function DigitsValue(s: string): nat
    requires AllDigits(s)
  {
    if |s| == 0 then 0
    else
      assert AllDigits(s[..|s| - 1]);
      DigitsValue(s[..|s| - 1]) * 10 + (s[|s| - 1] as int - '0' as int)
  }

  /** Reading back the decimal rendering of a number gives the number. */
  lemma {:induction false} DigitsRoundTrip(n: nat)
    ensures DigitsValue(NatToString(n)) == n
    decreases n
  {
    if n >= 10 {
      DigitsRoundTrip(n / 10);
      var s := NatToString(n);
      assert s[..|s| - 1] == NatToString(n / 10);
    }
  }

  /** Distinct numbers render as distinct strings. */
  lemma {:induction false} NatToStringInjective(a: nat, b: nat)
    requires NatToString(a) == NatToString(b)
    ensures a == b
  {
    DigitsRoundTrip(a);
    DigitsRoundTrip(b);
  }
}
