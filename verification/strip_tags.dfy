/** PHP's `strip_tags` with no allowed tags, as PHP 8's `php_strip_tags_ex`
    computes it: one pass over the characters with five states, a count of
    `<` nested inside a tag, the quote that is open, the last significant
    character of a `<?` block and its parenthesis balance. Only text outside
    tags reaches the output. */
module TagStrip {
  import opened Optional
  import opened PhpStrings

  /** The scanner's states: text, inside a tag, inside a `<?` block, inside
      a `<!` declaration, inside a `<!--` comment. */
  datatype Mode = Text | Tag | Php | Decl | Comment

  /** What the scanner carries from one character to the next: its state,
      the depth of `<` nested in a tag, the open quote, the last significant
      character (`lc`), the parenthesis balance of a `<?` block (`br`), and
      whether an `<?xml` declaration is being read (`is_xml`). */
  datatype Scanner = Scanner(mode: Mode, depth: nat, quote: Option<char>, last: char, parens: int, xml: bool)

  const Start := Scanner(Text, 0, None, '\0', 0, false)

  /** `isspace(*(p + 1))`; past the end the terminating NUL is read. */
  predicate SpaceFollows(s: string, i: nat) {
    i + 1 < |s| && IsCSpace(s[i + 1])
  }

  /** Opening a quote, or closing the open one. */
  function Toggle(q: Option<char>, c: char): Option<char> {
    if q.Some? then None else Some(c)
  }

  /** `<?xm` (either case) just before position `i`, past the fifth character. */
  predicate XmlOpens(s: string, i: nat)
    requires i < |s|
  {
    i > 4 && (s[i - 1] == 'm' || s[i - 1] == 'M') && (s[i - 2] == 'x' || s[i - 2] == 'X')
    && s[i - 3] == '?' && s[i - 4] == '<'
  }

  /** `doctyp` (either case) just before position `i`, past the seventh character. */
  predicate DoctypeOpens(s: string, i: nat)
    requires i < |s|
  {
    i > 6 && (s[i - 1] == 'p' || s[i - 1] == 'P') && (s[i - 2] == 'y' || s[i - 2] == 'Y')
    && (s[i - 3] == 't' || s[i - 3] == 'T') && (s[i - 4] == 'c' || s[i - 4] == 'C')
    && (s[i - 5] == 'o' || s[i - 5] == 'O') && (s[i - 6] == 'd' || s[i - 6] == 'D')
  }

  /** What the scanner writes for `s[i]`: in text, every character but NUL,
      a `<` that opens a tag, and a `>` that closes a nested `<`. */
  function Out(s: string, i: nat, st: Scanner): string
    requires i < |s|
  {
    var c := s[i];
    if st.mode != Text || c == '\0' then ""
    else if c == '<' then (if st.quote.None? && SpaceFollows(s, i) then "<" else "")
    else if c == '>' then (if st.depth == 0 && st.quote.None? then ">" else "")
    else [c]
  }

  /** The scanner after `s[i]`. */
  function Next(s: string, i: nat, st: Scanner): Scanner
    requires i < |s|
  {
    match st.mode
    case Text => TextNext(s, i, st)
    case Tag => TagNext(s, i, st)
    case Php => PhpNext(s, i, st)
    case Decl => DeclNext(s, i, st)
    case Comment => CommentNext(s, i, st)
  }

  function TextNext(s: string, i: nat, st: Scanner): Scanner
    requires i < |s|
  {
    var c := s[i];
    if c == '<' && st.quote.None? && !SpaceFollows(s, i) then st.(mode := Tag, last := '<')
    else if c == '>' && st.depth > 0 then st.(depth := st.depth - 1)
    else st
  }

  function TagNext(s: string, i: nat, st: Scanner): Scanner
    requires i < |s|
  {
    var c := s[i];
    if c == '<' then
      if st.quote.Some? || SpaceFollows(s, i) then st else st.(depth := st.depth + 1)
    else if c == '>' then
      if st.depth > 0 then st.(depth := st.depth - 1)
      else if st.quote.Some? then st
      else if st.xml && i >= 1 && s[i - 1] == '-' then st.(last := '>')
      else st.(mode := Text, last := '>', quote := None, xml := false)
    else if c == '"' || c == '\'' then
      if i != 0 && (st.quote.None? || st.quote == Some(c)) then st.(quote := Toggle(st.quote, c)) else st
    else if c == '!' && i >= 1 && s[i - 1] == '<' then st.(mode := Decl, last := '!')
    else if c == '?' && i >= 1 && s[i - 1] == '<' then st.(mode := Php, parens := 0)
    else st
  }

  function PhpNext(s: string, i: nat, st: Scanner): Scanner
    requires i < |s|
  {
    var c := s[i];
    if c == '(' || c == ')' then
      if st.last != '"' && st.last != '\'' then
        st.(last := c, parens := if c == '(' then st.parens + 1 else st.parens - 1)
      else st
    else if c == '>' then
      if st.depth > 0 then st.(depth := st.depth - 1)
      else if st.quote.Some? then st
      else if st.parens == 0 && i >= 1 && st.last != '"' && s[i - 1] == '?' then st.(mode := Text, quote := None)
      else st
    else if c == '"' || c == '\'' then
      if i >= 1 && s[i - 1] != '\\' then
        st.(last := if st.last == c then '\0' else if st.last != '\\' then c else st.last,
            quote := if st.quote.None? || st.quote == Some(c) then Toggle(st.quote, c) else st.quote)
      else st
    else if (c == 'l' || c == 'L') && XmlOpens(s, i) then st.(mode := Tag, xml := true)
    else st
  }

  function DeclNext(s: string, i: nat, st: Scanner): Scanner
    requires i < |s|
  {
    var c := s[i];
    if c == '>' then
      if st.depth > 0 then st.(depth := st.depth - 1)
      else if st.quote.Some? then st
      else st.(mode := Text, quote := None)
    else if c == '"' || c == '\'' then
      if i != 0 && s[i - 1] != '\\' && (st.quote.None? || st.quote == Some(c)) then st.(quote := Toggle(st.quote, c)) else st
    else if c == '-' && i >= 2 && s[i - 1] == '-' && s[i - 2] == '!' then st.(mode := Comment)
    else if (c == 'e' || c == 'E') && DoctypeOpens(s, i) then st.(mode := Tag)
    else st
  }

  function CommentNext(s: string, i: nat, st: Scanner): Scanner
    requires i < |s|
  {
    if s[i] == '>' && st.quote.None? && i >= 2 && s[i - 1] == '-' && s[i - 2] == '-' then st.(mode := Text, quote := None)
    else st
  }

  /** The output for `s[i..]` from scanner `st`; it is never longer than the input. */
  function Run(s: string, i: nat, st: Scanner): (t: string)
    requires i <= |s|
    ensures |t| <= |s| - i
    decreases |s| - i
  {
    if i == |s| then "" else Out(s, i, st) + Run(s, i + 1, Next(s, i, st))
  }

  /** PHP `strip_tags($s)`. */
  function StripTags(s: string): string {
    Run(s, 0, Start)
  }

  /** `s` without its NUL characters. */
  function DropNul(s: string): string
    decreases |s|
  {
    if |s| == 0 then "" else (if s[0] == '\0' then "" else [s[0]]) + DropNul(s[1..])
  }

  /** Text without `<` loses only its NUL characters. */
  lemma {:induction false} StripTagsWithoutAngles(s: string)
    requires '<' !in s
    ensures StripTags(s) == DropNul(s)
  {
    RunPlain(s, 0, Start);
    assert s[0..] == s;
  }

  lemma {:induction false} RunPlain(s: string, i: nat, st: Scanner)
    requires i <= |s| && st.mode == Text && st.depth == 0 && st.quote.None?
    requires forall j :: i <= j < |s| ==> s[j] != '<'
    ensures Run(s, i, st) == DropNul(s[i..])
    decreases |s| - i
  {
    if i < |s| {
      assert Next(s, i, st) == st;
      RunPlain(s, i + 1, st);
      assert s[i..][1..] == s[i + 1..];
    }
  }

  /** A character other than NUL is in `DropNul(s)` iff it is in `s`. */
  lemma {:induction false} DropNulKeeps(s: string, c: char)
    requires c != '\0'
    ensures c in DropNul(s) <==> c in s
    decreases |s|
  {
    if |s| > 0 {
      DropNulKeeps(s[1..], c);
      assert s == [s[0]] + s[1..];
    }
  }

  lemma {:induction false} DropNulWithout(s: string)
    requires '\0' !in s
    ensures DropNul(s) == s
    decreases |s|
  {
    if |s| > 0 {
      DropNulWithout(s[1..]);
      assert s == [s[0]] + s[1..];
    }
  }

  lemma {:induction false} DropNulAppend(a: string, b: string)
    ensures DropNul(a + b) == DropNul(a) + DropNul(b)
    decreases |a|
  {
    if |a| > 0 {
      assert (a + b)[1..] == a[1..] + b;
      DropNulAppend(a[1..], b);
    } else {
      assert a + b == b;
    }
  }

  /** NUL characters are blanks to `trim`, so dropping them leaves the
      non-blank characters as they were. */
  lemma {:induction false} NonBlanksDropNul(s: string)
    ensures NonBlanks(DropNul(s)) == NonBlanks(s)
    decreases |s|
  {
    if |s| > 0 {
      var head := if s[0] == '\0' then "" else [s[0]];
      NonBlanksDropNul(s[1..]);
      NonBlanksAppend(head, DropNul(s[1..]));
      NonBlanksAppend([s[0]], s[1..]);
      assert s == [s[0]] + s[1..];
    }
  }

  /** Every `<` in `t` is followed by a blank. */
  predicate BareAngles(t: string) {
    forall k :: 0 <= k < |t| && t[k] == '<' ==> k + 1 < |t| && IsCSpace(t[k + 1])
  }

  /** Every `<` that `strip_tags` leaves is followed by a blank: it did not
      open a tag. */
  lemma {:induction false} StripTagsLeavesBareAngles(s: string)
    ensures BareAngles(StripTags(s))
  {
    RunLeavesBareAngles(s, 0, Start);
  }

  lemma {:induction false} RunLeavesBareAngles(s: string, i: nat, st: Scanner)
    requires i <= |s|
    ensures BareAngles(Run(s, i, st))
    decreases |s| - i
  {
    if i < |s| {
      var o, st' := Out(s, i, st), Next(s, i, st);
      var rest := Run(s, i + 1, st');
      RunLeavesBareAngles(s, i + 1, st');
      var t := o + rest;
      assert Run(s, i, st) == t;
      forall k | 0 <= k < |t| && t[k] == '<' ensures k + 1 < |t| && IsCSpace(t[k + 1]) {
        if k >= |o| {
          assert rest[k - |o|] == '<';
          assert k - |o| + 1 < |rest|;
          assert t[k + 1] == rest[k + 1 - |o|];
        } else {
          assert o == "<" && st' == st && SpaceFollows(s, i);
          assert Out(s, i + 1, st) == [s[i + 1]];
          assert t[1] == rest[0] == s[i + 1];
        }
      }
    }
  }

  /** Two scanners that can only differ where it no longer matters: `lc`
      outside tags (it is set again when a tag opens) and the parenthesis
      balance outside `<?` blocks (it is reset when one opens). */
  predicate Agree(a: Scanner, b: Scanner) {
    a.mode == b.mode && a.depth == b.depth && a.quote == b.quote && a.xml == b.xml
    && (a.mode != Text ==> a.last == b.last) && (a.mode == Php ==> a.parens == b.parens)
  }

  lemma {:induction false} NextAgree(s: string, i: nat, a: Scanner, b: Scanner)
    requires i < |s| && Agree(a, b)
    ensures Out(s, i, a) == Out(s, i, b) && Agree(Next(s, i, a), Next(s, i, b))
  {
    if a.mode == Php {
      assert a == b;
    }
  }

  lemma {:induction false} RunAgree(s: string, i: nat, a: Scanner, b: Scanner)
    requires i <= |s| && Agree(a, b)
    ensures Run(s, i, a) == Run(s, i, b)
    decreases |s| - i
  {
    if i < |s| {
      NextAgree(s, i, a, b);
      RunAgree(s, i + 1, Next(s, i, a), Next(s, i, b));
    }
  }

  /** `s` holds `<` followed by `c` at position `q`, with the `c` at `q`. */
  predicate OpensAt(s: string, q: nat, c: char) {
    1 <= q < |s| && s[q - 1] == '<' && s[q] == c
  }

  /** A `<?` opened before position `j` of `s`. */
  predicate PhpOpened(s: string, j: nat) {
    exists q: nat :: q < j && OpensAt(s, q, '?')
  }

  /** A `<!` opened before position `j` of `s`. */
  predicate DeclOpened(s: string, j: nat) {
    exists q: nat :: q < j && OpensAt(s, q, '!')
  }

  /** The scanner is at position `j` of `s` in a state that `s` itself led
      to from text: whatever it looks back at lies inside `s`. */
  predicate Anchored(s: string, j: nat, st: Scanner) {
    (st.mode == Tag ==> j >= 1) && (st.mode == Php ==> PhpOpened(s, j))
    && (st.mode == Decl ==> DeclOpened(s, j)) && (st.mode == Comment ==> j >= 2)
  }

  /** `s` does not open with `<?xml` (either case for `xml`). PHP's test for
      an XML declaration asks for more than four characters before the `l`,
      so at the very start of the input it fails and the scanner stays in
      its `<?` state; elsewhere it succeeds. */
  predicate NotXmlHead(s: string) {
    !(|s| >= 5 && s[0] == '<' && s[1] == '?' && (s[2] == 'x' || s[2] == 'X')
      && (s[3] == 'm' || s[3] == 'M') && (s[4] == 'l' || s[4] == 'L'))
  }

  /** `rest` is what `s` holds from position `d` on. */
  predicate Suffix(s: string, d: nat, rest: string) {
    d <= |s| && s[d..] == rest
  }

  lemma {:induction false} XmlOpensShift(s: string, d: nat, rest: string, j: nat)
    requires Suffix(s, d, rest) && j < |rest| && PhpOpened(rest, j) && NotXmlHead(rest)
    requires rest[j] == 'l' || rest[j] == 'L'
    ensures XmlOpens(s, d + j) == XmlOpens(rest, j)
  {
    var q: nat :| q < j && OpensAt(rest, q, '?');
    if j >= 4 {
      assert s[d + j - 1] == rest[j - 1] && s[d + j - 2] == rest[j - 2];
      assert s[d + j - 3] == rest[j - 3] && s[d + j - 4] == rest[j - 4];
    }
  }

  lemma {:induction false} DoctypeOpensShift(s: string, d: nat, rest: string, j: nat)
    requires Suffix(s, d, rest) && j < |rest| && DeclOpened(rest, j)
    ensures DoctypeOpens(s, d + j) == DoctypeOpens(rest, j)
  {
    var q: nat :| q < j && OpensAt(rest, q, '!');
    if j >= 6 {
      assert s[d + j - 1] == rest[j - 1] && s[d + j - 2] == rest[j - 2] && s[d + j - 3] == rest[j - 3];
      assert s[d + j - 4] == rest[j - 4] && s[d + j - 5] == rest[j - 5] && s[d + j - 6] == rest[j - 6];
    }
  }

  /** The characters a step at position `j` of `rest` looks at read the
      same at position `d + j` of `s`. */
  predicate SameAround(s: string, d: nat, rest: string, j: nat)
    requires d + j < |s| && j < |rest|
  {
    s[d + j] == rest[j] && SpaceFollows(s, d + j) == SpaceFollows(rest, j)
    && (j >= 1 ==> s[d + j - 1] == rest[j - 1])
    && (j >= 2 ==> s[d + j - 2] == rest[j - 2])
  }

  lemma {:induction false} Around(s: string, d: nat, rest: string, j: nat)
    requires Suffix(s, d, rest) && j < |rest|
    ensures d + j < |s| && SameAround(s, d, rest, j)
  {
    assert s[d + j] == rest[j];
    if j + 1 < |rest| {
      assert s[d + j + 1] == rest[j + 1];
    }
    if j >= 1 {
      assert s[d + j - 1] == rest[j - 1];
    }
    if j >= 2 {
      assert s[d + j - 2] == rest[j - 2];
    }
  }

  lemma {:induction false} TagShift(s: string, d: nat, rest: string, j: nat, st: Scanner)
    requires d + j < |s| && j < |rest| && j >= 1 && SameAround(s, d, rest, j) && st.mode == Tag
    ensures TagNext(s, d + j, st) == TagNext(rest, j, st)
    ensures Anchored(rest, j + 1, TagNext(rest, j, st))
  {
    if rest[j] == '!' && rest[j - 1] == '<' {
      assert DeclOpened(rest, j + 1) by {
        assert OpensAt(rest, j, '!');
      }
    }
    if rest[j] == '?' && rest[j - 1] == '<' {
      assert PhpOpened(rest, j + 1) by {
        assert OpensAt(rest, j, '?');
      }
    }
  }

  lemma {:induction false} PhpShift(s: string, d: nat, rest: string, j: nat, st: Scanner)
    requires Suffix(s, d, rest) && j < |rest| && PhpOpened(rest, j) && NotXmlHead(rest)
    requires d + j < |s| && SameAround(s, d, rest, j) && st.mode == Php
    ensures PhpNext(s, d + j, st) == PhpNext(rest, j, st)
    ensures Anchored(rest, j + 1, PhpNext(rest, j, st))
  {
    if rest[j] == 'l' || rest[j] == 'L' {
      XmlOpensShift(s, d, rest, j);
    }
    var q: nat :| q < j && OpensAt(rest, q, '?');
    assert PhpOpened(rest, j + 1) by {
      assert q < j + 1;
    }
  }

  lemma {:induction false} DeclShift(s: string, d: nat, rest: string, j: nat, st: Scanner)
    requires Suffix(s, d, rest) && j < |rest| && DeclOpened(rest, j)
    requires d + j < |s| && SameAround(s, d, rest, j) && st.mode == Decl
    ensures DeclNext(s, d + j, st) == DeclNext(rest, j, st)
    ensures Anchored(rest, j + 1, DeclNext(rest, j, st))
  {
    if rest[j] == 'e' || rest[j] == 'E' {
      DoctypeOpensShift(s, d, rest, j);
    }
    var q: nat :| q < j && OpensAt(rest, q, '!');
    assert DeclOpened(rest, j + 1) by {
      assert q < j + 1;
    }
  }

  /** One step of the scanner reads the same in `rest` as at position
      `d + j` of `s`, and keeps it anchored. */
  lemma {:induction false} StepShift(s: string, d: nat, rest: string, j: nat, st: Scanner)
    requires Suffix(s, d, rest) && j < |rest| && Anchored(rest, j, st) && NotXmlHead(rest)
    ensures d + j < |s|
    ensures Out(s, d + j, st) == Out(rest, j, st)
    ensures Next(s, d + j, st) == Next(rest, j, st)
    ensures Anchored(rest, j + 1, Next(rest, j, st))
  {
    Around(s, d, rest, j);
    match st.mode
    case Text =>
    case Tag => TagShift(s, d, rest, j, st);
    case Php => PhpShift(s, d, rest, j, st);
    case Decl => DeclShift(s, d, rest, j, st);
    case Comment =>
  }

  /** Two runs that take the same step and then agree, agree. */
  lemma {:induction false} StepJoin(s: string, i: nat, r: string, j: nat, st: Scanner, st': Scanner)
    requires i < |s| && j < |r| && Out(s, i, st) == Out(r, j, st)
    requires Next(s, i, st) == st' && Next(r, j, st) == st' && Run(s, i + 1, st') == Run(r, j + 1, st')
    ensures Run(s, i, st) == Run(r, j, st)
  {
    assert Run(s, i, st) == Out(s, i, st) + Run(s, i + 1, st');
    assert Run(r, j, st) == Out(r, j, st) + Run(r, j + 1, st');
  }

  /** `rest` is what `s` holds from position `d` on, stated one dropped
      character at a time so that it does not unfold to index arithmetic. */
  predicate Shifted(s: string, d: nat, rest: string)
    decreases d
  {
    if d == 0 then s == rest else |s| > 0 && Shifted(s[1..], d - 1, rest)
  }

  lemma {:induction false} ShiftedSuffix(s: string, d: nat, rest: string)
    requires Shifted(s, d, rest)
    ensures Suffix(s, d, rest) && |s| == d + |rest|
    decreases d
  {
    if d > 0 {
      ShiftedSuffix(s[1..], d - 1, rest);
      assert s[1..][d - 1..] == s[d..];
    }
  }

  lemma {:induction false} SuffixShifted(s: string, d: nat)
    requires d <= |s|
    ensures Shifted(s, d, s[d..])
    decreases d
  {
    if d > 0 {
      SuffixShifted(s[1..], d - 1);
      assert s[1..][d - 1..] == s[d..];
    }
  }

  /** `StepShift` for a `rest` given by `Shifted`. */
  lemma {:induction false} StepShifted(s: string, d: nat, rest: string, j: nat, st: Scanner)
    requires Shifted(s, d, rest) && j < |rest| && Anchored(rest, j, st) && NotXmlHead(rest)
    ensures d + j < |s|
    ensures Out(s, d + j, st) == Out(rest, j, st)
    ensures Next(s, d + j, st) == Next(rest, j, st)
    ensures Anchored(rest, j + 1, Next(rest, j, st))
  {
    ShiftedSuffix(s, d, rest);
    StepShift(s, d, rest, j, st);
  }

  /** Text after a prefix is stripped as it would be on its own, once the
      scanner is in a state the text itself leads to. */
  lemma {:induction false} RunShift(s: string, d: nat, rest: string, j: nat, st: Scanner)
    requires Shifted(s, d, rest) && j <= |rest| && Anchored(rest, j, st) && NotXmlHead(rest)
    ensures d + j <= |s| && Run(s, d + j, st) == Run(rest, j, st)
    decreases |rest| - j
  {
    if j == |rest| {
      ShiftedSuffix(s, d, rest);
      assert Run(s, d + j, st) == "" && Run(rest, j, st) == "";
    } else {
      var st' := Next(rest, j, st);
      StepShifted(s, d, rest, j, st);
      RunShift(s, d, rest, j + 1, st');
      StepJoin(s, d + j, rest, j, st, st');
    }
  }

  /** Back in text with nothing nested or quoted after the prefix `pre`:
      the rest is stripped as if it stood alone. */
  lemma {:induction false} ResumeInText(pre: string, rest: string, st: Scanner)
    requires st.mode == Text && st.depth == 0 && st.quote.None? && !st.xml && NotXmlHead(rest)
    ensures Run(pre + rest, |pre|, st) == StripTags(rest)
  {
    assert (pre + rest)[|pre|..] == rest;
    SuffixShifted(pre + rest, |pre|);
    RunShift(pre + rest, |pre|, rest, 0, st);
    RunAgree(rest, 0, st, Start);
  }

  /** A character a tag body passes over: no `<`, `>` or quote, and no `!`
      or `?` right after the `<`. */
  predicate TagInert(s: string, j: nat)
    requires j < |s|
  {
    j >= 1 && s[j] != '<' && s[j] != '>' && s[j] != '"' && s[j] != '\''
    && !((s[j] == '!' || s[j] == '?') && s[j - 1] == '<')
  }

  lemma {:induction false} RunTagSkips(s: string, i: nat, k: nat, st: Scanner)
    requires i <= k <= |s| && st.mode == Tag
    requires forall j :: i <= j < k ==> TagInert(s, j)
    ensures Run(s, i, st) == Run(s, k, st)
    decreases k - i
  {
    if i < k {
      assert TagInert(s, i);
      assert Next(s, i, st) == st;
      RunTagSkips(s, i + 1, k, st);
    }
  }

  /** A character a double-quoted attribute value passes over: no closing
      quote, no `<`, and not right after a `<`. */
  predicate QuotedInert(s: string, j: nat)
    requires j < |s|
  {
    j >= 1 && s[j] != '"' && s[j] != '<' && s[j - 1] != '<'
  }

  /** Inside a double-quoted attribute value nothing but the closing quote
      changes the scanner. */
  lemma {:induction false} RunQuotedSkips(s: string, i: nat, k: nat, st: Scanner)
    requires i <= k <= |s| && st.mode == Tag && st.quote == Some('"') && st.depth == 0
    requires forall j :: i <= j < k ==> QuotedInert(s, j)
    ensures Run(s, i, st) == Run(s, k, st)
    decreases k - i
  {
    if i < k {
      assert QuotedInert(s, i);
      assert Next(s, i, st) == st;
      RunQuotedSkips(s, i + 1, k, st);
    }
  }

  /** A tag name and attributes without quotes, angles or a leading `!`,
      `?` or blank. */
  predicate PlainTag(tag: string) {
    '<' !in tag && '>' !in tag && '"' !in tag && '\'' !in tag
    && (tag == "" || (!IsCSpace(tag[0]) && tag[0] != '!' && tag[0] != '?'))
  }

  /** The scanner once `<` has opened a tag at position 0. */
  const InTag := Scanner(Tag, 0, None, '<', 0, false)

  /** The scanner on the `<` of a tag at the head of the text. */
  lemma {:induction false} OpensTag(s: string)
    requires |s| >= 2 && s[0] == '<' && !IsCSpace(s[1])
    ensures StripTags(s) == Run(s, 1, InTag)
  {
  }

  /** A plain tag at the head of the text is dropped whole. */
  lemma {:induction false} StripTagsDropsTag(tag: string, rest: string)
    requires PlainTag(tag) && NotXmlHead(rest)
    ensures StripTags("<" + tag + ">" + rest) == StripTags(rest)
  {
    var pre := "<" + tag + ">";
    var s := pre + rest;
    var n := |tag| + 1;
    assert s[1] == (tag + ">")[0];
    OpensTag(s);
    forall j | 1 <= j < n ensures TagInert(s, j) {
      assert s[j] == tag[j - 1];
      if j > 1 {
        assert s[j - 1] == tag[j - 2];
      }
    }
    RunTagSkips(s, 1, n, InTag);
    assert s[n] == '>';
    ResumeInText(pre, rest, Next(s, n, InTag));
  }

  /** `seg` stands at position `lo` of `s`. */
  predicate At(s: string, lo: nat, seg: string) {
    lo + |seg| <= |s| && s[lo..lo + |seg|] == seg
  }

  /** Unquoted tag text at position `lo` of `s` changes nothing in the scanner. */
  lemma {:induction false} TagSegmentSkips(s: string, lo: nat, seg: string, st: Scanner)
    requires At(s, lo, seg) && lo >= 1 && st.mode == Tag
    requires '<' !in seg && '>' !in seg && '"' !in seg && '\'' !in seg
    requires seg != "" && s[lo - 1] == '<' ==> seg[0] != '!' && seg[0] != '?'
    ensures Run(s, lo, st) == Run(s, lo + |seg|, st)
  {
    forall j | lo <= j < lo + |seg| ensures TagInert(s, j) {
      assert s[j] == s[lo..lo + |seg|][j - lo] == seg[j - lo];
      if j > lo {
        assert s[j - 1] == s[lo..lo + |seg|][j - lo - 1] == seg[j - lo - 1];
      }
    }
    RunTagSkips(s, lo, lo + |seg|, st);
  }

  /** So does a double-quoted value. */
  lemma {:induction false} QuotedSegmentSkips(s: string, lo: nat, seg: string, st: Scanner)
    requires At(s, lo, seg) && lo >= 1 && s[lo - 1] != '<' && '"' !in seg && '<' !in seg
    requires st.mode == Tag && st.quote == Some('"') && st.depth == 0
    ensures Run(s, lo, st) == Run(s, lo + |seg|, st)
  {
    forall j | lo <= j < lo + |seg| ensures QuotedInert(s, j) {
      assert s[j] == s[lo..lo + |seg|][j - lo] == seg[j - lo];
      if j > lo {
        assert s[j - 1] == s[lo..lo + |seg|][j - lo - 1] == seg[j - lo - 1];
      }
    }
    RunQuotedSkips(s, lo, lo + |seg|, st);
  }

  /** The scanner back in text after a tag has closed. */
  const AfterTag := Scanner(Text, 0, None, '>', 0, false)

  /** A `>` with nothing nested or quoted closes the tag. */
  lemma {:induction false} CloseStep(s: string, i: nat, st: Scanner)
    requires i < |s| && s[i] == '>' && st == InTag
    ensures Run(s, i, st) == Run(s, i + 1, AfterTag)
  {
    assert Next(s, i, st) == AfterTag;
  }

  /** A double quote in a tag opens a quoted value, or closes the open one. */
  lemma {:induction false} QuoteStep(s: string, i: nat, st: Scanner)
    requires 1 <= i < |s| && s[i] == '"' && st.mode == Tag && st.quote in {None, Some('"')}
    ensures Run(s, i, st) == Run(s, i + 1, st.(quote := Toggle(st.quote, '"')))
  {
  }

  /** A double-quoted value whose opening quote is at position `i`. */
  lemma {:induction false} QuotedValueSkips(s: string, i: nat, value: string)
    requires At(s, i + 1, value) && i >= 1 && '"' !in value && '<' !in value
    requires s[i] == '"' && i + 1 + |value| < |s| && s[i + 1 + |value|] == '"'
    ensures Run(s, i, InTag) == Run(s, i + 2 + |value|, InTag)
  {
    var quoted := InTag.(quote := Some('"'));
    QuoteStep(s, i, InTag);
    assert InTag.(quote := Toggle(InTag.quote, '"')) == quoted;
    QuotedSegmentSkips(s, i + 1, value, quoted);
    QuoteStep(s, i + 1 + |value|, quoted);
    assert quoted.(quote := Toggle(quoted.quote, '"')) == InTag;
  }

  /** The scanner passes over a tag body `head"value"tail` that starts at
      position 1, right after the `<`, and stops on the closing `>`. */
  lemma {:induction false} RunQuotedTagBody(s: string, head: string, value: string, tail: string)
    requires PlainTag(head) && head != "" && '"' !in value && '<' !in value
    requires '<' !in tail && '>' !in tail && '"' !in tail && '\'' !in tail
    requires At(s, 1, head) && At(s, 2 + |head|, value) && At(s, 3 + |head| + |value|, tail)
    requires s[0] == '<' && s[1 + |head|] == '"' && s[2 + |head| + |value|] == '"'
    ensures Run(s, 1, InTag) == Run(s, 3 + |head| + |value| + |tail|, InTag)
  {
    var open := 1 + |head|;
    var close := open + 1 + |value|;
    assert Run(s, 1, InTag) == Run(s, open, InTag) by {
      TagSegmentSkips(s, 1, head, InTag);
    }
    assert Run(s, open, InTag) == Run(s, close + 1, InTag) by {
      assert open + 1 == 2 + |head|;
      QuotedValueSkips(s, open, value);
    }
    assert close + 1 == 3 + |head| + |value|;
    assert Run(s, close + 1, InTag) == Run(s, close + 1 + |tail|, InTag) by {
      TagSegmentSkips(s, close + 1, tail, InTag);
    }
    assert close + 1 + |tail| == 3 + |head| + |value| + |tail|;
  }

  /** Where the pieces of `<head"value"tail>rest` stand. */
  lemma {:induction false} QuotedTagLayout(s: string, head: string, value: string, tail: string, rest: string)
    requires s == "<" + head + "\"" + value + "\"" + tail + ">" + rest
    ensures At(s, 1, head) && At(s, 2 + |head|, value) && At(s, 3 + |head| + |value|, tail)
    ensures s[0] == '<' && s[1 + |head|] == '"' && s[2 + |head| + |value|] == '"'
    ensures s[3 + |head| + |value| + |tail|] == '>'
    ensures s == ("<" + head + "\"" + value + "\"" + tail + ">") + rest
  {
    var open := 1 + |head|;
    var close := open + 1 + |value|;
    assert s[1..1 + |head|] == head;
    assert s[open + 1..open + 1 + |value|] == value;
    assert s[close + 1..close + 1 + |tail|] == tail;
  }

  /** A tag whose attributes hold one double-quoted value is dropped whole,
      even when the value holds a `>` or a single quote. */
  lemma {:induction false} StripTagsDropsQuotedTag(head: string, value: string, tail: string, rest: string)
    requires PlainTag(head) && head != "" && '"' !in value && '<' !in value
    requires '<' !in tail && '>' !in tail && '"' !in tail && '\'' !in tail && NotXmlHead(rest)
    ensures StripTags("<" + head + "\"" + value + "\"" + tail + ">" + rest) == StripTags(rest)
  {
    var pre := "<" + head + "\"" + value + "\"" + tail + ">";
    var s := pre + rest;
    var end := 3 + |head| + |value| + |tail|;
    assert s == "<" + head + "\"" + value + "\"" + tail + ">" + rest;
    assert |pre| == end + 1 && pre[0] == '<' && pre[1] == head[0] && pre[end] == '>' by {
      assert pre[1..1 + |head|] == head;
    }
    assert Run(s, 1, InTag) == Run(s, end, InTag) by {
      QuotedTagLayout(s, head, value, tail, rest);
      RunQuotedTagBody(s, head, value, tail);
    }
    DropsTagBefore(pre, rest, end);
  }

  /** A tag `pre` that the scanner reads from its `<` to its closing `>` in
      one piece is dropped, and the text after it is stripped on its own. */
  lemma {:induction false} DropsTagBefore(pre: string, rest: string, n: nat)
    requires n >= 1 && |pre| == n + 1 && pre[0] == '<' && !IsCSpace(pre[1]) && pre[n] == '>'
    requires Run(pre + rest, 1, InTag) == Run(pre + rest, n, InTag) && NotXmlHead(rest)
    ensures StripTags(pre + rest) == StripTags(rest)
  {
    var s := pre + rest;
    assert s[0] == '<' && s[1] == pre[1] && s[n] == '>';
    OpensTag(s);
    CloseStep(s, n, InTag);
    ResumeInText(pre, rest, AfterTag);
  }

  /** The quote open after the scanner has read the tag text `w` from the
      character after `<`: a quote opens a value when none is open and
      closes the value it opened; inside a value the other quote is text. */
  function QuoteAfter(w: string): Option<char>
    decreases |w|
  {
    if |w| == 0 then None
    else
      var q := QuoteAfter(w[..|w| - 1]);
      var c := w[|w| - 1];
      if (c == '"' || c == '\'') && (q.None? || q == Some(c)) then Toggle(q, c) else q
  }

  /** A tag body: attributes with any number of values in single or double
      quotes, every quote closed, no `<`, no `>` or quote outside a value
      but the quotes themselves, and not opening a `<!`, `<?` or a blank. */
  predicate TagBody(body: string) {
    '<' !in body && QuoteAfter(body).None?
    && (forall k :: 0 <= k < |body| && body[k] == '>' ==> QuoteAfter(body[..k]).Some?)
    && (body != [] ==> !IsCSpace(body[0]) && body[0] != '!' && body[0] != '?')
  }

  /** One character of a tag body: the scanner only follows the quotes. */
  lemma {:induction false} TagBodyStep(s: string, body: string, j: nat)
    requires At(s, 1, body) && s[0] == '<' && TagBody(body) && j < |body|
    ensures Out(s, 1 + j, InTag.(quote := QuoteAfter(body[..j]))) == ""
    ensures Next(s, 1 + j, InTag.(quote := QuoteAfter(body[..j]))) == InTag.(quote := QuoteAfter(body[..j + 1]))
  {
    assert s[1 + j] == s[1..1 + |body|][j] == body[j];
    assert body[..j + 1][..j] == body[..j];
    assert body[..j + 1][j] == body[j];
    if j == 0 {
      assert body != [];
    } else {
      assert s[j] == s[1..1 + |body|][j - 1] == body[j - 1];
    }
  }

  /** The scanner passes over a whole tag body and stops on its `>`. */
  lemma {:induction false} RunTagBody(s: string, body: string, j: nat)
    requires At(s, 1, body) && s[0] == '<' && TagBody(body) && j <= |body|
    ensures Run(s, 1 + j, InTag.(quote := QuoteAfter(body[..j]))) == Run(s, 1 + |body|, InTag)
    decreases |body| - j
  {
    if j == |body| {
      assert body[..j] == body;
      assert InTag.(quote := None) == InTag;
    } else {
      var st := InTag.(quote := QuoteAfter(body[..j]));
      TagBodyStep(s, body, j);
      RunTagBody(s, body, j + 1);
      assert Run(s, 1 + j, st) == Out(s, 1 + j, st) + Run(s, 2 + j, Next(s, 1 + j, st));
    }
  }

  /** A tag at the head of the text is dropped whole, whatever its quoted
      attribute values hold. */
  lemma {:induction false} StripTagsDropsTagBody(body: string, rest: string)
    requires TagBody(body) && NotXmlHead(rest)
    ensures StripTags("<" + body + ">" + rest) == StripTags(rest)
  {
    var pre := "<" + body + ">";
    var s := pre + rest;
    var n := |body| + 1;
    assert |pre| == n + 1 && pre[0] == '<' && pre[1] == (body + ">")[0] && pre[n] == '>';
    assert Run(s, 1, InTag) == Run(s, n, InTag) by {
      assert s[1..1 + |body|] == body;
      assert s[n] == '>';
      RunTagBody(s, body, 0);
      assert body[..0] == [];
      assert InTag.(quote := None) == InTag;
    }
    DropsTagBefore(pre, rest, n);
  }

  /** Every plain tag is a tag body. */
  lemma {:induction false} PlainTagIsTagBody(tag: string)
    requires PlainTag(tag)
    ensures TagBody(tag)
  {
    QuoteAfterUnquoted(tag);
  }

  /** Text without quotes leaves no quote open. */
  lemma {:induction false} QuoteAfterUnquoted(w: string)
    requires '"' !in w && '\'' !in w
    ensures QuoteAfter(w).None?
    decreases |w|
  {
    if |w| > 0 {
      var init := w[..|w| - 1];
      assert forall c :: c in init ==> c in w;
      QuoteAfterUnquoted(init);
    }
  }

  /** Reading one more character of a tag body. */
  lemma {:induction false} QuoteAfterStep(w: string, k: nat)
    requires k < |w|
    ensures QuoteAfter(w[..k + 1]) ==
              var q := QuoteAfter(w[..k]);
              if (w[k] == '"' || w[k] == '\'') && (q.None? || q == Some(w[k])) then Toggle(q, w[k]) else q
  {
    assert w[..k + 1][..k] == w[..k];
  }

  /** The body of the sample tag below: two values, one in each kind of
      quote, each holding the other quote and a `>`. */
  const TwoValuesBody := "a t=\"x>'\" u='y>\"'"

  lemma {:induction false} TwoValuesBodyIsTagBody()
    ensures TagBody(TwoValuesBody)
  {
    var body := TwoValuesBody;
    TwoValuesQuotesFirst(body);
    TwoValuesQuotesSecond(body);
    TwoValuesAngles(body);
    assert body[..17] == body;
  }

  lemma {:induction false} TwoValuesQuotesFirst(body: string)
    requires body == TwoValuesBody
    ensures QuoteAfter(body[..6]) == Some('"') && QuoteAfter(body[..9]) == None
  {
    TwoValuesQuoteOpens(body);
    assert QuoteAfter(body[..7]) == Some('"') by { QuoteAfterStep(body, 6); }
    assert QuoteAfter(body[..8]) == Some('"') by { QuoteAfterStep(body, 7); }
    assert QuoteAfter(body[..9]) == None by { QuoteAfterStep(body, 8); }
  }

  lemma {:induction false} TwoValuesQuoteOpens(body: string)
    requires body == TwoValuesBody
    ensures QuoteAfter(body[..6]) == Some('"')
  {
    assert body[..0] == [];
    assert QuoteAfter(body[..1]) == None by { QuoteAfterStep(body, 0); }
    assert QuoteAfter(body[..2]) == None by { QuoteAfterStep(body, 1); }
    assert QuoteAfter(body[..3]) == None by { QuoteAfterStep(body, 2); }
    assert QuoteAfter(body[..4]) == None by { QuoteAfterStep(body, 3); }
    assert QuoteAfter(body[..5]) == Some('"') by { QuoteAfterStep(body, 4); }
    assert QuoteAfter(body[..6]) == Some('"') by { QuoteAfterStep(body, 5); }
  }

  lemma {:induction false} TwoValuesQuotesSecond(body: string)
    requires body == TwoValuesBody && QuoteAfter(body[..9]) == None
    ensures QuoteAfter(body[..14]) == Some('\'') && QuoteAfter(body[..17]) == None
  {
    assert QuoteAfter(body[..10]) == None by { QuoteAfterStep(body, 9); }
    assert QuoteAfter(body[..11]) == None by { QuoteAfterStep(body, 10); }
    assert QuoteAfter(body[..12]) == None by { QuoteAfterStep(body, 11); }
    assert QuoteAfter(body[..13]) == Some('\'') by { QuoteAfterStep(body, 12); }
    assert QuoteAfter(body[..14]) == Some('\'') by { QuoteAfterStep(body, 13); }
    assert QuoteAfter(body[..15]) == Some('\'') by { QuoteAfterStep(body, 14); }
    assert QuoteAfter(body[..16]) == Some('\'') by { QuoteAfterStep(body, 15); }
    assert QuoteAfter(body[..17]) == None by { QuoteAfterStep(body, 16); }
  }

  lemma {:induction false} TwoValuesAngles(body: string)
    requires body == TwoValuesBody
    ensures '<' !in body && |body| == 17 && body[0] == 'a'
    ensures forall k :: 0 <= k < |body| && body[k] == '>' ==> k == 6 || k == 14
  {
  }

  /** Neither quoted `>` nor the other kind of quote ends the tag. */
  lemma {:induction false} StripTagsTwoValuesSample()
    ensures StripTags("<a t=\"x>'\" u='y>\"'>z") == "z"
  {
    TwoValuesBodyIsTagBody();
    StripTagsDropsTagBody(TwoValuesBody, "z");
    assert "<" + TwoValuesBody + ">" + "z" == "<a t=\"x>'\" u='y>\"'>z";
    StripTagsWithoutAngles("z");
  }

  /** `--` then `>` at position `k` of `w`: where a comment closes. */
  predicate ClosesComment(w: string, k: nat) {
    2 <= k < |w| && w[k] == '>' && w[k - 1] == '-' && w[k - 2] == '-'
  }

  /** A comment at the head of the text is dropped up to its first `-->`,
      even when it holds other `>` or quotes. */
  lemma {:induction false} StripTagsDropsComment(body: string, rest: string)
    requires forall k :: !ClosesComment("--" + body, k)
    requires NotXmlHead(rest)
    ensures StripTags("<!--" + body + "-->" + rest) == StripTags(rest)
  {
    var pre := "<!--" + body + "-->";
    var s := pre + rest;
    var n := 4 + |body| + 2;
    assert s[0] == '<' && s[1] == '!' && s[2] == '-' && s[3] == '-';
    OpensTag(s);
    var decl := InTag.(mode := Decl, last := '!');
    assert Next(s, 1, InTag) == decl;
    assert Run(s, 1, InTag) == Run(s, 2, decl);
    assert Next(s, 2, decl) == decl;
    assert Run(s, 2, decl) == Run(s, 3, decl);
    var comment := decl.(mode := Comment);
    assert Next(s, 3, decl) == comment;
    assert Run(s, 3, decl) == Run(s, 4, comment);
    var w := "--" + body;
    forall j | 4 <= j < n ensures !ClosesComment(s, j) {
      if j < 4 + |body| {
        assert s[j] == w[j - 2] && s[j - 1] == w[j - 3] && s[j - 2] == w[j - 4];
        assert !ClosesComment(w, j - 2);
      } else {
        assert s[j] == '-';
      }
    }
    RunCommentSkips(s, 4, n, comment);
    assert s[n] == '>' && s[n - 1] == '-' && s[n - 2] == '-';
    assert Run(s, n, comment) == Run(s, n + 1, Next(s, n, comment));
    assert |pre| == n + 1;
    ResumeInText(pre, rest, Next(s, n, comment));
  }

  lemma {:induction false} RunCommentSkips(s: string, i: nat, k: nat, st: Scanner)
    requires 2 <= i <= k <= |s| && st.mode == Comment
    requires forall j :: i <= j < k ==> !ClosesComment(s, j)
    ensures Run(s, i, st) == Run(s, k, st)
    decreases k - i
  {
    if i < k {
      assert !ClosesComment(s, i);
      assert Next(s, i, st) == st;
      RunCommentSkips(s, i + 1, k, st);
    }
  }

  /** A `>` inside a quoted attribute value does not end the tag. */
  lemma {:induction false} StripTagsQuotedSample()
    ensures StripTags("<i t=\"a>b\">x") == "x"
  {
    StripTagsDropsQuotedTag("i t=", "a>b", "", "x");
    assert "<" + "i t=" + "\"" + "a>b" + "\"" + "" + ">" + "x" == "<i t=\"a>b\">x";
    StripTagsWithoutAngles("x");
  }

  /** A `>` inside a comment does not end it. */
  lemma {:induction false} StripTagsCommentSample()
    ensures StripTags("<!-- a>b -->") == ""
  {
    var w := "--" + " a>b ";
    forall k | 0 <= k < |w| ensures !ClosesComment(w, k) {
    }
    StripTagsDropsComment(" a>b ", "");
    assert "<!--" + " a>b " + "-->" + "" == "<!-- a>b -->";
  }
}
