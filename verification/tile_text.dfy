/** Text helpers of the module tile: the "empty after stripping" test and
    the removal of the card image from a module's description. */
module TileText {
  import opened Optional
  import opened PhpStrings
  import opened TagStrip

  /** `is_empty`: nothing but markup and blanks is left, or only `"0"`, which
      PHP's `empty()` also counts as empty. */
  predicate IsEmpty(value: string) {
    PhpEmpty(Trim(StripTags(value)))
  }

  /** For text without markup, empty means that no character but blanks is
      left, or only a single `0`. */
  lemma {:induction false} IsEmptyOfPlainText(value: string)
    requires '<' !in value
    ensures IsEmpty(value) <==> NonBlanks(value) == "" || NonBlanks(value) == "0"
  {
    StripTagsWithoutAngles(value);
    EmptyAfterTrim(DropNul(value));
    NonBlanksDropNul(value);
  }

  /** A tag in front changes nothing, whatever its quoted attribute values
      hold: markup alone never makes a tile part non-empty. */
  lemma {:induction false} IsEmptyIgnoresTag(tag: string, rest: string)
    requires TagBody(tag) && NotXmlHead(rest)
    ensures IsEmpty("<" + tag + ">" + rest) == IsEmpty(rest)
  {
    StripTagsDropsTagBody(tag, rest);
  }

  /** Nor does a comment in front, whatever it holds before its `-->`. */
  lemma {:induction false} IsEmptyIgnoresComment(body: string, rest: string)
    requires forall k :: !ClosesComment("--" + body, k)
    requires NotXmlHead(rest)
    ensures IsEmpty("<!--" + body + "-->" + rest) == IsEmpty(rest)
  {
    StripTagsDropsComment(body, rest);
  }

  /** The empty paragraph the ATTO editor leaves once the image is gone. */
  const EmptyAttoParagraph := "<p dir=\"ltr\" style=\"text-align: left;\"><br></p>"

  /** `substr($before, 0, strrpos($before, "<", -1))`: the text before the
      last `<`; nothing when there is none. */
  function BeforeLastTag(before: string): (left: string)
    ensures |left| <= |before| && left == before[..|left|]
    ensures '<' !in before ==> left == ""
    ensures '<' in before ==> |left| < |before| && before[|left|] == '<' && '<' !in before[|left| + 1..]
  {
    match LastIndexOfChar(before, '<')
    case None => ""
    case Some(i) => before[..i]
  }

  /** `substr($after, strpos($after, ">") + 1)`: the text after the first
      `>`. Without a `>`, `strpos` gives `false`, which counts as 0, so only
      the first character is dropped. */
  function AfterFirstTagEnd(after: string): (right: string)
    ensures |right| <= |after| && right == after[|after| - |right|..]
    ensures '>' !in after ==> right == (if |after| >= 1 then after[1..] else "")
    ensures '>' in after ==> |right| < |after| && after[|after| - |right| - 1] == '>'
                             && '>' !in after[..|after| - |right| - 1]
  {
    var p := SpanUntil(after, '>');
    if p < |after| then after[p + 1..]
    else if |after| >= 1 then after[1..]
    else ""
  }

  /** The two pieces around the image source put back together, without the
      tag they were part of and without an empty paragraph. */
  function Rejoin(before: string, after: string): string {
    ReplaceAll(BeforeLastTag(before) + AfterFirstTagEnd(after), EmptyAttoParagraph, "")
  }

  /** `removeImage` as written: the html is exploded on every occurrence of
      the image source and only the first two pieces are kept. A missing
      second piece reads as nothing. */
  function RemoveImage(html: string, image: string): string
    requires |image| > 0
  {
    var parts := Explode(html, image);
    Rejoin(parts[0], if |parts| > 1 then parts[1] else "")
  }

  /** `removeImage` splitting at the first occurrence only, as
      `explode($image, $html, 2)` would: the rest of the html is kept whole. */
  function RemoveImageAtFirst(html: string, image: string): string
    requires |image| > 0
  {
    match IndexOf(html, image)
    case None => Rejoin(html, "")
    case Some(i) => Rejoin(html[..i], html[i + |image|..])
  }

  lemma {:induction false} BeforeLastTagOf(pre: string, tag: string)
    requires '<' !in tag
    ensures BeforeLastTag(pre + "<" + tag) == pre
  {
    var s := pre + "<" + tag;
    assert s[|pre|] == '<';
    assert forall j :: |pre| < j < |s| ==> s[j] == tag[j - |pre| - 1];
    assert s[..|pre|] == pre;
  }

  lemma {:induction false} AfterFirstTagEndOf(rest: string, post: string)
    requires '>' !in rest
    ensures AfterFirstTagEnd(rest + ">" + post) == post
  {
    assert rest + ">" + post == rest + (">" + post);
    SpanUntilStops(rest, ">" + post, '>');
    assert (rest + ">" + post)[|rest| + 1..] == post;
  }

  /** The pieces around a source inside one tag `<...src...>` rejoin to the
      html without that tag. */
  lemma {:induction false} RejoinRemovesTag(pre: string, tag: string, rest: string, post: string)
    requires '<' !in tag && '>' !in rest
    ensures Rejoin(pre + "<" + tag, rest + ">" + post) == ReplaceAll(pre + post, EmptyAttoParagraph, "")
  {
    BeforeLastTagOf(pre, tag);
    AfterFirstTagEndOf(rest, post);
  }

  /** Splitting at the first occurrence rejoins the pieces around it. */
  lemma {:induction false} RemoveImageAtFirstSplits(front: string, image: string, after: string)
    requires |image| > 0 && IndexOf(front + image + after, image) == Some(|front|)
    ensures RemoveImageAtFirst(front + image + after, image) == Rejoin(front, after)
  {
    var html := front + image + after;
    assert html[..|front|] == front;
    assert html[|front| + |image|..] == after;
  }

  /** With the image source inside one tag `<...src...>` and at its first
      occurrence, splitting there removes exactly that tag. */
  lemma {:induction false} RemoveImageAtFirstRemovesTag(pre: string, tag: string, image: string, rest: string, post: string)
    requires |image| > 0 && '<' !in tag && '>' !in rest
    requires IndexOf(pre + "<" + tag + image + rest + ">" + post, image) == Some(|pre| + 1 + |tag|)
    ensures RemoveImageAtFirst(pre + "<" + tag + image + rest + ">" + post, image)
         == ReplaceAll(pre + post, EmptyAttoParagraph, "")
  {
    var front, after := pre + "<" + tag, rest + ">" + post;
    assert pre + "<" + tag + image + rest + ">" + post == front + image + after;
    RemoveImageAtFirstSplits(front, image, after);
    RejoinRemovesTag(pre, tag, rest, post);
  }

  /** Exploding on a text that occurs once gives the two pieces around it. */
  lemma {:induction false} ExplodeOnce(front: string, image: string, after: string)
    requires |image| > 0 && IndexOf(front + image + after, image) == Some(|front|)
    requires IndexOf(after, image) == None
    ensures Explode(front + image + after, image) == [front, after]
  {
    var html := front + image + after;
    assert html[..|front|] == front;
    assert html[|front| + |image|..] == after;
  }

  /** `removeImage` on a text holding the source once rejoins the pieces
      around it. */
  lemma {:induction false} RemoveImageSplitsOnce(front: string, image: string, after: string)
    requires |image| > 0 && IndexOf(front + image + after, image) == Some(|front|)
    requires IndexOf(after, image) == None
    ensures RemoveImage(front + image + after, image) == Rejoin(front, after)
  {
    ExplodeOnce(front, image, after);
  }

  /** When the image source occurs once, inside one tag, `removeImage`
      removes exactly that tag. */
  lemma {:induction false} RemoveImageOnce(pre: string, tag: string, image: string, rest: string, post: string)
    requires |image| > 0 && '<' !in tag && '>' !in rest
    requires IndexOf(pre + "<" + tag + image + rest + ">" + post, image) == Some(|pre| + 1 + |tag|)
    requires IndexOf(rest + ">" + post, image) == None
    ensures RemoveImage(pre + "<" + tag + image + rest + ">" + post, image)
         == ReplaceAll(pre + post, EmptyAttoParagraph, "")
  {
    var front, after := pre + "<" + tag, rest + ">" + post;
    assert pre + "<" + tag + image + rest + ">" + post == front + image + after;
    RemoveImageSplitsOnce(front, image, after);
    RejoinRemovesTag(pre, tag, rest, post);
  }

  /** Exploding on a text that occurs exactly twice gives the three pieces. */
  lemma {:induction false} ExplodeTwice(a: string, image: string, b: string, c: string)
    requires |image| > 0 && IndexOf(a + image + (b + image + c), image) == Some(|a|)
    requires IndexOf(b + image + c, image) == Some(|b|) && IndexOf(c, image) == None
    ensures Explode(a + image + (b + image + c), image) == [a, b, c]
  {
    ExplodeOnce(b, image, c);
    var html := a + image + (b + image + c);
    assert html[..|a|] == a;
    assert html[|a| + |image|..] == b + image + c;
  }

  /** With the source exactly twice, `removeImage` keeps only the pieces
      before and between the two occurrences. */
  lemma {:induction false} RemoveImageSplitsTwice(a: string, image: string, b: string, c: string)
    requires |image| > 0 && IndexOf(a + image + (b + image + c), image) == Some(|a|)
    requires IndexOf(b + image + c, image) == Some(|b|) && IndexOf(c, image) == None
    ensures RemoveImage(a + image + (b + image + c), image) == Rejoin(a, b)
  {
    ExplodeTwice(a, image, b, c);
  }

  /** A bare `<` before and a `>` after leave only the text after it. */
  lemma {:induction false} RejoinBareTag(post: string)
    requires |post| < |EmptyAttoParagraph|
    ensures Rejoin("<", ">" + post) == post
  {
    RejoinRemovesTag("", "", "", post);
    assert "" + "<" + "" == "<";
    assert "" + ">" + post == ">" + post;
    assert "" + post == post;
    ReplaceAllWithoutOccurrence(post, EmptyAttoParagraph, "");
  }

  /** The first position of a one-character needle. */
  lemma {:induction false} IndexOfChar(s: string, c: char, k: nat)
    requires k < |s| && s[k] == c && forall j :: 0 <= j < k ==> s[j] != c
    ensures IndexOf(s, [c]) == Some(k)
    decreases k
  {
    if k == 0 {
      assert s[..1] == [c];
    } else {
      assert s[..1] != [c] by { assert s[..1][0] == s[0]; }
      IndexOfChar(s[1..], c, k - 1);
    }
  }

  /** A one-character needle absent from the text is not found. */
  lemma {:induction false} IndexOfMissingChar(s: string, c: char)
    requires c !in s
    ensures IndexOf(s, [c]) == None
    decreases |s|
  {
    if |s| > 0 {
      assert s[..1] != [c] by { assert s[..1][0] == s[0]; }
      IndexOfMissingChar(s[1..], c);
    }
  }

  /** The occurrences of `x` in `<x>a<x>b`. */
  lemma {:induction false} DuplicatedSource()
    ensures IndexOf("<x>a<x>b", "x") == Some(1)
    ensures IndexOf(">a<x>b", "x") == Some(3)
    ensures IndexOf(">b", "x") == None
  {
    IndexOfChar("<x>a<x>b", 'x', 1);
    IndexOfChar(">a<x>b", 'x', 3);
    IndexOfMissingChar(">b", 'x');
  }

  /** How the example text splits around its pieces. */
  lemma {:induction false} SourcePieces()
    ensures "<x>a<x>b" == "<" + "x" + (">a<" + "x" + ">b")
    ensures "<x>a<x>b" == "<" + "x" + ">a<x>b"
    ensures ">a<x>b" == ">" + "a<x>b"
    ensures ">a<" == ">" + "a<"
  {
  }

  /** With the image source twice, `removeImage` loses everything after the
      second occurrence: `<x>a<x>b` without image `x` comes out as `a<`. */
  lemma {:induction false} RemoveImageDropsTail(html: string, image: string)
    requires html == "<x>a<x>b" && image == "x"
    ensures RemoveImage(html, image) == "a<"
  {
    var a, b, c := "<", ">a<", ">b";
    SourcePieces();
    assert RemoveImage(html, image) == Rejoin(a, b) by {
      DuplicatedSource();
      RemoveImageSplitsTwice(a, image, b, c);
    }
    RejoinBareTag("a<");
  }

  /** Splitting at the first occurrence keeps the rest of `<x>a<x>b`. */
  lemma {:induction false} RemoveImageAtFirstKeepsTail(html: string, image: string)
    requires html == "<x>a<x>b" && image == "x"
    ensures RemoveImageAtFirst(html, image) == "a<x>b"
  {
    DuplicatedSource();
    SourcePieces();
    RemoveImageAtFirstSplits("<", "x", ">a<x>b");
    RejoinBareTag("a<x>b");
  }
}
