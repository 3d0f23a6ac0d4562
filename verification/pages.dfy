/**
 The page structure of the extracted document text. The text extraction writes each
 PDF page behind a marker `"\n---  PÁGINA <n> ---\n"` (src/app/services/service.py:284),
 and the extractor cuts the text back into pages at `"---  PÁGINA "`
 (src/app/services/service.py:43, 98). It then recognises a page by the page numbers
 the page shows.
 */
module Pages {
  import opened Wrappers
  import opened Chars
  import opened Text
  import opened Numerals
  import opened Scan

  /** What the extractor splits the document text on (two spaces after the dashes). */
  const Delimiter: string := "---  P\U{C1}GINA "

  /** The footer label followed by a page number, as in `PÁGINA: 12`. */
  const FooterPrefix: string := "P\U{C1}GINA: "

  /** `full_text.split("---  PÁGINA ")`: the pieces between delimiters, which give the text back when joined. */
  function SplitPages(fullText: string): (pages: seq<string>)
    ensures |pages| >= 1
    ensures forall k :: 0 <= k < |pages| ==> !Contains(pages[k], Delimiter)
    ensures Join(pages, Delimiter) == fullText
  {
    JoinSplit(fullText, Delimiter);
    Split(fullText, Delimiter)
  }

  // ---------------------------------------------------------------------------
  // Recognising a page by number

  /** The two spellings of the page test: `" {n}"` (lines 72, 133) and `"{n} "` (line 200). */
  datatype PageTest = SpaceBefore | SpaceAfter

  /** The page shows number `n`: the test's spelling of `n`, or `PÁGINA: n`, occurs in it. */
  predicate Shows(page: string, n: nat, test: PageTest) {
    var num := NatToString(n);
    || (test.SpaceBefore? && Contains(page, " " + num))
    || (test.SpaceAfter? && Contains(page, num + " "))
    || Contains(page, FooterPrefix + num)
  }

  /** The first number of `range(lo, hi)` the page shows: the loop over page numbers that breaks on the first hit. */
  function FirstShown(page: string, lo: nat, hi: nat, test: PageTest): (r: Option<nat>)
    ensures r.Some? ==> lo <= r.value < hi && Shows(page, r.value, test)
    ensures r.Some? ==> forall n :: lo <= n < r.value ==> !Shows(page, n, test)
    ensures r.None? ==> forall n :: lo <= n < hi ==> !Shows(page, n, test)
  {
    if hi <= lo then None
    else
      var shown := (n: nat) => Shows(page, n, test);
      assert forall n: nat :: shown(n) == Shows(page, n, test);
      FirstIndex(shown, lo, hi - 1)
  }

  /** The spelling of `10 * n + d` is the spelling of `n` followed by the digit `d`. */
  lemma SpellingExtends(n: nat, d: nat)
    requires n >= 1 && d < 10
    ensures NatToString(10 * n + d) == NatToString(n) + [DigitChar(d)]
  {
    assert (10 * n + d) / 10 == n && (10 * n + d) % 10 == d;
  }

  /** An occurrence of `a + b` is an occurrence of `a` at the same index and of `b` just after it. */
  lemma OccursSplit(s: string, a: string, b: string, j: nat)
    requires OccursAt(s, a + b, j)
    ensures OccursAt(s, a, j) && OccursAt(s, b, j + |a|)
  {
    assert s[j..j + |a|] == (a + b)[..|a|];
    assert s[j + |a|..j + |a| + |b|] == (a + b)[|a|..];
  }

  /**
   The `" {n}"` test looks for a substring, so text that passes it for a number also
   passes it for the number with the last digit dropped: text holding ` 12` (or
   `PÁGINA: 12`) shows page 1 as well.
   */
  lemma SpaceBeforeConfusesPrefix(page: string, n: nat, d: nat)
    requires n >= 1 && d < 10 && Shows(page, 10 * n + d, SpaceBefore)
    ensures Shows(page, n, SpaceBefore)
  {
    SpellingExtends(n, d);
    var num, c := NatToString(n), [DigitChar(d)];
    if Contains(page, " " + (num + c)) {
      var j :| OccursAt(page, " " + (num + c), j);
      assert " " + (num + c) == (" " + num) + c;
      OccursSplit(page, " " + num, c, j);
    } else {
      var j :| OccursAt(page, FooterPrefix + (num + c), j);
      assert FooterPrefix + (num + c) == (FooterPrefix + num) + c;
      OccursSplit(page, FooterPrefix + num, c, j);
    }
  }

  /**
   The `"{n} "` test looks for a substring, so text holding `12 ` passes it for page 2
   as well: a number ending in digit `d` shows page `d`.
   */
  lemma SpaceAfterConfusesLastDigit(page: string, n: nat, d: nat)
    requires n >= 1 && d < 10 && Contains(page, NatToString(10 * n + d) + " ")
    ensures Shows(page, d, SpaceAfter)
  {
    SpellingExtends(n, d);
    var num, c := NatToString(n), [DigitChar(d)];
    var j :| OccursAt(page, (num + c) + " ", j);
    assert (num + c) + " " == num + (c + " ");
    OccursSplit(page, num, c + " ", j);
    assert NatToString(d) == c;
  }

  // ---------------------------------------------------------------------------
  // The document text as the text extraction builds it

  /** What the marker of page `n` leaves behind the delimiter: `"<n> ---"`. */
  function Residue(n: nat): string {
    NatToString(n) + " ---"
  }

  /** The marker the text extraction writes in front of PDF page `n`. */
  function Marker(n: nat): string {
    "\n" + Delimiter + Residue(n) + "\n"
  }

  /** The document text built from the page texts, numbering pages from `n`. */
  function Render(texts: seq<string>, n: nat): string
    decreases |texts|
  {
    if |texts| == 0 then "" else Marker(n) + texts[0] + Render(texts[1..], n + 1)
  }

  /** What splitting leaves of the PDF page `n` with text `text`: `"<n> ---\n<text>"`. */
  function PagePiece(n: nat, text: string): string {
    Residue(n) + "\n" + text
  }

  /** The pieces after the first one: every page but the last keeps the newline that opens the next marker. */
  function RenderedPages(texts: seq<string>, n: nat): (pages: seq<string>)
    ensures |pages| == |texts|
    decreases |texts|
  {
    if |texts| == 0 then []
    else if |texts| == 1 then [PagePiece(n, texts[0])]
    else [PagePiece(n, texts[0]) + "\n"] + RenderedPages(texts[1..], n + 1)
  }

  lemma {:induction false} RenderJoin(texts: seq<string>, n: nat)
    requires |texts| >= 1
    ensures Render(texts, n) == "\n" + Delimiter + Join(RenderedPages(texts, n), Delimiter)
    decreases |texts|
  {
    var head := PagePiece(n, texts[0]);
    MarkerThenText(n, texts[0]);
    if |texts| == 1 {
      assert Render(texts[1..], n + 1) == "";
    } else {
      RenderJoin(texts[1..], n + 1);
      var rest := RenderedPages(texts[1..], n + 1);
      assert RenderedPages(texts, n) == [head + "\n"] + rest;
      JoinCons(head + "\n", rest, Delimiter);
      Regroup("\n", Delimiter, head, Join(rest, Delimiter));
    }
  }

  lemma MarkerThenText(n: nat, text: string)
    ensures Marker(n) + text == "\n" + Delimiter + PagePiece(n, text)
  {
  }

  lemma Regroup(a: string, d: string, h: string, j: string)
    ensures (a + d + h) + (a + d + j) == a + d + (h + a + d + j)
  {
  }

  /**
   Splitting the document text gives the pages back: a first piece `"\n"` and then,
   for each PDF page `k` counted from 1, its piece starting with `"<k> ---"`. This is
   why `index < 5` selects the first piece and PDF pages 1 to 4.
   */
  lemma PagesOfRender(texts: seq<string>)
    requires |texts| >= 1
    requires forall k :: 0 <= k < |texts| ==> !Contains(texts[k], Delimiter)
    ensures SplitPages(Render(texts, 1)) == ["\n"] + RenderedPages(texts, 1)
  {
    var rest := RenderedPages(texts, 1);
    assert Render(texts, 1) == Join(["\n"] + rest, Delimiter) by {
      RenderJoin(texts, 1);
      JoinCons("\n", rest, Delimiter);
    }
    assert Clean(["\n"] + rest, Delimiter) by {
      RenderedPagesClean(texts, 1);
      DelimiterShape();
      CleanCons("\n", rest, Delimiter);
    }
    DelimiterShape();
    SplitJoinNewlineEnded(["\n"] + rest, Delimiter);
  }

  /** The delimiter holds no newline, and the text in front of the first marker does not hold it. */
  lemma DelimiterShape()
    ensures |Delimiter| > 0 && '\n' !in Delimiter && !Contains("\n", Delimiter)
  {
    assert Delimiter[5] == 'P';
    MissingCharNotContained("\n", Delimiter, 5);
  }

  lemma JoinCons(head: string, rest: seq<string>, sep: string)
    requires |rest| >= 1
    ensures Join([head] + rest, sep) == head + sep + Join(rest, sep)
  {
    assert ([head] + rest)[1..] == rest;
  }

  /** The string ends with a newline. */
  predicate NewlineEnded(s: string) {
    |s| > 0 && s[|s| - 1] == '\n'
  }

  /** No piece holds the separator, and every piece but the last ends with a newline. */
  ghost predicate Clean(parts: seq<string>, sep: string) {
    && (forall k :: 0 <= k < |parts| ==> !Contains(parts[k], sep))
    && (forall k :: 0 <= k < |parts| - 1 ==> NewlineEnded(parts[k]))
  }

  lemma CleanCons(head: string, rest: seq<string>, sep: string)
    requires Clean(rest, sep) && !Contains(head, sep) && (|rest| > 0 ==> NewlineEnded(head))
    ensures Clean([head] + rest, sep)
  {
    var parts := [head] + rest;
    forall k | 1 <= k < |parts|
      ensures parts[k] == rest[k - 1]
    {
    }
  }

  lemma CleanTail(parts: seq<string>, sep: string)
    requires Clean(parts, sep) && |parts| >= 1
    ensures Clean(parts[1..], sep) && !Contains(parts[0], sep)
    ensures |parts| > 1 ==> NewlineEnded(parts[0])
  {
    forall k | 0 <= k < |parts| - 1
      ensures parts[1..][k] == parts[k + 1]
    {
    }
  }

  /** Each rendered piece lacks the delimiter, and every piece but the last ends with a newline. */
  lemma {:induction false} RenderedPagesClean(texts: seq<string>, n: nat)
    requires forall k :: 0 <= k < |texts| ==> !Contains(texts[k], Delimiter)
    ensures Clean(RenderedPages(texts, n), Delimiter)
    decreases |texts|
  {
    if |texts| == 1 {
      PieceClean(n, texts[0]);
    } else if |texts| > 1 {
      PieceNewlineClean(n, texts[0]);
      var tail := texts[1..];
      forall k | 0 <= k < |tail|
        ensures !Contains(tail[k], Delimiter)
      {
        assert tail[k] == texts[k + 1];
      }
      RenderedPagesClean(tail, n + 1);
      CleanCons(PagePiece(n, texts[0]) + "\n", RenderedPages(tail, n + 1), Delimiter);
    }
  }

  /** The marker residue holds no `P`, so no delimiter. */
  lemma ResidueLacksDelimiter(n: nat)
    ensures !Contains(Residue(n), Delimiter)
  {
    var head := Residue(n);
    forall c | c in head
      ensures c != 'P'
    {
      var k :| 0 <= k < |head| && head[k] == c;
      if k < |NatToString(n)| {
        assert head[k] == NatToString(n)[k];
      }
    }
    MissingCharNotContained(head, Delimiter, 5);
  }

  /** A page piece lacks the delimiter when its text does. */
  lemma PieceClean(n: nat, text: string)
    requires !Contains(text, Delimiter)
    ensures !Contains(PagePiece(n, text), Delimiter)
  {
    ResidueLacksDelimiter(n);
    DelimiterShape();
    NewlineSeparates(Residue(n), text, Delimiter);
  }

  /** So does a page piece followed by the newline that opens the next marker. */
  lemma PieceNewlineClean(n: nat, text: string)
    requires !Contains(text, Delimiter)
    ensures !Contains(PagePiece(n, text) + "\n", Delimiter)
  {
    PieceClean(n, text);
    assert !Contains([], Delimiter);
    DelimiterShape();
    NewlineSeparates(PagePiece(n, text), [], Delimiter);
    assert PagePiece(n, text) + "\n" + [] == PagePiece(n, text) + "\n";
  }

  /** A pattern without newlines cannot occur across a newline. */
  lemma NewlineSeparates(a: string, b: string, pat: string)
    requires '\n' !in pat && !Contains(a, pat) && !Contains(b, pat)
    ensures !Contains(a + "\n" + b, pat)
  {
    var s := a + "\n" + b;
    forall j: nat
      ensures !OccursAt(s, pat, j)
    {
      if j + |pat| <= |s| {
        var w := s[j..j + |pat|];
        if j + |pat| <= |a| {
          assert w == a[j..j + |pat|];
          assert !OccursAt(a, pat, j);
        } else if j > |a| {
          assert w == b[j - |a| - 1..j - |a| - 1 + |pat|];
          assert !OccursAt(b, pat, j - |a| - 1);
        } else {
          assert w[|a| - j] == '\n';
        }
      }
    }
  }

  /**
   Splitting on a separator at its first occurrence, when the text in front lacks it and
   ends with a character the separator does not hold (so no occurrence straddles).
   */
  lemma SplitAtFirst(a: string, sep: string, b: string)
    requires |sep| > 0 && !Contains(a, sep)
    requires |a| > 0 && a[|a| - 1] !in sep
    ensures Split(a + sep + b, sep) == [a] + Split(b, sep)
  {
    var s := a + sep + b;
    forall j: nat | j < |a|
      ensures !OccursAt(s, sep, j)
    {
      if j + |sep| <= |s| {
        var w := s[j..j + |sep|];
        if j + |sep| <= |a| {
          assert w == a[j..j + |sep|];
          assert !OccursAt(a, sep, j);
        } else {
          assert w[|a| - 1 - j] == a[|a| - 1];
        }
      }
    }
    assert s[|a|..|a| + |sep|] == sep;
    assert OccursAt(s, sep, |a|);
    var r := FindFrom(s, sep, 0);
    assert r.Some? && r.value <= |a|;
    assert r.value == |a|;
    assert s[..|a|] == a;
    assert s[|a| + |sep|..] == b;
  }

  /** Joining pieces that lack the separator and end in a newline it does not hold, then splitting, gives the pieces. */
  lemma {:induction false} SplitJoinNewlineEnded(parts: seq<string>, sep: string)
    requires |sep| > 0 && '\n' !in sep && |parts| >= 1 && Clean(parts, sep)
    ensures Split(Join(parts, sep), sep) == parts
    decreases |parts|
  {
    if |parts| == 1 {
      CleanTail(parts, sep);
      assert FindFrom(parts[0], sep, 0) == None;
    } else {
      var head, tail := parts[0], parts[1..];
      assert Split(Join(tail, sep), sep) == tail by {
        CleanTail(parts, sep);
        SplitJoinNewlineEnded(tail, sep);
      }
      assert Split(head + sep + Join(tail, sep), sep) == [head] + Split(Join(tail, sep), sep) by {
        CleanTail(parts, sep);
        SplitAtFirst(head, sep, Join(tail, sep));
      }
      assert Join(parts, sep) == head + sep + Join(tail, sep);
      assert parts == [head] + tail;
    }
  }

  /** The piece of PDF page `k` shows `k` under the `"{n} "` test, through its own marker. */
  lemma PieceShowsOwnNumber(n: nat, text: string)
    ensures Shows(PagePiece(n, text), n, SpaceAfter)
    ensures Shows(PagePiece(n, text) + "\n", n, SpaceAfter)
  {
    var pat := NatToString(n) + " ";
    assert PagePiece(n, text)[0..|pat|] == pat;
    assert (PagePiece(n, text) + "\n")[0..|pat|] == pat;
    assert OccursAt(PagePiece(n, text), pat, 0);
    assert OccursAt(PagePiece(n, text) + "\n", pat, 0);
  }
}
