/**
 The fallback extraction between two section numbers
 (src/app/services/service.py:40-95): look both sections up in the table of contents,
 then take the kept lines of every page that shows a page number of the inclusive
 window `start … end`, join them with newlines and normalise the blank lines.
 */
module RangeExtract {
  import opened Wrappers
  import opened Chars
  import opened Text
  import opened Pages
  import opened NoiseFilter
  import opened Collapse
  import opened Scan
  import opened IndexLookup

  /** The page number a lookup gives, with "not found" and page `0` both read as `0` (`if not start_page`, line 63). */
  function PageOrZero(r: Option<IndexHit>): nat {
    if r.Some? then r.value.page else 0
  }

  /**
   What one page gives the range extraction: all the lines the filter keeps when the
   page shows, as `" {n}"` or `PÁGINA: {n}`, some `n` with `lo <= n <= hi`; nothing
   otherwise (lines 70-91).
   */
  function RangePage(page: string, lo: nat, hi: nat): (lines: seq<string>)
    ensures (forall n :: lo <= n <= hi ==> !Shows(page, n, SpaceBefore)) ==> lines == []
    ensures forall l :: l in lines ==> l in Split(page, "\n") && Keep(AnyMarker, l)
  {
    match FirstShown(page, lo, hi + 1, SpaceBefore)
    case None => []
    case Some(_) => FilterLines(AnyMarker, Split(page, "\n"))
  }

  /** A page showing a number of the window gives all its kept lines, whichever number it is. */
  lemma RangePageShown(page: string, lo: nat, hi: nat, n: nat)
    requires lo <= n <= hi && Shows(page, n, SpaceBefore)
    ensures RangePage(page, lo, hi) == FilterLines(AnyMarker, Split(page, "\n"))
  {
    assert FirstShown(page, lo, hi + 1, SpaceBefore).Some?;
  }

  /** The lines of all pages, in page order. */
  function RangeLines(pages: seq<string>, lo: nat, hi: nat): seq<string> {
    FlatMap((page: string) => RangePage(page, lo, hi), pages)
  }

  /** The pages are taken one after another: the lines of a document are those of its parts, in order. */
  lemma RangeLinesAppend(a: seq<string>, b: seq<string>, lo: nat, hi: nat)
    ensures RangeLines(a + b, lo, hi) == RangeLines(a, lo, hi) + RangeLines(b, lo, hi)
  {
    FlatMapAppend((page: string) => RangePage(page, lo, hi), a, b);
  }

  /**
   Every line the range extraction gathers passes the filter that rejects any page
   marker, and holds no newline: it is a line of its page.
   */
  lemma RangeLinesKept(pages: seq<string>, lo: nat, hi: nat)
    ensures forall l :: l in RangeLines(pages, lo, hi) ==> Keep(AnyMarker, l) && '\n' !in l
  {
    forall i, l | 0 <= i < |pages| && l in RangePage(pages[i], lo, hi)
      ensures Keep(AnyMarker, l) && '\n' !in l
    {
      SplitPiecesLackChar(pages[i], '\n');
    }
    FlatMapAll((page: string) => RangePage(page, lo, hi), pages, (l: string) => Keep(AnyMarker, l) && '\n' !in l);
  }

  /** The last page of the window: the end section's page, or ten past the start when that is missing or `0` (lines 66-67). */
  function WindowEnd(start: nat, end: nat): nat {
    if end == 0 then start + 10 else end
  }

  /**
   `_extract_section_range`: empty when the start section is not in the index (or
   indexed at page `0`); otherwise the normalised text of the window's pages.
   */
  function ExtractRange(fullText: string, startSection: string, endSection: string): (r: string)
    ensures PageOrZero(Lookup(SplitPages(fullText), startSection)) == 0 ==> r == []
    ensures r == [] || (!IsSpace(r[0]) && !IsSpace(r[|r| - 1]))
    ensures NoTripleBreak(r)
  {
    var pages := SplitPages(fullText);
    var start := PageOrZero(Lookup(pages, startSection));
    var end := PageOrZero(Lookup(pages, endSection));
    if start == 0 then []
    else Normalize(Join(RangeLines(pages, start, WindowEnd(start, end)), "\n"))
  }

  /**
   The window is inclusive at both ends: a page showing the end section's page number
   itself gives its lines.
   */
  lemma WindowIncludesEnd(page: string, start: nat, end: nat)
    requires end != 0 && start <= end && Shows(page, end, SpaceBefore)
    ensures RangePage(page, start, WindowEnd(start, end)) == FilterLines(AnyMarker, Split(page, "\n"))
  {
    RangePageShown(page, start, end, end);
  }

  /** The visible characters of the range text are those of the gathered lines, in page and line order. */
  lemma ExtractRangeContent(fullText: string, startSection: string, endSection: string)
    ensures var pages := SplitPages(fullText);
            var start := PageOrZero(Lookup(pages, startSection));
            var end := PageOrZero(Lookup(pages, endSection));
            start != 0 ==>
              Visible(ExtractRange(fullText, startSection, endSection))
              == FlatMap(Visible, RangeLines(pages, start, WindowEnd(start, end)))
  {
    var pages := SplitPages(fullText);
    var start := PageOrZero(Lookup(pages, startSection));
    var end := PageOrZero(Lookup(pages, endSection));
    if start != 0 {
      VisibleBlank("\n");
      JoinVisible(RangeLines(pages, start, WindowEnd(start, end)), "\n");
    }
  }

  /**
   With a start page, the range text is exactly the gathered lines joined with newlines
   and stripped: no gathered line is blank or holds a newline, so the blank-line
   collapse of line 94 never fires.
   */
  lemma ExtractRangeText(fullText: string, startSection: string, endSection: string)
    ensures var pages := SplitPages(fullText);
            var start := PageOrZero(Lookup(pages, startSection));
            var end := PageOrZero(Lookup(pages, endSection));
            start != 0 ==>
              ExtractRange(fullText, startSection, endSection)
              == Strip(Join(RangeLines(pages, start, WindowEnd(start, end)), "\n"))
  {
    var pages := SplitPages(fullText);
    var start := PageOrZero(Lookup(pages, startSection));
    var end := PageOrZero(Lookup(pages, endSection));
    if start != 0 {
      var lines := RangeLines(pages, start, WindowEnd(start, end));
      RangeLinesKept(pages, start, WindowEnd(start, end));
      forall j | 0 < j < |lines|
        ensures Strip(lines[j]) != []
      {
        assert lines[j] in lines;
        KeptNotBlank(AnyMarker, lines[j]);
      }
      NormalizeJoinedLines(lines);
    }
  }

  /**
   The range text is empty exactly when the start section is missing from the index (or
   indexed at page `0`) or no page of the window gives a line.
   */
  lemma ExtractRangeEmpty(fullText: string, startSection: string, endSection: string)
    ensures var pages := SplitPages(fullText);
            var start := PageOrZero(Lookup(pages, startSection));
            var end := PageOrZero(Lookup(pages, endSection));
            ExtractRange(fullText, startSection, endSection) == []
            <==> start == 0 || RangeLines(pages, start, WindowEnd(start, end)) == []
  {
    var pages := SplitPages(fullText);
    var start := PageOrZero(Lookup(pages, startSection));
    var end := PageOrZero(Lookup(pages, endSection));
    if start != 0 {
      var lines := RangeLines(pages, start, WindowEnd(start, end));
      ExtractRangeContent(fullText, startSection, endSection);
      if lines != [] {
        RangeLinesKept(pages, start, WindowEnd(start, end));
        KeptLinesVisible(AnyMarker, lines);
      } else {
        assert Join(lines, "\n") == [];
        assert Normalize([]) == [];
      }
    }
  }
}
