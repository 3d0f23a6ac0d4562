/**
 `_section_extract` (src/app/services/service.py:97-234): the text of one section of
 the reference form. The section's page comes from the table of contents; the section
 starts at its heading line on a page showing that number; it runs over the following
 pages up to the page of the next section at the same depth (or ten pages when the
 table of contents does not give one). When the section is missing from the table of
 contents, the range between its two neighbours is extracted instead.
 */
module SectionExtract {
  import opened Wrappers
  import opened Chars
  import opened Text
  import opened Numerals
  import opened Scan
  import opened Patterns
  import opened Pages
  import opened NoiseFilter
  import opened Collapse
  import opened IndexLookup
  import opened SectionRange
  import opened SectionBoundary
  import opened RangeExtract

  /** What the method does: return a text, or let the `ValueError` of `int()` escape. */
  datatype Outcome = Returns(text: string) | RaisesValueError

  /** The message for a section the table of contents does not list (line 126). */
  function NotInIndex(x: string): string {
    "Erro: A se\U{E7}\U{E3}o com o n\U{FA}mero '" + x + "' n\U{E3}o foi encontrada no \U{ED}ndice do documento."
  }

  /** The message for a section whose heading is on no page showing its number (line 167). */
  function NoContent(n: nat): string {
    "Erro: N\U{E3}o foi poss\U{ED}vel encontrar o conte\U{FA}do da se\U{E7}\U{E3}o '" + NatToString(n)
    + "' na p\U{E1}gina indicada."
  }

  /** Text as the final clean-up leaves it: no surrounding whitespace, no triple line break. */
  ghost predicate Tidy(t: string) {
    (t == [] || (!IsSpace(t[0]) && !IsSpace(t[|t| - 1]))) && NoTripleBreak(t)
  }

  // ---------------------------------------------------------------------------
  // The heading (lines 131-164)

  /** Page `i` shows the section's page number as `" {n}"` or `PÁGINA: {n}` and has a heading line for `x`. */
  predicate HeadingPage(pages: seq<string>, i: nat, x: string, n: nat) {
    && i < |pages|
    && Shows(pages[i], n, SpaceBefore)
    && Search(pages[i], SectionHeading(x), 0).Some?
  }

  /** The first page in document order with the section's heading. */
  function FindHeading(pages: seq<string>, x: string, n: nat): (r: Option<nat>)
    ensures r.Some? ==> HeadingPage(pages, r.value, x, n)
    ensures r.Some? ==> forall i :: 0 <= i < r.value ==> !HeadingPage(pages, i, x, n)
    ensures r.None? ==> forall i :: 0 <= i < |pages| ==> !HeadingPage(pages, i, x, n)
  {
    if |pages| == 0 then None
    else
      var found := (i: nat) => HeadingPage(pages, i, x, n);
      assert forall i: nat :: found(i) == HeadingPage(pages, i, x, n);
      FirstIndex(found, 0, |pages| - 1)
  }

  /** `searched_content`: the kept lines after the heading match, rejoined, marker lines not rejected (lines 142-162). */
  function HeadingContent(page: string, m: Match): string
    requires m.end <= |page|
  {
    Join(FilterLines(NoMarker, Split(page[m.end..], "\n")), "\n")
  }

  /** Lines cut at newlines keep no newline, so the heading content splits back into exactly the kept lines. */
  lemma HeadingContentLines(page: string, m: Match)
    requires m.end <= |page|
    requires FilterLines(NoMarker, Split(page[m.end..], "\n")) != []
    ensures Split(HeadingContent(page, m), "\n") == FilterLines(NoMarker, Split(page[m.end..], "\n"))
  {
    var lines := Split(page[m.end..], "\n");
    var kept := FilterLines(NoMarker, lines);
    SplitPiecesLackChar(page[m.end..], '\n');
    forall k | 0 <= k < |kept|
      ensures '\n' !in kept[k]
    {
      assert kept[k] in kept;
    }
    SplitJoinChar(kept, '\n');
  }

  // ---------------------------------------------------------------------------
  // The sweep over the following pages (lines 191-225)

  /** The end (excluded) of the page window: the boundary's page when it is there and not `0`, else ten pages on. */
  function SweepEnd(start: nat, b: Option<Entry>): nat {
    if b.Some? && b.value.page != 0 then b.value.page else start + 10
  }

  /** The page has a line that starts with the next section's number followed by whitespace (lines 203-206). */
  predicate Guarded(page: string, next: Option<string>) {
    next.Some? && next.value != [] && Search(page, SectionLine(next.value), 0).Some?
  }

  /**
   What one page gives the sweep. The loop over the window stops at the first page number
   `t` the page shows as `"{t} "` or `PÁGINA: {t}`; the page gives its kept lines when `t`
   is past the section's own page and the page does not start the next section.
   */
  function SweepPage(page: string, start: nat, end: nat, next: Option<string>): (lines: seq<string>)
    ensures (forall n :: start <= n < end ==> !Shows(page, n, SpaceAfter)) ==> lines == []
    ensures Guarded(page, next) ==> lines == []
    ensures forall l :: l in lines ==> l in Split(page, "\n") && Keep(NoMarker, l)
  {
    match FirstShown(page, start, end, SpaceAfter)
    case None => []
    case Some(t) =>
      if t > start && !Guarded(page, next) then
        SweepLinesKept(page, t);
        FilterLines(MarkerOfPage(t), Split(page, "\n"))
      else []
  }

  lemma SweepLinesKept(page: string, t: nat)
    ensures forall l :: l in FilterLines(MarkerOfPage(t), Split(page, "\n")) ==> Keep(NoMarker, l)
  {
    forall l | l in FilterLines(MarkerOfPage(t), Split(page, "\n"))
      ensures Keep(NoMarker, l)
    {
      RulesNested(l, t);
    }
  }

  /** A page showing the section's own page number gives nothing: that number is the first of the window. */
  lemma SweepSkipsStartPage(page: string, start: nat, end: nat, next: Option<string>)
    requires Shows(page, start, SpaceAfter)
    ensures SweepPage(page, start, end, next) == []
  {
    var r := FirstShown(page, start, end, SpaceAfter);
    if r.Some? {
      assert r.value == start;
    }
  }

  /**
   The smallest page number of the window a page shows decides alone: when it is past the
   start and the page does not start the next section, the page gives the lines kept by
   the filter that rejects that page's own marker.
   */
  lemma SweepPageDecided(page: string, start: nat, end: nat, next: Option<string>, t: nat)
    requires start < t < end && Shows(page, t, SpaceAfter)
    requires forall n :: start <= n < t ==> !Shows(page, n, SpaceAfter)
    requires !Guarded(page, next)
    ensures SweepPage(page, start, end, next) == FilterLines(MarkerOfPage(t), Split(page, "\n"))
  {
    var r := FirstShown(page, start, end, SpaceAfter);
    assert r.Some?;
    assert r.value == t;
  }

  /** The guard in plain terms: some line of the page starts with `next` followed by whitespace. */
  lemma GuardMeans(page: string, next: string)
    requires next != []
    ensures Guarded(page, Some(next)) <==>
            exists p: nat :: p <= |page| && AtLineStart(page, p) && OccursAt(page, next, p)
                        && p + |next| < |page| && IsSpace(page[p + |next|])
  {
    var r := Search(page, SectionLine(next), 0);
    if r.Some? {
      var p := r.value.start;
      assert MatchAt(page, SectionLine(next), p).Some?;
      assert AtLineStart(page, p) && OccursAt(page, next, p) && p + |next| < |page| && IsSpace(page[p + |next|]);
    } else {
      forall p: nat | p <= |page| && AtLineStart(page, p) && OccursAt(page, next, p) && p + |next| < |page|
        ensures !IsSpace(page[p + |next|])
      {
        assert MatchAt(page, SectionLine(next), p).None?;
      }
    }
  }

  /** The sweep over all pages, in page order. */
  function Sweep(pages: seq<string>, start: nat, end: nat, next: Option<string>): seq<string> {
    FlatMap((page: string) => SweepPage(page, start, end, next), pages)
  }

  /** The sweep of a document is the sweep of its parts, in order: each page contributes once, on its own. */
  lemma SweepAppend(a: seq<string>, b: seq<string>, start: nat, end: nat, next: Option<string>)
    ensures Sweep(a + b, start, end, next) == Sweep(a, start, end, next) + Sweep(b, start, end, next)
  {
    FlatMapAppend((page: string) => SweepPage(page, start, end, next), a, b);
  }

  /** Every swept line is one the common filter keeps, and holds no newline: it is a line of its page. */
  lemma SweepKept(pages: seq<string>, start: nat, end: nat, next: Option<string>)
    ensures forall l :: l in Sweep(pages, start, end, next) ==> Keep(NoMarker, l) && '\n' !in l
  {
    forall i, l | 0 <= i < |pages| && l in SweepPage(pages[i], start, end, next)
      ensures Keep(NoMarker, l) && '\n' !in l
    {
      SplitPiecesLackChar(pages[i], '\n');
    }
    FlatMapAll((page: string) => SweepPage(page, start, end, next), pages,
               (l: string) => Keep(NoMarker, l) && '\n' !in l);
  }

  /**
   The heading content followed by the swept lines, normalised (lines 227-233): tidy
   text whose visible characters are those of the heading content and then of the
   swept lines.
   */
  function Assemble(searched: string, extra: seq<string>): (r: string)
    ensures Tidy(r)
    ensures Visible(r) == Visible(searched) + FlatMap(Visible, extra)
  {
    if extra == [] then
      Normalize(searched)
    else
      JoinedVisible(searched, extra);
      Normalize(searched + "\n" + Join(extra, "\n"))
  }

  /** Newlines are not visible: the glued text shows the heading content, then each swept line. */
  lemma JoinedVisible(searched: string, extra: seq<string>)
    ensures Visible(searched + "\n" + Join(extra, "\n")) == Visible(searched) + FlatMap(Visible, extra)
  {
    var nl := "\n";
    assert Visible(nl) == [] by {
      VisibleBlank(nl);
    }
    JoinVisible(extra, nl);
    VisibleAppend(searched + nl, Join(extra, nl));
    VisibleAppend(searched, nl);
  }

  // ---------------------------------------------------------------------------
  // The whole method

  /** The lines the sweep adds: the window runs from the section's page to its boundary's page (lines 169-225). */
  function SweptLines(pages: seq<string>, x: string, hit: IndexHit): (lines: seq<string>)
    requires hit.index < |pages|
    ensures forall l :: l in lines ==> Keep(NoMarker, l) && '\n' !in l
  {
    var b := Boundary(Entries(pages[hit.index]), x);
    var next := if b.Some? then Some(b.value.number) else None;
    SweepKept(pages, hit.page, SweepEnd(hit.page, b), next);
    Sweep(pages, hit.page, SweepEnd(hit.page, b), next)
  }

  /** The kept lines after the first heading match on page `i` (lines 145-161). */
  function HeadingLines(pages: seq<string>, i: nat, x: string, n: nat): (lines: seq<string>)
    requires HeadingPage(pages, i, x, n)
    ensures forall l :: l in lines ==> Keep(NoMarker, l) && '\n' !in l
  {
    var m := Search(pages[i], SectionHeading(x), 0).value;
    SplitPiecesLackChar(pages[i][m.end..], '\n');
    FilterLines(NoMarker, Split(pages[i][m.end..], "\n"))
  }

  /** The lines a section is made of, once its heading is found on page `i`. */
  function SectionLines(pages: seq<string>, i: nat, x: string, hit: IndexHit): (lines: seq<string>)
    requires HeadingPage(pages, i, x, hit.page) && hit.index < |pages|
    ensures forall l :: l in lines ==> Keep(NoMarker, l) && '\n' !in l
  {
    HeadingLines(pages, i, x, hit.page) + SweptLines(pages, x, hit)
  }

  /**
   The section text once the heading is found on page `i`. `full_title` is the stripped
   heading match, which is never empty (`HeadingNotBlank`), so `if not full_title` does
   not fire here. The text is tidy, it holds the visible characters of the section's
   lines in order, and it is empty exactly when there are no such lines.
   */
  function HeadingSection(pages: seq<string>, i: nat, x: string, hit: IndexHit): (r: string)
    requires HeadingPage(pages, i, x, hit.page) && hit.index < |pages|
    ensures Tidy(r)
    ensures Visible(r) == FlatMap(Visible, SectionLines(pages, i, x, hit))
    ensures r == [] <==> SectionLines(pages, i, x, hit) == []
    ensures r == Strip(Join(SectionLines(pages, i, x, hit), "\n"))
  {
    var page := pages[i];
    var m := Search(page, SectionHeading(x), 0).value;
    HeadingNotBlank(page, x, m.start);
    assert Strip(page[m.start..m.end]) != [];
    var kept := HeadingLines(pages, i, x, hit.page);
    var extra := SweptLines(pages, x, hit);
    SectionContent(kept, extra);
    SectionText(kept, extra);
    Assemble(HeadingContent(page, m), extra)
  }

  /** Gluing the visible content of the heading content and the swept lines together. */
  lemma SectionContent(kept: seq<string>, extra: seq<string>)
    requires forall l :: l in kept + extra ==> Keep(NoMarker, l)
    ensures var r := Assemble(Join(kept, "\n"), extra);
            && Visible(r) == FlatMap(Visible, kept + extra)
            && (r == [] <==> kept + extra == [])
  {
    var r := Assemble(Join(kept, "\n"), extra);
    VisibleBlank("\n");
    JoinVisible(kept, "\n");
    FlatMapAppend(Visible, kept, extra);
    if kept + extra != [] {
      KeptLinesVisible(NoMarker, kept + extra);
    } else {
      assert kept == [] && extra == [];
      assert r == Normalize([]);
    }
  }

  /**
   The heading content and the swept lines, assembled, are exactly all those lines
   joined with newlines and stripped: no line is blank or holds a newline, so the
   blank-line collapse of line 231 never fires.
   */
  lemma SectionText(kept: seq<string>, extra: seq<string>)
    requires forall l :: l in kept + extra ==> Keep(NoMarker, l) && '\n' !in l
    ensures Assemble(Join(kept, "\n"), extra) == Strip(Join(kept + extra, "\n"))
  {
    var lines := kept + extra;
    forall j | 0 <= j < |lines|
      ensures Strip(lines[j]) != []
    {
      assert lines[j] in lines;
      KeptNotBlank(NoMarker, lines[j]);
    }
    if extra == [] {
      assert lines == kept;
      NormalizeJoinedLines(kept);
    } else if kept == [] {
      assert lines == extra;
      var glued := [""] + extra;
      assert glued[1..] == extra;
      assert Join(kept, "\n") + "\n" + Join(extra, "\n") == Join(glued, "\n");
      assert forall j :: 0 < j < |glued| ==> glued[j] == extra[j - 1];
      NormalizeJoinedLines(glued);
      StripSkipsSpace('\n', Join(extra, "\n"));
    } else {
      JoinAppend(kept, extra, "\n");
      NormalizeJoinedLines(lines);
    }
  }

  /** The section found in the index: its text, or the message when no page shows its heading (lines 129-234). */
  function IndexedSection(pages: seq<string>, x: string, hit: IndexHit): (r: string)
    requires hit.index < |pages|
    ensures FindHeading(pages, x, hit.page).None? ==> r == NoContent(hit.page)
    ensures FindHeading(pages, x, hit.page).Some? ==>
              r == HeadingSection(pages, FindHeading(pages, x, hit.page).value, x, hit)
  {
    match FindHeading(pages, x, hit.page)
    case None => NoContent(hit.page)
    case Some(i) => HeadingSection(pages, i, x, hit)
  }

  /** The section missing from the index: the range between its neighbours, or the message when that is empty (lines 112-126). */
  function Fallback(fullText: string, x: string): (r: Outcome)
    ensures r.RaisesValueError? <==> Neighbours(x).Failure?
    ensures r.Returns? ==> r.text == NotInIndex(x) || (r.text != [] && Tidy(r.text))
    ensures r.Returns? && r.text != NotInIndex(x) ==>
              r.text == ExtractRange(fullText, Neighbours(x).value.0, Neighbours(x).value.1)
    ensures Neighbours(x).Success? && ExtractRange(fullText, Neighbours(x).value.0, Neighbours(x).value.1) != [] ==>
              r == Returns(ExtractRange(fullText, Neighbours(x).value.0, Neighbours(x).value.1))
    ensures Neighbours(x).Success? && ExtractRange(fullText, Neighbours(x).value.0, Neighbours(x).value.1) == [] ==>
              r == Returns(NotInIndex(x))
  {
    match Neighbours(x)
    case Failure(_) => RaisesValueError
    case Success((prev, next)) =>
      var fallback := ExtractRange(fullText, prev, next);
      if fallback != [] then Returns(fallback) else Returns(NotInIndex(x))
  }

  /** `_section_extract(full_text, x)`. */
  function Extract(fullText: string, x: string): (r: Outcome)
    ensures r.RaisesValueError? <==> Lookup(SplitPages(fullText), x).None? && Neighbours(x).Failure?
    ensures Lookup(SplitPages(fullText), x).None? ==> r == Fallback(fullText, x)
    ensures Lookup(SplitPages(fullText), x).Some? ==>
              r == Returns(IndexedSection(SplitPages(fullText), x, Lookup(SplitPages(fullText), x).value))
  {
    var pages := SplitPages(fullText);
    match Lookup(pages, x)
    case None => Fallback(fullText, x)
    case Some(hit) => Returns(IndexedSection(pages, x, hit))
  }
}
