/**
 The four fixed regular expressions of the extractor, matched the way Python's `re`
 module matches them: at each start index the greedy quantifiers try their longest
 span first and back off one character at a time, and `re.search` / `re.findall`
 take the leftmost start.

 - `SectionEntry(x)`:   `x\s+([^\n]+)\s*(\d+)`        (x escaped, so literal)
 - `AnyEntry`:          `(\d+(?:\.\d+)*)\s+([^\n]+)\s*(\d+)`
 - `SectionHeading(x)`: `^x\s+([A-Za-zÀ-ÿ].{10,}.*?)$` with `re.MULTILINE`
 - `SectionLine(x)`:    `^x\s+` with `re.MULTILINE`

 The two entry patterns share the tail `\s+([^\n]+)\s*(\d+)`, whose backtracking
 is modelled step by step (`TailFrom`, `TitleFrom`, `PageFrom`) and then
 characterised declaratively (`MatchTail`).
 */
module Patterns {
  import opened Wrappers
  import opened Chars
  import opened Text
  import opened Numerals
  import opened Scan

  datatype Pattern =
    | SectionEntry(section: string)
    | AnyEntry
    | SectionHeading(section: string)
    | SectionLine(section: string)

  /** A capture group's extent `s[lo..hi]`. */
  datatype Span = Span(lo: nat, hi: nat)

  /** One match: the whole match `s[start..end]` and its numbered groups, in order. */
  datatype Match = Match(start: nat, end: nat, groups: seq<Span>)

  /** The text of a capture group. */
  function GroupText(s: string, g: Span): string
    requires g.lo <= g.hi <= |s|
  {
    s[g.lo..g.hi]
  }

  // ---------------------------------------------------------------------------
  // The shared tail `\s+([^\n]+)\s*(\d+)`

  /** Capture positions of the tail: title group `s[titleLo..titleHi]`, page group `s[pageLo..pageHi]`. */
  datatype Tail = Tail(titleLo: nat, titleHi: nat, pageLo: nat, pageHi: nat)

  /** `\s+` can run from `q` up to `a`. */
  ghost predicate LeadAt(s: string, q: nat, a: nat) {
    q < a <= |s| && AllIn(s, q, a, Space)
  }

  /** `([^\n]+)` can run from `a` up to `h`. */
  ghost predicate TitleAt(s: string, a: nat, h: nat) {
    a < h <= |s| && AllIn(s, a, h, NonNewline)
  }

  /** `\s*` can run from `h` up to `c`, and `(\d+)` can start at `c`. */
  ghost predicate PageAt(s: string, h: nat, c: nat) {
    h <= c < |s| && AllIn(s, h, c, Space) && IsAsciiDigit(s[c])
  }

  /** `t` is a way for the tail to match from `q`; `(\d+)`, the last item, takes every digit there is. */
  ghost predicate TailAt(s: string, q: nat, t: Tail) {
    && LeadAt(s, q, t.titleLo)
    && TitleAt(s, t.titleLo, t.titleHi)
    && PageAt(s, t.titleHi, t.pageLo)
    && t.pageHi == t.pageLo + Run(s, t.pageLo, Digit)
  }

  /**
   Backtracking preference between two ways of matching the tail: `u` is tried no
   later than `t` when its `\s+` ends later, or ends at the same place and its title
   ends later, or both agree and its `\s*` ends later.
   */
  predicate RankLe(t: Tail, u: Tail) {
    || t.titleLo < u.titleLo
    || (t.titleLo == u.titleLo && t.titleHi < u.titleHi)
    || (t.titleLo == u.titleLo && t.titleHi == u.titleHi && t.pageLo <= u.pageLo)
  }

  /** A page group starting after `h` lies within the whitespace run at `h`. */
  lemma PageWithinRun(s: string, h: nat)
    requires h <= |s|
    ensures forall c: nat :: PageAt(s, h, c) ==> c <= h + Run(s, h, Space)
  {
    forall c: nat | PageAt(s, h, c)
      ensures c <= h + Run(s, h, Space)
    {
      RunBounds(s, h, Space, c);
    }
  }

  /** `\s*(\d+)` from `h`: `\s*` tries `g`, `g - 1`, …, `0` characters; the first that leaves a digit wins. */
  function PageFrom(s: string, h: nat, g: nat): (c: Option<nat>)
    requires h + g <= |s| && AllIn(s, h, h + g, Space)
    ensures c.Some? ==> PageAt(s, h, c.value) && c.value <= h + g
    ensures c.Some? ==> forall c': nat :: c.value < c' <= h + g ==> !PageAt(s, h, c')
    ensures c.None? ==> forall c': nat :: c' <= h + g ==> !PageAt(s, h, c')
    decreases g
  {
    if h + g < |s| && IsAsciiDigit(s[h + g]) then Some(h + g)
    else if g == 0 then None
    else PageFrom(s, h, g - 1)
  }

  /** `([^\n]+)\s*(\d+)` from `a`: the title tries `j`, `j - 1`, …, `1` characters. */
  function TitleFrom(s: string, a: nat, j: nat): (r: Option<(nat, nat)>)
    requires a + j <= |s| && AllIn(s, a, a + j, NonNewline)
    ensures r.Some? ==> TitleAt(s, a, r.value.0) && r.value.0 <= a + j && PageAt(s, r.value.0, r.value.1)
    ensures r.Some? ==> forall c: nat :: r.value.1 < c ==> !PageAt(s, r.value.0, c)
    ensures r.Some? ==> forall h: nat, c: nat :: r.value.0 < h <= a + j ==> !PageAt(s, h, c)
    ensures r.None? ==> forall h: nat, c: nat :: a < h <= a + j ==> !PageAt(s, h, c)
    decreases j
  {
    if j == 0 then None
    else
      var h := a + j;
      PageWithinRun(s, h);
      match PageFrom(s, h, Run(s, h, Space))
      case Some(c) => Some((h, c))
      case None => TitleFrom(s, a, j - 1)
  }

  /** The whole tail from `q`: `\s+` tries `k`, `k - 1`, …, `1` characters. */
  function TailFrom(s: string, q: nat, k: nat): (r: Option<Tail>)
    requires q + k <= |s| && AllIn(s, q, q + k, Space)
    ensures r.Some? ==> TailAt(s, q, r.value) && r.value.titleLo <= q + k
    ensures r.Some? ==> forall t :: TailAt(s, q, t) && t.titleLo <= q + k ==> RankLe(t, r.value)
    ensures r.None? ==> forall t :: TailAt(s, q, t) ==> q + k < t.titleLo
    decreases k
  {
    if k == 0 then None
    else
      var a := q + k;
      TitlesWithinRun(s, a);
      match TitleFrom(s, a, Run(s, a, NonNewline))
      case Some((h, c)) => Some(Tail(a, h, c, c + Run(s, c, Digit)))
      case None => TailFrom(s, q, k - 1)
  }

  /** A title group starting at `a` lies within the line. */
  lemma TitlesWithinRun(s: string, a: nat)
    requires a <= |s|
    ensures forall h: nat :: TitleAt(s, a, h) ==> h <= a + Run(s, a, NonNewline)
  {
    forall h: nat | TitleAt(s, a, h)
      ensures h <= a + Run(s, a, NonNewline)
    {
      RunBounds(s, a, NonNewline, h);
    }
  }

  /**
   The tail as Python matches it from `q`: it matches exactly when some way of matching
   it exists, and then it takes the most preferred way.
   */
  function MatchTail(s: string, q: nat): (r: Option<Tail>)
    requires q <= |s|
    ensures r.Some? ==> TailAt(s, q, r.value)
    ensures r.Some? ==> forall t :: TailAt(s, q, t) ==> RankLe(t, r.value)
    ensures r.None? ==> forall t :: !TailAt(s, q, t)
  {
    LeadsWithinRun(s, q);
    TailFrom(s, q, Run(s, q, Space))
  }

  lemma LeadsWithinRun(s: string, q: nat)
    requires q <= |s|
    ensures forall t :: TailAt(s, q, t) ==> t.titleLo <= q + Run(s, q, Space)
  {
    forall t | TailAt(s, q, t)
      ensures t.titleLo <= q + Run(s, q, Space)
    {
      RunBounds(s, q, Space, t.titleLo);
    }
  }

  // ---------------------------------------------------------------------------
  // The dotted section number `\d+(?:\.\d+)*`

  /** `(?:\.\d+)*` from `e`, greedy: as many `.digits` groups as follow. */
  function DottedEnd(s: string, e: nat): (r: nat)
    requires e <= |s|
    ensures e <= r <= |s|
    ensures forall k :: e <= k < r ==> IsAsciiDigit(s[k]) || s[k] == '.'
    ensures r > e ==> IsAsciiDigit(s[r - 1])
    ensures r == |s| || !(s[r] == '.' && r + 1 < |s| && IsAsciiDigit(s[r + 1]))
    decreases |s| - e
  {
    if e < |s| && s[e] == '.' && Run(s, e + 1, Digit) > 0 then
      assert forall k :: e + 1 <= k < e + 1 + Run(s, e + 1, Digit) ==> InClass(s[k], Digit);
      DottedEnd(s, e + 1 + Run(s, e + 1, Digit))
    else e
  }

  /**
   Backing off inside the number never helps: every shorter end of `\d+(?:\.\d+)*`
   is followed by a digit or a dot, where the `\s+` after the number cannot start.
   */
  lemma NoBacktrackIntoNumber(s: string, p: nat, e: nat)
    requires p < |s| && IsAsciiDigit(s[p]) && e == DottedEnd(s, p + Run(s, p, Digit))
    ensures forall e': nat :: p < e' < e ==> MatchTail(s, e') == None
  {
    forall e': nat | p < e' < e
      ensures MatchTail(s, e') == None
    {
      assert e' < p + Run(s, p, Digit) ==> InClass(s[e'], Digit);
      assert IsAsciiDigit(s[e']) || s[e'] == '.';
      assert Run(s, e', Space) == 0;
    }
  }

  // ---------------------------------------------------------------------------
  // Matching at one index

  /** The minimum length of `.{10,}` in the heading pattern. */
  const MinTitleRest: nat := 10

  /** A heading title can start at `a`: a letter of `[A-Za-zÀ-ÿ]` with at least ten more characters on its line. */
  predicate TitleStart(s: string, a: nat) {
    a < |s| && IsTitleLetter(s[a]) && Run(s, a + 1, NonNewline) >= MinTitleRest
  }

  /** `\s+` can run from `q` up to `a`, and a heading title can start there. */
  ghost predicate HeadingLead(s: string, q: nat, a: nat) {
    q < a <= |s| && AllIn(s, q, a, Space) && TitleStart(s, a)
  }

  /** Some way of matching `\s+` from `q` reaches a title start. */
  ghost predicate SomeHeadingLead(s: string, q: nat) {
    exists a: nat :: HeadingLead(s, q, a)
  }

  /** `lo` is the only title start that `\s+` from `q` can reach. */
  ghost predicate OnlyHeadingLead(s: string, q: nat, lo: nat) {
    forall a: nat :: HeadingLead(s, q, a) ==> a == lo
  }

  /**
   `\s+([A-Za-zÀ-ÿ].{10,}.*?)$` from `q`: `\s+` tries `k`, `k - 1`, …, `1` characters.
   Once the letter is placed, `.{10,}.*?$` succeeds exactly when at least ten
   non-newline characters follow it, and the match then always ends at the end of
   that line, however the line is shared between `.{10,}` and `.*?`.
   */
  function HeadingFrom(s: string, q: nat, k: nat): (r: Option<Span>)
    requires q + k <= |s|
    ensures r.Some? ==> q < r.value.lo <= q + k && TitleStart(s, r.value.lo)
    ensures r.Some? ==> forall a :: r.value.lo < a <= q + k ==> !TitleStart(s, a)
    ensures r.None? ==> forall a :: q < a <= q + k ==> !TitleStart(s, a)
    ensures r.Some? ==> r.value.lo + 1 + MinTitleRest <= r.value.hi <= |s|
    ensures r.Some? ==> AllIn(s, r.value.lo + 1, r.value.hi, NonNewline)
    ensures r.Some? ==> r.value.hi == |s| || s[r.value.hi] == '\n'
    decreases k
  {
    if k == 0 then None
    else
      var a := q + k;
      if TitleStart(s, a) then
        Some(Span(a, a + 1 + Run(s, a + 1, NonNewline)))
      else HeadingFrom(s, q, k - 1)
  }

  /** `^` in multi-line mode: the start of the text or just after a newline. */
  predicate AtLineStart(s: string, p: nat)
    requires p <= |s|
  {
    p == 0 || s[p - 1] == '\n'
  }

  /** Every match is non-empty and its groups lie inside it. */
  ghost predicate Wellformed(s: string, pat: Pattern, m: Match) {
    && m.start < m.end <= |s|
    && (forall g :: g in m.groups ==> m.start <= g.lo <= g.hi <= m.end)
    && (pat.SectionEntry? ==> |m.groups| == 2)
    && (pat.AnyEntry? ==> |m.groups| == 3)
    && (pat.SectionHeading? ==> |m.groups| == 1)
    && (pat.SectionLine? ==> |m.groups| == 0)
  }

  /** The page group (the last group) of an entry match: one or more digits. */
  ghost predicate PageGroupIsNumber(s: string, m: Match) {
    && |m.groups| >= 1
    && var g := m.groups[|m.groups| - 1];
    && g.lo < g.hi <= |s| && AllDigits(s[g.lo..g.hi])
  }

  /** The match of `pat` starting exactly at index `p`, if any. */
  function MatchAt(s: string, pat: Pattern, p: nat): (r: Option<Match>)
    requires p <= |s|
    ensures r.Some? ==> r.value.start == p && Wellformed(s, pat, r.value)
    ensures r.Some? && (pat.SectionEntry? || pat.AnyEntry?) ==> PageGroupIsNumber(s, r.value)
    ensures r.Some? && (pat.SectionHeading? || pat.SectionLine?) ==> AtLineStart(s, p)
    ensures pat.SectionHeading? ==>
              (r.Some? <==> AtLineStart(s, p) && OccursAt(s, pat.section, p)
                            && SomeHeadingLead(s, p + |pat.section|))
  {
    match pat
    case SectionEntry(x) => EntryAt(s, x, p)
    case AnyEntry => AnyEntryAt(s, p)
    case SectionHeading(x) => HeadingAt(s, x, p)
    case SectionLine(x) => LineAt(s, x, p)
  }

  function EntryAt(s: string, x: string, p: nat): (r: Option<Match>)
    requires p <= |s|
    ensures r.Some? ==> r.value.start == p && Wellformed(s, SectionEntry(x), r.value)
    ensures r.Some? ==> PageGroupIsNumber(s, r.value)
  {
    if OccursAt(s, x, p) then
      match MatchTail(s, p + |x|)
      case None => None
      case Some(t) =>
        TailDigits(s, t);
        Some(Match(p, t.pageHi, [Span(t.titleLo, t.titleHi), Span(t.pageLo, t.pageHi)]))
    else None
  }

  function AnyEntryAt(s: string, p: nat): (r: Option<Match>)
    requires p <= |s|
    ensures r.Some? ==> r.value.start == p && Wellformed(s, AnyEntry, r.value)
    ensures r.Some? ==> PageGroupIsNumber(s, r.value)
  {
    if p < |s| && IsAsciiDigit(s[p]) then
      var e := DottedEnd(s, p + Run(s, p, Digit));
      match MatchTail(s, e)
      case None => None
      case Some(t) =>
        TailDigits(s, t);
        Some(Match(p, t.pageHi, [Span(p, e), Span(t.titleLo, t.titleHi), Span(t.pageLo, t.pageHi)]))
    else None
  }

  /**
   The heading pattern matches at `p` exactly when `p` starts a line holding `x`, and
   whitespace after `x` leads to a title start; there is then only one such title
   start, and the group runs from it to the end of its line.
   */
  function HeadingAt(s: string, x: string, p: nat): (r: Option<Match>)
    requires p <= |s|
    ensures r.Some? ==> r.value.start == p && Wellformed(s, SectionHeading(x), r.value)
    ensures r.Some? <==> AtLineStart(s, p) && OccursAt(s, x, p) && SomeHeadingLead(s, p + |x|)
    ensures r.Some? ==> OnlyHeadingLead(s, p + |x|, r.value.groups[0].lo)
    ensures r.Some? ==> r.value.end == r.value.groups[0].hi && (r.value.end == |s| || s[r.value.end] == '\n')
  {
    if AtLineStart(s, p) && OccursAt(s, x, p) then
      var q := p + |x|;
      var k := Run(s, q, Space);
      match HeadingFrom(s, q, k)
      case None =>
        forall a: nat | HeadingLead(s, q, a)
          ensures false
        {
          RunBounds(s, q, Space, a);
        }
        None
      case Some(g) =>
        HeadingLeadUnique(s, q, g.lo);
        Some(Match(p, g.hi, [g]))
    else None
  }

  /** A title letter is not whitespace, so at most one title start follows a whitespace run. */
  lemma HeadingLeadUnique(s: string, q: nat, lo: nat)
    requires q <= |s| && q < lo <= q + Run(s, q, Space) && TitleStart(s, lo)
    ensures HeadingLead(s, q, lo)
    ensures forall a: nat :: HeadingLead(s, q, a) ==> a == lo
  {
    forall a: nat | HeadingLead(s, q, a)
      ensures a == lo
    {
      if a < lo {
        assert InClass(s[a], Space);
        TitleLetterIsNotSpace(s[a]);
      } else if a > lo {
        assert InClass(s[lo], Space);
        TitleLetterIsNotSpace(s[lo]);
      }
    }
  }

  function LineAt(s: string, x: string, p: nat): (r: Option<Match>)
    requires p <= |s|
    ensures r.Some? ==> r.value.start == p && Wellformed(s, SectionLine(x), r.value)
    ensures r.Some? ==> AtLineStart(s, p)
  {
    var q := p + |x|;
    if AtLineStart(s, p) && OccursAt(s, x, p) && q < |s| && IsSpace(s[q]) then
      Some(Match(p, q + Run(s, q, Space), []))
    else None
  }

  /** The page group of a tail is a maximal run of digits. */
  lemma TailDigits(s: string, t: Tail)
    requires t.pageLo < |s| && IsAsciiDigit(s[t.pageLo]) && t.pageHi == t.pageLo + Run(s, t.pageLo, Digit)
    ensures t.pageLo < t.pageHi <= |s| && AllDigits(s[t.pageLo..t.pageHi])
  {
    forall k | 0 <= k < t.pageHi - t.pageLo
      ensures IsAsciiDigit(s[t.pageLo..t.pageHi][k])
    {
      assert InClass(s[t.pageLo + k], Digit);
    }
  }

  // ---------------------------------------------------------------------------
  // re.search and re.findall

  /** `re.search` from index `p`: the match at the smallest start index. */
  function Search(s: string, pat: Pattern, p: nat): (r: Option<Match>)
    requires p <= |s|
    ensures r.Some? ==> p <= r.value.start <= |s| && MatchAt(s, pat, r.value.start) == r
    ensures r.Some? ==> forall i :: p <= i < r.value.start ==> MatchAt(s, pat, i).None?
    ensures r.None? ==> forall i :: p <= i <= |s| ==> MatchAt(s, pat, i).None?
  {
    var found := (i: nat) => i <= |s| && MatchAt(s, pat, i).Some?;
    assert forall i :: p <= i <= |s| ==> (found(i) <==> MatchAt(s, pat, i).Some?);
    match FirstIndex(found, p, |s|)
    case None => None
    case Some(i) => MatchAt(s, pat, i)
  }

  /** No match of `pat` starts at any index of `lo..hi` (excluded) inside the text. */
  ghost predicate NoMatchIn(s: string, pat: Pattern, lo: nat, hi: nat) {
    forall i: nat :: lo <= i < hi && i <= |s| ==> MatchAt(s, pat, i).None?
  }

  /**
   `ms` leaves no match of `pat` out, from index `p` on: none starts before the first,
   between the end of one and the start of the next, or after the end of the last.
   */
  ghost predicate Exhaustive(s: string, pat: Pattern, p: nat, ms: seq<Match>) {
    && (|ms| == 0 ==> NoMatchIn(s, pat, p, |s| + 1))
    && (|ms| > 0 ==> NoMatchIn(s, pat, p, ms[0].start) && NoMatchIn(s, pat, ms[|ms| - 1].end, |s| + 1))
    && (forall k :: 0 < k < |ms| ==> NoMatchIn(s, pat, ms[k - 1].end, ms[k].start))
  }

  /** A match with nothing missed before it, followed by an exhaustive list from its end. */
  lemma ExhaustiveCons(s: string, pat: Pattern, p: nat, m: Match, rest: seq<Match>)
    requires p <= m.start && NoMatchIn(s, pat, p, m.start) && Exhaustive(s, pat, m.end, rest)
    ensures Exhaustive(s, pat, p, [m] + rest)
  {
    var ms := [m] + rest;
    assert ms[0] == m;
    assert forall k :: 0 < k < |ms| ==> ms[k] == rest[k - 1];
  }

  /**
   `re.findall` from index `p`: each search resumes where the previous match ended.
   The matches are genuine, in order and disjoint, the first is the one `re.search`
   finds, and no match is left out.
   */
  function FindAll(s: string, pat: Pattern, p: nat): (ms: seq<Match>)
    requires p <= |s|
    ensures forall m :: m in ms ==> p <= m.start <= |s| && MatchAt(s, pat, m.start) == Some(m)
    ensures forall k :: 0 < k < |ms| ==> ms[k - 1].end <= ms[k].start
    ensures |ms| == 0 <==> Search(s, pat, p).None?
    ensures |ms| > 0 ==> Search(s, pat, p) == Some(ms[0])
    ensures Exhaustive(s, pat, p, ms)
    decreases |s| - p
  {
    match Search(s, pat, p)
    case None => []
    case Some(m) =>
      assert m.start < m.end <= |s|;
      var rest := FindAll(s, pat, m.end);
      ExhaustiveCons(s, pat, p, m, rest);
      var ms := [m] + rest;
      assert forall k :: 0 < k < |ms| ==> ms[k] == rest[k - 1];
      assert |rest| > 0 ==> m.end <= rest[0].start by {
        if |rest| > 0 {
          assert rest[0] in rest;
        }
      }
      ms
  }

  // ---------------------------------------------------------------------------
  // What the backtracking does to index lines

  /** The tail on a title line ending in a digit, at the end of the text: the page group is that one digit. */
  lemma TailAtTextEnd(s: string, q: nat)
    requires q + 2 < |s| && IsSpace(s[q]) && !IsSpace(s[q + 1])
    requires forall k :: q + 1 <= k < |s| ==> s[k] != '\n'
    requires IsAsciiDigit(s[|s| - 1])
    ensures MatchTail(s, q) == Some(Tail(q + 1, |s| - 1, |s| - 1, |s|))
  {
    var best := Tail(q + 1, |s| - 1, |s| - 1, |s|);
    assert Run(s, |s| - 1, Digit) == 1;
    assert TailAt(s, q, best);
    var t := MatchTail(s, q).value;
    RunUnique(s, q, Space, 1);
    RunBounds(s, q, Space, t.titleLo);
  }

  /**
   The tail on a title line when the first non-whitespace character after the line is a
   digit: `\s*` crosses the newline, and any blank lines or indentation after it, and the
   page group is the digits found there.
   */
  lemma TailAcrossNewline(s: string, q: nat, h: nat, d: nat)
    requires q + 1 < h < d < |s|
    requires IsSpace(s[q]) && !IsSpace(s[q + 1])
    requires forall k :: q + 1 <= k < h ==> s[k] != '\n'
    requires s[h] == '\n' && AllIn(s, h, d, Space) && IsAsciiDigit(s[d])
    ensures MatchTail(s, q) == Some(Tail(q + 1, h, d, d + Run(s, d, Digit)))
  {
    var best := Tail(q + 1, h, d, d + Run(s, d, Digit));
    assert TailAt(s, q, best) by {
      assert LeadAt(s, q, q + 1);
      assert TitleAt(s, q + 1, h);
      assert PageAt(s, h, d);
    }
    var r := MatchTail(s, q);
    AcrossNewlineBest(s, q, h, d, r.value);
  }

  lemma AcrossNewlineBest(s: string, q: nat, h: nat, d: nat, t: Tail)
    requires q + 1 < h < d < |s|
    requires IsSpace(s[q]) && !IsSpace(s[q + 1])
    requires forall k :: q + 1 <= k < h ==> s[k] != '\n'
    requires s[h] == '\n' && AllIn(s, h, d, Space) && IsAsciiDigit(s[d])
    requires TailAt(s, q, t) && RankLe(Tail(q + 1, h, d, d + Run(s, d, Digit)), t)
    ensures t == Tail(q + 1, h, d, d + Run(s, d, Digit))
  {
    assert t.titleLo == q + 1 by {
      RunUnique(s, q, Space, 1);
      RunBounds(s, q, Space, t.titleLo);
    }
    assert t.titleHi == h by {
      RunUnique(s, q + 1, NonNewline, h - q - 1);
      RunBounds(s, q + 1, NonNewline, t.titleHi);
    }
    assert t.pageLo == d by {
      DigitIsNotSpace(s[d]);
      RunUnique(s, h, Space, d - h);
      RunBounds(s, h, Space, t.pageLo);
    }
  }

  /**
   The tail on a title line ending in a digit when the first non-whitespace character
   after the line is not a digit, or there is none: `\s*` finds no digit past the line,
   the greedy title gives back one character, and the page group is the line's last
   digit alone.
   */
  lemma TailLastDigit(s: string, q: nat, h: nat)
    requires q + 2 < h <= |s| && IsSpace(s[q]) && !IsSpace(s[q + 1])
    requires forall k :: q + 1 <= k < h ==> s[k] != '\n'
    requires h == |s| || s[h] == '\n'
    requires h + Run(s, h, Space) == |s| || !IsAsciiDigit(s[h + Run(s, h, Space)])
    requires IsAsciiDigit(s[h - 1])
    ensures MatchTail(s, q) == Some(Tail(q + 1, h - 1, h - 1, h))
  {
    var best := Tail(q + 1, h - 1, h - 1, h);
    assert Run(s, h - 1, Digit) == 1 by {
      RunUnique(s, h - 1, Digit, 1);
    }
    assert TailAt(s, q, best) by {
      assert LeadAt(s, q, q + 1);
      assert TitleAt(s, q + 1, h - 1);
      assert PageAt(s, h - 1, h - 1);
    }
    LastDigitBest(s, q, h, MatchTail(s, q).value);
  }

  lemma LastDigitBest(s: string, q: nat, h: nat, t: Tail)
    requires q + 2 < h <= |s| && IsSpace(s[q]) && !IsSpace(s[q + 1])
    requires forall k :: q + 1 <= k < h ==> s[k] != '\n'
    requires h == |s| || s[h] == '\n'
    requires h + Run(s, h, Space) == |s| || !IsAsciiDigit(s[h + Run(s, h, Space)])
    requires IsAsciiDigit(s[h - 1]) && Run(s, h - 1, Digit) == 1
    requires TailAt(s, q, t) && RankLe(Tail(q + 1, h - 1, h - 1, h), t)
    ensures t == Tail(q + 1, h - 1, h - 1, h)
  {
    assert t.titleLo == q + 1 by {
      RunUnique(s, q, Space, 1);
      RunBounds(s, q, Space, t.titleLo);
    }
    assert t.titleHi <= h by {
      RunUnique(s, q + 1, NonNewline, h - q - 1);
      RunBounds(s, q + 1, NonNewline, t.titleHi);
    }
    assert t.titleHi != h by {
      if t.titleHi == h {
        RunBounds(s, h, Space, t.pageLo);
        if t.pageLo < h + Run(s, h, Space) {
          assert InClass(s[t.pageLo], Space);
          DigitIsNotSpace(s[t.pageLo]);
        }
      }
    }
    assert t.pageLo == h - 1 by {
      DigitIsNotSpace(s[h - 1]);
      assert !InClass(s[h - 1], Space);
    }
  }

  /**
   On a last index line `<x> <title><digits>` the greedy title keeps every digit but
   the last one, so the page group is the final digit alone: `7.1 Capital 12`
   yields page 2.
   */
  lemma LastDigitOnly(x: string, title: string, digits: string)
    requires |title| >= 1 && !IsSpace(title[0]) && '\n' !in title
    requires |digits| >= 2 && AllDigits(digits)
    ensures var s := x + " " + title + digits;
            EntryAt(s, x, 0) == Some(Match(0, |s|, [Span(|x| + 1, |s| - 1), Span(|s| - 1, |s|)]))
  {
    var s := x + " " + title + digits;
    var q := |x|;
    assert s[..q] == x;
    assert s[q] == ' ' && s[q + 1] == title[0];
    assert s[|s| - 1] == digits[|digits| - 1];
    forall k | q + 1 <= k < |s|
      ensures s[k] != '\n'
    {
      if k < q + 1 + |title| {
        assert s[k] == title[k - q - 1];
      } else {
        assert s[k] == digits[k - q - 1 - |title|];
      }
    }
    TailAtTextEnd(s, q);
  }

  /**
   When the next line opens with a digit, `\s*` crosses the newline and the page group
   becomes the digits that open the next line, whatever the title line ends with: the
   greedy title takes the whole line, its own page number included.
   */
  lemma NewlineSwallowed(x: string, title: string, rest: string)
    requires |title| >= 1 && !IsSpace(title[0]) && '\n' !in title
    requires |rest| >= 1 && IsAsciiDigit(rest[0])
    ensures var s := x + " " + title + "\n" + rest;
            var h := |x| + 1 + |title|;
            var n := Run(s, h + 1, Digit);
            MatchTail(s, |x|) == Some(Tail(|x| + 1, h, h + 1, h + 1 + n))
            && n >= 1 && s[h + 1] == rest[0]
  {
    NewlineSwallowedFront(x, title, rest);
    TailAcrossNewline(x + " " + title + "\n" + rest, |x|, |x| + 1 + |title|, |x| + 2 + |title|);
  }

  /**
   An index line that carries its page number, followed by the next entry: the title is
   the whole line, `Capital 12`, and the page group is the `7` that opens `7.2`, so
   section `7.1` is read as being on page 7.
   */
  lemma NumberedLineReadsNext()
    ensures var s := "7.1" + " " + "Capital 12" + "\n" + "7.2 Risk 15\n";
            MatchTail(s, 3) == Some(Tail(4, 14, 15, 16))
  {
    ExampleParts("7.1", "Capital 12", "7.2 Risk 15\n");
    NewlineSwallowed("7.1", "Capital 12", "7.2 Risk 15\n");
  }

  /** The shape of the example: a one-line title, and a next line that opens with one digit. */
  lemma ExampleParts(x: string, title: string, rest: string)
    requires x == "7.1" && title == "Capital 12" && rest == "7.2 Risk 15\n"
    ensures |title| >= 1 && !IsSpace(title[0]) && '\n' !in title
    ensures |rest| >= 1 && IsAsciiDigit(rest[0])
    ensures Run(x + " " + title + "\n" + rest, 15, Digit) == 1
  {
    assert forall k :: 0 <= k < |title| ==> title[k] != '\n';
    var s := x + " " + title + "\n" + rest;
    assert s[15] == '7' && s[16] == '.';
  }

  /** The shape facts about `<x> <title>\n<rest>` that the tail matcher needs. */
  lemma NewlineSwallowedFront(x: string, title: string, rest: string)
    requires |title| >= 1 && !IsSpace(title[0]) && '\n' !in title
    requires |rest| >= 1 && IsAsciiDigit(rest[0])
    ensures var s := x + " " + title + "\n" + rest;
            var q := |x|;
            var h := q + 1 + |title|;
            && q + 1 < h && h + 1 < |s| && OccursAt(s, x, 0)
            && IsSpace(s[q]) && !IsSpace(s[q + 1])
            && (forall k :: q + 1 <= k < h ==> s[k] != '\n')
            && s[h] == '\n' && IsAsciiDigit(s[h + 1])
  {
    var s := x + " " + title + "\n" + rest;
    var q := |x|;
    var h := q + 1 + |title|;
    assert s[..q] == x;
    assert s[q] == ' ' && s[q + 1] == title[0];
    assert s[h] == '\n' && s[h + 1] == rest[0];
    forall k | q + 1 <= k < h
      ensures s[k] != '\n'
    {
      assert s[k] == title[k - q - 1];
    }
  }

  /** A heading match always holds a letter, so its stripped text (`full_title`) is never empty. */
  lemma HeadingNotBlank(s: string, x: string, p: nat)
    requires p <= |s| && HeadingAt(s, x, p).Some?
    ensures var m := HeadingAt(s, x, p).value; Strip(s[m.start..m.end]) != []
  {
    var m := HeadingAt(s, x, p).value;
    var g := m.groups[0];
    TitleLetterIsNotSpace(s[g.lo]);
    assert s[m.start..m.end][g.lo - m.start] == s[g.lo];
    StripEmpty(s[m.start..m.end]);
  }
}
