/**
 The noise-line filter the extractor applies to every page it takes lines from
 (src/app/services/service.py:76-87, 151-161, 210-221). The three copies differ only
 in the page-marker text they also reject.
 */
module NoiseFilter {
  import opened Chars
  import opened Text
  import opened Numerals
  import opened Pages
  import opened Scan

  /** The footer label of a PDF page. */
  const FooterLabel: string := "P\U{C1}GINA:"
  /** The running header of the reference form. */
  const FormLabel: string := "Formul\U{E1}rio de Refer\U{EA}ncia"
  /** The version line of the reference form. */
  const VersionLabel: string := "Vers\U{E3}o"
  /** The start of a page marker with a single space, as the first and last filter spell it. */
  const MarkerStem: string := "--- P\U{C1}GINA"

  /**
   Which page-marker text a filter rejects on top of the common tests:
   the range extraction rejects any `--- PÁGINA` (line 85), the heading page rejects none
   (lines 153-160), and the page sweep rejects `--- PÁGINA <t>` for the page `t` it is on
   (line 219).
   */
  datatype MarkerRule = NoMarker | AnyMarker | MarkerOfPage(page: nat)

  function MarkerToken(rule: MarkerRule): (tok: string)
    requires !rule.NoMarker?
    ensures |tok| >= |MarkerStem| && tok[..|MarkerStem|] == MarkerStem
  {
    match rule
    case AnyMarker => MarkerStem
    case MarkerOfPage(t) => MarkerStem + " " + NatToString(t)
  }

  /** One of the tests the filter chains with `and`; each looks at the stripped line. */
  datatype Test = NotBlank | Lacks(word: string) | NotAllDigits | LongerThan(n: nat)

  predicate Passes(t: Test, c: string) {
    match t
    case NotBlank => |c| > 0
    case Lacks(word) => !Contains(c, word)
    case NotAllDigits => !IsDigitString(c)
    case LongerThan(n) => |c| > n
  }

  predicate PassesAll(ts: seq<Test>, c: string) {
    |ts| == 0 || (Passes(ts[0], c) && PassesAll(ts[1..], c))
  }

  /** The chain of tests of one filter, in the order the source writes them. */
  function Tests(rule: MarkerRule): seq<Test> {
    [NotBlank, Lacks(FooterLabel), Lacks(FormLabel), Lacks(VersionLabel), NotAllDigits, LongerThan(2)]
    + (if rule.NoMarker? then [] else [Lacks(MarkerToken(rule))])
  }

  /** A line is kept when its stripped form passes every test. */
  predicate Keep(rule: MarkerRule, line: string) {
    PassesAll(Tests(rule), Strip(line))
  }

  /** Passing a chain of tests is passing each of them. */
  lemma {:induction false} PassesAllEach(ts: seq<Test>, c: string)
    ensures PassesAll(ts, c) <==> forall k :: 0 <= k < |ts| ==> Passes(ts[k], c)
    decreases |ts|
  {
    if |ts| > 0 {
      PassesAllEach(ts[1..], c);
      assert forall k :: 1 <= k < |ts| ==> ts[k] == ts[1..][k - 1];
    }
  }

  /**
   The filter condition spelled out: the stripped line is non-empty, holds none of the
   three labels, is not all digits, is longer than two characters, and (under a marker
   rule) does not hold the marker text.
   */
  lemma KeepMeans(rule: MarkerRule, line: string)
    ensures var c := Strip(line);
            Keep(rule, line) <==>
              && |c| > 0
              && !Contains(c, FooterLabel)
              && !Contains(c, FormLabel)
              && !Contains(c, VersionLabel)
              && !IsDigitString(c)
              && |c| > 2
              && (rule.NoMarker? || !Contains(c, MarkerToken(rule)))
  {
    var ts := Tests(rule);
    PassesAllEach(ts, Strip(line));
    assert ts[0] == NotBlank && ts[1] == Lacks(FooterLabel) && ts[2] == Lacks(FormLabel);
    assert ts[3] == Lacks(VersionLabel) && ts[4] == NotAllDigits && ts[5] == LongerThan(2);
    assert !rule.NoMarker? ==> |ts| == 7 && ts[6] == Lacks(MarkerToken(rule));
  }

  /** The lines for which `keep` holds, in their order. */
  function FilterBy(keep: string -> bool, lines: seq<string>): (kept: seq<string>)
    ensures |kept| <= |lines|
  {
    if |lines| == 0 then []
    else if keep(lines[0]) then [lines[0]] + FilterBy(keep, lines[1..])
    else FilterBy(keep, lines[1..])
  }

  /** The filter keeps exactly the lines that pass. */
  lemma {:induction false} FilterByMembers(keep: string -> bool, lines: seq<string>)
    ensures forall l :: l in FilterBy(keep, lines) ==> l in lines && keep(l)
    ensures forall l :: l in lines && keep(l) ==> l in FilterBy(keep, lines)
    decreases |lines|
  {
    if |lines| > 0 {
      FilterByMembers(keep, lines[1..]);
      assert forall l :: l in lines[1..] ==> l in lines;
      assert forall l :: l in lines ==> l == lines[0] || l in lines[1..];
    }
  }

  lemma {:induction false} FilterByAppend(keep: string -> bool, a: seq<string>, b: seq<string>)
    ensures FilterBy(keep, a + b) == FilterBy(keep, a) + FilterBy(keep, b)
    decreases |a|
  {
    if |a| > 0 {
      FilterByAppend(keep, a[1..], b);
      assert (a + b)[0] == a[0];
      assert (a + b)[1..] == a[1..] + b;
      var head := if keep(a[0]) then [a[0]] else [];
      assert FilterBy(keep, a) == head + FilterBy(keep, a[1..]);
      assert FilterBy(keep, a + b) == head + FilterBy(keep, a[1..] + b);
    } else {
      assert a + b == b;
    }
  }

  /**
   The lines of one page that survive the filter, each as it was (not stripped), in the
   order of the page.
   */
  function FilterLines(rule: MarkerRule, lines: seq<string>): (kept: seq<string>)
    ensures |kept| <= |lines|
    ensures forall l :: l in kept ==> l in lines && Keep(rule, l)
    ensures forall l :: l in lines && Keep(rule, l) ==> l in kept
  {
    FilterByMembers(l => Keep(rule, l), lines);
    FilterBy(l => Keep(rule, l), lines)
  }

  /** Filtering is line by line: the filter of a concatenation is the concatenation of the filters. */
  lemma FilterAppend(rule: MarkerRule, a: seq<string>, b: seq<string>)
    ensures FilterLines(rule, a + b) == FilterLines(rule, a) + FilterLines(rule, b)
  {
    FilterByAppend(l => Keep(rule, l), a, b);
  }

  /** A line is kept alone exactly when it passes the tests. */
  lemma FilterSingle(rule: MarkerRule, l: string)
    ensures FilterLines(rule, [l]) == if Keep(rule, l) then [l] else []
  {
    assert [l][1..] == [];
  }

  /** A longer marker text is rarer: what the stricter rule keeps, the looser ones keep too. */
  lemma RulesNested(l: string, t: nat)
    ensures Keep(AnyMarker, l) ==> Keep(MarkerOfPage(t), l)
    ensures Keep(MarkerOfPage(t), l) ==> Keep(NoMarker, l)
  {
    var c := Strip(l);
    var tok := MarkerToken(MarkerOfPage(t));
    forall j: nat | OccursAt(c, tok, j)
      ensures OccursAt(c, MarkerStem, j)
    {
      assert c[j..j + |tok|][..|MarkerStem|] == c[j..j + |MarkerStem|];
    }
    KeepMeans(AnyMarker, l);
    KeepMeans(MarkerOfPage(t), l);
    KeepMeans(NoMarker, l);
  }

  /**
   Every filter keeps the residue line of a page marker: it is longer than two
   characters, not all digits, and holds none of the rejected labels. So each page the
   extraction takes lines from contributes its `"<n> ---"` line.
   */
  lemma MarkerResidueKept(rule: MarkerRule, n: nat)
    ensures Keep(rule, Residue(n))
  {
    var l := Residue(n);
    ResidueShape(n);
    KeepMeans(rule, l);
    assert !Contains(l, FooterLabel) by {
      assert FooterLabel[0] == 'P';
      MissingCharNotContained(l, FooterLabel, 0);
    }
    assert !Contains(l, FormLabel) by {
      assert FormLabel[0] == 'F';
      MissingCharNotContained(l, FormLabel, 0);
    }
    assert !Contains(l, VersionLabel) by {
      assert VersionLabel[0] == 'V';
      MissingCharNotContained(l, VersionLabel, 0);
    }
    if !rule.NoMarker? {
      var tok := MarkerToken(rule);
      assert tok[4] == 'P';
      MissingCharNotContained(l, tok, 4);
    }
  }

  /** The residue is its own stripped form, is not all digits, and holds only digits, spaces and dashes. */
  lemma ResidueShape(n: nat)
    ensures var l := Residue(n);
            && |l| > 2 && Strip(l) == l && !IsDigitString(l)
            && forall c :: c in l ==> IsAsciiDigit(c) || c == ' ' || c == '-'
  {
    var d := NatToString(n);
    var l := Residue(n);
    assert l[|d|] == ' ' && l[|l| - 1] == '-';
    DigitIsNotSpace(l[0]);
    StripUnchanged(l);
    assert !IsDigitLike(l[|d|]);
    forall c | c in l
      ensures IsAsciiDigit(c) || c == ' ' || c == '-'
    {
      var k :| 0 <= k < |l| && l[k] == c;
      if k < |d| {
        assert l[k] == d[k];
      }
    }
  }

  /** A kept line is never blank, so a non-empty list of kept lines has visible content. */
  lemma KeptLinesVisible(rule: MarkerRule, lines: seq<string>)
    requires |lines| > 0 && forall l :: l in lines ==> Keep(rule, l)
    ensures FlatMap(Visible, lines) != []
  {
    assert lines[0] in lines;
    KeptNotBlank(rule, lines[0]);
    NonBlankVisible(lines[0]);
    assert FlatMap(Visible, lines) == Visible(lines[0]) + FlatMap(Visible, lines[1..]);
  }

  /** The first test of every chain is `NotBlank`. */
  lemma KeptNotBlank(rule: MarkerRule, line: string)
    requires Keep(rule, line)
    ensures |Strip(line)| > 0
  {
    KeepMeans(rule, line);
  }
}
