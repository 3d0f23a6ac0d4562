/**
 Python string primitives the extractor relies on: substring search (`in`),
 `str.split` with a literal separator, `str.join`, `str.strip()`, `str.isdigit()`,
 and runs of characters of one class (the building block of the pattern matchers).
 */
module Text {
  import opened Wrappers
  import opened Chars
  import opened Scan

  /** `pat` occurs in `s` starting at index `i`. */
  predicate OccursAt(s: string, pat: string, i: nat) {
    i + |pat| <= |s| && s[i..i + |pat|] == pat
  }

  /** The leftmost occurrence of `pat` in `s` at or after index `i`. */
  function FindFrom(s: string, pat: string, i: nat): (r: Option<nat>)
    ensures r.Some? ==> i <= r.value && OccursAt(s, pat, r.value)
    ensures r.Some? ==> forall j :: i <= j < r.value ==> !OccursAt(s, pat, j)
    ensures r.None? ==> forall j :: i <= j ==> !OccursAt(s, pat, j)
    decreases |s| - i
  {
    if i + |pat| > |s| then None
    else if s[i..i + |pat|] == pat then Some(i)
    else FindFrom(s, pat, i + 1)
  }

  /** Python's `pat in s`. */
  function Contains(s: string, pat: string): (b: bool)
    ensures b <==> exists j :: OccursAt(s, pat, j)
  {
    FindFrom(s, pat, 0).Some?
  }

  /** An occurrence inside a prefix of `s` is an occurrence in `s`. */
  lemma OccursInPrefix(s: string, pat: string, n: nat, j: nat)
    requires n <= |s| && OccursAt(s[..n], pat, j)
    ensures OccursAt(s, pat, j)
  {
    assert s[..n][j..j + |pat|] == s[j..j + |pat|];
  }

  /** A one-character pattern occurs exactly where that character is. */
  lemma OccursAtChar(s: string, c: char, j: nat)
    ensures OccursAt(s, [c], j) <==> j < |s| && s[j] == c
  {
    if j < |s| {
      assert s[j..j + 1] == [s[j]];
    }
  }

  /** A string lacking some character of `pat` cannot contain `pat`. */
  lemma MissingCharNotContained(s: string, pat: string, k: nat)
    requires k < |pat| && pat[k] !in s
    ensures !Contains(s, pat)
  {
    forall j: nat
      ensures !OccursAt(s, pat, j)
    {
      if j + |pat| <= |s| {
        assert s[j..j + |pat|][k] == s[j + k];
        assert s[j + k] in s;
      }
    }
  }

  /** Python's `s.split(sep)` for a non-empty literal separator. */
  function Split(s: string, sep: string): (parts: seq<string>)
    requires |sep| > 0
    ensures |parts| >= 1
    ensures forall k :: 0 <= k < |parts| ==> !Contains(parts[k], sep)
    decreases |s|
  {
    match FindFrom(s, sep, 0)
    case None => [s]
    case Some(i) =>
      assert !Contains(s[..i], sep) by {
        forall j | OccursAt(s[..i], sep, j)
          ensures false
        {
          OccursInPrefix(s, sep, i, j);
        }
      }
      [s[..i]] + Split(s[i + |sep|..], sep)
  }

  /** Python's `sep.join(parts)`. */
  function Join(parts: seq<string>, sep: string): string
  {
    if |parts| == 0 then ""
    else if |parts| == 1 then parts[0]
    else parts[0] + sep + Join(parts[1..], sep)
  }

  /** A joined text starts with its first part. */
  lemma JoinHead(parts: seq<string>, sep: string)
    requires |parts| > 0
    ensures |parts[0]| <= |Join(parts, sep)|
    ensures forall c :: 0 <= c < |parts[0]| ==> Join(parts, sep)[c] == parts[0][c]
  {
  }

  /** Joining two non-empty lists of parts: the join of each, with a separator between them. */
  lemma {:induction false} JoinAppend(a: seq<string>, b: seq<string>, sep: string)
    requires |a| > 0 && |b| > 0
    ensures Join(a + b, sep) == Join(a, sep) + sep + Join(b, sep)
    decreases |a|
  {
    if |a| == 1 {
      assert (a + b)[1..] == b;
    } else {
      JoinAppend(a[1..], b, sep);
      assert (a + b)[1..] == a[1..] + b;
    }
  }

  /** Splitting and joining again gives back the original text. */
  lemma {:induction false} JoinSplit(s: string, sep: string)
    requires |sep| > 0
    ensures Join(Split(s, sep), sep) == s
    decreases |s|
  {
    match FindFrom(s, sep, 0)
    case None =>
    case Some(i) =>
      var rest := s[i + |sep|..];
      var parts := Split(rest, sep);
      JoinSplit(rest, sep);
      assert Split(s, sep) == [s[..i]] + parts;
      assert ([s[..i]] + parts)[1..] == parts;
      assert Join([s[..i]] + parts, sep) == s[..i] + sep + Join(parts, sep);
      assert s[i..i + |sep|] == sep;
      assert s == s[..i] + sep + rest;
  }

  /** Splitting on a character at its first occurrence. */
  lemma SplitAtFirstChar(a: string, c: char, b: string)
    requires c !in a
    ensures Split(a + [c] + b, [c]) == [a] + Split(b, [c])
  {
    var s := a + [c] + b;
    forall j: nat | j < |a|
      ensures !OccursAt(s, [c], j)
    {
      OccursAtChar(s, c, j);
      assert s[j] == a[j];
    }
    OccursAtChar(s, c, |a|);
    assert FindFrom(s, [c], 0) == Some(|a|);
    assert s[..|a|] == a;
    assert s[|a| + 1..] == b;
  }

  /** Containing a one-character pattern is containing that character. */
  lemma ContainsChar(s: string, c: char)
    ensures Contains(s, [c]) <==> c in s
  {
    if c in s {
      var j :| 0 <= j < |s| && s[j] == c;
      OccursAtChar(s, c, j);
    } else {
      forall j: nat
        ensures !OccursAt(s, [c], j)
      {
        OccursAtChar(s, c, j);
      }
    }
  }

  /** Text without the separator character splits into itself alone. */
  lemma SplitWithoutChar(s: string, c: char)
    requires c !in s
    ensures Split(s, [c]) == [s]
  {
    ContainsChar(s, c);
  }

  /** Joining pieces free of a one-character separator and splitting again gives the pieces. */
  lemma {:induction false} SplitJoinChar(parts: seq<string>, c: char)
    requires |parts| >= 1
    requires forall k :: 0 <= k < |parts| ==> c !in parts[k]
    ensures Split(Join(parts, [c]), [c]) == parts
    decreases |parts|
  {
    if |parts| == 1 {
      SplitWithoutChar(parts[0], c);
    } else {
      SplitJoinChar(parts[1..], c);
      SplitAtFirstChar(parts[0], c, Join(parts[1..], [c]));
      assert parts == [parts[0]] + parts[1..];
    }
  }

  /** The pieces `Split` returns for a one-character separator hold no such character. */
  lemma SplitPiecesLackChar(s: string, c: char)
    ensures forall k :: 0 <= k < |Split(s, [c])| ==> c !in Split(s, [c])[k]
    ensures forall l :: l in Split(s, [c]) ==> c !in l
  {
    var parts := Split(s, [c]);
    forall k | 0 <= k < |parts|
      ensures c !in parts[k]
    {
      ContainsChar(parts[k], c);
    }
  }

  /** The character classes the pattern matchers take runs of. */
  datatype CharClass = Space | Digit | NonNewline | Newline

  predicate InClass(c: char, cls: CharClass) {
    match cls
    case Space => IsSpace(c)
    case Digit => IsAsciiDigit(c)
    case NonNewline => c != '\n'
    case Newline => c == '\n'
  }

  /** Every character of `s[lo..hi]` is in class `cls`. */
  ghost predicate AllIn(s: string, lo: nat, hi: nat, cls: CharClass)
    requires lo <= hi <= |s|
  {
    forall k {:trigger InClass(s[k], cls)} :: lo <= k < hi ==> InClass(s[k], cls)
  }

  /** The length of the longest run of `cls` characters starting at index `i`. */
  function Run(s: string, i: nat, cls: CharClass): (n: nat)
    requires i <= |s|
    ensures i + n <= |s|
    ensures forall k {:trigger InClass(s[k], cls)} :: i <= k < i + n ==> InClass(s[k], cls)
    ensures i + n == |s| || !InClass(s[i + n], cls)
    decreases |s| - i
  {
    if i < |s| && InClass(s[i], cls) then 1 + Run(s, i + 1, cls) else 0
  }

  /** A stretch of `cls` characters starting at `i` never outruns `Run`. */
  lemma RunBounds(s: string, i: nat, cls: CharClass, j: nat)
    requires i <= j <= |s| && AllIn(s, i, j, cls)
    ensures j <= i + Run(s, i, cls)
  {
  }

  /** `Run` is the unique maximal run. */
  lemma RunUnique(s: string, i: nat, cls: CharClass, n: nat)
    requires i + n <= |s| && AllIn(s, i, i + n, cls)
    requires i + n == |s| || !InClass(s[i + n], cls)
    ensures Run(s, i, cls) == n
  {
    RunBounds(s, i, cls, i + n);
  }

  /** Runs only look forward, so a prefix in front of the text shifts them unchanged. */
  lemma RunShift(a: string, b: string, i: nat, cls: CharClass)
    requires i <= |b|
    ensures Run(a + b, |a| + i, cls) == Run(b, i, cls)
  {
    var s := a + b;
    var n := Run(b, i, cls);
    forall k | |a| + i <= k < |a| + i + n
      ensures InClass(s[k], cls)
    {
      assert s[k] == b[k - |a|];
    }
    if i + n < |b| {
      assert s[|a| + i + n] == b[i + n];
    }
    RunUnique(s, |a| + i, cls, n);
  }

  /** `s` without its leading whitespace. */
  function StripLeading(s: string): (r: string)
    ensures |r| <= |s|
    ensures |r| > 0 ==> !IsSpace(r[0]) && r[|r| - 1] == s[|s| - 1]
    decreases |s|
  {
    if |s| > 0 && IsSpace(s[0]) then StripLeading(s[1..]) else s
  }

  /** `s` without its trailing whitespace. */
  function StripTrailing(s: string): (r: string)
    ensures |r| <= |s|
    ensures |r| > 0 ==> !IsSpace(r[|r| - 1]) && r[0] == s[0]
    decreases |s|
  {
    if |s| > 0 && IsSpace(s[|s| - 1]) then StripTrailing(s[..|s| - 1]) else s
  }

  /** Python's `str.strip()` with no argument: the result neither starts nor ends with whitespace. */
  function Strip(s: string): (r: string)
    ensures |r| <= |s|
    ensures |r| > 0 ==> !IsSpace(r[0]) && !IsSpace(r[|r| - 1])
  {
    StripTrailing(StripLeading(s))
  }

  lemma {:induction false} StripLeadingSlice(s: string)
    ensures var lo := |s| - |StripLeading(s)|;
            StripLeading(s) == s[lo..] && forall k :: 0 <= k < lo ==> IsSpace(s[k])
    decreases |s|
  {
    if |s| > 0 && IsSpace(s[0]) {
      StripLeadingSlice(s[1..]);
      assert s[1..][|s| - 1 - |StripLeading(s)|..] == s[|s| - |StripLeading(s)|..];
    }
  }

  lemma {:induction false} StripTrailingSlice(s: string)
    ensures var hi := |StripTrailing(s)|;
            StripTrailing(s) == s[..hi] && forall k :: hi <= k < |s| ==> IsSpace(s[k])
    decreases |s|
  {
    if |s| > 0 && IsSpace(s[|s| - 1]) {
      StripTrailingSlice(s[..|s| - 1]);
      assert s[..|s| - 1][..|StripTrailing(s)|] == s[..|StripTrailing(s)|];
    }
  }

  /** Where the slice that `strip()` keeps starts. */
  function StripLo(s: string): nat {
    |s| - |StripLeading(s)|
  }

  /** What `strip()` removes is whitespace on both sides of the slice `s[StripLo(s)..hi]` it keeps. */
  lemma StripSlice(s: string)
    ensures var lo := StripLo(s);
            var hi := lo + |Strip(s)|;
            && hi <= |s| && Strip(s) == s[lo..hi]
            && (forall k :: 0 <= k < lo ==> IsSpace(s[k]))
            && (forall k :: hi <= k < |s| ==> IsSpace(s[k]))
  {
    var t := StripLeading(s);
    var lo := |s| - |t|;
    StripLeadingSlice(s);
    StripTrailingSlice(t);
    SuffixPrefix(s, lo, |Strip(s)|);
  }

  /** A prefix of the suffix `s[lo..]` is a slice of `s`, and what follows it lies in `s` at an offset of `lo`. */
  lemma SuffixPrefix(s: string, lo: nat, n: nat)
    requires lo + n <= |s|
    ensures s[lo..][..n] == s[lo..lo + n]
    ensures forall k :: lo + n <= k < |s| ==> s[lo..][k - lo] == s[k]
  {
  }

  /** Leading whitespace makes no difference to `strip()`. */
  lemma StripSkipsSpace(c: char, s: string)
    requires IsSpace(c)
    ensures Strip([c] + s) == Strip(s)
  {
    assert ([c] + s)[1..] == s;
  }

  /** `strip()` leaves nothing exactly when the text is all whitespace. */
  lemma StripEmpty(s: string)
    ensures |Strip(s)| == 0 <==> forall k :: 0 <= k < |s| ==> IsSpace(s[k])
  {
    StripSlice(s);
  }

  /** Text that neither starts nor ends with whitespace is left as it is. */
  lemma StripUnchanged(s: string)
    requires |s| > 0 && !IsSpace(s[0]) && !IsSpace(s[|s| - 1])
    ensures Strip(s) == s
  {
  }

  /** Python's `s.isdigit()`. */
  predicate IsDigitString(s: string) {
    |s| > 0 && forall k :: 0 <= k < |s| ==> IsDigitLike(s[k])
  }

  // ---------------------------------------------------------------------------
  // The visible content of a text

  /** One character as `Visible` keeps it: nothing for whitespace, the character otherwise. */
  function Shown(c: char): string {
    if IsSpace(c) then [] else [c]
  }

  /** The characters of `s` that are not whitespace, in order: what a change to whitespace alone leaves intact. */
  function Visible(s: string): string
    decreases |s|
  {
    if |s| == 0 then [] else Shown(s[0]) + Visible(s[1..])
  }

  lemma {:induction false} VisibleAppend(a: string, b: string)
    ensures Visible(a + b) == Visible(a) + Visible(b)
    decreases |a|
  {
    if |a| == 0 {
      assert a + b == b;
    } else {
      var ab := a + b;
      assert ab[0] == a[0] && ab[1..] == a[1..] + b;
      assert Visible(ab) == Shown(a[0]) + Visible(a[1..] + b);
      VisibleAppend(a[1..], b);
      assert Shown(a[0]) + (Visible(a[1..]) + Visible(b)) == (Shown(a[0]) + Visible(a[1..])) + Visible(b);
    }
  }

  /** Only all-whitespace text has no visible content. */
  lemma {:induction false} VisibleBlank(s: string)
    ensures Visible(s) == [] <==> forall k :: 0 <= k < |s| ==> IsSpace(s[k])
    decreases |s|
  {
    if |s| > 0 {
      VisibleBlank(s[1..]);
      assert forall k :: 1 <= k < |s| ==> s[k] == s[1..][k - 1];
    }
  }

  /** `strip()` removes whitespace only. */
  lemma StripKeepsVisible(s: string)
    ensures Visible(Strip(s)) == Visible(s)
  {
    StripSlice(s);
    var lo := StripLo(s);
    var hi := lo + |Strip(s)|;
    BlankSliceHidden(s, 0, lo);
    BlankSliceHidden(s, hi, |s|);
    ThreeSlices(s, lo, hi);
    VisibleAppend(s[0..lo] + s[lo..hi], s[hi..|s|]);
    VisibleAppend(s[0..lo], s[lo..hi]);
  }

  /** Cutting `s` at `lo` and `hi` and gluing the pieces back gives `s`. */
  lemma ThreeSlices(s: string, lo: nat, hi: nat)
    requires lo <= hi <= |s|
    ensures s == s[0..lo] + s[lo..hi] + s[hi..|s|]
  {
    assert s[0..lo] + s[lo..hi] == s[0..hi];
  }

  /** A slice made of whitespace shows nothing. */
  lemma BlankSliceHidden(s: string, lo: nat, hi: nat)
    requires lo <= hi <= |s| && forall k :: lo <= k < hi ==> IsSpace(s[k])
    ensures Visible(s[lo..hi]) == []
  {
    assert forall k :: 0 <= k < hi - lo ==> s[lo..hi][k] == s[lo + k];
    VisibleBlank(s[lo..hi]);
  }

  /** Joining with a whitespace separator: the visible content is that of the parts, in order. */
  lemma {:induction false} JoinVisible(parts: seq<string>, sep: string)
    requires Visible(sep) == []
    ensures Visible(Join(parts, sep)) == FlatMap(Visible, parts)
    decreases |parts|
  {
    if |parts| == 1 {
      assert FlatMap(Visible, parts[1..]) == [];
    } else if |parts| > 1 {
      JoinVisible(parts[1..], sep);
      VisibleAppend(parts[0] + sep, Join(parts[1..], sep));
      VisibleAppend(parts[0], sep);
    }
  }

  /** A line whose stripped form is not empty has visible content. */
  lemma NonBlankVisible(s: string)
    requires |Strip(s)| > 0
    ensures Visible(s) != []
  {
    StripEmpty(s);
    VisibleBlank(s);
  }
}
