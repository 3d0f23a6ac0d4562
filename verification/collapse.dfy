// Blank-line normalisation of extracted text: `re.sub(r"\n\s*\n\s*\n+", "\n\n", text)`
// followed by `strip()` (src/app/services/service.py:93-95 and 231-232).

module Collapse {
  import opened Wrappers
  import opened Chars
  import opened Text

  // ---------------------------------------------------------------------------
  // Counting newlines

  /** The number of newlines among `s[lo..hi]`. */
  function Newlines(s: string, lo: nat, hi: nat): nat
    requires lo <= hi <= |s|
    decreases hi - lo
  {
    if lo == hi then 0 else Newlines(s, lo, hi - 1) + (if s[hi - 1] == '\n' then 1 else 0)
  }

  lemma NewlinesSplit(s: string, lo: nat, mid: nat, hi: nat)
    requires lo <= mid <= hi <= |s|
    ensures Newlines(s, lo, hi) == Newlines(s, lo, mid) + Newlines(s, mid, hi)
    decreases hi - mid
  {
    if mid < hi {
      NewlinesSplit(s, lo, mid, hi - 1);
    }
  }

  /** Where the whitespace run starting at `i` stops. */
  function RunEnd(s: string, i: nat): (e: nat)
    requires i <= |s|
    ensures i <= e <= |s| && AllIn(s, i, e, Space)
    ensures e == |s| || !IsSpace(s[e])
  {
    i + Run(s, i, Space)
  }

  /** Every position inside a whitespace run shares its end. */
  lemma RunEndInside(s: string, i: nat, a: nat)
    requires i <= |s| && i <= a <= RunEnd(s, i)
    ensures RunEnd(s, a) == RunEnd(s, i)
  {
    RunUnique(s, a, Space, RunEnd(s, i) - a);
  }

  /** The newlines a `\s*` starting at `i` can cross. */
  function RunNewlines(s: string, i: nat): nat
    requires i <= |s|
  {
    Newlines(s, i, RunEnd(s, i))
  }

  lemma RunNewlinesStep(s: string, p: nat)
    requires p < |s| && IsSpace(s[p])
    ensures RunEnd(s, p + 1) == RunEnd(s, p)
    ensures RunNewlines(s, p) == (if s[p] == '\n' then 1 else 0) + RunNewlines(s, p + 1)
  {
    RunEndInside(s, p, p + 1);
    NewlinesSplit(s, p, p + 1, RunEnd(s, p));
  }

  /** The run end is never a newline, so counting up to and including it adds nothing. */
  function Upto(s: string, b: nat): nat
    requires b <= |s|
  {
    if b < |s| then b + 1 else |s|
  }

  lemma UptoNonNewline(s: string, lo: nat, b: nat)
    requires lo <= b <= |s| && (b == |s| || s[b] != '\n')
    ensures Newlines(s, lo, Upto(s, b)) == Newlines(s, lo, b)
  {
  }

  lemma UptoRunEnd(s: string, lo: nat, i: nat)
    requires i <= |s| && lo <= RunEnd(s, i)
    ensures Newlines(s, lo, Upto(s, RunEnd(s, i))) == Newlines(s, lo, RunEnd(s, i))
  {
    UptoNonNewline(s, lo, RunEnd(s, i));
  }

  // ---------------------------------------------------------------------------
  // The pattern `\n\s*\n\s*\n+` at one index, with Python's backtracking

  /**
   The second `\s*` after the newline at `a`: it tries `k`, `k - 1`, …, `0` characters,
   each followed by the `\n` that the pattern needs next. The index of that newline.
   */
  function SecondGap(s: string, a: nat, k: nat): (b: Option<nat>)
    requires a + 1 + k <= |s|
    decreases k
  {
    var b := a + 1 + k;
    if b < |s| && s[b] == '\n' then Some(b)
    else if k == 0 then None
    else SecondGap(s, a, k - 1)
  }

  lemma SecondGapSpec(s: string, a: nat, k: nat)
    requires a + 1 + k <= |s|
    ensures var top := Upto(s, a + 1 + k);
            && (SecondGap(s, a, k).None? <==> Newlines(s, a + 1, top) == 0)
            && (SecondGap(s, a, k).Some? ==>
                  var b := SecondGap(s, a, k).value;
                  a + 1 <= b < top && s[b] == '\n' && Newlines(s, b + 1, top) == 0)
    decreases k
  {
    if k > 0 {
      SecondGapSpec(s, a, k - 1);
    }
  }

  /**
   The first `\s*` after the newline at `p`: it tries `j`, `j - 1`, …, `0` characters;
   the first choice that lands on a newline from which the rest matches wins.
   The index of the last newline the pattern reaches.
   */
  function FirstGap(s: string, p: nat, j: nat): (b: Option<nat>)
    requires p + 1 + j <= |s|
    decreases j
  {
    var a := p + 1 + j;
    var here := if a < |s| && s[a] == '\n' then SecondGap(s, a, Run(s, a + 1, Space)) else None;
    if here.Some? then here
    else if j == 0 then None
    else FirstGap(s, p, j - 1)
  }

  /** What `FirstGap` finds: see `CollapseAt`. */
  ghost predicate FirstGapFinds(s: string, p: nat, j: nat)
    requires p + 1 <= |s| && p + 1 + j <= RunEnd(s, p + 1)
  {
    var e := RunEnd(s, p + 1);
    && (FirstGap(s, p, j).Some? <==>
          Newlines(s, p + 1, Upto(s, p + 1 + j)) >= 1 && Newlines(s, p + 1, e) >= 2)
    && (FirstGap(s, p, j).Some? ==>
          var b := FirstGap(s, p, j).value;
          p + 1 < b < e && s[b] == '\n' && Newlines(s, b + 1, e) == 0)
  }

  /** What the second gap after the newline at `a` finds in the whitespace run that follows it. */
  lemma SecondGapOfRun(s: string, a: nat)
    requires a < |s|
    ensures var e := RunEnd(s, a + 1);
            var r := SecondGap(s, a, Run(s, a + 1, Space));
            && (r.None? <==> Newlines(s, a + 1, e) == 0)
            && (r.Some? ==> a < r.value < e && s[r.value] == '\n' && Newlines(s, r.value + 1, e) == 0)
  {
    var k := Run(s, a + 1, Space);
    var e := a + 1 + k;
    SecondGapSpec(s, a, k);
    UptoNonNewline(s, a + 1, e);
    var r := SecondGap(s, a, k);
    if r.Some? {
      UptoNonNewline(s, r.value + 1, e);
    }
  }

  /** What the second gap after a newline at `a` inside the run from `p + 1` finds. */
  lemma SecondGapInRun(s: string, p: nat, a: nat)
    requires p + 1 <= |s| && p + 1 <= a < RunEnd(s, p + 1) && s[a] == '\n'
    ensures var e := RunEnd(s, p + 1);
            var r := SecondGap(s, a, Run(s, a + 1, Space));
            && (r.None? <==> Newlines(s, a + 1, e) == 0)
            && (r.Some? ==> a < r.value < e && s[r.value] == '\n' && Newlines(s, r.value + 1, e) == 0)
  {
    RunEndInside(s, p + 1, a + 1);
    SecondGapOfRun(s, a);
  }

  /** Newlines before, at and after the newline at `a`. */
  lemma NewlinesAround(s: string, lo: nat, a: nat, hi: nat)
    requires lo <= a < hi <= |s| && s[a] == '\n'
    ensures Newlines(s, lo, Upto(s, a)) == Newlines(s, lo, a) + 1
    ensures Newlines(s, lo, hi) == Newlines(s, lo, a) + 1 + Newlines(s, a + 1, hi)
  {
    NewlinesSplit(s, lo, a, hi);
    NewlinesSplit(s, a, a + 1, hi);
  }

  /** The step where the newline at `a` opens a successful second gap. */
  lemma FirstGapHere(s: string, p: nat, j: nat)
    requires p + 1 <= |s| && p + 1 + j <= RunEnd(s, p + 1)
    requires p + 1 + j < |s| && s[p + 1 + j] == '\n'
    requires SecondGap(s, p + 1 + j, Run(s, p + 2 + j, Space)).Some?
    ensures FirstGapFinds(s, p, j)
  {
    var e := RunEnd(s, p + 1);
    var a := p + 1 + j;
    SecondGapInRun(s, p, a);
    NewlinesAround(s, p + 1, a, e);
    assert FirstGap(s, p, j) == SecondGap(s, a, Run(s, a + 1, Space));
  }

  /** The step where the newline at `a` has no newline after it in the run. */
  lemma FirstGapDeadEnd(s: string, p: nat, j: nat)
    requires p + 1 <= |s| && p + 1 + j <= RunEnd(s, p + 1)
    requires p + 1 + j < |s| && s[p + 1 + j] == '\n'
    requires SecondGap(s, p + 1 + j, Run(s, p + 2 + j, Space)).None?
    requires j > 0 ==> FirstGapFinds(s, p, j - 1)
    ensures FirstGapFinds(s, p, j)
  {
    var e := RunEnd(s, p + 1);
    var a := p + 1 + j;
    SecondGapInRun(s, p, a);
    NewlinesAround(s, p + 1, a, e);
    if j > 0 {
      assert Upto(s, a - 1) == a;
    }
  }

  /** The step where `a` is not a newline. */
  lemma FirstGapNoNewline(s: string, p: nat, j: nat)
    requires p + 1 <= |s| && p + 1 + j <= RunEnd(s, p + 1)
    requires !(p + 1 + j < |s| && s[p + 1 + j] == '\n')
    requires j > 0 ==> FirstGapFinds(s, p, j - 1)
    ensures FirstGapFinds(s, p, j)
  {
  }

  lemma {:induction false} FirstGapSpec(s: string, p: nat, j: nat)
    requires p + 1 <= |s| && p + 1 + j <= RunEnd(s, p + 1)
    ensures FirstGapFinds(s, p, j)
    decreases j
  {
    if j > 0 {
      FirstGapSpec(s, p, j - 1);
    }
    var a := p + 1 + j;
    if a < |s| && s[a] == '\n' {
      if SecondGap(s, a, Run(s, a + 1, Space)).Some? {
        FirstGapHere(s, p, j);
      } else {
        FirstGapDeadEnd(s, p, j);
      }
    } else {
      FirstGapNoNewline(s, p, j);
    }
  }

  /** After the last newline of the run, `\n+` takes nothing more and no newline is left. */
  lemma AfterLastNewline(s: string, p: nat, b: nat)
    requires p < |s| && s[p] == '\n'
    requires p + 1 < b < RunEnd(s, p + 1) && s[b] == '\n' && Newlines(s, b + 1, RunEnd(s, p + 1)) == 0
    ensures Run(s, b + 1, Newline) == 0
    ensures AllIn(s, p, b + 1, Space) && RunNewlines(s, b + 1) == 0
  {
    var e := RunEnd(s, p + 1);
    RunEndInside(s, p + 1, b + 1);
    if b + 1 < e {
      NewlinesSplit(s, b + 1, b + 2, e);
    }
  }

  /**
   `\n\s*\n\s*\n+` at index `p`. It matches exactly when a newline at `p` is followed by
   a whitespace stretch holding at least two more newlines, and the match then ends just
   after the last newline of that stretch.
   */
  function CollapseAt(s: string, p: nat): (r: Option<nat>)
    requires p <= |s|
    ensures r.Some? <==> p < |s| && s[p] == '\n' && RunNewlines(s, p + 1) >= 2
    ensures r.Some? ==> p < r.value <= |s| && s[r.value - 1] == '\n'
    ensures r.Some? ==> AllIn(s, p, r.value, Space) && RunNewlines(s, r.value) == 0
  {
    if p < |s| && s[p] == '\n' then
      var j := Run(s, p + 1, Space);
      FirstGapSpec(s, p, j);
      UptoRunEnd(s, p + 1, p + 1);
      match FirstGap(s, p, j)
      case None => None
      case Some(b) =>
        AfterLastNewline(s, p, b);
        Some(b + 1 + Run(s, b + 1, Newline))
    else None
  }

  // ---------------------------------------------------------------------------
  // re.sub

  /** `re.sub` from index `p`: `acc` holds the output so far; each match becomes "\n\n". */
  function SubFrom(s: string, p: nat, acc: string): string
    requires p <= |s|
    decreases |s| - p
  {
    if p == |s| then acc
    else
      match CollapseAt(s, p)
      case Some(e) => SubFrom(s, e, acc + "\n\n")
      case None => SubFrom(s, p + 1, acc + [s[p]])
  }

  // ---------------------------------------------------------------------------
  // What the substitution guarantees

  /** `t[i..k]` is all whitespace. */
  ghost predicate BlankStretch(t: string, i: nat, k: nat) {
    i <= k <= |t| && AllIn(t, i, k, Space)
  }

  /** No three newlines in `t` are separated by whitespace only. */
  ghost predicate NoTripleBreak(t: string) {
    forall i: nat, k: nat :: BlankStretch(t, i, k) ==> Newlines(t, i, k) <= 2
  }

  /** The newlines in the whitespace that ends `t`. */
  ghost function TrailNewlines(t: string): nat {
    if |t| == 0 || !IsSpace(t[|t| - 1]) then 0
    else TrailNewlines(t[..|t| - 1]) + (if t[|t| - 1] == '\n' then 1 else 0)
  }

  /** Every prefix of `t` ends in whitespace with at most two newlines. */
  ghost predicate Calm(t: string) {
    forall k :: 0 <= k <= |t| ==> TrailNewlines(t[..k]) <= 2
  }

  lemma TrailNewlinesSnoc(t: string, c: char)
    ensures TrailNewlines(t + [c]) == if IsSpace(c) then TrailNewlines(t) + (if c == '\n' then 1 else 0) else 0
  {
    assert (t + [c])[..|t|] == t;
  }

  lemma CalmSnoc(t: string, c: char)
    requires Calm(t) && TrailNewlines(t + [c]) <= 2
    ensures Calm(t + [c])
  {
    forall k | 0 <= k <= |t + [c]|
      ensures TrailNewlines((t + [c])[..k]) <= 2
    {
      if k <= |t| {
        assert (t + [c])[..k] == t[..k];
      } else {
        assert (t + [c])[..k] == t + [c];
      }
    }
  }

  /** A stretch of whitespace ending at `k` holds no more newlines than the whitespace ending `t[..k]`. */
  lemma {:induction false} StretchWithinTrail(t: string, i: nat, k: nat)
    requires BlankStretch(t, i, k)
    ensures Newlines(t, i, k) <= TrailNewlines(t[..k])
    decreases k - i
  {
    if i < k {
      StretchWithinTrail(t, i, k - 1);
      assert InClass(t[k - 1], Space);
      assert t[..k][..k - 1] == t[..k - 1];
    }
  }

  lemma CalmHasNoTripleBreak(t: string)
    requires Calm(t)
    ensures NoTripleBreak(t)
  {
    forall i: nat, k: nat | BlankStretch(t, i, k)
      ensures Newlines(t, i, k) <= 2
    {
      StretchWithinTrail(t, i, k);
    }
  }

  /**
   The invariant of the substitution: the output stays calm, and when it already ends in
   whitespace holding newlines, the input's whitespace run ahead cannot push it past two.
   */
  lemma {:induction false} SubFromCalm(s: string, p: nat, acc: string)
    requires p <= |s| && Calm(acc)
    requires TrailNewlines(acc) == 0 || TrailNewlines(acc) + RunNewlines(s, p) <= 2
    ensures Calm(SubFrom(s, p, acc))
    decreases |s| - p
  {
    if p < |s| {
      match CollapseAt(s, p)
      case Some(e) =>
        CalmAfterMatch(s, p, e, acc);
        SubFromCalm(s, e, acc + "\n\n");
      case None =>
        CalmAfterCopy(s, p, acc);
        SubFromCalm(s, p + 1, acc + [s[p]]);
    }
  }

  /** Writing "\n\n" for a match keeps the invariant. */
  lemma CalmAfterMatch(s: string, p: nat, e: nat, acc: string)
    requires p < |s| && CollapseAt(s, p) == Some(e) && Calm(acc)
    requires TrailNewlines(acc) == 0 || TrailNewlines(acc) + RunNewlines(s, p) <= 2
    ensures e <= |s| && Calm(acc + "\n\n")
    ensures TrailNewlines(acc + "\n\n") == 0 || TrailNewlines(acc + "\n\n") + RunNewlines(s, e) <= 2
  {
    RunNewlinesStep(s, p);
    TrailNewlinesSnoc(acc, '\n');
    CalmSnoc(acc, '\n');
    TrailNewlinesSnoc(acc + ['\n'], '\n');
    CalmSnoc(acc + ['\n'], '\n');
    assert acc + ['\n'] + ['\n'] == acc + "\n\n";
  }

  /** Copying a character where nothing matches keeps the invariant. */
  lemma CalmAfterCopy(s: string, p: nat, acc: string)
    requires p < |s| && CollapseAt(s, p).None? && Calm(acc)
    requires TrailNewlines(acc) == 0 || TrailNewlines(acc) + RunNewlines(s, p) <= 2
    ensures Calm(acc + [s[p]])
    ensures TrailNewlines(acc + [s[p]]) == 0 || TrailNewlines(acc + [s[p]]) + RunNewlines(s, p + 1) <= 2
  {
    var c := s[p];
    TrailNewlinesSnoc(acc, c);
    if IsSpace(c) {
      RunNewlinesStep(s, p);
    }
    CalmSnoc(acc, c);
  }

  /** In text with no triple break the pattern matches nowhere. */
  lemma NoMatchInCalmText(s: string, p: nat)
    requires p <= |s| && NoTripleBreak(s)
    ensures CollapseAt(s, p).None?
  {
    if p < |s| && s[p] == '\n' {
      var e := RunEnd(s, p + 1);
      assert BlankStretch(s, p, e);
      NewlinesSplit(s, p, p + 1, e);
    }
  }

  /** When nothing matches, the substitution copies the rest of the input. */
  lemma {:induction false} SubFromCopies(s: string, p: nat, acc: string)
    requires p <= |s| && NoTripleBreak(s)
    ensures SubFrom(s, p, acc) == acc + s[p..]
    decreases |s| - p
  {
    if p < |s| {
      NoMatchInCalmText(s, p);
      SubFromCopies(s, p + 1, acc + [s[p]]);
      assert s[p..] == [s[p]] + s[p + 1..];
    }
  }

  /** Skipping a whitespace stretch loses no visible character. */
  lemma VisibleSkipsBlank(s: string, p: nat, e: nat)
    requires p <= e <= |s| && AllIn(s, p, e, Space)
    ensures Visible(s[p..]) == Visible(s[e..])
  {
    assert s[p..] == s[p..e] + s[e..];
    VisibleAppend(s[p..e], s[e..]);
    assert forall k :: 0 <= k < e - p ==> s[p..e][k] == s[p + k] && InClass(s[p + k], Space);
    VisibleBlank(s[p..e]);
  }

  /** Appending whitespace to the output adds no visible character. */
  lemma VisibleAppendBlank(acc: string, w: string)
    requires forall k :: 0 <= k < |w| ==> IsSpace(w[k])
    ensures Visible(acc + w) == Visible(acc)
  {
    VisibleAppend(acc, w);
    VisibleBlank(w);
  }

  /** Each match stands for whitespace and is replaced by whitespace: the visible characters go through in order. */
  lemma {:induction false} SubFromVisible(s: string, p: nat, acc: string)
    requires p <= |s|
    ensures Visible(SubFrom(s, p, acc)) == Visible(acc) + Visible(s[p..])
    decreases |s| - p
  {
    if p == |s| {
      assert s[p..] == [];
    } else {
      match CollapseAt(s, p)
      case Some(e) =>
        SubFromVisible(s, e, acc + "\n\n");
        VisibleAfterMatch(s, p, e, acc);
      case None =>
        SubFromVisible(s, p + 1, acc + [s[p]]);
        VisibleAfterCopy(s, p, acc);
    }
  }

  /** Writing "\n\n" for a match neither adds nor loses a visible character. */
  lemma VisibleAfterMatch(s: string, p: nat, e: nat, acc: string)
    requires p < |s| && CollapseAt(s, p) == Some(e)
    ensures e <= |s| && Visible(acc + "\n\n") + Visible(s[e..]) == Visible(acc) + Visible(s[p..])
  {
    VisibleAppendBlank(acc, "\n\n");
    VisibleSkipsBlank(s, p, e);
  }

  /** Copying a character moves it from the input side to the output side. */
  lemma VisibleAfterCopy(s: string, p: nat, acc: string)
    ensures p < |s| ==> Visible(acc + [s[p]]) + Visible(s[p + 1..]) == Visible(acc) + Visible(s[p..])
  {
    if p < |s| {
      VisibleAppend(acc, [s[p]]);
      assert s[p..] == [s[p]] + s[p + 1..];
      VisibleAppend([s[p]], s[p + 1..]);
    }
  }

  /** `re.sub(r"\n\s*\n\s*\n+", "\n\n", s)`: no triple break is left, and only whitespace has changed. */
  function Collapse(s: string): (t: string)
    ensures NoTripleBreak(t)
    ensures Visible(t) == Visible(s)
    ensures NoTripleBreak(s) ==> t == s
  {
    SubFromCalm(s, 0, []);
    CalmHasNoTripleBreak(SubFrom(s, 0, []));
    SubFromVisible(s, 0, []);
    CalmTextCopied(s);
    assert s[0..] == s;
    SubFrom(s, 0, [])
  }

  lemma CalmTextCopied(s: string)
    ensures NoTripleBreak(s) ==> SubFrom(s, 0, []) == s
  {
    if NoTripleBreak(s) {
      SubFromCopies(s, 0, []);
      assert s[0..] == s;
    }
  }

  /** Text that has no blank stretch with three newlines comes back unchanged. */
  lemma CollapseKeepsCalmText(s: string)
    requires NoTripleBreak(s)
    ensures Collapse(s) == s
  {
  }

  /** Collapsing twice is collapsing once: the first pass leaves no triple break. */
  lemma CollapseIdempotent(s: string)
    ensures Collapse(Collapse(s)) == Collapse(s)
  {
  }

  /**
   A blank run of three newlines between two visible characters becomes exactly
   "\n\n": the match runs from the first newline to just after the last.
   */
  lemma CollapseBlankRun(x: char, y: char)
    requires !IsSpace(x) && !IsSpace(y)
    ensures Collapse([x, '\n', '\n', '\n', y]) == [x, '\n', '\n', y]
  {
    var s := [x, '\n', '\n', '\n', y];
    BlankRunMatch(s);
    assert [x] + "\n\n" == [x, '\n', '\n'];
    assert SubFrom(s, 1, [x]) == SubFrom(s, 4, [x, '\n', '\n']);
    assert SubFrom(s, 4, [x, '\n', '\n']) == [x, '\n', '\n', y] by {
      assert CollapseAt(s, 4).None?;
      assert [x, '\n', '\n'] + [s[4]] == [x, '\n', '\n', y];
    }
    assert SubFrom(s, 0, []) == SubFrom(s, 1, [x]) by {
      assert CollapseAt(s, 0).None?;
      assert [] + [s[0]] == [x];
    }
  }

  /** In `x`, three newlines, `y`, the pattern matches at the first newline and ends just before `y`. */
  lemma BlankRunMatch(s: string)
    requires |s| == 5 && !IsSpace(s[0]) && !IsSpace(s[4]) && s[1] == '\n' && s[2] == '\n' && s[3] == '\n'
    ensures CollapseAt(s, 1) == Some(4)
  {
    RunUnique(s, 2, Space, 2);
    RunNewlinesStep(s, 2);
    RunNewlinesStep(s, 3);
    assert RunNewlines(s, 4) == 0;
    assert !InClass(s[4], Space);
  }

  /** `re.sub` turns `a`, three newlines, `b` into `a`, two newlines, `b`. */
  lemma CollapseExample()
    ensures Collapse("a\n\n\nb") == "a\n\nb"
  {
    CollapseBlankRun('a', 'b');
  }

  // ---------------------------------------------------------------------------
  // strip()

  lemma NewlinesOfSlice(t: string, lo: nat, hi: nat, i: nat, k: nat)
    requires lo <= hi <= |t| && i <= k <= hi - lo
    ensures Newlines(t[lo..hi], i, k) == Newlines(t, lo + i, lo + k)
    decreases k - i
  {
    if i < k {
      NewlinesOfSlice(t, lo, hi, i, k - 1);
    }
  }

  /** A slice of text with no triple break has none either. */
  lemma SliceKeepsNoTripleBreak(t: string, lo: nat, hi: nat)
    requires lo <= hi <= |t| && NoTripleBreak(t)
    ensures NoTripleBreak(t[lo..hi])
  {
    var r := t[lo..hi];
    forall i: nat, k: nat | BlankStretch(r, i, k)
      ensures Newlines(r, i, k) <= 2
    {
      assert BlankStretch(t, lo + i, lo + k) by {
        forall m | lo + i <= m < lo + k
          ensures InClass(t[m], Space)
        {
          assert InClass(r[m - lo], Space);
          assert t[m] == r[m - lo];
        }
      }
      NewlinesOfSlice(t, lo, hi, i, k);
    }
  }

  lemma StripKeepsNoTripleBreak(t: string)
    requires NoTripleBreak(t)
    ensures NoTripleBreak(Strip(t))
  {
    StripSlice(t);
    SliceKeepsNoTripleBreak(t, StripLo(t), StripLo(t) + |Strip(t)|);
  }

  /**
   The final clean-up of the extracted text: blank stretches collapsed, then `strip()`.
   The result has no surrounding whitespace and no three newlines separated only by
   whitespace, and its visible characters are those of the input, in order.
   */
  function Normalize(s: string): (r: string)
    ensures r == [] || (!IsSpace(r[0]) && !IsSpace(r[|r| - 1]))
    ensures NoTripleBreak(r)
    ensures Visible(r) == Visible(s)
    ensures NoTripleBreak(s) ==> r == Strip(s)
  {
    StripKeepsNoTripleBreak(Collapse(s));
    StripKeepsVisible(Collapse(s));
    Strip(Collapse(s))
  }

  /** Normalising normalised text changes nothing. */
  lemma NormalizeIdempotent(s: string)
    ensures Normalize(Normalize(s)) == Normalize(s)
  {
    var r := Normalize(s);
    CollapseKeepsCalmText(r);
    if r != [] {
      StripUnchanged(r);
    }
  }

  // ---------------------------------------------------------------------------
  // Text joined from lines

  /** Every blank stretch of `t` holds at most one newline: no line of `t` is blank. */
  ghost predicate SingleBreaks(t: string) {
    forall i: nat, k: nat :: BlankStretch(t, i, k) ==> Newlines(t, i, k) <= 1
  }

  lemma {:induction false} NewlinesNone(t: string, i: nat, k: nat)
    requires i <= k <= |t| && forall m :: i <= m < k ==> t[m] != '\n'
    ensures Newlines(t, i, k) == 0
    decreases k - i
  {
    if i < k {
      NewlinesNone(t, i, k - 1);
    }
  }

  /** A stretch inside the first line holds no newline. */
  lemma BreakInLine(l: string, j: string, i: nat, k: nat)
    requires '\n' !in l && i <= k <= |l|
    ensures Newlines(l + "\n" + j, i, k) == 0
  {
    var t := l + "\n" + j;
    forall m | i <= m < k
      ensures t[m] != '\n'
    {
      assert t[m] == l[m] && l[m] in l;
    }
    NewlinesNone(t, i, k);
  }

  /** A stretch after the first separator is a stretch of the rest. */
  lemma BreakInRest(l: string, j: string, i: nat, k: nat)
    requires SingleBreaks(j) && |l| < i && BlankStretch(l + "\n" + j, i, k)
    ensures Newlines(l + "\n" + j, i, k) <= 1
  {
    var t := l + "\n" + j;
    var o := |l| + 1;
    assert t[o..|t|] == j;
    NewlinesOfSlice(t, o, |t|, i - o, k - o);
    assert BlankStretch(j, i - o, k - o) by {
      forall m | i - o <= m < k - o
        ensures InClass(j[m], Space)
      {
        assert j[m] == t[m + o];
        assert InClass(t[m + o], Space);
      }
    }
  }

  /**
   A stretch across the first separator stops before the visible character `first[v]`
   of the next line, so it holds that separator and no other newline.
   */
  lemma BreakAtSeparator(l: string, first: string, j: string, v: nat, i: nat, k: nat)
    requires '\n' !in l && '\n' !in first && v < |first| && !IsSpace(first[v])
    requires |first| <= |j| && forall c :: 0 <= c < |first| ==> j[c] == first[c]
    requires i <= |l| < k && BlankStretch(l + "\n" + j, i, k)
    ensures Newlines(l + "\n" + j, i, k) == 1
  {
    var t := l + "\n" + j;
    var o := |l| + 1;
    assert t[o + v] == first[v];
    assert !InClass(t[o + v], Space);
    assert k <= o + v;
    NewlinesSplit(t, i, |l|, k);
    NewlinesSplit(t, |l|, o, k);
    BreakInLine(l, j, i, |l|);
    assert Newlines(t, |l|, o) == 1;
    forall m | o <= m < k
      ensures t[m] != '\n'
    {
      assert t[m] == first[m - o] && first[m - o] in first;
    }
    NewlinesNone(t, o, k);
  }

  /** A newline-free line and a newline, put before text whose first line is not blank. */
  lemma BreakOnceCons(l: string, first: string, j: string)
    requires '\n' !in l && '\n' !in first && Strip(first) != []
    requires |first| <= |j| && forall c :: 0 <= c < |first| ==> j[c] == first[c]
    requires SingleBreaks(j)
    ensures SingleBreaks(l + "\n" + j)
  {
    var t := l + "\n" + j;
    StripSlice(first);
    var v := StripLo(first);
    assert Strip(first)[0] == first[v];
    forall i: nat, k: nat | BlankStretch(t, i, k)
      ensures Newlines(t, i, k) <= 1
    {
      if k <= |l| {
        BreakInLine(l, j, i, k);
      } else if i > |l| {
        BreakInRest(l, j, i, k);
      } else {
        BreakAtSeparator(l, first, j, v, i, k);
      }
    }
  }

  /**
   Lines without newlines, joined with "\n", where every line but the first is not
   blank: each blank stretch of the text holds at most one newline.
   */
  lemma {:induction false} JoinedLinesBreakOnce(lines: seq<string>)
    requires forall j :: 0 <= j < |lines| ==> '\n' !in lines[j]
    requires forall j :: 0 < j < |lines| ==> Strip(lines[j]) != []
    ensures SingleBreaks(Join(lines, "\n"))
    decreases |lines|
  {
    if |lines| == 1 {
      var t := lines[0];
      forall i: nat, k: nat | BlankStretch(t, i, k)
        ensures Newlines(t, i, k) <= 1
      {
        forall m | i <= m < k
          ensures t[m] != '\n'
        {
          assert t[m] in t;
        }
        NewlinesNone(t, i, k);
      }
    } else if |lines| > 1 {
      var rest := lines[1..];
      assert forall j :: 0 <= j < |rest| ==> rest[j] == lines[j + 1];
      JoinedLinesBreakOnce(rest);
      JoinHead(rest, "\n");
      BreakOnceCons(lines[0], rest[0], Join(rest, "\n"));
    }
  }

  /**
   The clean-up of lines cut at newlines, none of them blank after the first: the
   collapse never fires, and the text is only stripped.
   */
  lemma NormalizeJoinedLines(lines: seq<string>)
    requires forall l :: l in lines ==> '\n' !in l
    requires forall j :: 0 < j < |lines| ==> Strip(lines[j]) != []
    ensures Collapse(Join(lines, "\n")) == Join(lines, "\n")
    ensures Normalize(Join(lines, "\n")) == Strip(Join(lines, "\n"))
  {
    assert forall j :: 0 <= j < |lines| ==> lines[j] in lines;
    JoinedLinesBreakOnce(lines);
  }
}
