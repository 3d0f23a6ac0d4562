/**
 The end of a section as the table of contents gives it
 (src/app/services/service.py:169-189): on the page where the lookup found the
 section, collect every entry `(\d+(?:\.\d+)*)\s+([^\n]+)\s*(\d+)` with `re.findall`,
 find the first entry whose number is the section's own, and take the first entry
 after it that is at the section's depth or shallower.
 */
module SectionBoundary {
  import opened Wrappers
  import opened Numerals
  import opened Scan
  import opened Patterns
  import opened SectionRange

  /** One row of `re.findall`: the dotted number, the title and the page number. */
  datatype Entry = Entry(number: string, title: string, page: nat)

  /** A match of the entry pattern found in `s`. */
  ghost predicate EntryMatch(s: string, m: Match) {
    m.start <= |s| && MatchAt(s, AnyEntry, m.start) == Some(m)
  }

  /** The row of one match: its three groups, the page group read as a number (`int(number_page)`). */
  function EntryOf(s: string, m: Match): Entry
    requires EntryMatch(s, m)
  {
    assert m.groups[0] in m.groups && m.groups[1] in m.groups;
    Entry(GroupText(s, m.groups[0]), GroupText(s, m.groups[1]), DigitsValue(GroupText(s, m.groups[2])))
  }

  /** The rows of the matches `ms` found in `s`, one per match and in the same order. */
  function EntriesOf(s: string, ms: seq<Match>): (es: seq<Entry>)
    requires forall m :: m in ms ==> EntryMatch(s, m)
    ensures |es| == |ms|
    ensures forall k :: 0 <= k < |ms| ==> es[k] == EntryOf(s, ms[k])
  {
    if |ms| == 0 then []
    else
      var rest := EntriesOf(s, ms[1..]);
      assert forall k :: 0 < k < |ms| ==> ms[k] == ms[1..][k - 1];
      [EntryOf(s, ms[0])] + rest
  }

  /**
   `re.findall(pattern_all_sections, page_index_text)`: the row of every match of the
   entry pattern on the page, in order, none left out.
   */
  function Entries(page: string): (es: seq<Entry>)
    ensures var ms := FindAll(page, AnyEntry, 0);
            && |es| == |ms|
            && forall k :: 0 <= k < |ms| ==> EntryMatch(page, ms[k]) && es[k] == EntryOf(page, ms[k])
  {
    var ms := FindAll(page, AnyEntry, 0);
    FoundEntriesMatch(page, ms);
    EntriesOf(page, ms)
  }

  /** Every match `re.findall` returns is a match of the entry pattern where it starts. */
  lemma FoundEntriesMatch(page: string, ms: seq<Match>)
    requires ms == FindAll(page, AnyEntry, 0)
    ensures forall k :: 0 <= k < |ms| ==> EntryMatch(page, ms[k])
  {
    forall k | 0 <= k < |ms|
      ensures EntryMatch(page, ms[k])
    {
      assert ms[k] in ms;
    }
  }

  /**
   The loop over the entries: before the section's entry is met, only compare numbers;
   after it, stop at the first entry of depth at most `level`.
   */
  function BoundaryFrom(es: seq<Entry>, i: nat, x: string, level: nat, found: bool): Option<Entry>
    requires i <= |es|
    decreases |es| - i
  {
    if i == |es| then None
    else if found then
      if Level(es[i].number) <= level then Some(es[i]) else BoundaryFrom(es, i + 1, x, level, true)
    else if es[i].number == x then BoundaryFrom(es, i + 1, x, level, true)
    else BoundaryFrom(es, i + 1, x, level, false)
  }

  /** The boundary entry of section `x` (its number and page), if the loop finds one. */
  function Boundary(es: seq<Entry>, x: string): Option<Entry> {
    BoundaryFrom(es, 0, x, Level(x), false)
  }

  // ---------------------------------------------------------------------------
  // The same choice stated by position

  /** The first position from `i` on whose entry carries number `x`. */
  function FirstNamed(es: seq<Entry>, i: nat, x: string): (r: Option<nat>)
    requires i <= |es|
    ensures r.Some? ==> i <= r.value < |es| && es[r.value].number == x
    ensures r.Some? ==> forall j :: i <= j < r.value ==> es[j].number != x
    ensures r.None? ==> forall j :: i <= j < |es| ==> es[j].number != x
  {
    if i == |es| then None
    else
      var named := (j: nat) => j < |es| && es[j].number == x;
      assert forall j: nat :: named(j) == (j < |es| && es[j].number == x);
      FirstIndex(named, i, |es| - 1)
  }

  /** The first position from `i` on whose entry is at depth `level` or shallower. */
  function FirstShallow(es: seq<Entry>, i: nat, level: nat): (r: Option<nat>)
    requires i <= |es|
    ensures r.Some? ==> i <= r.value < |es| && Level(es[r.value].number) <= level
    ensures r.Some? ==> forall j :: i <= j < r.value ==> Level(es[j].number) > level
    ensures r.None? ==> forall j :: i <= j < |es| ==> Level(es[j].number) > level
  {
    if i == |es| then None
    else
      var shallow := (j: nat) => j < |es| && Level(es[j].number) <= level;
      assert forall j: nat :: shallow(j) == (j < |es| && Level(es[j].number) <= level);
      FirstIndex(shallow, i, |es| - 1)
  }

  /** The entry the positional description picks: the first shallow entry after the first entry named `x`. */
  function Successor(es: seq<Entry>, x: string): Option<Entry> {
    match FirstNamed(es, 0, x)
    case None => None
    case Some(t) =>
      match FirstShallow(es, t + 1, Level(x))
      case None => None
      case Some(k) => Some(es[k])
  }

  /** After the section's entry has been met, the loop stops at the first shallow entry. */
  lemma {:induction false} BoundaryFromFound(es: seq<Entry>, i: nat, x: string, level: nat)
    requires i <= |es|
    ensures BoundaryFrom(es, i, x, level, true) ==
            match FirstShallow(es, i, level) case None => None case Some(k) => Some(es[k])
    decreases |es| - i
  {
    if i < |es| && Level(es[i].number) > level {
      BoundaryFromFound(es, i + 1, x, level);
      FirstShallowSkips(es, i, level);
    }
  }

  lemma FirstShallowSkips(es: seq<Entry>, i: nat, level: nat)
    requires i < |es| && Level(es[i].number) > level
    ensures FirstShallow(es, i, level) == FirstShallow(es, i + 1, level)
  {
  }

  lemma FirstNamedSkips(es: seq<Entry>, i: nat, x: string)
    requires i < |es| && es[i].number != x
    ensures FirstNamed(es, i, x) == FirstNamed(es, i + 1, x)
  {
  }

  /** Before the section's entry has been met, the loop looks for it and then for the first shallow entry after it. */
  lemma {:induction false} BoundaryFromSearching(es: seq<Entry>, i: nat, x: string)
    requires i <= |es|
    ensures BoundaryFrom(es, i, x, Level(x), false) ==
            match FirstNamed(es, i, x)
            case None => None
            case Some(t) =>
              match FirstShallow(es, t + 1, Level(x)) case None => None case Some(k) => Some(es[k])
    decreases |es| - i
  {
    if i < |es| {
      if es[i].number == x {
        assert FirstNamed(es, i, x) == Some(i);
        BoundaryFromFound(es, i + 1, x, Level(x));
      } else {
        BoundaryFromSearching(es, i + 1, x);
        FirstNamedSkips(es, i, x);
      }
    }
  }

  /**
   The loop picks exactly the first entry after the first entry numbered `x` whose depth
   is at most the depth of `x`; entries before that one are never picked, and without an
   entry numbered `x` or without such a successor there is no boundary.
   */
  lemma BoundaryIsSuccessor(es: seq<Entry>, x: string)
    ensures Boundary(es, x) == Successor(es, x)
  {
    BoundaryFromSearching(es, 0, x);
  }

  /** Without an entry numbered `x` there is no boundary. */
  lemma NoTargetNoBoundary(es: seq<Entry>, x: string)
    requires forall j :: 0 <= j < |es| ==> es[j].number != x
    ensures Boundary(es, x).None?
  {
    BoundaryIsSuccessor(es, x);
  }

  /**
   The boundary comes from a position after the first entry numbered `x`, is at most as
   deep as `x`, and every entry in between is deeper.
   */
  lemma BoundaryPosition(es: seq<Entry>, x: string)
    requires Boundary(es, x).Some?
    ensures var t := FirstNamed(es, 0, x);
            t.Some? &&
            var k := FirstShallow(es, t.value + 1, Level(x));
            && k.Some?
            && t.value < k.value && Boundary(es, x) == Some(es[k.value])
            && Level(Boundary(es, x).value.number) <= Level(x)
            && (forall j :: t.value < j < k.value ==> Level(es[j].number) > Level(x))
  {
    BoundaryIsSuccessor(es, x);
  }

  /** Entries before the first entry numbered `x` never become the boundary, whatever they are. */
  lemma EarlierEntriesIgnored(before: seq<Entry>, es: seq<Entry>, x: string)
    requires forall j :: 0 <= j < |before| ==> before[j].number != x
    ensures Boundary(before + es, x) == Boundary(es, x)
  {
    BoundaryFromPrefix(before, es, 0, x);
    BoundaryShift(before, es, x, Level(x), false, 0);
  }

  /** Skipping entries not numbered `x` before the section's entry is met. */
  lemma {:induction false} BoundaryFromPrefix(before: seq<Entry>, es: seq<Entry>, i: nat, x: string)
    requires i <= |before|
    requires forall j :: 0 <= j < |before| ==> before[j].number != x
    ensures BoundaryFrom(before + es, i, x, Level(x), false) == BoundaryFrom(before + es, |before|, x, Level(x), false)
    decreases |before| - i
  {
    if i < |before| {
      assert (before + es)[i] == before[i];
      BoundaryFromPrefix(before, es, i + 1, x);
    }
  }

  /** The loop over `before + es` from position `|before| + i` is the loop over `es` from `i`. */
  lemma {:induction false} BoundaryShift(before: seq<Entry>, es: seq<Entry>, x: string, level: nat, found: bool, i: nat)
    requires i <= |es|
    ensures BoundaryFrom(before + es, |before| + i, x, level, found) == BoundaryFrom(es, i, x, level, found)
    decreases |es| - i
  {
    if i < |es| {
      assert (before + es)[|before| + i] == es[i];
      BoundaryShift(before, es, x, level, true, i + 1);
      BoundaryShift(before, es, x, level, false, i + 1);
    }
  }
}
