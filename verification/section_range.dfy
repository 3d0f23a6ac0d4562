/**
 Dotted section numbers such as `7.1.3`: their depth in the outline, and the two
 neighbours the extractor falls back on when the index has no entry for a section
 (src/app/services/service.py:21-38, 169).
 */
module SectionRange {
  import opened Wrappers
  import opened Text
  import opened Numerals

  /** `int()` raised `ValueError` on the last component of the section number. */
  datatype ValueError = ValueError

  /** The components of a section number: `section.split(".")`. */
  function Components(section: string): (parts: seq<string>)
    ensures |parts| >= 1
  {
    Split(section, ".")
  }

  /** The depth of a section number in the outline: `len(section.split("."))`. */
  function Level(section: string): (n: nat)
    ensures n >= 1
  {
    |Components(section)|
  }

  /** The number of dots in `s`. */
  function Dots(s: string): nat
    decreases |s|
  {
    if |s| == 0 then 0 else (if s[0] == '.' then 1 else 0) + Dots(s[1..])
  }

  lemma {:induction false} DotsAppend(a: string, b: string)
    ensures Dots(a + b) == Dots(a) + Dots(b)
    decreases |a|
  {
    if |a| == 0 {
      assert a + b == b;
    } else {
      DotsAppend(a[1..], b);
      assert (a + b)[1..] == a[1..] + b;
    }
  }

  lemma {:induction false} NoDots(s: string)
    requires '.' !in s
    ensures Dots(s) == 0
    decreases |s|
  {
    if |s| > 0 {
      assert s[0] in s && forall c :: c in s[1..] ==> c in s;
      NoDots(s[1..]);
    }
  }

  /** A section number is one level deeper than the number of its dots. */
  lemma {:induction false} LevelCountsDots(s: string)
    ensures Level(s) == Dots(s) + 1
    decreases |s|
  {
    match FindFrom(s, ".", 0)
    case None =>
      ContainsChar(s, '.');
      NoDots(s);
    case Some(i) =>
      LevelCountsDots(s[i + 1..]);
      DotsAtFirst(s, i);
  }

  /** Up to its first dot, `s` holds no dot. */
  lemma DotsAtFirst(s: string, i: nat)
    requires FindFrom(s, ".", 0) == Some(i)
    ensures Dots(s) == 1 + Dots(s[i + 1..])
  {
    var a, b := s[..i], s[i + 1..];
    OccursAtChar(s, '.', i);
    assert s == a + ['.'] + b;
    forall j | 0 <= j < i
      ensures a[j] != '.'
    {
      OccursAtChar(s, '.', j);
    }
    NoDots(a);
    DotsAppend(a + ['.'], b);
    DotsAppend(a, ['.']);
  }

  /** All components but the last. */
  function Front(section: string): seq<string> {
    var parts := Components(section);
    parts[..|parts| - 1]
  }

  /** The last component, the one `int()` converts. */
  function LastComponent(section: string): string {
    var parts := Components(section);
    parts[|parts| - 1]
  }

  /** The number with the same leading components and last component `str(i)`. */
  function WithLast(section: string, i: int): string {
    Join(Front(section) + [IntToString(i)], ".")
  }

  /** The number without its last component: `".".join(parts[:-1])`. */
  function Parent(section: string): string {
    Join(Front(section), ".")
  }

  /**
   The fallback neighbours `(previous, next)` of a section number. The next one is two
   further on at the same depth; the previous one is the sibling just before, or the
   parent when the last component is not positive, or the section itself at depth one.
   */
  function Neighbours(section: string): (r: Result<(string, string), ValueError>)
    ensures r.Failure? <==> ParseInt(LastComponent(section)).None?
  {
    match ParseInt(LastComponent(section))
    case None => Failure(ValueError)
    case Some(last) =>
      var prev :=
        if Level(section) > 1 then
          if last > 0 then WithLast(section, last - 1) else Parent(section)
        else section;
      Success((prev, WithLast(section, last + 2)))
  }

  /** The next neighbour keeps every component but the last, which it raises by two. */
  lemma NextNeighbour(section: string)
    requires Neighbours(section).Success?
    ensures var next := Neighbours(section).value.1;
            && Front(next) == Front(section)
            && ParseInt(LastComponent(next)) == Some(ParseInt(LastComponent(section)).value + 2)
  {
    SiblingParts(section, ParseInt(LastComponent(section)).value + 2);
  }

  /**
   The previous neighbour: the section itself at depth one; otherwise the preceding
   sibling when the last component is positive, and the parent when it is not.
   */
  lemma PreviousNeighbour(section: string)
    requires Neighbours(section).Success?
    ensures var last := ParseInt(LastComponent(section)).value;
            var prev := Neighbours(section).value.0;
            && (Level(section) == 1 ==> prev == section)
            && (Level(section) > 1 && last > 0 ==>
                  Front(prev) == Front(section) && ParseInt(LastComponent(prev)) == Some(last - 1))
            && (Level(section) > 1 && last <= 0 ==> Components(prev) == Front(section))
  {
    var last := ParseInt(LastComponent(section)).value;
    if Level(section) > 1 {
      if last > 0 {
        SiblingParts(section, last - 1);
      } else {
        ParentParts(section);
      }
    }
  }

  /** A sibling number splits into the shared leading components and its own last one. */
  lemma SiblingParts(section: string, i: int)
    ensures Front(WithLast(section, i)) == Front(section)
    ensures ParseInt(LastComponent(WithLast(section, i))) == Some(i)
  {
    var front := Front(section);
    var pieces := front + [IntToString(i)];
    SplitPiecesLackChar(section, '.');
    forall k | 0 <= k < |pieces|
      ensures '.' !in pieces[k]
    {
      if k < |front| {
        assert pieces[k] == Components(section)[k];
      }
    }
    SplitJoinChar(pieces, '.');
    assert pieces[..|pieces| - 1] == front;
    ParseIntOfIntToString(i);
  }

  /** The parent number splits into the section's leading components. */
  lemma ParentParts(section: string)
    requires Level(section) > 1
    ensures Components(Parent(section)) == Front(section)
  {
    var front := Front(section);
    SplitPiecesLackChar(section, '.');
    forall k | 0 <= k < |front|
      ensures '.' !in front[k]
    {
      assert front[k] == Components(section)[k];
    }
    SplitJoinChar(front, '.');
  }
}

module SectionRangeExamples {
  import opened Wrappers
  import opened Chars
  import opened Text
  import opened Numerals
  import opened SectionRange

  /** `7.1` falls back to the range `7.0` … `7.3`. */
  lemma SiblingExample()
    ensures Neighbours("7.1") == Success(("7.0", "7.3"))
  {
    assert "7.1" == "7" + ['.'] + "1";
    SplitAtFirstChar("7", '.', "1");
    SplitWithoutChar("1", '.');
    assert Components("7.1") == ["7", "1"];
    StripUnchanged("1");
    assert ParseInt("1") == Some(1);
    assert IntToString(0) == "0" && IntToString(3) == "3";
    assert Join(["7", "0"], ".") == "7.0";
    assert Join(["7", "3"], ".") == "7.3";
  }

  /** A zero last component falls back to the parent: `7.0` gives `7` … `7.2`. */
  lemma ParentExample()
    ensures Neighbours("7.0") == Success(("7", "7.2"))
  {
    ParentParts();
    ZeroParts();
    assert Front("7.0") == ["7"] && LastComponent("7.0") == "0" && Level("7.0") == 2;
    assert Parent("7.0") == Join(["7"], ".") == "7";
    assert WithLast("7.0", 2) == Join(["7", "2"], ".") by {
      assert IntToString(2) == "2";
    }
    assert Join(["7", "2"], ".") == "7.2";
  }

  /** `7.0` splits into `7` and `0`. */
  lemma ParentParts()
    ensures Components("7.0") == ["7", "0"]
  {
    assert "7.0" == "7" + ['.'] + "0";
    SplitAtFirstChar("7", '.', "0");
    SplitWithoutChar("0", '.');
  }

  /** `int("0") == 0`. */
  lemma ZeroParts()
    ensures ParseInt("0") == Some(0)
  {
    StripUnchanged("0");
  }

  /** A single component is its own previous neighbour: `12` gives `12` … `14`. */
  lemma TopLevelExample()
    ensures Neighbours("12") == Success(("12", "14"))
  {
    SplitWithoutChar("12", '.');
    StripUnchanged("12");
    assert DigitsValue("12") == 12 by {
      assert "12"[..1] == "1";
    }
    assert ParseInt("12") == Some(12);
    assert NatToString(14) == NatToString(1) + [DigitChar(4)];
    assert IntToString(14) == "14";
  }

  /** A last component that is not an integer makes `int()` raise. */
  lemma NonNumericExample()
    ensures Neighbours("7.x") == Failure(ValueError)
  {
    assert "7.x" == "7" + ['.'] + "x";
    SplitAtFirstChar("7", '.', "x");
    SplitWithoutChar("x", '.');
    assert Components("7.x") == ["7", "x"];
    StripUnchanged("x");
  }
}
