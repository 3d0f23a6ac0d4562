/**
 Looking a section up in the document's table of contents
 (src/app/services/service.py:46-52, 55-61, 103-110). The three copies of the loop are
 the same: walk the pages in order, consider a page only when it holds `"<x> "` and is
 either one of the first five pieces or holds the word `Índice`, and stop at the first
 such page on which the entry pattern `x\s+([^\n]+)\s*(\d+)` matches; the page group of
 that match is the section's page number.
 */
module IndexLookup {
  import opened Wrappers
  import opened Text
  import opened Numerals
  import opened Scan
  import opened Patterns

  /** The word that marks a table-of-contents page. */
  const IndexWord: string := "\U{CD}ndice"

  /** Page `i` is looked at for section `x`. */
  predicate Eligible(pages: seq<string>, i: nat, x: string) {
    && i < |pages|
    && Contains(pages[i], x + " ")
    && (Contains(pages[i], IndexWord) || i < 5)
  }

  /** `int(match.group(2))` for the first entry match of section `x` on the page. */
  function EntryPage(page: string, x: string): Option<nat> {
    match Search(page, SectionEntry(x), 0)
    case None => None
    case Some(m) => Some(DigitsValue(GroupText(page, m.groups[1])))
  }

  /** Page `i` ends the lookup: it is looked at and its entry pattern matches. */
  predicate Hit(pages: seq<string>, i: nat, x: string) {
    Eligible(pages, i, x) && EntryPage(pages[i], x).Some?
  }

  /** Where the lookup stopped: the piece index (`index_page`) and the page number read there. */
  datatype IndexHit = IndexHit(index: nat, page: nat)

  /** The lookup loop: the first page in document order that is a hit, or none. */
  function Lookup(pages: seq<string>, x: string): (r: Option<IndexHit>)
    ensures r.Some? ==> Hit(pages, r.value.index, x)
    ensures r.Some? ==> EntryPage(pages[r.value.index], x) == Some(r.value.page)
    ensures r.Some? ==> forall i :: 0 <= i < r.value.index ==> !Hit(pages, i, x)
    ensures r.None? ==> forall i :: 0 <= i < |pages| ==> !Hit(pages, i, x)
  {
    if |pages| == 0 then None
    else
      var hit := (i: nat) => Hit(pages, i, x);
      assert forall i: nat :: hit(i) == Hit(pages, i, x);
      match FirstIndex(hit, 0, |pages| - 1)
      case None => None
      case Some(i) => Some(IndexHit(i, EntryPage(pages[i], x).value))
  }

  /** Once the lookup has found its page, the pages after it make no difference. */
  lemma LookupIgnoresLaterPages(pages: seq<string>, more: seq<string>, x: string)
    requires Lookup(pages, x).Some?
    ensures Lookup(pages + more, x) == Lookup(pages, x)
  {
    var all := pages + more;
    forall i | 0 <= i < |pages|
      ensures Hit(all, i, x) == Hit(pages, i, x)
    {
      assert all[i] == pages[i];
    }
    var r := Lookup(pages, x).value;
    assert Hit(all, r.index, x);
    var r' := Lookup(all, x).value;
    assert r'.index == r.index;
  }
}
