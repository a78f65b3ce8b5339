/**
 * Splitting a range of a container into pages: positions stand for the
 * container's iterators, so a range is a pair of indices into a sequence.
 */
module Pagination {

  /** A half-open range of positions [first, last) of some container. */
  datatype IteratorRange = IteratorRange(first: nat, last: nat)
  {
    /** The number of positions the range spans. */
    function Size(): (n: nat)
      requires first <= last
      ensures first + n == last
    {
      last - first
    }

    /** The elements the range spans, in the container's order. */
    function Items<T>(c: seq<T>): (items: seq<T>)
      requires first <= last <= |c|
      ensures |items| == Size()
      ensures forall k :: 0 <= k < |items| ==> items[k] == c[first + k]
    {
      c[first..last]
    }
  }

  /**
   * The pages cover [begin, end) in order, one after the other, and none
   * of them is empty.
   */
  predicate Tiles(pages: seq<IteratorRange>, begin: nat, end: nat)
    decreases |pages|
  {
    if pages == [] then begin == end
    else begin == pages[0].first < pages[0].last && Tiles(pages[1..], pages[0].last, end)
  }

  /** Pages that tile a range lie inside it, and the range runs forward. */
  lemma {:induction false} TilesInside(pages: seq<IteratorRange>, begin: nat, end: nat)
    requires Tiles(pages, begin, end)
    ensures begin <= end
    ensures forall i :: 0 <= i < |pages| ==> begin <= pages[i].first < pages[i].last <= end
    decreases |pages|
  {
    if pages != [] {
      TilesInside(pages[1..], pages[0].last, end);
      assert forall i :: 1 <= i < |pages| ==> pages[i] == pages[1..][i - 1];
    }
  }

  /** Every page holds pageSize positions except the last, which holds at most that. */
  predicate FullPages(pages: seq<IteratorRange>, pageSize: nat)
  {
    && (forall i :: 0 <= i < |pages| ==> pages[i].first <= pages[i].last)
    && (forall i :: 0 <= i < |pages| - 1 ==> pages[i].Size() == pageSize)
    && (pages != [] ==> pages[|pages| - 1].Size() <= pageSize)
  }

  /** The number of pages: the full ones, and one more for a remainder. */
  function PageCount(n: nat, pageSize: nat): nat
    requires pageSize != 0
  {
    n / pageSize + if n % pageSize == 0 then 0 else 1
  }

  /** A positive multiple of d is at least d. */
  lemma MultipleAtLeast(k: int, d: int)
    requires k >= 1 && d > 0
    ensures k * d >= d
  {
    assert k * d == (k - 1) * d + d;
  }

  /** Euclidean division has one quotient and one remainder. */
  lemma DivUnique(m: int, d: int, q: int, r: int)
    requires 0 < d && 0 <= r < d && m == q * d + r
    ensures m / d == q && m % d == r
  {
    var q', r' := m / d, m % d;
    assert m == q' * d + r';
    assert (q - q') * d == q * d - q' * d;
    if q > q' {
      MultipleAtLeast(q - q', d);
    } else if q < q' {
      MultipleAtLeast(q' - q, d);
    }
  }

  /** Taking one full page off a range leaves one page fewer and the same remainder. */
  lemma DivStep(m: nat, pageSize: nat)
    requires 0 < pageSize <= m
    ensures (m - pageSize) / pageSize == m / pageSize - 1
    ensures (m - pageSize) % pageSize == m % pageSize
  {
    var q, r := m / pageSize, m % pageSize;
    assert m == q * pageSize + r;
    assert (q - 1) * pageSize == q * pageSize - pageSize;
    DivUnique(m - pageSize, pageSize, q - 1, r);
  }

  /** A range shorter than one page is the remainder alone. */
  lemma DivSmall(m: nat, pageSize: nat)
    requires m < pageSize
    ensures m / pageSize == 0 && m % pageSize == m
  {
    DivUnique(m, pageSize, 0, m);
  }

  /** The number of full pages that fit in a range of m positions. */
  function FullPageCount(m: nat, pageSize: nat): nat
    requires pageSize != 0
    decreases m
  {
    if m >= pageSize then 1 + FullPageCount(m - pageSize, pageSize) else 0
  }

  /** The number of pages of a range of m positions, counting a partial last page. */
  function PageTotal(m: nat, pageSize: nat): nat
    requires pageSize != 0
    decreases m
  {
    if m >= pageSize then 1 + PageTotal(m - pageSize, pageSize) else if m == 0 then 0 else 1
  }

  /** Counting full pages one at a time is dividing by the page size. */
  lemma FullPagesByDivision(m: nat, pageSize: nat, quotient: nat)
    requires pageSize != 0 && quotient == m / pageSize
    ensures FullPageCount(m, pageSize) == quotient
  {
    FullPageCountIsQuotient(m, pageSize);
  }

  /** Counting pages one at a time agrees with the division and the remainder. */
  lemma {:induction false} FullPageCountIsQuotient(m: nat, pageSize: nat)
    requires pageSize != 0
    ensures FullPageCount(m, pageSize) == m / pageSize
    ensures PageTotal(m, pageSize) == PageCount(m, pageSize)
    decreases m
  {
    if m >= pageSize {
      DivStep(m, pageSize);
      FullPageCountIsQuotient(m - pageSize, pageSize);
    } else {
      DivSmall(m, pageSize);
    }
  }

  /**
   * The pages of [begin, end): full pages of pageSize positions from the
   * start, then the remainder, if any, as a last, shorter page.
   */
  function Pages(begin: nat, end: nat, pageSize: nat): seq<IteratorRange>
    requires begin <= end && pageSize != 0
    decreases end - begin
  {
    if end - begin >= pageSize then
      [IteratorRange(begin, begin + pageSize)] + Pages(begin + pageSize, end, pageSize)
    else if begin == end then []
    else [IteratorRange(begin, end)]
  }

  /**
   * The pages cover the range in order without gaps, none is empty, and
   * all but the last are full.
   */
  lemma PagesShape(begin: nat, end: nat, pageSize: nat)
    requires begin <= end && pageSize != 0
    ensures Tiles(Pages(begin, end, pageSize), begin, end)
    ensures FullPages(Pages(begin, end, pageSize), pageSize)
  {
    PagesTile(begin, end, pageSize);
    PagesFull(begin, end, pageSize);
  }

  lemma {:induction false} PagesTile(begin: nat, end: nat, pageSize: nat)
    requires begin <= end && pageSize != 0
    ensures Tiles(Pages(begin, end, pageSize), begin, end)
    decreases end - begin
  {
    if end - begin >= pageSize {
      PagesTile(begin + pageSize, end, pageSize);
      var rest := Pages(begin + pageSize, end, pageSize);
      assert ([IteratorRange(begin, begin + pageSize)] + rest)[1..] == rest;
    }
  }

  lemma {:induction false} PagesFull(begin: nat, end: nat, pageSize: nat)
    requires begin <= end && pageSize != 0
    ensures FullPages(Pages(begin, end, pageSize), pageSize)
    decreases end - begin
  {
    if end - begin >= pageSize {
      PagesFull(begin + pageSize, end, pageSize);
      var rest := Pages(begin + pageSize, end, pageSize);
      var pages := [IteratorRange(begin, begin + pageSize)] + rest;
      assert forall i :: 1 <= i < |pages| ==> pages[i] == rest[i - 1];
    }
  }

  /** There are as many pages as full pages fit, and one more for a remainder. */
  lemma PagesCount(begin: nat, end: nat, pageSize: nat)
    requires begin <= end && pageSize != 0
    ensures |Pages(begin, end, pageSize)| == PageCount(end - begin, pageSize)
  {
    PagesTotal(begin, end, pageSize);
    FullPageCountIsQuotient(end - begin, pageSize);
  }

  /** The pages of a range number PageTotal of its length. */
  lemma {:induction false} PagesTotal(begin: nat, end: nat, pageSize: nat)
    requires begin <= end && pageSize != 0
    ensures |Pages(begin, end, pageSize)| == PageTotal(end - begin, pageSize)
    decreases end - begin
  {
    if end - begin >= pageSize {
      PagesTotal(begin + pageSize, end, pageSize);
      assert end - (begin + pageSize) == end - begin - pageSize;
    }
  }

  /**
   * The pages are the only way to cover [begin, end) with non-empty pages
   * that are full except the last.
   */
  lemma {:induction false} PagesUnique(pages: seq<IteratorRange>, begin: nat, end: nat, pageSize: nat)
    requires pageSize != 0
    requires Tiles(pages, begin, end) && FullPages(pages, pageSize)
    ensures begin <= end && pages == Pages(begin, end, pageSize)
    decreases |pages|
  {
    TilesInside(pages, begin, end);
    if pages != [] {
      var rest := pages[1..];
      var mid := pages[0].last;
      TilesInside(rest, mid, end);
      if rest == [] {
        assert pages == [IteratorRange(begin, end)];
      } else {
        assert pages[0].Size() == pageSize;
        assert FullPages(rest, pageSize) by {
          assert forall i :: 0 <= i < |rest| ==> rest[i] == pages[i + 1];
        }
        assert end - begin > pageSize;
        PagesUnique(rest, mid, end, pageSize);
        assert pages == [pages[0]] + rest;
      }
    }
  }

  /** The elements of every page, one page after the other. */
  function Flatten<T>(c: seq<T>, pages: seq<IteratorRange>): seq<T>
    requires forall i :: 0 <= i < |pages| ==> pages[i].first <= pages[i].last <= |c|
  {
    if pages == [] then [] else pages[0].Items(c) + Flatten(c, pages[1..])
  }

  /** Reading the pages in order gives back the range they cover, element for element. */
  lemma {:induction false} FlattenTiles<T>(c: seq<T>, pages: seq<IteratorRange>, begin: nat, end: nat)
    requires Tiles(pages, begin, end) && end <= |c|
    ensures begin <= end
    ensures forall i :: 0 <= i < |pages| ==> pages[i].first <= pages[i].last <= |c|
    ensures Flatten(c, pages) == c[begin..end]
    decreases |pages|
  {
    TilesInside(pages, begin, end);
    if pages != [] {
      FlattenTiles(c, pages[1..], pages[0].last, end);
      assert c[begin..end] == c[begin..pages[0].last] + c[pages[0].last..end];
    }
  }

  /** A range of at least one page starts with a full page. */
  lemma PagesFront(begin: nat, end: nat, pageSize: nat)
    requires pageSize != 0 && begin + pageSize <= end
    ensures Pages(begin, end, pageSize) ==
              [IteratorRange(begin, begin + pageSize)] + Pages(begin + pageSize, end, pageSize)
  {
  }

  /** A range shorter than a page is one partial page, or none when it is empty. */
  lemma PagesLast(begin: nat, end: nat, pageSize: nat)
    requires pageSize != 0 && begin <= end < begin + pageSize
    ensures Pages(begin, end, pageSize) == if begin == end then [] else [IteratorRange(begin, end)]
  {
  }

  /** The paginator's loop state: the pages built so far and the rest from tmp on are all the pages. */
  ghost predicate Building(begin: nat, end: nat, pageSize: nat, built: seq<IteratorRange>, tmp: nat)
    requires pageSize != 0
  {
    begin <= tmp <= end && built + Pages(tmp, end, pageSize) == Pages(begin, end, pageSize)
  }

  /** Before the loop nothing is built. */
  lemma BuildStart(begin: nat, end: nat, pageSize: nat)
    requires pageSize != 0 && begin <= end
    ensures Building(begin, end, pageSize, [], begin)
  {
    assert [] + Pages(begin, end, pageSize) == Pages(begin, end, pageSize);
  }

  /** One more full page built leaves one page fewer to build. */
  lemma BuildStep(begin: nat, end: nat, pageSize: nat, built: seq<IteratorRange>, tmp: nat)
    requires pageSize != 0 && tmp + pageSize <= end
    requires Building(begin, end, pageSize, built, tmp)
    ensures Building(begin, end, pageSize, built + [IteratorRange(tmp, tmp + pageSize)], tmp + pageSize)
  {
    PagesFront(tmp, end, pageSize);
    var page := [IteratorRange(tmp, tmp + pageSize)];
    assert (built + page) + Pages(tmp + pageSize, end, pageSize) ==
           built + (page + Pages(tmp + pageSize, end, pageSize));
  }

  /** When less than a page is left, the remainder, if any, is the last page. */
  lemma BuildDone(begin: nat, end: nat, pageSize: nat, built: seq<IteratorRange>, tmp: nat)
    requires pageSize != 0 && end < tmp + pageSize
    requires Building(begin, end, pageSize, built, tmp)
    ensures (if tmp != end then built + [IteratorRange(tmp, end)] else built) == Pages(begin, end, pageSize)
  {
    PagesLast(tmp, end, pageSize);
    assert built + [] == built;
  }

  /** The pages of a range, as the paginator builds and keeps them. */
  class Paginator {
    var pages: seq<IteratorRange>

    /**
     * Paginator: as many full pages as fit, then the remainder as a last
     * page when it is not empty.
     */
    constructor (begin: nat, end: nat, pageSize: nat)
      requires end >= begin && pageSize != 0
      ensures pages == Pages(begin, end, pageSize)
    {
      var sizeContainer := end - begin;
      var pageNumber := sizeContainer / pageSize;
      var tmp := begin;
      var built: seq<IteratorRange> := [];
      var pageCnt := 0;
      FullPagesByDivision(sizeContainer, pageSize, pageNumber);
      BuildStart(begin, end, pageSize);
      while pageCnt < pageNumber
        invariant 0 <= pageCnt <= pageNumber
        invariant begin <= tmp <= end
        invariant FullPageCount(end - tmp, pageSize) == pageNumber - pageCnt
        invariant Building(begin, end, pageSize, built, tmp)
      {
        assert end - tmp >= pageSize;
        assert FullPageCount(end - (tmp + pageSize), pageSize) == FullPageCount(end - tmp, pageSize) - 1;
        BuildStep(begin, end, pageSize, built, tmp);
        built := built + [IteratorRange(tmp, tmp + pageSize)];
        tmp := tmp + pageSize;
        pageCnt := pageCnt + 1;
      }
      BuildDone(begin, end, pageSize, built, tmp);
      if tmp != end {
        built := built + [IteratorRange(tmp, end)];
      }
      pages := built;
    }

    /** Size: the number of pages. */
    function Size(): (n: nat)
      reads this
      ensures n == |pages|
    {
      |pages|
    }
  }

  /** Paginate: the pages of a whole container. */
  method Paginate<T>(c: seq<T>, pageSize: nat) returns (p: Paginator)
    requires pageSize != 0
    ensures fresh(p)
    ensures p.pages == Pages(0, |c|, pageSize)
  {
    p := new Paginator(0, |c|, pageSize);
  }

  /** The pages of a container, read in order, are the container. */
  lemma PagesCoverContainer<T>(c: seq<T>, pageSize: nat)
    requires pageSize != 0
    ensures |Pages(0, |c|, pageSize)| == PageCount(|c|, pageSize)
    ensures forall i :: 0 <= i < |Pages(0, |c|, pageSize)| ==>
              Pages(0, |c|, pageSize)[i].first < Pages(0, |c|, pageSize)[i].last <= |c|
    ensures Flatten(c, Pages(0, |c|, pageSize)) == c
  {
    PagesCount(0, |c|, pageSize);
    PagesShape(0, |c|, pageSize);
    TilesInside(Pages(0, |c|, pageSize), 0, |c|);
    FlattenTiles(c, Pages(0, |c|, pageSize), 0, |c|);
  }
}
