/**
 * Page arithmetic of the product listing: a fixed page size, the page count
 * `Math.ceil(totalRows / perPage)`, and the window `LIMIT offset, count`
 * selects from the id-ordered matching rows.
 */
module Pagination {

  /** Rows per page; the listing never varies it. */
  const PerPage: nat := 12

  function Min(a: int, b: int): int
  {
    if a <= b then a else b
  }

  /** `Math.ceil(totalRows / PerPage)` on a row count. */
  function TotalPages(totalRows: nat): (pages: nat)
    ensures pages * PerPage >= totalRows
    ensures pages == 0 || (pages - 1) * PerPage < totalRows
  {
    (totalRows + PerPage - 1) / PerPage
  }

  lemma TotalPagesMonotone(m: nat, n: nat)
    requires m <= n
    ensures TotalPages(m) <= TotalPages(n)
  {
  }

  /** MySQL's `LIMIT offset, count` over an ordered result: the rows at positions offset .. offset+count-1 that exist. */
  function Limit<T>(all: seq<T>, offset: nat, count: nat): (r: seq<T>)
    ensures |r| == if offset >= |all| then 0 else Min(count, |all| - offset)
    ensures forall i :: 0 <= i < |r| ==> r[i] == all[offset + i]
  {
    if offset >= |all| then [] else all[offset..Min(offset + count, |all|)]
  }

  /** Offset of the first row of a page: `(page - 1) * perPage`. */
  function PageOffset(page: nat): nat
    requires page >= 1
  {
    (page - 1) * PerPage
  }

  /** The rows one page shows. */
  function PageRows<T>(all: seq<T>, page: nat): seq<T>
    requires page >= 1
  {
    Limit(all, PageOffset(page), PerPage)
  }

  /** Pages 1 .. last, concatenated. */
  function PagesThrough<T>(all: seq<T>, last: nat): seq<T>
  {
    if last == 0 then [] else PagesThrough(all, last - 1) + PageRows(all, last)
  }

  /** The pages 1 .. last of a page function, concatenated. */
  function Through<T>(rows: nat -> seq<T>, last: nat): seq<T>
  {
    if last == 0 then [] else Through(rows, last - 1) + rows(last)
  }

  /** A page function that shows each page's window reads, through page `last`, as the pages of `all`. */
  lemma {:induction false} ThroughAgrees<T>(rows: nat -> seq<T>, all: seq<T>, last: nat)
    requires forall p :: 1 <= p <= last ==> rows(p) == PageRows(all, p)
    ensures Through(rows, last) == PagesThrough(all, last)
  {
    if last > 0 {
      ThroughAgrees(rows, all, last - 1);
    }
  }

  /** The first `last` pages, read in order, are the first `last * PerPage` rows. */
  lemma {:induction false} PagesThroughIsPrefix<T>(all: seq<T>, last: nat)
    ensures PagesThrough(all, last) == all[..Min(last * PerPage, |all|)]
  {
    if last > 0 {
      PagesThroughIsPrefix(all, last - 1);
      var lo := Min((last - 1) * PerPage, |all|);
      var hi := Min(last * PerPage, |all|);
      assert all[..hi] == all[..lo] + all[lo..hi];
      if (last - 1) * PerPage < |all| {
        assert PageRows(all, last) == all[lo..hi];
      }
    }
  }

  /** Reading pages 1 .. TotalPages in order yields every matching row exactly once, in order. */
  lemma PagesReassemble<T>(all: seq<T>)
    ensures PagesThrough(all, TotalPages(|all|)) == all
  {
    PagesThroughIsPrefix(all, TotalPages(|all|));
    assert all[..|all|] == all;
  }

  /** Row index i lies in the window of page p. */
  predicate InWindow(i: nat, page: nat)
  {
    page >= 1 && (page - 1) * PerPage <= i < page * PerPage
  }

  /** Windows are disjoint: each row index lies in the window of exactly one page. */
  lemma WindowsPartition(i: nat, page: nat)
    ensures InWindow(i, page) <==> page == i / PerPage + 1
  {
  }

  /** The page holding any existing row is one the listing serves. */
  lemma EveryRowOnSomePage(totalRows: nat, i: nat)
    requires i < totalRows
    ensures 1 <= i / PerPage + 1 <= TotalPages(totalRows)
    ensures InWindow(i, i / PerPage + 1)
  {
  }

  /** Every page in 1 .. TotalPages shows between 1 and PerPage rows; every later page shows none. */
  lemma PageSizes<T>(all: seq<T>, page: nat)
    requires page >= 1
    ensures page <= TotalPages(|all|) ==> 1 <= |PageRows(all, page)| <= PerPage
    ensures page > TotalPages(|all|) ==> PageRows(all, page) == []
  {
  }
}
