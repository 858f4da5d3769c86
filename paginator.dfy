/** The paginator (paginator.h): a range of `count` elements cut into pages
    of `pageSize` elements, each page a pair of positions into the range. */
module Pagination {
  import opened Errors

  /** `IteratorRange`: the elements from position `begin` up to, not
      including, position `end`. */
  datatype IteratorRange = IteratorRange(begin: nat, end: nat)

  /** `Paginator`: its page size and its pages, in order. */
  datatype Paginator = Paginator(pageSize: int, pages: seq<IteratorRange>)

  /** The pages as the loop leaves them for `0 < pageSize < count`: full
      pages, then one page from the last full page's end to `count`. */
  ghost predicate IsPaging(pages: seq<IteratorRange>, count: nat, pageSize: nat) {
    && |pages| != 0
    && (forall k | 0 <= k < |pages| - 1 :: pages[k] == IteratorRange(k * pageSize, (k + 1) * pageSize))
    && pages[|pages| - 1] == IteratorRange((|pages| - 1) * pageSize, count)
    && (|pages| - 1) * pageSize < count <= |pages| * pageSize
  }

  /** The `Paginator` constructor over `count` elements. At most one page of
      elements gives one page spanning them all, even none; otherwise a
      positive page size gives the pages of `IsPaging`; otherwise the
      constructor throws `invalid_argument`. */
  method NewPaginator(count: nat, pageSize: int) returns (r: Result<Paginator>)
    ensures count <= pageSize ==> r == Ok(Paginator(pageSize, [IteratorRange(0, count)]))
    ensures 0 < pageSize < count ==> r.Ok? && r.value.pageSize == pageSize && IsPaging(r.value.pages, count, pageSize)
    ensures pageSize <= 0 && pageSize < count ==> r == Err(InvalidPageSize)
  {
    if count <= pageSize {
      return Ok(Paginator(pageSize, [IteratorRange(0, count)]));
    } else if pageSize > 0 {
      var pages: seq<IteratorRange> := [];
      var i := pageSize;
      while i < count
        invariant i == (|pages| + 1) * pageSize
        invariant |pages| * pageSize < count
        invariant forall k | 0 <= k < |pages| :: pages[k] == IteratorRange(k * pageSize, (k + 1) * pageSize)
        decreases count - i
      {
        pages := pages + [IteratorRange(i - pageSize, i)];
        i := i + pageSize;
      }
      if i > count - 1 {
        i := i - pageSize;
        pages := pages + [IteratorRange(i, count)];
      }
      return Ok(Paginator(pageSize, pages));
    } else {
      return Err(InvalidPageSize);
    }
  }

  /** `Paginate`: the paginator over a whole container. */
  method Paginate<T>(c: seq<T>, pageSize: int) returns (r: Result<Paginator>)
    ensures |c| <= pageSize ==> r == Ok(Paginator(pageSize, [IteratorRange(0, |c|)]))
    ensures 0 < pageSize < |c| ==> r.Ok? && r.value.pageSize == pageSize && IsPaging(r.value.pages, |c|, pageSize)
    ensures pageSize <= 0 && pageSize < |c| ==> r == Err(InvalidPageSize)
  {
    r := NewPaginator(|c|, pageSize);
  }

  /** Every page lies within the `count` elements, in order. */
  ghost predicate WithinRange(pages: seq<IteratorRange>, count: nat) {
    forall k | 0 <= k < |pages| :: pages[k].begin <= pages[k].end <= count
  }

  /** The elements each page shows, as `operator<<` prints them. */
  function PageContents<T>(c: seq<T>, pages: seq<IteratorRange>): (r: seq<seq<T>>)
    requires forall k | 0 <= k < |pages| :: pages[k].begin <= pages[k].end <= |c|
    ensures |r| == |pages|
    ensures forall k | 0 <= k < |pages| :: r[k] == c[pages[k].begin..pages[k].end]
  {
    seq(|pages|, k requires 0 <= k < |pages| => c[pages[k].begin..pages[k].end])
  }

  /** The pages shown one after the other. */
  function Concat<T>(pages: seq<seq<T>>): seq<T>
    decreases |pages|
  {
    if |pages| == 0 then [] else Concat(pages[..|pages| - 1]) + pages[|pages| - 1]
  }

  /** The full pages of a paging are within range and have `pageSize` elements; the last has from 1 to `pageSize`. */
  lemma PageSizes(pages: seq<IteratorRange>, count: nat, pageSize: nat)
    requires pageSize > 0 && IsPaging(pages, count, pageSize)
    ensures WithinRange(pages, count)
    ensures forall k | 0 <= k < |pages| - 1 :: pages[k].end - pages[k].begin == pageSize
    ensures 1 <= pages[|pages| - 1].end - pages[|pages| - 1].begin <= pageSize
  {
    var n := |pages|;
    forall k | 0 <= k < n - 1 ensures pages[k].begin <= pages[k].end <= count {
      assert (k + 1) * pageSize <= (n - 1) * pageSize by {
        MultiplyMonotone(k + 1, n - 1, pageSize);
      }
    }
    assert n * pageSize == (n - 1) * pageSize + pageSize;
  }

  /** `a <= b` scales by a natural factor. */
  lemma MultiplyMonotone(a: nat, b: nat, m: nat)
    requires a <= b
    ensures a * m <= b * m
  {
    assert b * m == a * m + (b - a) * m;
  }

  /** The pages of a paging, shown in order, are the whole container. */
  lemma PagesCover<T>(c: seq<T>, pages: seq<IteratorRange>, pageSize: nat)
    requires pageSize > 0 && IsPaging(pages, |c|, pageSize)
    ensures WithinRange(pages, |c|)
    ensures Concat(PageContents(c, pages)) == c
  {
    PageSizes(pages, |c|, pageSize);
    var n := |pages|;
    PrefixCover(c, pages, pageSize, n - 1);
    var show := PageContents(c, pages);
    assert show[..n - 1] == PageContents(c, pages[..n - 1]);
    assert c[..(n - 1) * pageSize] + c[(n - 1) * pageSize..|c|] == c;
  }

  /** The first `m` full pages shown in order are the first `m * pageSize` elements. */
  lemma {:induction false} PrefixCover<T>(c: seq<T>, pages: seq<IteratorRange>, pageSize: nat, m: nat)
    requires pageSize > 0 && IsPaging(pages, |c|, pageSize) && m <= |pages| - 1
    requires WithinRange(pages, |c|)
    ensures m * pageSize <= |c|
    ensures Concat(PageContents(c, pages[..m])) == c[..m * pageSize]
    decreases m
  {
    if m == 0 {
      assert PageContents(c, pages[..0]) == [];
    } else {
      PrefixCover(c, pages, pageSize, m - 1);
      var a, b := (m - 1) * pageSize, m * pageSize;
      assert pages[m - 1] == IteratorRange(a, b);
      var show := PageContents(c, pages[..m]);
      assert show[..m - 1] == PageContents(c, pages[..m - 1]);
      assert Concat(show) == Concat(show[..m - 1]) + show[m - 1];
      assert show[m - 1] == c[a..b];
      assert c[..a] + c[a..b] == c[..b];
    }
  }

  /** A paging has the ceiling of `count / pageSize` pages. */
  lemma PageCount(pages: seq<IteratorRange>, count: nat, pageSize: nat)
    requires pageSize > 0 && IsPaging(pages, count, pageSize)
    ensures |pages| == (count + pageSize - 1) / pageSize
  {
    var n := |pages|;
    var x := count + pageSize - 1;
    assert n * pageSize <= x < (n + 1) * pageSize;
    DivisionBetween(x, pageSize, n);
  }

  /** If `n * d <= x < (n + 1) * d` then `x / d == n`. */
  lemma DivisionBetween(x: nat, d: nat, n: nat)
    requires d > 0 && n * d <= x < (n + 1) * d
    ensures x / d == n
  {
    var q, m := x / d, x % d;
    assert x == q * d + m && 0 <= m < d;
    if q < n {
      MultiplyMonotone(q + 1, n, d);
      assert false;
    } else if q > n {
      MultiplyMonotone(n + 1, q, d);
      assert false;
    }
  }

  /** Four results with page sizes 3, 2 and 1 give 2, 2 and 4 pages (page
      size 4 gives the single page of `NewPaginator`). */
  lemma PageCountExamples(p3: seq<IteratorRange>, p2: seq<IteratorRange>, p1: seq<IteratorRange>)
    requires IsPaging(p3, 4, 3) && IsPaging(p2, 4, 2) && IsPaging(p1, 4, 1)
    ensures |p3| == 2 && |p2| == 2 && |p1| == 4
  {
    PageCount(p3, 4, 3);
    PageCount(p2, 4, 2);
    PageCount(p1, 4, 1);
  }
}
