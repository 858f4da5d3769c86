/** Ordering and truncation of search hits (search_server.h). */
module Ranking {
  import opened Documents

  /** `MAX_RESULT_DOCUMENT_COUNT`. */
  const MaxResultDocumentCount: nat := 5

  /** The tolerance under which two relevances count as equal. */
  const Epsilon: real := 0.000001

  function Abs(x: real): real {
    if x < 0.0 then -x else x
  }

  /** The comparator `FindTopDocuments` sorts with: higher relevance first,
      and for relevances closer than `Epsilon`, higher rating first. */
  predicate Before(lhs: Document, rhs: Document) {
    if Abs(lhs.relevance - rhs.relevance) < Epsilon then lhs.rating > rhs.rating
    else lhs.relevance > rhs.relevance
  }

  /** The comparator never puts two documents each before the other. */
  lemma BeforeAsymmetric(a: Document, b: Document)
    ensures Before(a, b) ==> !Before(b, a)
  {
    assert Abs(a.relevance - b.relevance) == Abs(b.relevance - a.relevance);
  }

  /** The comparator is not transitive: relevances 0, 0.7e-6 and 1.4e-6 with
      ratings 3, 2 and 1 form a cycle. It is therefore not a strict weak
      order, and only the order of neighbours is promised below. */
  lemma BeforeNotTransitive()
    ensures exists a: Document, b: Document, c: Document :: Before(a, b) && Before(b, c) && Before(c, a)
  {
    var a, b, c := Document(0, 0.0, 3), Document(1, 0.0000007, 2), Document(2, 0.0000014, 1);
    assert Before(a, b) && Before(b, c) && Before(c, a);
  }

  /** No document is strictly before its predecessor. */
  ghost predicate InRankOrder(s: seq<Document>) {
    forall k | 0 < k < |s| :: !Before(s[k], s[k - 1])
  }

  /** Neighbours in rank order: within `Epsilon` the rating does not increase,
      otherwise the relevance decreases. */
  lemma RankOrderNeighbours(s: seq<Document>, k: int)
    requires InRankOrder(s) && 0 < k < |s|
    ensures Abs(s[k - 1].relevance - s[k].relevance) < Epsilon ==> s[k - 1].rating >= s[k].rating
    ensures Abs(s[k - 1].relevance - s[k].relevance) >= Epsilon ==> s[k - 1].relevance > s[k].relevance
  {
    assert !Before(s[k], s[k - 1]);
    assert Abs(s[k - 1].relevance - s[k].relevance) == Abs(s[k].relevance - s[k - 1].relevance);
  }

  /** `std::sort` with `Before`, as an insertion sort: each element moves left
      past the elements it is strictly before. */
  method SortByRank(a: array<Document>)
    modifies a
    ensures InRankOrder(a[..])
    ensures multiset(a[..]) == multiset(old(a[..]))
  {
    var i := 0;
    while i < a.Length
      invariant 0 <= i <= a.Length
      invariant InRankOrder(a[..i])
      invariant multiset(a[..]) == multiset(old(a[..]))
    {
      MoveLeft(a, i);
      i := i + 1;
    }
    assert a[..a.Length] == a[..];
  }

  /** One pass of the insertion sort: `a[i]` moves left past every element
      it is strictly before, leaving the first `i + 1` elements in rank order. */
  method MoveLeft(a: array<Document>, i: int)
    requires 0 <= i < a.Length && InRankOrder(a[..i])
    modifies a
    ensures InRankOrder(a[..i + 1])
    ensures multiset(a[..]) == multiset(old(a[..]))
  {
    var j := i;
    assert a[..][..i] == a[..i];
    assert IsMoving(a[..], j, i);
    while j > 0 && Before(a[j], a[j - 1])
      invariant 0 <= j <= i
      invariant multiset(a[..]) == multiset(old(a[..]))
      invariant IsMoving(a[..], j, i)
    {
      ghost var s := a[..];
      SwapKeepsOrder(s, j, i);
      SwapPermutes(s, j - 1, j);
      var x, y := a[j - 1], a[j];
      a[j - 1] := y;
      a[j] := x;
      assert a[..] == s[j - 1 := y][j := x];
      j := j - 1;
    }
    InsertedInOrder(a[..], j, i);
    assert a[..i + 1] == a[..][..i + 1];
  }

  /** The state of one pass: the element being moved sits at `j`; the ones
      left of it and the ones it has passed are each in rank order, it is
      strictly before the first one it passed, and that one is not before
      its old left neighbour. */
  ghost predicate IsMoving(s: seq<Document>, j: int, i: int) {
    && 0 <= j <= i < |s|
    && InRankOrder(s[..j])
    && InRankOrder(s[j + 1..i + 1])
    && (j < i ==> Before(s[j], s[j + 1]))
    && (0 < j < i ==> !Before(s[j + 1], s[j - 1]))
  }

  /** Swapping two elements permutes the sequence. */
  lemma SwapPermutes(s: seq<Document>, x: int, y: int)
    requires 0 <= x < y < |s|
    ensures multiset(s[x := s[y]][y := s[x]]) == multiset(s)
  {
    var t := s[x := s[y]][y := s[x]];
    assert s == s[..x] + [s[x]] + s[x + 1..y] + [s[y]] + s[y + 1..];
    assert t == s[..x] + [s[y]] + s[x + 1..y] + [s[x]] + s[y + 1..];
  }

  /** The orders the inner loop keeps survive one swap of `s[j - 1]` and `s[j]`. */
  lemma SwapKeepsOrder(s: seq<Document>, j: int, i: int)
    requires 0 < j && IsMoving(s, j, i) && Before(s[j], s[j - 1])
    ensures IsMoving(s[j - 1 := s[j]][j := s[j - 1]], j - 1, i)
  {
    var t := s[j - 1 := s[j]][j := s[j - 1]];
    assert t[..j - 1] == s[..j - 1];
    var u, v := t[j..i + 1], s[j + 1..i + 1];
    assert u[1..] == v;
    forall k | 0 < k < |u| ensures !Before(u[k], u[k - 1]) {
      if k >= 2 {
        assert u[k] == v[k - 1] && u[k - 1] == v[k - 2];
      }
    }
    if 0 < j - 1 {
      assert s[..j][j - 1] == s[j - 1] && s[..j][j - 2] == s[j - 2];
    }
  }

  /** When the inner loop stops, the first `i + 1` elements are in rank order. */
  lemma InsertedInOrder(s: seq<Document>, j: int, i: int)
    requires IsMoving(s, j, i) && !(j > 0 && Before(s[j], s[j - 1]))
    ensures InRankOrder(s[..i + 1])
  {
    var p := s[..i + 1];
    forall k | 0 < k < |p| ensures !Before(p[k], p[k - 1]) {
      if k < j {
        assert s[..j][k] == s[k] && s[..j][k - 1] == s[k - 1];
      } else if k == j + 1 {
        BeforeAsymmetric(s[j], s[j + 1]);
      } else if k > j + 1 {
        assert s[j + 1..i + 1][k - j - 1] == s[k] && s[j + 1..i + 1][k - j - 2] == s[k - 1];
      }
    }
  }

  /** The hits `FindTopDocuments` returns for the matched documents `all`:
      the first `MaxResultDocumentCount` of some rank-ordered permutation of them. */
  ghost predicate IsTopOf(top: seq<Document>, all: seq<Document>) {
    exists sorted: seq<Document> ::
      && |sorted| == |all|
      && multiset(sorted) == multiset(all)
      && InRankOrder(sorted)
      && top == sorted[..if |all| > MaxResultDocumentCount then MaxResultDocumentCount else |all|]
  }

  /** The top hits are at most five, all of them if there are at most five,
      in rank order, and each one is a matched document with the same fields. */
  lemma TopProperties(top: seq<Document>, all: seq<Document>)
    requires IsTopOf(top, all)
    ensures |top| == if |all| > MaxResultDocumentCount then MaxResultDocumentCount else |all|
    ensures InRankOrder(top)
    ensures multiset(top) <= multiset(all)
    ensures forall d | d in top :: d in all
  {
    var sorted :| |sorted| == |all| && multiset(sorted) == multiset(all) && InRankOrder(sorted)
      && top == sorted[..if |all| > MaxResultDocumentCount then MaxResultDocumentCount else |all|];
    assert sorted == top + sorted[|top|..];
    assert multiset(sorted) == multiset(top) + multiset(sorted[|top|..]);
    forall k | 0 < k < |top| ensures !Before(top[k], top[k - 1]) {
      assert top[k] == sorted[k] && top[k - 1] == sorted[k - 1];
    }
    forall d | d in top ensures d in all {
      assert d in multiset(top);
      assert d in multiset(all);
    }
  }
}
