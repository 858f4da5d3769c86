/** Strictly sorted sequences: the model of `std::set`, whose iteration visits
    every element once, in increasing order of the comparator. */
module OrderedSet {

  ghost predicate IsStrictTotalOrder<T(!new)>(less: (T, T) -> bool) {
    && (forall a :: !less(a, a))
    && (forall a, b, c :: less(a, b) && less(b, c) ==> less(a, c))
    && (forall a, b :: a != b ==> less(a, b) || less(b, a))
  }

  ghost predicate IsSorted<T>(s: seq<T>, less: (T, T) -> bool) {
    forall i, j | 0 <= i < j < |s| :: less(s[i], s[j])
  }

  /** `std::set::insert`: adds `x` unless it is already there. */
  function Insert<T(==,!new)>(s: seq<T>, x: T, less: (T, T) -> bool): (r: seq<T>)
    requires IsStrictTotalOrder(less) && IsSorted(s, less)
    ensures IsSorted(r, less)
    ensures forall y :: y in r <==> y in s || y == x
    ensures x in s ==> r == s
    ensures x !in s ==> |r| == |s| + 1
  {
    if |s| == 0 then [x]
    else if x == s[0] then s
    else if less(x, s[0]) then [x] + s
    else
      var t := Insert(s[1..], x, less);
      assert forall y | y in t :: less(s[0], y);
      [s[0]] + t
  }

  /** `std::set::erase`: drops `x`. */
  function Remove<T(==,!new)>(s: seq<T>, x: T): (r: seq<T>)
    ensures forall y :: y in r <==> y in s && y != x
  {
    if |s| == 0 then []
    else if s[0] == x then Remove(s[1..], x)
    else
      var t := Remove(s[1..], x);
      [s[0]] + t
  }

  lemma {:induction false} RemoveKeepsSorted<T(!new)>(s: seq<T>, x: T, less: (T, T) -> bool)
    requires IsSorted(s, less)
    ensures IsSorted(Remove(s, x), less)
  {
    if |s| != 0 {
      RemoveKeepsSorted(s[1..], x, less);
      var t := Remove(s[1..], x);
      assert forall y | y in t :: less(s[0], y);
    }
  }

  /** The elements of a set, listed in increasing order. */
  method ToSorted<T(==,!new)>(s: set<T>, less: (T, T) -> bool) returns (r: seq<T>)
    requires IsStrictTotalOrder(less)
    ensures IsSorted(r, less)
    ensures forall x :: x in r <==> x in s
  {
    r := [];
    var rest := s;
    while rest != {}
      invariant rest <= s
      invariant IsSorted(r, less)
      invariant forall x :: x in r <==> x in s && x !in rest
      decreases rest
    {
      var x :| x in rest;
      r := Insert(r, x, less);
      rest := rest - {x};
    }
  }

  /** A sorted sequence is determined by its elements. */
  lemma {:induction false} SortedUnique<T(!new)>(a: seq<T>, b: seq<T>, less: (T, T) -> bool)
    requires IsStrictTotalOrder(less) && IsSorted(a, less) && IsSorted(b, less)
    requires forall x :: x in a <==> x in b
    ensures a == b
  {
    assert |a| != 0 ==> a[0] in b;
    assert |b| != 0 ==> b[0] in a;
    if |a| != 0 {
      SortedHead(a, b[0], less);
      SortedHead(b, a[0], less);
      assert a[0] == b[0];
      assert forall x :: x in a[1..] <==> x in b[1..] by {
        forall x ensures x in a[1..] <==> x in b[1..] {
          SortedTail(a, x, less);
          SortedTail(b, x, less);
        }
      }
      SortedUnique(a[1..], b[1..], less);
      assert a == [a[0]] + a[1..];
      assert b == [b[0]] + b[1..];
    }
  }

  lemma SortedHead<T(!new)>(s: seq<T>, x: T, less: (T, T) -> bool)
    requires IsSorted(s, less) && x in s
    ensures x == s[0] || less(s[0], x)
  {
    var k :| 0 <= k < |s| && s[k] == x;
    if k != 0 { assert less(s[0], s[k]); }
  }

  lemma SortedTail<T(!new)>(s: seq<T>, x: T, less: (T, T) -> bool)
    requires IsStrictTotalOrder(less) && IsSorted(s, less) && |s| != 0
    ensures x in s[1..] <==> x in s && x != s[0]
  {
    if x in s[1..] {
      var k :| 1 <= k < |s| && s[k] == x;
      assert less(s[0], s[k]);
    }
    if x in s && x != s[0] {
      var k :| 0 <= k < |s| && s[k] == x;
      assert k != 0;
      assert s[1..][k - 1] == x;
    }
  }

  /** A sorted sequence lists each element once, so its length is the size of its element set. */
  lemma {:induction false} SortedLength<T(!new)>(s: seq<T>, less: (T, T) -> bool)
    requires IsStrictTotalOrder(less) && IsSorted(s, less)
    ensures |s| == |Elements(s)|
  {
    if |s| != 0 {
      var t := s[1..];
      assert IsSorted(t, less);
      SortedLength(t, less);
      assert s[0] !in t;
      assert Elements(s) == Elements(t) + {s[0]} by {
        assert s == [s[0]] + t;
      }
    }
  }

  /** Appending an element above every element keeps a sequence sorted. */
  lemma AppendSorted<T>(s: seq<T>, x: T, less: (T, T) -> bool)
    requires IsSorted(s, less) && forall y | y in s :: less(y, x)
    ensures IsSorted(s + [x], less)
  {
    var t := s + [x];
    forall i, j | 0 <= i < j < |t| ensures less(t[i], t[j]) {
      if j == |s| {
        assert t[i] in s;
      } else {
        assert t[i] == s[i] && t[j] == s[j];
      }
    }
  }

  /** In a sorted sequence, everything before position `i` is below `s[i]`. */
  lemma PrefixBelow<T>(s: seq<T>, i: int, less: (T, T) -> bool)
    requires IsSorted(s, less) && 0 <= i < |s|
    ensures forall y | y in s[..i] :: less(y, s[i])
  {
    forall y | y in s[..i] ensures less(y, s[i]) {
      var k :| 0 <= k < i && s[..i][k] == y;
    }
  }

  /** A subset is no larger than its superset; a subset of the same size is the superset. */
  lemma {:induction false} SubsetCardinality<T>(a: set<T>, b: set<T>)
    requires a <= b
    ensures |a| <= |b|
    ensures |a| == |b| ==> a == b
    decreases |b|
  {
    if b != {} {
      var x :| x in b;
      if x in a {
        SubsetCardinality(a - {x}, b - {x});
        assert a == (a - {x}) + {x} && b == (b - {x}) + {x};
      } else {
        SubsetCardinality(a, b - {x});
      }
    }
  }

  function Elements<T>(s: seq<T>): set<T> {
    set x | x in s
  }

  predicate IntLess(a: int, b: int) { a < b }

  lemma IntLessIsStrictTotalOrder()
    ensures IsStrictTotalOrder(IntLess)
  {
  }

  /** `std::less<std::string>`: lexicographic order by character code. */
  predicate StringLess(a: seq<char>, b: seq<char>) {
    if |a| == 0 then |b| != 0
    else |b| != 0 && (a[0] < b[0] || (a[0] == b[0] && StringLess(a[1..], b[1..])))
  }

  lemma {:induction false} StringLessIrreflexive(a: seq<char>)
    ensures !StringLess(a, a)
  {
    if |a| != 0 { StringLessIrreflexive(a[1..]); }
  }

  lemma {:induction false} StringLessTransitive(a: seq<char>, b: seq<char>, c: seq<char>)
    requires StringLess(a, b) && StringLess(b, c)
    ensures StringLess(a, c)
  {
    if |a| != 0 && a[0] == b[0] && b[0] == c[0] {
      StringLessTransitive(a[1..], b[1..], c[1..]);
    }
  }

  lemma {:induction false} StringLessTotal(a: seq<char>, b: seq<char>)
    requires a != b
    ensures StringLess(a, b) || StringLess(b, a)
  {
    if |a| != 0 && |b| != 0 && a[0] == b[0] {
      assert a == [a[0]] + a[1..];
      assert b == [b[0]] + b[1..];
      StringLessTotal(a[1..], b[1..]);
    }
  }

  lemma StringLessIsStrictTotalOrder()
    ensures IsStrictTotalOrder(StringLess)
  {
    forall a ensures !StringLess(a, a) { StringLessIrreflexive(a); }
    forall a, b, c | StringLess(a, b) && StringLess(b, c) ensures StringLess(a, c) {
      StringLessTransitive(a, b, c);
    }
    forall a, b | a != b ensures StringLess(a, b) || StringLess(b, a) { StringLessTotal(a, b); }
  }

  /** Some element of a non-empty id set, for loops that visit a set one
      element at a time. */
  method AnyElement(s: set<int>) returns (x: int)
    requires s != {}
    ensures x in s
  {
    if forall y :: y !in s {
      assert false;
    }
    x :| x in s;
  }
}
