/** Per-word rules of the search server: word validity, stop-word filtering
    and the average rating (search_server.cpp). */
module WordRules {
  import opened StringProcessing

  /** `IsValidWord`: true when no character is a control character (code 0 to 31).
      The source tests `c >= '\0' && c < ' '` on a possibly signed `char`, so
      bytes from 128 up count as valid; here every character from the space
      upwards is valid. */
  function IsValidWord(word: String): (r: bool)
    ensures r <==> forall i | 0 <= i < |word| :: word[i] >= ' '
  {
    if |word| == 0 then true
    else !('\0' <= word[0] < ' ') && IsValidWord(word[1..])
  }

  /** `SplitIntoWordsNoStop` on an already split text: the words, in order,
      with every stop word dropped. */
  function WithoutStopWords(words: seq<String>, stopWords: set<String>): (r: seq<String>)
    ensures forall w :: w in r <==> w in words && w !in stopWords
    ensures |r| <= |words|
    decreases |words|
  {
    if |words| == 0 then []
    else
      var init := words[..|words| - 1];
      var w := words[|words| - 1];
      assert words == init + [w];
      var kept := WithoutStopWords(init, stopWords);
      if w in stopWords then kept else kept + [w]
  }

  /** The filter keeps every occurrence of a non-stop word and none of a stop word. */
  lemma {:induction false} WithoutStopWordsCounts(words: seq<String>, stopWords: set<String>, w: String)
    ensures w !in stopWords ==> multiset(WithoutStopWords(words, stopWords))[w] == multiset(words)[w]
    ensures w in stopWords ==> multiset(WithoutStopWords(words, stopWords))[w] == 0
    decreases |words|
  {
    if |words| != 0 {
      var init := words[..|words| - 1];
      var v := words[|words| - 1];
      assert words == init + [v];
      WithoutStopWordsCounts(init, stopWords, w);
      assert multiset(words) == multiset(init) + multiset{v};
      var kept := WithoutStopWords(init, stopWords);
      assert multiset(kept + [v]) == multiset(kept) + multiset{v};
    }
  }

  /** One more word for the filter: kept unless it is a stop word. */
  lemma WithoutStopWordsSnoc(words: seq<String>, w: String, stopWords: set<String>)
    ensures WithoutStopWords(words + [w], stopWords)
         == WithoutStopWords(words, stopWords) + (if w in stopWords then [] else [w])
  {
    assert (words + [w])[..|words|] == words;
  }

  /** `std::accumulate(ratings, 0)`: the left-to-right sum. */
  function Sum(xs: seq<int>): int
    decreases |xs|
  {
    if |xs| == 0 then 0 else Sum(xs[..|xs| - 1]) + xs[|xs| - 1]
  }

  /** C++ `int` division: the quotient rounded toward zero (Dafny's `/` is Euclidean). */
  function TruncatingDivision(a: int, b: int): int
    requires b > 0
  {
    if a >= 0 then a / b else -((-a) / b)
  }

  /** `ComputeAverageRating`: 0 without ratings, otherwise the mean rounded
      toward zero. */
  function ComputeAverageRating(ratings: seq<int>): (r: int)
    ensures |ratings| == 0 ==> r == 0
    ensures |ratings| != 0 && Sum(ratings) >= 0 ==>
      0 <= r && r * |ratings| <= Sum(ratings) < (r + 1) * |ratings|
    ensures |ratings| != 0 && Sum(ratings) < 0 ==>
      r <= 0 && (r - 1) * |ratings| < Sum(ratings) <= r * |ratings|
  {
    if |ratings| == 0 then 0
    else
      var s, n := Sum(ratings), |ratings|;
      TruncationBounds(s, n);
      TruncatingDivision(s, n)
  }

  /** The quotient rounded toward zero lies within one divisor of the dividend,
      on the side of zero. */
  lemma TruncationBounds(a: int, b: int)
    requires b > 0
    ensures a >= 0 ==> 0 <= TruncatingDivision(a, b) && TruncatingDivision(a, b) * b <= a < (TruncatingDivision(a, b) + 1) * b
    ensures a < 0 ==> TruncatingDivision(a, b) <= 0 && (TruncatingDivision(a, b) - 1) * b < a <= TruncatingDivision(a, b) * b
  {
    var t := TruncatingDivision(a, b);
    if a >= 0 {
      FloorBounds(a, b);
      ShiftProduct(t, b);
    } else {
      FloorBounds(-a, b);
      var q := (-a) / b;
      assert t == -q;
      NegateProduct(q, b);
      ShiftProduct(q, b);
      NegateProduct(q + 1, b);
    }
  }

  /** Euclidean division of a natural number: the quotient times the divisor
      is within one divisor below the dividend. */
  lemma FloorBounds(a: int, b: int)
    requires a >= 0 && b > 0
    ensures a / b >= 0 && (a / b) * b <= a < (a / b) * b + b
  {
    var q, m := a / b, a % b;
    assert a == q * b + m && 0 <= m < b;
  }

  /** One more times `b` is `b` more. */
  lemma ShiftProduct(q: int, b: int)
    ensures (q + 1) * b == q * b + b
  {
  }

  /** Negation commutes with the product. */
  lemma NegateProduct(q: int, b: int)
    ensures (-q) * b == -(q * b) && (-q - 1) * b == -((q + 1) * b)
  {
  }

  /** The averages the tests pin down: a negative mean is rounded up, toward zero. */
  lemma AverageRatingExamples()
    ensures ComputeAverageRating([]) == 0
    ensures ComputeAverageRating([-1, -2]) == -1
    ensures ComputeAverageRating([-1, -2, -3, -4]) == -2
    ensures ComputeAverageRating([1, 2, 3]) == 2
    ensures ComputeAverageRating([-1, -2, -3]) == -2
  {
    assert Sum([-1, -2]) == -3 by {
      assert [-1, -2][..1] == [-1] && [-1][..0] == [];
    }
    assert Sum([-1, -2, -3]) == -6 by {
      assert [-1, -2, -3][..2] == [-1, -2] && [-1, -2][..1] == [-1] && [-1][..0] == [];
    }
    assert Sum([-1, -2, -3, -4]) == -10 by {
      assert [-1, -2, -3, -4][..3] == [-1, -2, -3];
    }
    assert Sum([1, 2, 3]) == 6 by {
      assert [1, 2, 3][..2] == [1, 2] && [1, 2][..1] == [1] && [1][..0] == [];
    }
  }
}
