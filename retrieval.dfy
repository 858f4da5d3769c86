/** What a search over the posting maps means: which documents a parsed
    query matches and the relevance they get (search_server.h, FindAllDocuments;
    search_server.cpp, ComputeWordInverseDocumentFreq). */
module Retrieval {
  import opened StringProcessing
  import opened OrderedSet
  import opened Documents
  import opened InvertedIndex
  import opened QueryParsing

  /** The document filter `FindTopDocuments` takes: (id, status, rating) -> keep. */
  type DocumentPredicate = (int, Status, int) -> bool

  /** Document `d` has a posting under word `w`. */
  predicate Posts(w2d: WordIndex, w: String, d: int) {
    w in w2d && d in w2d[w]
  }

  /** `ComputeWordInverseDocumentFreq`: `log(document count / number of
      documents posting w)`, with the logarithm given as `ln`. */
  function Idf(w2d: WordIndex, w: String, documentCount: nat, ln: real -> real): real
    requires w in w2d && w2d[w] != map[]
  {
    ln(documentCount as real / |w2d[w]| as real)
  }

  /** The predicate keeps the live document `d`, given its stored status and rating. */
  predicate Accepts(documents: map<int, DocumentData>, pred: DocumentPredicate, d: int) {
    d in documents && pred(d, documents[d].status, documents[d].rating)
  }

  /** Some word of `words` has a posting for `d`. */
  predicate HitsAny(w2d: WordIndex, words: seq<String>, d: int) {
    exists k | 0 <= k < |words| :: Posts(w2d, words[k], d)
  }

  /** The relevance `d` collects from `words`: the sum of tf * idf over the
      words that post `d`, added in order. */
  function Score(w2d: WordIndex, documentCount: nat, ln: real -> real, words: seq<String>, d: int): real
    decreases |words|
  {
    if |words| == 0 then 0.0
    else
      var w := words[|words| - 1];
      Score(w2d, documentCount, ln, words[..|words| - 1], d)
        + (if Posts(w2d, w, d) then w2d[w][d] * Idf(w2d, w, documentCount, ln) else 0.0)
  }

  /** A document is found: it posts some plus word, the predicate keeps it,
      and it posts no minus word. Its relevance plays no part. */
  ghost predicate IsMatched(w2d: WordIndex, documents: map<int, DocumentData>, q: Query, pred: DocumentPredicate, d: int) {
    Accepts(documents, pred, d) && HitsAny(w2d, q.plus, d) && !HitsAny(w2d, q.minus, d)
  }

  /** The list `FindAllDocuments` returns: the matched documents in increasing
      id order, each with its relevance and its stored rating. */
  ghost predicate IsAllDocuments(r: seq<Document>, w2d: WordIndex, documents: map<int, DocumentData>,
                                 q: Query, pred: DocumentPredicate, ln: real -> real) {
    && (forall i, j | 0 <= i < j < |r| :: r[i].id < r[j].id)
    && (forall d :: (exists k | 0 <= k < |r| :: r[k].id == d) <==> IsMatched(w2d, documents, q, pred, d))
    && (forall k | 0 <= k < |r| ::
          && r[k].id in documents
          && r[k].relevance == Score(w2d, |documents|, ln, q.plus, r[k].id)
          && r[k].rating == documents[r[k].id].rating)
  }

  /** The ids of a list of hits. */
  function Ids(r: seq<Document>): (ids: seq<int>)
    ensures |ids| == |r| && forall k | 0 <= k < |r| :: ids[k] == r[k].id
  {
    seq(|r|, k requires 0 <= k < |r| => r[k].id)
  }

  /** The result of `FindAllDocuments` is determined: two lists that both
      meet its description are equal. */
  lemma AllDocumentsUnique(r1: seq<Document>, r2: seq<Document>, w2d: WordIndex, documents: map<int, DocumentData>,
                           q: Query, pred: DocumentPredicate, ln: real -> real)
    requires IsAllDocuments(r1, w2d, documents, q, pred, ln)
    requires IsAllDocuments(r2, w2d, documents, q, pred, ln)
    ensures r1 == r2
  {
    var a, b := Ids(r1), Ids(r2);
    IntLessIsStrictTotalOrder();
    forall x ensures x in a <==> x in b {
      if x in a {
        var k :| 0 <= k < |a| && a[k] == x;
        assert r1[k].id == x;
        assert IsMatched(w2d, documents, q, pred, x);
        assert exists k | 0 <= k < |r2| :: r2[k].id == x;
      }
      if x in b {
        var k :| 0 <= k < |b| && b[k] == x;
        assert r2[k].id == x;
        assert IsMatched(w2d, documents, q, pred, x);
        assert exists k | 0 <= k < |r1| :: r1[k].id == x;
      }
    }
    SortedUnique(a, b, IntLess);
    forall k | 0 <= k < |r1| ensures r1[k] == r2[k] {
      assert a[k] == b[k];
    }
  }

  /** Any document posting a minus word is missing from the result,
      however much relevance its plus words would give it. */
  lemma MinusWordExcludes(r: seq<Document>, w2d: WordIndex, documents: map<int, DocumentData>,
                          q: Query, pred: DocumentPredicate, ln: real -> real, m: int, k: int)
    requires IsAllDocuments(r, w2d, documents, q, pred, ln)
    requires 0 <= m < |q.minus| && 0 <= k < |r|
    ensures !Posts(w2d, q.minus[m], r[k].id)
  {
    assert exists j | 0 <= j < |r| :: r[j].id == r[k].id;
    assert IsMatched(w2d, documents, q, pred, r[k].id);
  }

  /** One more word for the `HitsAny` test. */
  lemma HitsAnySnoc(w2d: WordIndex, words: seq<String>, d: int)
    requires |words| != 0
    ensures HitsAny(w2d, words, d) <==>
      HitsAny(w2d, words[..|words| - 1], d) || Posts(w2d, words[|words| - 1], d)
  {
    var init := words[..|words| - 1];
    assert forall k | 0 <= k < |init| :: init[k] == words[k];
  }

  /** A document posting none of `words` collects no relevance from them. */
  lemma {:induction false} ScoreWithoutHits(w2d: WordIndex, documentCount: nat, ln: real -> real, words: seq<String>, d: int)
    requires !HitsAny(w2d, words, d)
    ensures Score(w2d, documentCount, ln, words, d) == 0.0
    decreases |words|
  {
    if |words| != 0 {
      HitsAnySnoc(w2d, words, d);
      ScoreWithoutHits(w2d, documentCount, ln, words[..|words| - 1], d);
    }
  }

  /** `document_to_relevance` after the plus words `words`: exactly the kept
      documents posting one of them, each with its relevance so far. */
  ghost predicate IsPlusAccumulator(acc: map<int, real>, w2d: WordIndex, documents: map<int, DocumentData>,
                                    pred: DocumentPredicate, documentCount: nat, ln: real -> real, words: seq<String>) {
    && (forall d :: d in acc <==> Accepts(documents, pred, d) && HitsAny(w2d, words, d))
    && (forall d | d in acc :: acc[d] == Score(w2d, documentCount, ln, words, d))
  }

  /** Part way through the postings `postings` of one plus word with idf `x`:
      the documents `done` were visited, and each kept one gained tf * x. */
  ghost predicate IsWordStep(acc: map<int, real>, acc0: map<int, real>, postings: map<int, real>, done: set<int>,
                             documents: map<int, DocumentData>, pred: DocumentPredicate, x: real) {
    && done <= postings.Keys
    && (forall d :: d in acc <==> d in acc0 || (d in done && Accepts(documents, pred, d)))
    && (forall d | d in acc ::
          acc[d] == (if d in acc0 then acc0[d] else 0.0)
                    + (if d in done && Accepts(documents, pred, d) then postings[d] * x else 0.0))
  }

  /** One posting of the inner loop: `document_to_relevance[d] += tf * idf` if the predicate keeps `d`. */
  lemma WordStepNext(acc: map<int, real>, acc0: map<int, real>, postings: map<int, real>, done: set<int>,
                     documents: map<int, DocumentData>, pred: DocumentPredicate, x: real, d: int)
    requires IsWordStep(acc, acc0, postings, done, documents, pred, x)
    requires d in postings && d !in done
    ensures var acc' := if Accepts(documents, pred, d) then acc[d := (if d in acc then acc[d] else 0.0) + postings[d] * x] else acc;
      IsWordStep(acc', acc0, postings, done + {d}, documents, pred, x)
  {
  }

  /** After all postings of a plus word, the accumulator covers one more plus word. */
  lemma PlusStep(acc: map<int, real>, acc0: map<int, real>, w2d: WordIndex, documents: map<int, DocumentData>,
                 pred: DocumentPredicate, documentCount: nat, ln: real -> real, words: seq<String>, w: String)
    requires IsPlusAccumulator(acc0, w2d, documents, pred, documentCount, ln, words)
    requires w in w2d && w2d[w] != map[]
    requires IsWordStep(acc, acc0, w2d[w], w2d[w].Keys, documents, pred, Idf(w2d, w, documentCount, ln))
    ensures IsPlusAccumulator(acc, w2d, documents, pred, documentCount, ln, words + [w])
  {
    var ws := words + [w];
    assert ws[..|ws| - 1] == words;
    forall d ensures (d in acc <==> Accepts(documents, pred, d) && HitsAny(w2d, ws, d))
      && (d in acc ==> acc[d] == Score(w2d, documentCount, ln, ws, d))
    {
      HitsAnySnoc(w2d, ws, d);
      if d in acc && d !in acc0 {
        ScoreWithoutHits(w2d, documentCount, ln, words, d);
      }
    }
  }

  /** A plus word without postings changes nothing. */
  lemma PlusSkip(acc: map<int, real>, w2d: WordIndex, documents: map<int, DocumentData>,
                 pred: DocumentPredicate, documentCount: nat, ln: real -> real, words: seq<String>, w: String)
    requires IsPlusAccumulator(acc, w2d, documents, pred, documentCount, ln, words)
    requires w !in w2d
    ensures IsPlusAccumulator(acc, w2d, documents, pred, documentCount, ln, words + [w])
  {
    var ws := words + [w];
    assert ws[..|ws| - 1] == words;
    forall d ensures HitsAny(w2d, ws, d) <==> HitsAny(w2d, words, d) {
      HitsAnySnoc(w2d, ws, d);
    }
  }

  /** `document_to_relevance` after the minus words `minus`: the plus
      accumulator without the documents posting one of them. */
  ghost predicate IsMinusAccumulator(acc: map<int, real>, w2d: WordIndex, documents: map<int, DocumentData>,
                                     pred: DocumentPredicate, documentCount: nat, ln: real -> real,
                                     plus: seq<String>, minus: seq<String>) {
    && (forall d :: d in acc <==> Accepts(documents, pred, d) && HitsAny(w2d, plus, d) && !HitsAny(w2d, minus, d))
    && (forall d | d in acc :: acc[d] == Score(w2d, documentCount, ln, plus, d))
  }

  /** Before any minus word, the minus accumulator is the plus accumulator. */
  lemma MinusStart(acc: map<int, real>, w2d: WordIndex, documents: map<int, DocumentData>,
                   pred: DocumentPredicate, documentCount: nat, ln: real -> real, plus: seq<String>)
    requires IsPlusAccumulator(acc, w2d, documents, pred, documentCount, ln, plus)
    ensures IsMinusAccumulator(acc, w2d, documents, pred, documentCount, ln, plus, [])
  {
  }

  /** Erasing every document that posts the minus word `w`. */
  lemma MinusStep(acc: map<int, real>, w2d: WordIndex, documents: map<int, DocumentData>,
                  pred: DocumentPredicate, documentCount: nat, ln: real -> real,
                  plus: seq<String>, minus: seq<String>, w: String)
    requires IsMinusAccumulator(acc, w2d, documents, pred, documentCount, ln, plus, minus)
    ensures var acc' := if w in w2d then acc - w2d[w].Keys else acc;
      IsMinusAccumulator(acc', w2d, documents, pred, documentCount, ln, plus, minus + [w])
  {
    var ms := minus + [w];
    assert ms[..|ms| - 1] == minus;
    forall d ensures HitsAny(w2d, ms, d) <==> HitsAny(w2d, minus, d) || Posts(w2d, w, d) {
      HitsAnySnoc(w2d, ms, d);
    }
  }

  /** Emitting the final accumulator in increasing id order gives the list
      `FindAllDocuments` describes. */
  lemma Emitted(r: seq<Document>, ids: seq<int>, acc: map<int, real>, w2d: WordIndex, documents: map<int, DocumentData>,
                q: Query, pred: DocumentPredicate, ln: real -> real)
    requires IsMinusAccumulator(acc, w2d, documents, pred, |documents|, ln, q.plus, q.minus)
    requires IsSorted(ids, IntLess) && forall d :: d in ids <==> d in acc
    requires |r| == |ids|
    requires forall k | 0 <= k < |r| ::
      (ids[k] in acc && ids[k] in documents && r[k] == Document(ids[k], acc[ids[k]], documents[ids[k]].rating))
    ensures IsAllDocuments(r, w2d, documents, q, pred, ln)
  {
    forall d ensures (exists k | 0 <= k < |r| :: r[k].id == d) <==> IsMatched(w2d, documents, q, pred, d) {
      if d in acc {
        var k :| 0 <= k < |ids| && ids[k] == d;
        assert r[k].id == d;
      }
    }
  }
}
