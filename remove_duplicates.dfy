/** The duplicate detector (remove_duplicates.cpp): a document whose word
    set equals that of a document earlier in id order is removed. */
module Duplicates {
  import opened StringProcessing
  import opened OrderedSet
  import opened Documents
  import opened InvertedIndex
  import opened Search

  /** `CompareMapsKeys`: the sizes agree and every key of `lhs` is a key of
      `rhs`; the values are never looked at. */
  function CompareMapsKeys(lhs: map<String, real>, rhs: map<String, real>): (r: bool)
    ensures r <==> lhs.Keys == rhs.Keys
  {
    var same := |lhs| == |rhs| && forall k | k in lhs :: k in rhs;
    assert same ==> lhs.Keys == rhs.Keys by {
      if same {
        SubsetCardinality(lhs.Keys, rhs.Keys);
      }
    }
    same
  }

  /** Two documents with the same word set. */
  ghost predicate Twins(d2w: DocumentIndex, a: int, b: int) {
    Inner(d2w, a).Keys == Inner(d2w, b).Keys
  }

  /** The ids the inner loop marks for the document at position `a`, over
      the positions after it and before `j`. */
  ghost function MarkedBy(ids: seq<int>, d2w: DocumentIndex, a: nat, j: nat): set<int>
    requires a < |ids| && j <= |ids|
  {
    if j <= a + 1 then {}
    else MarkedBy(ids, d2w, a, j - 1) + (if Twins(d2w, ids[a], ids[j - 1]) then {ids[j - 1]} else {})
  }

  /** The ids the outer loop marks over its first `i` positions. */
  ghost function Marked(ids: seq<int>, d2w: DocumentIndex, i: nat): set<int>
    requires i <= |ids|
  {
    if i == 0 then {} else Marked(ids, d2w, i - 1) + MarkedBy(ids, d2w, i - 1, |ids|)
  }

  /** A document is marked by the inner loop iff it comes after position
      `a` and before `j` and has the word set of the document at `a`. */
  lemma {:induction false} MarkedByMeaning(ids: seq<int>, d2w: DocumentIndex, a: nat, j: nat, d: int)
    requires a < |ids| && j <= |ids|
    ensures d in MarkedBy(ids, d2w, a, j) <==> exists b | a < b < j :: ids[b] == d && Twins(d2w, ids[a], ids[b])
    decreases j
  {
    if j > a + 1 {
      MarkedByMeaning(ids, d2w, a, j - 1, d);
      if d == ids[j - 1] && Twins(d2w, ids[a], ids[j - 1]) {
        assert ids[j - 1] == d && Twins(d2w, ids[a], ids[j - 1]);
      }
    }
  }

  /** A document is marked iff some document at an earlier position, among
      the first `i`, has the same word set. */
  lemma {:induction false} MarkedMeaning(ids: seq<int>, d2w: DocumentIndex, i: nat, d: int)
    requires i <= |ids|
    ensures d in Marked(ids, d2w, i) <==>
      exists a, b | 0 <= a < i && a < b < |ids| :: ids[b] == d && Twins(d2w, ids[a], ids[b])
    decreases i
  {
    if i != 0 {
      MarkedMeaning(ids, d2w, i - 1, d);
      MarkedByMeaning(ids, d2w, i - 1, |ids|, d);
    }
  }

  /** Every marked document has an earlier twin that is not marked: the
      first document of each group of equal word sets is never removed. */
  lemma FirstOfGroupKept(ids: seq<int>, d2w: DocumentIndex, b: nat)
    requires IsSorted(ids, IntLess) && b < |ids|
    requires ids[b] in Marked(ids, d2w, |ids|)
    ensures exists a | 0 <= a < b :: Twins(d2w, ids[a], ids[b]) && ids[a] !in Marked(ids, d2w, |ids|)
  {
    MarkedMeaning(ids, d2w, |ids|, ids[b]);
    var a0, b0 :| 0 <= a0 < |ids| && a0 < b0 < |ids| && ids[b0] == ids[b] && Twins(d2w, ids[a0], ids[b0]);
    assert b0 == b;
    var a := 0;
    while !Twins(d2w, ids[a], ids[b])
      invariant 0 <= a <= a0
      invariant forall x | 0 <= x < a :: !Twins(d2w, ids[x], ids[b])
      decreases a0 - a
    {
      a := a + 1;
    }
    if ids[a] in Marked(ids, d2w, |ids|) {
      MarkedMeaning(ids, d2w, |ids|, ids[a]);
    }
  }

  /** `RemoveDuplicates`: marks every document whose word set equals that of
      a document earlier in id order, then removes the marked documents in
      increasing id order. Returns the removed ids in that order (the source
      prints each one). */
  method RemoveDuplicates(server: SearchServer) returns (removed: seq<int>)
    requires server.Valid()
    modifies server
    ensures server.Valid()
    ensures IsSorted(removed, IntLess)
    ensures forall d :: d in removed <==> d in Marked(old(server.documentIds), old(server.documentToWordFreqs), |old(server.documentIds)|)
    ensures forall d :: d in server.documents <==> d in old(server.documents) && d !in removed
    ensures |server.documents| == |old(server.documents)| - |removed|
    ensures forall d | d in server.documents :: server.GetWordFrequencies(d) == old(server.GetWordFrequencies(d))
    ensures forall d | d in server.documents :: server.documents[d] == old(server.documents[d])
    ensures forall d1, d2 | d1 in server.documents && d2 in server.documents && d1 != d2 ::
      server.GetWordFrequencies(d1).Keys != server.GetWordFrequencies(d2).Keys
  {
    var ids := server.documentIds;
    ghost var d2w := server.documentToWordFreqs;
    var marked := MarkDuplicates(server);
    IntLessIsStrictTotalOrder();
    removed := ToSorted(marked, IntLess);
    ghost var docs := server.documents;
    MarkedAreLive(ids, d2w, docs);
    RemoveAll(server, removed);
    RemovedCount(docs, server.documents, removed);
    forall d1, d2 | d1 in server.documents && d2 in server.documents && d1 != d2
      ensures server.GetWordFrequencies(d1).Keys != server.GetWordFrequencies(d2).Keys
    {
      NoTwinsRemain(ids, d2w, d1, d2);
    }
  }

  /** The second loop of `RemoveDuplicates`: `RemoveDocument` on each listed id in turn. */
  method RemoveAll(server: SearchServer, removed: seq<int>)
    requires server.Valid()
    modifies server
    ensures server.Valid()
    ensures forall d :: d in server.documents <==> d in old(server.documents) && d !in removed
    ensures forall d | d in server.documents :: Inner(server.documentToWordFreqs, d) == Inner(old(server.documentToWordFreqs), d)
    ensures forall d | d in server.documents :: server.documents[d] == old(server.documents[d])
  {
    for k := 0 to |removed|
      invariant server.Valid()
      invariant forall d :: d in server.documents <==> d in old(server.documents) && d !in removed[..k]
      invariant forall d | d in server.documents :: Inner(server.documentToWordFreqs, d) == Inner(old(server.documentToWordFreqs), d)
      invariant forall d | d in server.documents :: server.documents[d] == old(server.documents[d])
    {
      assert removed[..k + 1] == removed[..k] + [removed[k]];
      server.RemoveDocument(removed[k]);
    }
    assert removed[..|removed|] == removed;
  }

  /** Only documents of the server are marked. */
  lemma MarkedAreLive(ids: seq<int>, d2w: DocumentIndex, documents: map<int, DocumentData>)
    requires forall d :: d in ids <==> d in documents
    ensures forall d | d in Marked(ids, d2w, |ids|) :: d in documents
  {
    forall d | d in Marked(ids, d2w, |ids|) ensures d in documents {
      MarkedMeaning(ids, d2w, |ids|, d);
    }
  }

  /** The nested loops of `RemoveDuplicates`, collecting `documents_for_delete`. */
  method MarkDuplicates(server: SearchServer) returns (marked: set<int>)
    ensures marked == Marked(server.documentIds, server.documentToWordFreqs, |server.documentIds|)
  {
    marked := {};
    for i := 0 to |server.documentIds|
      invariant marked == Marked(server.documentIds, server.documentToWordFreqs, i)
    {
      var later := MarkLaterTwins(server, i);
      marked := marked + later;
    }
  }

  /** The inner loop of `RemoveDuplicates`: the documents after position `i`
      whose word set is that of the document at `i`. */
  method MarkLaterTwins(server: SearchServer, i: nat) returns (later: set<int>)
    requires i < |server.documentIds|
    ensures later == MarkedBy(server.documentIds, server.documentToWordFreqs, i, |server.documentIds|)
  {
    var ids := server.documentIds;
    ghost var d2w := server.documentToWordFreqs;
    var lhs := server.GetWordFrequencies(ids[i]);
    later := {};
    for j := i + 1 to |ids|
      invariant later == MarkedBy(ids, d2w, i, j)
    {
      var rhs := server.GetWordFrequencies(ids[j]);
      if CompareMapsKeys(lhs, rhs) {
        later := later + {ids[j]};
      }
    }
  }

  /** Removing exactly the listed distinct ids, all live, lowers the count by their number. */
  lemma RemovedCount(before: map<int, DocumentData>, after: map<int, DocumentData>, removed: seq<int>)
    requires IsSorted(removed, IntLess)
    requires forall d :: d in after <==> d in before && d !in removed
    requires forall d | d in removed :: d in before
    ensures |after| == |before| - |removed|
  {
    IntLessIsStrictTotalOrder();
    SortedLength(removed, IntLess);
    forall d ensures d in after.Keys <==> d in before.Keys - Elements(removed) {
      assert d in Elements(removed) <==> d in removed;
    }
    assert after.Keys == before.Keys - Elements(removed);
    assert Elements(removed) <= before.Keys;
  }

  /** Two distinct unmarked documents never share a word set. */
  lemma NoTwinsRemain(ids: seq<int>, d2w: DocumentIndex, d1: int, d2: int)
    requires d1 in ids && d2 in ids && d1 != d2
    requires d1 !in Marked(ids, d2w, |ids|) && d2 !in Marked(ids, d2w, |ids|)
    ensures Inner(d2w, d1).Keys != Inner(d2w, d2).Keys
  {
    var a :| 0 <= a < |ids| && ids[a] == d1;
    var b :| 0 <= b < |ids| && ids[b] == d2;
    if Inner(d2w, d1).Keys == Inner(d2w, d2).Keys {
      if a < b {
        MarkedMeaning(ids, d2w, |ids|, d2);
        assert Twins(d2w, ids[a], ids[b]);
      } else {
        MarkedMeaning(ids, d2w, |ids|, d1);
        assert Twins(d2w, ids[b], ids[a]);
      }
    }
  }
}
