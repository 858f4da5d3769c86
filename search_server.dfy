/** The search server: its state, the invariant tying the two posting maps
    to the stored documents, and its operations (search_server.h,
    search_server.cpp). */
module Search {
  import opened StringProcessing
  import opened Errors
  import opened OrderedSet
  import opened Documents
  import opened WordRules
  import opened InvertedIndex
  import opened QueryParsing
  import opened Ranking
  import opened Retrieval

  /** What the server keeps consistent: valid non-empty stop words, mirrored
      posting maps without empty entries, every posting belonging to a live
      document, no stop word or invalid word indexed, no negative id. */
  ghost predicate IsIndex(stopWords: set<String>, w2d: WordIndex, d2w: DocumentIndex, documents: map<int, DocumentData>) {
    && (forall w | w in stopWords :: w != [] && IsValidWord(w))
    && Mirrored(w2d, d2w)
    && NoEmptyEntries(w2d, d2w)
    && (forall d | d in d2w :: d in documents)
    && (forall w | w in w2d :: w !in stopWords && IsValidWord(w))
    && (forall d | d in documents :: d >= 0)
  }

  /** `inv_word_count`: one over the number of kept words. For no words the
      source computes 1.0 / 0 but never uses it. */
  function Weight(words: seq<String>): real {
    if |words| == 0 then 0.0 else 1.0 / |words| as real
  }

  /** The word -> tf map stored for a new document with kept words `words`. */
  function DocumentFrequencies(words: seq<String>): (r: map<String, real>)
    ensures forall w :: w in r <==> w in words
    ensures forall w | w in r :: r[w] == Count(words, w) as real / |words| as real
  {
    if |words| == 0 then map[] else TermFrequencies(words)
  }

  /** The `+=` loop over the kept words of a document new to both maps
      writes exactly its term frequencies. */
  lemma PostedFrequencies(w2d: WordIndex, d2w: DocumentIndex, id: int, words: seq<String>)
    requires forall w | w in w2d :: id !in w2d[w]
    requires id !in d2w
    ensures PostWords(w2d, id, words, Weight(words)) == AddPostings(w2d, id, DocumentFrequencies(words))
    ensures PostDocument(d2w, id, words, Weight(words))
         == if |words| == 0 then d2w else d2w[id := DocumentFrequencies(words)]
  {
    PostWordsFresh(w2d, id, words, Weight(words));
    if |words| != 0 {
      PostDocumentFresh(d2w, id, words, Weight(words));
    }
  }

  /** Adding a document with no postings changes no posting. */
  lemma AddNoPostings(w2d: WordIndex, id: int)
    ensures AddPostings(w2d, id, map[]) == w2d
  {
    assert AddPostings(w2d, id, map[]).Keys == w2d.Keys;
  }

  /** Adding a valid new document writes exactly its term frequencies and
      keeps the invariant. */
  lemma AddKeepsIndex(stopWords: set<String>, w2d: WordIndex, d2w: DocumentIndex, documents: map<int, DocumentData>,
                      id: int, words: seq<String>, data: DocumentData)
    requires IsIndex(stopWords, w2d, d2w, documents)
    requires id >= 0 && id !in documents
    requires forall w | w in words :: IsValidWord(w) && w !in stopWords
    ensures var f := DocumentFrequencies(words);
      && PostWords(w2d, id, words, Weight(words)) == AddPostings(w2d, id, f)
      && PostDocument(d2w, id, words, Weight(words)) == (if |words| == 0 then d2w else d2w[id := f])
      && IsIndex(stopWords, AddPostings(w2d, id, f), if |words| == 0 then d2w else d2w[id := f], documents[id := data])
  {
    PostedFrequencies(w2d, d2w, id, words);
    var f := DocumentFrequencies(words);
    if |words| == 0 {
      AddNoPostings(w2d, id);
    } else {
      assert words[0] in f;
      IndexAfterAdd(stopWords, w2d, d2w, documents, id, f, data);
    }
  }

  /** Adding a new document with a non-empty word map of valid non-stop
      words keeps the invariant. */
  lemma IndexAfterAdd(stopWords: set<String>, w2d: WordIndex, d2w: DocumentIndex, documents: map<int, DocumentData>,
                      id: int, f: map<String, real>, data: DocumentData)
    requires IsIndex(stopWords, w2d, d2w, documents)
    requires id >= 0 && id !in documents && f != map[]
    requires forall w | w in f :: IsValidWord(w) && w !in stopWords
    ensures IsIndex(stopWords, AddPostings(w2d, id, f), d2w[id := f], documents[id := data])
  {
    AddKeepsMirrored(w2d, d2w, id, f);
    var w2d' := AddPostings(w2d, id, f);
    assert w2d'.Keys == w2d.Keys + f.Keys;
    assert forall w | w in w2d' :: w !in stopWords && IsValidWord(w);
  }

  /** Removing a live document's postings and entries keeps the invariant. */
  lemma RemoveKeepsIndex(stopWords: set<String>, w2d: WordIndex, d2w: DocumentIndex, documents: map<int, DocumentData>, id: int)
    requires IsIndex(stopWords, w2d, d2w, documents)
    ensures IsIndex(stopWords, Purge(w2d, id, Inner(d2w, id).Keys), d2w - {id}, documents - {id})
    ensures forall w | w in Purge(w2d, id, Inner(d2w, id).Keys) :: id !in Purge(w2d, id, Inner(d2w, id).Keys)[w]
  {
    var p := Purge(w2d, id, Inner(d2w, id).Keys);
    if id in d2w {
      RemoveKeepsMirrored(w2d, d2w, id);
    } else {
      assert p == w2d by {
        assert p.Keys == w2d.Keys;
      }
      assert d2w - {id} == d2w;
    }
    assert p.Keys <= w2d.Keys;
  }

  /** Every posting belongs to a live document, and so no word is posted by
      more documents than the server holds: the idf argument is at least 1. */
  lemma PostingsAreLive(stopWords: set<String>, w2d: WordIndex, d2w: DocumentIndex, documents: map<int, DocumentData>, w: String)
    requires IsIndex(stopWords, w2d, d2w, documents) && w in w2d
    ensures forall d | d in w2d[w] :: d in documents
    ensures 1 <= |w2d[w]| <= |documents|
    ensures |documents| as real / |w2d[w]| as real >= 1.0
  {
    forall d | d in w2d[w] ensures d in documents {
      assert d in d2w;
    }
    assert w2d[w].Keys <= documents.Keys;
    SubsetCardinality(w2d[w].Keys, documents.Keys);
    var n, m := |documents| as real, |w2d[w]| as real;
    assert n >= m > 0.0;
    assert n / m >= 1.0 by {
      assert n / m * m == n;
    }
  }

  /** Under the invariant, a document's word map lists exactly the words
      posting it, with the same frequencies. */
  lemma FrequenciesMirrorPostings(stopWords: set<String>, w2d: WordIndex, d2w: DocumentIndex, documents: map<int, DocumentData>, id: int)
    requires IsIndex(stopWords, w2d, d2w, documents)
    ensures forall w :: w in Inner(d2w, id) <==> Posts(w2d, w, id)
    ensures forall w | w in Inner(d2w, id) :: Inner(d2w, id)[w] == w2d[w][id]
  {
  }

  /** No word of the index is a stop word, so no stop word is ever found. */
  lemma StopWordsNeverPosted(stopWords: set<String>, w2d: WordIndex, d2w: DocumentIndex, documents: map<int, DocumentData>, w: String, d: int)
    requires IsIndex(stopWords, w2d, d2w, documents) && w in stopWords
    ensures !Posts(w2d, w, d)
  {
  }

  /** The first position of an invalid word, or the length if all are valid. */
  function FirstInvalid(words: seq<String>): (k: nat)
    ensures k <= |words|
    ensures forall i | 0 <= i < k :: IsValidWord(words[i])
    ensures k < |words| ==> !IsValidWord(words[k])
    decreases |words|
  {
    if |words| == 0 then 0
    else if !IsValidWord(words[0]) then 0
    else 1 + FirstInvalid(words[1..])
  }

  /** The term frequencies of "fluffy cat fluffy tail" once stop words are
      gone: each occurrence weighs a quarter. */
  lemma DocumentFrequenciesExample()
    ensures DocumentFrequencies(["fluffy", "cat", "fluffy", "tail"]) == map["fluffy" := 0.5, "cat" := 0.25, "tail" := 0.25]
  {
    var words: seq<String> := ["fluffy", "cat", "fluffy", "tail"];
    var f := DocumentFrequencies(words);
    assert words[0] == "fluffy" && words[1] == "cat" && words[3] == "tail";
    assert Count(words, "fluffy") == 2 by {
      CountIsMultiplicity(words, "fluffy");
    }
    assert Count(words, "cat") == 1 by {
      CountIsMultiplicity(words, "cat");
    }
    assert Count(words, "tail") == 1 by {
      CountIsMultiplicity(words, "tail");
    }
    assert f.Keys == {"fluffy", "cat", "tail"};
  }

  /** The kept words of the text "cat \x01" without stop words. */
  lemma OrphanExampleWords()
    ensures WithoutStopWords(Words("cat \U{1}"), {}) == ["cat", ['\U{1}']]
  {
    var text: String := "cat \U{1}";
    assert text[3] == ' ' && ' ' !in text[..3];
    PiecesAtFirstSpace(text, 3);
    assert text[..3] == "cat" && text[4..] == ['\U{1}'];
    PiecesOfSpaceFree(text[4..]);
    var kept: seq<String> := ["cat", ['\U{1}']];
    assert Pieces(text) == kept;
    assert Words(text) == kept;
    WithoutStopWordsSnoc([], "cat", {});
    WithoutStopWordsSnoc(["cat"], ['\U{1}'], {});
    assert ["cat"] + [['\U{1}']] == kept;
  }

  /** `AddDocument` as written, on an empty server without stop words, for
      document 0 with text "cat \x01": the posting of "cat" for document 0
      is written, the document is refused, and the server no longer
      satisfies its invariant. The posting names document 0, which
      `documents_` lacks, so the `documents_.at` of a later search for "cat"
      has nothing to find. */
  lemma FailedAddLeavesOrphanPosting()
    ensures var kept := WithoutStopWords(Words("cat \U{1}"), {});
      var k := FirstInvalid(kept);
      var w2d := PostWords(map[], 0, kept[..k], Weight(kept));
      var d2w := PostDocument(map[], 0, kept[..k], Weight(kept));
      && kept == ["cat", ['\U{1}']]
      && k == 1 && k < |kept|
      && Posts(w2d, "cat", 0) && w2d["cat"][0] == 0.5
      && !Accepts(map[], (id: int, s: Status, rating: int) => true, 0)
      && !IsIndex({}, w2d, d2w, map[])
  {
    OrphanExampleWords();
    var kept: seq<String> := ["cat", ['\U{1}']];
    assert IsValidWord(kept[0]) && !IsValidWord(kept[1]);
    assert kept[..1] == ["cat"];
    var d2w := PostDocument(map[], 0, kept[..1], Weight(kept));
    assert 0 in d2w;
  }

  /** The document filter of `FindTopDocuments(raw_query, status)`. */
  function StatusIs(status: Status): DocumentPredicate {
    (id: int, s: Status, rating: int) => s == status
  }

  /** The words `MatchDocument` returns and the document's status. */
  datatype MatchResult = MatchResult(words: seq<String>, status: Status)

  /** `SearchServer`. The id collection `order_documents_id_` is kept as an
      ordered set, as the `.cpp` uses it. */
  class SearchServer {
    const stopWords: set<String>
    var wordToDocumentFreqs: WordIndex
    var documentToWordFreqs: DocumentIndex
    var documents: map<int, DocumentData>
    var documentIds: seq<int>

    ghost predicate Valid()
      reads this
    {
      && IsIndex(stopWords, wordToDocumentFreqs, documentToWordFreqs, documents)
      && IsSorted(documentIds, IntLess)
      && (forall d :: d in documentIds <==> d in documents)
    }

    /** The server over an already normalised stop-word set. */
    constructor (stopWords: set<String>)
      requires forall w | w in stopWords :: w != [] && IsValidWord(w)
      ensures Valid() && this.stopWords == stopWords
      ensures wordToDocumentFreqs == map[] && documentToWordFreqs == map[]
      ensures documents == map[] && documentIds == []
    {
      this.stopWords := stopWords;
      wordToDocumentFreqs := map[];
      documentToWordFreqs := map[];
      documents := map[];
      documentIds := [];
    }

    /** The container constructor: the distinct non-empty strings become the
        stop words; an invalid one is refused. */
    static method FromStopWords(words: seq<String>) returns (r: Result<SearchServer>)
      ensures r.Err? <==> exists w | w in words :: w != [] && !IsValidWord(w)
      ensures r.Err? ==> r.error == InvalidStopWord
      ensures r.Ok? ==> && fresh(r.value) && r.value.Valid()
                        && r.value.stopWords == (set w | w in words && w != [])
                        && r.value.documents == map[] && r.value.wordToDocumentFreqs == map[]
    {
      var unique := MakeUniqueNonEmptyStrings(words);
      if !(forall w | w in unique :: IsValidWord(w)) {
        return Err(InvalidStopWord);
      }
      var server := new SearchServer(unique);
      return Ok(server);
    }

    /** The string constructor: the stop words are the space-separated tokens of the text. */
    static method FromStopWordsText(text: String) returns (r: Result<SearchServer>)
      ensures r.Err? <==> exists w | w in Words(text) :: w != [] && !IsValidWord(w)
      ensures r.Err? ==> r.error == InvalidStopWord
      ensures r.Ok? ==> && fresh(r.value) && r.value.Valid()
                        && r.value.stopWords == (set w | w in Words(text) && w != [])
                        && r.value.documents == map[] && r.value.wordToDocumentFreqs == map[]
    {
      var words := SplitIntoWords(text);
      r := FromStopWords(words);
    }

    /** The tokens of `text` that are not stop words, in order. */
    function NonStopWords(text: String): seq<String> {
      WithoutStopWords(Words(text), stopWords)
    }

    /** The parsed form of a query text. */
    function QueryOf(text: String): Result<Query> {
      ParseTokens(Words(text), stopWords)
    }

    /** `SplitIntoWordsNoStop`. */
    method SplitIntoWordsNoStop(text: String) returns (words: seq<String>)
      ensures words == NonStopWords(text)
    {
      var tokens := SplitIntoWords(text);
      words := DropStopWords(tokens);
    }

    /** The loop of `SplitIntoWordsNoStop` over the split text. */
    method DropStopWords(tokens: seq<String>) returns (words: seq<String>)
      ensures words == WithoutStopWords(tokens, stopWords)
    {
      words := [];
      for i := 0 to |tokens|
        invariant words == WithoutStopWords(tokens[..i], stopWords)
      {
        assert tokens[..i + 1] == tokens[..i] + [tokens[i]];
        WithoutStopWordsSnoc(tokens[..i], tokens[i], stopWords);
        if tokens[i] !in stopWords {
          words := words + [tokens[i]];
        }
      }
      assert tokens[..|tokens|] == tokens;
    }

    /** `AddDocument`, validating every kept word before writing anything.
        A refused document leaves the server as it was; an accepted one gets
        its term frequencies in both maps and its average rating and status. */
    method AddDocument(id: int, text: String, status: Status, ratings: seq<int>) returns (r: Outcome)
      requires Valid()
      modifies this
      ensures Valid()
      ensures id < 0 ==> r == Fail(NegativeDocumentId)
      ensures id >= 0 && id in old(documents) ==> r == Fail(RepeatedDocumentId)
      ensures id >= 0 && id !in old(documents) && (exists w | w in NonStopWords(text) :: !IsValidWord(w))
        ==> r == Fail(InvalidDocumentWord)
      ensures id >= 0 && id !in old(documents) && (forall w | w in NonStopWords(text) :: IsValidWord(w))
        ==> r == Pass
      ensures r.Fail? ==> unchanged(this)
      ensures r.Pass? ==>
        && id >= 0 && id !in old(documents)
        && wordToDocumentFreqs == AddPostings(old(wordToDocumentFreqs), id, DocumentFrequencies(NonStopWords(text)))
        && documentToWordFreqs == (if |NonStopWords(text)| == 0 then old(documentToWordFreqs)
                                   else old(documentToWordFreqs)[id := DocumentFrequencies(NonStopWords(text))])
        && documents == old(documents)[id := DocumentData(ComputeAverageRating(ratings), status)]
        && (forall d :: d in documentIds <==> d in old(documentIds) || d == id)
      ensures r.Pass? ==> GetWordFrequencies(id) == DocumentFrequencies(NonStopWords(text))
    {
      if id < 0 {
        return Fail(NegativeDocumentId);
      }
      if id in documents {
        return Fail(RepeatedDocumentId);
      }
      var words := SplitIntoWordsNoStop(text);
      if !(forall w | w in words :: IsValidWord(w)) {
        return Fail(InvalidDocumentWord);
      }
      StoreDocument(id, words, DocumentData(ComputeAverageRating(ratings), status));
      return Pass;
    }

    /** The writing part of `AddDocument` for an accepted document: its kept
        words posted through the loop of `IndexWords`, then its id and data stored. */
    method StoreDocument(id: int, words: seq<String>, data: DocumentData)
      requires Valid() && id >= 0 && id !in documents
      requires forall w | w in words :: IsValidWord(w) && w !in stopWords
      modifies this
      ensures Valid()
      ensures wordToDocumentFreqs == AddPostings(old(wordToDocumentFreqs), id, DocumentFrequencies(words))
      ensures documentToWordFreqs == (if |words| == 0 then old(documentToWordFreqs)
                                      else old(documentToWordFreqs)[id := DocumentFrequencies(words)])
      ensures documents == old(documents)[id := data]
      ensures forall d :: d in documentIds <==> d in old(documentIds) || d == id
    {
      AddKeepsIndex(stopWords, wordToDocumentFreqs, documentToWordFreqs, documents, id, words, data);
      IndexValidWords(id, words);
      IntLessIsStrictTotalOrder();
      documentIds := Insert(documentIds, id, IntLess);
      documents := documents[id := data];
    }

    /** `AddDocument` as written: each word is checked inside the update loop,
        so an invalid word stops the loop after the postings of the words
        before it were written, and before the document is stored. */
    method AddDocumentAsWritten(id: int, text: String, status: Status, ratings: seq<int>) returns (r: Outcome)
      requires Valid()
      modifies this
      ensures id < 0 ==> r == Fail(NegativeDocumentId) && unchanged(this)
      ensures id >= 0 && id in old(documents) ==> r == Fail(RepeatedDocumentId) && unchanged(this)
      ensures id >= 0 && id !in old(documents) ==>
        var kept := NonStopWords(text);
        var k := FirstInvalid(kept);
        && wordToDocumentFreqs == PostWords(old(wordToDocumentFreqs), id, kept[..k], Weight(kept))
        && documentToWordFreqs == PostDocument(old(documentToWordFreqs), id, kept[..k], Weight(kept))
        && (k < |kept| ==> r == Fail(InvalidDocumentWord) && documents == old(documents) && documentIds == old(documentIds))
        && (k == |kept| ==> && r == Pass
                            && documents == old(documents)[id := DocumentData(ComputeAverageRating(ratings), status)]
                            && (forall d :: d in documentIds <==> d in old(documentIds) || d == id))
      ensures r.Pass? ==> Valid()
    {
      if id < 0 {
        return Fail(NegativeDocumentId);
      }
      if id in documents {
        return Fail(RepeatedDocumentId);
      }
      var words := SplitIntoWordsNoStop(text);
      ghost var w2d0, d2w0, docs0 := wordToDocumentFreqs, documentToWordFreqs, documents;
      var k := IndexWords(id, words);
      if k < |words| {
        return Fail(InvalidDocumentWord);
      }
      assert words[..k] == words;
      AddKeepsIndex(stopWords, w2d0, d2w0, docs0, id, words, DocumentData(ComputeAverageRating(ratings), status));
      IntLessIsStrictTotalOrder();
      documentIds := Insert(documentIds, id, IntLess);
      documents := documents[id := DocumentData(ComputeAverageRating(ratings), status)];
      return Pass;
    }

    /** The loop of `AddDocument`: for each kept word in turn, stop at an
        invalid word, otherwise add `inv_word_count` to its entry in both maps.
        Returns how many words were posted. */
    method IndexWords(id: int, words: seq<String>) returns (k: nat)
      modifies this
      ensures k == FirstInvalid(words)
      ensures wordToDocumentFreqs == PostWords(old(wordToDocumentFreqs), id, words[..k], Weight(words))
      ensures documentToWordFreqs == PostDocument(old(documentToWordFreqs), id, words[..k], Weight(words))
      ensures documents == old(documents) && documentIds == old(documentIds)
      ensures (forall w | w in words :: IsValidWord(w)) ==>
        && k == |words|
        && wordToDocumentFreqs == PostWords(old(wordToDocumentFreqs), id, words, Weight(words))
        && documentToWordFreqs == PostDocument(old(documentToWordFreqs), id, words, Weight(words))
    {
      var inv := Weight(words);
      k := 0;
      while k < |words|
        invariant k <= FirstInvalid(words)
        invariant wordToDocumentFreqs == PostWords(old(wordToDocumentFreqs), id, words[..k], inv)
        invariant documentToWordFreqs == PostDocument(old(documentToWordFreqs), id, words[..k], inv)
        invariant documents == old(documents) && documentIds == old(documentIds)
      {
        if !IsValidWord(words[k]) {
          return;
        }
        assert words[..k + 1][..k] == words[..k];
        wordToDocumentFreqs := AddAt(wordToDocumentFreqs, words[k], id, inv);
        documentToWordFreqs := AddAt(documentToWordFreqs, id, words[k], inv);
        k := k + 1;
      }
      assert words[..k] == words;
    }

    /** The loop of `AddDocument` over words already known to be valid: it
        posts all of them. */
    method IndexValidWords(id: int, words: seq<String>)
      requires forall w | w in words :: IsValidWord(w)
      modifies this
      ensures wordToDocumentFreqs == PostWords(old(wordToDocumentFreqs), id, words, Weight(words))
      ensures documentToWordFreqs == PostDocument(old(documentToWordFreqs), id, words, Weight(words))
      ensures documents == old(documents) && documentIds == old(documentIds)
    {
      var k := IndexWords(id, words);
    }

    /** `ParseQuery`: the tokens of the text left to right, skipping empty
        ones; the first token failing a check ends the parse with its error. */
    method ParseQuery(text: String) returns (r: Result<Query>)
      ensures r == QueryOf(text)
    {
      var tokens := SplitIntoWords(text);
      r := ParseQueryTokens(tokens);
    }

    /** The loop of `ParseQuery` over the split text. */
    method ParseQueryTokens(tokens: seq<String>) returns (r: Result<Query>)
      ensures r == ParseTokens(tokens, stopWords)
    {
      var q := Query([], []);
      for i := 0 to |tokens|
        invariant ParseTokens(tokens[..i], stopWords) == Ok(q)
      {
        var word := tokens[i];
        assert tokens[..i + 1][..i] == tokens[..i];
        if |word| == 0 {
          continue;
        }
        var next := ParseQueryToken(q, word);
        if next.Err? {
          ParseTokensStopsAtError(tokens, i + 1, stopWords);
          return next;
        }
        q := next.value;
      }
      assert tokens[..|tokens|] == tokens;
      return Ok(q);
    }

    /** One non-empty token of `ParseQuery`'s loop: its three checks in order,
        then the insertion into the minus or plus set unless it is a stop word. */
    method ParseQueryToken(q: Query, word: String) returns (r: Result<Query>)
      requires IsSorted(q.plus, StringLess) && IsSorted(q.minus, StringLess)
      requires |word| != 0
      ensures r == AddToken(q, word, stopWords)
    {
      var qw := ParseQueryWord(word, stopWords);
      if |qw.data| != 0 && qw.data[0] == '-' {
        return Err(DoubleMinus);
      }
      if qw.isMinus && |qw.data| == 0 {
        return Err(EmptyMinusWord);
      }
      if !IsValidWord(qw.data) {
        return Err(InvalidQueryWord);
      }
      StringLessIsStrictTotalOrder();
      if qw.isStop {
        return Ok(q);
      }
      if qw.isMinus {
        return Ok(Query(q.plus, Insert(q.minus, qw.data, StringLess)));
      }
      return Ok(Query(Insert(q.plus, qw.data, StringLess), q.minus));
    }

    /** `MatchDocument`: the plus words the document posts, in set order, or
        none if it posts a minus word, with the document's status. A query
        error comes first; an unknown id is refused afterwards. */
    method MatchDocument(rawQuery: String, id: int) returns (r: Result<MatchResult>)
      requires Valid()
      ensures QueryOf(rawQuery).Err? ==> r == Err(QueryOf(rawQuery).error)
      ensures QueryOf(rawQuery).Ok? && id !in documents ==> r == Err(DocumentNotFound)
      ensures QueryOf(rawQuery).Ok? && id in documents ==> r.Ok? && r.value.status == documents[id].status
      ensures r.Ok? ==> IsSorted(r.value.words, StringLess)
      ensures r.Ok? ==> var q := QueryOf(rawQuery).value;
        forall w :: w in r.value.words <==>
          w in q.plus && Posts(wordToDocumentFreqs, w, id) && !HitsAny(wordToDocumentFreqs, q.minus, id)
    {
      var parsed := ParseQuery(rawQuery);
      if parsed.Err? {
        return Err(parsed.error);
      }
      var q := parsed.value;
      var matched := MatchedPlusWords(q.plus, id);
      var excluded := PostsMinusWord(q.minus, id);
      if excluded {
        matched := [];
      }
      if id !in documents {
        return Err(DocumentNotFound);
      }
      return Ok(MatchResult(matched, documents[id].status));
    }

    /** The first loop of `MatchDocument`: the plus words, in order, whose
        postings hold the document. */
    method MatchedPlusWords(plus: seq<String>, id: int) returns (matched: seq<String>)
      requires IsSorted(plus, StringLess)
      ensures IsSorted(matched, StringLess)
      ensures forall w :: w in matched <==> w in plus && Posts(wordToDocumentFreqs, w, id)
    {
      StringLessIsStrictTotalOrder();
      matched := [];
      for i := 0 to |plus|
        invariant IsSorted(matched, StringLess)
        invariant forall w :: w in matched ==> w in plus[..i] && Posts(wordToDocumentFreqs, w, id)
        invariant forall j | 0 <= j < i && Posts(wordToDocumentFreqs, plus[j], id) :: plus[j] in matched
      {
        var w := plus[i];
        if w in wordToDocumentFreqs && id in wordToDocumentFreqs[w] {
          PrefixBelow(plus, i, StringLess);
          AppendSorted(matched, w, StringLess);
          matched := matched + [w];
        }
        assert plus[..i + 1] == plus[..i] + [w];
      }
      assert plus[..|plus|] == plus;
    }

    /** The second loop of `MatchDocument`: whether some minus word's
        postings hold the document (the source then clears the matches and stops). */
    method PostsMinusWord(minus: seq<String>, id: int) returns (found: bool)
      ensures found <==> HitsAny(wordToDocumentFreqs, minus, id)
    {
      var i := 0;
      while i < |minus|
        invariant 0 <= i <= |minus|
        invariant forall j | 0 <= j < i :: !Posts(wordToDocumentFreqs, minus[j], id)
      {
        var w := minus[i];
        if w in wordToDocumentFreqs && id in wordToDocumentFreqs[w] {
          assert Posts(wordToDocumentFreqs, minus[i], id);
          return true;
        }
        i := i + 1;
      }
      return false;
    }

    /** `FindAllDocuments`: relevance accumulated over the plus words'
        postings for documents the predicate keeps, documents posting a
        minus word erased, the rest emitted in increasing id order. */
    method FindAllDocuments(q: Query, pred: DocumentPredicate, ln: real -> real) returns (r: seq<Document>)
      requires Valid()
      ensures IsAllDocuments(r, wordToDocumentFreqs, documents, q, pred, ln)
    {
      var acc := PlusRelevance(q.plus, pred, ln);
      MinusStart(acc, wordToDocumentFreqs, documents, pred, |documents|, ln, q.plus);
      acc := EraseMinusWords(acc, q.plus, q.minus, pred, ln);
      IntLessIsStrictTotalOrder();
      var ids := ToSorted(acc.Keys, IntLess);
      r := [];
      for k := 0 to |ids|
        invariant |r| == k
        invariant forall j | 0 <= j < k ::
          (ids[j] in acc && ids[j] in documents && r[j] == Document(ids[j], acc[ids[j]], documents[ids[j]].rating))
      {
        r := r + [Document(ids[k], acc[ids[k]], documents[ids[k]].rating)];
      }
      Emitted(r, ids, acc, wordToDocumentFreqs, documents, q, pred, ln);
    }

    /** The plus-word loop of `FindAllDocuments`. */
    method PlusRelevance(plus: seq<String>, pred: DocumentPredicate, ln: real -> real) returns (acc: map<int, real>)
      requires Valid()
      ensures IsPlusAccumulator(acc, wordToDocumentFreqs, documents, pred, |documents|, ln, plus)
    {
      acc := map[];
      for i := 0 to |plus|
        invariant IsPlusAccumulator(acc, wordToDocumentFreqs, documents, pred, |documents|, ln, plus[..i])
      {
        var w := plus[i];
        assert plus[..i + 1] == plus[..i] + [w];
        if w in wordToDocumentFreqs {
          PostingsAreLive(stopWords, wordToDocumentFreqs, documentToWordFreqs, documents, w);
          var idf := Idf(wordToDocumentFreqs, w, |documents|, ln);
          var acc0 := acc;
          acc := AddWordRelevance(acc, wordToDocumentFreqs[w], pred, idf);
          PlusStep(acc, acc0, wordToDocumentFreqs, documents, pred, |documents|, ln, plus[..i], w);
        } else {
          PlusSkip(acc, wordToDocumentFreqs, documents, pred, |documents|, ln, plus[..i], w);
        }
      }
      assert plus[..|plus|] == plus;
    }

    /** The inner loop over one plus word's postings:
        `document_to_relevance[d] += tf * idf` for every document the predicate keeps. */
    method AddWordRelevance(acc0: map<int, real>, postings: map<int, real>, pred: DocumentPredicate, idf: real)
      returns (acc: map<int, real>)
      requires forall d | d in postings :: d in documents
      ensures IsWordStep(acc, acc0, postings, postings.Keys, documents, pred, idf)
    {
      acc := acc0;
      var rest := postings.Keys;
      while rest != {}
        invariant rest <= postings.Keys
        invariant IsWordStep(acc, acc0, postings, postings.Keys - rest, documents, pred, idf)
        decreases rest
      {
        var d := AnyElement(rest);
        var data := documents[d];
        WordStepNext(acc, acc0, postings, postings.Keys - rest, documents, pred, idf, d);
        if pred(d, data.status, data.rating) {
          acc := acc[d := (if d in acc then acc[d] else 0.0) + postings[d] * idf];
        }
        assert postings.Keys - (rest - {d}) == (postings.Keys - rest) + {d};
        rest := rest - {d};
      }
    }

    /** The minus-word loop of `FindAllDocuments`: every document posting a
        minus word is erased. */
    method EraseMinusWords(acc0: map<int, real>, plus: seq<String>, minus: seq<String>, pred: DocumentPredicate, ln: real -> real)
      returns (acc: map<int, real>)
      requires IsMinusAccumulator(acc0, wordToDocumentFreqs, documents, pred, |documents|, ln, plus, [])
      ensures IsMinusAccumulator(acc, wordToDocumentFreqs, documents, pred, |documents|, ln, plus, minus)
    {
      acc := acc0;
      for i := 0 to |minus|
        invariant IsMinusAccumulator(acc, wordToDocumentFreqs, documents, pred, |documents|, ln, plus, minus[..i])
      {
        var w := minus[i];
        assert minus[..i + 1] == minus[..i] + [w];
        MinusStep(acc, wordToDocumentFreqs, documents, pred, |documents|, ln, plus, minus[..i], w);
        if w in wordToDocumentFreqs {
          acc := EraseAll(acc, wordToDocumentFreqs[w].Keys);
        }
      }
      assert minus[..|minus|] == minus;
    }

    /** `document_to_relevance.erase(document_id)` for every posting of one minus word. */
    method EraseAll(acc0: map<int, real>, keys: set<int>) returns (acc: map<int, real>)
      ensures acc == acc0 - keys
    {
      acc := acc0;
      var rest := keys;
      while rest != {}
        invariant rest <= keys
        invariant acc == acc0 - (keys - rest)
        decreases rest
      {
        var d := AnyElement(rest);
        acc := acc - {d};
        assert keys - (rest - {d}) == (keys - rest) + {d};
        rest := rest - {d};
      }
    }

    /** `FindTopDocuments` with a predicate: the matched documents sorted by
        the rank comparator and cut to `MAX_RESULT_DOCUMENT_COUNT`. */
    method FindTopDocuments(rawQuery: String, pred: DocumentPredicate, ln: real -> real) returns (r: Result<seq<Document>>)
      requires Valid()
      ensures QueryOf(rawQuery).Err? ==> r == Err(QueryOf(rawQuery).error)
      ensures QueryOf(rawQuery).Ok? ==> r.Ok? && exists all ::
        IsAllDocuments(all, wordToDocumentFreqs, documents, QueryOf(rawQuery).value, pred, ln) && IsTopOf(r.value, all)
    {
      var parsed := ParseQuery(rawQuery);
      if parsed.Err? {
        return Err(parsed.error);
      }
      var all := FindAllDocuments(parsed.value, pred, ln);
      var a := new Document[|all|](k requires 0 <= k < |all| => all[k]);
      assert a[..] == all;
      SortByRank(a);
      var n := if a.Length > MaxResultDocumentCount then MaxResultDocumentCount else a.Length;
      assert a[..][..n] == a[..n];
      assert IsTopOf(a[..n], all);
      return Ok(a[..n]);
    }

    /** `FindTopDocuments(raw_query, status)`: keeps the documents with that status. */
    method FindTopDocumentsByStatus(rawQuery: String, status: Status, ln: real -> real) returns (r: Result<seq<Document>>)
      requires Valid()
      ensures QueryOf(rawQuery).Err? ==> r == Err(QueryOf(rawQuery).error)
      ensures QueryOf(rawQuery).Ok? ==> r.Ok? && exists all ::
        IsAllDocuments(all, wordToDocumentFreqs, documents, QueryOf(rawQuery).value, StatusIs(status), ln) && IsTopOf(r.value, all)
    {
      r := FindTopDocuments(rawQuery, StatusIs(status), ln);
    }

    /** `FindTopDocuments(raw_query)`: keeps the `ACTUAL` documents. */
    method FindActualTopDocuments(rawQuery: String, ln: real -> real) returns (r: Result<seq<Document>>)
      requires Valid()
      ensures QueryOf(rawQuery).Err? ==> r == Err(QueryOf(rawQuery).error)
      ensures QueryOf(rawQuery).Ok? ==> r.Ok? && exists all ::
        IsAllDocuments(all, wordToDocumentFreqs, documents, QueryOf(rawQuery).value, StatusIs(Actual), ln) && IsTopOf(r.value, all)
    {
      r := FindTopDocumentsByStatus(rawQuery, Actual, ln);
    }

    /** `GetWordFrequencies`: the document's word -> tf map, empty for an id
        the server does not hold. */
    function GetWordFrequencies(id: int): (r: map<String, real>)
      reads this
      ensures id !in documentToWordFreqs ==> r == map[]
      ensures Valid() ==> forall w :: w in r <==> Posts(wordToDocumentFreqs, w, id)
      ensures Valid() ==> forall w | w in r ::
        w in wordToDocumentFreqs && id in wordToDocumentFreqs[w] && r[w] == wordToDocumentFreqs[w][id]
    {
      Inner(documentToWordFreqs, id)
    }

    /** `GetDocumentCount`: the number of stored documents, which is the
        length of the id collection. */
    function GetDocumentCount(): (r: nat)
      reads this
      ensures Valid() ==> r == |documentIds|
    {
      IntLessIsStrictTotalOrder();
      IdsCount(documentIds, documents);
      |documents|
    }

    /** `RemoveDocument`: erases the document's postings under each of its
        words (and a word left without postings), its word map, its data and
        its id. An id the server does not hold is ignored. */
    method RemoveDocument(id: int)
      requires Valid()
      modifies this
      ensures Valid()
      ensures id !in old(documents) ==> unchanged(this)
      ensures id in old(documents) ==>
        && wordToDocumentFreqs == Purge(old(wordToDocumentFreqs), id, old(GetWordFrequencies(id)).Keys)
        && documentToWordFreqs == old(documentToWordFreqs) - {id}
        && documents == old(documents) - {id}
        && documentIds == Remove(old(documentIds), id)
      ensures GetWordFrequencies(id) == map[]
      ensures forall w | w in wordToDocumentFreqs :: id !in wordToDocumentFreqs[w]
    {
      if id !in documents {
        return;
      }
      var words := Inner(documentToWordFreqs, id).Keys;
      ghost var w2d := wordToDocumentFreqs;
      ghost var done: set<String> := {};
      var rest := words;
      assert Purge(w2d, id, {}) == w2d by {
        assert Purge(w2d, id, {}).Keys == w2d.Keys;
      }
      while rest != {}
        invariant rest + done == words && rest !! done
        invariant wordToDocumentFreqs == Purge(w2d, id, done)
        invariant documentToWordFreqs == old(documentToWordFreqs)
        invariant documents == old(documents) && documentIds == old(documentIds)
        decreases rest
      {
        var w :| w in rest;
        PurgeStep(w2d, id, done, w);
        wordToDocumentFreqs := PurgeWord(wordToDocumentFreqs, id, w);
        done := done + {w};
        rest := rest - {w};
      }
      RemoveKeepsIndex(stopWords, w2d, documentToWordFreqs, documents, id);
      RemoveKeepsSorted(documentIds, id, IntLess);
      documentToWordFreqs := documentToWordFreqs - {id};
      documents := documents - {id};
      documentIds := Remove(documentIds, id);
    }
  }

  /** A sorted id list holding exactly the keys of a map is as long as the map. */
  lemma IdsCount(ids: seq<int>, documents: map<int, DocumentData>)
    requires IsStrictTotalOrder(IntLess)
    ensures IsSorted(ids, IntLess) && (forall d :: d in ids <==> d in documents) ==> |ids| == |documents|
  {
    if IsSorted(ids, IntLess) && (forall d :: d in ids <==> d in documents) {
      SortedLength(ids, IntLess);
      assert Elements(ids) == documents.Keys;
    }
  }
}
