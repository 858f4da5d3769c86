/** The two mirrored posting maps of the search server and what adding and
    removing a document does to them (search_server.cpp, search_server.h). */
module InvertedIndex {
  import opened StringProcessing

  /** `word_to_document_freqs_`: word -> document id -> term frequency. */
  type WordIndex = map<String, map<int, real>>
  /** `document_to_word_freqs_`: document id -> word -> term frequency. */
  type DocumentIndex = map<int, map<String, real>>

  /** `m[k]` through `operator[]`: the stored inner map, or a new empty one. */
  function Inner<K, L>(m: map<K, map<L, real>>, k: K): map<L, real> {
    if k in m then m[k] else map[]
  }

  /** `f[k] += x` through `operator[]`, a missing entry counting as 0. */
  function Inc<L>(f: map<L, real>, k: L, x: real): map<L, real> {
    f[k := (if k in f then f[k] else 0.0) + x]
  }

  /** `m[k1][k2] += x` through two `operator[]`s. */
  function AddAt<K, L>(m: map<K, map<L, real>>, k1: K, k2: L, x: real): map<K, map<L, real>> {
    m[k1 := Inc(Inner(m, k1), k2, x)]
  }

  /** `word_to_document_freqs_[w][id] += inv` for each `w` of `words` in turn. */
  function PostWords(m: WordIndex, id: int, words: seq<String>, inv: real): WordIndex
    decreases |words|
  {
    if |words| == 0 then m
    else AddAt(PostWords(m, id, words[..|words| - 1], inv), words[|words| - 1], id, inv)
  }

  /** `document_to_word_freqs_[id][w] += inv` for each `w` of `words` in turn. */
  function PostDocument(m: DocumentIndex, id: int, words: seq<String>, inv: real): DocumentIndex
    decreases |words|
  {
    if |words| == 0 then m
    else AddAt(PostDocument(m, id, words[..|words| - 1], inv), id, words[|words| - 1], inv)
  }

  /** `f[w] += inv` for each `w` of `words` in turn, from an empty map. */
  function Tally(words: seq<String>, inv: real): map<String, real>
    decreases |words|
  {
    if |words| == 0 then map[] else Inc(Tally(words[..|words| - 1], inv), words[|words| - 1], inv)
  }

  /** The number of occurrences of `w`, counted left to right. */
  function Count(words: seq<String>, w: String): nat
    decreases |words|
  {
    if |words| == 0 then 0
    else Count(words[..|words| - 1], w) + (if words[|words| - 1] == w then 1 else 0)
  }

  /** Counting left to right gives the multiplicity. */
  lemma {:induction false} CountIsMultiplicity(words: seq<String>, w: String)
    ensures Count(words, w) == multiset(words)[w]
    decreases |words|
  {
    if |words| != 0 {
      var init, v := words[..|words| - 1], words[|words| - 1];
      assert words == init + [v];
      CountIsMultiplicity(init, w);
      assert multiset(words) == multiset(init) + multiset{v};
    }
  }

  /** A word that does not occur is counted zero times. */
  lemma {:induction false} CountAbsent(words: seq<String>, w: String)
    requires w !in words
    ensures Count(words, w) == 0
    decreases |words|
  {
    if |words| != 0 {
      CountAbsent(words[..|words| - 1], w);
    }
  }

  /** The tally holds a word exactly when it occurs, weighted by its number of occurrences. */
  lemma {:induction false} TallyAt(words: seq<String>, inv: real, w: String)
    ensures w in Tally(words, inv) <==> w in words
    ensures w in Tally(words, inv) ==> Tally(words, inv)[w] == Count(words, w) as real * inv
    decreases |words|
  {
    if |words| != 0 {
      var init, v := words[..|words| - 1], words[|words| - 1];
      assert words == init + [v];
      TallyAt(init, inv, w);
      if w == v {
        if v in init {
          OneMore(Count(init, v), inv);
        } else {
          CountAbsent(init, v);
        }
      }
    }
  }

  /** One more occurrence adds one more weight. */
  lemma OneMore(c: nat, inv: real)
    ensures (c + 1) as real * inv == c as real * inv + inv
  {
  }

  /** A count times the reciprocal of a length that is at least the count:
      the count over the length, in (0, 1]. */
  lemma Ratio(c: nat, n: nat, inv: real, x: real)
    requires 0 < c <= n && inv == 1.0 / n as real && x == c as real * inv
    ensures x == c as real / n as real && 0.0 < x <= 1.0
  {
  }

  /** A word that occurs is counted at least once and at most once per position. */
  lemma {:induction false} CountBounds(words: seq<String>, w: String)
    ensures Count(words, w) <= |words|
    ensures w in words ==> Count(words, w) > 0
    decreases |words|
  {
    if |words| != 0 {
      var init := words[..|words| - 1];
      assert words == init + [words[|words| - 1]];
      CountBounds(init, w);
    }
  }

  /** The term frequencies of a document: occurrences of each word over the
      number of (non-stop) words. */
  function TermFrequencies(words: seq<String>): (r: map<String, real>)
    requires |words| != 0
    ensures forall w :: w in r <==> w in words
    ensures forall w | w in r :: r[w] == Count(words, w) as real / |words| as real
    ensures forall w | w in r :: 0.0 < r[w] <= 1.0
  {
    var r := Tally(words, 1.0 / |words| as real);
    FrequencyAt(words);
    r
  }

  /** Each word's weight in the tally with weight 1/n is its occurrences over n. */
  lemma FrequencyAt(words: seq<String>)
    requires |words| != 0
    ensures var r := Tally(words, 1.0 / |words| as real);
      && (forall w :: w in r <==> w in words)
      && (forall w | w in r :: r[w] == Count(words, w) as real / |words| as real && 0.0 < r[w] <= 1.0)
  {
    forall w {
      FrequencyOf(words, w);
    }
  }

  /** One word's weight in the tally with weight 1/n. */
  lemma FrequencyOf(words: seq<String>, w: String)
    requires |words| != 0
    ensures var r := Tally(words, 1.0 / |words| as real);
      && (w in r <==> w in words)
      && (w in r ==> r[w] == Count(words, w) as real / |words| as real && 0.0 < r[w] <= 1.0)
  {
    var n := |words|;
    var inv := 1.0 / n as real;
    TallyAt(words, inv, w);
    if w in words {
      CountBounds(words, w);
      Ratio(Count(words, w), n, inv, Tally(words, inv)[w]);
    }
  }

  /** The posting maps after adding document `id` with term frequencies `f`:
      every word of `f` gains the posting `id -> f[w]`, other words keep theirs. */
  function AddPostings(m: WordIndex, id: int, f: map<String, real>): WordIndex {
    map w | w in m.Keys + f.Keys :: if w in f then Inner(m, w)[id := f[w]] else m[w]
  }

  /** One word of the `+=` loop for a document with no posting under that
      word yet: the word gains the posting `id -> tally`, if it occurs. */
  lemma {:induction false} PostWordsAt(m: WordIndex, id: int, words: seq<String>, inv: real, w: String)
    requires w in m ==> id !in m[w]
    ensures var r, t := PostWords(m, id, words, inv), Tally(words, inv);
      && (w in r <==> w in m || w in t)
      && (w in r ==> r[w] == if w in t then Inner(m, w)[id := t[w]] else m[w])
    decreases |words|
  {
    if |words| != 0 {
      var init, v := words[..|words| - 1], words[|words| - 1];
      PostWordsAt(m, id, init, inv, w);
      var r0, t0 := PostWords(m, id, init, inv), Tally(init, inv);
      if w == v {
        if w in t0 {
          assert Inner(r0, w) == Inner(m, w)[id := t0[w]];
        } else {
          assert Inner(r0, w) == Inner(m, w);
        }
      }
    }
  }

  /** For a document with no posting yet, the `+=` loop over its words writes
      exactly the tallies of those words. */
  lemma PostWordsFresh(m: WordIndex, id: int, words: seq<String>, inv: real)
    requires forall w | w in m :: id !in m[w]
    ensures PostWords(m, id, words, inv) == AddPostings(m, id, Tally(words, inv))
  {
    var a, b := PostWords(m, id, words, inv), AddPostings(m, id, Tally(words, inv));
    forall w ensures (w in a <==> w in b) && (w in a ==> a[w] == b[w]) {
      PostWordsAt(m, id, words, inv, w);
    }
    assert a.Keys == b.Keys;
  }

  /** For a document with no entry yet, the `+=` loop over a non-empty word
      list creates its entry holding exactly the tallies. */
  lemma {:induction false} PostDocumentFresh(m: DocumentIndex, id: int, words: seq<String>, inv: real)
    requires id !in m && |words| != 0
    ensures PostDocument(m, id, words, inv) == m[id := Tally(words, inv)]
    decreases |words|
  {
    var init := words[..|words| - 1];
    if |init| == 0 {
      assert Tally(init, inv) == map[];
    } else {
      PostDocumentFresh(m, id, init, inv);
    }
  }

  /** The word map and the document map hold the same (word, document, tf) triples. */
  ghost predicate Mirrored(w2d: WordIndex, d2w: DocumentIndex) {
    && (forall w, d | w in w2d && d in w2d[w] :: d in d2w && w in d2w[d] && d2w[d][w] == w2d[w][d])
    && (forall d, w | d in d2w && w in d2w[d] :: w in w2d && d in w2d[w])
  }

  /** No word or document is kept with an empty inner map. */
  ghost predicate NoEmptyEntries(w2d: WordIndex, d2w: DocumentIndex) {
    && (forall w | w in w2d :: w2d[w] != map[])
    && (forall d | d in d2w :: d2w[d] != map[])
  }

  /** Adding a document unknown to both maps keeps them mirrored and free of
      empty entries. */
  lemma AddKeepsMirrored(w2d: WordIndex, d2w: DocumentIndex, id: int, f: map<String, real>)
    requires Mirrored(w2d, d2w) && NoEmptyEntries(w2d, d2w) && id !in d2w && f != map[]
    ensures Mirrored(AddPostings(w2d, id, f), d2w[id := f])
    ensures NoEmptyEntries(AddPostings(w2d, id, f), d2w[id := f])
  {
    var w2d', d2w' := AddPostings(w2d, id, f), d2w[id := f];
    forall w, d | w in w2d' && d in w2d'[w]
      ensures d in d2w' && w in d2w'[d] && d2w'[d][w] == w2d'[w][d]
    {
      if d != id {
        assert w in w2d && d in w2d[w];
      }
    }
    forall d, w | d in d2w' && w in d2w'[d] ensures w in w2d' && d in w2d'[w] {
      if d != id {
        assert w in w2d && d in w2d[w];
        assert d in Inner(w2d, w);
      }
    }
    forall w | w in w2d' ensures w2d'[w] != map[] {
      if w in f {
        assert id in w2d'[w];
      } else {
        assert w2d'[w] == w2d[w];
      }
    }
  }

  /** The word map after erasing the postings of `id` under the words `ws`,
      dropping a word whose postings become empty. */
  function Purge(m: WordIndex, id: int, ws: set<String>): WordIndex {
    map w | w in m && (w !in ws || m[w] - {id} != map[]) :: if w in ws then m[w] - {id} else m[w]
  }

  /** One step of the removal loop: erase the posting of `id` under `w`, and
      the word itself once it has no postings left. */
  function PurgeWord(m: WordIndex, id: int, w: String): WordIndex {
    if w !in m then m
    else if m[w] - {id} == map[] then m - {w}
    else m[w := m[w] - {id}]
  }

  /** Purging word by word adds up to purging the set of words. */
  lemma PurgeStep(m: WordIndex, id: int, ws: set<String>, w: String)
    requires w !in ws
    ensures Purge(m, id, ws + {w}) == PurgeWord(Purge(m, id, ws), id, w)
  {
    var a, b := Purge(m, id, ws + {w}), PurgeWord(Purge(m, id, ws), id, w);
    assert a.Keys == b.Keys;
  }

  /** Purging keeps exactly the postings not of `id` under `ws`, with their
      frequencies, and never leaves an empty word behind. */
  lemma PurgeMeaning(m: WordIndex, id: int, ws: set<String>)
    requires forall w | w in m :: m[w] != map[]
    ensures var r := Purge(m, id, ws);
      && (forall w, d :: (w in r && d in r[w]) <==> (w in m && d in m[w] && !(d == id && w in ws)))
      && (forall w, d | w in r && d in r[w] :: r[w][d] == m[w][d])
      && (forall w | w in r :: r[w] != map[])
  {
    var r := Purge(m, id, ws);
    forall w, d | w in m && d in m[w] && !(d == id && w in ws) ensures w in r && d in r[w] {
      if w in ws {
        assert d in (m[w] - {id}).Keys;
      }
    }
  }

  /** Removing a document's postings under all of its words and its own entry
      keeps the maps mirrored and free of empty entries. */
  lemma RemoveKeepsMirrored(w2d: WordIndex, d2w: DocumentIndex, id: int)
    requires Mirrored(w2d, d2w) && NoEmptyEntries(w2d, d2w) && id in d2w
    ensures Mirrored(Purge(w2d, id, d2w[id].Keys), d2w - {id})
    ensures NoEmptyEntries(Purge(w2d, id, d2w[id].Keys), d2w - {id})
    ensures forall w | w in Purge(w2d, id, d2w[id].Keys) :: id !in Purge(w2d, id, d2w[id].Keys)[w]
  {
    var ws := d2w[id].Keys;
    PurgeMeaning(w2d, id, ws);
  }
}
