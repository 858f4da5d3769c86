/** Query-word classification and the meaning of `ParseQuery` (search_server.cpp). */
module QueryParsing {
  import opened StringProcessing
  import opened Errors
  import opened OrderedSet
  import opened WordRules

  /** `SearchServer::QueryWord`: the word with a leading '-' stripped, whether
      it had one, and whether the stripped word is a stop word. */
  datatype QueryWord = QueryWord(data: String, isMinus: bool, isStop: bool)

  /** `SearchServer::Query`: the plus and minus words, each a `std::set`
      kept as a strictly sorted sequence. */
  datatype Query = Query(plus: seq<String>, minus: seq<String>)

  /** `ParseQueryWord`: strips one leading '-' and looks the rest up among the
      stop words. The caller never passes an empty word. */
  function ParseQueryWord(text: String, stopWords: set<String>): (r: QueryWord)
    requires |text| != 0
    ensures r.isMinus <==> text[0] == '-'
    ensures (if r.isMinus then ['-'] + r.data else r.data) == text
    ensures r.isStop <==> r.data in stopWords
  {
    if text[0] == '-' then
      assert text == [text[0]] + text[1..];
      QueryWord(text[1..], true, text[1..] in stopWords)
    else QueryWord(text, false, text in stopWords)
  }

  /** The checks `ParseQuery` makes on a parsed word, in the order it makes
      them. An empty `data` reads as the terminating '\0', so a bare "-" is an
      empty minus word rather than a double minus. */
  function CheckQueryWord(qw: QueryWord): Outcome {
    if |qw.data| != 0 && qw.data[0] == '-' then Fail(DoubleMinus)
    else if qw.isMinus && |qw.data| == 0 then Fail(EmptyMinusWord)
    else if !IsValidWord(qw.data) then Fail(InvalidQueryWord)
    else Pass
  }

  /** What one token of the query text does: an empty token is skipped,
      any other is parsed and checked. */
  function TokenOutcome(token: String, stopWords: set<String>): Outcome {
    if |token| == 0 then Pass else CheckQueryWord(ParseQueryWord(token, stopWords))
  }

  /** `w` enters the plus set because of `token`. */
  predicate IsPlusToken(token: String, w: String, stopWords: set<String>) {
    |token| != 0 && token[0] != '-' && token == w && w !in stopWords
  }

  /** `w` enters the minus set because of `token`. */
  predicate IsMinusToken(token: String, w: String, stopWords: set<String>) {
    token == ['-'] + w && w !in stopWords
  }

  /** One token of `ParseQuery`'s loop: an empty token is skipped; any other
      is parsed and checked, and unless it is a stop word its data is
      inserted into the minus set (leading '-') or the plus set. */
  function AddToken(q: Query, token: String, stopWords: set<String>): (r: Result<Query>)
    requires IsSorted(q.plus, StringLess) && IsSorted(q.minus, StringLess)
    ensures r.Ok? ==> IsSorted(r.value.plus, StringLess) && IsSorted(r.value.minus, StringLess)
  {
    if |token| == 0 then Ok(q)
    else
      var qw := ParseQueryWord(token, stopWords);
      match CheckQueryWord(qw)
      case Fail(e) => Err(e)
      case Pass =>
        StringLessIsStrictTotalOrder();
        if qw.isStop then Ok(q)
        else if qw.isMinus then Ok(Query(q.plus, Insert(q.minus, qw.data, StringLess)))
        else Ok(Query(Insert(q.plus, qw.data, StringLess), q.minus))
  }

  /** A token fails exactly when its checks fail, with their error; when it
      passes, it adds its own word to the plus or minus set and nothing else. */
  lemma AddTokenMeaning(q: Query, token: String, stopWords: set<String>)
    requires IsSorted(q.plus, StringLess) && IsSorted(q.minus, StringLess)
    ensures var r := AddToken(q, token, stopWords);
      && (r.Ok? <==> TokenOutcome(token, stopWords) == Pass)
      && (r.Err? ==> TokenOutcome(token, stopWords) == Fail(r.error))
      && (r.Ok? ==> forall w :: w in r.value.plus <==> w in q.plus || IsPlusToken(token, w, stopWords))
      && (r.Ok? ==> forall w :: w in r.value.minus <==> w in q.minus || IsMinusToken(token, w, stopWords))
  {
    if |token| != 0 {
      var qw := ParseQueryWord(token, stopWords);
      assert forall w :: IsPlusToken(token, w, stopWords) <==> !qw.isMinus && !qw.isStop && w == qw.data;
      assert forall w :: IsMinusToken(token, w, stopWords) <==> qw.isMinus && !qw.isStop && w == qw.data;
    }
  }

  /** `ParseQuery` on already split text: the tokens left to right, stopping
      at the first token that fails. */
  function ParseTokens(tokens: seq<String>, stopWords: set<String>): (r: Result<Query>)
    ensures r.Ok? ==> IsSorted(r.value.plus, StringLess) && IsSorted(r.value.minus, StringLess)
    decreases |tokens|
  {
    if |tokens| == 0 then Ok(Query([], []))
    else
      var r := ParseTokens(tokens[..|tokens| - 1], stopWords);
      if r.Err? then r else AddToken(r.value, tokens[|tokens| - 1], stopWords)
  }

  /** Once a prefix of the tokens fails, parsing fails with the same error. */
  lemma {:induction false} ParseTokensStopsAtError(tokens: seq<String>, k: int, stopWords: set<String>)
    requires 0 <= k <= |tokens| && ParseTokens(tokens[..k], stopWords).Err?
    ensures ParseTokens(tokens, stopWords) == ParseTokens(tokens[..k], stopWords)
    decreases |tokens|
  {
    if k < |tokens| {
      var init := tokens[..|tokens| - 1];
      assert init[..k] == tokens[..k];
      ParseTokensStopsAtError(init, k, stopWords);
    } else {
      assert tokens[..k] == tokens;
    }
  }

  /** Parsing succeeds exactly when every token passes its checks; otherwise
      the error is that of the first token that fails. */
  lemma {:induction false} ParseTokensOutcome(tokens: seq<String>, stopWords: set<String>)
    ensures ParseTokens(tokens, stopWords).Ok? <==>
      forall i | 0 <= i < |tokens| :: TokenOutcome(tokens[i], stopWords) == Pass
    ensures ParseTokens(tokens, stopWords).Err? ==>
      exists k | 0 <= k < |tokens| ::
        && TokenOutcome(tokens[k], stopWords) == Fail(ParseTokens(tokens, stopWords).error)
        && forall i | 0 <= i < k :: TokenOutcome(tokens[i], stopWords) == Pass
    decreases |tokens|
  {
    if |tokens| != 0 {
      var init := tokens[..|tokens| - 1];
      ParseTokensOutcome(init, stopWords);
      assert forall i | 0 <= i < |init| :: init[i] == tokens[i];
      var r0 := ParseTokens(init, stopWords);
      if r0.Ok? {
        AddTokenMeaning(r0.value, tokens[|tokens| - 1], stopWords);
      } else {
        var k :| 0 <= k < |init| && TokenOutcome(init[k], stopWords) == Fail(r0.error)
          && forall i | 0 <= i < k :: TokenOutcome(init[i], stopWords) == Pass;
        assert TokenOutcome(tokens[k], stopWords) == Fail(r0.error);
      }
    }
  }

  /** A successful parse holds exactly the words that some token puts in the
      plus set, respectively the minus set; so no stop word is ever queried. */
  lemma ParseTokensWords(tokens: seq<String>, stopWords: set<String>)
    requires ParseTokens(tokens, stopWords).Ok?
    ensures var q := ParseTokens(tokens, stopWords).value;
      && (forall w :: w in q.plus <==> exists i | 0 <= i < |tokens| :: IsPlusToken(tokens[i], w, stopWords))
      && (forall w :: w in q.minus <==> exists i | 0 <= i < |tokens| :: IsMinusToken(tokens[i], w, stopWords))
  {
    forall w {
      ParseTokensWord(tokens, stopWords, w);
    }
  }

  /** `ParseTokensWords` for one word. */
  lemma {:induction false} ParseTokensWord(tokens: seq<String>, stopWords: set<String>, w: String)
    requires ParseTokens(tokens, stopWords).Ok?
    ensures var q := ParseTokens(tokens, stopWords).value;
      && (w in q.plus <==> exists i | 0 <= i < |tokens| :: IsPlusToken(tokens[i], w, stopWords))
      && (w in q.minus <==> exists i | 0 <= i < |tokens| :: IsMinusToken(tokens[i], w, stopWords))
    decreases |tokens|
  {
    if |tokens| != 0 {
      var init, token := tokens[..|tokens| - 1], tokens[|tokens| - 1];
      var r0 := ParseTokens(init, stopWords);
      ParseTokensWord(init, stopWords, w);
      AddTokenWord(r0.value, token, stopWords, w);
      SnocExists(tokens, w, stopWords);
    }
  }

  /** Some token of `tokens` yields `w` exactly when one of all but the last
      does, or the last does. */
  lemma SnocExists(tokens: seq<String>, w: String, stopWords: set<String>)
    requires |tokens| != 0
    ensures var init, token := tokens[..|tokens| - 1], tokens[|tokens| - 1];
      && ((exists i | 0 <= i < |tokens| :: IsPlusToken(tokens[i], w, stopWords)) <==>
          (exists i | 0 <= i < |init| :: IsPlusToken(init[i], w, stopWords)) || IsPlusToken(token, w, stopWords))
      && ((exists i | 0 <= i < |tokens| :: IsMinusToken(tokens[i], w, stopWords)) <==>
          (exists i | 0 <= i < |init| :: IsMinusToken(init[i], w, stopWords)) || IsMinusToken(token, w, stopWords))
  {
    var init := tokens[..|tokens| - 1];
    assert forall i | 0 <= i < |init| :: init[i] == tokens[i];
  }

  /** `AddTokenMeaning` for one word. */
  lemma AddTokenWord(q: Query, token: String, stopWords: set<String>, w: String)
    requires IsSorted(q.plus, StringLess) && IsSorted(q.minus, StringLess)
    requires AddToken(q, token, stopWords).Ok?
    ensures var r := AddToken(q, token, stopWords).value;
      && (w in r.plus <==> w in q.plus || IsPlusToken(token, w, stopWords))
      && (w in r.minus <==> w in q.minus || IsMinusToken(token, w, stopWords))
  {
    AddTokenMeaning(q, token, stopWords);
  }

  /** The three errors of a single token, and stop words dropped after the
      '-' is stripped. */
  lemma TokenExamples(stopWords: set<String>)
    requires "cat" !in stopWords
    ensures TokenOutcome("--cat", stopWords) == Fail(DoubleMinus)
    ensures TokenOutcome("-", stopWords) == Fail(EmptyMinusWord)
    ensures TokenOutcome("ca\U{1}t", stopWords) == Fail(InvalidQueryWord)
    ensures TokenOutcome("-cat", stopWords) == Pass
    ensures ParseTokens(["cat", "-cat", ""], stopWords) == Ok(Query(["cat"], ["cat"]))
    ensures ParseTokens(["in", "-in"], {"in"}) == Ok(Query([], []))
  {
    assert "--cat"[1..] == "-cat";
    assert "-cat"[1..] == "cat";
    assert "-"[1..] == [];
    assert IsValidWord("cat") by {
      assert "cat"[1..] == "at" && "at"[1..] == "t" && "t"[1..] == [];
    }
    assert !IsValidWord("ca\U{1}t") by {
      assert "ca\U{1}t"[1..] == "a\U{1}t" && "a\U{1}t"[1..] == "\U{1}t";
    }
    assert ["cat", "-cat", ""][..2] == ["cat", "-cat"];
    assert ["cat", "-cat"][..1] == ["cat"];
    assert ["cat"][..0] == [];
    assert ["in", "-in"][..1] == ["in"] && ["in"][..0] == [];
    assert "-in"[1..] == "in";
    assert IsValidWord("in") by {
      assert "in"[1..] == "n" && "n"[1..] == [];
    }
  }
}
