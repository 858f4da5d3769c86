/** Space-only tokenisers (string_processing.cpp/.h). */
module StringProcessing {

  type String = seq<char>

  /** The pieces written one after another, with `sep` between neighbours. */
  function Join(pieces: seq<String>, sep: char): String {
    if |pieces| == 0 then []
    else if |pieces| == 1 then pieces[0]
    else pieces[0] + [sep] + Join(pieces[1..], sep)
  }

  /** `std::string_view::find(c, from)`: the first index at or after `from`
      holding `c`, or -1 (npos) when there is none. */
  function FindChar(s: String, c: char, from: nat): (r: int)
    requires from <= |s|
    ensures r == -1 || (from <= r < |s| && s[r] == c)
    ensures r == -1 ==> c !in s[from..]
    ensures r != -1 ==> c !in s[from..r]
    decreases |s| - from
  {
    if from == |s| then -1
    else if s[from] == c then from
    else
      var r := FindChar(s, c, from + 1);
      assert s[from..] == [s[from]] + s[from + 1..];
      assert r != -1 ==> s[from..r] == [s[from]] + s[from + 1..r];
      r
  }

  /** The maximal space-free pieces of `s`, in order; every space ends one
      piece and starts the next, so pieces may be empty. */
  function Pieces(s: String): (r: seq<String>)
    ensures |r| >= 1
    decreases |s|
  {
    if |s| == 0 then [[]]
    else
      var p := Pieces(s[1..]);
      if s[0] == ' ' then [[]] + p else [[s[0]] + p[0]] + p[1..]
  }

  /** There is one piece more than there are spaces. */
  lemma {:induction false} PiecesCount(s: String)
    ensures |Pieces(s)| == multiset(s)[' '] + 1
    decreases |s|
  {
    if |s| != 0 {
      assert s == [s[0]] + s[1..];
      assert multiset(s) == multiset([s[0]]) + multiset(s[1..]);
      PiecesCount(s[1..]);
    }
  }

  /** Joining the pieces with single spaces gives the text back. */
  lemma {:induction false} PiecesJoin(s: String)
    ensures Join(Pieces(s), ' ') == s
    decreases |s|
  {
    if |s| != 0 {
      var p := Pieces(s[1..]);
      PiecesJoin(s[1..]);
      var r := Pieces(s);
      if s[0] == ' ' {
        assert r[1..] == p;
      } else if |p| == 1 {
        assert r == [[s[0]] + p[0]];
      } else {
        assert r[1..] == p[1..];
        assert Join(p, ' ') == p[0] + [' '] + Join(p[1..], ' ');
      }
      assert s == [s[0]] + s[1..];
    }
  }

  /** No piece contains a space. */
  lemma {:induction false} PiecesHaveNoSpaces(s: String)
    ensures forall i | 0 <= i < |Pieces(s)| :: ' ' !in Pieces(s)[i]
    decreases |s|
  {
    if |s| != 0 {
      PiecesHaveNoSpaces(s[1..]);
    }
  }

  /** Text without spaces is a single piece. */
  lemma {:induction false} PiecesOfSpaceFree(s: String)
    requires ' ' !in s
    ensures Pieces(s) == [s]
    decreases |s|
  {
    if |s| != 0 {
      PiecesOfSpaceFree(s[1..]);
      assert s == [s[0]] + s[1..];
    }
  }

  /** The pieces after appending `c`: a space starts a new empty piece, any
      other character extends the last piece. */
  function Extend(p: seq<String>, c: char): (r: seq<String>)
    requires |p| >= 1
    ensures |r| >= 1
  {
    if c == ' ' then p + [[]] else p[..|p| - 1] + [p[|p| - 1] + [c]]
  }

  /** Extending commutes with putting a piece in front, or a character in
      front of the first piece. */
  lemma ExtendCons(x: char, q: seq<String>, c: char)
    requires |q| >= 1
    ensures Extend([[]] + q, c) == [[]] + Extend(q, c)
    ensures var e := Extend(q, c); Extend([[x] + q[0]] + q[1..], c) == [[x] + e[0]] + e[1..]
  {
    var p := [[]] + q;
    assert p[..|p| - 1] == [[]] + q[..|q| - 1];
    var p' := [[x] + q[0]] + q[1..];
    var e := Extend(q, c);
    if c == ' ' {
      assert e[0] == q[0] && e[1..] == q[1..] + [[]];
    } else if |q| == 1 {
      assert e == [q[0] + [c]] && e[1..] == [];
      assert p' == [[x] + q[0]];
      assert Extend(p', c) == [[x] + q[0] + [c]];
      assert [x] + q[0] + [c] == [x] + (q[0] + [c]);
    } else {
      assert p'[..|p'| - 1] == [[x] + q[0]] + q[1..|q| - 1];
      assert e[0] == q[0] && e[1..] == q[1..|q| - 1] + [q[|q| - 1] + [c]];
    }
  }

  /** Appending one character to the text extends its pieces. */
  lemma {:induction false} PiecesSnoc(s: String, c: char)
    ensures Pieces(s + [c]) == Extend(Pieces(s), c)
    decreases |s|
  {
    if |s| == 0 {
      assert s + [c] == [c] && [c][1..] == [];
      var e: String := [];
      assert Pieces(e) == [[]];
      assert [c][1..] == e && [c] + e == [c];
    } else {
      var t := s + [c];
      assert t[1..] == s[1..] + [c];
      PiecesSnoc(s[1..], c);
      ExtendCons(s[0], Pieces(s[1..]), c);
    }
  }

  /** A space at `k` with none before it splits off the first piece `s[..k]`. */
  lemma {:induction false} PiecesAtFirstSpace(s: String, k: nat)
    requires k < |s| && s[k] == ' ' && ' ' !in s[..k]
    ensures Pieces(s) == [s[..k]] + Pieces(s[k + 1..])
    decreases k
  {
    if k != 0 {
      assert s[0] == s[..k][0];
      var u := s[1..];
      assert u[..k - 1] == s[1..k];
      assert s[..k] == [s[0]] + u[..k - 1];
      PiecesAtFirstSpace(u, k - 1);
      assert u[k..] == s[k + 1..];
      assert s[..k] == [s[0]] + s[1..k];
    }
  }

  /** The tokens `SplitIntoWords` produces: every piece, except that a final
      empty piece (text empty or ending in a space) is dropped. */
  function Words(s: String): seq<String> {
    var p := Pieces(s);
    if p[|p| - 1] == [] then p[..|p| - 1] else p
  }

  /** The last piece is empty exactly when the text is empty or ends in a space. */
  lemma LastPieceEmpty(s: String)
    ensures var p := Pieces(s); p[|p| - 1] == [] <==> (|s| == 0 || s[|s| - 1] == ' ')
  {
    if |s| != 0 {
      var init := s[..|s| - 1];
      assert s == init + [s[|s| - 1]];
      PiecesSnoc(init, s[|s| - 1]);
    }
  }

  /** `SplitIntoWords`: walks the text one character at a time, pushing the
      current word (possibly empty) at every space and the last word if it is
      non-empty. */
  method SplitIntoWords(text: String) returns (words: seq<String>)
    ensures words == Words(text)
  {
    words := [];
    var word: String := [];
    for i := 0 to |text|
      invariant words + [word] == Pieces(text[..i])
    {
      var c := text[i];
      PiecesSnoc(text[..i], c);
      assert text[..i + 1] == text[..i] + [c];
      assert (words + [word])[..|words|] == words;
      if c == ' ' {
        words := words + [word];
        word := [];
      } else {
        word := word + [c];
      }
    }
    assert text[..|text|] == text;
    assert (words + [word])[..|words|] == words;
    if word != [] {
      words := words + [word];
    }
  }

  /** `SplitIntoWordsView`: repeatedly finds the next space from `pos` and
      pushes the piece before it; the piece after the last space ends the loop. */
  method SplitIntoWordsView(str: String) returns (result: seq<String>)
    ensures result == Pieces(str)
  {
    result := [];
    var pos: nat := 0;
    while true
      invariant pos <= |str|
      invariant result + Pieces(str[pos..]) == Pieces(str)
      decreases |str| - pos
    {
      var space := FindChar(str, ' ', pos);
      var rest := str[pos..];
      if space == -1 {
        PiecesOfSpaceFree(rest);
        result := result + [rest];
        break;
      } else {
        var k := space - pos;
        assert rest[..k] == str[pos..space];
        PiecesAtFirstSpace(rest, k);
        assert rest[k + 1..] == str[space + 1..];
        result := result + [str[pos..space]];
        pos := space + 1;
      }
    }
  }

  /** Words are the pieces with a final empty piece dropped. */
  lemma WordsArePieces(s: String)
    ensures |s| != 0 && s[|s| - 1] != ' ' ==> Words(s) == Pieces(s)
    ensures |s| == 0 || s[|s| - 1] == ' ' ==> Words(s) + [[]] == Pieces(s)
  {
    LastPieceEmpty(s);
    var p := Pieces(s);
    assert p == p[..|p| - 1] + [p[|p| - 1]];
  }

  /** No token contains a space. */
  lemma WordsHaveNoSpaces(s: String)
    ensures forall i | 0 <= i < |Words(s)| :: ' ' !in Words(s)[i]
  {
    PiecesHaveNoSpaces(s);
    var p := Pieces(s);
    assert forall i | 0 <= i < |Words(s)| :: Words(s)[i] == p[i];
  }

  /** Joining the tokens with single spaces gives the text back when the text
      is empty or does not end in a space. */
  lemma WordsJoin(s: String)
    requires |s| == 0 || s[|s| - 1] != ' '
    ensures Join(Words(s), ' ') == s
  {
    WordsArePieces(s);
    PiecesJoin(s);
  }

  /** Empty text gives no tokens; text without spaces gives itself as its only token. */
  lemma WordsOfSingleWord(s: String)
    ensures |s| == 0 ==> Words(s) == []
    ensures |s| != 0 && ' ' !in s ==> Words(s) == [s]
  {
    if |s| != 0 && ' ' !in s {
      PiecesOfSpaceFree(s);
    }
  }

  /** A leading space yields an empty first token. */
  lemma LeadingSpaceGivesEmptyToken(s: String)
    requires |s| != 0 && s[0] == ' '
    ensures |Words(s)| != 0 && Words(s)[0] == []
  {
    var p := Pieces(s);
    assert p == [[]] + Pieces(s[1..]);
  }

  /** `MakeUniqueNonEmptyStrings`: the distinct non-empty strings of the input. */
  method MakeUniqueNonEmptyStrings(strings: seq<String>) returns (r: set<String>)
    ensures forall s :: s in r <==> s in strings && s != []
    ensures |r| <= |strings|
  {
    r := {};
    for i := 0 to |strings|
      invariant forall s :: s in r <==> s in strings[..i] && s != []
      invariant |r| <= i
    {
      assert strings[..i + 1] == strings[..i] + [strings[i]];
      if strings[i] != [] {
        r := r + {strings[i]};
      }
    }
    assert strings[..|strings|] == strings;
  }
}
