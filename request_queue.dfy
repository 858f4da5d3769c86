/** The request window (request_queue.h, request_queue.cpp): the results of
    the last day's searches, one per minute, and how many of them found nothing. */
module Requests {
  import opened StringProcessing
  import opened Errors
  import opened Documents
  import opened Ranking
  import opened Retrieval
  import opened Search

  /** `min_in_day_`: the number of requests the window keeps. */
  const MinInDay: nat := 1440

  /** `QueryResult`: whether a search found nothing, and what it found. */
  datatype QueryResult = QueryResult(isNullResult: bool, documents: seq<Document>)

  /** The record `Add` makes for a search result. */
  function Record(documents: seq<Document>): (q: QueryResult)
    ensures q.isNullResult <==> documents == []
    ensures q.documents == documents
  {
    QueryResult(documents == [], documents)
  }

  /** The most recent `MinInDay` records of a history, oldest first. */
  function Window(history: seq<QueryResult>): (w: seq<QueryResult>)
    ensures |w| == if |history| <= MinInDay then |history| else MinInDay
    ensures forall k | 0 <= k < |w| :: w[k] == history[|history| - |w| + k]
  {
    if |history| <= MinInDay then history else history[|history| - MinInDay..]
  }

  /** One more record: the window keeps it and, once full, drops its oldest record. */
  lemma WindowSnoc(history: seq<QueryResult>, x: QueryResult)
    ensures var w := Window(history) + [x];
      Window(history + [x]) == if |w| > MinInDay then w[1..] else w
  {
    var h := history + [x];
    var w := Window(history) + [x];
    if |w| > MinInDay {
      assert Window(h) == w[1..];
    } else {
      assert Window(h) == w;
    }
  }

  /** The number of records with the null flag set, oldest first. */
  function CountNull(requests: seq<QueryResult>): (n: nat)
    ensures n <= |requests|
    ensures n == 0 <==> forall k | 0 <= k < |requests| :: !requests[k].isNullResult
    ensures n == |requests| <==> forall k | 0 <= k < |requests| :: requests[k].isNullResult
    decreases |requests|
  {
    if |requests| == 0 then 0
    else
      var init := requests[..|requests| - 1];
      assert forall k | 0 <= k < |init| :: init[k] == requests[k];
      CountNull(init) + (if requests[|requests| - 1].isNullResult then 1 else 0)
  }

  /** `RequestQueue`: a search server and the window of its recent results.
      `history` holds every record ever made, for the statement of what the window keeps. */
  class RequestQueue {
    const server: SearchServer
    var requests: seq<QueryResult>
    ghost var history: seq<QueryResult>

    ghost predicate Valid()
      reads this
    {
      requests == Window(history)
    }

    constructor (server: SearchServer)
      ensures this.server == server && Valid() && requests == [] && history == []
    {
      this.server := server;
      requests := [];
      history := [];
    }

    /** `Add`: appends the record of a result and, past `MinInDay` records,
        drops the oldest one. */
    method Add(documents: seq<Document>)
      requires Valid()
      modifies this
      ensures Valid()
      ensures history == old(history) + [Record(documents)]
      ensures requests == if |old(requests)| + 1 > MinInDay then (old(requests) + [Record(documents)])[1..]
                          else old(requests) + [Record(documents)]
      ensures |requests| <= MinInDay
    {
      WindowSnoc(history, Record(documents));
      var isNullResult := false;
      if documents == [] {
        isNullResult := true;
      }
      requests := requests + [QueryResult(isNullResult, documents)];
      history := history + [Record(documents)];
      if |requests| > MinInDay {
        requests := requests[1..];
      }
    }

    /** `AddFindRequest` with a predicate: the server's top documents, recorded.
        A query the server refuses throws before anything is recorded. */
    method AddFindRequest(rawQuery: String, pred: DocumentPredicate, ln: real -> real) returns (r: Result<seq<Document>>)
      requires Valid() && server.Valid()
      modifies this
      ensures Valid()
      ensures server.QueryOf(rawQuery).Err? ==> r == Err(server.QueryOf(rawQuery).error)
      ensures server.QueryOf(rawQuery).Ok? ==> r.Ok? && exists all ::
        IsAllDocuments(all, server.wordToDocumentFreqs, server.documents, server.QueryOf(rawQuery).value, pred, ln)
        && IsTopOf(r.value, all)
      ensures r.Err? ==> requests == old(requests) && history == old(history)
      ensures r.Ok? ==> history == old(history) + [Record(r.value)]
    {
      r := server.FindTopDocuments(rawQuery, pred, ln);
      if r.Ok? {
        Add(r.value);
      }
    }

    /** `AddFindRequest(raw_query, status)`. */
    method AddFindRequestByStatus(rawQuery: String, status: Status, ln: real -> real) returns (r: Result<seq<Document>>)
      requires Valid() && server.Valid()
      modifies this
      ensures Valid()
      ensures server.QueryOf(rawQuery).Err? ==> r == Err(server.QueryOf(rawQuery).error)
      ensures server.QueryOf(rawQuery).Ok? ==> r.Ok? && exists all ::
        IsAllDocuments(all, server.wordToDocumentFreqs, server.documents, server.QueryOf(rawQuery).value, StatusIs(status), ln)
        && IsTopOf(r.value, all)
      ensures r.Err? ==> requests == old(requests) && history == old(history)
      ensures r.Ok? ==> history == old(history) + [Record(r.value)]
    {
      r := server.FindTopDocumentsByStatus(rawQuery, status, ln);
      if r.Ok? {
        Add(r.value);
      }
    }

    /** `AddFindRequest(raw_query)`: the `ACTUAL` documents. */
    method AddActualFindRequest(rawQuery: String, ln: real -> real) returns (r: Result<seq<Document>>)
      requires Valid() && server.Valid()
      modifies this
      ensures Valid()
      ensures server.QueryOf(rawQuery).Err? ==> r == Err(server.QueryOf(rawQuery).error)
      ensures server.QueryOf(rawQuery).Ok? ==> r.Ok? && exists all ::
        IsAllDocuments(all, server.wordToDocumentFreqs, server.documents, server.QueryOf(rawQuery).value, StatusIs(Actual), ln)
        && IsTopOf(r.value, all)
      ensures r.Err? ==> requests == old(requests) && history == old(history)
      ensures r.Ok? ==> history == old(history) + [Record(r.value)]
    {
      r := server.FindActualTopDocuments(rawQuery, ln);
      if r.Ok? {
        Add(r.value);
      }
    }

    /** `GetNoResultRequests`: how many kept records found nothing. */
    function GetNoResultRequests(): (n: nat)
      reads this
      ensures n <= |requests|
      ensures n == 0 <==> forall k | 0 <= k < |requests| :: !requests[k].isNullResult
    {
      CountNull(requests)
    }
  }

  /** Counting over two parts adds up. */
  lemma {:induction false} CountNullAppend(a: seq<QueryResult>, b: seq<QueryResult>)
    ensures CountNull(a + b) == CountNull(a) + CountNull(b)
    decreases |b|
  {
    if |b| != 0 {
      var b0 := b[..|b| - 1];
      assert (a + b)[..|a + b| - 1] == a + b0;
      CountNullAppend(a, b0);
    } else {
      assert a + b == a;
    }
  }

  /** What `Add` does to the no-result count: one more for an empty
      result, one less if the dropped oldest record was empty. */
  lemma AddRecordCount(requests: seq<QueryResult>, x: QueryResult)
    requires |requests| <= MinInDay
    ensures var w := requests + [x];
      var kept := if |w| > MinInDay then w[1..] else w;
      CountNull(kept) == CountNull(requests) + (if x.isNullResult then 1 else 0)
                         - (if |w| > MinInDay && requests[0].isNullResult then 1 else 0)
  {
    var w := requests + [x];
    assert w[..|w| - 1] == requests;
    if |w| > MinInDay {
      assert w == [w[0]] + w[1..];
      CountNullAppend([w[0]], w[1..]);
      assert [w[0]][..0] == [];
    }
  }

  /** The window over a history in which each of the last `MinInDay`
      results found nothing counts `MinInDay` no-result requests. */
  lemma FullDayWithoutResults(history: seq<QueryResult>)
    requires |history| >= MinInDay
    requires forall k | |history| - MinInDay <= k < |history| :: history[k].isNullResult
    ensures CountNull(Window(history)) == MinInDay
  {
  }
}
