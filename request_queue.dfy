/**
 * The request queue: it forwards searches to a server and keeps the
 * searches of the last day (1440 requests, one per minute) with the number
 * of results each returned, so that it can say how many of them came back
 * empty.
 */
module Requests {
  import opened Wrappers
  import opened Documents
  import opened StringProcessing
  import opened Queries
  import opened Ranking
  import opened Server

  /** The number of requests a day holds: every request advances the clock by one minute. */
  const MinInDay: nat := 1440

  /** One remembered request: when it was made and how many documents it found. */
  datatype QueryResult = QueryResult(time: int, resultSize: nat)

  /** The number of empty results. */
  function ZeroCount(sizes: seq<nat>): nat
  {
    if sizes == [] then 0
    else ZeroCount(sizes[..|sizes| - 1]) + (if sizes[|sizes| - 1] == 0 then 1 else 0)
  }

  /** Appending a result counts it if it is empty. */
  lemma ZeroCountAppend(sizes: seq<nat>, size: nat)
    ensures ZeroCount(sizes + [size]) == ZeroCount(sizes) + (if size == 0 then 1 else 0)
  {
    assert (sizes + [size])[..|sizes|] == sizes;
  }

  /** Dropping the oldest result uncounts it if it was empty. */
  lemma {:induction false} ZeroCountTail(sizes: seq<nat>)
    requires sizes != []
    ensures ZeroCount(sizes) == ZeroCount(sizes[1..]) + (if sizes[0] == 0 then 1 else 0)
  {
    if |sizes| > 1 {
      var n := |sizes| - 1;
      ZeroCountTail(sizes[..n]);
      assert sizes[..n][1..] == sizes[1..][..n - 1];
    }
  }

  /** There are never more empty results than results. */
  lemma {:induction false} ZeroCountBound(sizes: seq<nat>)
    ensures ZeroCount(sizes) <= |sizes|
  {
    if sizes != [] {
      ZeroCountBound(sizes[..|sizes| - 1]);
    }
  }

  /** The result sizes of the remembered requests, oldest first. */
  function Sizes(requests: seq<QueryResult>): (sizes: seq<nat>)
    ensures |sizes| == |requests|
    ensures forall k :: 0 <= k < |requests| ==> sizes[k] == requests[k].resultSize
  {
    if requests == [] then [] else [requests[0].resultSize] + Sizes(requests[1..])
  }

  /** The results of the last day: the final 1440 of the history, or all of it. */
  function LastDay(history: seq<nat>): (day: seq<nat>)
    ensures |day| == Min(|history|, MinInDay)
    ensures day == history[|history| - |day|..]
  {
    history[|history| - Min(|history|, MinInDay)..]
  }

  /**
   * The requests of the last day for a history: the request made at time t
   * (counting from 1) found history[t - 1] documents.
   */
  function Window(history: seq<nat>): (w: seq<QueryResult>)
    ensures |w| == Min(|history|, MinInDay)
    ensures forall k :: 0 <= k < |w| ==> w[k].time == |history| - |w| + k + 1
    ensures forall k :: 0 <= k < |w| ==> w[k].time > |history| - MinInDay
    ensures Sizes(w) == LastDay(history)
  {
    var n := Min(|history|, MinInDay);
    var start := |history| - n;
    var w := seq(n, k requires 0 <= k < n => QueryResult(start + k + 1, history[start + k]));
    assert Sizes(w) == LastDay(history);
    w
  }

  /** A new request moves the window by one: the new request enters, a day-old one leaves. */
  lemma WindowStep(history: seq<nat>, size: nat)
    ensures var old_ := Window(history);
            var dropped := if |old_| == MinInDay then old_[1..] else old_;
            Window(history + [size]) == dropped + [QueryResult(|history| + 1, size)]
  {
  }

  /** Sizes distributes over appending one request. */
  lemma SizesAppend(requests: seq<QueryResult>, r: QueryResult)
    ensures Sizes(requests + [r]) == Sizes(requests) + [r.resultSize]
  {
    assert |Sizes(requests + [r])| == |Sizes(requests) + [r.resultSize]|;
  }

  /**
   * The front of AddRequest: at the new time, the requests a day old leave
   * the front of the window, and the empty ones among them are uncounted.
   * Only a full window has one, its oldest request.
   */
  method DropExpired(requests: seq<QueryResult>, count: int, curTime: int)
    returns (kept: seq<QueryResult>, keptCount: int)
    requires |requests| <= MinInDay
    requires forall k :: 0 <= k < |requests| ==> requests[k].time == curTime - |requests| + k
    requires count == ZeroCount(Sizes(requests))
    ensures kept == if |requests| == MinInDay then requests[1..] else requests
    ensures keptCount == ZeroCount(Sizes(kept))
  {
    kept, keptCount := requests, count;
    ghost var popped := 0;
    while kept != [] && MinInDay <= curTime - kept[0].time
      invariant 0 <= popped <= 1 && popped <= |requests|
      invariant kept == requests[popped..]
      invariant popped == 1 ==> |requests| == MinInDay
      invariant keptCount == ZeroCount(Sizes(kept))
      decreases |kept|
    {
      assert kept[0] == requests[popped];
      ZeroCountTail(Sizes(kept));
      assert Sizes(kept)[1..] == Sizes(kept[1..]);
      if kept[0].resultSize == 0 {
        keptCount := keptCount - 1;
      }
      kept := kept[1..];
      popped := popped + 1;
    }
  }

  /** The back of AddRequest: after the expired request left, the new one completes the window. */
  lemma Admit(history: seq<nat>, size: nat, kept: seq<QueryResult>, keptCount: int)
    requires kept == (var w := Window(history); if |w| == MinInDay then w[1..] else w)
    requires keptCount == ZeroCount(Sizes(kept))
    ensures Window(history + [size]) == kept + [QueryResult(|history| + 1, size)]
    ensures ZeroCount(Sizes(Window(history + [size]))) == keptCount + if size == 0 then 1 else 0
  {
    WindowStep(history, size);
    SizesAppend(kept, QueryResult(|history| + 1, size));
    ZeroCountAppend(Sizes(kept), size);
  }

  class RequestQueue {
    const server: SearchServer
    var requests: seq<QueryResult>
    var noResultsCount: int
    var curTime: int
    /** The result sizes of every request ever made, oldest first. */
    ghost var history: seq<nat>

    /**
     * The queue holds exactly the requests of the last day, each stamped
     * with its minute; the counter is the number of them that found
     * nothing.
     */
    ghost predicate Valid()
      reads this
    {
      && curTime == |history|
      && requests == Window(history)
      && noResultsCount == ZeroCount(Sizes(requests))
    }

    /** A queue in front of the given server, with no requests yet. */
    constructor (server: SearchServer)
      ensures Valid()
      ensures this.server == server && history == []
    {
      this.server := server;
      requests := [];
      noResultsCount := 0;
      curTime := 0;
      history := [];
    }

    /**
     * AddRequest: the clock advances by one minute, the requests older
     * than a day leave the front (uncounting the empty ones), and the new
     * request joins the back.
     */
    method AddRequest(resultSize: nat)
      requires Valid()
      modifies this`requests, this`noResultsCount, this`curTime, this`history
      ensures Valid()
      ensures history == old(history) + [resultSize]
      ensures curTime == old(curTime) + 1
    {
      var kept, keptCount := DropExpired(requests, noResultsCount, curTime + 1);
      ghost var history' := history + [resultSize];
      Admit(history, resultSize, kept, keptCount);
      curTime := curTime + 1;
      history := history';
      requests := kept + [QueryResult(curTime, resultSize)];
      noResultsCount := keptCount + if resultSize == 0 then 1 else 0;
    }

    /** GetNoResultRequests: how many of the last day's requests found nothing. */
    function GetNoResultRequests(): (n: int)
      reads this
      requires Valid()
      ensures n == ZeroCount(LastDay(history))
      ensures 0 <= n <= MinInDay
    {
      ZeroCountBound(Sizes(requests));
      noResultsCount
    }

    /**
     * AddFindRequest with a predicate: the search is forwarded; a query the
     * server rejects leaves the queue as it was, any other is remembered
     * with the number of documents found.
     */
    method AddFindRequest(rawQuery: string, pred: DocumentPredicate, idf: Idf)
      returns (r: Result<seq<Document>, Error>)
      requires Valid() && server.Valid()
      modifies this`requests, this`noResultsCount, this`curTime, this`history
      ensures Valid()
      ensures r.Failure? <==> QueryError(Words(rawQuery), server.stopWords).Some?
      ensures r.Failure? ==> history == old(history) && requests == old(requests)
      ensures r.Success? ==>
                IsTop(r.value, server.wordToDocumentFreqs, server.documents,
                      ParsedQuery(Words(rawQuery), server.stopWords, Sequenced), pred, idf)
      ensures r.Success? ==> history == old(history) + [|r.value|]
    {
      r := server.FindTopDocuments(rawQuery, pred, idf);
      if r.Success? {
        AddRequest(|r.value|);
      }
    }

    /** AddFindRequest with a status: the documents with exactly that status. */
    method AddFindRequestByStatus(rawQuery: string, status: DocumentStatus, idf: Idf)
      returns (r: Result<seq<Document>, Error>)
      requires Valid() && server.Valid()
      modifies this`requests, this`noResultsCount, this`curTime, this`history
      ensures Valid()
      ensures r.Failure? <==> QueryError(Words(rawQuery), server.stopWords).Some?
      ensures r.Failure? ==> history == old(history)
      ensures r.Success? ==>
                IsTop(r.value, server.wordToDocumentFreqs, server.documents,
                      ParsedQuery(Words(rawQuery), server.stopWords, Sequenced), StatusIs(status), idf)
      ensures r.Success? ==> history == old(history) + [|r.value|]
    {
      r := AddFindRequest(rawQuery, StatusIs(status), idf);
    }

    /** AddFindRequest with the query alone: the ACTUAL documents. */
    method AddFindRequestActual(rawQuery: string, idf: Idf) returns (r: Result<seq<Document>, Error>)
      requires Valid() && server.Valid()
      modifies this`requests, this`noResultsCount, this`curTime, this`history
      ensures Valid()
      ensures r.Failure? <==> QueryError(Words(rawQuery), server.stopWords).Some?
      ensures r.Failure? ==> history == old(history)
      ensures r.Success? ==>
                IsTop(r.value, server.wordToDocumentFreqs, server.documents,
                      ParsedQuery(Words(rawQuery), server.stopWords, Sequenced), StatusIs(Actual), idf)
      ensures r.Success? ==> history == old(history) + [|r.value|]
    {
      r := AddFindRequestByStatus(rawQuery, Actual, idf);
    }
  }
}
