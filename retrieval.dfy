/**
 * FindAllDocuments, the loops behind every search: the plus words seed a
 * relevance map, the minus words erase from it, and what is left is listed
 * by ascending id.  Each loop is proved against the functions of Ranking.
 */
module Retrieval {
  import opened Documents
  import opened InvertedIndex
  import opened Queries
  import opened Ranking
  import opened IdSets

  /** Every document in a posting list is a known document. */
  predicate Indexed(words: WordIndex, documents: map<int, DocumentData>)
  {
    forall w, id :: w in words && id in words[w] ==> id in documents
  }

  /**
   * The relevance map after the plus words `done`: exactly the seeded
   * documents, each with the relevance those words give it.
   */
  ghost predicate Scored(words: WordIndex, documents: map<int, DocumentData>, pred: DocumentPredicate, idf: Idf,
                         done: seq<string>, relevance: map<int, real>)
  {
    && relevance.Keys == Seeded(words, documents, pred, done)
    && (forall id :: id in relevance ==> Passes(documents, pred, id))
    && (forall id :: id in relevance ==> relevance[id] == Relevance(words, |documents|, done, id, idf))
  }

  /** The state of one plus word's pass after visiting the postings not in `pending`. */
  ghost predicate Gathering(words: WordIndex, documents: map<int, DocumentData>, relevance: map<int, real>,
                      done: seq<string>, w: string, pred: DocumentPredicate, idf: Idf,
                      pending: set<int>, next: map<int, real>)
    requires w in words
  {
    && pending <= words[w].Keys
    && (forall id :: id in next <==> id in relevance || (id in words[w] && id !in pending && Passes(documents, pred, id)))
    && (forall id :: id in next ==> Passes(documents, pred, id))
    && (forall id :: id in next ==>
          next[id] == Relevance(words, |documents|, done, id, idf) +
            (if id in words[w].Keys - pending then Contribution(words, |documents|, w, id, idf) else 0.0))
  }

  /** Before the pass nothing of the word has been added. */
  lemma GatherStart(words: WordIndex, documents: map<int, DocumentData>, relevance: map<int, real>,
                    done: seq<string>, w: string, pred: DocumentPredicate, idf: Idf)
    requires w in words
    requires Scored(words, documents, pred, idf, done, relevance)
    ensures Gathering(words, documents, relevance, done, w, pred, idf, words[w].Keys, relevance)
  {
  }

  /** Visiting the least pending posting keeps the pass's state. */
  lemma GatherStep(words: WordIndex, documents: map<int, DocumentData>, relevance: map<int, real>,
                   done: seq<string>, w: string, pred: DocumentPredicate, idf: Idf,
                   postings: map<int, real>, weight: real,
                   pending: set<int>, next: map<int, real>, id: int, next': map<int, real>)
    requires w in words && postings == words[w] && weight == idf(|documents|, |postings|)
    requires Scored(words, documents, pred, idf, done, relevance)
    requires Gathering(words, documents, relevance, done, w, pred, idf, pending, next)
    requires id in pending && id in documents
    requires next' == if pred(id, documents[id].status, documents[id].rating)
                      then next[id := FreqOr0(next, id) + postings[id] * weight]
                      else next
    ensures Gathering(words, documents, relevance, done, w, pred, idf, pending - {id}, next')
  {
    var data := documents[id];
    if pred(id, data.status, data.rating) && id !in next {
      UnseededRelevance(words, documents, pred, done, id, idf);
    }
  }

  /** A word without a posting list adds nothing. */
  lemma GatherAbsent(words: WordIndex, documents: map<int, DocumentData>, relevance: map<int, real>,
                     done: seq<string>, w: string, pred: DocumentPredicate, idf: Idf)
    requires w !in words
    requires Scored(words, documents, pred, idf, done, relevance)
    ensures Scored(words, documents, pred, idf, done + [w], relevance)
  {
    assert (done + [w])[..|done|] == done;
  }

  /** A finished pass has added the word to the seeded set and to every relevance. */
  lemma GatherDone(words: WordIndex, documents: map<int, DocumentData>, relevance: map<int, real>,
                   done: seq<string>, w: string, pred: DocumentPredicate, idf: Idf, next: map<int, real>)
    requires w in words
    requires Scored(words, documents, pred, idf, done, relevance)
    requires Gathering(words, documents, relevance, done, w, pred, idf, {}, next)
    ensures Scored(words, documents, pred, idf, done + [w], next)
  {
    assert (done + [w])[..|done|] == done;
    var added := set id | id in words[w] && Passes(documents, pred, id);
    assert Seeded(words, documents, pred, done + [w]) == relevance.Keys + added;
    forall id ensures id in next <==> id in relevance.Keys + added {
      var none: set<int> := {};
      assert id !in none;
    }
  }

  /**
   * One plus word's pass of FindAllDocuments: each document in its
   * posting list that passes the predicate gains tf * idf.
   */
  method AddWordRelevance(words: WordIndex, documents: map<int, DocumentData>,
                          relevance: map<int, real>, done: seq<string>, w: string,
                          pred: DocumentPredicate, idf: Idf)
    returns (next: map<int, real>)
    requires Indexed(words, documents)
    requires Scored(words, documents, pred, idf, done, relevance)
    ensures Scored(words, documents, pred, idf, done + [w], next)
  {
    next := relevance;
    if w !in words {
      GatherAbsent(words, documents, relevance, done, w, pred, idf);
      return;
    }
    var postings := words[w];
    var inverseDocumentFreq := idf(|documents|, |postings|);
    var pending := postings.Keys;
    GatherStart(words, documents, relevance, done, w, pred, idf);
    while pending != {}
      invariant Gathering(words, documents, relevance, done, w, pred, idf, pending, next)
      decreases |pending|
    {
      MinExists(pending);
      var id :| IsLeast(id, pending);
      var data := documents[id];
      ghost var before := next;
      if pred(id, data.status, data.rating) {
        next := next[id := FreqOr0(next, id) + postings[id] * inverseDocumentFreq];
      }
      GatherStep(words, documents, relevance, done, w, pred, idf, postings, inverseDocumentFreq,
                 pending, before, id, next);
      pending := pending - {id};
    }
    GatherDone(words, documents, relevance, done, w, pred, idf, next);
  }

  /** The listing loop has moved the ids of `found` out of `pending`. */
  ghost predicate Listed(relevance: map<int, real>, found: seq<Document>, pending: set<int>)
  {
    && pending <= relevance.Keys
    && Ids(found) + pending == relevance.Keys
    && |found| + |pending| == |relevance.Keys|
  }

  /** `found` lists documents of the relevance map by ascending id, all below the pending ids. */
  ghost predicate Listing(documents: map<int, DocumentData>, relevance: map<int, real>,
                    found: seq<Document>, pending: set<int>)
  {
    && relevance.Keys <= documents.Keys
    && AscendingIds(found)
    && (forall i, x :: 0 <= i < |found| && x in pending ==> found[i].id < x)
    && (forall i :: 0 <= i < |found| ==>
          found[i].id in relevance && found[i].id in documents &&
          found[i] == Document(found[i].id, relevance[found[i].id], documents[found[i].id].rating))
  }

  /** Moving a pending id to the list keeps the accounting of ids. */
  lemma ListedStep(relevance: map<int, real>, found: seq<Document>, pending: set<int>, d: Document)
    requires Listed(relevance, found, pending)
    requires d.id in pending
    ensures Listed(relevance, found + [d], pending - {d.id})
  {
    IdsSnoc(found, d);
    assert |pending - {d.id}| == |pending| - 1;
  }

  /** Moving the least pending id to the end of the list keeps the order and the contents. */
  lemma ListStep(documents: map<int, DocumentData>, relevance: map<int, real>,
                 found: seq<Document>, pending: set<int>, id: int)
    requires Listing(documents, relevance, found, pending)
    requires pending <= relevance.Keys
    requires IsLeast(id, pending)
    ensures Listing(documents, relevance, found + [Document(id, relevance[id], documents[id].rating)],
                    pending - {id})
  {
    var d := Document(id, relevance[id], documents[id].rating);
    var found' := found + [d];
    forall i, x | 0 <= i < |found'| && x in pending - {id} ensures found'[i].id < x {
      if i < |found| {
        assert found'[i] == found[i];
      }
    }
    forall i, j | 0 <= i < j < |found'| ensures found'[i].id < found'[j].id {
      assert found'[i] == found[i];
      if j < |found| {
        assert found'[j] == found[j];
      }
    }
    forall i | 0 <= i < |found'|
      ensures found'[i].id in relevance && found'[i].id in documents &&
              found'[i] == Document(found'[i].id, relevance[found'[i].id], documents[found'[i].id].rating)
    {
      if i < |found| {
        assert found'[i] == found[i];
      }
    }
  }

  /** Appending a document adds its id. */
  lemma IdsSnoc(docs: seq<Document>, d: Document)
    ensures Ids(docs + [d]) == Ids(docs) + {d.id}
  {
    forall x | x in Ids(docs + [d]) ensures x in Ids(docs) + {d.id} {
      var e :| e in docs + [d] && e.id == x;
      if e != d {
        assert e in docs;
      }
    }
    forall x | x in Ids(docs) ensures x in Ids(docs + [d]) {
      var e :| e in docs && e.id == x;
      assert e in docs + [d];
    }
    assert d in docs + [d];
  }

  /** The last loop of FindAllDocuments: the relevance map's entries by ascending id. */
  method ListByAscendingId(documents: map<int, DocumentData>, relevance: map<int, real>)
    returns (found: seq<Document>)
    requires relevance.Keys <= documents.Keys
    ensures AscendingIds(found)
    ensures |found| == |relevance|
    ensures Ids(found) == relevance.Keys
    ensures forall i :: 0 <= i < |found| ==>
              found[i].id in relevance && found[i].id in documents &&
              found[i] == Document(found[i].id, relevance[found[i].id], documents[found[i].id].rating)
  {
    found := [];
    var pending := relevance.Keys;
    assert Ids(found) == {};
    while pending != {}
      invariant Listed(relevance, found, pending)
      invariant Listing(documents, relevance, found, pending)
      decreases |pending|
    {
      MinExists(pending);
      var id :| IsLeast(id, pending);
      ListedStep(relevance, found, pending, Document(id, relevance[id], documents[id].rating));
      ListStep(documents, relevance, found, pending, id);
      found := found + [Document(id, relevance[id], documents[id].rating)];
      pending := pending - {id};
    }
  }

  /** The relevance map after the minus words `done` have erased their documents. */
  ghost predicate Pruned(words: WordIndex, documents: map<int, DocumentData>, query: Query,
                         pred: DocumentPredicate, idf: Idf, done: seq<string>, relevance: map<int, real>)
  {
    && relevance.Keys == Seeded(words, documents, pred, query.plusWords) - Excluded(words, done)
    && (forall id :: id in relevance ==> Passes(documents, pred, id))
    && (forall id :: id in relevance ==> relevance[id] == Relevance(words, |documents|, query.plusWords, id, idf))
  }

  /** Erasing the documents of one more minus word keeps the pruning state. */
  lemma PruneStep(words: WordIndex, documents: map<int, DocumentData>, query: Query,
                  pred: DocumentPredicate, idf: Idf, minus: seq<string>, i: nat, relevance: map<int, real>)
    requires i < |minus|
    requires Pruned(words, documents, query, pred, idf, minus[..i], relevance)
    ensures Pruned(words, documents, query, pred, idf, minus[..i + 1],
                   if minus[i] in words then relevance - words[minus[i]].Keys else relevance)
  {
    assert minus[..i + 1][..i] == minus[..i];
  }

  /** The pruned relevance map holds exactly the matched documents. */
  lemma PrunedIds(words: WordIndex, documents: map<int, DocumentData>, query: Query,
                  pred: DocumentPredicate, idf: Idf, relevance: map<int, real>)
    requires Pruned(words, documents, query, pred, idf, query.minusWords, relevance)
    ensures relevance.Keys == MatchedIds(words, documents, query, pred)
    ensures relevance.Keys <= documents.Keys
    ensures forall id :: id in relevance ==>
              id in documents &&
              Document(id, relevance[id], documents[id].rating) == Found(words, documents, query.plusWords, id, idf)
  {
    forall id | id in relevance ensures id in documents {
      assert Passes(documents, pred, id);
    }
  }

  /**
   * FindAllDocuments: every posting of a plus word whose document passes
   * the predicate adds tf * idf to that document's relevance; every
   * document holding a minus word is then erased; the rest is listed by
   * ascending id.
   */
  method FindAllDocuments(words: WordIndex, documents: map<int, DocumentData>, query: Query,
                          pred: DocumentPredicate, idf: Idf)
    returns (found: seq<Document>)
    requires Indexed(words, documents)
    ensures AscendingIds(found)
    ensures |found| == |MatchedIds(words, documents, query, pred)|
    ensures Ids(found) == MatchedIds(words, documents, query, pred)
    ensures forall i :: 0 <= i < |found| ==> IsMatch(words, documents, query, pred, idf, found[i])
  {
    var plus, minus := query.plusWords, query.minusWords;
    var relevance: map<int, real> := map[];
    for i := 0 to |plus|
      invariant Scored(words, documents, pred, idf, plus[..i], relevance)
    {
      assert plus[..i + 1] == plus[..i] + [plus[i]];
      relevance := AddWordRelevance(words, documents, relevance, plus[..i], plus[i], pred, idf);
    }
    assert plus[..|plus|] == plus;
    for i := 0 to |minus|
      invariant Pruned(words, documents, query, pred, idf, minus[..i], relevance)
    {
      PruneStep(words, documents, query, pred, idf, minus, i, relevance);
      var w := minus[i];
      if w in words {
        relevance := relevance - words[w].Keys;
      }
    }
    assert minus[..|minus|] == minus;
    PrunedIds(words, documents, query, pred, idf, relevance);
    found := ListByAscendingId(documents, relevance);
  }
}
