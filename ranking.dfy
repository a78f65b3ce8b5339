/**
 * What a search returns: the documents a query's plus words seed, minus the
 * documents its minus words exclude, each with the relevance summed over the
 * plus words, and the best five of them in ranking order.  These functions
 * describe the index as it stands; the server's methods are proved against
 * them.
 */
module Ranking {
  import opened Documents
  import opened InvertedIndex
  import opened Queries
  import opened IdSets
  import opened Lexicographic

  /** The caller's filter on (document id, status, rating). */
  type DocumentPredicate = (int, DocumentStatus, int) -> bool

  /**
   * The inverse document frequency of a word, as a function of the number
   * of documents and the size of the word's posting list.  The server uses
   * the natural logarithm of their quotient, which this model leaves open.
   */
  type Idf = (nat, nat) -> real

  /** Document `id` is in the posting list of `w`. */
  predicate Occurs(words: WordIndex, w: string, id: int)
  {
    w in words && id in words[w]
  }

  /** Document `id` exists and the caller's predicate accepts it. */
  predicate Passes(documents: map<int, DocumentData>, pred: DocumentPredicate, id: int)
  {
    id in documents && pred(id, documents[id].status, documents[id].rating)
  }

  /** The ids the plus words put into the relevance map. */
  function Seeded(words: WordIndex, documents: map<int, DocumentData>, pred: DocumentPredicate,
                  plus: seq<string>): set<int>
  {
    if plus == [] then {}
    else
      var w := plus[|plus| - 1];
      Seeded(words, documents, pred, plus[..|plus| - 1]) +
        (if w in words then set id | id in words[w] && Passes(documents, pred, id) else {})
  }

  /** A document is seeded iff it passes the predicate and holds one of the plus words. */
  lemma {:induction false} SeededMembers(words: WordIndex, documents: map<int, DocumentData>,
                                         pred: DocumentPredicate, plus: seq<string>, id: int)
    ensures id in Seeded(words, documents, pred, plus) <==>
              Passes(documents, pred, id) && exists w :: w in plus && Occurs(words, w, id)
  {
    if plus != [] {
      var init := plus[..|plus| - 1];
      var w := plus[|plus| - 1];
      SeededMembers(words, documents, pred, init, id);
      assert plus == init + [w];
      if Passes(documents, pred, id) && Occurs(words, w, id) {
        assert w in plus;
      }
      if exists v :: v in plus && Occurs(words, v, id) {
        var v :| v in plus && Occurs(words, v, id);
        if v != w {
          assert v in init;
        }
      }
    }
  }

  /** The ids the minus words erase from the relevance map. */
  function Excluded(words: WordIndex, minus: seq<string>): set<int>
  {
    if minus == [] then {}
    else
      var w := minus[|minus| - 1];
      Excluded(words, minus[..|minus| - 1]) + (if w in words then words[w].Keys else {})
  }

  /** A document is excluded iff it holds one of the minus words. */
  lemma {:induction false} ExcludedMembers(words: WordIndex, minus: seq<string>, id: int)
    ensures id in Excluded(words, minus) <==> exists w :: w in minus && Occurs(words, w, id)
  {
    if minus != [] {
      var init := minus[..|minus| - 1];
      var w := minus[|minus| - 1];
      ExcludedMembers(words, init, id);
      assert minus == init + [w];
      if Occurs(words, w, id) {
        assert w in minus;
      }
      if exists v :: v in minus && Occurs(words, v, id) {
        var v :| v in minus && Occurs(words, v, id);
        if v != w {
          assert v in init;
        }
      }
    }
  }

  /** What one plus word adds to a document's relevance: term frequency times IDF. */
  function Contribution(words: WordIndex, documentCount: nat, w: string, id: int, idf: Idf): real
  {
    if Occurs(words, w, id) then words[w][id] * idf(documentCount, |words[w]|) else 0.0
  }

  /** The relevance of a document: the contributions of the plus words, summed in query order. */
  function Relevance(words: WordIndex, documentCount: nat, plus: seq<string>, id: int, idf: Idf): real
  {
    if plus == [] then 0.0
    else
      Relevance(words, documentCount, plus[..|plus| - 1], id, idf) +
        Contribution(words, documentCount, plus[|plus| - 1], id, idf)
  }

  /** A document that passes the predicate but was not seeded has gathered nothing. */
  lemma {:induction false} UnseededRelevance(words: WordIndex, documents: map<int, DocumentData>,
                                             pred: DocumentPredicate, plus: seq<string>, id: int, idf: Idf)
    requires Passes(documents, pred, id)
    requires id !in Seeded(words, documents, pred, plus)
    ensures Relevance(words, |documents|, plus, id, idf) == 0.0
  {
    if plus != [] {
      UnseededRelevance(words, documents, pred, plus[..|plus| - 1], id, idf);
    }
  }

  /** The documents FindAllDocuments reports for a query. */
  function MatchedIds(words: WordIndex, documents: map<int, DocumentData>, query: Query,
                      pred: DocumentPredicate): set<int>
  {
    Seeded(words, documents, pred, query.plusWords) - Excluded(words, query.minusWords)
  }

  /**
   * A document is reported iff it passes the predicate, holds a plus word
   * and holds no minus word; the predicate has no say over minus words.
   */
  lemma MatchedIff(words: WordIndex, documents: map<int, DocumentData>, query: Query,
                   pred: DocumentPredicate, id: int)
    ensures id in MatchedIds(words, documents, query, pred) <==>
              && Passes(documents, pred, id)
              && (exists w :: w in query.plusWords && Occurs(words, w, id))
              && !(exists w :: w in query.minusWords && Occurs(words, w, id))
  {
    SeededMembers(words, documents, pred, query.plusWords, id);
    ExcludedMembers(words, query.minusWords, id);
  }

  /** The entry reported for a matched document: id, relevance and rating. */
  function Found(words: WordIndex, documents: map<int, DocumentData>, plus: seq<string>,
                 id: int, idf: Idf): Document
    requires id in documents
  {
    Document(id, Relevance(words, |documents|, plus, id, idf), documents[id].rating)
  }

  /** `d` is one of the documents a query finds, with its relevance and rating. */
  predicate IsMatch(words: WordIndex, documents: map<int, DocumentData>, query: Query,
                    pred: DocumentPredicate, idf: Idf, d: Document)
  {
    && d.id in MatchedIds(words, documents, query, pred)
    && d.id in documents
    && d == Found(words, documents, query.plusWords, d.id, idf)
  }

  /** The ids of a result list. */
  function Ids(docs: seq<Document>): set<int>
  {
    set d | d in docs :: d.id
  }

  /** The ids of a result list in strictly ascending order. */
  predicate AscendingIds(docs: seq<Document>)
  {
    forall i, j :: 0 <= i < j < |docs| ==> docs[i].id < docs[j].id
  }

  function Min(a: nat, b: nat): nat
  {
    if a <= b then a else b
  }

  /**
   * `r` is a top result: at most five matches with distinct ids, in ranking
   * order, and every match left out ranks no higher than any match kept.
   */
  ghost predicate IsTop(r: seq<Document>, words: WordIndex, documents: map<int, DocumentData>,
                        query: Query, pred: DocumentPredicate, idf: Idf)
  {
    && |r| == Min(MaxResultDocumentCount, |MatchedIds(words, documents, query, pred)|)
    && Ordered(r)
    && (forall i :: 0 <= i < |r| ==> IsMatch(words, documents, query, pred, idf, r[i]))
    && (forall i, j :: 0 <= i < j < |r| ==> r[i].id != r[j].id)
    && (forall d :: IsMatch(words, documents, query, pred, idf, d) && d !in r ==>
          forall i :: 0 <= i < |r| ==> RanksAtLeast(r[i], d))
  }

  /** Some word of `ws` occurs in document `id`. */
  ghost predicate AnyOccurs(words: WordIndex, ws: seq<string>, id: int)
  {
    exists w :: w in ws && Occurs(words, w, id)
  }

  /** The words of `plus` that occur in document `id`, in order (what std::copy_if keeps). */
  function Present(words: WordIndex, plus: seq<string>, id: int): seq<string>
  {
    if plus == [] then []
    else
      var w := plus[|plus| - 1];
      Present(words, plus[..|plus| - 1], id) + (if Occurs(words, w, id) then [w] else [])
  }

  /** The present words are exactly the plus words that occur in the document. */
  lemma {:induction false} PresentMembers(words: WordIndex, plus: seq<string>, id: int, w: string)
    ensures w in Present(words, plus, id) <==> w in plus && Occurs(words, w, id)
  {
    if plus != [] {
      var init := plus[..|plus| - 1];
      PresentMembers(words, init, id, w);
      assert plus == init + [plus[|plus| - 1]];
    }
  }

  /** Filtering keeps a strictly ascending list strictly ascending. */
  lemma {:induction false} PresentAscending(words: WordIndex, plus: seq<string>, id: int)
    requires StrictlyAscending(plus)
    ensures StrictlyAscending(Present(words, plus, id))
  {
    if plus != [] {
      var n := |plus| - 1;
      var init := plus[..n];
      var last := plus[n];
      assert StrictlyAscending(init);
      PresentAscending(words, init, id);
      var before := Present(words, init, id);
      forall x | x in before ensures Less(x, last) {
        PresentMembers(words, init, id, x);
        var k :| 0 <= k < n && init[k] == x;
      }
    }
  }

  /** A list with strictly ascending ids holds each document at most once. */
  lemma {:induction false} AscendingIdsOnce(docs: seq<Document>, d: Document)
    requires AscendingIds(docs)
    ensures multiset(docs)[d] <= 1
  {
    if docs != [] {
      var n := |docs| - 1;
      var init := docs[..n];
      AscendingIdsOnce(init, d);
      assert docs == init + [docs[n]];
      if d == docs[n] {
        assert d !in init by {
          forall k | 0 <= k < n ensures init[k] != d {
            assert init[k].id < docs[n].id;
          }
        }
      }
    }
  }

  /** A document at two positions is counted twice. */
  lemma TwiceCounted(docs: seq<Document>, i: int, j: int)
    requires 0 <= i < j < |docs| && docs[i] == docs[j]
    ensures multiset(docs)[docs[i]] >= 2
  {
    var d := docs[i];
    assert docs == docs[..i] + [d] + docs[i + 1..j] + [d] + docs[j + 1..];
  }

  /** A match is determined by its id. */
  lemma MatchById(words: WordIndex, documents: map<int, DocumentData>, query: Query,
                  pred: DocumentPredicate, idf: Idf, a: Document, b: Document)
    requires IsMatch(words, documents, query, pred, idf, a)
    requires IsMatch(words, documents, query, pred, idf, b)
    requires a.id == b.id
    ensures a == b
  {
  }

  /**
   * Sorting all matches by rank and keeping the first five gives a top
   * result.
   */
  lemma TopOfSorted(words: WordIndex, documents: map<int, DocumentData>, query: Query,
                    pred: DocumentPredicate, idf: Idf,
                    matched: seq<Document>, sorted: seq<Document>, top: seq<Document>)
    requires AscendingIds(matched)
    requires |matched| == |MatchedIds(words, documents, query, pred)|
    requires Ids(matched) == MatchedIds(words, documents, query, pred)
    requires forall i :: 0 <= i < |matched| ==> IsMatch(words, documents, query, pred, idf, matched[i])
    requires Ordered(sorted) && multiset(sorted) == multiset(matched)
    requires top == sorted[..Min(MaxResultDocumentCount, |sorted|)]
    ensures IsTop(top, words, documents, query, pred, idf)
  {
    assert |sorted| == |multiset(sorted)| == |matched|;
    TopAreMatches(words, documents, query, pred, idf, matched, sorted, top);
    TopDistinct(words, documents, query, pred, idf, matched, sorted, top);
    TopOutranks(words, documents, query, pred, idf, matched, sorted, top);
  }

  /** The kept documents are matches. */
  lemma TopAreMatches(words: WordIndex, documents: map<int, DocumentData>, query: Query,
                    pred: DocumentPredicate, idf: Idf,
                    matched: seq<Document>, sorted: seq<Document>, top: seq<Document>)
    requires AscendingIds(matched)
    requires |matched| == |MatchedIds(words, documents, query, pred)|
    requires Ids(matched) == MatchedIds(words, documents, query, pred)
    requires forall i :: 0 <= i < |matched| ==> IsMatch(words, documents, query, pred, idf, matched[i])
    requires Ordered(sorted) && multiset(sorted) == multiset(matched)
    requires top == sorted[..Min(MaxResultDocumentCount, |sorted|)]
    ensures forall i :: 0 <= i < |top| ==> IsMatch(words, documents, query, pred, idf, top[i])
  {
    forall i | 0 <= i < |top| ensures IsMatch(words, documents, query, pred, idf, top[i]) {
      assert top[i] in multiset(matched);
    }
  }

  /** The kept documents have distinct ids. */
  lemma TopDistinct(words: WordIndex, documents: map<int, DocumentData>, query: Query,
                    pred: DocumentPredicate, idf: Idf,
                    matched: seq<Document>, sorted: seq<Document>, top: seq<Document>)
    requires AscendingIds(matched)
    requires |matched| == |MatchedIds(words, documents, query, pred)|
    requires Ids(matched) == MatchedIds(words, documents, query, pred)
    requires forall i :: 0 <= i < |matched| ==> IsMatch(words, documents, query, pred, idf, matched[i])
    requires Ordered(sorted) && multiset(sorted) == multiset(matched)
    requires top == sorted[..Min(MaxResultDocumentCount, |sorted|)]
    ensures forall i, j :: 0 <= i < j < |top| ==> top[i].id != top[j].id
  {
    forall i, j | 0 <= i < j < |top| ensures top[i].id != top[j].id {
      if top[i].id == top[j].id {
        assert top[i] in multiset(matched) && top[j] in multiset(matched);
        MatchById(words, documents, query, pred, idf, top[i], top[j]);
        TwiceCounted(sorted, i, j);
        AscendingIdsOnce(matched, top[i]);
      }
    }
  }

  /** Every match left out ranks no higher than any kept document. */
  lemma TopOutranks(words: WordIndex, documents: map<int, DocumentData>, query: Query,
                    pred: DocumentPredicate, idf: Idf,
                    matched: seq<Document>, sorted: seq<Document>, top: seq<Document>)
    requires AscendingIds(matched)
    requires |matched| == |MatchedIds(words, documents, query, pred)|
    requires Ids(matched) == MatchedIds(words, documents, query, pred)
    requires forall i :: 0 <= i < |matched| ==> IsMatch(words, documents, query, pred, idf, matched[i])
    requires Ordered(sorted) && multiset(sorted) == multiset(matched)
    requires top == sorted[..Min(MaxResultDocumentCount, |sorted|)]
    ensures forall d :: IsMatch(words, documents, query, pred, idf, d) && d !in top ==>
              forall i :: 0 <= i < |top| ==> RanksAtLeast(top[i], d)
  {
    forall d | IsMatch(words, documents, query, pred, idf, d) && d !in top
      ensures forall i :: 0 <= i < |top| ==> RanksAtLeast(top[i], d)
    {
      LeftOut(words, documents, query, pred, idf, matched, sorted, top, d);
    }
  }

  /** One match left out ranks no higher than any kept document. */
  lemma LeftOut(words: WordIndex, documents: map<int, DocumentData>, query: Query,
                    pred: DocumentPredicate, idf: Idf,
                    matched: seq<Document>, sorted: seq<Document>, top: seq<Document>, d: Document)
    requires AscendingIds(matched)
    requires |matched| == |MatchedIds(words, documents, query, pred)|
    requires Ids(matched) == MatchedIds(words, documents, query, pred)
    requires forall i :: 0 <= i < |matched| ==> IsMatch(words, documents, query, pred, idf, matched[i])
    requires Ordered(sorted) && multiset(sorted) == multiset(matched)
    requires top == sorted[..Min(MaxResultDocumentCount, |sorted|)]
    requires IsMatch(words, documents, query, pred, idf, d) && d !in top
    ensures forall i :: 0 <= i < |top| ==> RanksAtLeast(top[i], d)
  {
    assert |sorted| == |multiset(sorted)| == |matched|;
    assert d.id in Ids(matched);
    var e :| e in matched && e.id == d.id;
    MatchById(words, documents, query, pred, idf, d, e);
    assert d in multiset(sorted);
    var j :| 0 <= j < |sorted| && sorted[j] == d;
    assert j >= |top|;
    forall i | 0 <= i < |top| ensures RanksAtLeast(top[i], d) {
      OrderedAll(sorted, i, j);
    }
  }
}
