/**
 * The state a search server keeps consistent across its operations, stated
 * over plain values: the stop words, the inverted index in both directions,
 * the documents and their ids, and (as a proof aid) the non-stop words each
 * document was indexed under.  AddDocument's indexing loop lives here too.
 */
module ServerState {
  import opened Documents
  import opened Queries
  import opened InvertedIndex

  /** The words of a document that are not stop words, in text order, repeats included. */
  function NonStop(tokens: seq<string>, stopWords: set<string>): seq<string>
  {
    if tokens == [] then []
    else
      var w := tokens[|tokens| - 1];
      NonStop(tokens[..|tokens| - 1], stopWords) + (if w in stopWords then [] else [w])
  }

  /** Exactly the tokens that are not stop words are kept. */
  lemma {:induction false} NonStopMembers(tokens: seq<string>, stopWords: set<string>, w: string)
    ensures w in NonStop(tokens, stopWords) <==> w in tokens && w !in stopWords
  {
    if tokens != [] {
      var init := tokens[..|tokens| - 1];
      NonStopMembers(init, stopWords, w);
      assert tokens == init + [tokens[|tokens| - 1]];
    }
  }

  /** Every token is a valid word. */
  predicate AllValid(tokens: seq<string>)
  {
    forall i :: 0 <= i < |tokens| ==> IsValidWord(tokens[i])
  }

  /** Stop words as the constructor leaves them: non-empty and valid. */
  predicate ValidStopWords(stopWords: set<string>)
  {
    forall w :: w in stopWords ==> w != [] && IsValidWord(w)
  }

  /**
   * What the server keeps true between calls: the id set is the key set of
   * the documents; ids are non-negative; a document is in the transpose map
   * iff it has non-stop words, with their term frequencies; indexed words
   * are valid non-stop words; and the two index maps are transposes.
   */
  ghost predicate Consistent(stopWords: set<string>, wordIndex: WordIndex, docIndex: DocIndex,
                             documents: map<int, DocumentData>, documentIds: set<int>,
                             indexedWords: map<int, seq<string>>)
  {
    && ValidStopWords(stopWords)
    && documentIds == documents.Keys
    && indexedWords.Keys == documents.Keys
    && (forall id :: id in documents ==> id >= 0)
    && (forall id :: id in docIndex ==>
          id in indexedWords && indexedWords[id] != [] && docIndex[id] == TermFreqs(indexedWords[id]))
    && (forall id :: id in indexedWords && indexedWords[id] != [] ==> id in docIndex)
    && (forall id, w :: id in indexedWords && w in indexedWords[id] ==> w !in stopWords && IsValidWord(w))
    && (forall w :: w in wordIndex ==> w !in stopWords)
    && Transposed(wordIndex, docIndex)
  }

  /** Adding a document with a fresh id and valid non-stop words keeps the server consistent. */
  lemma AddKeepsConsistent(stopWords: set<string>, wordIndex: WordIndex, docIndex: DocIndex,
                           documents: map<int, DocumentData>, documentIds: set<int>,
                           indexedWords: map<int, seq<string>>,
                           id: int, words: seq<string>, data: DocumentData)
    requires Consistent(stopWords, wordIndex, docIndex, documents, documentIds, indexedWords)
    requires id >= 0 && id !in documents
    requires forall w :: w in words ==> w !in stopWords && IsValidWord(w)
    ensures Consistent(stopWords, AddPostings(wordIndex, id, TermFreqs(words)),
                       if words == [] then docIndex else docIndex[id := TermFreqs(words)],
                       documents[id := data], documentIds + {id}, indexedWords[id := words])
  {
    var tf := TermFreqs(words);
    if words == [] {
      assert tf == map[];
      AddNothing(wordIndex, id);
    } else {
      AddKeepsTransposed(wordIndex, docIndex, id, tf);
    }
  }

  /** A document the server does not have is in neither index map. */
  lemma FreshIdUnindexed(stopWords: set<string>, wordIndex: WordIndex, docIndex: DocIndex,
                         documents: map<int, DocumentData>, documentIds: set<int>,
                         indexedWords: map<int, seq<string>>, id: int)
    requires Consistent(stopWords, wordIndex, docIndex, documents, documentIds, indexedWords)
    requires id !in documents
    ensures id !in docIndex
    ensures forall w :: w in wordIndex ==> id !in wordIndex[w]
  {
  }

  /** The state of AddDocument's loop after the first i words. */
  ghost predicate Indexing(words0: WordIndex, docs0: DocIndex, id: int, words: seq<string>, i: nat, inv: real,
                           tf: map<string, real>, wordIndex: WordIndex, docIndex: DocIndex)
  {
    && i <= |words|
    && tf == Accumulated(words[..i], inv)
    && wordIndex == AddPostings(words0, id, tf)
    && docIndex == (if i == 0 then docs0 else docs0[id := tf])
    && (i == 0 ==> tf == map[])
  }

  /** One word occurrence of AddDocument's loop, on both index maps. */
  lemma IndexStep(words0: WordIndex, docs0: DocIndex, id: int, words: seq<string>, i: nat, inv: real,
                  tf: map<string, real>, wordIndex: WordIndex, docIndex: DocIndex,
                  postings: map<int, real>, row: map<string, real>,
                  tf': map<string, real>, wordIndex': WordIndex, docIndex': DocIndex)
    requires forall x :: x in words0 ==> id !in words0[x]
    requires id !in docs0
    requires i < |words|
    requires Indexing(words0, docs0, id, words, i, inv, tf, wordIndex, docIndex)
    requires postings == PostingsOf(wordIndex, words[i])
    requires row == if id in docIndex then docIndex[id] else map[]
    requires tf' == tf[words[i] := FreqOr0(tf, words[i]) + inv]
    requires wordIndex' == wordIndex[words[i] := postings[id := FreqOr0(postings, id) + inv]]
    requires docIndex' == docIndex[id := row[words[i] := FreqOr0(row, words[i]) + inv]]
    ensures Indexing(words0, docs0, id, words, i + 1, inv, tf', wordIndex', docIndex')
  {
    RowStep(docs0, id, i, tf, docIndex, row, words[i], inv, tf', docIndex');
    FreqStep(words, i, inv, tf, tf');
    AddOccurrence(words0, id, tf, words[i], inv, wordIndex, postings, tf', wordIndex');
  }

  /** The frequencies follow the words seen so far. */
  lemma FreqStep(words: seq<string>, i: nat, inv: real, tf: map<string, real>, tf': map<string, real>)
    requires i < |words|
    requires tf == Accumulated(words[..i], inv)
    requires tf' == tf[words[i] := FreqOr0(tf, words[i]) + inv]
    ensures tf' == Accumulated(words[..i + 1], inv)
  {
    AccumulatedNext(words, i, inv);
  }

  /** The document's row of the transpose map follows the accumulated frequencies. */
  lemma RowStep(docs0: DocIndex, id: int, i: nat, tf: map<string, real>, docIndex: DocIndex,
                row: map<string, real>, w: string, inv: real, tf': map<string, real>, docIndex': DocIndex)
    requires id !in docs0
    requires docIndex == (if i == 0 then docs0 else docs0[id := tf])
    requires i == 0 ==> tf == map[]
    requires row == if id in docIndex then docIndex[id] else map[]
    requires tf' == tf[w := FreqOr0(tf, w) + inv]
    requires docIndex' == docIndex[id := row[w := FreqOr0(row, w) + inv]]
    ensures docIndex' == docs0[id := tf']
  {
    assert row == tf;
  }

  /**
   * The loop of AddDocument: each word occurrence adds 1/n to the
   * document's entry in its word's posting list and to the word's entry in
   * the document's row of the transpose map.
   */
  method IndexDocument(wordIndex: WordIndex, docIndex: DocIndex, id: int, words: seq<string>)
    returns (newWordIndex: WordIndex, newDocIndex: DocIndex)
    requires forall w :: w in wordIndex ==> id !in wordIndex[w]
    requires id !in docIndex
    ensures newWordIndex == AddPostings(wordIndex, id, TermFreqs(words))
    ensures newDocIndex == if words == [] then docIndex else docIndex[id := TermFreqs(words)]
  {
    var inv := if |words| == 0 then 0.0 else 1.0 / |words| as real;
    ghost var tf: map<string, real> := map[];
    AddNothing(wordIndex, id);
    newWordIndex, newDocIndex := wordIndex, docIndex;
    for i := 0 to |words|
      invariant Indexing(wordIndex, docIndex, id, words, i, inv, tf, newWordIndex, newDocIndex)
    {
      var w := words[i];
      var postings := PostingsOf(newWordIndex, w);
      var row := if id in newDocIndex then newDocIndex[id] else map[];
      var nextWordIndex := newWordIndex[w := postings[id := FreqOr0(postings, id) + inv]];
      var nextDocIndex := newDocIndex[id := row[w := FreqOr0(row, w) + inv]];
      ghost var nextTf := tf[w := FreqOr0(tf, w) + inv];
      IndexStep(wordIndex, docIndex, id, words, i, inv, tf, newWordIndex, newDocIndex,
                postings, row, nextTf, nextWordIndex, nextDocIndex);
      newWordIndex, newDocIndex, tf := nextWordIndex, nextDocIndex, nextTf;
    }
    assert words[..|words|] == words;
    if words == [] {
      assert TermFreqs(words) == map[];
    } else {
      AccumulatedIsTermFreqs(words);
    }
  }

  /** The words whose posting lists RemoveDocument visits. */
  function ErasedWords(docIndex: DocIndex, id: int): set<string>
  {
    if id in docIndex then docIndex[id].Keys else {}
  }

  /** Removing a document the server does not have changes nothing. */
  lemma RemoveAbsent(stopWords: set<string>, wordIndex: WordIndex, docIndex: DocIndex,
                     documents: map<int, DocumentData>, documentIds: set<int>,
                     indexedWords: map<int, seq<string>>, id: int)
    requires Consistent(stopWords, wordIndex, docIndex, documents, documentIds, indexedWords)
    requires id !in documents
    ensures ErasedWords(docIndex, id) == {}
    ensures ErasePostings(wordIndex, id, {}) == wordIndex
    ensures documents - {id} == documents && documentIds - {id} == documentIds
    ensures indexedWords - {id} == indexedWords && docIndex - {id} == docIndex
  {
    EraseNothing(wordIndex, id);
  }

  /** Removing a document keeps the server consistent. */
  lemma RemoveKeepsConsistent(stopWords: set<string>, wordIndex: WordIndex, docIndex: DocIndex,
                              documents: map<int, DocumentData>, documentIds: set<int>,
                              indexedWords: map<int, seq<string>>, id: int)
    requires Consistent(stopWords, wordIndex, docIndex, documents, documentIds, indexedWords)
    ensures Consistent(stopWords, ErasePostings(wordIndex, id, ErasedWords(docIndex, id)), docIndex - {id},
                       documents - {id}, documentIds - {id}, indexedWords - {id})
  {
    EraseKeepsTransposed(wordIndex, docIndex, id);
  }

  /** The non-stop words of a text of valid words are valid non-stop words. */
  lemma NonStopValid(tokens: seq<string>, stopWords: set<string>)
    requires AllValid(tokens)
    ensures forall w :: w in NonStop(tokens, stopWords) ==> w !in stopWords && IsValidWord(w)
  {
    forall w | w in NonStop(tokens, stopWords) ensures w !in stopWords && IsValidWord(w) {
      NonStopMembers(tokens, stopWords, w);
      var k :| 0 <= k < |tokens| && tokens[k] == w;
    }
  }

}
