/**
 * The search server: its stop words, the inverted index kept in both
 * directions, each document's rating and status, and the set of ids.
 * Documents are added and removed in place; searches and matches read the
 * index.
 */
module Server {
  import opened Wrappers
  import opened Documents
  import opened StringProcessing
  import opened Lexicographic
  import opened Queries
  import opened InvertedIndex
  import opened Ranking
  import opened IdSets
  import opened ServerState
  import opened Retrieval

  /** The distinct words of a document, as RemoveDuplicates compares documents. */
  function WordSet(ws: seq<string>): set<string>
  {
    set w | w in ws
  }

  /** The predicate of the status overload: the document has the given status. */
  function StatusIs(status: DocumentStatus): DocumentPredicate
  {
    (id: int, documentStatus: DocumentStatus, rating: int) => documentStatus == status
  }

  class SearchServer {
    var stopWords: set<string>
    var wordToDocumentFreqs: WordIndex
    var documentToWordFreqs: DocIndex
    var documents: map<int, DocumentData>
    var documentIds: set<int>
    /** The non-stop words of each document, in text order. */
    ghost var indexedWords: map<int, seq<string>>

    ghost predicate Valid()
      reads this
    {
      Consistent(stopWords, wordToDocumentFreqs, documentToWordFreqs, documents, documentIds, indexedWords)
    }

    /** An empty server with the given stop words. */
    constructor (stopWords: set<string>)
      requires ValidStopWords(stopWords)
      ensures Valid()
      ensures this.stopWords == stopWords
      ensures documents == map[] && documentIds == {}
      ensures wordToDocumentFreqs == map[] && documentToWordFreqs == map[]
    {
      this.stopWords := stopWords;
      wordToDocumentFreqs := map[];
      documentToWordFreqs := map[];
      documents := map[];
      documentIds := {};
      indexedWords := map[];
    }

    /**
     * The stop-word constructor: empty strings and repeats are dropped, and
     * an invalid stop word is rejected.
     */
    static method Create(stopWordList: seq<string>) returns (r: Result<SearchServer, Error>)
      ensures r.Failure? <==> exists w :: w in UniqueNonEmpty(stopWordList) && !IsValidWord(w)
      ensures r.Failure? ==> r.error == InvalidStopWords
      ensures r.Success? ==> fresh(r.value) && r.value.Valid()
      ensures r.Success? ==> r.value.stopWords == UniqueNonEmpty(stopWordList) && r.value.documents == map[]
      ensures r.Success? ==> r.value.documentIds == {}
      ensures r.Success? ==> r.value.wordToDocumentFreqs == map[] && r.value.documentToWordFreqs == map[]
    {
      var unique := MakeUniqueNonEmptyStrings(stopWordList);
      var pending := unique;
      while pending != {}
        invariant pending <= unique
        invariant forall w :: w in unique - pending ==> IsValidWord(w)
        decreases |pending|
      {
        EmptyOrElement(pending);
        var w :| w in pending;
        if !IsValidWord(w) {
          return Failure(InvalidStopWords);
        }
        pending := pending - {w};
      }
      var server := new SearchServer(unique);
      return Success(server);
    }

    /** The constructor from a text of stop words separated by spaces. */
    static method CreateFromText(text: string) returns (r: Result<SearchServer, Error>)
      ensures r.Failure? <==> exists w :: w in UniqueNonEmpty(Words(text)) && !IsValidWord(w)
      ensures r.Failure? ==> r.error == InvalidStopWords
      ensures r.Success? ==> fresh(r.value) && r.value.Valid()
      ensures r.Success? ==> r.value.stopWords == UniqueNonEmpty(Words(text)) && r.value.documents == map[]
      ensures r.Success? ==> r.value.documentIds == {}
      ensures r.Success? ==> r.value.wordToDocumentFreqs == map[] && r.value.documentToWordFreqs == map[]
    {
      var tokens := SplitIntoWords(text);
      r := Create(tokens);
    }

    /** The number of documents. */
    function GetDocumentCount(): (n: nat)
      reads this
      requires Valid()
      ensures n == |documentIds|
    {
      |documents|
    }

    /**
     * SplitIntoWordsNoStop: the document's words without its stop words;
     * an invalid word, stop word or not, rejects the whole text.
     */
    method SplitIntoWordsNoStop(text: string) returns (r: Result<seq<string>, Error>)
      ensures r.Failure? <==> !AllValid(Words(text))
      ensures r.Failure? ==> r.error == InvalidWord
      ensures r.Success? ==> r.value == NonStop(Words(text), stopWords)
    {
      var tokens := SplitIntoWords(text);
      var words: seq<string> := [];
      for i := 0 to |tokens|
        invariant AllValid(tokens[..i])
        invariant words == NonStop(tokens[..i], stopWords)
      {
        assert tokens[..i + 1][..i] == tokens[..i];
        if !IsValidWord(tokens[i]) {
          return Failure(InvalidWord);
        }
        if tokens[i] !in stopWords {
          words := words + [tokens[i]];
        }
      }
      assert tokens[..|tokens|] == tokens;
      return Success(words);
    }

    /**
     * AddDocument: rejects a negative or already used id and an invalid
     * word before changing anything; otherwise every non-stop occurrence
     * adds 1/n to both maps, n being the number of non-stop words.
     */
    method AddDocument(id: int, text: string, status: DocumentStatus, ratings: seq<int>)
      returns (outcome: Outcome<Error>)
      requires Valid()
      modifies this
      ensures Valid()
      ensures outcome == if id < 0 || id in old(documents) then Fail(InvalidDocumentId)
                         else if !AllValid(Words(text)) then Fail(InvalidWord)
                         else Pass
      ensures outcome.Fail? ==> unchanged(this)
      ensures outcome.Pass? ==>
                var words := NonStop(Words(text), stopWords);
                && stopWords == old(stopWords)
                && documents == old(documents)[id := DocumentData(ComputeAverageRating(ratings), status)]
                && documentIds == old(documentIds) + {id}
                && indexedWords == old(indexedWords)[id := words]
                && wordToDocumentFreqs == AddPostings(old(wordToDocumentFreqs), id, TermFreqs(words))
                && documentToWordFreqs ==
                     if words == [] then old(documentToWordFreqs)
                     else old(documentToWordFreqs)[id := TermFreqs(words)]
    {
      if id < 0 || id in documents {
        return Fail(InvalidDocumentId);
      }
      var split := SplitIntoWordsNoStop(text);
      if split.Failure? {
        return Fail(split.error);
      }
      var words := split.value;
      var data := DocumentData(ComputeAverageRating(ratings), status);
      NonStopValid(Words(text), stopWords);
      AddKeepsConsistent(stopWords, wordToDocumentFreqs, documentToWordFreqs, documents, documentIds,
                         indexedWords, id, words, data);
      FreshIdUnindexed(stopWords, wordToDocumentFreqs, documentToWordFreqs, documents, documentIds,
                       indexedWords, id);
      wordToDocumentFreqs, documentToWordFreqs :=
        IndexDocument(wordToDocumentFreqs, documentToWordFreqs, id, words);
      documents := documents[id := data];
      documentIds := documentIds + {id};
      indexedWords := indexedWords[id := words];
      outcome := Pass;
    }

    /**
     * GetWordFrequencies: the term frequencies of a document, empty for an
     * unknown id and for a document without non-stop words.
     */
    function GetWordFrequencies(id: int): (freqs: map<string, real>)
      reads this
      requires Valid()
      ensures id in documents && indexedWords[id] != [] ==> freqs == TermFreqs(indexedWords[id])
      ensures id !in documents || indexedWords[id] == [] ==> freqs == map[]
    {
      if id in documents && id in documentToWordFreqs then documentToWordFreqs[id] else map[]
    }

    /**
     * GetWordFrequencies as written: `.at` on the transpose map fails for a
     * document whose words were all stop words.
     */
    function GetWordFrequenciesAsWritten(id: int): (r: Result<map<string, real>, Error>)
      reads this
      requires Valid()
      ensures r.Failure? <==> id in documents && indexedWords[id] == []
      ensures r.Failure? ==> r.error == OutOfRange
      ensures r.Success? ==> r.value == GetWordFrequencies(id)
    {
      if id in documents then
        if id in documentToWordFreqs then Success(documentToWordFreqs[id]) else Failure(OutOfRange)
      else Success(map[])
    }

    /**
     * RemoveDocument: nothing happens for an unknown id; otherwise the id
     * leaves the documents, the id set, the transpose map and every posting
     * list, and nothing about the other documents changes.  Posting lists
     * left empty keep their word.
     */
    method RemoveDocument(id: int)
      requires Valid()
      modifies this
      ensures Valid()
      ensures stopWords == old(stopWords)
      ensures documents == old(documents) - {id}
      ensures documentIds == old(documentIds) - {id}
      ensures indexedWords == old(indexedWords) - {id}
      ensures documentToWordFreqs == old(documentToWordFreqs) - {id}
      ensures wordToDocumentFreqs ==
                ErasePostings(old(wordToDocumentFreqs), id, ErasedWords(old(documentToWordFreqs), id))
      ensures wordToDocumentFreqs.Keys == old(wordToDocumentFreqs).Keys
      ensures forall w :: w in wordToDocumentFreqs ==> id !in wordToDocumentFreqs[w]
      ensures forall w, d :: w in old(wordToDocumentFreqs) && d in old(wordToDocumentFreqs)[w] && d != id ==>
                d in wordToDocumentFreqs[w] && wordToDocumentFreqs[w][d] == old(wordToDocumentFreqs)[w][d]
    {
      if id !in documents {
        RemoveAbsent(stopWords, wordToDocumentFreqs, documentToWordFreqs, documents, documentIds,
                     indexedWords, id);
        EraseKeepsTransposed(wordToDocumentFreqs, documentToWordFreqs, id);
        return;
      }
      var erased := ErasedWords(documentToWordFreqs, id);
      var postings := ErasePostingsOf(wordToDocumentFreqs, id, erased);
      EraseKeepsTransposed(wordToDocumentFreqs, documentToWordFreqs, id);
      RemoveKeepsConsistent(stopWords, wordToDocumentFreqs, documentToWordFreqs, documents, documentIds,
                            indexedWords, id);
      documents, documentIds := documents - {id}, documentIds - {id};
      wordToDocumentFreqs := postings;
      documentToWordFreqs, indexedWords := documentToWordFreqs - {id}, indexedWords - {id};
    }

    /**
     * RemoveDocument as written: for a document without non-stop words the
     * document and its id are already erased when `.at` on the transpose
     * map fails.
     */
    method RemoveDocumentAsWritten(id: int) returns (outcome: Outcome<Error>)
      requires Valid()
      modifies this
      ensures Valid()
      ensures outcome.Fail? <==> id in old(documents) && old(indexedWords)[id] == []
      ensures outcome.Fail? ==> outcome.error == OutOfRange
      ensures stopWords == old(stopWords)
      ensures documents == old(documents) - {id}
      ensures documentIds == old(documentIds) - {id}
      ensures indexedWords == old(indexedWords) - {id}
      ensures documentToWordFreqs == old(documentToWordFreqs) - {id}
      ensures outcome.Fail? ==> wordToDocumentFreqs == old(wordToDocumentFreqs)
      ensures outcome.Pass? ==>
                wordToDocumentFreqs ==
                  ErasePostings(old(wordToDocumentFreqs), id, ErasedWords(old(documentToWordFreqs), id))
    {
      if id in documents && id !in documentToWordFreqs {
        documents := documents - {id};
        documentIds := documentIds - {id};
        indexedWords := indexedWords - {id};
        return Fail(OutOfRange);
      }
      RemoveDocument(id);
      return Pass;
    }

    /**
     * FindTopDocuments with a predicate: the query is parsed on the
     * sequenced path (sorted, duplicates removed), all matches are found,
     * sorted by relevance then rating, and the first five are kept.
     */
    method FindTopDocuments(rawQuery: string, pred: DocumentPredicate, idf: Idf)
      returns (r: Result<seq<Document>, Error>)
      requires Valid()
      ensures r.Failure? <==> QueryError(Words(rawQuery), stopWords).Some?
      ensures r.Failure? ==> r.error == QueryError(Words(rawQuery), stopWords).value
      ensures r.Success? ==>
                IsTop(r.value, wordToDocumentFreqs, documents,
                      ParsedQuery(Words(rawQuery), stopWords, Sequenced), pred, idf)
    {
      var parsed := ParseQuery(rawQuery, stopWords, Sequenced);
      if parsed.Failure? {
        return Failure(parsed.error);
      }
      var query := parsed.value;
      ValidIsIndexed();
      var matched := FindAllDocuments(wordToDocumentFreqs, documents, query, pred, idf);
      var sorted := SortByRank(matched);
      var top := sorted;
      if |top| > MaxResultDocumentCount {
        top := top[..MaxResultDocumentCount];
      }
      assert |sorted| == |multiset(sorted)| == |matched|;
      assert top == sorted[..Min(MaxResultDocumentCount, |sorted|)];
      TopOfSorted(wordToDocumentFreqs, documents, query, pred, idf, matched, sorted, top);
      return Success(top);
    }

    /** FindTopDocuments with a status: the documents with exactly that status. */
    method FindTopDocumentsByStatus(rawQuery: string, status: DocumentStatus, idf: Idf)
      returns (r: Result<seq<Document>, Error>)
      requires Valid()
      ensures r.Failure? <==> QueryError(Words(rawQuery), stopWords).Some?
      ensures r.Success? ==>
                IsTop(r.value, wordToDocumentFreqs, documents,
                      ParsedQuery(Words(rawQuery), stopWords, Sequenced), StatusIs(status), idf)
      ensures r.Success? ==> forall i :: 0 <= i < |r.value| ==> documents[r.value[i].id].status == status
    {
      r := FindTopDocuments(rawQuery, StatusIs(status), idf);
      if r.Success? {
        forall i | 0 <= i < |r.value| ensures documents[r.value[i].id].status == status {
          assert IsMatch(wordToDocumentFreqs, documents, ParsedQuery(Words(rawQuery), stopWords, Sequenced),
                         StatusIs(status), idf, r.value[i]);
          MatchedIff(wordToDocumentFreqs, documents, ParsedQuery(Words(rawQuery), stopWords, Sequenced),
                     StatusIs(status), r.value[i].id);
        }
      }
    }

    /** FindTopDocuments with the query alone: the ACTUAL documents. */
    method FindTopDocumentsActual(rawQuery: string, idf: Idf) returns (r: Result<seq<Document>, Error>)
      requires Valid()
      ensures r.Failure? <==> QueryError(Words(rawQuery), stopWords).Some?
      ensures r.Success? ==>
                IsTop(r.value, wordToDocumentFreqs, documents,
                      ParsedQuery(Words(rawQuery), stopWords, Sequenced), StatusIs(Actual), idf)
      ensures r.Success? ==> forall i :: 0 <= i < |r.value| ==> documents[r.value[i].id].status == Actual
    {
      r := FindTopDocumentsByStatus(rawQuery, Actual, idf);
    }

    /** Every posting names a stored document. */
    lemma ValidIsIndexed()
      requires Valid()
      ensures Indexed(wordToDocumentFreqs, documents)
    {
    }

    /**
     * MatchDocument with an execution policy: an unknown id is rejected
     * first, then the query is parsed (deduplicated on the sequenced path
     * only); a minus word in the document empties the answer; otherwise the
     * answer is the plus words the document holds, sorted and without
     * repeats, whichever the policy.
     */
    method MatchDocumentWithPolicy(policy: ExecutionPolicy, rawQuery: string, id: int)
      returns (r: Result<(seq<string>, DocumentStatus), Error>)
      requires Valid()
      ensures r.Failure? <==> id !in documents || QueryError(Words(rawQuery), stopWords).Some?
      ensures r.Failure? ==>
                r.error == if id !in documents then DocumentNotFound
                           else QueryError(Words(rawQuery), stopWords).value
      ensures r.Success? ==> id in documents && r.value.1 == documents[id].status
      ensures r.Success? ==> StrictlyAscending(r.value.0)
      ensures r.Success? ==> forall w :: w in r.value.0 <==> MatchesWord(Words(rawQuery), id, w)
    {
      if id !in documents {
        return Failure(DocumentNotFound);
      }
      var parsed := ParseQuery(rawQuery, stopWords, policy);
      if parsed.Failure? {
        return Failure(parsed.error);
      }
      var query := parsed.value;
      var status := documents[id].status;
      var excluded := AnyPresent(query.minusWords, id);
      ghost var tokens := Words(rawQuery);
      MinusWordsOfPolicy(tokens, policy, id);
      if excluded {
        forall w ensures !MatchesWord(tokens, id, w) { }
        return Success(([], status));
      }
      var matched := CopyPresent(query.plusWords, id);
      matched := RemoveDuplicateWords(matched);
      forall w ensures w in matched <==> MatchesWord(tokens, id, w) {
        PresentMembers(wordToDocumentFreqs, query.plusWords, id, w);
        PlusWordsOfPolicy(tokens, policy, w);
      }
      return Success((matched, status));
    }

    /**
     * MatchDocument without a policy: the query is parsed into sets, the
     * plus words the document holds are collected, a minus word it holds
     * clears them, and only then is the document looked up.
     */
    method MatchDocument(rawQuery: string, id: int) returns (r: Result<(seq<string>, DocumentStatus), Error>)
      requires Valid()
      ensures r.Failure? <==> QueryError(Words(rawQuery), stopWords).Some? || id !in documents
      ensures r.Failure? ==>
                r.error == if QueryError(Words(rawQuery), stopWords).Some?
                           then QueryError(Words(rawQuery), stopWords).value
                           else OutOfRange
      ensures r.Success? ==> id in documents && r.value.1 == documents[id].status
      ensures r.Success? ==> StrictlyAscending(r.value.0)
      ensures r.Success? ==> forall w :: w in r.value.0 <==> MatchesWord(Words(rawQuery), id, w)
    {
      var parsed := ParseQuery(rawQuery, stopWords, Sequenced);
      if parsed.Failure? {
        return Failure(parsed.error);
      }
      var query := parsed.value;
      ghost var tokens := Words(rawQuery);
      var matched := CopyPresent(query.plusWords, id);
      PresentAscending(wordToDocumentFreqs, query.plusWords, id);
      var excluded := AnyPresent(query.minusWords, id);
      MinusWordsOfPolicy(tokens, Sequenced, id);
      if excluded {
        matched := [];
      }
      if id !in documents {
        return Failure(OutOfRange);
      }
      forall w ensures w in matched <==> MatchesWord(tokens, id, w) {
        PresentMembers(wordToDocumentFreqs, query.plusWords, id, w);
        PlusWordsOfPolicy(tokens, Sequenced, w);
      }
      return Success((matched, documents[id].status));
    }

    /**
     * A word is reported for a document: it is a plus word of the query,
     * the document holds it, and the document holds none of the minus words.
     */
    ghost predicate MatchesWord(tokens: seq<string>, id: int, w: string)
      reads this
    {
      && w in QueryTerms(tokens, stopWords, false)
      && Occurs(wordToDocumentFreqs, w, id)
      && !AnyOccurs(wordToDocumentFreqs, QueryTerms(tokens, stopWords, true), id)
    }

    /** Which policy parsed the query does not change which minus words there are. */
    lemma MinusWordsOfPolicy(tokens: seq<string>, policy: ExecutionPolicy, id: int)
      ensures AnyOccurs(wordToDocumentFreqs, ParsedQuery(tokens, stopWords, policy).minusWords, id) <==>
              AnyOccurs(wordToDocumentFreqs, QueryTerms(tokens, stopWords, true), id)
    {
      var m := QueryTerms(tokens, stopWords, true);
      if AnyOccurs(wordToDocumentFreqs, m, id) {
        var w :| w in m && Occurs(wordToDocumentFreqs, w, id);
        assert w in ParsedQuery(tokens, stopWords, policy).minusWords;
      }
    }

    /** Which policy parsed the query does not change which plus words there are. */
    lemma PlusWordsOfPolicy(tokens: seq<string>, policy: ExecutionPolicy, w: string)
      ensures w in ParsedQuery(tokens, stopWords, policy).plusWords <==> w in QueryTerms(tokens, stopWords, false)
    {
    }

    /** A stored document holds a word in the index exactly when it was indexed under it. */
    lemma OccursIffIndexed(id: int, w: string)
      requires Valid() && id in documents
      ensures Occurs(wordToDocumentFreqs, w, id) <==> w in indexedWords[id]
    {
      if w in indexedWords[id] {
        assert w in TermFreqs(indexedWords[id]);
      }
    }

    /**
     * A stored document matched against its own text, when no word of the
     * text starts with '-': every non-stop word is a plus word and there
     * are no minus words, so the words reported are the document's own.
     */
    lemma OwnTextMatches(id: int, text: string, w: string)
      requires Valid() && id in documents
      requires indexedWords[id] == NonStop(Words(text), stopWords)
      requires forall t :: t in Words(text) ==> !StartsWithMinus(t)
      ensures MatchesWord(Words(text), id, w) <==> w in NonStop(Words(text), stopWords)
    {
      var tokens := Words(text);
      QueryTermsMembers(tokens, stopWords, false, w);
      assert Render(QueryWord(w, false, false)) == w;
      NonStopMembers(tokens, stopWords, w);
      OccursIffIndexed(id, w);
      forall m ensures m !in QueryTerms(tokens, stopWords, true) {
        QueryTermsMembers(tokens, stopWords, true, m);
        assert StartsWithMinus(Render(QueryWord(m, true, false)));
      }
    }

    /** The any_of over the minus words: does the document hold one of them? */
    method AnyPresent(ws: seq<string>, id: int) returns (found: bool)
      ensures found <==> AnyOccurs(wordToDocumentFreqs, ws, id)
    {
      found := false;
      for i := 0 to |ws|
        invariant !AnyOccurs(wordToDocumentFreqs, ws[..i], id)
      {
        if ws[i] in wordToDocumentFreqs && id in wordToDocumentFreqs[ws[i]] {
          assert ws[i] in ws && Occurs(wordToDocumentFreqs, ws[i], id);
          return true;
        }
        assert forall w :: w in ws[..i + 1] ==> w in ws[..i] || w == ws[i];
      }
      assert ws[..|ws|] == ws;
    }

    /** The copy_if over the plus words: those the document holds, in order. */
    method CopyPresent(ws: seq<string>, id: int) returns (matched: seq<string>)
      ensures matched == Present(wordToDocumentFreqs, ws, id)
    {
      matched := [];
      for i := 0 to |ws|
        invariant matched == Present(wordToDocumentFreqs, ws[..i], id)
      {
        assert ws[..i + 1][..i] == ws[..i];
        if ws[i] in wordToDocumentFreqs && id in wordToDocumentFreqs[ws[i]] {
          matched := matched + [ws[i]];
        }
      }
      assert ws[..|ws|] == ws;
    }

    /**
     * RemoveDocument with an execution policy, as written: the document
     * leaves documents_ first; for a document without non-stop words `.at`
     * on the transpose map then fails, and its id stays in the id set,
     * which no longer matches the documents.
     */
    method RemoveDocumentWithPolicyAsWritten(id: int) returns (outcome: Outcome<Error>)
      requires Valid()
      modifies this
      ensures outcome.Fail? <==> id in old(documents) && old(indexedWords)[id] == []
      ensures outcome.Fail? ==> outcome.error == OutOfRange
      ensures stopWords == old(stopWords)
      ensures outcome.Fail? ==> documents == old(documents) - {id} && documentIds == old(documentIds)
      ensures outcome.Fail? ==> id in documentIds && id !in documents
      ensures outcome.Fail? ==>
                && wordToDocumentFreqs == old(wordToDocumentFreqs)
                && documentToWordFreqs == old(documentToWordFreqs)
                && indexedWords == old(indexedWords)
      ensures outcome.Pass? ==> Valid() && documents == old(documents) - {id} &&
                                documentIds == old(documentIds) - {id} &&
                                documentToWordFreqs == old(documentToWordFreqs) - {id} &&
                                indexedWords == old(indexedWords) - {id}
      ensures outcome.Pass? ==>
                wordToDocumentFreqs ==
                  ErasePostings(old(wordToDocumentFreqs), id, ErasedWords(old(documentToWordFreqs), id))
    {
      if id in documents && id !in documentToWordFreqs {
        documents := documents - {id};
        return Fail(OutOfRange);
      }
      RemoveDocument(id);
      return Pass;
    }

    /** The distinct words of every document, as RemoveDuplicates compares them. */
    ghost function WordSets(): map<int, set<string>>
      reads this
    {
      WordSetsOf(documents, indexedWords)
    }

    /** GetWordFrequencies' keys are the document's distinct words. */
    lemma FrequencyKeys(id: int)
      requires Valid() && id in documents
      ensures GetWordFrequencies(id).Keys == WordSets()[id]
    {
    }
  }

  /**
   * AddDocument followed by MatchDocument on the same text and id: when no
   * word of the text starts with '-', the match reports the document's
   * non-stop words, sorted and without repeats, with its status.
   */
  method AddThenMatchOwnText(server: SearchServer, id: int, text: string, status: DocumentStatus,
                             ratings: seq<int>)
    returns (added: Outcome<Error>, matched: Result<(seq<string>, DocumentStatus), Error>)
    requires server.Valid()
    modifies server
    ensures added.Pass? <==> id >= 0 && id !in old(server.documents) && AllValid(Words(text))
    ensures added.Pass? && (forall t :: t in Words(text) ==> !StartsWithMinus(t)) ==>
              matched == Success((SortedUnique(NonStop(Words(text), server.stopWords)), status))
  {
    added := server.AddDocument(id, text, status, ratings);
    matched := server.MatchDocument(text, id);
    if added.Pass? && forall t :: t in Words(text) ==> !StartsWithMinus(t) {
      var tokens := Words(text);
      var words := NonStop(tokens, server.stopWords);
      forall t | t in tokens ensures IsValidWord(t) {
        var i :| 0 <= i < |tokens| && tokens[i] == t;
      }
      PlainWordsParse(tokens, server.stopWords);
      forall w ensures w in matched.value.0 <==> w in SortedUnique(words) {
        server.OwnTextMatches(id, text, w);
      }
      AscendingUnique(matched.value.0, SortedUnique(words));
    }
  }

  /** The texts "-x" and "-" are one word each. */
  lemma DashWords()
    ensures Words("-x") == ["-x"] && Words("-") == ["-"]
  {
    WordsOfWordThen("-x", []);
    WordsOfWordThen("-", []);
    assert "-x" + [] == "-x" && "-" + [] == "-";
  }

  /** As a document with no stop words, "-x" is indexed under the word "-x". */
  lemma MinusXDocument()
    ensures AllValid(["-x"]) && NonStop(["-x"], {}) == ["-x"]
  {
    assert ["-x"][..0] == [];
  }

  /** As a query, "-x" is accepted and has no plus word. */
  lemma MinusXQuery()
    ensures QueryError(["-x"], {}) == None && QueryTerms(["-x"], {}, false) == []
  {
    assert ["-x"][..0] == [];
    assert "-x"[1..] == "x";
    assert ParseQueryWord("-x", {}) == Success(QueryWord("x", true, false));
  }

  /** As a document "-" is valid; as a query it is rejected. */
  lemma BareMinus()
    ensures AllValid(["-"])
    ensures QueryError(["-"], {}) == Some(InvalidQueryWord)
  {
    assert ["-"][..0] == [];
    assert "-"[1..] == [];
  }

  /**
   * A word starting with '-' breaks that round trip: "-x" is stored as a
   * document word, but as a query it is the minus word "x", so the
   * document matches nothing of its own text.
   */
  method MinusWordOwnText() returns (added: Outcome<Error>, matched: Result<(seq<string>, DocumentStatus), Error>)
    ensures NonStop(Words("-x"), {}) == ["-x"]
    ensures added == Pass
    ensures matched == Success(([], Actual))
  {
    var server := new SearchServer({});
    DashWords();
    MinusXDocument();
    MinusXQuery();
    added := server.AddDocument(1, "-x", Actual, []);
    matched := server.MatchDocument("-x", 1);
    FirstIsElement(matched.value.0);
  }

  /** A bare "-" is a valid document word and an invalid query word. */
  method BareMinusOwnText() returns (added: Outcome<Error>, matched: Result<(seq<string>, DocumentStatus), Error>)
    ensures added == Pass
    ensures matched == Failure(InvalidQueryWord)
  {
    var server := new SearchServer({});
    DashWords();
    BareMinus();
    added := server.AddDocument(1, "-", Actual, []);
    matched := server.MatchDocument("-", 1);
  }

  /**
   * The ids RemoveDuplicates erases: each document whose word set already
   * belongs to a document with a lower id.
   */
  function Duplicates(wordSets: map<int, set<string>>): set<int>
  {
    DuplicatesAmong(wordSets, wordSets.Keys)
  }

  /** The duplicates among the ids of `processed`. */
  function DuplicatesAmong(wordSets: map<int, set<string>>, processed: set<int>): set<int>
    requires processed <= wordSets.Keys
  {
    set id | id in processed && exists other :: other in processed && other < id && wordSets[other] == wordSets[id]
  }

  /** The documents left after removing the duplicates have pairwise different word sets. */
  lemma DuplicatesLeaveDistinct(wordSets: map<int, set<string>>, a: int, b: int)
    requires a in wordSets && b in wordSets && a != b
    requires a !in Duplicates(wordSets) && b !in Duplicates(wordSets)
    ensures wordSets[a] != wordSets[b]
  {
    if a < b {
      assert wordSets[a] == wordSets[b] ==> b in Duplicates(wordSets);
    } else {
      assert wordSets[a] == wordSets[b] ==> a in Duplicates(wordSets);
    }
  }

  /** Every word set keeps a document: the lowest id that has it, which is not a duplicate. */
  lemma LowestSurvives(wordSets: map<int, set<string>>, id: int)
    requires id in wordSets
    ensures exists keep :: keep in wordSets && keep !in Duplicates(wordSets) && keep <= id &&
                           wordSets[keep] == wordSets[id]
  {
    var group := set other | other in wordSets && wordSets[other] == wordSets[id];
    assert id in group;
    MinExists(group);
    var keep :| IsLeast(keep, group);
    forall other | other in wordSets && other < keep ensures wordSets[other] != wordSets[keep] {
      assert wordSets[other] == wordSets[keep] ==> other in group;
    }
    assert keep !in Duplicates(wordSets);
  }

  /** The distinct words of each stored document. */
  ghost function WordSetsOf(documents: map<int, DocumentData>, indexedWords: map<int, seq<string>>)
    : map<int, set<string>>
  {
    map id | id in documents && id in indexedWords :: WordSet(indexedWords[id])
  }

  /** Removing documents removes their word sets and nothing else. */
  lemma WordSetsWithout(documents: map<int, DocumentData>, indexedWords: map<int, seq<string>>, removed: set<int>)
    ensures WordSetsOf(documents - removed, indexedWords - removed) == WordSetsOf(documents, indexedWords) - removed
  {
  }

  /**
   * The scan of RemoveDuplicates: the ids of `processed` are visited, all
   * below the ids still pending; `seen` holds their word sets and
   * `toRemove` the duplicates among them.
   */
  ghost predicate Scanned(wordSets: map<int, set<string>>, pending: set<int>, processed: set<int>,
                          seen: set<set<string>>, toRemove: set<int>)
  {
    && pending <= wordSets.Keys
    && processed == wordSets.Keys - pending
    && (forall x, y :: x in processed && y in pending ==> x < y)
    && seen == (set id | id in processed :: wordSets[id])
    && toRemove == DuplicatesAmong(wordSets, processed)
  }

  /** Before the scan nothing is seen. */
  lemma ScanStart(wordSets: map<int, set<string>>)
    ensures Scanned(wordSets, wordSets.Keys, {}, {}, {})
  {
    assert DuplicatesAmong(wordSets, {}) == {};
  }

  /** Scanning the least pending id. */
  lemma ScanStep(wordSets: map<int, set<string>>, pending: set<int>, processed: set<int>,
                 seen: set<set<string>>, toRemove: set<int>, id: int)
    requires Scanned(wordSets, pending, processed, seen, toRemove)
    requires IsLeast(id, pending)
    ensures Scanned(wordSets, pending - {id}, processed + {id}, seen + {wordSets[id]},
                    if wordSets[id] in seen then toRemove + {id} else toRemove)
  {
    var next := processed + {id};
    var dups := DuplicatesAmong(wordSets, next);
    forall x ensures x in dups <==> x in (if wordSets[id] in seen then toRemove + {id} else toRemove) {
      if x in processed && x in dups {
        var other :| other in next && other < x && wordSets[other] == wordSets[x];
        assert other != id;
      }
    }
  }

  /** When nothing is pending, the duplicates found are all of them. */
  lemma ScanDone(wordSets: map<int, set<string>>, processed: set<int>, seen: set<set<string>>, toRemove: set<int>)
    requires Scanned(wordSets, {}, processed, seen, toRemove)
    ensures toRemove == Duplicates(wordSets)
  {
    assert processed == wordSets.Keys;
  }

  /**
   * The first loop of RemoveDuplicates: visit the ids in ascending order
   * and mark each whose word set was seen before.
   */
  method FindDuplicates(server: SearchServer) returns (toRemove: set<int>)
    requires server.Valid()
    ensures toRemove == Duplicates(server.WordSets())
  {
    ghost var wordSets := server.WordSets();
    var seen: set<set<string>> := {};
    toRemove := {};
    var pending := server.documentIds;
    ghost var processed: set<int> := {};
    ScanStart(wordSets);
    while pending != {}
      invariant Scanned(wordSets, pending, processed, seen, toRemove)
      decreases |pending|
    {
      MinExists(pending);
      var id :| IsLeast(id, pending);
      server.FrequencyKeys(id);
      var words := server.GetWordFrequencies(id).Keys;
      ScanStep(wordSets, pending, processed, seen, toRemove, id);
      if words in seen {
        toRemove := toRemove + {id};
      }
      seen := seen + {words};
      processed := processed + {id};
      pending := pending - {id};
    }
    ScanDone(wordSets, processed, seen, toRemove);
  }

  /**
   * RemoveDuplicates: every document whose set of words equals that of a
   * document with a lower id is removed; the others stay as they were.
   */
  method RemoveDuplicates(server: SearchServer)
    requires server.Valid()
    modifies server
    ensures server.Valid()
    ensures server.documents.Keys == old(server.documents).Keys - Duplicates(old(server.WordSets()))
    ensures forall id :: id in server.documents ==> server.documents[id] == old(server.documents)[id]
    ensures server.WordSets() == old(server.WordSets()) - Duplicates(old(server.WordSets()))
    ensures server.indexedWords == old(server.indexedWords) - Duplicates(old(server.WordSets()))
    ensures server.stopWords == old(server.stopWords)
  {
    ghost var documents0, indexedWords0 := server.documents, server.indexedWords;
    var toRemove := FindDuplicates(server);
    RemoveEach(server, toRemove);
    WordSetsWithout(documents0, indexedWords0, toRemove);
  }

  /** Some stored document has no non-stop word, so it has no row in the transpose map. */
  ghost predicate HasStopWordsOnlyDocument(server: SearchServer)
    reads server
    requires server.Valid()
  {
    exists id :: id in server.documents && server.indexedWords[id] == []
  }

  /**
   * The first loop of RemoveDuplicates as written: the scan reads each
   * document's words with GetWordFrequencies as written, so the first
   * document without non-stop words stops it with out_of_range.
   */
  method FindDuplicatesAsWritten(server: SearchServer) returns (r: Result<set<int>, Error>)
    requires server.Valid()
    ensures r.Failure? <==> HasStopWordsOnlyDocument(server)
    ensures r.Failure? ==> r.error == OutOfRange
    ensures r.Success? ==> r.value == Duplicates(server.WordSets())
  {
    ghost var wordSets := server.WordSets();
    var seen: set<set<string>> := {};
    var toRemove: set<int> := {};
    var pending := server.documentIds;
    ghost var processed: set<int> := {};
    ScanStart(wordSets);
    while pending != {}
      invariant Scanned(wordSets, pending, processed, seen, toRemove)
      invariant forall id :: id in processed ==> server.indexedWords[id] != []
      decreases |pending|
    {
      MinExists(pending);
      var id :| IsLeast(id, pending);
      var freqs := server.GetWordFrequenciesAsWritten(id);
      if freqs.Failure? {
        return Failure(freqs.error);
      }
      server.FrequencyKeys(id);
      var words := freqs.value.Keys;
      ScanStep(wordSets, pending, processed, seen, toRemove, id);
      if words in seen {
        toRemove := toRemove + {id};
      }
      seen := seen + {words};
      processed := processed + {id};
      pending := pending - {id};
    }
    ScanDone(wordSets, processed, seen, toRemove);
    return Success(toRemove);
  }

  /**
   * RemoveDuplicates as written: a document without non-stop words makes
   * the scan fail before anything is removed; otherwise it removes exactly
   * the duplicates, as RemoveDuplicates does.
   */
  method RemoveDuplicatesAsWritten(server: SearchServer) returns (outcome: Outcome<Error>)
    requires server.Valid()
    modifies server
    ensures outcome.Fail? <==> old(HasStopWordsOnlyDocument(server))
    ensures outcome.Fail? ==> outcome.error == OutOfRange && unchanged(server)
    ensures outcome.Pass? ==>
              && server.Valid()
              && server.documents.Keys == old(server.documents).Keys - Duplicates(old(server.WordSets()))
              && (forall id :: id in server.documents ==> server.documents[id] == old(server.documents)[id])
              && server.WordSets() == old(server.WordSets()) - Duplicates(old(server.WordSets()))
              && server.indexedWords == old(server.indexedWords) - Duplicates(old(server.WordSets()))
              && server.stopWords == old(server.stopWords)
  {
    ghost var documents0, indexedWords0 := server.documents, server.indexedWords;
    var found := FindDuplicatesAsWritten(server);
    if found.Failure? {
      return Fail(found.error);
    }
    RemoveEach(server, found.value);
    WordSetsWithout(documents0, indexedWords0, found.value);
    return Pass;
  }

  /** The second loop of RemoveDuplicates: RemoveDocument on each marked id, in ascending order. */
  method RemoveEach(server: SearchServer, toRemove: set<int>)
    requires server.Valid()
    modifies server
    ensures server.Valid()
    ensures server.documents == old(server.documents) - toRemove
    ensures server.indexedWords == old(server.indexedWords) - toRemove
    ensures server.stopWords == old(server.stopWords)
  {
    ghost var removed: set<int> := {};
    var pending := toRemove;
    while pending != {}
      invariant pending <= toRemove && removed == toRemove - pending
      invariant server.Valid()
      invariant server.stopWords == old(server.stopWords)
      invariant server.documents == old(server.documents) - removed
      invariant server.indexedWords == old(server.indexedWords) - removed
      decreases |pending|
    {
      MinExists(pending);
      var id :| IsLeast(id, pending);
      server.RemoveDocument(id);
      assert old(server.documents) - removed - {id} == old(server.documents) - (removed + {id});
      assert old(server.indexedWords) - removed - {id} == old(server.indexedWords) - (removed + {id});
      removed := removed + {id};
      pending := pending - {id};
    }
  }

  /** The text "in" is the one word "in", a stop word of the server below. */
  lemma OnlyStopWord()
    ensures Words("in") == ["in"]
    ensures NonStop(Words("in"), {"in"}) == []
  {
    var text := "in";
    assert text[1..] == "n" && "n"[1..] == [];
    assert WordLength([]) == 0;
    assert WordLength("n") == 1;
    assert WordLength(text) == 2;
    assert text[..2] == text && text[2..] == [];
    assert Words([]) == [];
    assert ["in"][..0] == [];
  }

  /** The loop of RemoveDocument: erase the id from the posting list of each of its words. */
  method ErasePostingsOf(wordIndex: WordIndex, id: int, terms: set<string>) returns (erased: WordIndex)
    requires terms <= wordIndex.Keys
    ensures erased == ErasePostings(wordIndex, id, terms)
  {
    erased := wordIndex;
    EraseNothing(wordIndex, id);
    var pending := terms;
    while pending != {}
      invariant pending <= terms
      invariant erased == ErasePostings(wordIndex, id, terms - pending)
      decreases |pending|
    {
      EmptyOrElement(pending);
      var w :| w in pending;
      EraseStep(wordIndex, id, terms - pending, w);
      erased := erased[w := erased[w] - {id}];
      assert (terms - pending) + {w} == terms - (pending - {w});
      pending := pending - {w};
    }
  }

  /**
   * A document whose only words are stop words: the server accepts it,
   * and then GetWordFrequencies, RemoveDuplicates and RemoveDocument, as
   * written, fail on it.
   */
  method StopWordsOnlyDocument()
    returns (added: Outcome<Error>, freqs: Result<map<string, real>, Error>,
             dedup: Outcome<Error>, removal: Outcome<Error>)
    ensures added == Pass
    ensures freqs == Failure(OutOfRange)
    ensures dedup == Fail(OutOfRange)
    ensures removal == Fail(OutOfRange)
  {
    var server := new SearchServer({"in"});
    OnlyStopWord();
    added := server.AddDocument(1, "in", Actual, []);
    freqs := server.GetWordFrequenciesAsWritten(1);
    dedup := RemoveDuplicatesAsWritten(server);
    removal := server.RemoveDocumentAsWritten(1);
  }
}
