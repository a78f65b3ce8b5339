# search-server in Dafny

This is a model of the in-memory search engine in `search-server`. The engine has five parts:

- a tokenizer and stop-word normaliser;
- a `SearchServer` that keeps an inverted index in both directions (word → document → term frequency, and document → word → term frequency), plus each document's rating and status and the set of document ids;
- query parsing with plus words, minus words and stop words;
- TF-IDF ranking, truncated to the best five documents, and matching of one document against a query;
- duplicate removal, a `RequestQueue` that counts the empty results of the last day's 1440 requests, and a `Paginator` that cuts a range into pages.

Entities that the source updates in place are Dafny classes with `modifies` clauses:

- `Server.SearchServer`;
- `Requests.RequestQueue`;
- `Pagination.Paginator`.

Loops in the source are methods with loop invariants. Each such method is proved against a specification function, and the properties the source promises are proved as lemmas about those functions. The modules follow the program:

| module | file | covers |
|---|---|---|
| `StringProcessing` | `string_processing.dfy` | `SplitIntoWords`, `MakeUniqueNonEmptyStrings` |
| `Documents` | `documents.dfy` | `Document`, `DocumentStatus`, the average rating, the ranking order |
| `Lexicographic` | `lexicographic.dfy` | `std::string`'s `<`, `sort` followed by `unique` |
| `Queries` | `queries.dfy` | `IsValidWord`, `ParseQueryWord`, `ParseQuery`, `Query::RemoveDuplicates` |
| `InvertedIndex` | `inverted_index.dfy` | term frequencies, the two index maps and how adding and erasing change them |
| `ServerState` | `server_state.dfy` | the server's invariant, AddDocument's indexing loop |
| `Ranking` | `ranking.dfy` | which documents a query finds, their relevance, what a top result is |
| `Retrieval` | `retrieval.dfy` | `FindAllDocuments` |
| `Server` | `search_server.dfy` | the `SearchServer` class, `RemoveDuplicates` |
| `Requests` | `request_queue.dfy` | `RequestQueue` |
| `Pagination` | `paginator.dfy` | `IteratorRange`, `Paginator`, `Paginate` |
| `Wrappers`, `IdSets` | `wrappers.dfy`, `ids.dfy` | Option/Result/Outcome, and picking the least id of a set |

### Choices

- **Which version of the code.** `search_server.cpp` is an older version of the class than `search_server.h`. The model uses:
  - the header's data layout: document ids are an ascending `set<int>`, so `RemoveDuplicates` keeps the lowest id of each group;
  - the `.cpp` bodies for the members defined there.
- **Exceptions are results.** Every exception the source throws is a `Failure`/`Fail` value carrying an `Error`:
  - `invalid_argument` for a bad id, a bad word, a bad query word or a bad stop word, and for an unknown id in `MatchDocument` with a policy (search_server.h:101-103), which the model calls `DocumentNotFound`;
  - `out_of_range` for `std::map::at` on a missing key.
- **Numbers.**
  - Relevance and term frequencies are exact `real`s.
  - The inverse document frequency is a parameter `idf: (nat, nat) -> real`: a function of the document count and the posting-list size. The source takes their logarithm.
  - Ratings are unbounded integers. The average rating truncates toward zero, as C++ `int` division does.
- **Matching a document against its own text.** The source reads a leading '-' as a minus sign in a query but not in a document. So adding a document and matching its text against it returns its distinct non-stop words only when no word of the text starts with '-'. A word "-x" turns into the minus word "x", and a bare "-" makes the query invalid. The model proves the round trip under that condition and shows both exceptions.
- **Query parsing does not depend on the policy where it matters.** `FindTopDocuments` with a policy parses its query with the sequenced `ParseQuery` (search_server.h:68). So every search sees a sorted, deduplicated query. The non-sequenced parse is reachable only from `MatchDocument(policy)`, which sorts and deduplicates the matched words itself. The model proves that both policies give the same answer there.

## Model

| member | source | states |
|---|---|---|
| StringProcessing.SplitIntoWords | search-server/main.cpp:33-52 | The words returned are exactly `Words(text)`: the maximal runs of non-space characters, in order. |
| StringProcessing.Words | search-server/main.cpp:36-49 | No word is empty and no word contains a space. |
| StringProcessing.WordsKeepCharacters | search-server/main.cpp:36-45 | Concatenating the words gives the text with its spaces removed: only spaces separate words, and every other character is kept. |
| StringProcessing.SplitJoinRoundTrip | search-server/main.cpp:33-52 | Splitting non-empty, space-free words joined by single spaces gives back the same words in the same order. |
| StringProcessing.MakeUniqueNonEmptyStrings | search-server/string_processing.h:13-21 | The result never holds the empty string, and it holds exactly the non-empty input strings. |
| StringProcessing.UniqueNonEmptySize | search-server/string_processing.h:14-18 | The result has no more elements than the input has strings. |
| StringProcessing.UniqueNonEmptyIdempotent | search-server/string_processing.h:13-21 | Normalising an already normalised set gives the same set. |
| Documents.TruncDiv | search-server/search_server.cpp:93 | The quotient is truncated toward zero: it lies between zero and the exact quotient, within one divisor, for either sign of the dividend. |
| Documents.ComputeAverageRating | search-server/search_server.cpp:88-94 | No ratings give 0. Otherwise the result is the sum divided by the count, truncated toward zero. |
| Documents.AverageRatingExamples | search-server/main.cpp:416-447 | The averages of {8,-3}, {7,2,7}, {5,-12,2,1} and {} are 2, 5, -1 and 0. |
| Documents.SortByRank | search-server/search_server.h:71-78 | The result is ordered by relevance, then rating, both descending, and is a permutation of the input. |
| Documents.OrderedAll | search-server/search_server.h:71-78 | In an ordered list, every earlier document ranks at least as high as every later one, not only its neighbour. |
| Lexicographic.LessTransitive | search-server/search_server.h:230 | The string order that `std::sort` uses is transitive. |
| Lexicographic.LessTotal | search-server/search_server.h:230 | Any two different strings are ordered one way or the other. |
| Lexicographic.SortedUnique | search-server/search_server.h:230-232 | Sorting then `unique` leaves a strictly ascending list with exactly the input's elements. |
| Lexicographic.AscendingUnique | search-server/search_server.h:230-232 | Two strictly ascending lists with the same elements are equal, so the result of sort-then-unique is determined by the set of words. |
| Queries.ParseQueryWord | search-server/search_server.h:197-212 | Rejects with "empty" exactly the empty word, and otherwise rejects with "invalid". On success, the parsed word is a non-empty, valid word that does not start with `-`; adding back the `-` when it is a minus word gives the input; `is_stop` holds iff it is a stop word. |
| Queries.ParseRendered | search-server/search_server.h:202-211 | Every valid query term, with or without one leading `-`, parses back to itself, with the right minus and stop flags. |
| Queries.QueryErrorIffBadWord | search-server/search_server.h:252-253 | A query is rejected iff one of its words is rejected by ParseQueryWord. |
| Queries.QueryTermsMembers | search-server/search_server.h:252-259 | A word is a plus (minus) word of the query iff it is a valid non-stop query term and it appears in the query without (with) a `-`. Stop words are dropped silently. |
| Queries.PoliciesAgreeOnWords | search-server/search_server.h:260-262 | The sequenced and parallel parses have the same plus words and the same minus words; only their order and repeats differ. |
| Queries.RemoveDuplicateWords | search-server/search_server.h:228-239 | The sort, unique and resize steps give the strictly ascending list of the words, with the same elements. |
| Queries.PlainWordsParse | search-server/search_server.h:197-212 | A query made of non-empty valid words, none starting with '-', is accepted. |
| Queries.RemoveDuplicates | search-server/search_server.h:223-239 | Both word lists of the query are deduplicated in this way. |
| Queries.ParseQuery | search-server/search_server.h:247-264 | Fails iff some query word is rejected, with that word's error. Otherwise it returns the plus and minus words in query order, sorted and deduplicated only under the sequenced policy. |
| InvertedIndex.AccumulatedCounts | search-server/search_server.cpp:14-16 | Adding 1/n for each occurrence leaves an entry exactly for each word that occurs, and that entry is the number of occurrences times 1/n. |
| InvertedIndex.AccumulatedIsTermFreqs | search-server/search_server.cpp:13-17 | For a document with n non-stop words, the accumulated map is the term-frequency map: occurrences / n per word. |
| InvertedIndex.TermFreqBounds | search-server/search_server.cpp:13-17 | Every term frequency lies in (0, 1]. |
| InvertedIndex.TermFreqsSumToOne | search-server/search_server.cpp:13-17 | A document's term frequencies sum to 1. |
| InvertedIndex.AddKeepsTransposed | search-server/search_server.cpp:14-17 | Writing the same frequencies into both maps keeps them transposes of each other. |
| InvertedIndex.EraseKeepsTransposed | search-server/search_server.cpp:69-72 | Erasing a document from the posting lists of its words and from the transpose map keeps the maps transposes of each other. |
| ServerState.NonStopMembers | search-server/search_server.cpp:81-83 | A word is kept iff it is a token that is not a stop word. |
| ServerState.IndexDocument | search-server/search_server.cpp:13-17 | The indexing loop adds the document's term frequencies to every posting list of its words. It adds the document's frequency row to the transpose map only if the document has a non-stop word. |
| ServerState.AddKeepsConsistent | search-server/search_server.cpp:4-20 | Adding a fresh document keeps the server invariant: the id set equals the document keys, the maps are transposes, and each row holds the document's term frequencies. |
| ServerState.RemoveKeepsConsistent | search-server/search_server.cpp:63-73 | Removing a document keeps the server invariant. |
| Ranking.SeededMembers | search-server/search_server.h:281-292 | The plus words put a document in the relevance map iff it passes the predicate and holds one of them. |
| Ranking.ExcludedMembers | search-server/search_server.h:297-306 | The minus words erase a document iff it holds one of them, whatever the predicate says. |
| Ranking.MatchedIff | search-server/search_server.h:281-306 | A document is found iff it passes the predicate, holds a plus word and holds no minus word. |
| Ranking.UnseededRelevance | search-server/search_server.h:286-290 | A document that no plus word reaches has gathered no relevance. |
| Ranking.PresentMembers | search-server/search_server.h:106-120 | The copied plus words are exactly the plus words the document holds. |
| Ranking.PresentAscending | search-server/search_server.h:115-120 | Copying from a strictly ascending list keeps it strictly ascending. |
| Ranking.TopOfSorted | search-server/search_server.h:71-82 | Sorting all matches by rank and keeping the first five gives a top result. There are at most five, no id twice, all of them matches in rank order, and no match left out outranks one kept. |
| Retrieval.AddWordRelevance | search-server/search_server.h:281-292 | One plus word adds tf × idf to each document of its posting list that passes the predicate, and changes nothing else. |
| Retrieval.ListByAscendingId | search-server/search_server.h:308-312 | The relevance map becomes a list of documents in ascending id order, one per entry, each with its relevance and rating. |
| Retrieval.FindAllDocuments | search-server/search_server.h:276-313 | Returns each found document exactly once, in ascending id order, with its query relevance and its rating. |
| Server.SearchServer.constructor | search-server/search_server.h:161-166 | A server with the given stop words has no documents and empty index maps. |
| Server.SearchServer.Create | search-server/search_server.h:26-33 | Empty strings and repeats are dropped from the stop words. Creation fails iff a remaining stop word is invalid. A created server has no documents, no ids and empty index maps. |
| Server.SearchServer.CreateFromText | search-server/search_server.h:35-39 | Same as Create, for the words of a space-separated text. |
| Server.SearchServer.GetDocumentCount | search-server/search_server.h:89 | The number of documents equals the size of the id set. |
| Server.SearchServer.SplitIntoWordsNoStop | search-server/search_server.cpp:75-86 | Fails iff some token is invalid, stop word or not. Otherwise returns the non-stop tokens in order. |
| Server.SearchServer.AddDocument | search-server/search_server.cpp:4-20 | A negative or existing id is rejected first, then an invalid word. A rejected call changes nothing. Otherwise the document, its id, its postings and its frequency row are added, and the invariant holds. |
| Server.SearchServer.GetWordFrequencies | search-server/search_server.cpp:56-61 | The document's term frequencies. An unknown id, or a document without non-stop words, gives the empty map. |
| Server.SearchServer.GetWordFrequenciesAsWritten | search-server/search_server.cpp:56-61 | Fails with out_of_range iff the document exists and has no non-stop word. Otherwise it agrees with GetWordFrequencies. |
| Server.SearchServer.RemoveDocument | search-server/search_server.cpp:63-73 | An unknown id changes nothing. Otherwise the id leaves the documents, the id set, the transpose map and every posting list, which keep their words. Every other posting is unchanged, and the invariant holds. |
| Server.SearchServer.RemoveDocumentAsWritten | search-server/search_server.cpp:63-73 | Fails with out_of_range iff the document exists and has no non-stop word. Either way the document, its id and its words are removed and the stop words stay. On failure the posting lists are untouched. On success the id leaves the posting list of each of its words, as in RemoveDocument. |
| Server.SearchServer.RemoveDocumentWithPolicyAsWritten | search-server/search_server.h:134-153 | Fails with out_of_range iff the document exists and has no non-stop word, and then its id stays in the id set after the document is gone, while both index maps and the document's words are untouched. Otherwise the documents, the id set, the words, the transpose map and the posting lists are exactly as RemoveDocument leaves them, and the invariant holds. |
| Server.SearchServer.FindTopDocuments | search-server/search_server.h:66-84 | Fails iff the query is rejected. Otherwise the result is a top result for the sequenced parse of the query. |
| Server.SearchServer.FindTopDocumentsByStatus | search-server/search_server.cpp:22-26 | The status overload: a top result for "status equals", so every returned document has that status. |
| Server.SearchServer.FindTopDocumentsActual | search-server/search_server.cpp:28-30 | The default overload returns only ACTUAL documents. |
| Server.SearchServer.AnyPresent | search-server/search_server.h:106-111 | `any_of` over the minus words holds iff the document holds one of them. |
| Server.SearchServer.CopyPresent | search-server/search_server.h:115-120 | `copy_if` keeps the plus words the document holds, in order. |
| Server.SearchServer.MatchDocumentWithPolicy | search-server/search_server.h:97-128 | An unknown id is rejected before the query is parsed. If the document holds a minus word, the word list is empty. Otherwise the list is exactly the plus words the document holds, strictly ascending. It comes with the document's status, under either policy. |
| Server.SearchServer.MatchDocument | search-server/search_server.cpp:32-54 | The query is checked first, and the missing document is detected only at `.at` (out_of_range). On success the result is the same as with a policy. |
| Server.SearchServer.OccursIffIndexed | search-server/search_server.cpp:14-17 | A stored document is in a word's posting list exactly when the word is one of the document's indexed words. |
| Server.SearchServer.OwnTextMatches | search-server/search_server.cpp:32-54 | A stored document matched against its own text, with no word starting with '-', reports a word exactly when it is one of the document's non-stop words. |
| Server.AddThenMatchOwnText | search-server/search_server.cpp:32-54 | Adding a document and matching its own text against it gives its distinct non-stop words, sorted, with its status, when no word of the text starts with '-'. |
| Server.MinusWordOwnText | search-server/search_server.h:204-207 | The document "-x" is accepted and its one non-stop word is "-x", but the query "-x" is the minus word "x", so matching the document against its own text reports no word. |
| Server.BareMinusOwnText | search-server/search_server.h:208-210 | A bare "-" is accepted as a document word and rejected as a query word with invalid_argument. |
| Server.SearchServer.FrequencyKeys | search-server/search_server.cpp:134-137 | The keys of GetWordFrequencies are the document's distinct non-stop words. |
| Server.FindDuplicates | search-server/search_server.cpp:131-143 | Scanning ids in ascending order, with the corrected GetWordFrequencies, marks exactly the documents whose word set belongs to a lower id. |
| Server.FindDuplicatesAsWritten | search-server/search_server.cpp:131-143 | The scan as written, reading words with GetWordFrequencies as written, fails with out_of_range iff some document has no non-stop word. Otherwise it marks exactly the duplicates. |
| Server.RemoveEach | search-server/search_server.cpp:145-148 | Removing every marked id removes exactly those documents and their indexed words, keeps the stop words, and keeps the invariant. |
| Server.RemoveDuplicates | search-server/search_server.cpp:129-149 | The corrected form: exactly the duplicates are removed. The other documents keep their data and their indexed words, in order and with repeats, so their term frequencies are unchanged. The stop words are unchanged. A document without non-stop words has the empty word set, so only the lowest-id one of those stays. |
| Server.RemoveDuplicatesAsWritten | search-server/search_server.cpp:129-149 | Fails with out_of_range iff some document has no non-stop word, and then nothing changes. Otherwise it removes exactly the duplicates and leaves the survivors' data, their indexed words and the stop words as they were, as RemoveDuplicates does. |
| Server.DuplicatesLeaveDistinct | search-server/search_server.cpp:129-149 | Afterwards no two remaining documents have the same word set. |
| Server.LowestSurvives | search-server/search_server.cpp:133-143 | Every word set keeps a document: the lowest id that has it. |
| Server.ErasePostingsOf | search-server/search_server.cpp:69-71 | The loop erases the id from the posting list of each of the document's words. |
| Server.StopWordsOnlyDocument | search-server/search_server.cpp:56-73 | A document made only of stop words is accepted, and then GetWordFrequencies, RemoveDuplicates and RemoveDocument, as written, fail on it with out_of_range. |
| Requests.Window | search-server/request_queue.cpp:14-26 | The last day's requests are at most 1440, stamped with consecutive minutes ending now, each less than a day old. Their sizes are the last day of the history. |
| Requests.WindowStep | search-server/request_queue.cpp:17-23 | A new request removes at most the oldest one, only when the window is full, and is appended at the back. |
| Requests.DropExpired | search-server/request_queue.cpp:17-21 | The eviction loop drops the oldest request exactly when the window is full. The counter still counts the empty results among those kept. |
| Requests.Admit | search-server/request_queue.cpp:22-25 | Appending the new request gives the next window, and counting it if empty gives the next count. |
| Requests.RequestQueue.constructor | search-server/request_queue.h:7-10 | A new queue has no requests, a zero count and time 0. |
| Requests.RequestQueue.AddRequest | search-server/request_queue.cpp:14-26 | The clock advances by one. The queue becomes the last day's requests with the new one, and the counter equals the number of empty results among them. |
| Requests.RequestQueue.GetNoResultRequests | search-server/request_queue.h:22-24 | The number of empty results among the last day's requests, between 0 and 1440. |
| Requests.RequestQueue.AddFindRequest | search-server/request_queue.h:12-17 | Returns what FindTopDocuments returns. A successful search records one request of that size. A rejected query records nothing. |
| Requests.RequestQueue.AddFindRequestByStatus | search-server/request_queue.cpp:3-7 | The status overload filters by status equality. |
| Requests.RequestQueue.AddFindRequestActual | search-server/request_queue.cpp:9-11 | The default overload uses ACTUAL. |
| Pagination.IteratorRange.Size | search-server/paginator.h:27-29 | The size is the distance from begin to end. |
| Pagination.IteratorRange.Items | search-server/paginator.h:21-29 | A range shows exactly the elements from begin up to end. |
| Pagination.TilesInside | search-server/paginator.h:50-60 | Pages that tile a range lie inside it, and none is empty. |
| Pagination.FullPageCountIsQuotient | search-server/paginator.h:47-48 | The number of full pages is n / page_size, and the page count is n / page_size, plus one if there is a remainder. |
| Pagination.PagesShape | search-server/paginator.h:50-60 | The pages are contiguous, in order, and cover the range. All but the last have exactly page_size elements, and the last is not longer. |
| Pagination.PagesCount | search-server/paginator.h:47-60 | There are ⌈n / page_size⌉ pages, so an empty range has none. |
| Pagination.PagesUnique | search-server/paginator.h:50-60 | Any tiling by full pages followed by one shorter page is this one. |
| Pagination.PagesFront | search-server/paginator.h:50-55 | While a full page fits, the next page is a full page. This is the first equation of `Pages`, unfolded as a step for the constructor's loop proof. It adds no fact beyond that definition. |
| Pagination.PagesLast | search-server/paginator.h:57-60 | A non-empty remainder becomes one last page, and an empty remainder adds none. This is the second equation of `Pages`, unfolded in the same way for the loop's last step. |
| Pagination.FlattenTiles | search-server/paginator.h:50-60 | The concatenated contents of tiling pages are the range's contents. |
| Pagination.Paginator.constructor | search-server/paginator.h:44-61 | Requires end ≥ begin and page_size ≠ 0. The loop builds exactly these pages: full pages, then the remainder page if any. |
| Pagination.Paginator.Size | search-server/paginator.h:68-70 | The number of pages. |
| Pagination.Paginate | search-server/paginator.h:73-76 | Paginates the whole container. |
| Pagination.PagesCoverContainer | search-server/paginator.h:44-76 | Paginating a container gives ⌈n / page_size⌉ pages inside it, whose concatenation is the container. |

## Left out

- The value of the inverse document frequency (`log` at search_server.h:267-269) is left out: no floating point. It is a parameter of every search.
  - A posting list that removal leaves empty still keeps its word. Its IDF would divide by zero, but no document of that list gains anything from it. In the model the parameter is never applied to a document for such a list.
- The EPSILON tolerance of the comparator (search_server.h:72) is left out: it is not a transitive order. Relevances are compared exactly.
- The ranking order among documents of equal relevance and rating is left open: `std::sort` is not stable. The model proves only that ranks descend, and `SortByRank` is an insertion sort.
- Execution policies are modelled as their sequential meaning, and these are left out:
  - the thread fan-out of `ForEach` (search_server.h:320-353);
  - `ConcurrentMap`;
  - the parallel `any_of`, `copy_if` and `for_each`;
  - `process_queries.cpp`.
  
  `ExecutionPolicy` only selects whether `ParseQuery` deduplicates.
- In `MatchDocument(policy)` (search_server.h:115-126), the vector of `plus_words.size()` empty entries that `copy_if` fills is not modelled. With a sequenced policy given as an rvalue it would keep its empty trailing entries. The model always returns just the matched words, as a sequenced policy given as an lvalue does (the `const&` type makes the sort/unique branch run).
- `string_view` and the `words_` deque that keeps the strings alive (search_server.h:161) are left out: words are owned strings.
- Console I/O and the unit tests are left out:
  - the `cout` line in `RemoveDuplicates` (search_server.cpp:146);
  - `operator<<` for `IteratorRange` (paginator.h:32-38);
  - `ReadLine`/`ReadLineWithNumber`;
  - the `ASSERT`/`RUN_TEST` macros and the tests built on them.
- Overflow is left out:
  - Integers are unbounded, so the `int` overflow of `std::accumulate` (search_server.cpp:92) and of `curTime` (request_queue.cpp:15) is not modelled.
  - Document ids are `int` without an upper bound.
- `SplitIntoWordsView` and the `.cpp` `SplitIntoWords` have no body in the source. Their use is modelled with the body of main.cpp's `SplitIntoWords`.
- The `.cpp` `ParseQuery` and `ParseQueryWord` (search_server.cpp:96-127), which collect words into sets, are superseded by the header's versions, which the model follows. So is the earlier `SearchServer` in main.cpp (lines 68-245). The `.cpp` `MatchDocument` is modelled on the deduplicated query, which gives the same words as sets do.
- The `sec_in_min_` and `sec_in_day_` constants of `RequestQueue` are left out: nothing uses them.
- The deque of requests and the vector of pages are sequences that the methods reassign; they are not updated element by element in place.
  - The eviction loop is the method `Requests.DropExpired`.
  - RemoveDocument's erase loop is `Server.ErasePostingsOf`.
  - AddDocument's indexing loop is `ServerState.IndexDocument`.
  
  These methods work on values that the class methods then assign.
- Iterators are indices into a sequence. `Paginator` and `IteratorRange` keep index pairs, and `IteratorRange.Items` yields the elements.
- `indexedWords`, a ghost field of `SearchServer`, records each document's non-stop words so that the term frequencies can be stated. The source does not store them.
- Server.RemoveEach: states the documents, their words and the stop words that remain, and the invariant. It does not restate the two index maps, which follow from the invariant.

## Findings

| source | as written | input that shows it | evidently intended | confidence | as-written member | corrected member |
|---|---|---|---|---|---|---|
| search-server/search_server.cpp:56-61 | For a stored document, `GetWordFrequencies` returns `document_to_word_freqs_.at(id)`. A document whose words are all stop words, or whose text is empty, never gets a row there (the loop at lines 14-17 does not run), so `.at` throws `out_of_range`. `RemoveDuplicates` reads every document's words this way (line 135), so it throws for such a document before it removes anything. | stop words {"in"}; `AddDocument(1, "in", ACTUAL, {})`; `GetWordFrequencies(1)`, or `RemoveDuplicates(server)` | An empty frequency map, like the one returned for an unknown id; duplicate removal then treats such documents as having the empty word set. | high, not executed | Server.SearchServer.GetWordFrequenciesAsWritten, Server.RemoveDuplicatesAsWritten, Server.StopWordsOnlyDocument | Server.SearchServer.GetWordFrequencies, Server.RemoveDuplicates |
| search-server/search_server.cpp:63-73 | `RemoveDocument` first erases the document and its id. Then `.at` on the transpose map throws for the same kind of document, so the removal stops part way through. | the same server; `RemoveDocument(1)` | The document is removed, and its id leaves every container. | high, not executed | Server.SearchServer.RemoveDocumentAsWritten, Server.StopWordsOnlyDocument | Server.SearchServer.RemoveDocument |
| search-server/search_server.h:134-153 | `RemoveDocument(policy)` erases from `documents_` first. It then throws at `.at` (line 142) before `document_ids_.erase` (line 152), so the id set, which the server iterates over, still names a document that is gone. | the same server; `RemoveDocument(std::execution::seq, 1)` | The document and its id are both removed. | high, not executed | Server.SearchServer.RemoveDocumentWithPolicyAsWritten | Server.SearchServer.RemoveDocument |
