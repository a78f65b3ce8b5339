/**
 * Query parsing: query words, the plus/minus split, validation, silent
 * stop-word dropping and deduplication.  The stop-word set of the server
 * is passed in explicitly.
 */
module Queries {
  import opened Wrappers
  import opened Documents
  import opened Lexicographic
  import opened StringProcessing

  /** A word is valid when none of its characters is a control character (below ' '). */
  predicate IsValidWord(word: string)
  {
    forall i :: 0 <= i < |word| ==> !('\0' <= word[i] < ' ')
  }

  /** A term that may follow an optional leading '-' in a query. */
  predicate IsQueryTerm(w: string)
  {
    w != [] && w[0] != '-' && IsValidWord(w)
  }

  datatype QueryWord = QueryWord(data: string, isMinus: bool, isStop: bool)

  /** The query text a parsed word stands for. */
  function Render(q: QueryWord): string
  {
    (if q.isMinus then "-" else "") + q.data
  }

  /**
   * ParseQueryWord: strips one leading '-' (marking the word as a minus
   * word) and rejects an empty word, a bare "-", a second leading '-' and
   * control characters.
   */
  function ParseQueryWord(text: string, stopWords: set<string>): (r: Result<QueryWord, Error>)
    ensures r.Success? ==> Render(r.value) == text && IsQueryTerm(r.value.data)
    ensures r.Success? ==> (r.value.isStop <==> r.value.data in stopWords)
    ensures r.Failure? ==> (r.error == EmptyQueryWord <==> text == [])
    ensures r.Failure? ==> r.error == EmptyQueryWord || r.error == InvalidQueryWord
  {
    if text == [] then Failure(EmptyQueryWord)
    else
      var isMinus := text[0] == '-';
      var word := if isMinus then text[1..] else text;
      if word == [] || word[0] == '-' || !IsValidWord(word) then Failure(InvalidQueryWord)
      else Success(QueryWord(word, isMinus, word in stopWords))
  }

  /** Every well-formed query word parses back to itself. */
  lemma ParseRendered(q: QueryWord, stopWords: set<string>)
    requires IsQueryTerm(q.data)
    ensures ParseQueryWord(Render(q), stopWords) == Success(QueryWord(q.data, q.isMinus, q.data in stopWords))
  {
    if q.isMinus {
      assert Render(q)[1..] == q.data;
    } else {
      assert Render(q) == q.data;
    }
  }

  /** A word that a query reads as a minus word (or rejects, when nothing valid follows the '-'). */
  predicate StartsWithMinus(w: string)
  {
    w != [] && w[0] == '-'
  }

  /** A text of non-empty valid words, none starting with '-', is an accepted query. */
  lemma PlainWordsParse(tokens: seq<string>, stopWords: set<string>)
    requires forall t :: t in tokens ==> t != [] && !StartsWithMinus(t) && IsValidWord(t)
    ensures QueryError(tokens, stopWords) == None
  {
    QueryErrorIffBadWord(tokens, stopWords);
  }

  datatype Query = Query(plusWords: seq<string>, minusWords: seq<string>)

  datatype ExecutionPolicy = Sequenced | Parallel

  /** The error of the first query word that fails to parse, if any. */
  function QueryError(tokens: seq<string>, stopWords: set<string>): Option<Error>
  {
    if tokens == [] then None
    else
      var earlier := QueryError(tokens[..|tokens| - 1], stopWords);
      var last := ParseQueryWord(tokens[|tokens| - 1], stopWords);
      if earlier.Some? then earlier
      else if last.Failure? then Some(last.error)
      else None
  }

  /** The query is rejected exactly when one of its words is. */
  lemma {:induction false} QueryErrorIffBadWord(tokens: seq<string>, stopWords: set<string>)
    ensures QueryError(tokens, stopWords).Some? <==> HasRejected(tokens, stopWords)
  {
    if tokens != [] {
      var n := |tokens| - 1;
      QueryErrorIffBadWord(tokens[..n], stopWords);
      QueryErrorStep(tokens, stopWords);
      HasRejectedStep(tokens, stopWords);
    }
  }

  /** Some word of the query fails to parse. */
  ghost predicate HasRejected(tokens: seq<string>, stopWords: set<string>)
  {
    exists t :: t in tokens && Rejected(t, stopWords)
  }

  lemma QueryErrorStep(tokens: seq<string>, stopWords: set<string>)
    requires tokens != []
    ensures QueryError(tokens, stopWords).Some? <==>
              QueryError(tokens[..|tokens| - 1], stopWords).Some? || Rejected(tokens[|tokens| - 1], stopWords)
  {
  }

  lemma HasRejectedStep(tokens: seq<string>, stopWords: set<string>)
    requires tokens != []
    ensures HasRejected(tokens, stopWords) <==>
              HasRejected(tokens[..|tokens| - 1], stopWords) || Rejected(tokens[|tokens| - 1], stopWords)
  {
    var n := |tokens| - 1;
    var init, last := tokens[..n], tokens[n];
    assert tokens == init + [last];
    assert forall t :: t in tokens <==> t in init || t == last;
  }

  predicate Rejected(text: string, stopWords: set<string>)
  {
    ParseQueryWord(text, stopWords).Failure?
  }

  /**
   * The data of the non-stop words of the query that are minus words
   * (`minus`) or plus words (`!minus`), in query order, repeats included.
   */
  function QueryTerms(tokens: seq<string>, stopWords: set<string>, minus: bool): seq<string>
  {
    if tokens == [] then []
    else
      var init := QueryTerms(tokens[..|tokens| - 1], stopWords, minus);
      var last := ParseQueryWord(tokens[|tokens| - 1], stopWords);
      if last.Success? && !last.value.isStop && last.value.isMinus == minus
      then init + [last.value.data]
      else init
  }

  /**
   * A plus term is a query word that is a well-formed non-stop term; a
   * minus term is one that occurs with a single '-' in front.  Stop words
   * never survive.
   */
  lemma {:induction false} QueryTermsMembers(tokens: seq<string>, stopWords: set<string>, minus: bool, w: string)
    ensures w in QueryTerms(tokens, stopWords, minus) <==>
              IsQueryTerm(w) && w !in stopWords && Render(QueryWord(w, minus, false)) in tokens
  {
    if tokens != [] {
      var n := |tokens| - 1;
      var init := tokens[..n];
      var last := tokens[n];
      QueryTermsMembers(init, stopWords, minus, w);
      assert tokens == init + [last];
      var text := Render(QueryWord(w, minus, false));
      var p := ParseQueryWord(last, stopWords);
      var keep := p.Success? && !p.value.isStop && p.value.isMinus == minus;
      assert QueryTerms(tokens, stopWords, minus) ==
               QueryTerms(init, stopWords, minus) + (if keep then [p.value.data] else []);
      assert w in QueryTerms(tokens, stopWords, minus) <==>
               w in QueryTerms(init, stopWords, minus) || (keep && p.value.data == w);
      assert text in tokens <==> text in init || text == last;
      if IsQueryTerm(w) && text == last {
        ParseRendered(QueryWord(w, minus, false), stopWords);
      }
      if keep && p.value.data == w {
        assert Render(p.value) == last;
      }
    }
  }

  /**
   * The parsed query.  The sequenced path sorts and deduplicates both
   * lists; the parallel path keeps them in query order.
   */
  function ParsedQuery(tokens: seq<string>, stopWords: set<string>, policy: ExecutionPolicy): Query
  {
    var plus := QueryTerms(tokens, stopWords, false);
    var minus := QueryTerms(tokens, stopWords, true);
    if policy == Sequenced then Query(SortedUnique(plus), SortedUnique(minus))
    else Query(plus, minus)
  }

  /** Both paths see the same plus and minus words. */
  lemma PoliciesAgreeOnWords(tokens: seq<string>, stopWords: set<string>, w: string)
    ensures w in ParsedQuery(tokens, stopWords, Sequenced).plusWords <==>
            w in ParsedQuery(tokens, stopWords, Parallel).plusWords
    ensures w in ParsedQuery(tokens, stopWords, Sequenced).minusWords <==>
            w in ParsedQuery(tokens, stopWords, Parallel).minusWords
  {
  }

  /** A strictly ascending list with `w` put in its place, when `w` is not in it. */
  lemma InsertAtIsAscending(s: seq<string>, k: int, w: string)
    requires StrictlyAscending(s)
    requires 0 <= k <= |s|
    requires forall m :: 0 <= m < k ==> Less(s[m], w)
    requires k < |s| ==> s[k] != w && !Less(s[k], w)
    ensures StrictlyAscending(s[..k] + [w] + s[k..])
  {
    var t := s[..k] + [w] + s[k..];
    if k < |s| {
      LessTotal(s[k], w);
    }
    forall i, j | 0 <= i < j < |t| ensures Less(t[i], t[j]) {
      if j == k {
      } else if i == k {
        assert t[j] == s[j - 1];
        if j - 1 > k {
          LessTransitive(w, s[k], s[j - 1]);
        }
      } else if i < k && j > k {
        assert t[j] == s[j - 1];
        if j - 1 > k {
          LessTransitive(s[i], s[k], s[j - 1]);
          LessTransitive(s[i], w, s[k]);
        } else {
          LessTransitive(s[i], w, s[k]);
        }
      } else if i > k {
        assert t[i] == s[i - 1] && t[j] == s[j - 1];
      }
    }
  }

  /** Query::RemoveDuplicates for one word list: std::sort, std::unique, resize. */
  method RemoveDuplicateWords(words: seq<string>) returns (r: seq<string>)
    ensures r == SortedUnique(words)
  {
    r := [];
    for i := 0 to |words|
      invariant r == SortedUnique(words[..i])
    {
      var w := words[i];
      var k := 0;
      while k < |r| && Less(r[k], w)
        invariant 0 <= k <= |r|
        invariant forall m :: 0 <= m < k ==> Less(r[m], w)
      {
        k := k + 1;
      }
      var next := r;
      if k == |r| || r[k] != w {
        InsertAtIsAscending(r, k, w);
        next := r[..k] + [w] + r[k..];
        assert forall x :: x in next <==> x in r || x == w by {
          assert r == r[..k] + r[k..];
        }
      }
      assert words[..i + 1][..i] == words[..i];
      AscendingUnique(next, SortedUnique(words[..i + 1]));
      r := next;
    }
    assert words[..|words|] == words;
  }

  /** Query::RemoveDuplicates: both lists sorted and deduplicated. */
  method RemoveDuplicates(query: Query) returns (r: Query)
    ensures r == Query(SortedUnique(query.plusWords), SortedUnique(query.minusWords))
  {
    var plus := RemoveDuplicateWords(query.plusWords);
    var minus := RemoveDuplicateWords(query.minusWords);
    r := Query(plus, minus);
  }

  /**
   * ParseQuery: splits the text, parses every word (the first bad word
   * aborts the parse), drops stop words, and on the sequenced path removes
   * duplicates.
   */
  method ParseQuery(text: string, stopWords: set<string>, policy: ExecutionPolicy) returns (r: Result<Query, Error>)
    ensures r.Failure? <==> QueryError(Words(text), stopWords).Some?
    ensures r.Failure? ==> r.error == QueryError(Words(text), stopWords).value
    ensures r.Success? ==> r.value == ParsedQuery(Words(text), stopWords, policy)
  {
    var tokens := SplitIntoWords(text);
    var plus: seq<string> := [];
    var minus: seq<string> := [];
    for i := 0 to |tokens|
      invariant QueryError(tokens[..i], stopWords).None?
      invariant plus == QueryTerms(tokens[..i], stopWords, false)
      invariant minus == QueryTerms(tokens[..i], stopWords, true)
    {
      assert tokens[..i + 1][..i] == tokens[..i];
      var queryWord := ParseQueryWord(tokens[i], stopWords);
      if queryWord.Failure? {
        PrefixError(tokens, i + 1, stopWords);
        return Failure(queryWord.error);
      }
      if !queryWord.value.isStop {
        if queryWord.value.isMinus {
          minus := minus + [queryWord.value.data];
        } else {
          plus := plus + [queryWord.value.data];
        }
      }
    }
    assert tokens[..|tokens|] == tokens;
    var query := Query(plus, minus);
    if policy == Sequenced {
      query := RemoveDuplicates(query);
    }
    r := Success(query);
  }

  /** Once a prefix of the query is rejected, so is the whole query, with the same error. */
  lemma {:induction false} PrefixError(tokens: seq<string>, n: nat, stopWords: set<string>)
    requires n <= |tokens|
    requires QueryError(tokens[..n], stopWords).Some?
    ensures QueryError(tokens, stopWords) == QueryError(tokens[..n], stopWords)
    decreases |tokens| - n
  {
    if n < |tokens| {
      assert tokens[..n + 1][..n] == tokens[..n];
      PrefixError(tokens, n + 1, stopWords);
    } else {
      assert tokens[..n] == tokens;
    }
  }
}
