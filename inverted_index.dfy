/**
 * The two maps of the search server's index and what keeps them
 * consistent: word -> (document id -> term frequency) and its transpose
 * document id -> (word -> term frequency).
 */
module InvertedIndex {
  import opened IdSets

  /** word_to_document_freqs_ */
  type WordIndex = map<string, map<int, real>>

  /** document_to_word_freqs_ */
  type DocIndex = map<int, map<string, real>>

  /** Occurrences of `w` in `ws`. */
  function Count(ws: seq<string>, w: string): nat
  {
    if ws == [] then 0
    else Count(ws[..|ws| - 1], w) + (if ws[|ws| - 1] == w then 1 else 0)
  }

  /** The term frequency of each distinct word: its occurrences over the word count. */
  function TermFreqs(ws: seq<string>): map<string, real>
  {
    map w | w in ws :: Count(ws, w) as real / |ws| as real
  }

  /** The frequencies after adding `inv` once per occurrence, in order, as AddDocument's loop does. */
  function Accumulated(ws: seq<string>, inv: real): map<string, real>
  {
    if ws == [] then map[]
    else
      var before := Accumulated(ws[..|ws| - 1], inv);
      var x := ws[|ws| - 1];
      before[x := FreqOr0(before, x) + inv]
  }

  /** One more occurrence: the prefix of length i + 1 adds `inv` to the entry of ws[i]. */
  lemma AccumulatedNext(ws: seq<string>, i: nat, inv: real)
    requires i < |ws|
    ensures Accumulated(ws[..i + 1], inv) ==
              Accumulated(ws[..i], inv)[ws[i] := FreqOr0(Accumulated(ws[..i], inv), ws[i]) + inv]
  {
    assert ws[..i + 1][..i] == ws[..i];
  }

  /** The value std::map::operator[] finds: the stored one, or a fresh zero. */
  function FreqOr0<K>(m: map<K, real>, k: K): real
  {
    if k in m then m[k] else 0.0
  }

  function PostingsOf(index: WordIndex, w: string): map<int, real>
  {
    if w in index then index[w] else map[]
  }

  lemma {:induction false} CountAppend(ws: seq<string>, x: string, w: string)
    ensures Count(ws + [x], w) == Count(ws, w) + (if x == w then 1 else 0)
  {
    assert (ws + [x])[..|ws|] == ws;
  }

  lemma {:induction false} CountPositive(ws: seq<string>, w: string)
    ensures w in ws <==> Count(ws, w) > 0
  {
    if ws != [] {
      var init := ws[..|ws| - 1];
      CountPositive(init, w);
      assert ws == init + [ws[|ws| - 1]];
    }
  }

  /** Adding `inv` per occurrence leaves each word at its count times `inv`. */
  lemma AccumulatedCounts(ws: seq<string>, inv: real, w: string)
    ensures w in Accumulated(ws, inv) <==> w in ws
    ensures w in ws ==> Accumulated(ws, inv)[w] == Count(ws, w) as real * inv
  {
    AccumulatedKeys(ws, inv, w);
    if w in ws {
      AccumulatedValue(ws, inv, w);
    }
  }

  /** The accumulated map has an entry for exactly the words that occur. */
  lemma {:induction false} AccumulatedKeys(ws: seq<string>, inv: real, w: string)
    ensures w in Accumulated(ws, inv) <==> w in ws
  {
    if ws != [] {
      LastMembers(ws, w);
      AccumulatedKeys(ws[..|ws| - 1], inv, w);
    }
  }

  /** The entry of a word is its count times `inv`. */
  lemma {:induction false} AccumulatedValue(ws: seq<string>, inv: real, w: string)
    requires w in ws
    ensures w in Accumulated(ws, inv) && Accumulated(ws, inv)[w] == Count(ws, w) as real * inv
  {
    var init := ws[..|ws| - 1];
    var x := ws[|ws| - 1];
    var before := Accumulated(init, inv);
    var c := Count(init, w);
    LastMembers(ws, w);
    AccumulatedKeys(init, inv, w);
    CountPositive(init, w);
    if w in init {
      AccumulatedValue(init, inv, w);
    }
    OneMore(before, x, w, c, inv);
    assert Accumulated(ws, inv) == before[x := FreqOr0(before, x) + inv];
    assert Count(ws, w) == c + if x == w then 1 else 0;
  }

  /** A word is in a non-empty sequence when it is in the front part or is the last one. */
  lemma LastMembers(ws: seq<string>, w: string)
    requires ws != []
    ensures w in ws <==> w in ws[..|ws| - 1] || w == ws[|ws| - 1]
  {
    assert ws == ws[..|ws| - 1] + [ws[|ws| - 1]];
  }

  /** Adding `inv` for an occurrence of x to a map holding c occurrences of w times `inv`. */
  lemma OneMore(before: map<string, real>, x: string, w: string, c: nat, inv: real)
    requires w in before || x == w
    requires w in before ==> before[w] == c as real * inv
    requires w !in before ==> c == 0
    ensures w in before[x := FreqOr0(before, x) + inv]
    ensures before[x := FreqOr0(before, x) + inv][w] == (c + if x == w then 1 else 0) as real * inv
  {
    if x == w {
      Distribute(c as real, inv);
    }
  }

  lemma Distribute(c: real, inv: real)
    ensures (c + 1.0) * inv == c * inv + inv
  {
  }

  /** After the whole loop with inv = 1/n the entries are exactly the term frequencies. */
  lemma AccumulatedIsTermFreqs(ws: seq<string>)
    requires ws != []
    ensures Accumulated(ws, 1.0 / |ws| as real) == TermFreqs(ws)
  {
    var n := |ws| as real;
    var inv := 1.0 / n;
    var a := Accumulated(ws, inv);
    var t := TermFreqs(ws);
    forall w ensures w in a <==> w in t {
      AccumulatedCounts(ws, inv, w);
    }
    forall w | w in a ensures a[w] == t[w] {
      AccumulatedEntry(ws, n, w);
    }
    MapsAgree(a, t);
  }

  lemma AccumulatedEntry(ws: seq<string>, n: real, w: string)
    requires n == |ws| as real && n != 0.0
    requires w in ws
    ensures w in Accumulated(ws, 1.0 / n) && Accumulated(ws, 1.0 / n)[w] == TermFreqs(ws)[w]
  {
    var c := Count(ws, w) as real;
    AccumulatedCounts(ws, 1.0 / n, w);
    TermFreqEntry(ws, w);
    TimesInverse(c, n);
  }

  lemma TermFreqEntry(ws: seq<string>, w: string)
    requires w in ws
    ensures w in TermFreqs(ws) && TermFreqs(ws)[w] == Count(ws, w) as real / |ws| as real
  {
  }

  lemma MapsAgree(a: map<string, real>, b: map<string, real>)
    requires forall w :: w in a <==> w in b
    requires forall w :: w in a ==> a[w] == b[w]
    ensures a == b
  {
  }

  lemma TimesInverse(c: real, n: real)
    requires n != 0.0
    ensures c * (1.0 / n) == c / n
  {
  }

  lemma AddFractions(a: real, b: real, n: real)
    requires n != 0.0
    ensures a / n + b / n == (a + b) / n
  {
  }

  /** Every term frequency lies in (0, 1]. */
  lemma {:induction false} TermFreqBounds(ws: seq<string>, w: string)
    requires w in ws
    ensures 0.0 < TermFreqs(ws)[w] <= 1.0
  {
    CountPositive(ws, w);
    CountAtMostLength(ws, w);
    FractionBounds(Count(ws, w) as real, |ws| as real);
  }

  lemma FractionBounds(c: real, n: real)
    requires 0.0 < c <= n
    ensures 0.0 < c / n <= 1.0
  {
  }

  lemma {:induction false} CountAtMostLength(ws: seq<string>, w: string)
    ensures Count(ws, w) <= |ws|
  {
    if ws != [] {
      CountAtMostLength(ws[..|ws| - 1], w);
    }
  }

  predicate NoDuplicates(keys: seq<string>)
  {
    forall i, j :: 0 <= i < j < |keys| ==> keys[i] != keys[j]
  }

  /** The sum of `m` over the given keys. */
  function SumAt(keys: seq<string>, m: map<string, real>): real
    requires forall k :: k in keys ==> k in m
  {
    if keys == [] then 0.0 else m[keys[0]] + SumAt(keys[1..], m)
  }

  function CountSum(keys: seq<string>, ws: seq<string>): nat
  {
    if keys == [] then 0 else Count(ws, keys[0]) + CountSum(keys[1..], ws)
  }

  /** `ws` without the occurrences of `x`. */
  function Without(ws: seq<string>, x: string): seq<string>
  {
    if ws == [] then []
    else Without(ws[..|ws| - 1], x) + (if ws[|ws| - 1] == x then [] else [ws[|ws| - 1]])
  }

  lemma {:induction false} WithoutCounts(ws: seq<string>, x: string)
    ensures |Without(ws, x)| + Count(ws, x) == |ws|
    ensures forall k :: k != x ==> Count(Without(ws, x), k) == Count(ws, k)
    ensures forall k :: k in Without(ws, x) <==> k in ws && k != x
  {
    if ws != [] {
      var init := ws[..|ws| - 1];
      var last := ws[|ws| - 1];
      WithoutCounts(init, x);
      assert ws == init + [last];
      forall k | k != x ensures Count(Without(ws, x), k) == Count(ws, k) {
        if last != x {
          CountAppend(Without(init, x), last, k);
        } else {
          assert Without(ws, x) == Without(init, x);
        }
        CountAppend(init, last, k);
      }
    }
  }

  lemma {:induction false} CountSumCongruent(keys: seq<string>, a: seq<string>, b: seq<string>)
    requires forall k :: k in keys ==> Count(a, k) == Count(b, k)
    ensures CountSum(keys, a) == CountSum(keys, b)
  {
    if keys != [] {
      CountSumCongruent(keys[1..], a, b);
    }
  }

  /** Counting every distinct word once accounts for every occurrence. */
  lemma {:induction false} CountSumIsLength(keys: seq<string>, ws: seq<string>)
    requires NoDuplicates(keys)
    requires forall w :: w in ws ==> w in keys
    ensures CountSum(keys, ws) == |ws|
  {
    if keys == [] {
      FirstIsElement(ws);
    } else {
      var k0, rest := keys[0], keys[1..];
      var others := Without(ws, k0);
      WithoutCounts(ws, k0);
      assert k0 !in rest by {
        forall j | 0 <= j < |rest| ensures rest[j] != k0 { assert rest[j] == keys[j + 1]; }
      }
      CountSumCongruent(rest, ws, others);
      forall w | w in others ensures w in rest {
        var j :| 0 <= j < |keys| && keys[j] == w;
        assert j > 0;
        assert rest[j - 1] == w;
      }
      CountSumIsLength(rest, others);
    }
  }

  lemma {:induction false} SumAtTermFreqs(keys: seq<string>, ws: seq<string>)
    requires ws != []
    requires forall k :: k in keys ==> k in ws
    ensures SumAt(keys, TermFreqs(ws)) == CountSum(keys, ws) as real / |ws| as real
  {
    if keys != [] {
      SumAtTermFreqs(keys[1..], ws);
      var n := |ws| as real;
      var c0 := Count(ws, keys[0]) as real;
      var rest := CountSum(keys[1..], ws) as real;
      assert TermFreqs(ws)[keys[0]] == c0 / n;
      AddFractions(c0, rest, n);
    }
  }

  /**
   * The term frequencies of a document with at least one word sum to 1,
   * over any enumeration of its distinct words.
   */
  lemma TermFreqsSumToOne(ws: seq<string>, keys: seq<string>)
    requires ws != []
    requires NoDuplicates(keys)
    requires forall k :: k in keys <==> k in TermFreqs(ws)
    ensures SumAt(keys, TermFreqs(ws)) == 1.0
  {
    assert forall k :: k in keys <==> k in ws;
    SumAtTermFreqs(keys, ws);
    CountSumIsLength(keys, ws);
    DivSelf(|ws| as real);
  }

  lemma DivSelf(n: real)
    requires n != 0.0
    ensures n / n == 1.0
  {
  }

  /**
   * A term/document pair is in one map iff it is in the other, with the
   * same frequency.
   */
  ghost predicate Transposed(words: WordIndex, docs: DocIndex)
  {
    && (forall w, id :: w in words && id in words[w] ==>
          id in docs && w in docs[id] && docs[id][w] == words[w][id])
    && (forall id, w :: id in docs && w in docs[id] ==>
          w in words && id in words[w])
  }

  /** The posting lists with document `id` added under each of its words. */
  function AddPostings(words: WordIndex, id: int, tf: map<string, real>): WordIndex
  {
    map w | w in words.Keys + tf.Keys ::
      if w in tf then PostingsOf(words, w)[id := tf[w]] else words[w]
  }

  /** The posting lists with `id` erased from the lists of the given words. */
  function ErasePostings(words: WordIndex, id: int, erased: set<string>): WordIndex
  {
    map w | w in words :: if w in erased then words[w] - {id} else words[w]
  }

  /** Adding one more word occurrence to the document being indexed. */
  lemma AddPostingsStep(words: WordIndex, id: int, tf: map<string, real>, x: string, v: real)
    ensures AddPostings(words, id, tf[x := v]) ==
              AddPostings(words, id, tf)[x := PostingsOf(words, x)[id := v]]
  {
  }

  /**
   * One `+=` into the posting list of `w` (std::map::operator[] creating
   * what is missing), for a document not yet in any posting list.
   */
  lemma AddOccurrence(words: WordIndex, id: int, tf: map<string, real>, w: string, inv: real,
                      current: WordIndex, postings: map<int, real>, tf': map<string, real>, current': WordIndex)
    requires forall x :: x in words ==> id !in words[x]
    requires current == AddPostings(words, id, tf)
    requires postings == PostingsOf(current, w)
    requires tf' == tf[w := FreqOr0(tf, w) + inv]
    requires current' == current[w := postings[id := FreqOr0(postings, id) + inv]]
    ensures current' == AddPostings(words, id, tf')
  {
    var v := FreqOr0(tf, w) + inv;
    PostingsOfAdded(words, id, tf, w);
    if w in tf {
      assert postings == PostingsOf(words, w)[id := tf[w]];
      assert postings[id := tf[w] + inv] == PostingsOf(words, w)[id := v];
    } else {
      assert postings == PostingsOf(words, w);
      assert id !in postings;
    }
    assert current' == current[w := PostingsOf(words, w)[id := v]];
    assert tf' == tf[w := v];
    AddPostingsStep(words, id, tf, w, v);
  }

  /** The posting list of a word after AddPostings: the old one, with the document added if it has the word. */
  lemma PostingsOfAdded(words: WordIndex, id: int, tf: map<string, real>, w: string)
    ensures PostingsOf(AddPostings(words, id, tf), w) ==
              if w in tf then PostingsOf(words, w)[id := tf[w]] else PostingsOf(words, w)
  {
  }

  lemma EraseNothing(words: WordIndex, id: int)
    ensures ErasePostings(words, id, {}) == words
  {
  }

  lemma AddNothing(words: WordIndex, id: int)
    ensures AddPostings(words, id, map[]) == words
  {
  }

  /** Indexing a new document under both maps keeps them transposes of each other. */
  lemma AddKeepsTransposed(words: WordIndex, docs: DocIndex, id: int, tf: map<string, real>)
    requires Transposed(words, docs)
    requires id !in docs
    ensures Transposed(AddPostings(words, id, tf), docs[id := tf])
  {
    var words' := AddPostings(words, id, tf);
    var docs' := docs[id := tf];
    forall w, d | w in words' && d in words'[w]
      ensures d in docs' && w in docs'[d] && docs'[d][w] == words'[w][d]
    {
      if d != id {
        assert w in words && d in words[w];
      }
    }
  }

  /** Removing a document from both maps keeps them transposes and leaves no trace of it. */
  lemma EraseKeepsTransposed(words: WordIndex, docs: DocIndex, id: int)
    requires Transposed(words, docs)
    ensures var erased := if id in docs then docs[id].Keys else {};
            var words' := ErasePostings(words, id, erased);
            && Transposed(words', docs - {id})
            && words'.Keys == words.Keys
            && (forall w :: w in words' ==> id !in words'[w])
            && (forall w, d :: w in words && d in words[w] && d != id ==>
                  d in words'[w] && words'[w][d] == words[w][d])
  {
  }

  /** Erasing from one more posting list. */
  lemma EraseStep(words: WordIndex, id: int, erased: set<string>, w: string)
    requires w in words
    ensures ErasePostings(words, id, erased + {w}) ==
              ErasePostings(words, id, erased)[w := words[w] - {id}]
  {
  }
}
