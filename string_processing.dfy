/**
 * The tokenizer (SplitIntoWords) and the stop-word normalisation
 * (MakeUniqueNonEmptyStrings).  Words are separated by the space character
 * only; every other character, control characters included, stays inside
 * a word.
 */
module StringProcessing {

  /** Length of the run of non-space characters at the front of `s`. */
  function WordLength(s: string): (n: nat)
    ensures n <= |s|
    ensures forall i :: 0 <= i < n ==> s[i] != ' '
    ensures n < |s| ==> s[n] == ' '
  {
    if s == [] || s[0] == ' ' then 0 else 1 + WordLength(s[1..])
  }

  /** The words of `text`: its maximal runs of characters other than ' ', in order. */
  function Words(text: string): (ws: seq<string>)
    ensures forall w :: w in ws ==> w != [] && ' ' !in w
    decreases |text|
  {
    if text == [] then []
    else if text[0] == ' ' then Words(text[1..])
    else
      var n := WordLength(text);
      [text[..n]] + Words(text[n..])
  }

  /** `text` with every space removed. */
  function RemoveSpaces(text: string): string
  {
    if text == [] then []
    else (if text[0] == ' ' then [] else [text[0]]) + RemoveSpaces(text[1..])
  }

  function Concat(ws: seq<string>): string
  {
    if ws == [] then [] else ws[0] + Concat(ws[1..])
  }

  /** The words joined by single spaces. */
  function Join(ws: seq<string>): string
  {
    if ws == [] then []
    else if |ws| == 1 then ws[0]
    else ws[0] + " " + Join(ws[1..])
  }

  predicate IsWord(w: string)
  {
    w != [] && ' ' !in w
  }

  /** A word followed by a space (or by nothing) is split off as one word. */
  lemma {:induction false} WordsOfWordThen(w: string, rest: string)
    requires IsWord(w)
    requires rest == [] || rest[0] == ' '
    ensures Words(w + rest) == [w] + Words(rest)
  {
    WordLengthOfWordThen(w, rest);
    assert (w + rest)[..|w|] == w;
    assert (w + rest)[|w|..] == rest;
  }

  lemma {:induction false} WordLengthOfWordThen(w: string, rest: string)
    requires ' ' !in w
    requires rest == [] || rest[0] == ' '
    ensures WordLength(w + rest) == |w|
  {
    if w != [] {
      assert (w + rest)[1..] == w[1..] + rest;
      WordLengthOfWordThen(w[1..], rest);
    }
  }

  /**
   * SplitIntoWords scans the text once, building the current word
   * character by character and emitting it at each space and at the end.
   */
  method SplitIntoWords(text: string) returns (words: seq<string>)
    ensures words == Words(text)
  {
    words := [];
    var word: string := [];
    SplitStart(text);
    for i := 0 to |text|
      invariant Splitting(text, i, words, word)
    {
      var c := text[i];
      if c == ' ' {
        SplitAtSpace(text, i, words, word);
        if word != [] {
          words := words + [word];
          word := [];
        }
      } else {
        SplitAtChar(text, i, words, word);
        word := word + [c];
      }
    }
    SplitEnd(text, words, word);
    if word != [] {
      words := words + [word];
    }
  }

  /** SplitIntoWords' loop state after i characters: the words so far and the word being built. */
  ghost predicate Splitting(text: string, i: nat, words: seq<string>, word: string)
  {
    i <= |text| && ' ' !in word && words + Words(word + text[i..]) == Words(text)
  }

  lemma SplitStart(text: string)
    ensures Splitting(text, 0, [], [])
  {
    assert [] + text[0..] == text;
  }

  /** A space ends the word being built, if there is one. */
  lemma SplitAtSpace(text: string, i: nat, words: seq<string>, word: string)
    requires i < |text| && text[i] == ' '
    requires Splitting(text, i, words, word)
    ensures Splitting(text, i + 1, if word != [] then words + [word] else words, [])
  {
    assert text[i..] == [' '] + text[i + 1..];
    assert text[i..][1..] == text[i + 1..];
    assert [] + text[i + 1..] == text[i + 1..];
    if word != [] {
      WordsOfWordThen(word, text[i..]);
      assert Words(text[i..]) == Words(text[i + 1..]);
    } else {
      assert word + text[i..] == text[i..];
    }
  }

  /** Any other character extends the word being built. */
  lemma SplitAtChar(text: string, i: nat, words: seq<string>, word: string)
    requires i < |text| && text[i] != ' '
    requires Splitting(text, i, words, word)
    ensures Splitting(text, i + 1, words, word + [text[i]])
  {
    assert text[i..] == [text[i]] + text[i + 1..];
    assert word + text[i..] == (word + [text[i]]) + text[i + 1..];
  }

  /** At the end of the text the word being built, if any, is the last word. */
  lemma SplitEnd(text: string, words: seq<string>, word: string)
    requires Splitting(text, |text|, words, word)
    ensures (if word != [] then words + [word] else words) == Words(text)
  {
    assert text[|text|..] == [] && word + [] == word;
    if word != [] {
      WordsOfWordThen(word, []);
    }
  }

  /** No character other than a space is lost or reordered by the split. */
  lemma {:induction false} WordsKeepCharacters(text: string)
    ensures Concat(Words(text)) == RemoveSpaces(text)
    decreases |text|
  {
    if text == [] {
    } else if text[0] == ' ' {
      WordsKeepCharacters(text[1..]);
    } else {
      var n := WordLength(text);
      WordsKeepCharacters(text[n..]);
      RunHasNoSpaces(text, n);
      assert Concat(Words(text)) == text[..n] + Concat(Words(text[n..]));
    }
  }

  lemma {:induction false} RunHasNoSpaces(text: string, n: nat)
    requires n <= |text|
    requires forall i :: 0 <= i < n ==> text[i] != ' '
    ensures RemoveSpaces(text) == text[..n] + RemoveSpaces(text[n..])
  {
    if n > 0 {
      RunHasNoSpaces(text[1..], n - 1);
      assert text[1..][n - 1..] == text[n..];
      assert [text[0]] + text[1..][..n - 1] == text[..n];
    }
  }

  /** Joining words with single spaces and splitting again gives the words back. */
  lemma {:induction false} SplitJoinRoundTrip(ws: seq<string>)
    requires forall w :: w in ws ==> IsWord(w)
    ensures Words(Join(ws)) == ws
  {
    if ws == [] {
    } else if |ws| == 1 {
      WordsOfWordThen(ws[0], []);
      assert ws[0] + [] == ws[0];
    } else {
      var rest := " " + Join(ws[1..]);
      WordsOfWordThen(ws[0], rest);
      assert ws[0] + " " + Join(ws[1..]) == ws[0] + rest;
      assert rest[1..] == Join(ws[1..]);
      SplitJoinRoundTrip(ws[1..]);
      assert ws == [ws[0]] + ws[1..];
    }
  }

  /** The distinct non-empty strings of the input. */
  function UniqueNonEmpty(strings: seq<string>): set<string>
  {
    set s | s in strings && s != []
  }

  /** MakeUniqueNonEmptyStrings inserts every non-empty input string into a set. */
  method MakeUniqueNonEmptyStrings(strings: seq<string>) returns (nonEmpty: set<string>)
    ensures [] !in nonEmpty
    ensures forall s :: s in nonEmpty <==> s in strings && s != []
  {
    nonEmpty := {};
    for i := 0 to |strings|
      invariant forall s :: s in nonEmpty <==> s in strings[..i] && s != []
    {
      if strings[i] != [] {
        nonEmpty := nonEmpty + {strings[i]};
      }
      assert strings[..i + 1] == strings[..i] + [strings[i]];
    }
    assert strings[..|strings|] == strings;
  }

  /** Duplicates collapse, so the set has at most as many elements as the input. */
  lemma {:induction false} UniqueNonEmptySize(strings: seq<string>)
    ensures |UniqueNonEmpty(strings)| <= |strings|
  {
    if strings != [] {
      var init := strings[..|strings| - 1];
      var last := strings[|strings| - 1];
      UniqueNonEmptySize(init);
      assert strings == init + [last];
      assert UniqueNonEmpty(strings) == UniqueNonEmpty(init) + (if last != [] then {last} else {});
    }
  }

  /** Normalising an enumeration of an already normalised set changes nothing. */
  lemma UniqueNonEmptyIdempotent(strings: seq<string>, again: seq<string>)
    requires forall s :: s in again <==> s in UniqueNonEmpty(strings)
    ensures UniqueNonEmpty(again) == UniqueNonEmpty(strings)
  {
  }
}
