/**
 * The order of std::string (lexicographic by character code) and the
 * sorted, duplicate-free word lists that std::sort followed by std::unique
 * produce.
 */
module Lexicographic {
  import opened IdSets

  /** std::string's operator<. */
  predicate Less(a: string, b: string)
  {
    if a == [] then b != []
    else b != [] && (a[0] < b[0] || (a[0] == b[0] && Less(a[1..], b[1..])))
  }

  lemma {:induction false} LessIrreflexive(a: string)
    ensures !Less(a, a)
  {
    if a != [] {
      LessIrreflexive(a[1..]);
    }
  }

  lemma {:induction false} LessTransitive(a: string, b: string, c: string)
    requires Less(a, b) && Less(b, c)
    ensures Less(a, c)
  {
    if a != [] && a[0] == b[0] && b[0] == c[0] {
      LessTransitive(a[1..], b[1..], c[1..]);
    }
  }

  /** Any two different strings are ordered one way or the other. */
  lemma {:induction false} LessTotal(a: string, b: string)
    requires a != b
    ensures Less(a, b) || Less(b, a)
  {
    if a != [] && b != [] && a[0] == b[0] {
      assert a == [a[0]] + a[1..] && b == [b[0]] + b[1..];
      LessTotal(a[1..], b[1..]);
    }
  }

  lemma {:induction false} LessAsymmetric(a: string, b: string)
    requires Less(a, b)
    ensures !Less(b, a)
  {
    if Less(b, a) {
      LessTransitive(a, b, a);
      LessIrreflexive(a);
    }
  }

  /** Strictly ascending: sorted and without duplicates. */
  ghost predicate StrictlyAscending(s: seq<string>)
  {
    forall i, j :: 0 <= i < j < |s| ==> Less(s[i], s[j])
  }

  /** `w` inserted into a strictly ascending list, unless it is already there. */
  function Insert(s: seq<string>, w: string): (r: seq<string>)
    requires StrictlyAscending(s)
    ensures StrictlyAscending(r)
    ensures forall x :: x in r <==> x in s || x == w
  {
    if s == [] then [w]
    else if s[0] == w then s
    else if Less(w, s[0]) then
      assert forall j :: 0 <= j < |s| ==> Less(w, s[j]) by {
        forall j | 0 < j < |s| { LessTransitive(w, s[0], s[j]); }
      }
      [w] + s
    else
      LessTotal(w, s[0]);
      var t := Insert(s[1..], w);
      assert forall x :: x in t ==> Less(s[0], x) by {
        forall x | x in t ensures Less(s[0], x) { assert x in s[1..] || x == w; }
      }
      [s[0]] + t
  }

  /** The words sorted with duplicates removed (std::sort then std::unique). */
  function SortedUnique(ws: seq<string>): (r: seq<string>)
    ensures StrictlyAscending(r)
    ensures forall x :: x in r <==> x in ws
  {
    if ws == [] then []
    else
      var init := SortedUnique(ws[..|ws| - 1]);
      assert ws == ws[..|ws| - 1] + [ws[|ws| - 1]];
      Insert(init, ws[|ws| - 1])
  }

  /** A strictly ascending list is determined by its elements. */
  lemma {:induction false} AscendingUnique(s: seq<string>, t: seq<string>)
    requires StrictlyAscending(s) && StrictlyAscending(t)
    requires forall x :: x in s <==> x in t
    ensures s == t
  {
    if s == [] {
      FirstIsElement(t);
    } else {
      assert t != [] by { assert s[0] in t; }
      HeadIsLeast(s, t[0]);
      HeadIsLeast(t, s[0]);
      LessNotBoth(s[0], t[0]);
      LessIrreflexive(s[0]);
      LessIrreflexive(t[0]);
      forall x ensures x in s[1..] <==> x in t[1..] {
        HeadIsLeast(s, x);
        HeadIsLeast(t, x);
        AfterHead(s, x);
        AfterHead(t, x);
      }
      AscendingUnique(s[1..], t[1..]);
      assert s == [s[0]] + s[1..] && t == [t[0]] + t[1..];
    }
  }


  lemma LessNotBoth(a: string, b: string)
    ensures !(Less(a, b) && Less(b, a))
  {
    if Less(a, b) {
      LessAsymmetric(a, b);
    }
  }

  /** The head of a strictly ascending list is below every other element. */
  lemma HeadIsLeast(s: seq<string>, x: string)
    requires StrictlyAscending(s) && s != []
    ensures x in s ==> x == s[0] || Less(s[0], x)
  {
  }

  lemma AfterHead(s: seq<string>, x: string)
    requires StrictlyAscending(s) && s != []
    ensures x in s[1..] <==> x in s && x != s[0]
  {
    LessIrreflexive(s[0]);
    if x in s[1..] {
      var j :| 1 <= j < |s| && s[j] == x;
      assert Less(s[0], s[j]);
    }
    if x in s && x != s[0] {
      var j :| 0 <= j < |s| && s[j] == x;
      assert s[1..][j - 1] == x;
    }
  }

  /** Sorting and deduplicating depends only on which words occur. */
  lemma SortedUniqueOfSameWords(a: seq<string>, b: seq<string>)
    requires forall x :: x in a <==> x in b
    ensures SortedUnique(a) == SortedUnique(b)
  {
    AscendingUnique(SortedUnique(a), SortedUnique(b));
  }
}
