/**
 * Documents as the search server reports them, their status tags, the
 * average rating, and the ranking order FindTopDocuments sorts by.
 */
module Documents {

  const MaxResultDocumentCount: nat := 5

  datatype DocumentStatus = Actual | Irrelevant | Banned | Removed

  /** One search hit: the id, its TF-IDF relevance and the document's rating. */
  datatype Document = Document(id: int, relevance: real, rating: int)

  /** What the store keeps about each document besides its words. */
  datatype DocumentData = DocumentData(rating: int, status: DocumentStatus)

  /** The exceptions the C++ code throws, by cause. */
  datatype Error =
    | InvalidDocumentId    // negative id, or an id already present
    | InvalidWord          // a document word with a control character
    | EmptyQueryWord       // a query word of length zero
    | InvalidQueryWord     // a bare "-", a "--" prefix, or a control character
    | InvalidStopWords     // a stop word with a control character
    | DocumentNotFound     // matching against an id that is not stored
    | OutOfRange           // std::map::at on a missing key

  function Sum(xs: seq<int>): int
  {
    if xs == [] then 0 else Sum(xs[..|xs| - 1]) + xs[|xs| - 1]
  }

  /** C++ integer division: the quotient truncated toward zero. */
  function TruncDiv(a: int, b: int): (q: int)
    requires b > 0
    ensures a >= 0 ==> 0 <= q * b <= a < (q + 1) * b
    ensures a < 0 ==> (q - 1) * b < a <= q * b <= 0
  {
    if a >= 0 then
      DivBounds(a, b);
      a / b
    else
      DivBounds(-a, b);
      assert (-((-a) / b)) * b == -(((-a) / b) * b);
      assert (-((-a) / b) - 1) * b == -((((-a) / b) + 1) * b);
      -((-a) / b)
  }

  lemma DivBounds(a: int, b: int)
    requires a >= 0 && b > 0
    ensures 0 <= (a / b) * b <= a < (a / b + 1) * b
  {
    var q, r := a / b, a % b;
    assert a == q * b + r && 0 <= r < b;
    MulSucc(q, b);
    assert q >= 0 by {
      if q < 0 {
        MulSucc(q, b);
        MulNonPositive(q + 1, b);
      }
    }
    MulNonNegative(q, b);
  }

  lemma MulSucc(q: int, b: int)
    ensures (q + 1) * b == q * b + b
  {
  }

  lemma MulNonPositive(q: int, b: int)
    requires q <= 0 && b > 0
    ensures q * b <= 0
  {
  }

  lemma MulNonNegative(q: int, b: int)
    requires q >= 0 && b > 0
    ensures q * b >= 0
  {
  }

  /** The mean of the ratings truncated toward zero; 0 when there are none. */
  function ComputeAverageRating(ratings: seq<int>): (r: int)
    ensures ratings == [] ==> r == 0
    ensures ratings != [] && Sum(ratings) >= 0 ==>
              0 <= r * |ratings| <= Sum(ratings) < (r + 1) * |ratings|
    ensures ratings != [] && Sum(ratings) < 0 ==>
              (r - 1) * |ratings| < Sum(ratings) <= r * |ratings| <= 0
  {
    if ratings == [] then 0 else TruncDiv(Sum(ratings), |ratings|)
  }

  lemma AverageRatingExamples()
    ensures ComputeAverageRating([8, -3]) == 2
    ensures ComputeAverageRating([7, 2, 7]) == 5
    ensures ComputeAverageRating([5, -12, 2, 1]) == -1
    ensures ComputeAverageRating([]) == 0
  {
    assert Sum([8, -3]) == 5 by { assert [8, -3][..1] == [8]; }
    assert Sum([7, 2, 7]) == 16 by {
      assert [7, 2, 7][..2] == [7, 2];
      assert [7, 2][..1] == [7];
    }
    assert Sum([5, -12, 2, 1]) == -4 by {
      assert [5, -12, 2, 1][..3] == [5, -12, 2];
      assert [5, -12, 2][..2] == [5, -12];
      assert [5, -12][..1] == [5];
    }
  }

  /**
   * `a` may stand before `b` in the result: higher relevance first, and
   * among equal relevances the higher rating first.
   */
  predicate RanksAtLeast(a: Document, b: Document)
  {
    a.relevance > b.relevance || (a.relevance == b.relevance && a.rating >= b.rating)
  }

  /** Every neighbouring pair is in ranking order. */
  predicate Ordered(s: seq<Document>)
  {
    forall i :: 0 < i < |s| ==> RanksAtLeast(s[i - 1], s[i])
  }

  /** Neighbour-wise order is order between any two positions. */
  lemma {:induction false} OrderedAll(s: seq<Document>, i: int, j: int)
    requires Ordered(s)
    requires 0 <= i < j < |s|
    ensures RanksAtLeast(s[i], s[j])
    decreases j - i
  {
    if i + 1 < j {
      OrderedAll(s, i + 1, j);
    }
  }

  /**
   * The matched documents in ranking order (std::sort with the relevance
   * then rating comparator), by insertion.
   */
  method SortByRank(docs: seq<Document>) returns (sorted: seq<Document>)
    ensures Ordered(sorted)
    ensures multiset(sorted) == multiset(docs)
  {
    sorted := [];
    for i := 0 to |docs|
      invariant Ordered(sorted)
      invariant multiset(sorted) == multiset(docs[..i])
    {
      var d := docs[i];
      var k := 0;
      while k < |sorted| && RanksAtLeast(sorted[k], d)
        invariant 0 <= k <= |sorted|
        invariant forall m :: 0 <= m < k ==> RanksAtLeast(sorted[m], d)
      {
        k := k + 1;
      }
      assert sorted == sorted[..k] + sorted[k..];
      sorted := sorted[..k] + [d] + sorted[k..];
      assert docs[..i + 1] == docs[..i] + [d];
    }
    assert docs[..|docs|] == docs;
  }
}
