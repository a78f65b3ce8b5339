/** Facts about finite sets: an element to pick, and a least id. */
module IdSets {

  predicate IsLeast(m: int, s: set<int>)
  {
    m in s && forall x :: x in s ==> m <= x
  }

  /** Every non-empty finite set of ids has a least element. */
  lemma {:induction false} MinExists(s: set<int>)
    requires s != {}
    ensures exists m :: IsLeast(m, s)
    decreases |s|
  {
    var y := AnyElement(s);
    if s - {y} == {} {
      LeastOfSingleton(s, y);
    } else {
      MinExists(s - {y});
      var m :| IsLeast(m, s - {y});
      LeastOfInsert(s, y, m);
    }
  }

  /** Some element of a non-empty set. */
  lemma AnyElement<T>(s: set<T>) returns (y: T)
    requires s != {}
    ensures y in s
  {
    EmptyOrElement(s);
    y :| y in s;
  }

  /** The head of a non-empty sequence is one of its elements. */
  lemma FirstIsElement<T>(s: seq<T>)
    ensures s != [] ==> s[0] in s
  {
  }

  lemma EmptyOrElement<T>(s: set<T>)
    ensures s == {} || exists z :: z in s
  {
    if forall z :: z !in s {
      assert s == {};
    }
  }

  lemma LeastOfSingleton(s: set<int>, y: int)
    requires y in s && s - {y} == {}
    ensures IsLeast(y, s)
  {
    forall x | x in s ensures y <= x {
      assert x == y || x in s - {y};
    }
  }

  lemma LeastOfInsert(s: set<int>, y: int, m: int)
    requires y in s && IsLeast(m, s - {y})
    ensures IsLeast(if y < m then y else m, s)
  {
    forall x | x in s ensures (if y < m then y else m) <= x {
      assert x == y || x in s - {y};
    }
  }
}
