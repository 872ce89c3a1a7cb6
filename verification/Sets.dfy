/** Finite sets. */
module Sets {

  lemma EmptySet(s: set<int>)
    ensures s == {} || exists x :: x in s
  {
    if forall x :: x !in s {
      assert s == {};
    }
  }

  /** Any element will do. */
  method AnyOf(s: set<int>) returns (r: int)
    requires s != {}
    ensures r in s
  {
    EmptySet(s);
    r :| r in s;
  }

  lemma DisjointSets(s: set<int>, t: set<int>)
    ensures s * t == {} ==> s !! t
  {
    forall x | x in s && x in t
      ensures s * t != {}
    {
      assert x in s * t;
    }
  }

  /** A set cannot be mapped one to one into a smaller one. */
  lemma {:induction false} OneToOne(s: set<int>, t: set<int>, f: int -> int)
    requires forall x :: x in s ==> f(x) in t
    requires forall x, y :: x in s && y in s && f(x) == f(y) ==> x == y
    ensures |s| <= |t|
  {
    if x :| x in s {
      OneToOne(s - {x}, t - {f(x)}, f);
    } else {
      EmptySet(s);
    }
  }

  lemma Subsets(s: set<int>, t: set<int>)
    requires t <= s
    ensures |s| == |t| + |s - t|
  {
    assert s == t + (s - t);
  }

  lemma FullSubset(s: set<int>, t: set<int>)
    requires t <= s && |s| <= |t|
    ensures s == t
  {
    Subsets(s, t);
    EmptySet(s - t);
    assert |s - t| == 0;
    forall x | x in s
      ensures x in t
    {
      assert x in t || x in s - t;
    }
  }

  /** A one to one map between sets of the same size hits everything. */
  lemma Onto(s: set<int>, t: set<int>, f: int -> int, y: int)
    requires forall x :: x in s ==> f(x) in t
    requires forall x, z :: x in s && z in s && f(x) == f(z) ==> x == z
    requires |t| <= |s| && y in t
    ensures exists x :: x in s && f(x) == y
  {
    Subsets(t, {y});
    if forall x :: x in s ==> f(x) != y {
      OneToOne(s, t - {y}, f);
    }
  }

  lemma Meeting(s: set<int>, t: set<int>)
    ensures s !! t || exists x :: x in s && x in t
  {
    if forall x :: x in s ==> x !in t {
      assert s !! t;
    }
  }

  lemma ProperSubset(s: set<int>, t: set<int>)
    requires t <= s && s != t
    ensures |t| < |s|
  {
    Subsets(s, t);
    EmptySet(s - t);
    if s - t == {} {
      FullSubset(s, t);
    }
  }
}
