/** Finite directed graphs as sets of pairs: paths, reachability, closure and
    strongly connected components. */
module Graphs {
  type Rel<T(==)> = set<(T, T)>

  ghost predicate IsPath<T>(r: Rel<T>, p: seq<T>)
  {
    && |p| > 0
    && forall i | 0 < i < |p| :: (p[i - 1], p[i]) in r
  }

  ghost predicate Reaches<T(!new)>(r: Rel<T>, a: T, b: T)
  {
    exists p :: IsPath(r, p) && p[0] == a && p[|p| - 1] == b
  }

  /** Every edge that starts in s ends in s. */
  ghost predicate Closed<T>(r: Rel<T>, s: set<T>)
  {
    forall e | e in r && e.0 in s :: e.1 in s
  }

  ghost predicate Mutual<T(!new)>(r: Rel<T>, a: T, b: T)
  {
    Reaches(r, a, b) && Reaches(r, b, a)
  }

  /** A strongly connected component: mutually reachable and maximal. */
  ghost predicate IsComponent<T(!new)>(r: Rel<T>, c: set<T>)
  {
    && c != {}
    && (forall x, y | x in c && y in c :: Reaches(r, x, y))
    && (forall x, z | x in c && Mutual(r, x, z) :: z in c)
  }

  /** A component worth reporting: more than one member, or a self-edge. */
  ghost predicate IsCycle<T(!new)>(r: Rel<T>, c: set<T>)
  {
    IsComponent(r, c) && (|c| > 1 || exists x :: x in c && (x, x) in r)
  }

  lemma ReachesSelf<T(!new)>(r: Rel<T>, a: T)
    ensures Reaches(r, a, a)
  {
    var p := [a];
    assert IsPath(r, p) && p[0] == a && p[|p| - 1] == a;
  }

  lemma ReachesTrans<T(!new)>(r: Rel<T>, a: T, b: T, c: T)
    requires Reaches(r, a, b) && Reaches(r, b, c)
    ensures Reaches(r, a, c)
  {
    var p :| IsPath(r, p) && p[0] == a && p[|p| - 1] == b;
    var q :| IsPath(r, q) && q[0] == b && q[|q| - 1] == c;
    var pq := p + q[1..];
    forall i | 0 < i < |pq|
      ensures (pq[i - 1], pq[i]) in r
    {
      if i >= |p| {
        assert pq[i] == q[i - |p| + 1] && pq[i - 1] == q[i - |p|];
      }
    }
    assert IsPath(r, pq) && pq[0] == a && pq[|pq| - 1] == c;
  }

  lemma ReachesEdge<T(!new)>(r: Rel<T>, a: T, b: T)
    requires (a, b) in r
    ensures Reaches(r, a, b)
  {
    var p := [a, b];
    assert IsPath(r, p) && p[0] == a && p[|p| - 1] == b;
  }

  lemma ReachesStep<T(!new)>(r: Rel<T>, a: T, b: T, c: T)
    requires Reaches(r, a, b) && (b, c) in r
    ensures Reaches(r, a, c)
  {
    ReachesEdge(r, b, c);
    ReachesTrans(r, a, b, c);
  }

  lemma ReachesClosed<T(!new)>(r: Rel<T>, s: set<T>, a: T, b: T)
    requires Closed(r, s) && a in s && Reaches(r, a, b)
    ensures b in s
  {
    var p :| IsPath(r, p) && p[0] == a && p[|p| - 1] == b;
    PathStaysIn(r, s, p, |p| - 1);
  }

  lemma PathStaysIn<T>(r: Rel<T>, s: set<T>, p: seq<T>, k: nat)
    requires Closed(r, s) && IsPath(r, p) && p[0] in s && k < |p|
    ensures p[k] in s
  {
    if k > 0 {
      PathStaysIn(r, s, p, k - 1);
      assert (p[k - 1], p[k]) in r;
    }
  }

  /** Two components are equal or share nothing. */
  lemma ComponentsDisjoint<T(!new)>(r: Rel<T>, c: set<T>, d: set<T>)
    requires IsComponent(r, c) && IsComponent(r, d) && !(c !! d)
    ensures c == d
  {
    var x :| x in c && x in d;
    forall y | y in c ensures y in d { assert Mutual(r, x, y); }
    forall y | y in d ensures y in c { assert Mutual(r, x, y); }
  }

  /** The nodes edges lead to. */
  function Heads<T>(r: Rel<T>): set<T>
  {
    set e | e in r :: e.1
  }

  lemma InHeads<T>(r: Rel<T>, a: T, b: T)
    requires (a, b) in r
    ensures b in Heads(r)
  {
    assert (a, b).1 == b;
  }
}
