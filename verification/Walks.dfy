/** Breadth-first walks over adjacency lists, and the sets they compute. */
module Walks {
  import opened Graphs
  import opened CodeMap
  import opened Tarjan
  import opened Search

  ghost predicate ReachedFrom(r: Rel<Id>, seeds: set<Id>, x: Id)
  {
    exists s :: s in seeds && Reaches(r, s, x)
  }

  lemma SeedReached(r: Rel<Id>, seeds: set<Id>, s: Id)
    requires s in seeds
    ensures ReachedFrom(r, seeds, s)
  {
    ReachesSelf(r, s);
  }

  lemma ReachedStep(r: Rel<Id>, seeds: set<Id>, x: Id, y: Id)
    requires ReachedFrom(r, seeds, x) && (x, y) in r
    ensures ReachedFrom(r, seeds, y)
  {
    hide Reaches;
    var s :| s in seeds && Reaches(r, s, x);
    ReachesStep(r, s, x, y);
  }

  lemma ReachedClosed(r: Rel<Id>, seeds: set<Id>, c: set<Id>, x: Id)
    requires ReachedFrom(r, seeds, x) && seeds <= c && Closed(r, c)
    ensures x in c
  {
    hide Reaches;
    var s :| s in seeds && Reaches(r, s, x);
    ReachesClosed(r, c, s, x);
  }

  /** seen holds the base, the seeds and only what a seed reaches; the queue holds
      the members whose edges are still to be followed. */
  ghost predicate Walking(r: Rel<Id>, base: set<Id>, seeds: set<Id>, seen: set<Id>, queue: seq<Id>)
  {
    && base + seeds <= seen
    && Elems(queue) <= seen
    && (forall x | x in seen && x !in base :: ReachedFrom(r, seeds, x))
    && (forall e | e in r && e.0 in seen && e.0 !in queue :: e.1 in seen)
  }

  /** As Walking, while the first k successors of cur have been seen to. */
  ghost predicate Visiting(adj: map<Id, seq<Id>>, r: Rel<Id>, base: set<Id>, seeds: set<Id>, seen: set<Id>, queue: seq<Id>,
                           cur: Id, k: nat)
  {
    && base + seeds <= seen
    && Elems(queue) <= seen
    && (forall x | x in seen && x !in base :: ReachedFrom(r, seeds, x))
    && (forall e | e in r && e.0 in seen && e.0 !in queue && e.0 != cur :: e.1 in seen)
    && k <= |Succ(adj, cur)|
    && (forall y | y in Succ(adj, cur)[..k] :: y in seen)
    && (cur in base || ReachedFrom(r, seeds, cur))
  }

  lemma WalkStarts(r: Rel<Id>, base: set<Id>, seeds: seq<Id>, queue: seq<Id>)
    requires Closed(r, base) && Elems(queue) <= Elems(seeds) <= Elems(queue) + base
    ensures Walking(r, base, Elems(seeds), base + Elems(seeds), queue)
  {
    hide Reaches;
    forall x | x in Elems(seeds) ensures ReachedFrom(r, Elems(seeds), x) {
      ReachesSelf(r, x);
    }
  }

  lemma VisitStarts(adj: map<Id, seq<Id>>, r: Rel<Id>, base: set<Id>, seeds: set<Id>, seen: set<Id>, queue: seq<Id>)
    requires Walking(r, base, seeds, seen, queue) && queue != []
    ensures Visiting(adj, r, base, seeds, seen, queue[1..], queue[0], 0)
  {
    hide Reaches, ReachedFrom;
    assert queue == [queue[0]] + queue[1..];
    assert queue[0] in Elems(queue);
  }

  lemma VisitNew(adj: map<Id, seq<Id>>, r: Rel<Id>, base: set<Id>, seeds: set<Id>, seen: set<Id>, queue: seq<Id>, cur: Id, k: nat)
    requires AdjacencyOf(adj, r) && Closed(r, base)
    requires Visiting(adj, r, base, seeds, seen, queue, cur, k) && k < |Succ(adj, cur)| && Succ(adj, cur)[k] !in seen
    ensures Visiting(adj, r, base, seeds, seen + {Succ(adj, cur)[k]}, queue + [Succ(adj, cur)[k]], cur, k + 1)
    ensures Succ(adj, cur)[k] in Heads(r)
  {
    hide Reaches;
    var x := Succ(adj, cur)[k];
    assert x in Succ(adj, cur) && (cur, x) in r;
    InHeads(r, cur, x);
    var s :| s in seeds && Reaches(r, s, cur);
    ReachesStep(r, s, cur, x);
    assert ReachedFrom(r, seeds, x);
    assert Elems(queue + [x]) == Elems(queue) + {x};
    assert Succ(adj, cur)[..k + 1] == Succ(adj, cur)[..k] + [x];
    assert forall y | y in queue :: y in queue + [x];
  }

  lemma VisitOld(adj: map<Id, seq<Id>>, r: Rel<Id>, base: set<Id>, seeds: set<Id>, seen: set<Id>, queue: seq<Id>, cur: Id, k: nat)
    requires Visiting(adj, r, base, seeds, seen, queue, cur, k) && k < |Succ(adj, cur)| && Succ(adj, cur)[k] in seen
    ensures Visiting(adj, r, base, seeds, seen, queue, cur, k + 1)
  {
    hide Reaches, ReachedFrom;
    assert Succ(adj, cur)[..k + 1] == Succ(adj, cur)[..k] + [Succ(adj, cur)[k]];
  }

  lemma VisitEnds(adj: map<Id, seq<Id>>, r: Rel<Id>, base: set<Id>, seeds: set<Id>, seen: set<Id>, queue: seq<Id>, cur: Id)
    requires AdjacencyOf(adj, r) && Visiting(adj, r, base, seeds, seen, queue, cur, |Succ(adj, cur)|)
    ensures Walking(r, base, seeds, seen, queue)
  {
    hide Reaches, ReachedFrom;
    assert Succ(adj, cur)[..|Succ(adj, cur)|] == Succ(adj, cur);
    forall e | e in r && e.0 in seen && e.0 !in queue ensures e.1 in seen {
      if e.0 == cur {
        assert e.1 in Succ(adj, cur);
      }
    }
  }

  /** An empty queue means seen is the base and everything the seeds reach. */
  lemma WalkEnds(r: Rel<Id>, base: set<Id>, seeds: set<Id>, seen: set<Id>)
    requires Closed(r, base) && Walking(r, base, seeds, seen, [])
    ensures Closed(r, seen)
    ensures forall x :: x in seen <==> x in base || ReachedFrom(r, seeds, x)
  {
    hide Reaches;
    forall x | ReachedFrom(r, seeds, x) ensures x in seen {
      var s :| s in seeds && Reaches(r, s, x);
      ReachesClosed(r, seen, s, x);
    }
  }

  /** The walk both reachability passes make: everything the seeds reach. */
  method Walk(adj: map<Id, seq<Id>>, ghost r: Rel<Id>, seeds: seq<Id>) returns (seen: set<Id>)
    requires AdjacencyOf(adj, r)
    ensures Closed(r, seen)
    ensures forall x :: x in seen <==> ReachedFrom(r, Elems(seeds), x)
  {
    hide AdjacencyOf, Walking, Visiting, ReachedFrom;
    var queue: seq<Id> := [];
    seen := {};
    for i := 0 to |seeds|
      invariant Elems(queue) == seen == Elems(seeds[..i])
    {
      assert seeds[..i + 1] == seeds[..i] + [seeds[i]];
      if seeds[i] !in seen {
        seen := seen + {seeds[i]};
        queue := queue + [seeds[i]];
      }
    }
    assert seeds[..|seeds|] == seeds;
    assert seen == {} + Elems(seeds);
    ghost var all := seen + Heads(r);
    WalkStarts(r, {}, seeds, queue);
    while |queue| > 0
      invariant Walking(r, {}, Elems(seeds), seen, queue) && seen <= all
      decreases all - seen, |queue|
    {
      VisitStarts(adj, r, {}, Elems(seeds), seen, queue);
      var cur := queue[0];
      ghost var before, rest := seen, |queue| - 1;
      queue := queue[1..];
      var children := Succ(adj, cur);
      for k := 0 to |children|
        invariant Visiting(adj, r, {}, Elems(seeds), seen, queue, cur, k)
        invariant before <= seen <= all && (seen == before ==> |queue| == rest)
      {
        if children[k] in seen {
          VisitOld(adj, r, {}, Elems(seeds), seen, queue, cur, k);
          continue;
        }
        VisitNew(adj, r, {}, Elems(seeds), seen, queue, cur, k);
        seen := seen + {children[k]};
        queue := queue + [children[k]];
      }
      VisitEnds(adj, r, {}, Elems(seeds), seen, queue, cur);
    }
    WalkEnds(r, {}, Elems(seeds), seen);
  }
}
