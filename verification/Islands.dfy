/** Islands: the undirected pieces of a map and their numbering. */
module Islands {
  import opened Graphs
  import opened Ordering
  import opened CodeMap
  import opened Tarjan
  import opened Search
  import opened Walks

  ghost predicate Symmetric(r: Rel<Id>)
  {
    forall e | e in r :: (e.1, e.0) in r
  }

  lemma {:induction false} PathBack(r: Rel<Id>, p: seq<Id>)
    requires Symmetric(r) && IsPath(r, p)
    ensures Reaches(r, p[|p| - 1], p[0])
  {
    var n := |p| - 1;
    if n == 0 {
      ReachesSelf(r, p[0]);
    } else {
      PathBack(r, p[..n]);
      assert (p[n - 1], p[n]) in r;
      ReachesEdge(r, p[n], p[n - 1]);
      ReachesTrans(r, p[n], p[n - 1], p[0]);
    }
  }

  lemma ReachesBack(r: Rel<Id>, a: Id, b: Id)
    requires Symmetric(r) && Reaches(r, a, b)
    ensures Reaches(r, b, a)
  {
    var p :| IsPath(r, p) && p[0] == a && p[|p| - 1] == b;
    PathBack(r, p);
  }

  lemma LinksSymmetric(edges: seq<Edge>)
    ensures Symmetric(Links(edges))
  {
    forall l | l in Links(edges) ensures (l.1, l.0) in Links(edges) {
    }
  }

  ghost predicate Leads(nodes: seq<Node>, x: Id, k: nat)
  {
    exists n :: n in nodes && n.id == x && n.island == k
  }

  /** Islands are numbered 0.. by their leaders, each the least id of its island, in id order. */
  ghost predicate Leaders(nodes: seq<Node>, reps: seq<Id>)
  {
    && Increasing(Before, reps)
    && (forall n | n in nodes :: 0 <= n.island < |reps| && !Before(n.id, reps[n.island]))
    && (forall k | 0 <= k < |reps| :: Leads(nodes, reps[k], k))
  }

  /** Same number exactly when joined by edges of any kind in any direction; numbers 0 to count-1 by least id. */
  ghost predicate IslandsRight(nodes: seq<Node>, edges: seq<Edge>, count: nat)
  {
    && (forall a, b | a in nodes && b in nodes :: a.island == b.island <==> Reaches(Links(edges), a.id, b.id))
    && exists reps :: |reps| == count && Leaders(nodes, reps)
  }

  // ----- the labelling as it grows

  /** Every labelled id is reached by its label's leader, and leaders' islands do not meet. */
  ghost predicate Labelled(r: Rel<Id>, island: map<Id, nat>, reps: seq<Id>)
  {
    && Closed(r, island.Keys)
    && (forall x | x in island :: island[x] < |reps| && Reaches(r, reps[island[x]], x))
    && (forall k, x | 0 <= k < |reps| && Reaches(r, reps[k], x) :: x in island && island[x] == k)
  }

  /** The leaders found so far among the first i of the sorted ids. */
  ghost predicate Led(ids: seq<Id>, i: nat, island: map<Id, nat>, reps: seq<Id>)
  {
    && i <= |ids|
    && (forall j | 0 <= j < i :: ids[j] in island)
    && (forall k | 0 <= k < |reps| :: reps[k] in ids[..i])
    && Increasing(Before, reps)
    && (forall x | x in island && x in ids && island[x] < |reps| :: !Before(x, reps[island[x]]))
  }

  lemma NewIsland(r: Rel<Id>, old': map<Id, nat>, reps: seq<Id>, id: Id, island: map<Id, nat>)
    requires Symmetric(r) && Labelled(r, old', reps) && id !in old'
    requires Closed(r, island.Keys) && (forall x :: x in island <==> x in old' || ReachedFrom(r, {id}, x))
    requires forall x | x in island :: island[x] == if x in old' then old'[x] else |reps|
    ensures Labelled(r, island, reps + [id])
  {
    hide Reaches;
    forall x | x in island && x !in old' ensures Reaches(r, id, x) {
      assert ReachedFrom(r, {id}, x);
    }
    forall x | Reaches(r, id, x) ensures x in island && x !in old' {
      assert ReachedFrom(r, {id}, x);
      if x in old' {
        ReachesBack(r, id, x);
        ReachesClosed(r, old'.Keys, x, id);
      }
    }
  }

  lemma NewLeader(ids: seq<Id>, i: nat, old': map<Id, nat>, reps: seq<Id>, island: map<Id, nat>)
    requires Sorted(Before, ids) && Led(ids, i, old', reps) && i < |ids| && ids[i] !in old'
    requires old'.Keys <= island.Keys && ids[i] in island
    requires forall x | x in island :: island[x] == if x in old' then old'[x] else |reps|
    requires forall x | x in old' :: old'[x] < |reps|
    ensures Led(ids, i + 1, island, reps + [ids[i]])
  {
    assert ids[..i + 1] == ids[..i] + [ids[i]];
    forall k | 0 <= k < |reps| ensures Before(reps[k], ids[i]) {
      assert reps[k] in ids[..i];
      var p :| 0 <= p < i && ids[p] == reps[k];
      BeforeTotal(reps[k], ids[i]);
    }
    forall x | x in island && x in ids && x !in old' ensures !Before(x, ids[i]) {
      var p :| 0 <= p < |ids| && ids[p] == x;
      BeforeTotal(x, ids[i]);
    }
  }

  lemma OldLeaders(ids: seq<Id>, i: nat, island: map<Id, nat>, reps: seq<Id>)
    requires Led(ids, i, island, reps) && i < |ids| && ids[i] in island
    ensures Led(ids, i + 1, island, reps)
  {
    assert ids[..i + 1] == ids[..i] + [ids[i]];
  }

  /** The nodes carry the labels of their ids. */
  ghost predicate Written(nodes: seq<Node>, ids: seq<Id>, island: map<Id, nat>)
  {
    && (forall x :: x in ids <==> x in Ids(nodes))
    && (forall n | n in nodes :: n.id in island && n.island == island[n.id])
  }

  /** Writing a finished labelling onto the nodes numbers the islands as specified. */
  lemma LabelsMakeIslands(nodes: seq<Node>, edges: seq<Edge>, ids: seq<Id>, island: map<Id, nat>, reps: seq<Id>)
    requires Labelled(Links(edges), island, reps) && Led(ids, |ids|, island, reps) && Written(nodes, ids, island)
    ensures IslandsRight(nodes, edges, |reps|)
  {
    hide Reaches, Leaders;
    LinksSymmetric(edges);
    forall a, b | a in nodes && b in nodes
      ensures a.island == b.island <==> Reaches(Links(edges), a.id, b.id)
    {
      SameLabel(Links(edges), island, reps, a.id, b.id);
    }
    LabelsMakeLeaders(nodes, Links(edges), ids, island, reps);
  }

  lemma LabelsMakeLeaders(nodes: seq<Node>, r: Rel<Id>, ids: seq<Id>, island: map<Id, nat>, reps: seq<Id>)
    requires Labelled(r, island, reps) && Led(ids, |ids|, island, reps) && Written(nodes, ids, island)
    ensures Leaders(nodes, reps)
  {
    hide Reaches, Closed;
    forall n | n in nodes ensures 0 <= n.island < |reps| && !Before(n.id, reps[n.island]) {
      assert n.id in Ids(nodes);
      assert n.id in ids;
    }
    forall k | 0 <= k < |reps| ensures Leads(nodes, reps[k], k) {
      assert reps[k] in ids[..|ids|];
      assert reps[k] in ids;
      var n :| n in nodes && n.id == reps[k];
      ReachesSelf(r, reps[k]);
      assert n.id in island && n.island == k;
    }
  }

  lemma SameLabel(r: Rel<Id>, island: map<Id, nat>, reps: seq<Id>, a: Id, b: Id)
    requires Symmetric(r) && Labelled(r, island, reps) && a in island && b in island
    ensures island[a] == island[b] <==> Reaches(r, a, b)
  {
    hide Reaches;
    if Reaches(r, a, b) {
      ReachesTrans(r, reps[island[a]], a, b);
    }
    if island[a] == island[b] {
      ReachesBack(r, reps[island[a]], a);
      ReachesTrans(r, a, reps[island[a]], b);
    }
  }

  lemma LinksOneMore(edges: seq<Edge>, e: Edge)
    ensures Links(edges + [e]) == Links(edges) + {(e.from, e.to), (e.to, e.from)}
  {
    assert forall d :: d in edges + [e] <==> d in edges || d == e;
  }

  lemma NoNeighbours(adj: map<Id, seq<Id>>)
    requires adj == map[]
    ensures AdjacencyOf(adj, Links([]))
  {
  }

  lemma Neighbour(adj: map<Id, seq<Id>>, r: Rel<Id>, a: Id, b: Id)
    requires AdjacencyOf(adj, r)
    ensures AdjacencyOf(adj[a := Succ(adj, a) + [b]], r + {(a, b)})
  {
    var more := adj[a := Succ(adj, a) + [b]];
    forall x, y ensures y in Succ(more, x) <==> (x, y) in r + {(a, b)} {
      assert y in Succ(adj, x) <==> (x, y) in r;
    }
  }

  lemma NothingLabelled(r: Rel<Id>, ids: seq<Id>)
    ensures Labelled(r, map[], []) && Led(ids, 0, map[], [])
  {
  }

  lemma LabelledClosed(r: Rel<Id>, island: map<Id, nat>, reps: seq<Id>)
    requires Labelled(r, island, reps)
    ensures Closed(r, island.Keys) && forall x | x in island :: island[x] < |reps|
  {
  }

  lemma SortedIds(nodes: seq<Node>, ids: seq<Id>)
    requires ids == Sort(Before, IdList(nodes))
    ensures Sorted(Before, ids) && forall x :: x in ids <==> x in Ids(nodes)
  {
    var raw := IdList(nodes);
    BeforeIsStrict();
    SortSorts(Before, raw);
    SortElements(Before, raw);
    forall x | x in Ids(nodes) ensures x in raw {
      var i :| 0 <= i < |nodes| && nodes[i].id == x;
      assert raw[i] == x;
    }
  }

  lemma AllLabelled(nodes: seq<Node>, ids: seq<Id>, island: map<Id, nat>, reps: seq<Id>)
    requires Led(ids, |ids|, island, reps) && forall x :: x in ids <==> x in Ids(nodes)
    ensures forall n | n in nodes :: n.id in island
  {
    forall n | n in nodes ensures n.id in island {
      assert n.id in Ids(nodes);
      assert n.id in ids;
    }
  }

  lemma NowWritten(was: seq<Node>, nodes: seq<Node>, ids: seq<Id>, island: map<Id, nat>)
    requires |was| == |nodes| && (forall x :: x in ids <==> x in Ids(was)) && forall n | n in was :: n.id in island
    requires forall j | 0 <= j < |nodes| :: nodes[j] == was[j].(island := island[was[j].id])
    ensures Written(nodes, ids, island)
  {
    forall x ensures x in Ids(was) <==> x in Ids(nodes) {
      if x in Ids(was) {
        var j :| 0 <= j < |was| && was[j].id == x;
        assert nodes[j] in nodes;
      }
      if x in Ids(nodes) {
        var j :| 0 <= j < |nodes| && nodes[j].id == x;
        assert was[j] in was;
      }
    }
  }

  // ----- the numbering is determined

  lemma IsLeader(nodes: seq<Node>, edges: seq<Edge>, reps: seq<Id>, n: Node)
    requires IslandsRight(nodes, edges, |reps|) && Leaders(nodes, reps) && n in nodes
    ensures n.id in reps <==> forall m | m in nodes && Reaches(Links(edges), n.id, m.id) :: !Before(m.id, n.id)
  {
    hide Reaches;
    var k := n.island;
    assert Leads(nodes, reps[k], k);
    var l :| l in nodes && l.id == reps[k] && l.island == k;
    BeforeTotal(n.id, reps[k]);
    if n.id in reps {
      var j :| 0 <= j < |reps| && reps[j] == n.id;
      assert Leads(nodes, reps[j], j);
      var m :| m in nodes && m.id == reps[j] && m.island == j;
      ReachesSelf(Links(edges), n.id);
      assert m.island == n.island;
    } else {
      assert Reaches(Links(edges), n.id, l.id);
      assert Before(l.id, n.id);
    }
  }

  function IslandNumbers(nodes: seq<Node>): set<int>
  {
    set n | n in nodes :: n.island
  }

  /** What the numbers say: alike exactly when joined; 0 to count - 1, all taken; and of two islands
      the one with the lower number has an id before every id of the other. */
  lemma IslandsMean(nodes: seq<Node>, edges: seq<Edge>, count: nat)
    requires IslandsRight(nodes, edges, count)
    ensures forall a, b | a in nodes && b in nodes :: a.island == b.island <==> Reaches(Links(edges), a.id, b.id)
    ensures forall n | n in nodes :: 0 <= n.island < count
    ensures forall k :: k in IslandNumbers(nodes) <==> 0 <= k < count
    ensures forall a, b | a in nodes && b in nodes && a.island < b.island ::
              exists m :: m in nodes && m.island == a.island && forall n | n in nodes && n.island == b.island :: Before(m.id, n.id)
  {
    hide Reaches, Links, Before;
    var reps :| |reps| == count && Leaders(nodes, reps);
    forall k | 0 <= k < count ensures k in IslandNumbers(nodes) {
      assert Leads(nodes, reps[k], k);
    }
    forall a, b | a in nodes && b in nodes && a.island < b.island
      ensures exists m :: m in nodes && m.island == a.island && forall n | n in nodes && n.island == b.island :: Before(m.id, n.id)
    {
      assert Leads(nodes, reps[a.island], a.island);
      var m :| m in nodes && m.id == reps[a.island] && m.island == a.island;
      forall n | n in nodes && n.island == b.island ensures Before(m.id, n.id) {
        assert Before(reps[a.island], reps[b.island]) && !Before(n.id, reps[b.island]);
        BeforeTotal(n.id, reps[b.island]);
        if n.id != reps[b.island] {
          BeforeTrans(m.id, reps[b.island], n.id);
        }
      }
    }
  }

  /** Island numbers depend on which ids are joined and on nothing else: not on the
      order of nodes or edges, nor on their kinds, counts or directions. */
  lemma IslandsDetermined(n1: seq<Node>, e1: seq<Edge>, c1: nat, n2: seq<Node>, e2: seq<Edge>, c2: nat)
    requires IslandsRight(n1, e1, c1) && IslandsRight(n2, e2, c2)
    requires Ids(n1) == Ids(n2) && Links(e1) == Links(e2)
    ensures c1 == c2
    ensures forall a, b | a in n1 && b in n2 && a.id == b.id :: a.island == b.island
  {
    hide Reaches;
    var r1 :| |r1| == c1 && Leaders(n1, r1);
    var r2 :| |r2| == c2 && Leaders(n2, r2);
    LeadersWithin(n1, e1, r1, n2, e2, r2);
    LeadersWithin(n2, e2, r2, n1, e1, r1);
    BeforeIsStrict();
    IncreasingUnique(Before, r1, r2);
    forall a, b | a in n1 && b in n2 && a.id == b.id ensures a.island == b.island {
      SameIsland(n1, e1, r1, n2, e2, a, b);
    }
  }

  lemma LeadersWithin(n1: seq<Node>, e1: seq<Edge>, r1: seq<Id>, n2: seq<Node>, e2: seq<Edge>, r2: seq<Id>)
    requires IslandsRight(n1, e1, |r1|) && IslandsRight(n2, e2, |r2|) && Leaders(n1, r1) && Leaders(n2, r2)
    requires Ids(n1) == Ids(n2) && Links(e1) == Links(e2)
    ensures forall x | x in r1 :: x in r2
  {
    hide Reaches;
    forall x | x in r1 ensures x in r2 {
      var k :| 0 <= k < |r1| && r1[k] == x;
      assert Leads(n1, r1[k], k);
      var n :| n in n1 && n.id == r1[k] && n.island == k;
      assert x in Ids(n2);
      var m :| m in n2 && m.id == x;
      IsLeader(n1, e1, r1, n);
      forall o | o in n2 && Reaches(Links(e2), x, o.id) ensures !Before(o.id, x) {
        assert o.id in Ids(n1);
        var p :| p in n1 && p.id == o.id;
      }
      IsLeader(n2, e2, r2, m);
    }
  }

  lemma SameIsland(n1: seq<Node>, e1: seq<Edge>, reps: seq<Id>, n2: seq<Node>, e2: seq<Edge>, a: Node, b: Node)
    requires IslandsRight(n1, e1, |reps|) && IslandsRight(n2, e2, |reps|) && Leaders(n1, reps) && Leaders(n2, reps)
    requires Links(e1) == Links(e2) && a in n1 && b in n2 && a.id == b.id
    ensures a.island == b.island
  {
    hide Reaches;
    assert Leads(n1, reps[a.island], a.island);
    var l :| l in n1 && l.id == reps[a.island] && l.island == a.island;
    assert Leads(n2, reps[a.island], a.island);
    var m :| m in n2 && m.id == reps[a.island] && m.island == a.island;
    assert Reaches(Links(e1), l.id, a.id);
    assert m.island == b.island;
  }

  // ----- the walk that labels one island

  /** The labels so far: the old ones, and next for what the walk has seen. */
  ghost predicate Labelling(before: map<Id, nat>, next: nat, island: map<Id, nat>, seen: set<Id>)
  {
    && island.Keys == seen
    && before.Keys <= seen
    && forall x | x in island :: island[x] == if x in before then before[x] else next
  }

  /** Label everything joined to id with next. */
  method Label(adj: map<Id, seq<Id>>, ghost r: Rel<Id>, id: Id, next: nat, before: map<Id, nat>)
    returns (island: map<Id, nat>)
    requires AdjacencyOf(adj, r) && Closed(r, before.Keys) && id !in before
    ensures Closed(r, island.Keys) && Labelling(before, next, island, island.Keys)
    ensures forall x :: x in island <==> x in before || ReachedFrom(r, {id}, x)
  {
    hide AdjacencyOf, Walking, Visiting, ReachedFrom, Closed;
    island := before[id := next];
    var queue := [id];
    ghost var seen, all := before.Keys + {id}, before.Keys + {id} + Heads(r);
    WalkStarts(r, before.Keys, [id], queue);
    assert Elems([id]) == {id};
    while |queue| > 0
      invariant Walking(r, before.Keys, {id}, seen, queue) && seen <= all
      invariant Labelling(before, next, island, seen)
      decreases all - seen, |queue|
    {
      VisitStarts(adj, r, before.Keys, {id}, seen, queue);
      var cur := queue[0];
      ghost var start, rest := seen, |queue| - 1;
      queue := queue[1..];
      var children := Succ(adj, cur);
      for k := 0 to |children|
        invariant Visiting(adj, r, before.Keys, {id}, seen, queue, cur, k)
        invariant start <= seen <= all && (seen == start ==> |queue| == rest)
        invariant Labelling(before, next, island, seen)
      {
        if children[k] in island {
          VisitOld(adj, r, before.Keys, {id}, seen, queue, cur, k);
          continue;
        }
        VisitNew(adj, r, before.Keys, {id}, seen, queue, cur, k);
        island := island[children[k] := next];
        seen := seen + {children[k]};
        queue := queue + [children[k]];
      }
      VisitEnds(adj, r, before.Keys, {id}, seen, queue, cur);
    }
    assert queue == [];
    WalkEnds(r, before.Keys, {id}, seen);
  }
}
