/** The map object: the annotations it writes on its nodes and the views taken of it. */
module Views {
  import opened Graphs
  import opened Ordering
  import opened CodeMap
  import opened Tarjan
  import opened Search
  import opened Cycles
  import opened Walks
  import opened Islands
  import opened Annotations
  import opened Subgraphs
  import opened Rollup
  import opened Collapsing

  class Map {
    var nodes: seq<Node>
    var edges: seq<Edge>
    var level: Level
    var stats: Stats

    constructor (nodes: seq<Node>, edges: seq<Edge>, level: Level, stats: Stats)
      ensures this.nodes == nodes && this.edges == edges && this.level == level && this.stats == stats
    {
      this.nodes, this.edges, this.level, this.stats := nodes, edges, level, stats;
    }

    /** Adjacency lists, in edge order. */
    method Adjacency(structuralOnly: bool) returns (adj: map<Id, seq<Id>>)
      ensures forall x :: Succ(adj, x) == Targets(edges, structuralOnly, x)
    {
      adj := map[];
      for i := 0 to |edges|
        invariant forall x :: Succ(adj, x) == Targets(edges[..i], structuralOnly, x)
      {
        var e := edges[i];
        assert edges[..i + 1][..i] == edges[..i] && edges[..i + 1][i] == e;
        if structuralOnly && !Structural(e.kind) {
          continue;
        }
        adj := adj[e.from := Succ(adj, e.from) + [e.to]];
      }
      assert edges[..|edges|] == edges;
    }

    /** Adjacency lists over every edge, in both directions. */
    method Neighbours() returns (adj: map<Id, seq<Id>>)
      ensures AdjacencyOf(adj, Links(edges))
    {
      hide AdjacencyOf;
      adj := map[];
      assert AdjacencyOf(adj, Links([])) by { NoNeighbours(adj); }
      for i := 0 to |edges|
        invariant AdjacencyOf(adj, Links(edges[..i]))
      {
        var e := edges[i];
        assert edges[..i + 1] == edges[..i] + [e];
        LinksOneMore(edges[..i], e);
        Neighbour(adj, Links(edges[..i]), e.from, e.to);
        adj := adj[e.from := Succ(adj, e.from) + [e.to]];
        Neighbour(adj, Links(edges[..i]) + {(e.from, e.to)}, e.to, e.from);
        adj := adj[e.to := Succ(adj, e.to) + [e.from]];
        assert Links(edges[..i + 1]) == Links(edges[..i]) + {(e.from, e.to)} + {(e.to, e.from)};
      }
      assert edges[..|edges|] == edges;
    }

    /** Number the islands; returns how many there are. */
    method AssignIslands() returns (next: nat)
      modifies this`nodes
      ensures SameButMarks(old(nodes), nodes) && IslandsRight(nodes, edges, next)
      ensures forall i | 0 <= i < |nodes| :: nodes[i].root == old(nodes[i]).root && nodes[i].reachable == old(nodes[i]).reachable
    {
      hide AdjacencyOf, Labelled, Led, IslandsRight, Closed, Sort, Sorted, Symmetric, Links;
      var adj := Neighbours();
      ghost var r, was := Links(edges), nodes;
      LinksSymmetric(edges);
      var ids := Sort(Before, IdList(nodes));
      SortedIds(nodes, ids);

      var island: map<Id, nat> := map[];
      ghost var reps: seq<Id> := [];
      next := 0;
      NothingLabelled(r, ids);
      for i := 0 to |ids|
        invariant nodes == was
        invariant Labelled(r, island, reps) && Led(ids, i, island, reps) && next == |reps|
      {
        if ids[i] in island {
          OldLeaders(ids, i, island, reps);
          continue;
        }
        LabelledClosed(r, island, reps);
        var more := Label(adj, r, ids[i], next, island);
        assert ReachedFrom(r, {ids[i]}, ids[i]) by { ReachesSelf(r, ids[i]); }
        NewIsland(r, island, reps, ids[i], more);
        NewLeader(ids, i, island, reps, more);
        island, reps, next := more, reps + [ids[i]], next + 1;
      }

      AllLabelled(nodes, ids, island, reps);
      for i := 0 to |nodes|
        invariant |nodes| == |was|
        invariant forall j | 0 <= j < i :: nodes[j] == was[j].(island := island[was[j].id])
        invariant forall j | i <= j < |nodes| :: nodes[j] == was[j]
      {
        nodes := nodes[i := nodes[i].(island := island[nodes[i].id])];
      }
      NowWritten(was, nodes, ids, island);
      LabelsMakeIslands(nodes, edges, ids, island, reps);
    }

    /** Mark what the entry points reach along dependencies. */
    method MarkReachable()
      modifies this`nodes
      ensures |nodes| == |old(nodes)|
      ensures forall i | 0 <= i < |nodes| :: nodes[i] == old(nodes)[i].(reachable := nodes[i].reachable)
      ensures ReachableRight(nodes, edges)
    {
      hide AdjacencyOf, ReachedFrom, Dependencies, Targets;
      ghost var was := nodes;
      var adj := Adjacency(true);
      ghost var r := Dependencies(edges);
      TargetsAdjacency(edges, adj);
      var entries := Entries(nodes);
      EntriesListed(nodes);
      var seen := Walk(adj, r, entries);
      for i := 0 to |nodes|
        invariant |nodes| == |was|
        invariant forall j | 0 <= j < i :: nodes[j] == was[j].(reachable := was[j].id in seen)
        invariant forall j | i <= j < |nodes| :: nodes[j] == was[j]
      {
        nodes := nodes[i := nodes[i].(reachable := nodes[i].id in seen)];
      }
      ReachableWritten(was, edges, nodes, seen);
    }

    /** How many structural edges point at each id; ids with none are absent. */
    method InDegree() returns (degree: map<Id, nat>)
      ensures forall x :: (if x in degree then degree[x] else 0) == InCount(edges, x)
    {
      degree := map[];
      for i := 0 to |edges|
        invariant forall x :: (if x in degree then degree[x] else 0) == InCount(edges[..i], x)
      {
        var e := edges[i];
        assert edges[..i + 1][..i] == edges[..i] && edges[..i + 1][i] == e;
        if Structural(e.kind) {
          degree := degree[e.to := (if e.to in degree then degree[e.to] else 0) + 1];
        }
      }
      assert edges[..|edges|] == edges;
    }

    /** Name each island's roots, appointing its least id when nothing there is free of dependents. */
    method MarkRoots()
      modifies this`nodes
      ensures |nodes| == |old(nodes)|
      ensures forall i | 0 <= i < |nodes| :: nodes[i] == old(nodes)[i].(root := nodes[i].root)
      ensures RootsRight(nodes, edges)
    {
      hide InCount, RootsSoFar, Rootless, LeastOfIsland, RootsRight, Before;
      ghost var was := nodes;
      var degree := InDegree();
      var hasRoot: set<int>, lowest: map<int, Id> := {}, map[];
      assert RootsSoFar(was, edges, nodes, 0, hasRoot, lowest) by { RootsStart(was, edges); }
      for i := 0 to |nodes|
        invariant |nodes| == |was| && forall j | i <= j < |was| :: nodes[j] == was[j]
        invariant RootsSoFar(was, edges, nodes, i, hasRoot, lowest)
      {
        RootStep(was, edges, nodes, i, hasRoot, lowest);
        var n := nodes[i];
        var free := n.id !in degree || degree[n.id] == 0;
        nodes := nodes[i := n.(root := free)];
        if free {
          hasRoot := hasRoot + {n.island};
        }
        if n.island !in lowest || Before(n.id, lowest[n.island]) {
          lowest := lowest[n.island := n.id];
        }
      }
      ghost var half := nodes;
      FirstPassNodes(was, edges, half, hasRoot, lowest);
      for i := 0 to |nodes|
        invariant |nodes| == |was| && forall j | i <= j < |was| :: nodes[j] == half[j]
        invariant forall j | 0 <= j < i :: nodes[j] == was[j].(root := nodes[j].root) && RootRule(was, edges, was[j], nodes[j].root)
      {
        var n := nodes[i];
        FirstPassDone(was, edges, half, hasRoot, lowest, was[i]);
        assert n == was[i].(root := InCount(edges, was[i].id) == 0);
        if n.island !in hasRoot && lowest[n.island] == n.id {
          nodes := nodes[i := n.(root := true)];
        }
      }
      RootsWritten(was, edges, nodes);
    }

    /** Fill in islands, reachability and roots, and the counts that go with them. */
    method Annotate()
      modifies this`nodes, this`stats
      ensures SameButMarks(old(nodes), nodes) && Annotated(nodes, edges, stats.islands)
      ensures stats == old(stats).(islands := stats.islands, detached := CountDetached(nodes))
    {
      hide IslandsRight, ReachableRight, RootsRight;
      var count := AssignIslands();
      ghost var islanded := nodes;
      MarkReachable();
      ghost var marked := nodes;
      MarkRoots();
      IslandsCarry(islanded, nodes, edges, count);
      ReachableCarry(marked, nodes, edges);
      stats := stats.(islands := count, detached := 0);
      ghost var now := nodes;
      for i := 0 to |nodes|
        invariant nodes == now
        invariant stats == old(stats).(islands := count, detached := CountDetached(nodes[..i]))
      {
        assert nodes[..i + 1][..i] == nodes[..i];
        if !nodes[i].reachable {
          stats := stats.(detached := stats.detached + 1);
        }
      }
      assert nodes[..|nodes|] == nodes;
    }

    /** The strongly connected components with more than one member or a self-edge.
        pops are the components as they were popped: disjoint, and covering every node visited.
        order is the order in which nodes leave the frame stack, rounds how often
        the loop over frames ran. */
    method Cycles() returns (out: seq<seq<Id>>, ghost pops: seq<set<Id>>, ghost order: seq<Id>, ghost rounds: nat)
      ensures CyclesListed(nodes, edges, out)
      ensures Ids(nodes) <= Elems(order) <= Ids(nodes) + Heads(Dependencies(edges))
      ensures Split(Dependencies(edges), Elems(order), pops)
      ensures Grounded(nodes, edges) ==> RoundsPaid(nodes, edges, order, rounds)
    {
      hide Reaches, Running, Found, Split, CyclesListed, Sort, Dependencies, Targets, RoundsPaid;
      var adj := Adjacency(true);
      ghost var r := Dependencies(edges);
      AdjacencyOfTargets(edges, adj);
      NothingRuns(adj, r);

      var m := Machine(0, map[], map[], [], {}, []);
      ghost var s: State<Id> := State(0, map[], map[], {}, {}, {});
      out, pops, order, rounds := [], [], [], 0;
      for i := 0 to |nodes|
        invariant Running(adj, r, s, m, out, pops, order, rounds) && m.work == []
        invariant m.indices.Keys <= Ids(nodes) + Heads(r)
        invariant forall j | 0 <= j < i :: nodes[j].id in m.indices
      {
        if nodes[i].id !in m.indices {
          m, out, s, pops, order, rounds := Explore(adj, r, nodes[i].id, m, out, s, pops, order, rounds);
        }
      }
      NothingRunning(adj, r, s, m, out, pops, order, rounds);
      assert Ids(nodes) <= m.indices.Keys;
      FoundAll(nodes, edges, m.indices.Keys, out);
      out := Sort(CycleBefore, out);
      if Grounded(nodes, edges) {
        RoundsAddUp(nodes, edges, adj, order, rounds);
      }
    }

    /** The map cut down to the nodes in keep, annotated afresh. */
    method Subgraph(keep: set<Id>) returns (out: Map, ghost kept: seq<nat>, ghost through: seq<nat>)
      ensures fresh(out) && out.level == level && out.edges == KeptEdges(edges, keep)
      ensures SameButMarks(KeptNodes(nodes, keep), out.nodes)
      ensures NodesKept(nodes, keep, kept, out.nodes) && EdgesKept(edges, keep, through, out.edges)
      ensures out.stats == stats.(islands := out.stats.islands, detached := CountDetached(out.nodes))
      ensures Annotated(out.nodes, out.edges, out.stats.islands)
    {
      hide Annotated, SameButMarks, CountDetached, NodesKept, EdgesKept;
      var ns: seq<Node>, es: seq<Edge> := [], [];
      for i := 0 to |nodes|
        invariant ns == KeptNodes(nodes[..i], keep)
      {
        assert nodes[..i + 1][..i] == nodes[..i];
        if nodes[i].id in keep {
          ns := ns + [nodes[i]];
        }
      }
      for i := 0 to |edges|
        invariant es == KeptEdges(edges[..i], keep)
      {
        assert edges[..i + 1][..i] == edges[..i];
        if edges[i].from in keep && edges[i].to in keep {
          es := es + [edges[i]];
        }
      }
      assert nodes[..|nodes|] == nodes && edges[..|edges|] == edges;
      out := new Map(ns, es, level, stats);
      out.Annotate();
      kept, through := CutPlaces(nodes, edges, keep, out.nodes, out.edges);
    }

    /** What is reached from the given ids, or from every entry point when none are given. */
    method Reachable(from: seq<Id>) returns (out: Map, ghost live: set<Id>, ghost kept: seq<nat>, ghost through: seq<nat>)
      ensures fresh(out) && out.level == level
      ensures NodesKept(nodes, live, kept, out.nodes) && EdgesKept(edges, live, through, out.edges)
      ensures out.edges == KeptEdges(edges, live) && SameButMarks(KeptNodes(nodes, live), out.nodes)
      ensures Annotated(out.nodes, out.edges, out.stats.islands)
      ensures forall x :: x in live <==>
                ReachedFrom(Dependencies(edges), if from == [] then EntryIds(nodes) else Elems(from), x)
      ensures from == [] ==> forall n | n in out.nodes :: n.reachable
    {
      hide AdjacencyOf, ReachedFrom, Dependencies, Targets, IslandsRight, RootsRight, NodesKept, EdgesKept;
      var roots := from;
      if |roots| == 0 {
        roots := Entries(nodes);
        EntriesListed(nodes);
      }
      var adj := Adjacency(true);
      TargetsAdjacency(edges, adj);
      var seen := Walk(adj, Dependencies(edges), roots);
      live := seen;
      out, kept, through := Subgraph(seen);
      if from == [] {
        LiveStaysReached(nodes, edges, live);
        KeptNodesAre(nodes, live);
        AllMarked(KeptNodes(nodes, live), out.nodes, out.edges, live);
      }
    }

    /** What no entry point reaches, as last annotated. */
    method Detached() returns (out: Map, ghost kept: seq<nat>, ghost through: seq<nat>)
      ensures fresh(out) && out.level == level && out.edges == KeptEdges(edges, Unreached(nodes))
      ensures NodesKept(nodes, Unreached(nodes), kept, out.nodes) && EdgesKept(edges, Unreached(nodes), through, out.edges)
      ensures SameButMarks(KeptNodes(nodes, Unreached(nodes)), out.nodes)
      ensures Annotated(out.nodes, out.edges, out.stats.islands)
      ensures ReachableRight(nodes, edges) ==> forall n | n in out.nodes :: !n.reachable
    {
      hide ReachedFrom, Dependencies, IslandsRight, RootsRight, ReachableRight, NodesKept, EdgesKept, SameButMarks;
      var keep: set<Id> := {};
      for i := 0 to |nodes|
        invariant keep == Unreached(nodes[..i])
      {
        assert nodes[..i + 1] == nodes[..i] + [nodes[i]];
        if !nodes[i].reachable {
          keep := keep + {nodes[i].id};
        }
      }
      assert nodes[..|nodes|] == nodes;
      out, kept, through := Subgraph(keep);
      if ReachableRight(nodes, edges) {
        DetachedStaysDetached(nodes, edges);
        NoneMarked(KeptNodes(nodes, keep), out.nodes, out.edges);
      }
    }

    /** The nodes nothing depends on that are neither external nor entry points. */
    method Orphans() returns (out: seq<Node>, ghost places: seq<nat>)
      ensures out == OrphansOf(edges, nodes)
      ensures Ascending(places) && |places| == |out|
      ensures forall i: nat :: i in places <==>
                (i < |nodes| && nodes[i].kind != KindExternal && !nodes[i].entry
                 && !exists e :: e in edges && e.kind != Contains && e.to == nodes[i].id)
      ensures forall k | 0 <= k < |places| :: places[k] < |nodes| && out[k] == nodes[places[k]]
    {
      var reached: set<Id> := {};
      for i := 0 to |edges|
        invariant forall x :: x in reached <==> InCount(edges[..i], x) > 0
      {
        assert edges[..i + 1][..i] == edges[..i];
        if Structural(edges[i].kind) {
          reached := reached + {edges[i].to};
        }
      }
      assert edges[..|edges|] == edges;
      out := [];
      for i := 0 to |nodes|
        invariant out == OrphansOf(edges, nodes[..i])
      {
        assert nodes[..i + 1][..i] == nodes[..i];
        var n := nodes[i];
        if n.kind == KindExternal || n.entry || n.id in reached {
          continue;
        }
        out := out + [n];
      }
      assert nodes[..|nodes|] == nodes;
      places := OrphansAt(edges, nodes);
      hide IsOrphan, OrphansOf;
      forall i: nat | i < |nodes|
        ensures IsOrphan(edges, nodes[i]) <==>
                  (nodes[i].kind != KindExternal && !nodes[i].entry
                   && !exists e :: e in edges && e.kind != Contains && e.to == nodes[i].id)
      {
        OrphanMeans(edges, nodes[i]);
      }
    }

    /** The nodes under a path prefix and the nodes just outside that a dependency joins to
        them, these marked as boundary. */
    method FilterUnder(prefix: string) returns (out: Map, ghost kept: seq<nat>, ghost through: seq<nat>)
      ensures prefix == "" ==> out == this
      ensures prefix != "" ==> fresh(out) && out.level == level && out.edges == KeptEdges(edges, WithNeighbours(edges, Scope(nodes, prefix)))
      ensures prefix != "" ==>
                && NodesKept(nodes, WithNeighbours(edges, Scope(nodes, prefix)), kept, out.nodes)
                && EdgesKept(edges, WithNeighbours(edges, Scope(nodes, prefix)), through, out.edges)
                && forall n | n in out.nodes :: n.boundary <==> n.id !in Scope(nodes, prefix)
      ensures prefix != "" ==> Scoped(KeptNodes(nodes, WithNeighbours(edges, Scope(nodes, prefix))), Scope(nodes, prefix), out.nodes)
      ensures prefix != "" ==> Annotated(out.nodes, out.edges, out.stats.islands)
    {
      hide Annotated, Scope, WithNeighbours, KeptEdges, KeptNodes, SameButMarks, BoundarySet, Scoped, NodesKept, EdgesKept;
      if prefix == "" {
        return this, [], [];
      }
      var inScope: set<Id> := {};
      NoScope(prefix);
      for i := 0 to |nodes|
        invariant inScope == Scope(nodes[..i], prefix)
      {
        ScopeOneMore(nodes[..i], nodes[i], prefix);
        assert nodes[..i + 1] == nodes[..i] + [nodes[i]];
        if prefix <= nodes[i].file || prefix <= nodes[i].id {
          inScope := inScope + {nodes[i].id};
        }
      }
      assert nodes[..|nodes|] == nodes;
      var keep := inScope;
      NoNeighbour(inScope);
      for i := 0 to |edges|
        invariant keep == WithNeighbours(edges[..i], inScope)
      {
        NeighboursOneMore(edges[..i], edges[i], inScope);
        assert edges[..i + 1] == edges[..i] + [edges[i]];
        var e := edges[i];
        if !Structural(e.kind) {
          continue;
        }
        if e.from in inScope {
          keep := keep + {e.to};
        }
        if e.to in inScope {
          keep := keep + {e.from};
        }
      }
      assert edges[..|edges|] == edges;
      out, kept, through := Subgraph(keep);
      ghost var cut := out.nodes;
      NoBoundary(cut, inScope);
      for i := 0 to |out.nodes|
        invariant |out.nodes| == |cut| && BoundarySet(cut, inScope, out.nodes, i)
        invariant out.level == level && out.edges == KeptEdges(edges, keep) && EdgesKept(edges, keep, through, out.edges)
        invariant Annotated(cut, out.edges, out.stats.islands)
      {
        BoundaryStep(cut, inScope, out.nodes, i);
        out.nodes := out.nodes[i := out.nodes[i].(boundary := out.nodes[i].id !in inScope)];
      }
      BoundaryDone(KeptNodes(nodes, keep), cut, inScope, out.nodes, out.edges, out.stats.islands);
      kept := ScopedPlaces(nodes, keep, inScope, out.nodes);
    }

    /** The map rolled up to a coarser level: one node per target, dependencies between
        different targets added up. */
    method Collapse(to: Level) returns (out: Map, ghost q: Quotient)
      ensures to == level || to == LevelFunction ==> out == this
      ensures to != level && to != LevelFunction ==>
                && fresh(out) && out.level == to
                && Collapsed(nodes, edges, to, q) && out.nodes == q.nodes && out.edges == q.rolled.edges
                && Annotated(out.nodes, out.edges, out.stats.islands)
                && out.stats == stats.(islands := out.stats.islands, detached := CountDetached(out.nodes))
    {
      hide CountDetached;
      hide Annotated, Tallied, ListsNodes, ListsEdges, Target, Sum, SameButMarks, Remap, Merged;
      q := Quotient([], [], Rolled(map[], []));
      if to == level || to == LevelFunction {
        return this, q;
      }
      var remap: map<Id, Id>, merged: map<Id, Node> := map[], map[];
      NoNodes(nodes, to);
      for i := 0 to |nodes|
        invariant remap == Remap(nodes[..i], to) && merged == Merged(nodes[..i], to)
      {
        OneMoreNode(nodes, i, to);
        var target := Target(nodes[i], to);
        remap := remap[nodes[i].id := target.id];
        if target.id !in merged {
          merged := merged[target.id := target];
        } else {
          var existing := merged[target.id];
          merged := merged[target.id := existing.(entry := existing.entry || target.entry,
                                                  utility := existing.utility && target.utility)];
        }
      }
      assert nodes[..|nodes|] == nodes;

      var byKey: map<Key, Edge> := map[];
      NothingTallied(Keying(remap));
      for i := 0 to |edges|
        invariant Tallied(edges[..i], Keying(remap), byKey)
      {
        var e := edges[i];
        assert edges[..i + 1] == edges[..i] + [e];
        TallyOneMore(edges[..i], Keying(remap), byKey, e);
        if !Structural(e.kind) {
          continue;
        }
        var from, into := At(remap, e.from), At(remap, e.to);
        if from == "" || into == "" || from == into {
          continue;
        }
        var k := Key(from, into, e.kind);
        if k !in byKey {
          byKey := byKey[k := Edge(from, into, e.kind, e.count, e.dynamic)];
        } else {
          var existing := byKey[k];
          byKey := byKey[k := existing.(count := existing.count + e.count, dynamic := existing.dynamic && e.dynamic)];
        }
      }
      assert edges[..|edges|] == edges;
      MergedNamed(nodes, to);
      TalliedKeys(edges, Keying(remap), byKey);
      var ns := SortedNodes(merged);
      var es := SortedEdges(byKey);
      out := new Map(ns, es, to, stats);
      out.Annotate();
      q := Quotient(ns, out.nodes, Rolled(byKey, es));
    }
  }
}
