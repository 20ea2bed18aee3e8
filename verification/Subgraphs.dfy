/** Cutting a map down to a set of ids, and what the cuts the program makes keep. */
module Subgraphs {
  import opened Graphs
  import opened Ordering
  import opened CodeMap
  import opened Walks
  import opened Annotations

  function KeptNodes(nodes: seq<Node>, keep: set<Id>): seq<Node>
  {
    if nodes == [] then []
    else
      var n := nodes[|nodes| - 1];
      KeptNodes(nodes[..|nodes| - 1], keep) + if n.id in keep then [n] else []
  }

  function KeptEdges(edges: seq<Edge>, keep: set<Id>): seq<Edge>
  {
    if edges == [] then []
    else
      var e := edges[|edges| - 1];
      KeptEdges(edges[..|edges| - 1], keep) + if e.from in keep && e.to in keep then [e] else []
  }

  lemma {:induction false} KeptNodesAre(nodes: seq<Node>, keep: set<Id>)
    ensures forall n :: n in KeptNodes(nodes, keep) <==> n in nodes && n.id in keep
  {
    if nodes != [] {
      KeptNodesAre(nodes[..|nodes| - 1], keep);
      assert nodes == nodes[..|nodes| - 1] + [nodes[|nodes| - 1]];
    }
  }

  lemma {:induction false} KeptEdgesAre(edges: seq<Edge>, keep: set<Id>)
    ensures forall e :: e in KeptEdges(edges, keep) <==> e in edges && e.from in keep && e.to in keep
  {
    if edges != [] {
      KeptEdgesAre(edges[..|edges| - 1], keep);
      assert edges == edges[..|edges| - 1] + [edges[|edges| - 1]];
    }
  }

  // ----- a cut, place by place

  /** kept lists, ascending, the places of the nodes to keep, and out holds the nodes there, marks apart. */
  ghost predicate NodesKept(nodes: seq<Node>, keep: set<Id>, kept: seq<nat>, out: seq<Node>)
  {
    && Ascending(kept) && |kept| == |out|
    && (forall i: nat :: i in kept <==> i < |nodes| && nodes[i].id in keep)
    && forall k | 0 <= k < |kept| :: kept[k] < |nodes| && out[k] ==
         nodes[kept[k]].(island := out[k].island, reachable := out[k].reachable, root := out[k].root, boundary := out[k].boundary)
  }

  /** through lists, ascending, the places of the edges with both ends kept, and out holds the edges there. */
  ghost predicate EdgesKept(edges: seq<Edge>, keep: set<Id>, through: seq<nat>, out: seq<Edge>)
  {
    && Ascending(through) && |through| == |out|
    && (forall i: nat :: i in through <==> i < |edges| && edges[i].from in keep && edges[i].to in keep)
    && forall k | 0 <= k < |through| :: through[k] < |edges| && out[k] == edges[through[k]]
  }

  lemma NodesKeptMore(nodes: seq<Node>, n: Node, keep: set<Id>, kept: seq<nat>, out: seq<Node>)
    requires NodesKept(nodes, keep, kept, out)
    ensures n.id in keep ==> NodesKept(nodes + [n], keep, kept + [|nodes|], out + [n])
    ensures n.id !in keep ==> NodesKept(nodes + [n], keep, kept, out)
  {
    AscendingMore(kept, |nodes|);
    assert forall k | 0 <= k < |kept| :: kept[k] in kept;
  }

  lemma NodesCut(nodes: seq<Node>, keep: set<Id>)
    ensures |nodes| == 0 ==> NodesKept(nodes, keep, [], KeptNodes(nodes, keep))
    ensures |nodes| > 0 ==>
              var n := |nodes| - 1;
              KeptNodes(nodes, keep) == if nodes[n].id in keep then KeptNodes(nodes[..n], keep) + [nodes[n]] else KeptNodes(nodes[..n], keep)
  {
  }

  lemma EdgesCut(edges: seq<Edge>, keep: set<Id>)
    ensures |edges| == 0 ==> EdgesKept(edges, keep, [], KeptEdges(edges, keep))
    ensures |edges| > 0 ==>
              var n := |edges| - 1;
              var e := edges[n];
              KeptEdges(edges, keep) == if e.from in keep && e.to in keep then KeptEdges(edges[..n], keep) + [e] else KeptEdges(edges[..n], keep)
  {
  }

  lemma {:induction false} NodePlaces(nodes: seq<Node>, keep: set<Id>) returns (kept: seq<nat>)
    ensures NodesKept(nodes, keep, kept, KeptNodes(nodes, keep))
  {
    hide NodesKept, KeptNodes;
    NodesCut(nodes, keep);
    if |nodes| == 0 {
      kept := [];
    } else {
      var n := |nodes| - 1;
      var front, last := nodes[..n], nodes[n];
      var rest := NodePlaces(front, keep);
      NodesKeptMore(front, last, keep, rest, KeptNodes(front, keep));
      assert nodes == front + [last];
      kept := if last.id in keep then rest + [n] else rest;
    }
  }

  lemma EdgesKeptMore(edges: seq<Edge>, e: Edge, keep: set<Id>, through: seq<nat>, out: seq<Edge>)
    requires EdgesKept(edges, keep, through, out)
    ensures e.from in keep && e.to in keep ==> EdgesKept(edges + [e], keep, through + [|edges|], out + [e])
    ensures !(e.from in keep && e.to in keep) ==> EdgesKept(edges + [e], keep, through, out)
  {
    AscendingMore(through, |edges|);
    assert forall k | 0 <= k < |through| :: through[k] in through;
  }

  lemma {:induction false} EdgePlaces(edges: seq<Edge>, keep: set<Id>) returns (through: seq<nat>)
    ensures EdgesKept(edges, keep, through, KeptEdges(edges, keep))
  {
    hide EdgesKept, KeptEdges;
    EdgesCut(edges, keep);
    if |edges| == 0 {
      through := [];
    } else {
      var n := |edges| - 1;
      var front, e := edges[..n], edges[n];
      var rest := EdgePlaces(front, keep);
      EdgesKeptMore(front, e, keep, rest, KeptEdges(front, keep));
      assert edges == front + [e];
      through := if e.from in keep && e.to in keep then rest + [n] else rest;
    }
  }

  lemma PlacesCarry(nodes: seq<Node>, keep: set<Id>, kept: seq<nat>, a: seq<Node>, b: seq<Node>)
    requires NodesKept(nodes, keep, kept, a) && |a| == |b|
    requires forall k | 0 <= k < |a| ::
               b[k] == a[k].(island := b[k].island, reachable := b[k].reachable, root := b[k].root, boundary := b[k].boundary)
    ensures NodesKept(nodes, keep, kept, b)
  {
  }

  /** Where the nodes and edges of a cut come from. */
  lemma CutPlaces(nodes: seq<Node>, edges: seq<Edge>, keep: set<Id>, outN: seq<Node>, outE: seq<Edge>) returns (kept: seq<nat>, through: seq<nat>)
    requires SameButMarks(KeptNodes(nodes, keep), outN) && outE == KeptEdges(edges, keep)
    ensures NodesKept(nodes, keep, kept, outN) && EdgesKept(edges, keep, through, outE)
  {
    kept := NodePlaces(nodes, keep);
    through := EdgePlaces(edges, keep);
    PlacesCarry(nodes, keep, kept, KeptNodes(nodes, keep), outN);
  }

  lemma PlacesMean(nodes: seq<Node>, edges: seq<Edge>, keep: set<Id>, kept: seq<nat>, outN: seq<Node>, through: seq<nat>, outE: seq<Edge>)
    requires NodesKept(nodes, keep, kept, outN) && EdgesKept(edges, keep, through, outE)
    ensures Ascending(kept) && |kept| == |outN| && Ascending(through) && |through| == |outE|
    ensures forall i: nat :: i in kept <==> i < |nodes| && nodes[i].id in keep
    ensures forall k | 0 <= k < |kept| :: kept[k] < |nodes| && outN[k] ==
              nodes[kept[k]].(island := outN[k].island, reachable := outN[k].reachable, root := outN[k].root, boundary := outN[k].boundary)
    ensures forall i: nat :: i in through <==> i < |edges| && edges[i].from in keep && edges[i].to in keep
    ensures forall k | 0 <= k < |through| :: through[k] < |edges| && outE[k] == edges[through[k]]
  {
  }

  /** A cut lists each node as often as the map does and in its order: no id twice if the map
      has none twice, ids ascending if the map's are, and as many nodes as there are to keep. */
  lemma CutKeepsOrder(nodes: seq<Node>, keep: set<Id>, kept: seq<nat>, out: seq<Node>)
    requires NodesKept(nodes, keep, kept, out)
    ensures forall x :: x in Ids(out) <==> x in keep && x in Ids(nodes)
    ensures Distinct(nodes) ==> Distinct(out)
    ensures (forall i, j | 0 <= i < j < |nodes| :: Before(nodes[i].id, nodes[j].id)) ==>
              forall i, j | 0 <= i < j < |out| :: Before(out[i].id, out[j].id)
    ensures |out| == |set i: nat | i < |nodes| && nodes[i].id in keep|
  {
    hide Before;
    forall x | x in keep && x in Ids(nodes) ensures x in Ids(out) {
      var i: nat :| i < |nodes| && nodes[i].id == x;
      assert i in kept;
      var k :| 0 <= k < |kept| && kept[k] == i;
      assert out[k] in out;
    }
    forall x | x in Ids(out) ensures x in keep && x in Ids(nodes) {
      var k :| 0 <= k < |out| && out[k].id == x;
      assert kept[k] in kept && nodes[kept[k]] in nodes;
    }
    var places := set i: nat | i < |nodes| && nodes[i].id in keep;
    assert forall i: nat :: i in places <==> i in kept;
    AscendingCount(kept, places);
  }

  lemma {:induction false} AscendingCount(s: seq<nat>, all: set<nat>)
    requires Ascending(s) && forall i :: i in all <==> i in s
    ensures |all| == |s|
  {
    if s == [] {
      assert all == {};
    } else {
      var n := |s| - 1;
      var rest := all - {s[n]};
      assert s == s[..n] + [s[n]];
      forall i ensures i in rest <==> i in s[..n] {
        if i in s[..n] {
          var k :| 0 <= k < n && s[k] == i;
        }
      }
      AscendingCount(s[..n], rest);
      assert s[n] in all;
    }
  }

  /** A node all of whose dependents are kept keeps its in-degree. */
  lemma {:induction false} InCountKept(edges: seq<Edge>, keep: set<Id>, x: Id)
    requires x in keep && forall e | e in edges && Structural(e.kind) && e.to == x :: e.from in keep
    ensures InCount(KeptEdges(edges, keep), x) == InCount(edges, x)
  {
    if edges != [] {
      var front, e := edges[..|edges| - 1], edges[|edges| - 1];
      assert edges == front + [e];
      InCountKept(front, keep, x);
      var kept := KeptEdges(front, keep);
      assert (kept + [e])[..|kept|] == kept;
      assert kept + [] == kept;
    }
  }

  // ----- live and dead code

  /** Within what the entries reach, everything is still reached from them. */
  lemma LiveStaysReached(nodes: seq<Node>, edges: seq<Edge>, live: set<Id>)
    requires forall x :: x in live <==> ReachedFrom(Dependencies(edges), EntryIds(nodes), x)
    ensures forall x | x in live :: ReachedFrom(Dependencies(KeptEdges(edges, live)), EntryIds(KeptNodes(nodes, live)), x)
  {
    hide Reaches, ReachedFrom, Dependencies;
    var r, seeds := Dependencies(edges), EntryIds(nodes);
    var r', seeds' := Dependencies(KeptEdges(edges, live)), EntryIds(KeptNodes(nodes, live));
    KeptNodesAre(nodes, live);
    var still := set x | x in live && ReachedFrom(r', seeds', x);
    forall s | s in seeds ensures s in still {
      SeedReached(r, seeds, s);
      SeedReached(r', seeds', s);
    }
    forall d | d in r && d.0 in still ensures d.1 in still {
      LiveStep(edges, seeds, live, r', seeds', d);
    }
    forall x | x in live ensures x in still {
      ReachedClosed(r, seeds, still, x);
    }
  }

  lemma LiveStep(edges: seq<Edge>, seeds: set<Id>, live: set<Id>, r': Rel<Id>, seeds': set<Id>, d: (Id, Id))
    requires r' == Dependencies(KeptEdges(edges, live)) && d in Dependencies(edges) && d.0 in live
    requires forall x :: x in live <==> ReachedFrom(Dependencies(edges), seeds, x)
    requires ReachedFrom(r', seeds', d.0)
    ensures d.1 in live && ReachedFrom(r', seeds', d.1)
  {
    hide ReachedFrom;
    ReachedStep(Dependencies(edges), seeds, d.0, d.1);
    var e :| e in edges && Structural(e.kind) && (e.from, e.to) == d;
    KeptEdgesAre(edges, live);
    assert e in KeptEdges(edges, live) && d in r';
    ReachedStep(r', seeds', d.0, d.1);
  }

  ghost function Unreached(nodes: seq<Node>): set<Id>
  {
    set n | n in nodes && !n.reachable :: n.id
  }

  /** The live ids and the detached ids split the nodes, and no dependency leads from the first to the second. */
  lemma LiveAndDetachedSplit(nodes: seq<Node>, edges: seq<Edge>, live: set<Id>)
    requires ReachableRight(nodes, edges)
    requires forall x :: x in live <==> ReachedFrom(Dependencies(edges), EntryIds(nodes), x)
    ensures forall n | n in nodes :: n.id in live <==> n.id !in Unreached(nodes)
    ensures forall e | e in edges && Structural(e.kind) :: !(e.from in live && e.to in Unreached(nodes))
  {
    hide ReachedFrom;
    var r := Dependencies(edges);
    forall n | n in nodes ensures n.id in live <==> n.id !in Unreached(nodes) {
      if n.id in Unreached(nodes) {
        var m :| m in nodes && !m.reachable && m.id == n.id;
      }
    }
    forall e | e in edges && Structural(e.kind) && e.from in live ensures e.to !in Unreached(nodes) {
      assert (e.from, e.to) in r;
      ReachedStep(r, EntryIds(nodes), e.from, e.to);
    }
  }

  /** Nothing in the detached part is reachable there. */
  lemma DetachedStaysDetached(nodes: seq<Node>, edges: seq<Edge>)
    requires ReachableRight(nodes, edges)
    ensures EntryIds(KeptNodes(nodes, Unreached(nodes))) == {}
  {
    hide ReachedFrom;
    KeptNodesAre(nodes, Unreached(nodes));
    forall n | n in nodes && n.entry ensures n.id !in Unreached(nodes) {
      SeedReached(Dependencies(edges), EntryIds(nodes), n.id);
    }
  }

  // ----- scoping to a path prefix

  predicate Under(prefix: string, n: Node)
  {
    prefix <= n.file || prefix <= n.id
  }

  function Scope(nodes: seq<Node>, prefix: string): set<Id>
  {
    set n | n in nodes && Under(prefix, n) :: n.id
  }

  /** Both ends of every dependency with an end in scope, and the scope. */
  function WithNeighbours(edges: seq<Edge>, scope: set<Id>): set<Id>
  {
    scope
    + (set e | e in edges && Structural(e.kind) && e.from in scope :: e.to)
    + (set e | e in edges && Structural(e.kind) && e.to in scope :: e.from)
  }

  predicate IsOrphan(edges: seq<Edge>, n: Node)
  {
    n.kind != KindExternal && !n.entry && InCount(edges, n.id) == 0
  }

  /** Scoping leaves every dependency that touches the scope in place, so a node in scope
      keeps its in-degree and its orphan verdict. */
  lemma ScopeKeepsDependents(nodes: seq<Node>, edges: seq<Edge>, prefix: string, n: Node)
    requires n in nodes && n.id in Scope(nodes, prefix)
    ensures var kept := KeptEdges(edges, WithNeighbours(edges, Scope(nodes, prefix)));
            && InCount(kept, n.id) == InCount(edges, n.id)
            && (IsOrphan(kept, n) <==> IsOrphan(edges, n))
            && (forall e | e in edges && Structural(e.kind) && (e.from == n.id || e.to == n.id) :: e in kept)
  {
    hide InCount;
    var keep := WithNeighbours(edges, Scope(nodes, prefix));
    KeptEdgesAre(edges, keep);
    InCountKept(edges, keep, n.id);
  }

  function OrphansOf(edges: seq<Edge>, nodes: seq<Node>): seq<Node>
  {
    if nodes == [] then []
    else
      var n := nodes[|nodes| - 1];
      OrphansOf(edges, nodes[..|nodes| - 1]) + if IsOrphan(edges, n) then [n] else []
  }

  /** The cut nodes in order, boundary set on exactly those outside the scope. */
  ghost predicate Scoped(cut: seq<Node>, scope: set<Id>, out: seq<Node>)
  {
    && |cut| == |out|
    && forall i | 0 <= i < |cut| ::
         out[i] == cut[i].(boundary := cut[i].id !in scope, island := out[i].island, reachable := out[i].reachable, root := out[i].root)
  }

  ghost predicate OrphansListed(edges: seq<Edge>, nodes: seq<Node>, places: seq<nat>, out: seq<Node>)
  {
    && Ascending(places) && |places| == |out|
    && (forall i: nat :: i in places <==> i < |nodes| && IsOrphan(edges, nodes[i]))
    && forall k | 0 <= k < |places| :: places[k] < |nodes| && out[k] == nodes[places[k]]
  }

  lemma OneMoreOrphan(edges: seq<Edge>, nodes: seq<Node>, n: Node, places: seq<nat>, out: seq<Node>)
    requires OrphansListed(edges, nodes, places, out)
    ensures IsOrphan(edges, n) ==> OrphansListed(edges, nodes + [n], places + [|nodes|], out + [n])
    ensures !IsOrphan(edges, n) ==> OrphansListed(edges, nodes + [n], places, out)
  {
    hide IsOrphan;
    AscendingMore(places, |nodes|);
    assert forall k | 0 <= k < |places| :: places[k] in places;
  }

  lemma OrphansCut(edges: seq<Edge>, nodes: seq<Node>)
    ensures |nodes| == 0 ==> OrphansListed(edges, nodes, [], OrphansOf(edges, nodes))
    ensures |nodes| > 0 ==>
              var n := |nodes| - 1;
              OrphansOf(edges, nodes) ==
              if IsOrphan(edges, nodes[n]) then OrphansOf(edges, nodes[..n]) + [nodes[n]] else OrphansOf(edges, nodes[..n])
  {
    hide IsOrphan;
  }

  lemma {:induction false} OrphansAt(edges: seq<Edge>, nodes: seq<Node>) returns (places: seq<nat>)
    ensures OrphansListed(edges, nodes, places, OrphansOf(edges, nodes))
  {
    hide IsOrphan, OrphansListed, OrphansOf;
    OrphansCut(edges, nodes);
    if |nodes| == 0 {
      places := [];
    } else {
      var n := |nodes| - 1;
      var front, last := nodes[..n], nodes[n];
      var rest := OrphansAt(edges, front);
      OneMoreOrphan(edges, front, last, rest, OrphansOf(edges, front));
      assert nodes == front + [last];
      places := if IsOrphan(edges, last) then rest + [n] else rest;
    }
  }

  /** An orphan is neither external nor an entry, and no dependency leads to it. */
  lemma OrphanMeans(edges: seq<Edge>, n: Node)
    ensures IsOrphan(edges, n) <==>
              n.kind != KindExternal && !n.entry && !exists e :: e in edges && e.kind != Contains && e.to == n.id
  {
    CountedDependents(edges, n.id);
  }

  /** What scoping keeps: the nodes whose file or id begins with the prefix, and the ends of
      dependencies whose other end is one of them. */
  lemma ScopeMeans(nodes: seq<Node>, edges: seq<Edge>, prefix: string, x: Id)
    ensures x in Scope(nodes, prefix) <==> exists n :: n in nodes && n.id == x && (prefix <= n.file || prefix <= n.id)
    ensures var scope := Scope(nodes, prefix);
            x in WithNeighbours(edges, scope) <==>
              x in scope || exists e :: e in edges && e.kind != Contains && ((e.from in scope && e.to == x) || (e.to in scope && e.from == x))
  {
  }

  lemma ScopedPlaces(nodes: seq<Node>, keep: set<Id>, scope: set<Id>, out: seq<Node>) returns (kept: seq<nat>)
    requires Scoped(KeptNodes(nodes, keep), scope, out)
    ensures NodesKept(nodes, keep, kept, out)
    ensures forall n | n in out :: n.boundary <==> n.id !in scope
  {
    kept := NodePlaces(nodes, keep);
    PlacesCarry(nodes, keep, kept, KeptNodes(nodes, keep), out);
  }

  lemma NeighboursOneMore(edges: seq<Edge>, e: Edge, scope: set<Id>)
    ensures WithNeighbours(edges + [e], scope) == WithNeighbours(edges, scope)
              + (if Structural(e.kind) && e.from in scope then {e.to} else {})
              + (if Structural(e.kind) && e.to in scope then {e.from} else {})
  {
    assert forall d :: d in edges + [e] <==> d in edges || d == e;
  }

  lemma AllMarked(cut: seq<Node>, out: seq<Node>, edges: seq<Edge>, live: set<Id>)
    requires SameButMarks(cut, out) && ReachableRight(out, edges) && forall n | n in cut :: n.id in live
    requires forall x | x in live :: ReachedFrom(Dependencies(edges), EntryIds(cut), x)
    ensures forall n | n in out :: n.reachable
  {
    hide ReachedFrom;
    EntriesCarry(cut, out);
    forall n | n in out ensures n.reachable {
      var i :| 0 <= i < |out| && out[i] == n;
      assert cut[i] in cut;
    }
  }

  lemma NoneMarked(cut: seq<Node>, out: seq<Node>, edges: seq<Edge>)
    requires SameButMarks(cut, out) && ReachableRight(out, edges) && EntryIds(cut) == {}
    ensures forall n | n in out :: !n.reachable
  {
    EntriesCarry(cut, out);
  }

  lemma NoScope(prefix: string)
    ensures Scope([], prefix) == {}
  {
  }

  lemma NoNeighbour(scope: set<Id>)
    ensures WithNeighbours([], scope) == scope
  {
  }

  lemma ScopeOneMore(nodes: seq<Node>, n: Node, prefix: string)
    ensures Scope(nodes + [n], prefix) == Scope(nodes, prefix) + if Under(prefix, n) then {n.id} else {}
  {
    assert forall m :: m in nodes + [n] <==> m in nodes || m == n;
  }

  /** The boundary flag is set on the first i nodes. */
  ghost predicate BoundarySet(cut: seq<Node>, scope: set<Id>, out: seq<Node>, i: nat)
  {
    && |cut| == |out| && i <= |cut|
    && (forall j | 0 <= j < i :: out[j] == cut[j].(boundary := cut[j].id !in scope))
    && (forall j | i <= j < |cut| :: out[j] == cut[j])
  }

  lemma NoBoundary(cut: seq<Node>, scope: set<Id>)
    ensures BoundarySet(cut, scope, cut, 0)
  {
  }

  lemma BoundaryStep(cut: seq<Node>, scope: set<Id>, out: seq<Node>, i: nat)
    requires BoundarySet(cut, scope, out, i) && i < |cut|
    ensures BoundarySet(cut, scope, out[i := out[i].(boundary := out[i].id !in scope)], i + 1)
  {
  }

  lemma BoundaryDone(kept: seq<Node>, cut: seq<Node>, scope: set<Id>, out: seq<Node>, edges: seq<Edge>, islands: nat)
    requires SameButMarks(kept, cut) && BoundarySet(cut, scope, out, |cut|) && Annotated(cut, edges, islands)
    ensures Scoped(kept, scope, out) && Annotated(out, edges, islands)
  {
    hide Annotated;
    BoundaryCarry(cut, out, edges, islands);
  }
}
