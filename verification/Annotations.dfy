/** What the annotation pass writes on each node, and what follows from it. */
module Annotations {
  import opened Graphs
  import opened Ordering
  import opened CodeMap
  import opened Tarjan
  import opened Search
  import opened Walks
  import opened Islands
  import opened Cycles

  function EntryIds(nodes: seq<Node>): set<Id>
  {
    set n | n in nodes && n.entry :: n.id
  }

  /** How many structural edges point at x. */
  function InCount(edges: seq<Edge>, x: Id): nat
  {
    if edges == [] then 0
    else
      var e := edges[|edges| - 1];
      InCount(edges[..|edges| - 1], x) + if Structural(e.kind) && e.to == x then 1 else 0
  }

  ghost predicate ReachableRight(nodes: seq<Node>, edges: seq<Edge>)
  {
    forall n | n in nodes :: n.reachable <==> ReachedFrom(Dependencies(edges), EntryIds(nodes), n.id)
  }

  /** No node of island k is free of dependents. */
  ghost predicate Rootless(nodes: seq<Node>, edges: seq<Edge>, k: int)
  {
    forall m | m in nodes && m.island == k :: InCount(edges, m.id) > 0
  }

  ghost predicate LeastOfIsland(nodes: seq<Node>, n: Node)
  {
    forall m | m in nodes && m.island == n.island :: !Before(m.id, n.id)
  }

  /** Roots are the nodes nothing depends on, and a rootless island's least id. */
  ghost predicate RootsRight(nodes: seq<Node>, edges: seq<Edge>)
  {
    forall n | n in nodes ::
      n.root <==> InCount(edges, n.id) == 0 || (Rootless(nodes, edges, n.island) && LeastOfIsland(nodes, n))
  }

  ghost predicate Annotated(nodes: seq<Node>, edges: seq<Edge>, islands: nat)
  {
    IslandsRight(nodes, edges, islands) && ReachableRight(nodes, edges) && RootsRight(nodes, edges)
  }

  /** Only the three annotations differ. */
  ghost predicate SameButMarks(a: seq<Node>, b: seq<Node>)
  {
    && |a| == |b|
    && forall i | 0 <= i < |a| :: b[i] == a[i].(island := b[i].island, reachable := b[i].reachable, root := b[i].root)
  }

  /** The distinct nodes with a structural edge to x. */
  function Dependents(edges: seq<Edge>, x: Id): set<Id>
  {
    set e | e in edges && Structural(e.kind) && e.to == x :: e.from
  }

  /** No node has two structural edges, of whatever kinds, to x. */
  ghost predicate OneEdgeEach(edges: seq<Edge>, x: Id)
  {
    forall i, j | 0 <= i < j < |edges| && Structural(edges[i].kind) && Structural(edges[j].kind)
                  && edges[i].to == x && edges[j].to == x :: edges[i].from != edges[j].from
  }

  /** The in-degree is the number of distinct dependents exactly when none of them has two
      structural edges to x; otherwise it is more. */
  lemma {:induction false} InDegreeAndDependents(edges: seq<Edge>, x: Id)
    ensures InCount(edges, x) >= |Dependents(edges, x)|
    ensures InCount(edges, x) == |Dependents(edges, x)| <==> OneEdgeEach(edges, x)
  {
    if edges != [] {
      var front, e := edges[..|edges| - 1], edges[|edges| - 1];
      InDegreeAndDependents(front, x);
      hide OneEdgeEach, Dependents;
      assert edges == front + [e];
      LastEdge(front, e, x);
      LastDependent(front, e, x);
    }
  }

  lemma LastDependent(front: seq<Edge>, e: Edge, x: Id)
    ensures Dependents(front + [e], x) ==
            Dependents(front, x) + if Structural(e.kind) && e.to == x then {e.from} else {}
  {
    assert forall d :: d in front + [e] <==> d in front || d == e;
    assert e in front + [e];
  }

  lemma LastEdge(front: seq<Edge>, e: Edge, x: Id)
    ensures OneEdgeEach(front + [e], x) <==>
            OneEdgeEach(front, x) && (Structural(e.kind) && e.to == x ==> e.from !in Dependents(front, x))
  {
    var edges := front + [e];
    assert forall i | 0 <= i < |front| :: edges[i] == front[i];
    assert edges[|front|] == e;
    if Structural(e.kind) && e.to == x {
      if e.from in Dependents(front, x) {
        var d :| d in front && Structural(d.kind) && d.to == x && d.from == e.from;
        var i :| 0 <= i < |front| && front[i] == d;
        assert edges[i].from == edges[|front|].from;
      } else {
        forall i | 0 <= i < |front| && Structural(front[i].kind) && front[i].to == x ensures front[i].from != e.from {
          assert front[i] in front;
        }
      }
    }
  }

  /** A node that both calls and extends another is counted twice. */
  lemma TwoKindsCountTwice()
    ensures exists edges, x :: InCount(edges, x) > |Dependents(edges, x)|
  {
    var calling, extending := Edge("a", "b", Calls, 1, false), Edge("a", "b", Extends, 1, false);
    var edges := [calling, extending];
    InDegreeAndDependents(edges, "b");
    assert edges[0].from == edges[1].from && !OneEdgeEach(edges, "b");
  }

  lemma {:induction false} InCountZero(edges: seq<Edge>, x: Id)
    ensures InCount(edges, x) == 0 <==> x !in Heads(Dependencies(edges))
  {
    if edges == [] {
      assert Dependencies(edges) == {};
    } else {
      var front, e := edges[..|edges| - 1], edges[|edges| - 1];
      InCountZero(front, x);
      assert edges == front + [e];
      assert Dependencies(edges) == Dependencies(front) + if Structural(e.kind) then {(e.from, e.to)} else {} by {
        assert forall d :: d in edges <==> d in front || d == e;
        assert e in edges;
      }
      assert Heads(Dependencies(edges)) == Heads(Dependencies(front)) + if Structural(e.kind) then {e.to} else {} by {
        if Structural(e.kind) {
          InHeads(Dependencies(edges), e.from, e.to);
        }
        forall h | h in Heads(Dependencies(front)) ensures h in Heads(Dependencies(edges)) {
          var p :| p in Dependencies(front) && p.1 == h;
          assert p in Dependencies(edges);
        }
      }
    }
  }

  // ----- reachability

  /** The reachable nodes hold the entries, follow every dependency, and lie within any
      set that does both. */
  lemma ReachableIsLeast(nodes: seq<Node>, edges: seq<Edge>, c: set<Id>)
    requires ReachableRight(nodes, edges) && Grounded(nodes, edges)
    ensures forall n | n in nodes && n.entry :: n.reachable
    ensures forall a, b | a in nodes && b in nodes && a.reachable && (a.id, b.id) in Dependencies(edges) :: b.reachable
    ensures EntryIds(nodes) <= c && Closed(Dependencies(edges), c) ==> forall n | n in nodes && n.reachable :: n.id in c
  {
    hide Reaches;
    var r := Dependencies(edges);
    forall n | n in nodes && n.entry ensures n.reachable {
      ReachesSelf(r, n.id);
      assert ReachedFrom(r, EntryIds(nodes), n.id);
    }
    forall a, b | a in nodes && b in nodes && a.reachable && (a.id, b.id) in r ensures b.reachable {
      var s :| s in EntryIds(nodes) && Reaches(r, s, a.id);
      ReachesStep(r, s, a.id, b.id);
      assert ReachedFrom(r, EntryIds(nodes), b.id);
    }
    if EntryIds(nodes) <= c && Closed(r, c) {
      forall n | n in nodes && n.reachable ensures n.id in c {
        var s :| s in EntryIds(nodes) && Reaches(r, s, n.id);
        ReachesClosed(r, c, s, n.id);
      }
    }
  }

  // ----- roots

  /** What the annotations say in terms of edges. Reachable: an entry, or led to from a reachable
      node by a dependency, and nothing besides. Root: no dependency leads to the node, or one leads
      to every node of its island and its id is the least there. */
  lemma MarksMean(nodes: seq<Node>, edges: seq<Edge>, islands: nat)
    requires Annotated(nodes, edges, islands)
    ensures forall n | n in nodes && n.entry :: n.reachable
    ensures forall e, a, b | e in edges && e.kind != Contains && a in nodes && b in nodes && e.from == a.id && e.to == b.id && a.reachable ::
              b.reachable
    ensures forall c: set<Id>, n | n in nodes && n.reachable
              && (forall m | m in nodes && m.entry :: m.id in c)
              && (forall e | e in edges && e.kind != Contains && e.from in c :: e.to in c) :: n.id in c
    ensures forall n | n in nodes :: n.root <==>
              !DependedOn(edges, n.id)
              || forall m | m in nodes && m.island == n.island :: DependedOn(edges, m.id) && !Before(m.id, n.id)
  {
    hide ReachedFrom, Dependencies, Before, InCount, DependedOn;
    var r, seeds := Dependencies(edges), EntryIds(nodes);
    forall n | n in nodes && n.entry ensures n.reachable {
      SeedReached(r, seeds, n.id);
    }
    forall e, a, b | e in edges && e.kind != Contains && a in nodes && b in nodes && e.from == a.id && e.to == b.id && a.reachable
      ensures b.reachable
    {
      EdgeByEdge(edges, a.id, b.id);
      ReachedStep(r, seeds, a.id, b.id);
    }
    forall c: set<Id>, n | n in nodes && n.reachable && (forall m | m in nodes && m.entry :: m.id in c)
        && (forall e | e in edges && e.kind != Contains && e.from in c :: e.to in c)
      ensures n.id in c
    {
      forall d | d in r && d.0 in c ensures d.1 in c {
        EdgeByEdge(edges, d.0, d.1);
      }
      ReachedClosed(r, seeds, c, n.id);
    }
    forall x ensures InCount(edges, x) > 0 <==> DependedOn(edges, x) {
      CountedDependents(edges, x);
    }
  }

  ghost predicate DependedOn(edges: seq<Edge>, x: Id)
  {
    exists e :: e in edges && e.kind != Contains && e.to == x
  }

  lemma {:induction false} CountedDependents(edges: seq<Edge>, x: Id)
    ensures InCount(edges, x) > 0 <==> exists e :: e in edges && e.kind != Contains && e.to == x
    ensures DependedOn(edges, x) <==> exists e :: e in edges && e.kind != Contains && e.to == x
  {
    if edges != [] {
      var front, e := edges[..|edges| - 1], edges[|edges| - 1];
      CountedDependents(front, x);
      assert edges == front + [e];
      assert forall d :: d in edges <==> d in front || d == e;
    }
  }

  /** How many nodes nothing reaches. */
  lemma {:induction false} CountDetachedIs(nodes: seq<Node>)
    ensures CountDetached(nodes) == |set i | 0 <= i < |nodes| && !nodes[i].reachable|
  {
    var a := set i | 0 <= i < |nodes| && !nodes[i].reachable;
    if nodes == [] {
      assert a == {};
    } else {
      var n := |nodes| - 1;
      var front := nodes[..n];
      CountDetachedIs(front);
      var b := set i | 0 <= i < |front| && !front[i].reachable;
      assert a == b + if nodes[n].reachable then {} else {n};
    }
  }

  /** Every island has a root. */
  lemma IslandHasRoot(nodes: seq<Node>, edges: seq<Edge>, islands: nat, k: nat)
    requires IslandsRight(nodes, edges, islands) && RootsRight(nodes, edges) && k < islands
    ensures exists n :: n in nodes && n.island == k && n.root
  {
    hide Reaches, InCount;
    var reps :| |reps| == islands && Leaders(nodes, reps);
    assert Leads(nodes, reps[k], k);
    var n :| n in nodes && n.id == reps[k] && n.island == k;
    assert LeastOfIsland(nodes, n);
    if !Rootless(nodes, edges, k) {
      var m :| m in nodes && m.island == k && InCount(edges, m.id) == 0;
      assert m.root;
    }
  }

  ghost function IslandIds(nodes: seq<Node>, k: int): set<Id>
  {
    set n | n in nodes && n.island == k :: n.id
  }

  lemma IslandClosed(nodes: seq<Node>, edges: seq<Edge>, islands: nat, k: int)
    requires IslandsRight(nodes, edges, islands) && Grounded(nodes, edges)
    ensures Closed(Links(edges), IslandIds(nodes, k))
  {
    hide Reaches;
    forall l | l in Links(edges) && l.0 in IslandIds(nodes, k) ensures l.1 in IslandIds(nodes, k) {
      var a :| a in nodes && a.island == k && a.id == l.0;
      assert l.1 in Ids(nodes);
      var b :| b in nodes && b.id == l.1;
      ReachesEdge(Links(edges), a.id, b.id);
    }
  }

  ghost predicate Preceded(r: Rel<Id>, s: set<Id>, y: Id)
  {
    exists p :: p in s && (p, y) in r
  }

  ghost function Ancestors(r: Rel<Id>, s: set<Id>, x: Id): set<Id>
  {
    set y | y in s && Reaches(r, y, x)
  }

  /** In a set that edges do not leave, where every member has a predecessor, there is a cycle. */
  lemma {:induction false} CycleAmong(r: Rel<Id>, s: set<Id>, x: Id) returns (c: set<Id>)
    requires Closed(r, s) && x in s && forall y | y in s :: Preceded(r, s, y)
    ensures IsCycle(r, c) && c <= s
    decreases Ancestors(r, s, x)
  {
    hide Reaches, Preceded, IsCycle, Ancestors;
    var p := Predecessor(r, s, x);
    if Reaches(r, x, p) {
      c := CycleThrough(r, s, x, p);
    } else {
      FewerAncestors(r, s, x, p);
      c := CycleAmong(r, s, p);
    }
  }

  lemma Predecessor(r: Rel<Id>, s: set<Id>, y: Id) returns (p: Id)
    requires Preceded(r, s, y)
    ensures p in s && (p, y) in r
  {
    p :| p in s && (p, y) in r;
  }

  lemma FewerAncestors(r: Rel<Id>, s: set<Id>, x: Id, p: Id)
    requires x in s && (p, x) in r && !Reaches(r, x, p)
    ensures Ancestors(r, s, p) < Ancestors(r, s, x)
  {
    hide Reaches;
    ReachesSelf(r, x);
    forall y | y in Ancestors(r, s, p) ensures y in Ancestors(r, s, x) {
      ReachesStep(r, y, p, x);
    }
    assert x in Ancestors(r, s, x) && x !in Ancestors(r, s, p);
  }

  lemma CycleThrough(r: Rel<Id>, s: set<Id>, x: Id, p: Id) returns (c: set<Id>)
    requires Closed(r, s) && x in s && p in s && (p, x) in r && Reaches(r, x, p)
    ensures IsCycle(r, c) && c <= s
  {
    hide Reaches, IsComponent;
    ReachesEdge(r, p, x);
    ReachesSelf(r, x);
    c := set z | z in s && Mutual(r, x, z);
    ComponentOf(r, s, x);
    assert {x, p} <= c;
    if x != p {
      assert c == {x, p} + (c - {x, p});
    }
  }

  lemma ComponentOf(r: Rel<Id>, s: set<Id>, x: Id)
    requires Closed(r, s) && x in s
    ensures IsComponent(r, set z | z in s && Mutual(r, x, z))
  {
    hide Reaches;
    var c := set z | z in s && Mutual(r, x, z);
    ReachesSelf(r, x);
    assert x in c;
    forall y, z | y in c && z in c ensures Reaches(r, y, z) {
      ReachesTrans(r, y, x, z);
    }
    forall y, z | y in c && Mutual(r, y, z) ensures z in c {
      ReachesTrans(r, x, y, z);
      ReachesTrans(r, z, y, x);
      ReachesClosed(r, s, x, z);
    }
  }

  /** An island whose root had to be appointed holds a reported cycle entirely. */
  lemma AppointedRootMeansCycle(nodes: seq<Node>, edges: seq<Edge>, islands: nat, k: nat, cycles: seq<seq<Id>>)
    requires Annotated(nodes, edges, islands) && Grounded(nodes, edges) && k < islands
    requires Rootless(nodes, edges, k) && CyclesListed(nodes, edges, cycles)
    ensures exists o :: o in cycles && Elems(o) <= IslandIds(nodes, k)
  {
    hide Reaches, InCount, IsCycle, ReachableRight, RootsRight, Preceded;
    var s := IslandIds(nodes, k);
    var r := Dependencies(edges);
    IslandClosed(nodes, edges, islands, k);
    assert r <= Links(edges);
    forall y | y in s ensures Preceded(r, s, y) {
      PredecessorInside(nodes, edges, k, y);
    }
    var reps :| |reps| == islands && Leaders(nodes, reps);
    assert Leads(nodes, reps[k], k);
    var c := CycleAmong(r, s, reps[k]);
    CycleListed(nodes, edges, k, c, cycles);
  }

  lemma CycleListed(nodes: seq<Node>, edges: seq<Edge>, k: int, c: set<Id>, cycles: seq<seq<Id>>)
    requires CyclesListed(nodes, edges, cycles) && IsCycle(Dependencies(edges), c) && c <= IslandIds(nodes, k)
    ensures exists o :: o in cycles && Elems(o) <= IslandIds(nodes, k)
  {
    hide Reaches;
    var x :| x in c;
    var n :| n in nodes && n.id == x && n.island == k;
    ReachesSelf(Dependencies(edges), x);
    assert Listed(cycles, c);
  }

  lemma PredecessorInside(nodes: seq<Node>, edges: seq<Edge>, k: int, y: Id)
    requires Rootless(nodes, edges, k) && Closed(Links(edges), IslandIds(nodes, k)) && y in IslandIds(nodes, k)
    ensures Preceded(Dependencies(edges), IslandIds(nodes, k), y)
  {
    var n :| n in nodes && n.island == k && n.id == y;
    assert InCount(edges, y) > 0;
    InCountZero(edges, y);
    var d :| d in Dependencies(edges) && d.1 == y;
    assert (d.1, d.0) in Links(edges);
  }

  // ----- carrying each annotation past the next pass

  /** Same ids, entries and islands. */
  ghost predicate SameIslands(a: seq<Node>, b: seq<Node>)
  {
    && |a| == |b|
    && forall i | 0 <= i < |a| :: b[i].id == a[i].id && b[i].entry == a[i].entry && b[i].island == a[i].island
  }

  lemma IslandsCarry(a: seq<Node>, b: seq<Node>, edges: seq<Edge>, islands: nat)
    requires IslandsRight(a, edges, islands) && SameIslands(a, b)
    ensures IslandsRight(b, edges, islands)
  {
    hide Reaches, Leaders;
    forall m, n | m in b && n in b
      ensures m.island == n.island <==> Reaches(Links(edges), m.id, n.id)
    {
      var i :| 0 <= i < |b| && b[i] == m;
      var j :| 0 <= j < |b| && b[j] == n;
      assert a[i] in a && a[j] in a;
    }
    var reps :| |reps| == islands && Leaders(a, reps);
    LeadersCarry(a, b, reps);
  }

  lemma LeadersCarry(a: seq<Node>, b: seq<Node>, reps: seq<Id>)
    requires Leaders(a, reps) && SameIslands(a, b)
    ensures Leaders(b, reps)
  {
    hide Before;
    forall n | n in b ensures 0 <= n.island < |reps| && !Before(n.id, reps[n.island]) {
      var i :| 0 <= i < |b| && b[i] == n;
      assert a[i] in a;
    }
    forall k | 0 <= k < |reps| ensures Leads(b, reps[k], k) {
      assert Leads(a, reps[k], k);
      var i :| 0 <= i < |a| && a[i].id == reps[k] && a[i].island == k;
      assert b[i] in b;
    }
  }

  ghost predicate SameEntries(a: seq<Node>, b: seq<Node>)
  {
    |a| == |b| && forall i | 0 <= i < |a| :: b[i].id == a[i].id && b[i].entry == a[i].entry
  }

  lemma EntriesCarry(a: seq<Node>, b: seq<Node>)
    requires SameEntries(a, b)
    ensures EntryIds(a) == EntryIds(b) && Ids(a) == Ids(b)
  {
    EntriesWithin(a, b);
    EntriesWithin(b, a);
  }

  lemma EntriesWithin(a: seq<Node>, b: seq<Node>)
    requires SameEntries(a, b)
    ensures EntryIds(a) <= EntryIds(b) && Ids(a) <= Ids(b)
  {
    forall n | n in a ensures n.id in Ids(b) && (n.entry ==> n.id in EntryIds(b)) {
      var i :| 0 <= i < |a| && a[i] == n;
      assert b[i] in b;
    }
  }

  lemma ReachableCarry(a: seq<Node>, b: seq<Node>, edges: seq<Edge>)
    requires ReachableRight(a, edges) && SameIslands(a, b) && forall i | 0 <= i < |a| :: a[i].reachable == b[i].reachable
    ensures ReachableRight(b, edges)
  {
    hide ReachedFrom;
    EntriesCarry(a, b);
    forall n | n in b ensures n.reachable <==> ReachedFrom(Dependencies(edges), EntryIds(b), n.id) {
      var i :| 0 <= i < |b| && b[i] == n;
      assert a[i] in a;
    }
  }

  // ----- the two passes that choose roots

  /** After i nodes of the first pass: their roots, the islands that have one, and each island's least id. */
  ghost predicate RootsSoFar(was: seq<Node>, edges: seq<Edge>, nodes: seq<Node>, i: nat, hasRoot: set<int>, lowest: map<int, Id>)
  {
    && |nodes| == |was| && i <= |was|
    && (forall j | 0 <= j < i :: nodes[j] == was[j].(root := InCount(edges, was[j].id) == 0))
    && (forall j | i <= j < |was| :: nodes[j] == was[j])
    && (forall j | 0 <= j < i && InCount(edges, was[j].id) == 0 :: was[j].island in hasRoot)
    && (forall k | k in hasRoot :: exists j :: 0 <= j < i && was[j].island == k && InCount(edges, was[j].id) == 0)
    && (forall j | 0 <= j < i :: was[j].island in lowest && !Before(was[j].id, lowest[was[j].island]))
    && (forall k | k in lowest :: exists j :: 0 <= j < i && was[j].island == k && was[j].id == lowest[k])
  }

  lemma RootStep(was: seq<Node>, edges: seq<Edge>, nodes: seq<Node>, i: nat, hasRoot: set<int>, lowest: map<int, Id>)
    requires RootsSoFar(was, edges, nodes, i, hasRoot, lowest) && i < |was|
    ensures var n := was[i]; var free := InCount(edges, n.id) == 0;
            RootsSoFar(was, edges, nodes[i := nodes[i].(root := free)], i + 1,
                       if free then hasRoot + {n.island} else hasRoot,
                       if n.island !in lowest || Before(n.id, lowest[n.island]) then lowest[n.island := n.id] else lowest)
  {
    hide InCount;
    var n := was[i];
    if n.island in lowest {
      BeforeTotal(n.id, lowest[n.island]);
      forall j | 0 <= j < i && was[j].island == n.island && Before(n.id, lowest[n.island]) ensures !Before(was[j].id, n.id) {
        BeforeTotal(was[j].id, lowest[n.island]);
        if Before(was[j].id, n.id) {
          BeforeTrans(was[j].id, n.id, lowest[n.island]);
        }
      }
    } else {
      BeforeTotal(n.id, n.id);
    }
  }

  lemma FirstPassDone(was: seq<Node>, edges: seq<Edge>, nodes: seq<Node>, hasRoot: set<int>, lowest: map<int, Id>, n: Node)
    requires RootsSoFar(was, edges, nodes, |was|, hasRoot, lowest) && n in was
    ensures n.island in lowest
    ensures n.island !in hasRoot <==> Rootless(was, edges, n.island)
    ensures lowest[n.island] == n.id <==> LeastOfIsland(was, n)
  {
    hide InCount;
    var j :| 0 <= j < |was| && was[j].island == n.island && was[j].id == lowest[n.island];
    BeforeTotal(n.id, lowest[n.island]);
    if LeastOfIsland(was, n) {
      assert !Before(was[j].id, n.id);
    }
    forall m | m in was && m.island == n.island ensures !Before(m.id, lowest[n.island]) {
      var k :| 0 <= k < |was| && was[k] == m;
    }
    if n.island in hasRoot {
      var k :| 0 <= k < |was| && was[k].island == n.island && InCount(edges, was[k].id) == 0;
      assert was[k] in was;
    } else {
      forall m | m in was && m.island == n.island ensures InCount(edges, m.id) > 0 {
        var k :| 0 <= k < |was| && was[k] == m;
      }
    }
  }

  /** The rule for one root, read off the nodes before the pass. */
  ghost predicate RootRule(was: seq<Node>, edges: seq<Edge>, n: Node, root: bool)
  {
    root <==> InCount(edges, n.id) == 0 || (Rootless(was, edges, n.island) && LeastOfIsland(was, n))
  }

  lemma RootsWritten(was: seq<Node>, edges: seq<Edge>, nodes: seq<Node>)
    requires |nodes| == |was| && forall j | 0 <= j < |was| :: nodes[j] == was[j].(root := nodes[j].root)
    requires forall j | 0 <= j < |was| :: RootRule(was, edges, was[j], nodes[j].root)
    ensures RootsRight(nodes, edges)
  {
    hide InCount;
    forall i | 0 <= i < |was| ensures was[i] in was && nodes[i] in nodes {
    }
    forall n | n in nodes ensures RootRule(nodes, edges, n, n.root) {
      var j :| 0 <= j < |was| && nodes[j] == n;
      assert RootRule(was, edges, was[j], nodes[j].root);
      RulesAgree(was, edges, nodes, j);
    }
  }

  lemma RulesAgree(was: seq<Node>, edges: seq<Edge>, nodes: seq<Node>, j: nat)
    requires SameIslands(was, nodes) && j < |was|
    ensures Rootless(was, edges, was[j].island) <==> Rootless(nodes, edges, nodes[j].island)
    ensures LeastOfIsland(was, was[j]) <==> LeastOfIsland(nodes, nodes[j])
  {
    hide InCount, Before;
    forall m | m in was ensures exists o :: o in nodes && o.id == m.id && o.island == m.island {
      var k :| 0 <= k < |was| && was[k] == m;
      assert nodes[k] in nodes;
    }
    forall m | m in nodes ensures exists o :: o in was && o.id == m.id && o.island == m.island {
      var k :| 0 <= k < |was| && nodes[k] == m;
      assert was[k] in was;
    }
  }

  lemma RootsStart(was: seq<Node>, edges: seq<Edge>)
    ensures RootsSoFar(was, edges, was, 0, {}, map[])
  {
  }

  lemma FirstPassNodes(was: seq<Node>, edges: seq<Edge>, nodes: seq<Node>, hasRoot: set<int>, lowest: map<int, Id>)
    requires RootsSoFar(was, edges, nodes, |was|, hasRoot, lowest)
    ensures |nodes| == |was| && forall j | 0 <= j < |was| :: nodes[j] == was[j].(root := InCount(edges, was[j].id) == 0)
  {
  }

  // ----- entry points and what they reach

  /** The ids of the entry points, in node order. */
  function Entries(nodes: seq<Node>): seq<Id>
  {
    if nodes == [] then []
    else
      var n := nodes[|nodes| - 1];
      Entries(nodes[..|nodes| - 1]) + if n.entry then [n.id] else []
  }

  lemma {:induction false} EntriesListed(nodes: seq<Node>)
    ensures Elems(Entries(nodes)) == EntryIds(nodes)
  {
    if nodes != [] {
      var front, n := nodes[..|nodes| - 1], nodes[|nodes| - 1];
      EntriesListed(front);
      assert nodes == front + [n];
      assert EntryIds(nodes) == EntryIds(front) + if n.entry then {n.id} else {};
      assert Elems(Entries(nodes)) == Elems(Entries(front)) + if n.entry then {n.id} else {};
    }
  }

  lemma TargetsAdjacency(edges: seq<Edge>, adj: map<Id, seq<Id>>)
    requires forall x :: Succ(adj, x) == Targets(edges, true, x)
    ensures AdjacencyOf(adj, Dependencies(edges))
  {
    hide Targets;
    AdjacencyOfTargets(edges, adj);
  }

  lemma ReachableWritten(was: seq<Node>, edges: seq<Edge>, nodes: seq<Node>, seen: set<Id>)
    requires forall x :: x in seen <==> ReachedFrom(Dependencies(edges), EntryIds(was), x)
    requires |nodes| == |was| && forall j | 0 <= j < |was| :: nodes[j] == was[j].(reachable := was[j].id in seen)
    ensures ReachableRight(nodes, edges)
  {
    hide ReachedFrom, Dependencies;
    EntriesCarry(was, nodes);
  }

  function CountDetached(nodes: seq<Node>): nat
  {
    if nodes == [] then 0
    else CountDetached(nodes[..|nodes| - 1]) + if nodes[|nodes| - 1].reachable then 0 else 1
  }

  /** Annotations do not look at the boundary flag. */
  lemma BoundaryCarry(a: seq<Node>, b: seq<Node>, edges: seq<Edge>, islands: nat)
    requires Annotated(a, edges, islands)
    requires |a| == |b| && forall i | 0 <= i < |a| :: b[i] == a[i].(boundary := b[i].boundary)
    ensures Annotated(b, edges, islands)
  {
    hide IslandsRight, ReachableRight, InCount, Rootless, LeastOfIsland;
    IslandsCarry(a, b, edges, islands);
    ReachableCarry(a, b, edges);
    forall n | n in b ensures RootRule(b, edges, n, n.root) {
      var j :| 0 <= j < |b| && b[j] == n;
      assert a[j] in a;
      RulesAgree(a, edges, b, j);
    }
  }
}
