/** Merging per-file graphs into one map, whatever order the workers finish in. */
module Collecting {
  import opened Ordering
  import opened CodeMap
  import opened Wrappers
  import opened Rollup
  import opened Collapsing

  /** One file's contribution: what it owns, and placeholders for what others own. */
  datatype FileGraph = FileGraph(nodes: seq<Node>, provisional: seq<Node>, edges: seq<Edge>, stats: Stats)

  /** What has been gathered so far. */
  datatype Gathered = Gathered(nodes: map<Id, Node>, provisional: set<Id>, edges: map<Key, Edge>, stats: Stats)

  const NOTHING := Gathered(map[], {}, map[], Stats(0, 0, 0, 0, 0, 0, 0, 0, 0, 0, 0))

  function Plain(e: Edge): Option<Key>
  {
    Some(KeyOf(e))
  }

  function PlainKeying(): Edge -> Option<Key>
  {
    (e: Edge) => Plain(e)
  }

  function PutNodes(g: Gathered, ns: seq<Node>): Gathered
  {
    if ns == [] then g
    else
      var h, n := PutNodes(g, ns[..|ns| - 1]), ns[|ns| - 1];
      h.(nodes := h.nodes[n.id := n], provisional := h.provisional - {n.id})
  }

  /** A placeholder never displaces an owner's node. */
  function PutProvisional(g: Gathered, ns: seq<Node>): Gathered
  {
    if ns == [] then g
    else
      var h, n := PutProvisional(g, ns[..|ns| - 1]), ns[|ns| - 1];
      if n.id in h.nodes && n.id !in h.provisional then h
      else h.(nodes := h.nodes[n.id := n], provisional := h.provisional + {n.id})
  }

  function PutEdges(g: Gathered, es: seq<Edge>): Gathered
  {
    if es == [] then g
    else
      var h, e := PutEdges(g, es[..|es| - 1]), es[|es| - 1];
      h.(edges := Add(h.edges, KeyOf(e), e))
  }

  function AddStats(a: Stats, b: Stats): Stats
  {
    a.(callSites := a.callSites + b.callSites, resolved := a.resolved + b.resolved, dynamic := a.dynamic + b.dynamic,
       unresolved := a.unresolved + b.unresolved, builtin := a.builtin + b.builtin, unreadable := a.unreadable + b.unreadable,
       cached := a.cached + b.cached, routes := a.routes + b.routes,
       routesUnresolved := a.routesUnresolved + b.routesUnresolved)
  }

  function MergeOne(g: Gathered, r: FileGraph): Gathered
  {
    var h := PutEdges(PutProvisional(PutNodes(g, r.nodes), r.provisional), r.edges);
    h.(stats := AddStats(h.stats, r.stats))
  }

  function MergeAll(rs: seq<FileGraph>): Gathered
  {
    if rs == [] then NOTHING else MergeOne(MergeAll(rs[..|rs| - 1]), rs[|rs| - 1])
  }

  class Collector {
    var nodes: map<Id, Node>
    var provisional: set<Id>
    var edges: map<Key, Edge>
    var stats: Stats

    constructor ()
      ensures Value() == NOTHING
    {
      nodes, provisional, edges, stats := map[], {}, map[], NOTHING.stats;
    }

    function Value(): Gathered
      reads this
    {
      Gathered(nodes, provisional, edges, stats)
    }

    /** Fold one file's graph in. */
    method Merge(r: FileGraph)
      modifies this
      ensures Value() == MergeOne(old(Value()), r)
    {
      TakeNodes(r.nodes);
      TakeProvisional(r.provisional);
      TakeEdges(r.edges);
      stats := AddStats(stats, r.stats);
    }

    method TakeNodes(ns: seq<Node>)
      modifies this`nodes, this`provisional
      ensures Value() == PutNodes(old(Value()), ns)
    {
      for i := 0 to |ns|
        invariant Value() == PutNodes(old(Value()), ns[..i])
      {
        assert ns[..i + 1][..i] == ns[..i];
        nodes := nodes[ns[i].id := ns[i]];
        provisional := provisional - {ns[i].id};
      }
      assert ns[..|ns|] == ns;
    }

    method TakeProvisional(ns: seq<Node>)
      modifies this`nodes, this`provisional
      ensures Value() == PutProvisional(old(Value()), ns)
    {
      for i := 0 to |ns|
        invariant Value() == PutProvisional(old(Value()), ns[..i])
      {
        assert ns[..i + 1][..i] == ns[..i];
        var n := ns[i];
        if n.id in nodes && n.id !in provisional {
          continue;
        }
        nodes := nodes[n.id := n];
        provisional := provisional + {n.id};
      }
      assert ns[..|ns|] == ns;
    }

    method TakeEdges(es: seq<Edge>)
      modifies this`edges
      ensures Value() == PutEdges(old(Value()), es)
    {
      for i := 0 to |es|
        invariant Value() == PutEdges(old(Value()), es[..i])
      {
        assert es[..i + 1][..i] == es[..i];
        var e := es[i];
        var k := KeyOf(e);
        if k !in edges {
          edges := edges[k := e];
        } else {
          var existing := edges[k];
          edges := edges[k := existing.(count := existing.count + e.count, dynamic := existing.dynamic && e.dynamic)];
        }
      }
      assert es[..|es|] == es;
    }

    /** List everything in order, dropping edges with an end nothing declared. */
    method Finish() returns (outN: seq<Node>, outE: seq<Edge>)
      requires forall x | x in nodes :: nodes[x].id == x
      requires forall k | k in edges :: KeyOf(edges[k]) == k
      ensures ListsNodes(nodes, outN) && ListsEdges(Solid(Value()), outE)
      ensures forall n :: n in outN <==> n.id in nodes && nodes[n.id] == n
      ensures forall e :: e in outE <==> KeyOf(e) in edges && edges[KeyOf(e)] == e && e.from in nodes && e.to in nodes
      ensures forall i, j | 0 <= i < j < |outN| :: Before(outN[i].id, outN[j].id)
      ensures Distinct(outN) && Grounded(outN, outE)
    {
      outN := SortedNodes(nodes);
      outE := SortedEdges(Solid(Value()));
      FinishedMap(Value(), outN, outE);
    }
  }

  /** The edges both of whose ends are known. */
  function Solid(g: Gathered): map<Key, Edge>
  {
    map k | k in g.edges && g.edges[k].from in g.nodes && g.edges[k].to in g.nodes :: g.edges[k]
  }

  lemma FinishedMap(g: Gathered, outN: seq<Node>, outE: seq<Edge>)
    requires ListsNodes(g.nodes, outN) && ListsEdges(Solid(g), outE) && forall x | x in g.nodes :: g.nodes[x].id == x
    ensures Distinct(outN) && Grounded(outN, outE)
  {
    forall i, j | 0 <= i < j < |outN| ensures outN[i].id != outN[j].id {
      assert IdBefore(outN[i], outN[j]);
      BeforeTotal(outN[i].id, outN[j].id);
    }
    forall e | e in outE ensures e.from in Ids(outN) && e.to in Ids(outN) {
      assert g.nodes[e.from] in outN && g.nodes[e.to] in outN;
    }
  }

  // ----- what merging amounts to, without the order

  function AllEdges(rs: seq<FileGraph>): seq<Edge>
  {
    if rs == [] then [] else AllEdges(rs[..|rs| - 1]) + rs[|rs| - 1].edges
  }

  predicate Placed(r: FileGraph, x: Id)
  {
    exists n :: n in r.provisional && n.id == x
  }

  /** The node r gives an id it owns: its last one. */
  function Given(ns: seq<Node>, x: Id): Option<Node>
  {
    if ns == [] then None
    else if ns[|ns| - 1].id == x then Some(ns[|ns| - 1])
    else Given(ns[..|ns| - 1], x)
  }

  /** The node an owner has put in for x, if one has. */
  function Owner(g: Gathered, x: Id): Option<Node>
  {
    if x in g.nodes && x !in g.provisional then Some(g.nodes[x]) else None
  }

  lemma {:induction false} PutNodesAt(g: Gathered, ns: seq<Node>, x: Id)
    ensures var h := PutNodes(g, ns);
            && h.edges == g.edges && h.stats == g.stats
            && Owner(h, x) == (if Given(ns, x) == None then Owner(g, x) else Given(ns, x))
            && (x in h.nodes <==> x in g.nodes || Given(ns, x) != None)
  {
    if ns != [] {
      PutNodesAt(g, ns[..|ns| - 1], x);
    }
  }

  lemma {:induction false} PutProvisionalAt(g: Gathered, ns: seq<Node>, x: Id)
    ensures var h := PutProvisional(g, ns);
            && h.edges == g.edges && h.stats == g.stats
            && Owner(h, x) == Owner(g, x)
            && (x in h.nodes <==> x in g.nodes || exists n :: n in ns && n.id == x)
  {
    if ns != [] {
      PutProvisionalAt(g, ns[..|ns| - 1], x);
      assert ns == ns[..|ns| - 1] + [ns[|ns| - 1]];
    }
  }

  lemma {:induction false} PutEdgesAt(g: Gathered, es: seq<Edge>, before: seq<Edge>)
    requires Tallied(before, PlainKeying(), g.edges)
    ensures var h := PutEdges(g, es);
            h.nodes == g.nodes && h.provisional == g.provisional && h.stats == g.stats
            && Tallied(before + es, PlainKeying(), h.edges)
  {
    hide Tallied;
    if es == [] {
      assert before + es == before;
    } else {
      var n := |es| - 1;
      PutEdgesAt(g, es[..n], before);
      TallyOneMore(before + es[..n], PlainKeying(), PutEdges(g, es[..n]).edges, es[n]);
      assert before + es == before + es[..n] + [es[n]];
    }
  }

  /** One merge, seen from one id: an owner's node replaces whatever was there, a
      placeholder only fills a gap or replaces a placeholder. */
  lemma MergeOneAt(g: Gathered, r: FileGraph, x: Id, before: seq<Edge>)
    requires Tallied(before, PlainKeying(), g.edges)
    ensures var h := MergeOne(g, r);
            && Owner(h, x) == (if Given(r.nodes, x) == None then Owner(g, x) else Given(r.nodes, x))
            && (x in h.nodes <==> x in g.nodes || Given(r.nodes, x) != None || Placed(r, x))
            && Tallied(before + r.edges, PlainKeying(), h.edges)
            && h.stats == AddStats(g.stats, r.stats)
  {
    hide Tallied;
    var a := PutNodes(g, r.nodes);
    var b := PutProvisional(a, r.provisional);
    PutNodesAt(g, r.nodes, x);
    PutProvisionalAt(a, r.provisional, x);
    PutEdgesAt(b, r.edges, before);
  }

  /** The node a list gives an id is the last one with it. */
  lemma {:induction false} GivenMeans(ns: seq<Node>, x: Id)
    ensures Given(ns, x) == None <==> forall n | n in ns :: n.id != x
    ensures Given(ns, x) != None ==>
              exists i :: 0 <= i < |ns| && ns[i].id == x && Given(ns, x) == Some(ns[i]) && forall j | i < j < |ns| :: ns[j].id != x
  {
    if ns != [] {
      var n := |ns| - 1;
      GivenMeans(ns[..n], x);
      assert ns == ns[..n] + [ns[n]];
      if ns[n].id == x {
        assert Given(ns, x) == Some(ns[n]);
      } else if Given(ns, x) != None {
        var i :| 0 <= i < n && ns[..n][i].id == x && Given(ns[..n], x) == Some(ns[..n][i]) && forall j | i < j < n :: ns[..n][j].id != x;
        assert ns[i].id == x && Given(ns, x) == Some(ns[i]);
        forall j | i < j < |ns| ensures ns[j].id != x {
          assert j < n ==> ns[j] == ns[..n][j];
        }
      }
    }
  }

  /** An id with no owner takes the last placeholder given it. */
  lemma {:induction false} PlaceholderStands(g: Gathered, ns: seq<Node>, x: Id)
    ensures var h := PutProvisional(g, ns);
            && (x in g.nodes && x !in g.provisional ==> x in h.nodes && x !in h.provisional && h.nodes[x] == g.nodes[x])
            && (!(x in g.nodes && x !in g.provisional) && Given(ns, x) != None ==>
                  x in h.nodes && x in h.provisional && h.nodes[x] == Given(ns, x).value)
            && (Given(ns, x) == None ==> (x in h.nodes <==> x in g.nodes) && (x in h.provisional <==> x in g.provisional)
                                         && (x in g.nodes ==> h.nodes[x] == g.nodes[x]))
  {
    if ns != [] {
      PlaceholderStands(g, ns[..|ns| - 1], x);
    }
  }

  /** One file's graph merged in, seen from one id: the file's own last node for it stands, and is
      owned; failing that an owned node is left alone; failing that the file's last placeholder stands. */
  lemma MergeMeans(g: Gathered, r: FileGraph, x: Id)
    ensures var h := MergeOne(g, r);
            && (Given(r.nodes, x) != None ==> x in h.nodes && h.nodes[x] == Given(r.nodes, x).value && x !in h.provisional)
            && (Given(r.nodes, x) == None && x in g.nodes && x !in g.provisional ==>
                  x in h.nodes && h.nodes[x] == g.nodes[x] && x !in h.provisional)
            && (Given(r.nodes, x) == None && !(x in g.nodes && x !in g.provisional) && Given(r.provisional, x) != None ==>
                  x in h.nodes && h.nodes[x] == Given(r.provisional, x).value && x in h.provisional)
            && (Given(r.nodes, x) == None && Given(r.provisional, x) == None ==>
                  (x in h.nodes <==> x in g.nodes) && (x in g.nodes ==> h.nodes[x] == g.nodes[x]))
  {
    var a := PutNodes(g, r.nodes);
    OwnedStands(g, r.nodes, x);
    PlaceholderStands(a, r.provisional, x);
    EdgesAlone(PutProvisional(a, r.provisional), r.edges);
  }

  lemma {:induction false} OwnedStands(g: Gathered, ns: seq<Node>, x: Id)
    ensures var h := PutNodes(g, ns);
            && (Given(ns, x) != None ==> x in h.nodes && x !in h.provisional && h.nodes[x] == Given(ns, x).value)
            && (Given(ns, x) == None ==> (x in h.nodes <==> x in g.nodes) && (x in h.provisional <==> x in g.provisional)
                                         && (x in g.nodes ==> h.nodes[x] == g.nodes[x]))
  {
    if ns != [] {
      OwnedStands(g, ns[..|ns| - 1], x);
    }
  }

  lemma {:induction false} EdgesAlone(g: Gathered, es: seq<Edge>)
    ensures PutEdges(g, es).nodes == g.nodes && PutEdges(g, es).provisional == g.provisional && PutEdges(g, es).stats == g.stats
  {
    if es != [] {
      EdgesAlone(g, es[..|es| - 1]);
    }
  }

  /** The statistics of a run are the sums over its files. */
  lemma StatsMean(rs: seq<FileGraph>)
    ensures var s := MergeAll(rs).stats;
            && s.callSites == Weigh(rs, (r: FileGraph) => r.stats.callSites) && s.resolved == Weigh(rs, (r: FileGraph) => r.stats.resolved)
            && s.dynamic == Weigh(rs, (r: FileGraph) => r.stats.dynamic) && s.unresolved == Weigh(rs, (r: FileGraph) => r.stats.unresolved)
            && s.builtin == Weigh(rs, (r: FileGraph) => r.stats.builtin) && s.unreadable == Weigh(rs, (r: FileGraph) => r.stats.unreadable)
            && s.cached == Weigh(rs, (r: FileGraph) => r.stats.cached) && s.routes == Weigh(rs, (r: FileGraph) => r.stats.routes)
            && s.routesUnresolved == Weigh(rs, (r: FileGraph) => r.stats.routesUnresolved)
  {
    hide Weigh, MergeAll;
    MergedEdges(rs);
  }

  lemma WeighOne(r: FileGraph, w: FileGraph -> nat)
    ensures Weigh([], w) == 0 && Weigh([r], w) == w(r)
  {
    assert [r][..0] == [];
  }

  function LastGiven(rs: seq<FileGraph>, x: Id): Option<Node>
  {
    if rs == [] then None
    else
      var r := rs[|rs| - 1];
      if Given(r.nodes, x) == None then LastGiven(rs[..|rs| - 1], x) else Given(r.nodes, x)
  }

  function Weigh(rs: seq<FileGraph>, w: FileGraph -> nat): nat
  {
    if rs == [] then 0 else Weigh(rs[..|rs| - 1], w) + w(rs[|rs| - 1])
  }

  ghost predicate StatsAdded(rs: seq<FileGraph>, s: Stats)
  {
    && s.callSites == Weigh(rs, (r: FileGraph) => r.stats.callSites)
    && s.resolved == Weigh(rs, (r: FileGraph) => r.stats.resolved)
    && s.dynamic == Weigh(rs, (r: FileGraph) => r.stats.dynamic)
    && s.unresolved == Weigh(rs, (r: FileGraph) => r.stats.unresolved)
    && s.builtin == Weigh(rs, (r: FileGraph) => r.stats.builtin)
    && s.unreadable == Weigh(rs, (r: FileGraph) => r.stats.unreadable)
    && s.cached == Weigh(rs, (r: FileGraph) => r.stats.cached)
    && s.routes == Weigh(rs, (r: FileGraph) => r.stats.routes)
    && s.routesUnresolved == Weigh(rs, (r: FileGraph) => r.stats.routesUnresolved)
    && s.islands == 0 && s.detached == 0
  }

  ghost predicate Known(rs: seq<FileGraph>, x: Id)
  {
    exists r :: r in rs && (Given(r.nodes, x) != None || Placed(r, x))
  }

  lemma KnownOneMore(rs: seq<FileGraph>, r: FileGraph, x: Id)
    ensures Known(rs + [r], x) <==> Known(rs, x) || Given(r.nodes, x) != None || Placed(r, x)
  {
    hide Given, Placed;
    assert forall q :: q in rs + [r] <==> q in rs || q == r;
  }

  lemma {:induction false} MergedEdges(rs: seq<FileGraph>)
    ensures Tallied(AllEdges(rs), PlainKeying(), MergeAll(rs).edges)
    ensures StatsAdded(rs, MergeAll(rs).stats)
  {
    hide Tallied, StatsAdded, MergeOne, Owner, Given, Placed, AddStats;
    if rs == [] {
      NothingTallied(PlainKeying());
      NoStats(rs);
    } else {
      var n := |rs| - 1;
      MergedEdges(rs[..n]);
      var g := MergeAll(rs[..n]);
      MergeOneAt(g, rs[n], "", AllEdges(rs[..n]));
      MoreStats(rs[..n], rs[n], g.stats);
      assert rs[..n] + [rs[n]] == rs;
      assert MergeAll(rs) == MergeOne(g, rs[n]);
    }
  }

  lemma {:induction false} MergedNode(rs: seq<FileGraph>, x: Id)
    ensures Owner(MergeAll(rs), x) == LastGiven(rs, x)
    ensures x in MergeAll(rs).nodes <==> Known(rs, x)
  {
    hide Tallied, StatsAdded, Placed, Given, Owner, MergeOne, Known;
    if rs == [] {
      NothingKnown();
    } else {
      var front, r := rs[..|rs| - 1], rs[|rs| - 1];
      assert rs == front + [r];
      MergedNode(front, x);
      MergedEdges(front);
      MergeOneAt(MergeAll(front), r, x, AllEdges(front));
      KnownOneMore(front, r, x);
    }
  }

  /** What a whole run gathers, stated per id and per key. */
  lemma MergeAllIs(rs: seq<FileGraph>)
    ensures forall x :: Owner(MergeAll(rs), x) == LastGiven(rs, x)
    ensures forall x :: x in MergeAll(rs).nodes <==> Known(rs, x)
    ensures Tallied(AllEdges(rs), PlainKeying(), MergeAll(rs).edges)
    ensures StatsAdded(rs, MergeAll(rs).stats)
  {
    hide *;
    MergedEdges(rs);
    forall x
      ensures Owner(MergeAll(rs), x) == LastGiven(rs, x)
      ensures x in MergeAll(rs).nodes <==> Known(rs, x)
    {
      MergedNode(rs, x);
    }
  }

  lemma NothingKnown()
    ensures forall x :: !Known([], x) && Owner(NOTHING, x) == None
  {
  }

  lemma NoStats(rs: seq<FileGraph>)
    requires |rs| == 0
    ensures StatsAdded(rs, MergeAll(rs).stats)
  {
  }

  lemma MoreStats(rs: seq<FileGraph>, r: FileGraph, s: Stats)
    requires StatsAdded(rs, s)
    ensures StatsAdded(rs + [r], AddStats(s, r.stats))
  {
    assert (rs + [r])[..|rs|] == rs;
  }

  // ----- any arrival order

  lemma {:induction false} WeighSplit(a: seq<FileGraph>, b: seq<FileGraph>, w: FileGraph -> nat)
    ensures Weigh(a + b, w) == Weigh(a, w) + Weigh(b, w)
  {
    if b == [] {
      assert a + b == a;
    } else {
      WeighSplit(a, b[..|b| - 1], w);
      assert (a + b)[..|a + b| - 1] == a + b[..|b| - 1];
    }
  }

  /** Where the last element of one arrangement sits in the other. */
  lemma TakeOut<T>(rs: seq<T>, ps: seq<T>) returns (i: nat)
    requires multiset(rs) == multiset(ps) && rs != []
    ensures i < |ps| && ps[i] == rs[|rs| - 1]
    ensures multiset(rs[..|rs| - 1]) == multiset(ps[..i] + ps[i + 1..])
  {
    var front, r := rs[..|rs| - 1], rs[|rs| - 1];
    MiddleOut(front, r, []);
    assert rs == front + [r] + [] && front + [] == front;
    assert r in multiset(ps);
    i :| 0 <= i < |ps| && ps[i] == r;
    MiddleOut(ps[..i], r, ps[i + 1..]);
    assert ps == ps[..i] + [r] + ps[i + 1..];
  }

  lemma MiddleOut<T>(a: seq<T>, x: T, b: seq<T>)
    ensures multiset(a + b) == multiset(a + [x] + b) - multiset{x}
  {
    assert multiset(a + [x] + b) == multiset(a + b) + multiset{x};
  }

  lemma {:induction false} WeighPermuted(rs: seq<FileGraph>, ps: seq<FileGraph>, w: FileGraph -> nat)
    requires multiset(rs) == multiset(ps)
    ensures Weigh(rs, w) == Weigh(ps, w)
  {
    if rs == [] {
      assert |multiset(ps)| == 0;
    } else {
      var i := TakeOut(rs, ps);
      var a, r, b := ps[..i], ps[i], ps[i + 1..];
      WeighPermuted(rs[..|rs| - 1], a + b, w);
      assert ps == a + ([r] + b);
      WeighSplit(a, [r] + b, w);
      WeighSplit([r], b, w);
      WeighSplit(a, b, w);
      assert [r][..0] == [];
    }
  }

  lemma {:induction false} AllEdgesAre(rs: seq<FileGraph>, p: Edge -> bool)
    ensures forall e :: e in AllEdges(rs) <==> exists r :: r in rs && e in r.edges
    ensures Sum(AllEdges(rs), p) == Weigh(rs, (r: FileGraph) => Sum(r.edges, p))
  {
    if rs != [] {
      var front, r := rs[..|rs| - 1], rs[|rs| - 1];
      assert rs == front + [r];
      AllEdgesAre(front, p);
      SumConcat(AllEdges(front), r.edges, p);
    }
  }

  lemma Permuted<T>(rs: seq<T>, ps: seq<T>)
    requires multiset(rs) == multiset(ps)
    ensures forall r :: r in rs <==> r in ps
  {
    forall r ensures r in rs <==> r in ps {
      assert r in rs <==> r in multiset(rs);
      assert r in ps <==> r in multiset(ps);
    }
  }

  lemma SumOrderFree(rs: seq<FileGraph>, ps: seq<FileGraph>, p: Edge -> bool)
    requires multiset(rs) == multiset(ps)
    ensures Sum(AllEdges(rs), p) == Sum(AllEdges(ps), p)
    ensures forall e :: e in AllEdges(rs) <==> e in AllEdges(ps)
  {
    hide Sum, Weigh;
    Permuted(rs, ps);
    AllEdgesAre(rs, p);
    AllEdgesAre(ps, p);
    WeighPermuted(rs, ps, (r: FileGraph) => Sum(r.edges, p));
  }

  lemma SameTally(a: seq<Edge>, ma: map<Key, Edge>, b: seq<Edge>, mb: map<Key, Edge>, key: Edge -> Option<Key>)
    requires Tallied(a, key, ma) && Tallied(b, key, mb)
    requires forall e :: e in a <==> e in b
    requires forall k :: Sum(a, e => key(e) == Some(k)) == Sum(b, e => key(e) == Some(k))
    ensures ma == mb
  {
    hide Sum;
    forall k ensures Has(a, key, k) <==> Has(b, key, k) {
    }
    forall k | k in ma ensures ma[k] == mb[k] {
      assert KeyOf(ma[k]) == KeyOf(mb[k]);
    }
  }

  lemma EdgesOrderFree(rs: seq<FileGraph>, ps: seq<FileGraph>)
    requires multiset(rs) == multiset(ps)
    ensures MergeAll(rs).edges == MergeAll(ps).edges
  {
    hide Sum, Weigh, StatsAdded, Tallied, Known, Owner;
    var key := PlainKeying();
    MergeAllIs(rs);
    MergeAllIs(ps);
    SumOrderFree(rs, ps, e => true);
    forall k ensures Sum(AllEdges(rs), e => key(e) == Some(k)) == Sum(AllEdges(ps), e => key(e) == Some(k)) {
      SumOrderFree(rs, ps, e => key(e) == Some(k));
    }
    SameTally(AllEdges(rs), MergeAll(rs).edges, AllEdges(ps), MergeAll(ps).edges, key);
  }

  lemma StatsOrderFree(rs: seq<FileGraph>, ps: seq<FileGraph>)
    requires multiset(rs) == multiset(ps)
    ensures MergeAll(rs).stats == MergeAll(ps).stats
  {
    hide Tallied, Weigh, MergeAll;
    MergedEdges(rs);
    MergedEdges(ps);
    WeighPermuted(rs, ps, (r: FileGraph) => r.stats.callSites);
    WeighPermuted(rs, ps, (r: FileGraph) => r.stats.resolved);
    WeighPermuted(rs, ps, (r: FileGraph) => r.stats.dynamic);
    WeighPermuted(rs, ps, (r: FileGraph) => r.stats.unresolved);
    WeighPermuted(rs, ps, (r: FileGraph) => r.stats.builtin);
    WeighPermuted(rs, ps, (r: FileGraph) => r.stats.unreadable);
    WeighPermuted(rs, ps, (r: FileGraph) => r.stats.cached);
    WeighPermuted(rs, ps, (r: FileGraph) => r.stats.routes);
    WeighPermuted(rs, ps, (r: FileGraph) => r.stats.routesUnresolved);
  }

  /** The same ids are known, and the same ones have only placeholders. */
  lemma IdsOrderFree(rs: seq<FileGraph>, ps: seq<FileGraph>)
    requires multiset(rs) == multiset(ps)
    ensures MergeAll(rs).nodes.Keys == MergeAll(ps).nodes.Keys
    ensures forall x :: Owner(MergeAll(rs), x) == None <==> Owner(MergeAll(ps), x) == None
  {
    hide Tallied, StatsAdded, Owner, Given, Placed;
    MergeAllIs(rs);
    MergeAllIs(ps);
    Permuted(rs, ps);
    forall x ensures Known(rs, x) <==> Known(ps, x) {
    }
    forall x ensures LastGiven(rs, x) == None <==> LastGiven(ps, x) == None {
      LastGivenFrom(rs, x);
      LastGivenFrom(ps, x);
    }
  }

  lemma {:induction false} LastGivenFrom(rs: seq<FileGraph>, x: Id)
    ensures LastGiven(rs, x) == None <==> forall r | r in rs :: Given(r.nodes, x) == None
    ensures LastGiven(rs, x) != None ==> exists r :: r in rs && Given(r.nodes, x) == LastGiven(rs, x)
  {
    hide Given;
    if rs != [] {
      LastGivenFrom(rs[..|rs| - 1], x);
      assert rs == rs[..|rs| - 1] + [rs[|rs| - 1]];
    }
  }

  /** Files that own one id give it the same node: so in particular when owned ids are disjoint. */
  ghost predicate OwnersAgree(rs: seq<FileGraph>)
  {
    forall r, s, x | r in rs && s in rs && Given(r.nodes, x) != None && Given(s.nodes, x) != None ::
      Given(r.nodes, x) == Given(s.nodes, x)
  }

  /** Every arrival order gives every owned id the same node. */
  ghost predicate OwnersOrderFree(rs: seq<FileGraph>)
  {
    forall p, q, x | multiset(p) == multiset(rs) && multiset(q) == multiset(rs) :: Owner(MergeAll(p), x) == Owner(MergeAll(q), x)
  }

  lemma AgreeingOwners(rs: seq<FileGraph>, p: seq<FileGraph>, q: seq<FileGraph>, x: Id)
    requires OwnersAgree(rs) && multiset(p) == multiset(rs) && multiset(q) == multiset(rs)
    ensures Owner(MergeAll(p), x) == Owner(MergeAll(q), x)
  {
    hide Given, Tallied, StatsAdded, Known, Owner;
    Permuted(p, rs);
    Permuted(q, rs);
    MergeAllIs(p);
    MergeAllIs(q);
    LastGivenFrom(p, x);
    LastGivenFrom(q, x);
  }

  /** Some order lets r arrive last, and then r's node stands. */
  lemma ArriveLast(rs: seq<FileGraph>, r: FileGraph, x: Id) returns (p: seq<FileGraph>)
    requires r in rs && Given(r.nodes, x) != None
    ensures multiset(p) == multiset(rs) && Owner(MergeAll(p), x) == Given(r.nodes, x)
  {
    hide Given, Tallied, StatsAdded, Known, Owner;
    var i :| 0 <= i < |rs| && rs[i] == r;
    p := rs[..i] + rs[i + 1..] + [r];
    assert rs == rs[..i] + [r] + rs[i + 1..];
    MergeAllIs(p);
  }

  /** Arrival order cannot change an owned node exactly when owners agree. */
  lemma OwnersOrderFreeIff(rs: seq<FileGraph>)
    ensures OwnersOrderFree(rs) <==> OwnersAgree(rs)
  {
    hide Given, Owner, MergeAll;
    if OwnersAgree(rs) {
      forall p, q, x | multiset(p) == multiset(rs) && multiset(q) == multiset(rs)
        ensures Owner(MergeAll(p), x) == Owner(MergeAll(q), x)
      {
        AgreeingOwners(rs, p, q, x);
      }
    }
    if OwnersOrderFree(rs) {
      forall r, s, x | r in rs && s in rs && Given(r.nodes, x) != None && Given(s.nodes, x) != None
        ensures Given(r.nodes, x) == Given(s.nodes, x)
      {
        var p := ArriveLast(rs, r, x);
        var q := ArriveLast(rs, s, x);
      }
    }
  }

  /** The gathered maps are keyed by what they hold, so a run can always be finished. */
  lemma {:induction false} MergeAllKeyed(rs: seq<FileGraph>)
    ensures forall x | x in MergeAll(rs).nodes :: MergeAll(rs).nodes[x].id == x
    ensures forall k | k in MergeAll(rs).edges :: KeyOf(MergeAll(rs).edges[k]) == k
  {
    hide Given, Placed, StatsAdded, Known;
    MergedEdges(rs);
    if rs != [] {
      var g, r := MergeAll(rs[..|rs| - 1]), rs[|rs| - 1];
      MergeAllKeyed(rs[..|rs| - 1]);
      PutNodesKeyed(g, r.nodes);
      PutProvisionalKeyed(PutNodes(g, r.nodes), r.provisional);
      PutEdgesKeepNodes(PutProvisional(PutNodes(g, r.nodes), r.provisional), r.edges);
    }
  }

  lemma {:induction false} PutNodesKeyed(g: Gathered, ns: seq<Node>)
    requires forall x | x in g.nodes :: g.nodes[x].id == x
    ensures forall x | x in PutNodes(g, ns).nodes :: PutNodes(g, ns).nodes[x].id == x
  {
    if ns != [] { PutNodesKeyed(g, ns[..|ns| - 1]); }
  }

  lemma {:induction false} PutProvisionalKeyed(g: Gathered, ns: seq<Node>)
    requires forall x | x in g.nodes :: g.nodes[x].id == x
    ensures forall x | x in PutProvisional(g, ns).nodes :: PutProvisional(g, ns).nodes[x].id == x
  {
    if ns != [] { PutProvisionalKeyed(g, ns[..|ns| - 1]); }
  }

  lemma {:induction false} PutEdgesKeepNodes(g: Gathered, es: seq<Edge>)
    ensures PutEdges(g, es).nodes == g.nodes
  {
    if es != [] { PutEdgesKeepNodes(g, es[..|es| - 1]); }
  }

  /** Two runs over the same file graphs, in any orders, end with the same dependencies listed
      in the same order, the same ids, the same owned nodes and the same statistics. */
  lemma ArrivalOrderFree(rs: seq<FileGraph>, ps: seq<FileGraph>, na: seq<Node>, ea: seq<Edge>, nb: seq<Node>, eb: seq<Edge>)
    requires multiset(rs) == multiset(ps)
    requires ListsNodes(MergeAll(rs).nodes, na) && ListsEdges(Solid(MergeAll(rs)), ea)
    requires ListsNodes(MergeAll(ps).nodes, nb) && ListsEdges(Solid(MergeAll(ps)), eb)
    ensures ea == eb && MergeAll(rs).stats == MergeAll(ps).stats
    ensures Ids(na) == Ids(nb)
    ensures OwnersAgree(rs) ==> forall x :: Owner(MergeAll(rs), x) == Owner(MergeAll(ps), x)
  {
    hide MergeAll, Owner, Given, OwnersAgree;
    EdgesOrderFree(rs, ps);
    StatsOrderFree(rs, ps);
    IdsOrderFree(rs, ps);
    assert Solid(MergeAll(rs)) == Solid(MergeAll(ps));
    ListingUnique(Solid(MergeAll(rs)), ea, eb);
    ListedIds(rs, na);
    ListedIds(ps, nb);
    if OwnersAgree(rs) {
      forall x ensures Owner(MergeAll(rs), x) == Owner(MergeAll(ps), x) {
        AgreeingOwners(rs, rs, ps, x);
      }
    }
  }

  lemma ListedIds(rs: seq<FileGraph>, ns: seq<Node>)
    requires ListsNodes(MergeAll(rs).nodes, ns)
    ensures Ids(ns) == MergeAll(rs).nodes.Keys
  {
    hide MergeAll;
    MergeAllKeyed(rs);
    forall x | x in MergeAll(rs).nodes ensures x in Ids(ns) {
      assert MergeAll(rs).nodes[x] in ns;
    }
  }
}
