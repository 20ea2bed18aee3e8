/** What the cycle search reports, and how the report grows as components are popped. */
module Cycles {
  import opened Graphs
  import opened Ordering
  import opened CodeMap
  import opened Tarjan
  import opened Search

  /** Larger cycles first, then by first member. */
  predicate CycleBefore(a: seq<Id>, b: seq<Id>)
  {
    |a| > |b| || (|a| == |b| && a != [] && Before(a[0], b[0]))
  }

  /** out lists the cycles among what the nodes reach: each once, members sorted, all of them. */
  ghost predicate CyclesListed(nodes: seq<Node>, edges: seq<Edge>, out: seq<seq<Id>>)
  {
    && (forall c | c in out :: Increasing(Before, c) && IsCycle(Dependencies(edges), Elems(c)))
    && (forall c: set<Id>, n, x | n in nodes && x in c && Reaches(Dependencies(edges), n.id, x) && IsCycle(Dependencies(edges), c) ::
          Listed(out, c))
    && Increasing(CycleBefore, out)
  }

  ghost predicate Listed(out: seq<seq<Id>>, c: set<Id>)
  {
    exists o :: o in out && Elems(o) == c
  }

  /** out holds exactly the cycles that touch the popped nodes. */
  ghost predicate Found(r: Rel<Id>, popped: set<Id>, out: seq<seq<Id>>)
  {
    && (forall c | c in out :: Increasing(Before, c) && IsCycle(r, Elems(c)) && Elems(c) <= popped)
    && (forall c: set<Id>, x | x in popped && x in c && IsCycle(r, c) :: Listed(out, c))
    && (forall i, j | 0 <= i < j < |out| :: Elems(out[i]) !! Elems(out[j]))
  }

  lemma SortedComponent(component: seq<Id>, stack: seq<Id>, n: nat)
    requires n < |stack| && multiset(component) == multiset(stack[n..])
    requires forall i, j | n <= i < j < |stack| :: stack[i] != stack[j]
    ensures Increasing(Before, Sort(Before, component)) && Elems(Sort(Before, component)) == Elems(stack[n..])
    ensures |component| == |stack| - n == |Elems(stack[n..])|
  {
    var s := Sort(Before, component);
    SortElements(Before, component);
    BeforeIsStrict();
    assert |multiset(component)| == |multiset(stack[n..])|;
    forall x ensures x in s <==> x in stack[n..] {
      assert x in s <==> x in multiset(s);
    }
    DistinctCount(stack[n..]);
    forall i, j | 0 <= i < |component| && 0 <= j < |component| && i != j
      ensures Before(component[i], component[j]) || Before(component[j], component[i])
    {
      BeforeTotal(component[i], component[j]);
      if component[i] == component[j] {
        OnceOnly(stack[n..], component[i]);
        TwiceCounts(component, if i < j then i else j, if i < j then j else i);
        assert false;
      }
    }
    SortDistinct(Before, component);
  }

  lemma {:induction false} DistinctCount<T>(s: seq<T>)
    requires forall i, j | 0 <= i < j < |s| :: s[i] != s[j]
    ensures |Elems(s)| == |s|
  {
    if s != [] {
      var n := |s| - 1;
      DistinctCount(s[..n]);
      assert s == s[..n] + [s[n]];
      assert Elems(s) == Elems(s[..n]) + {s[n]};
    }
  }

  /** A popped component is reported just when it is a cycle. */
  lemma FoundMore(r: Rel<Id>, popped: set<Id>, out: seq<seq<Id>>, c: set<Id>, o: seq<Id>)
    requires Found(r, popped, out) && IsComponent(r, c) && c !! popped
    requires Increasing(Before, o) && Elems(o) == c
    ensures IsCycle(r, c) ==> Found(r, popped + c, out + [o])
    ensures !IsCycle(r, c) ==> Found(r, popped + c, out)
  {
    hide Reaches, IsComponent;
    forall d: set<Id>, x | x in c && x in d && IsCycle(r, d)
      ensures d == c
    {
      ComponentsDisjoint(r, c, d);
    }
    var out' := out + [o];
    assert out'[|out|] == o;
    assert forall d | d in out :: d in out';
    forall d: set<Id> | Listed(out, d) ensures Listed(out', d) {
    }
    assert Listed(out', c);
  }

  /** Sorting the report once everything reachable is popped gives the listing. */
  lemma FoundAll(nodes: seq<Node>, edges: seq<Edge>, popped: set<Id>, out: seq<seq<Id>>)
    requires Found(Dependencies(edges), popped, out)
    requires Closed(Dependencies(edges), popped) && Ids(nodes) <= popped
    ensures CyclesListed(nodes, edges, Sort(CycleBefore, out))
  {
    hide Reaches, IsComponent;
    var r := Dependencies(edges);
    var sorted := Sort(CycleBefore, out);
    SortElements(CycleBefore, out);
    forall c: set<Id>, n, x | n in nodes && x in c && Reaches(r, n.id, x) && IsCycle(r, c)
      ensures Listed(sorted, c)
    {
      assert n.id in Ids(nodes);
      ReachesClosed(r, popped, n.id, x);
      var o :| o in out && Elems(o) == c;
      assert o in sorted;
    }
    SortedOnce(r, popped, out);
  }

  /** What the listing says in terms of edges: a node is in a listed cycle exactly when following
      one dependency or more leads from it back to it; members of one cycle, and they alone, lead
      to each other; larger cycles come first, then by first member, members ascending. */
  lemma CyclesMean(nodes: seq<Node>, edges: seq<Edge>, out: seq<seq<Id>>)
    requires CyclesListed(nodes, edges, out)
    ensures forall n | n in nodes :: (exists o :: o in out && n.id in o) <==> Returns(Dependencies(edges), n.id)
    ensures forall o, x, y | o in out && x in o :: y in o <==> Reaches(Dependencies(edges), x, y) && Reaches(Dependencies(edges), y, x)
    ensures forall o, i, j | o in out && 0 <= i < j < |o| :: Before(o[i], o[j])
    ensures forall i, j | 0 <= i < j < |out| :: |out[i]| > |out[j]| || (|out[i]| == |out[j]| > 0 && Before(out[i][0], out[j][0]))
  {
    hide Reaches, Before;
    var r := Dependencies(edges);
    forall o, x, y | o in out && x in o ensures y in o <==> Reaches(r, x, y) && Reaches(r, y, x) {
      assert x in Elems(o) && IsCycle(r, Elems(o));
      assert y in o <==> y in Elems(o);
    }
    forall n | n in nodes ensures (exists o :: o in out && n.id in o) <==> Returns(r, n.id) {
      if o :| o in out && n.id in o {
        assert n.id in Elems(o);
        CycleReturns(r, Elems(o), n.id);
      }
      if Returns(r, n.id) {
        var c := ReturnsCycle(r, n.id);
        ReachesSelf(r, n.id);
        assert Listed(out, c);
        var o :| o in out && Elems(o) == c;
        assert n.id in Elems(o);
      }
    }
  }

  /** x is led back to by one edge or more. */
  ghost predicate Returns(r: Rel<Id>, x: Id)
  {
    exists y :: (x, y) in r && Reaches(r, y, x)
  }

  lemma FirstStep(r: Rel<Id>, a: Id, b: Id) returns (y: Id)
    requires Reaches(r, a, b) && a != b
    ensures (a, y) in r && Reaches(r, y, b)
  {
    var p :| IsPath(r, p) && p[0] == a && p[|p| - 1] == b;
    y := p[1];
    var q := p[1..];
    assert IsPath(r, q) && q[0] == y && q[|q| - 1] == b;
  }

  lemma CycleReturns(r: Rel<Id>, c: set<Id>, x: Id)
    requires IsCycle(r, c) && x in c
    ensures Returns(r, x)
  {
    hide Reaches;
    if (x, x) in r {
      ReachesSelf(r, x);
    } else {
      assert exists z :: z in c && z != x by {
        if |c| > 1 {
          assert |c - {x}| > 0;
          var z :| z in c - {x};
        }
      }
      var z :| z in c && z != x;
      var y := FirstStep(r, x, z);
      ReachesTrans(r, y, z, x);
    }
  }

  lemma ReturnsCycle(r: Rel<Id>, x: Id) returns (c: set<Id>)
    requires Returns(r, x)
    ensures IsCycle(r, c) && x in c
  {
    hide Reaches;
    var all := {x} + Heads(r);
    c := set z | z in all && Mutual(r, x, z);
    ReachesSelf(r, x);
    HeadsClosed(r, x);
    assert x in c;
    assert IsComponent(r, c) by {
      forall a, b | a in c && b in c ensures Reaches(r, a, b) {
        ReachesTrans(r, a, x, b);
      }
      forall a, z | a in c && Mutual(r, a, z) ensures z in c {
        ReachesTrans(r, x, a, z);
        ReachesTrans(r, z, a, x);
        ReachesClosed(r, all, x, z);
      }
    }
    CycleTest(r, c, x);
    var y :| (x, y) in r && Reaches(r, y, x);
    if y != x {
      ReachesEdge(r, x, y);
      ReachesClosed(r, all, x, y);
      assert y in c;
      TwoMembers(c, x, y);
    }
  }

  lemma HeadsClosed(r: Rel<Id>, x: Id)
    ensures Closed(r, {x} + Heads(r))
  {
    forall e | e in r ensures e.1 in Heads(r) {
      InHeads(r, e.0, e.1);
    }
  }

  lemma TwoMembers(c: set<Id>, x: Id, y: Id)
    requires x in c && y in c && x != y
    ensures |c| > 1
  {
    assert {x, y} <= c;
    assert |c - {x}| > 0 by { assert y in c - {x}; }
  }

  lemma CycleBeforeIsWeak()
    ensures Weak(CycleBefore)
  {
    BeforeIsStrict();
  }

  lemma SortedOnce(r: Rel<Id>, popped: set<Id>, out: seq<seq<Id>>)
    requires Found(r, popped, out)
    ensures Increasing(CycleBefore, Sort(CycleBefore, out))
  {
    hide Reaches, IsComponent;
    CycleBeforeIsWeak();
    forall i, j | 0 <= i < |out| && 0 <= j < |out| && i != j
      ensures CycleBefore(out[i], out[j]) || CycleBefore(out[j], out[i])
    {
      assert out[i] in out && out[j] in out;
      assert Elems(out[i]) !! Elems(out[j]);
      CycleNonempty(r, out[i]);
      CycleNonempty(r, out[j]);
      BeforeTotal(out[i][0], out[j][0]);
    }
    SortDistinct(CycleBefore, out);
  }

  lemma CycleNonempty(r: Rel<Id>, o: seq<Id>)
    requires IsCycle(r, Elems(o))
    ensures o != [] && o[0] in Elems(o)
  {
    hide Reaches;
    assert o == [] ==> Elems(o) == {};
  }

  lemma CycleTest(r: Rel<Id>, c: set<Id>, f: Id)
    requires IsComponent(r, c) && f in c
    ensures IsCycle(r, c) <==> |c| > 1 || (f, f) in r
  {
    hide Reaches;
    if |c| <= 1 {
      assert c - {f} == {} by {
        assert |c - {f}| == 0;
      }
    }
  }

  lemma FoundNothing(r: Rel<Id>)
    ensures Found(r, {}, [])
  {
  }

  // ----- the components popped

  /** pops are strongly connected components that share nothing and cover the popped nodes. */
  ghost predicate Split(r: Rel<Id>, popped: set<Id>, pops: seq<set<Id>>)
  {
    && (forall c | c in pops :: IsComponent(r, c) && c <= popped)
    && (forall i, j | 0 <= i < j < |pops| :: pops[i] !! pops[j])
    && (forall x | x in popped :: exists c :: c in pops && x in c)
  }

  lemma SplitNothing(r: Rel<Id>)
    ensures Split(r, {}, [])
  {
  }

  lemma SplitMore(r: Rel<Id>, popped: set<Id>, pops: seq<set<Id>>, c: set<Id>)
    requires Split(r, popped, pops) && IsComponent(r, c) && c !! popped
    ensures Split(r, popped + c, pops + [c])
  {
    hide IsComponent;
    var more := pops + [c];
    assert forall d | d in pops :: d in more;
    assert more[|pops|] == c;
    forall i, j | 0 <= i < j < |more| ensures more[i] !! more[j] {
      assert more[i] in pops;
    }
  }

  // ----- the search itself

  ghost predicate Running(adj: map<Id, seq<Id>>, r: Rel<Id>, s: State<Id>, m: Machine<Id>, out: seq<seq<Id>>,
                          pops: seq<set<Id>>, order: seq<Id>, rounds: nat)
  {
    && Holds(adj, r, s, m)
    && Counted(adj, s, m.work, order, rounds)
    && Found(r, m.indices.Keys - m.onStack, out)
    && Split(r, m.indices.Keys - m.onStack, pops)
  }

  lemma NothingRuns(adj: map<Id, seq<Id>>, r: Rel<Id>)
    requires AdjacencyOf(adj, r)
    ensures Running(adj, r, State(0, map[], map[], {}, {}, {}), Machine(0, map[], map[], [], {}, []), [], [], [], 0)
  {
    hide Holds, Counted, Found, Split;
    StartHolds(adj, r);
    FoundNothing(r);
    SplitNothing(r);
    var m: Machine<Id> := Machine(0, map[], map[], [], {}, []);
    assert m.indices.Keys - m.onStack == {};
  }

  lemma NothingRunning(adj: map<Id, seq<Id>>, r: Rel<Id>, s: State<Id>, m: Machine<Id>, out: seq<seq<Id>>,
                pops: seq<set<Id>>, order: seq<Id>, rounds: nat)
    requires Running(adj, r, s, m, out, pops, order, rounds) && m.work == []
    ensures Found(r, m.indices.Keys, out) && Closed(r, m.indices.Keys) && Split(r, m.indices.Keys, pops)
    ensures Elems(order) == m.indices.Keys && rounds == Spent(adj, order)
    ensures forall i, j | 0 <= i < j < |order| :: order[i] != order[j]
  {
    hide Holds, Found, Split;
    AllClosed(adj, r, s, m);
    AllLeft(adj, r, s, m, order, rounds);
    assert m.indices.Keys - m.onStack == m.indices.Keys;
  }

  lemma RunningTop(adj: map<Id, seq<Id>>, r: Rel<Id>, s: State<Id>, m: Machine<Id>, out: seq<seq<Id>>,
                pops: seq<set<Id>>, order: seq<Id>, rounds: nat)
    requires Running(adj, r, s, m, out, pops, order, rounds) && m.work != []
    ensures m.Top().node in m.indices && m.Top().node in m.low && m.Top().node in m.stack
    ensures m.Top().next <= |Succ(adj, m.Top().node)| && m.Parent() in m.low
    ensures m.Top().next < |Succ(adj, m.Top().node)| ==> Succ(adj, m.Top().node)[m.Top().next] in Heads(r)
  {
    hide Holds, Counted, Found, Split;
    TopReady(adj, r, s, m);
    if m.Top().next < |Succ(adj, m.Top().node)| {
      InHeads(r, m.Top().node, Succ(adj, m.Top().node)[m.Top().next]);
    }
  }

  lemma RootRuns(adj: map<Id, seq<Id>>, r: Rel<Id>, s: State<Id>, m: Machine<Id>, out: seq<seq<Id>>,
                pops: seq<set<Id>>, order: seq<Id>, rounds: nat, x: Id)
    requires Running(adj, r, s, m, out, pops, order, rounds) && m.work == [] && x !in m.indices
    ensures Running(adj, r, Visit(s, x), m.Enter(x), out, pops, order, rounds)
  {
    hide Holds, Counted, Found, Split;
    RootHolds(adj, r, s, m, x, order, rounds);
  }

  lemma PushRuns(adj: map<Id, seq<Id>>, r: Rel<Id>, s: State<Id>, m: Machine<Id>, out: seq<seq<Id>>,
                pops: seq<set<Id>>, order: seq<Id>, rounds: nat, x: Id)
    returns (t: State<Id>)
    requires Running(adj, r, s, m, out, pops, order, rounds) && m.work != []
    requires m.Top().next < |Succ(adj, m.Top().node)| && Succ(adj, m.Top().node)[m.Top().next] == x && x !in m.indices
    ensures Running(adj, r, t, m.Advance().Enter(x), out, pops, order, rounds + 1)
  {
    hide Holds, Counted, Found, Split;
    t := PushHolds(adj, r, s, m, order, rounds, x);
  }

  lemma LookRuns(adj: map<Id, seq<Id>>, r: Rel<Id>, s: State<Id>, m: Machine<Id>, out: seq<seq<Id>>,
                pops: seq<set<Id>>, order: seq<Id>, rounds: nat, y: Id)
    returns (t: State<Id>)
    requires Running(adj, r, s, m, out, pops, order, rounds) && m.work != [] && m.Top().node in m.low
    requires m.Top().next < |Succ(adj, m.Top().node)| && Succ(adj, m.Top().node)[m.Top().next] == y && y in m.indices
    ensures Running(adj, r, t, if y in m.onStack then m.Advance().Lower(m.Top().node, m.indices[y]) else m.Advance(),
                    out, pops, order, rounds + 1)
  {
    hide Holds, Counted, Found, Split;
    t := LookHolds(adj, r, s, m, order, rounds, y);
  }

  lemma MergeRuns(adj: map<Id, seq<Id>>, r: Rel<Id>, s: State<Id>, m: Machine<Id>, out: seq<seq<Id>>,
                pops: seq<set<Id>>, order: seq<Id>, rounds: nat)
    returns (t: State<Id>)
    requires Running(adj, r, s, m, out, pops, order, rounds) && m.work != []
    requires m.Top().node in m.low && m.Top().node in m.indices && m.Parent() in m.low
    requires m.Top().next == |Succ(adj, m.Top().node)| && m.low[m.Top().node] != m.indices[m.Top().node]
    ensures Running(adj, r, t, m.Leave(), out, pops, order + [m.Top().node], rounds + 1)
  {
    hide Holds, Counted, Found, Split;
    t := MergeHolds(adj, r, s, m, order, rounds);
  }

  lemma PopRuns(adj: map<Id, seq<Id>>, r: Rel<Id>, s: State<Id>, m: Machine<Id>, out: seq<seq<Id>>,
                pops: seq<set<Id>>, order: seq<Id>, rounds: nat,
                n: nat, component: seq<Id>)
    returns (t: State<Id>)
    requires Running(adj, r, s, m, out, pops, order, rounds) && m.work != []
    requires m.Top().node in m.low && m.Top().node in m.indices && m.Parent() in m.low
    requires m.Top().next == |Succ(adj, m.Top().node)| && m.low[m.Top().node] == m.indices[m.Top().node]
    requires n < |m.stack| && m.stack[n] == m.Top().node && multiset(component) == multiset(m.stack[n..])
    ensures Running(adj, r, t, m.(stack := m.stack[..n], onStack := m.onStack - Elems(m.stack[n..])).Leave(),
                    if |component| > 1 || m.Top().node in Succ(adj, m.Top().node) then out + [Sort(Before, component)] else out,
                    pops + [Elems(m.stack[n..])], order + [m.Top().node], rounds + 1)
  {
    hide Counted, Found, Split, IsCycle, IsComponent, Sort, Inv, Framed, Stacked, Reaches;
    var f := m.Top().node;
    var c := Elems(m.stack[n..]);
    t := PopHolds(adj, r, s, m, order, rounds, n);
    SortedComponent(component, m.stack, n);
    assert m.stack[n..][0] == f;
    CycleTest(r, c, f);
    FoundMore(r, m.indices.Keys - m.onStack, out, c, Sort(Before, component));
    SplitMore(r, m.indices.Keys - m.onStack, pops, c);
  }

  /** Search everything root reaches that has no number yet, reporting its cycles. */
  method Explore(adj: map<Id, seq<Id>>, ghost r: Rel<Id>, root: Id, m0: Machine<Id>, out0: seq<seq<Id>>,
                 ghost s0: State<Id>, ghost pops0: seq<set<Id>>, ghost order0: seq<Id>, ghost rounds0: nat)
    returns (m: Machine<Id>, out: seq<seq<Id>>, ghost s: State<Id>, ghost pops: seq<set<Id>>,
             ghost order: seq<Id>, ghost rounds: nat)
    requires Running(adj, r, s0, m0, out0, pops0, order0, rounds0) && m0.work == [] && root !in m0.indices
    ensures Running(adj, r, s, m, out, pops, order, rounds) && m.work == []
    ensures m0.indices.Keys + {root} <= m.indices.Keys <= m0.indices.Keys + {root} + Heads(r)
  {
    hide Running, Sort;
    out, pops, order, rounds := out0, pops0, order0, rounds0;
    RootRuns(adj, r, s0, m0, out0, pops0, order0, rounds0, root);
    s := Visit(s0, root);
    m := m0.Enter(root);
    ghost var all := m.indices.Keys + Heads(r);

    while |m.work| > 0
      invariant Running(adj, r, s, m, out, pops, order, rounds)
      invariant m0.indices.Keys + {root} <= m.indices.Keys <= all
      decreases all - m.indices.Keys, |m.work|, if m.work == [] then 0 else |Succ(adj, m.Top().node)| - m.Top().next
    {
      var f := m.Top();
      var children := Succ(adj, f.node);
      RunningTop(adj, r, s, m, out, pops, order, rounds);
      rounds := rounds + 1;
      if f.next < |children| {
        var child := children[f.next];
        if child !in m.indices {
          s := PushRuns(adj, r, s, m, out, pops, order, rounds - 1, child);
          FewerUnseen(all, m, child);
          m := m.Advance().Enter(child);
        } else {
          s := LookRuns(adj, r, s, m, out, pops, order, rounds - 1, child);
          m := if child in m.onStack then m.Advance().Lower(f.node, m.indices[child]) else m.Advance();
        }
        continue;
      }

      if m.low[f.node] == m.indices[f.node] {
        var rest, onRest, component := PopComponent(m.stack, m.onStack, f.node);
        s := PopRuns(adj, r, s, m, out, pops, order, rounds - 1, |rest|, component);
        if |component| > 1 || f.node in children {
          out := out + [Sort(Before, component)];
        }
        pops := pops + [Elems(m.stack[|rest|..])];
        m := m.(stack := rest, onStack := onRest).Leave();
      } else {
        s := MergeRuns(adj, r, s, m, out, pops, order, rounds - 1);
        m := m.Leave();
      }
      order := order + [f.node];
    }
  }

  // ----- how long the search takes

  function StructuralCount(edges: seq<Edge>): nat
  {
    if edges == [] then 0
    else StructuralCount(edges[..|edges| - 1]) + if Structural(edges[|edges| - 1].kind) then 1 else 0
  }

  /** The lengths of the adjacency lists of the listed nodes, added up. */
  function Degrees(edges: seq<Edge>, order: seq<Id>): nat
  {
    if order == [] then 0
    else Degrees(edges, order[..|order| - 1]) + |Targets(edges, true, order[|order| - 1])|
  }

  lemma {:induction false} SpentIsDegrees(edges: seq<Edge>, adj: map<Id, seq<Id>>, order: seq<Id>)
    requires forall x :: Succ(adj, x) == Targets(edges, true, x)
    ensures Spent(adj, order) == Degrees(edges, order) + |order|
  {
    hide Targets;
    if order != [] {
      SpentIsDegrees(edges, adj, order[..|order| - 1]);
    }
  }

  lemma {:induction false} DegreesOneMore(edges: seq<Edge>, e: Edge, order: seq<Id>)
    requires forall i, j | 0 <= i < j < |order| :: order[i] != order[j]
    ensures Degrees(edges + [e], order) == Degrees(edges, order) + if Structural(e.kind) && e.from in order then 1 else 0
  {
    if order != [] {
      var n := |order| - 1;
      DegreesOneMore(edges, e, order[..n]);
      assert (edges + [e])[..|edges|] == edges;
      assert order == order[..n] + [order[n]];
    }
  }

  lemma {:induction false} DegreesOfNone(order: seq<Id>)
    ensures Degrees([], order) == 0
  {
    if order != [] {
      DegreesOfNone(order[..|order| - 1]);
    }
  }

  /** Listed once each, the nodes' adjacency lists hold every structural edge that starts at one of them. */
  lemma {:induction false} DegreesTotal(edges: seq<Edge>, order: seq<Id>)
    requires forall i, j | 0 <= i < j < |order| :: order[i] != order[j]
    requires forall e | e in edges && Structural(e.kind) :: e.from in order
    ensures Degrees(edges, order) == StructuralCount(edges)
  {
    if edges == [] {
      DegreesOfNone(order);
    } else {
      var front, e := edges[..|edges| - 1], edges[|edges| - 1];
      assert edges == front + [e];
      DegreesTotal(front, order);
      DegreesOneMore(front, e, order);
    }
  }

  /** Every node leaves the frame stack once, after one round per structural edge out of it. */
  ghost predicate RoundsPaid(nodes: seq<Node>, edges: seq<Edge>, order: seq<Id>, rounds: nat)
  {
    && Elems(order) == Ids(nodes)
    && (forall i, j | 0 <= i < j < |order| :: order[i] != order[j])
    && rounds == |order| + StructuralCount(edges)
  }

  lemma RoundsAddUp(nodes: seq<Node>, edges: seq<Edge>, adj: map<Id, seq<Id>>, order: seq<Id>, rounds: nat)
    requires Grounded(nodes, edges) && forall x :: Succ(adj, x) == Targets(edges, true, x)
    requires Ids(nodes) <= Elems(order) <= Ids(nodes) + Heads(Dependencies(edges))
    requires rounds == Spent(adj, order) && forall i, j | 0 <= i < j < |order| :: order[i] != order[j]
    ensures RoundsPaid(nodes, edges, order, rounds)
  {
    hide Targets;
    forall e | e in edges && Structural(e.kind) ensures e.from in order {
      assert e.from in Ids(nodes);
    }
    SpentIsDegrees(edges, adj, order);
    DegreesTotal(edges, order);
  }

  lemma {:induction false} StructuralCountIs(edges: seq<Edge>)
    ensures StructuralCount(edges) == |set i: nat | i < |edges| && edges[i].kind != Contains|
  {
    var all := set i: nat | i < |edges| && edges[i].kind != Contains;
    if edges == [] {
      assert all == {};
    } else {
      var n := |edges| - 1;
      var front := edges[..n];
      StructuralCountIs(front);
      var some := set i: nat | i < |front| && front[i].kind != Contains;
      assert all == some + if edges[n].kind != Contains then {n} else {};
    }
  }

  /** The rounds: one for each id and one for each dependency; every id leaves the frame stack once. */
  lemma RoundsMean(nodes: seq<Node>, edges: seq<Edge>, order: seq<Id>, rounds: nat)
    requires RoundsPaid(nodes, edges, order, rounds)
    ensures rounds == |Ids(nodes)| + |set i: nat | i < |edges| && edges[i].kind != Contains|
    ensures (forall x :: x in order <==> x in Ids(nodes)) && forall i, j | 0 <= i < j < |order| :: order[i] != order[j]
  {
    StructuralCountIs(edges);
    DistinctCount(order);
    assert forall x :: x in order <==> x in Elems(order);
  }
}
