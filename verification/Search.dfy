/** How the concrete node stack and frame stack of the component search stand
    for its abstract state. */
module Search {
  import opened Graphs
  import opened Tarjan

  datatype Frame<T> = Frame(node: T, next: nat)

  function NodesOf<T>(work: seq<Frame<T>>): set<T>
  {
    set f | f in work :: f.node
  }

  function Elems<T>(s: seq<T>): set<T>
  {
    set x | x in s
  }

  ghost predicate Stacked<T>(s: State<T>, stack: seq<T>)
  {
    && s.stack == Elems(stack)
    && forall i, j | 0 <= i < j < |stack| :: s.Idx(stack[i]) < s.Idx(stack[j])
  }

  ghost predicate Framed<T>(adj: map<T, seq<T>>, s: State<T>, work: seq<Frame<T>>)
  {
    && s.open == NodesOf(work)
    && (forall i, j | 0 <= i < j < |work| :: s.Idx(work[i].node) < s.Idx(work[j].node))
    && (forall f | f in work :: f.next <= |Succ(adj, f.node)|)
    && (forall f, k | f in work && 0 <= k < f.next :: (f.node, Succ(adj, f.node)[k]) in s.looked)
  }

  /** Start on x: number it, stack it and give it a frame. */
  lemma VisitRepresents<T>(adj: map<T, seq<T>>, s: State<T>, stack: seq<T>, work: seq<Frame<T>>, x: T)
    requires Shape(s) && Stacked(s, stack) && Framed(adj, s, work) && x !in s.index
    ensures Stacked(Visit(s, x), stack + [x])
    ensures Framed(adj, Visit(s, x), work + [Frame(x, 0)])
  {
    VisitStacked(s, stack, x);
    var t := Visit(s, x);
    var work' := work + [Frame(x, 0)];
    assert NodesOf(work') == NodesOf(work) + {x} by {
      assert work'[|work|] in work';
      assert forall f | f in work :: f in work';
    }
    forall i | 0 <= i < |work| ensures t.Idx(work[i].node) == s.Idx(work[i].node) < s.count {
      assert work[i] in work;
    }
  }

  lemma VisitStacked<T>(s: State<T>, stack: seq<T>, x: T)
    requires Shape(s) && Stacked(s, stack) && x !in s.index
    ensures Stacked(Visit(s, x), stack + [x])
  {
    var t := Visit(s, x);
    assert t.stack == Elems(stack + [x]);
    forall i | 0 <= i < |stack| ensures t.Idx(stack[i]) == s.Idx(stack[i]) < s.count {
      assert stack[i] in s.stack;
    }
  }

  /** Move the top frame past its next child, already numbered. */
  lemma LookRepresents<T>(adj: map<T, seq<T>>, s: State<T>, stack: seq<T>, work: seq<Frame<T>>, i: nat)
    requires Stacked(s, stack) && Framed(adj, s, work)
    requires i < |work| && work[i].next < |Succ(adj, work[i].node)|
    ensures Stacked(Look(s, work[i].node, Succ(adj, work[i].node)[work[i].next]), stack)
    ensures Framed(adj, Look(s, work[i].node, Succ(adj, work[i].node)[work[i].next]),
                   work[i := Frame(work[i].node, work[i].next + 1)])
  {
    var f := work[i];
    var t := Look(s, f.node, Succ(adj, f.node)[f.next]);
    var work' := work[i := Frame(f.node, f.next + 1)];
    assert t.open == NodesOf(work') by {
      assert work'[i].node == f.node;
      forall x | x in NodesOf(work) ensures x in NodesOf(work') {
        var k :| 0 <= k < |work| && work[k].node == x;
        assert work'[k].node == x;
      }
      forall x | x in NodesOf(work') ensures x in NodesOf(work) {
        var k :| 0 <= k < |work'| && work'[k].node == x;
        assert work[k].node == x;
      }
    }
    forall g, k | g in work' && 0 <= k < g.next
      ensures (g.node, Succ(adj, g.node)[k]) in t.looked
    {
      if g in work {
      } else {
        assert g == Frame(f.node, f.next + 1);
        assert k < f.next ==> (f.node, Succ(adj, f.node)[k]) in s.looked;
      }
    }
  }

  /** The last frame is the open node numbered last, and the one before it is next below. */
  lemma TopFrame<T>(adj: map<T, seq<T>>, s: State<T>, work: seq<Frame<T>>)
    requires Framed(adj, s, work) && work != []
    ensures s.Top(work[|work| - 1].node)
    ensures s.open - {work[|work| - 1].node} == NodesOf(work[..|work| - 1])
    ensures |work| == 1 ==> s.open == {work[0].node}
    ensures |work| > 1 ==> Below(s, work[|work| - 1].node, work[|work| - 2].node)
    ensures |work| > 1 ==> work[|work| - 2].node in s.open && work[|work| - 2].node != work[|work| - 1].node
  {
    var n := |work| - 1;
    LastIsTop(s, work);
    DropLast(s, work);
    if n > 0 {
      NextIsBelow(s, work);
    }
  }

  lemma DropLast<T>(s: State<T>, work: seq<Frame<T>>)
    requires work != []
    requires forall i, j | 0 <= i < j < |work| :: s.Idx(work[i].node) < s.Idx(work[j].node)
    ensures NodesOf(work) - {work[|work| - 1].node} == NodesOf(work[..|work| - 1])
  {
    var n := |work| - 1;
    var front := work[..n];
    assert work == front + [work[n]];
    assert forall f | f in front :: f.node != work[n].node;
  }

  lemma NextIsBelow<T>(s: State<T>, work: seq<Frame<T>>)
    requires s.open == NodesOf(work) && |work| > 1
    requires forall i, j | 0 <= i < j < |work| :: s.Idx(work[i].node) < s.Idx(work[j].node)
    ensures Below(s, work[|work| - 1].node, work[|work| - 2].node)
    ensures work[|work| - 2].node in s.open && work[|work| - 2].node != work[|work| - 1].node
  {
    var n := |work| - 1;
    assert work[n - 1] in work;
    assert s.Idx(work[n - 1].node) < s.Idx(work[n].node);
    forall g | g in s.open && g != work[n].node ensures s.Idx(g) <= s.Idx(work[n - 1].node) {
      var k :| 0 <= k < |work| && work[k].node == g;
    }
  }

  lemma LastIsTop<T>(s: State<T>, work: seq<Frame<T>>)
    requires s.open == NodesOf(work) && work != []
    requires forall i, j | 0 <= i < j < |work| :: s.Idx(work[i].node) < s.Idx(work[j].node)
    ensures s.Top(work[|work| - 1].node)
  {
    assert work[|work| - 1] in work;
    forall g | g in s.open ensures s.Idx(g) <= s.Idx(work[|work| - 1].node) {
      var k :| 0 <= k < |work| && work[k].node == g;
    }
  }

  /** Closing the last frame. */
  lemma CloseRepresents<T>(adj: map<T, seq<T>>, s: State<T>, stack: seq<T>, work: seq<Frame<T>>, p: T)
    requires Stacked(s, stack) && Framed(adj, s, work) && work != []
    ensures Stacked(Close(s, work[|work| - 1].node, p), stack)
    ensures Framed(adj, Close(s, work[|work| - 1].node, p), work[..|work| - 1])
  {
    TopFrame(adj, s, work);
  }

  /** A frame that has run out of children has followed every edge of its node. */
  lemma FrameExhausted<T(!new)>(adj: map<T, seq<T>>, r: Rel<T>, s: State<T>, work: seq<Frame<T>>, f: Frame<T>)
    requires Framed(adj, s, work) && f in work && f.next == |Succ(adj, f.node)|
    requires AdjacencyOf(adj, r)
    ensures Exhausted(r, s, f.node)
  {
    forall e | e in r && e.0 == f.node ensures e in s.looked {
      assert e.1 in Succ(adj, f.node);
      var k :| 0 <= k < |Succ(adj, f.node)| && Succ(adj, f.node)[k] == e.1;
      assert e == (f.node, Succ(adj, f.node)[k]);
    }
  }

  /** Pop the stack down to and including node. */
  method PopComponent<T(==)>(stack: seq<T>, onStack: set<T>, node: T)
    returns (rest: seq<T>, onRest: set<T>, component: seq<T>)
    requires node in stack
    ensures |rest| < |stack| && rest == stack[..|rest|] && stack[|rest|] == node
    ensures node !in stack[|rest| + 1..]
    ensures multiset(component) == multiset(stack[|rest|..])
    ensures onRest == onStack - Elems(stack[|rest|..])
  {
    rest, onRest, component := stack, onStack, [];
    while true
      invariant |rest| <= |stack| && rest == stack[..|rest|]
      invariant node in rest && node !in stack[|rest|..]
      invariant multiset(component) == multiset(stack[|rest|..])
      invariant onRest == onStack - Elems(stack[|rest|..])
      decreases |rest|
    {
      var last := rest[|rest| - 1];
      assert stack[|rest| - 1..] == [last] + stack[|rest|..];
      assert Elems(stack[|rest| - 1..]) == {last} + Elems(stack[|rest|..]);
      assert rest == rest[..|rest| - 1] + [last];
      rest, onRest, component := rest[..|rest| - 1], onRest - {last}, component + [last];
      if last == node {
        return;
      }
    }
  }

  /** The popped part of the stack is the segment from the component's first node up. */
  lemma PopRepresents<T>(s: State<T>, stack: seq<T>, n: nat)
    requires Stacked(s, stack) && n < |stack|
    ensures Elems(stack[n..]) == Segment(s, stack[n])
    ensures s.stack - Segment(s, stack[n]) == Elems(stack[..n])
    ensures forall i, j | n <= i < j < |stack| :: stack[i] != stack[j]
  {
    var low, high := Elems(stack[..n]), Elems(stack[n..]);
    assert stack == stack[..n] + stack[n..];
    assert s.stack == low + high;
    forall x | x in low ensures s.Idx(x) < s.Idx(stack[n]) {
      var k :| 0 <= k < n && stack[k] == x;
    }
    forall x | x in high ensures s.Idx(stack[n]) <= s.Idx(x) {
      var k :| 0 <= k < |stack[n..]| && stack[n..][k] == x;
      assert stack[n + k] == x;
    }
  }

  // ----- counting the loop's rounds

  /** Rounds spent on nodes whose frame is gone: one per successor and one to leave. */
  function Spent<T>(adj: map<T, seq<T>>, order: seq<T>): nat
  {
    if order == [] then 0
    else Spent(adj, order[..|order| - 1]) + |Succ(adj, order[|order| - 1])| + 1
  }

  /** Rounds spent so far on nodes with a frame. */
  function Spending<T>(work: seq<Frame<T>>): nat
  {
    if work == [] then 0 else Spending(work[..|work| - 1]) + work[|work| - 1].next
  }

  /** order lists, once each, the numbered nodes that have left the frame stack. */
  ghost predicate Left<T>(s: State<T>, order: seq<T>)
  {
    && Elems(order) == s.index.Keys - s.open
    && forall i, j | 0 <= i < j < |order| :: order[i] != order[j]
  }

  lemma LeftSame<T>(s: State<T>, t: State<T>, order: seq<T>)
    requires Left(s, order) && t.index == s.index && t.open == s.open
    ensures Left(t, order)
  {
  }

  lemma FramedSame<T>(adj: map<T, seq<T>>, s: State<T>, t: State<T>, work: seq<Frame<T>>)
    requires Framed(adj, s, work) && t.index == s.index && t.open == s.open && t.looked == s.looked
    ensures Framed(adj, t, work)
  {
  }

  lemma StackedPart<T>(s: State<T>, t: State<T>, stack: seq<T>, n: nat)
    requires Stacked(s, stack) && n <= |stack| && t.index == s.index && t.stack == Elems(stack[..n])
    ensures Stacked(t, stack[..n])
  {
  }

  lemma LeftVisit<T>(s: State<T>, order: seq<T>, x: T)
    requires Left(s, order) && x !in s.index
    ensures Left(Visit(s, x), order)
  {
  }

  lemma LeftClose<T>(s: State<T>, order: seq<T>, f: T, p: T)
    requires Left(s, order) && f in s.open && f in s.index
    ensures Left(Close(s, f, p), order + [f])
  {
    assert Elems(order + [f]) == Elems(order) + {f};
    assert forall x | x in order :: x in Elems(order);
  }

  lemma SpendingSplit<T>(work: seq<Frame<T>>, f: Frame<T>)
    ensures Spending(work + [f]) == Spending(work) + f.next
  {
    assert (work + [f])[..|work|] == work;
  }

  lemma SpentSplit<T>(adj: map<T, seq<T>>, order: seq<T>, x: T)
    ensures Spent(adj, order + [x]) == Spent(adj, order) + |Succ(adj, x)| + 1
  {
    assert (order + [x])[..|order|] == order;
  }

  // ----- the search's variables, taken together

  datatype Machine<T> = Machine(
    index: nat,
    indices: map<T, nat>,
    low: map<T, nat>,
    stack: seq<T>,
    onStack: set<T>,
    work: seq<Frame<T>>)
  {
    /** Number x, stack it and give it a frame. */
    function Enter(x: T): Machine<T>
    {
      Machine(index + 1, indices[x := index], low[x := index], stack + [x], onStack + {x}, work + [Frame(x, 0)])
    }

    function Top(): Frame<T>
      requires work != []
    {
      work[|work| - 1]
    }

    /** Move the top frame past its next child. */
    function Advance(): Machine<T>
      requires work != []
    {
      this.(work := work[|work| - 1 := Frame(Top().node, Top().next + 1)])
    }

    /** Lower x's low to v, if v is less. */
    function Lower(x: T, v: nat): Machine<T>
      requires x in low
    {
      this.(low := low[x := Min(low[x], v)])
    }

    /** The node of the frame below the top one, or of the top one when it is alone. */
    function Parent(): T
      requires work != []
    {
      if |work| > 1 then work[|work| - 2].node else work[0].node
    }

    /** Drop the top frame, handing its low to the frame below. */
    function Leave(): Machine<T>
      requires work != [] && Top().node in low && Parent() in low
    {
      var m := if |work| > 1 then Lower(Parent(), low[Top().node]) else this;
      m.(work := work[..|work| - 1])
    }
  }

  ghost predicate AdjacencyOf<T(!new)>(adj: map<T, seq<T>>, r: Rel<T>)
  {
    forall x, y :: y in Succ(adj, x) <==> (x, y) in r
  }

  /** The variables stand for the abstract state s, and s is sound for r. */
  ghost predicate Holds<T(!new)>(adj: map<T, seq<T>>, r: Rel<T>, s: State<T>, m: Machine<T>)
  {
    && AdjacencyOf(adj, r)
    && Inv(r, s)
    && Stacked(s, m.stack)
    && Framed(adj, s, m.work)
    && m.index == s.count && m.indices == s.index && m.low == s.low && m.onStack == s.stack
  }

  /** The rounds so far are paid for by the frames left (order) and the frames still there. */
  ghost predicate Counted<T>(adj: map<T, seq<T>>, s: State<T>, work: seq<Frame<T>>, order: seq<T>, rounds: nat)
  {
    Left(s, order) && rounds == Spent(adj, order) + Spending(work)
  }

  lemma StartHolds<T(!new)>(adj: map<T, seq<T>>, r: Rel<T>)
    requires AdjacencyOf(adj, r)
    ensures Holds(adj, r, State(0, map[], map[], {}, {}, {}), Machine(0, map[], map[], [], {}, []))
    ensures Counted(adj, State(0, map[], map[], {}, {}, {}), [], [], 0)
  {
    NothingYet(r, State(0, map[], map[], {}, {}, {}));
  }

  lemma RootHolds<T(!new)>(adj: map<T, seq<T>>, r: Rel<T>, s: State<T>, m: Machine<T>, x: T, order: seq<T>, rounds: nat)
    requires Holds(adj, r, s, m) && m.work == [] && x !in m.indices && Counted(adj, s, m.work, order, rounds)
    ensures Holds(adj, r, Visit(s, x), m.Enter(x))
    ensures Counted(adj, Visit(s, x), m.Enter(x).work, order, rounds)
    ensures m.Enter(x).indices.Keys - m.Enter(x).onStack == m.indices.Keys - m.onStack
  {
    hide Reaches, Inv, AdjacencyOf, Stacked, Framed, Left;
    NoFrames(adj, s);
    InvShape(r, s);
    VisitKeepsInv(r, s, x);
    VisitRepresents(adj, s, m.stack, [], x);
    assert [] + [Frame(x, 0)] == [Frame(x, 0)];
    LeftVisit(s, order, x);
    SpendingSplit([], Frame(x, 0));
  }

  lemma NoFrames<T>(adj: map<T, seq<T>>, s: State<T>)
    ensures Framed(adj, s, []) ==> s.open == {}
  {
  }

  lemma InvShape<T(!new)>(r: Rel<T>, s: State<T>)
    requires Inv(r, s)
    ensures Shape(s)
  {
  }

  /** What the loop may rely on about the frame on top. */
  lemma TopReady<T(!new)>(adj: map<T, seq<T>>, r: Rel<T>, s: State<T>, m: Machine<T>)
    requires Holds(adj, r, s, m) && m.work != []
    ensures var f := m.Top();
            && f.node in m.indices && f.node in m.low && f.node in m.stack && f.next <= |Succ(adj, f.node)|
            && m.Parent() in m.low
            && (f.next < |Succ(adj, f.node)| ==> (f.node, Succ(adj, f.node)[f.next]) in r)
  {
    hide Reaches;
    InvShape(r, s);
    TopFrame(adj, s, m.work);
    assert s.open <= s.stack;
  }

  /** Meeting a new node: the frame moves on and the node is entered. */
  lemma PushHolds<T(!new)>(adj: map<T, seq<T>>, r: Rel<T>, s: State<T>, m: Machine<T>, order: seq<T>, rounds: nat, x: T)
    returns (t: State<T>)
    requires Holds(adj, r, s, m) && Counted(adj, s, m.work, order, rounds) && m.work != []
    requires m.Top().next < |Succ(adj, m.Top().node)| && Succ(adj, m.Top().node)[m.Top().next] == x && x !in m.indices
    ensures Holds(adj, r, t, m.Advance().Enter(x))
    ensures Counted(adj, t, m.Advance().Enter(x).work, order, rounds + 1)
    ensures m.Enter(x).indices.Keys - m.Enter(x).onStack == m.indices.Keys - m.onStack
  {
    hide Reaches, Inv, AdjacencyOf, LowBounds, Stacked, Framed, Counted;
    var top := |m.work| - 1;
    var f := m.work[top];
    TopReady(adj, r, s, m);
    TopFrame(adj, s, m.work);
    InvShape(r, s);
    InvChild(r, s, f.node, x);
    VisitKeepsInv(r, s, x);
    VisitRepresents(adj, s, m.stack, m.work, x);
    LookKeepsInv(r, Visit(s, x), f.node, x);
    assert (m.work + [Frame(x, 0)])[top] == f;
    LookRepresents(adj, Visit(s, x), m.stack + [x], m.work + [Frame(x, 0)], top);
    t := Look(Visit(s, x), f.node, x);
    assert (m.work + [Frame(x, 0)])[top := Frame(f.node, f.next + 1)] == m.Advance().Enter(x).work;
    PushCounted(adj, s, t, m, order, rounds, x);
  }

  lemma PushCounted<T>(adj: map<T, seq<T>>, s: State<T>, t: State<T>, m: Machine<T>, order: seq<T>, rounds: nat, x: T)
    requires Counted(adj, s, m.work, order, rounds) && m.work != [] && x !in s.index
    requires t.index == Visit(s, x).index && t.open == Visit(s, x).open
    ensures Counted(adj, t, m.Advance().Enter(x).work, order, rounds + 1)
  {
    LeftVisit(s, order, x);
    LeftSame(Visit(s, x), t, order);
    SpendingMore(m);
    SpendingSplit(m.Advance().work, Frame(x, 0));
  }

  lemma InvChild<T(!new)>(r: Rel<T>, s: State<T>, f: T, x: T)
    requires Inv(r, s) && s.Top(f) && (f, x) in r && x !in s.index
    ensures forall g | g in s.open :: Reaches(r, g, x)
    ensures Look(Visit(s, x), f, x).low == s.low[x := s.count]
  {
    hide Reaches;
    ChildReached(r, s, f, x);
    ChildLow(s, f, x);
  }

  lemma SpendingMore<T>(m: Machine<T>)
    requires m.work != []
    ensures Spending(m.Advance().work) == Spending(m.work) + 1
  {
    var front, f := m.work[..|m.work| - 1], m.Top();
    assert m.work == front + [f];
    assert m.Advance().work == front + [Frame(f.node, f.next + 1)];
    SpendingSplit(front, f);
    SpendingSplit(front, Frame(f.node, f.next + 1));
  }

  /** Meeting a node already numbered. */
  lemma LookHolds<T(!new)>(adj: map<T, seq<T>>, r: Rel<T>, s: State<T>, m: Machine<T>, order: seq<T>, rounds: nat, y: T)
    returns (t: State<T>)
    requires Holds(adj, r, s, m) && Counted(adj, s, m.work, order, rounds) && m.work != [] && m.Top().node in m.low
    requires m.Top().next < |Succ(adj, m.Top().node)| && Succ(adj, m.Top().node)[m.Top().next] == y && y in m.indices
    ensures Holds(adj, r, t, if y in m.onStack then m.Advance().Lower(m.Top().node, m.indices[y]) else m.Advance())
    ensures Counted(adj, t, m.Advance().work, order, rounds + 1)
  {
    hide Reaches, Inv, AdjacencyOf, LowBounds, Stacked, Framed, Left;
    var f := m.Top();
    TopReady(adj, r, s, m);
    TopFrame(adj, s, m.work);
    LookKeepsInv(r, s, f.node, y);
    LookRepresents(adj, s, m.stack, m.work, |m.work| - 1);
    t := Look(s, f.node, y);
    LeftSame(s, t, order);
    SpendingMore(m);
  }

  lemma CloseCounted<T(!new)>(adj: map<T, seq<T>>, s: State<T>, work: seq<Frame<T>>, order: seq<T>, rounds: nat, p: T)
    requires Shape(s) && Framed(adj, s, work) && Counted(adj, s, work, order, rounds) && work != []
    requires work[|work| - 1].next == |Succ(adj, work[|work| - 1].node)|
    ensures Counted(adj, Close(s, work[|work| - 1].node, p), work[..|work| - 1], order + [work[|work| - 1].node], rounds + 1)
  {
    var f := work[|work| - 1];
    assert f in work;
    assert work == work[..|work| - 1] + [f];
    SpendingSplit(work[..|work| - 1], f);
    SpentSplit(adj, order, f.node);
    LeftClose(s, order, f.node, p);
  }

  lemma MergeHolds<T(!new)>(adj: map<T, seq<T>>, r: Rel<T>, s: State<T>, m: Machine<T>, order: seq<T>, rounds: nat)
    returns (t: State<T>)
    requires Holds(adj, r, s, m) && Counted(adj, s, m.work, order, rounds) && m.work != []
    requires m.Top().node in m.low && m.Top().node in m.indices && m.Parent() in m.low
    requires m.Top().next == |Succ(adj, m.Top().node)| && m.low[m.Top().node] != m.indices[m.Top().node]
    ensures Holds(adj, r, t, m.Leave())
    ensures Counted(adj, t, m.Leave().work, order + [m.Top().node], rounds + 1)
  {
    hide Reaches, Inv, AdjacencyOf, Exhausted;
    var f := m.work[|m.work| - 1];
    var p := m.Parent();
    TopReady(adj, r, s, m);
    TopFrame(adj, s, m.work);
    InvLow(r, s, f.node);
    assert Exhausted(r, s, f.node) by { MachineExhausted(adj, r, s, m); }
    MergeKeepsInv(r, s, f.node, p);
    CloseRepresents(adj, s, m.stack, m.work, p);
    CloseCounted(adj, s, m.work, order, rounds, p);
    t := Close(s, f.node, p);
  }

  lemma InvLow<T(!new)>(r: Rel<T>, s: State<T>, f: T)
    requires Inv(r, s) && f in s.open
    ensures Shape(s) && s.Low(f) <= s.Idx(f)
  {
    hide Reaches;
  }

  lemma MachineExhausted<T(!new)>(adj: map<T, seq<T>>, r: Rel<T>, s: State<T>, m: Machine<T>)
    requires Holds(adj, r, s, m) && m.work != []
    requires m.work[|m.work| - 1].next == |Succ(adj, m.work[|m.work| - 1].node)|
    ensures Exhausted(r, s, m.work[|m.work| - 1].node)
  {
    hide Reaches, Inv;
    FrameExhausted(adj, r, s, m.work, m.work[|m.work| - 1]);
  }

  lemma PopHolds<T(!new)>(adj: map<T, seq<T>>, r: Rel<T>, s: State<T>, m: Machine<T>, order: seq<T>, rounds: nat, n: nat)
    returns (t: State<T>)
    requires Holds(adj, r, s, m) && Counted(adj, s, m.work, order, rounds) && m.work != []
    requires m.Top().node in m.low && m.Top().node in m.indices && m.Parent() in m.low
    requires m.Top().next == |Succ(adj, m.Top().node)| && m.low[m.Top().node] == m.indices[m.Top().node]
    requires n < |m.stack| && m.stack[n] == m.Top().node
    ensures Holds(adj, r, t, m.(stack := m.stack[..n], onStack := m.onStack - Elems(m.stack[n..])).Leave())
    ensures Counted(adj, t, m.Leave().work, order + [m.Top().node], rounds + 1)
    ensures IsComponent(r, Elems(m.stack[n..])) && Elems(m.stack[n..]) <= m.onStack
    ensures forall i, j | n <= i < j < |m.stack| :: m.stack[i] != m.stack[j]
    ensures m.indices.Keys - (m.onStack - Elems(m.stack[n..])) == (m.indices.Keys - m.onStack) + Elems(m.stack[n..])
  {
    hide Reaches, Inv, AdjacencyOf, Exhausted, IsComponent, Stacked, Framed, Left, Spent, Spending;
    var f := m.work[|m.work| - 1];
    var p := m.Parent();
    TopReady(adj, r, s, m);
    TopFrame(adj, s, m.work);
    InvShape(r, s);
    assert Exhausted(r, s, f.node) by { MachineExhausted(adj, r, s, m); }
    PopKeepsInv(r, s, f.node, p);
    SegmentIsComponent(r, s, f.node);
    PopRepresents(s, m.stack, n);
    CloseRepresents(adj, s, m.stack, m.work, p);
    CloseCounted(adj, s, m.work, order, rounds, p);
    var u := Close(s, f.node, p);
    t := Pop(u, Segment(s, f.node));
    LeftSame(u, t, order + [f.node]);
    FramedSame(adj, u, t, m.work[..|m.work| - 1]);
    StackedPart(s, t, m.stack, n);
  }

  lemma FirstIn<T>(s: seq<T>)
    ensures s != [] ==> s[0] in Elems(s)
  {
  }

  /** Between roots the stack is empty and no edge leaves what is numbered. */
  lemma AllClosed<T(!new)>(adj: map<T, seq<T>>, r: Rel<T>, s: State<T>, m: Machine<T>)
    requires Holds(adj, r, s, m) && m.work == []
    ensures m.onStack == {} && m.stack == [] && Closed(r, m.indices.Keys)
  {
    hide Reaches, Inv;
    NoFrames(adj, s);
    NothingOpen(r, s);
    FirstIn(m.stack);
  }

  lemma FewerUnseen<T>(all: set<T>, m: Machine<T>, x: T)
    requires m.work != [] && x in all && x !in m.indices && m.indices.Keys <= all
    ensures all - m.Advance().Enter(x).indices.Keys < all - m.indices.Keys
    ensures m.Advance().Enter(x).indices.Keys <= all
  {
    assert x in all - m.indices.Keys;
  }

  lemma AllLeft<T(!new)>(adj: map<T, seq<T>>, r: Rel<T>, s: State<T>, m: Machine<T>, order: seq<T>, rounds: nat)
    requires Holds(adj, r, s, m) && m.work == [] && Counted(adj, s, m.work, order, rounds)
    ensures Elems(order) == m.indices.Keys && rounds == Spent(adj, order)
    ensures forall i, j | 0 <= i < j < |order| :: order[i] != order[j]
  {
    hide Reaches, Inv;
    NoFrames(adj, s);
  }
}
