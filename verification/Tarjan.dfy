/** The state of the component search and what every step of it keeps.

    A numbered node is either on the stack or finished for good (its component
    is popped). Some stack nodes are open: they still have a frame. looked holds
    the edges the search has followed so far. */
module Tarjan {
  import opened Graphs

  datatype State<T> = State(
    count: nat,
    index: map<T, nat>,
    low: map<T, nat>,
    stack: set<T>,
    open: set<T>,
    looked: set<(T, T)>)
  {
    function Idx(x: T): nat
    {
      if x in index then index[x] else 0
    }

    function Low(x: T): nat
    {
      if x in low then low[x] else 0
    }

    ghost predicate Popped(x: T)
    {
      x in index && x !in stack
    }

    /** x is the open node numbered last. */
    ghost predicate Top(x: T)
    {
      x in open && forall g | g in open :: Idx(g) <= Idx(x)
    }
  }

  ghost predicate Shape<T>(s: State<T>)
  {
    && s.open <= s.stack <= s.index.Keys
    && s.open <= s.low.Keys
    && (forall x | x in s.index :: s.Idx(x) < s.count)
    && (forall x, y | x in s.index && y in s.index && s.Idx(x) == s.Idx(y) :: x == y)
  }

  ghost predicate Followed<T>(r: Rel<T>, s: State<T>)
  {
    && s.looked <= r
    && (forall e | e in s.looked :: e.0 in s.index && e.1 in s.index)
    && (forall e | e in r && e.0 in s.index && e.0 !in s.open :: e in s.looked)
    && (forall e | e in r && s.Popped(e.0) :: s.Popped(e.1))
  }

  /** x was stacked while g was the last open node at or below it. */
  ghost predicate Owns<T>(s: State<T>, g: T, x: T)
  {
    && s.Idx(g) <= s.Idx(x)
    && forall h | h in s.open && s.Idx(h) <= s.Idx(x) :: s.Idx(h) <= s.Idx(g)
  }

  /** low bounds every followed edge that leads from an owned node back into the stack. */
  ghost predicate LowBounds<T(!new)>(s: State<T>)
  {
    && (forall g | g in s.open :: s.Low(g) <= s.Idx(g))
    && (forall g, e {:trigger Owns(s, g, e.0), e in s.looked} | g in s.open && e in s.looked && e.0 in s.stack && e.1 in s.stack && Owns(s, g, e.0) ::
          s.Low(g) <= s.Idx(e.1))
  }

  /** low is the number of a stack node that the open node reaches. */
  ghost predicate LowReached<T(!new)>(r: Rel<T>, s: State<T>)
  {
    forall g {:trigger LowAt(r, s, g)} | g in s.open :: LowAt(r, s, g)
  }

  ghost predicate LowAt<T(!new)>(r: Rel<T>, s: State<T>, g: T)
  {
    exists w :: w in s.stack && s.Idx(w) == s.Low(g) && Reaches(r, g, w)
  }

  /** Every stack node reaches an open node numbered no later. */
  ghost predicate Descends<T(!new)>(r: Rel<T>, s: State<T>)
  {
    forall x {:trigger Anchored(r, s, x)} | x in s.stack :: Anchored(r, s, x)
  }

  ghost predicate Anchored<T(!new)>(r: Rel<T>, s: State<T>, x: T)
  {
    exists g :: g in s.open && s.Idx(g) <= s.Idx(x) && Reaches(r, x, g)
  }

  lemma LowNode<T(!new)>(r: Rel<T>, s: State<T>, g: T) returns (w: T)
    requires LowReached(r, s) && g in s.open
    ensures w in s.stack && s.Idx(w) == s.Low(g) && Reaches(r, g, w)
  {
    assert LowAt(r, s, g);
    w :| w in s.stack && s.Idx(w) == s.Low(g) && Reaches(r, g, w);
  }

  lemma Anchor<T(!new)>(r: Rel<T>, s: State<T>, x: T) returns (g: T)
    requires Descends(r, s) && x in s.stack
    ensures g in s.open && s.Idx(g) <= s.Idx(x) && Reaches(r, x, g)
  {
    assert Anchored(r, s, x);
    g :| g in s.open && s.Idx(g) <= s.Idx(x) && Reaches(r, x, g);
  }

  lemma AnchoredBy<T(!new)>(r: Rel<T>, s: State<T>, x: T, g: T)
    requires g in s.open && s.Idx(g) <= s.Idx(x) && Reaches(r, x, g)
    ensures Anchored(r, s, x)
  {
  }

  /** Every open node reaches the stack nodes numbered no earlier. */
  ghost predicate Ascends<T(!new)>(r: Rel<T>, s: State<T>)
  {
    forall g, x | g in s.open && x in s.stack && s.Idx(g) <= s.Idx(x) :: Reaches(r, g, x)
  }

  ghost predicate Inv<T(!new)>(r: Rel<T>, s: State<T>)
  {
    Shape(s) && Followed(r, s) && LowBounds(s) && LowReached(r, s) && Descends(r, s) && Ascends(r, s)
  }

  // ----- steps

  /** Number x and open it. */
  function Visit<T>(s: State<T>, x: T): State<T>
  {
    State(s.count + 1, s.index[x := s.count], s.low[x := s.count], s.stack + {x}, s.open + {x}, s.looked)
  }

  /** Follow the edge (f, y) to a node already numbered, lowering f's low by it when y is stacked. */
  function Look<T>(s: State<T>, f: T, y: T): State<T>
  {
    s.(looked := s.looked + {(f, y)}, low := if y in s.stack then s.low[f := Min(s.Low(f), s.Idx(y))] else s.low)
  }

  /** Close f, handing its low to the open node p below it, if there is one. */
  function Close<T>(s: State<T>, f: T, p: T): State<T>
  {
    s.(open := s.open - {f}, low := if p in s.open && p != f then s.low[p := Min(s.Low(p), s.Low(f))] else s.low)
  }

  /** Take c off the stack. */
  function Pop<T>(s: State<T>, c: set<T>): State<T>
  {
    s.(stack := s.stack - c)
  }

  function Succ<T>(adj: map<T, seq<T>>, x: T): seq<T>
  {
    if x in adj then adj[x] else []
  }

  function Min(a: nat, b: nat): nat
  {
    if a < b then a else b
  }

  lemma VisitKeepsInv<T(!new)>(r: Rel<T>, s: State<T>, x: T)
    requires Inv(r, s) && x !in s.index
    requires forall g | g in s.open :: Reaches(r, g, x)
    ensures Inv(r, Visit(s, x)) && Visit(s, x).Top(x)
  {
    hide Reaches, LowAt, Anchored, LowBounds;
    ReachesSelf(r, x);
    VisitBounds(s, x);
    VisitLow(r, s, x);
    VisitDescends(r, s, x);
  }

  lemma VisitOwns<T>(s: State<T>, x: T, g: T, y: T)
    requires Shape(s) && x !in s.index && g in Visit(s, x).open && y in s.index && Owns(Visit(s, x), g, y)
    ensures g in s.open && Owns(s, g, y)
  {
    forall h | h in s.open && s.Idx(h) <= s.Idx(y) ensures s.Idx(h) <= s.Idx(g) {
      assert Visit(s, x).Idx(h) == s.Idx(h);
    }
  }

  lemma VisitBounds<T(!new)>(s: State<T>, x: T)
    requires Shape(s) && LowBounds(s) && x !in s.index && forall e | e in s.looked :: e.0 in s.index
    ensures LowBounds(Visit(s, x))
  {
    var t := Visit(s, x);
    forall g, e | g in t.open && e in t.looked && e.0 in t.stack && e.1 in t.stack && Owns(t, g, e.0)
      ensures t.Low(g) <= t.Idx(e.1)
    {
      VisitOwns(s, x, g, e.0);
    }
  }

  lemma VisitLow<T(!new)>(r: Rel<T>, s: State<T>, x: T)
    requires Shape(s) && x !in s.index && Reaches(r, x, x) && LowReached(r, s)
    ensures LowReached(r, Visit(s, x))
  {
    hide Reaches;
    var t := Visit(s, x);
    forall g | g in t.open ensures LowAt(r, t, g) {
      if g == x {
        assert t.Idx(x) == t.Low(g);
      } else {
        var w := LowNode(r, s, g);
        assert t.Idx(w) == t.Low(g);
      }
    }
  }

  lemma VisitDescends<T(!new)>(r: Rel<T>, s: State<T>, x: T)
    requires Shape(s) && x !in s.index && Reaches(r, x, x) && Descends(r, s)
    ensures Descends(r, Visit(s, x))
  {
    hide Reaches, Anchored;
    var t := Visit(s, x);
    forall y | y in t.stack ensures Anchored(r, t, y) {
      if y == x {
        AnchoredBy(r, t, x, x);
      } else {
        var g := Anchor(r, s, y);
        AnchoredBy(r, t, y, g);
      }
    }
  }

  lemma LookKeepsInv<T(!new)>(r: Rel<T>, s: State<T>, f: T, y: T)
    requires Inv(r, s) && f in s.open && (f, y) in r && y in s.index
    ensures Inv(r, Look(s, f, y))
  {
    hide Reaches, LowAt, Anchored, LowBounds;
    ReachesEdge(r, f, y);
    LookBounds(s, f, y);
    LookLow(r, s, f, y);
    LookDescends(r, s, f, y);
  }

  lemma LookBounds<T(!new)>(s: State<T>, f: T, y: T)
    requires Shape(s) && LowBounds(s) && f in s.open && y in s.index
    ensures LowBounds(Look(s, f, y))
  {
    var t := Look(s, f, y);
    forall g, e | g in t.open && e in t.looked && e.0 in t.stack && e.1 in t.stack && Owns(t, g, e.0)
      ensures t.Low(g) <= t.Idx(e.1)
    {
      if e == (f, y) {
        assert g == f;
      } else {
        assert Owns(s, g, e.0);
      }
    }
  }

  lemma LookLow<T(!new)>(r: Rel<T>, s: State<T>, f: T, y: T)
    requires Shape(s) && LowReached(r, s) && f in s.open && y in s.index && Reaches(r, f, y)
    ensures LowReached(r, Look(s, f, y))
  {
    hide Reaches;
    var t := Look(s, f, y);
    forall g | g in t.open ensures LowAt(r, t, g) {
      var w := LowNode(r, s, g);
      if g == f && t.Low(f) != s.Low(f) {
        assert t.Idx(y) == t.Low(f);
      } else {
        assert t.Idx(w) == t.Low(g);
      }
    }
  }

  lemma LookDescends<T(!new)>(r: Rel<T>, s: State<T>, f: T, y: T)
    requires Descends(r, s)
    ensures Descends(r, Look(s, f, y))
  {
    hide Reaches, Anchored;
    var t := Look(s, f, y);
    forall x | x in t.stack ensures Anchored(r, t, x) {
      var g := Anchor(r, s, x);
      AnchoredBy(r, t, x, g);
    }
  }

  /** Every edge out of f has been followed. */
  ghost predicate Exhausted<T>(r: Rel<T>, s: State<T>, f: T)
  {
    forall e | e in r && e.0 == f :: e in s.looked
  }

  /** The stack from f upward. */
  ghost function Segment<T>(s: State<T>, f: T): set<T>
  {
    set x | x in s.stack && s.Idx(f) <= s.Idx(x)
  }

  /** p is the open node below f, if f is not the only one. */
  ghost predicate Below<T>(s: State<T>, f: T, p: T)
  {
    s.open != {f} ==> p in s.open && p != f && forall g | g in s.open && g != f :: s.Idx(g) <= s.Idx(p)
  }

  /** Nothing leaves the segment of an exhausted top node whose low is its own number, except to popped nodes. */
  lemma SegmentClosed<T(!new)>(r: Rel<T>, s: State<T>, f: T)
    requires Shape(s) && Followed(r, s) && LowBounds(s)
    requires s.Top(f) && Exhausted(r, s, f) && s.Low(f) == s.Idx(f)
    ensures Closed(r, Segment(s, f) + (s.index.Keys - s.stack))
    ensures forall e | e in r && e.0 in Segment(s, f) :: e.1 in Segment(s, f) || s.Popped(e.1)
  {
    forall e | e in r && e.0 in Segment(s, f)
      ensures e.1 in Segment(s, f) || s.Popped(e.1)
    {
      assert e.0 in s.index && e in s.looked;
      assert Owns(s, f, e.0);
    }
  }

  lemma SegmentIsComponent<T(!new)>(r: Rel<T>, s: State<T>, f: T)
    requires Inv(r, s) && s.Top(f) && Exhausted(r, s, f) && s.Low(f) == s.Idx(f)
    ensures IsComponent(r, Segment(s, f))
  {
    hide Reaches, LowAt, Anchored, Ascends, LowBounds;
    var c := Segment(s, f);
    assert f in c;
    SegmentClosed(r, s, f);
    forall x | x in c
      ensures Reaches(r, x, f) && Reaches(r, f, x)
    {
      SegmentMutual(r, s, f, x);
    }
    forall x, y | x in c && y in c
      ensures Reaches(r, x, y)
    {
      ReachesTrans(r, x, f, y);
    }
    forall x, z | x in c && Mutual(r, x, z)
      ensures z in c
    {
      ReachesClosed(r, c + (s.index.Keys - s.stack), x, z);
      if z !in c {
        assert Closed(r, s.index.Keys - s.stack);
        ReachesClosed(r, s.index.Keys - s.stack, z, x);
      }
    }
  }

  lemma SegmentMutual<T(!new)>(r: Rel<T>, s: State<T>, f: T, x: T)
    requires Shape(s) && Descends(r, s) && Ascends(r, s) && s.Top(f) && x in Segment(s, f)
    requires Closed(r, Segment(s, f) + (s.index.Keys - s.stack))
    ensures Reaches(r, x, f) && Reaches(r, f, x)
  {
    hide Reaches;
    var g := Anchor(r, s, x);
    ReachesClosed(r, Segment(s, f) + (s.index.Keys - s.stack), x, g);
    assert g == f;
  }

  /** Popping the segment of an exhausted top node keeps the invariant. */
  lemma PopKeepsInv<T(!new)>(r: Rel<T>, s: State<T>, f: T, p: T)
    requires Inv(r, s) && s.Top(f) && Exhausted(r, s, f) && s.Low(f) == s.Idx(f) && Below(s, f, p)
    ensures Inv(r, Pop(Close(s, f, p), Segment(s, f)))
  {
    hide Reaches, LowAt, Anchored, LowBounds;
    SegmentClosed(r, s, f);
    PopBounds(s, f, p);
    PopLow(r, s, f, p);
    PopDescends(r, s, f, p);
  }

  lemma OwnsWithout<T>(s: State<T>, t: State<T>, f: T, g: T, x: T)
    requires t.index == s.index && t.open == s.open - {f} && Owns(t, g, x) && (s.Idx(x) < s.Idx(f) || f !in s.open)
    ensures Owns(s, g, x)
  {
    forall h | h in s.open && s.Idx(h) <= s.Idx(x) ensures s.Idx(h) <= s.Idx(g) {
      assert h in t.open && t.Idx(h) == s.Idx(h);
    }
  }

  lemma PopBounds<T(!new)>(s: State<T>, f: T, p: T)
    requires Shape(s) && LowBounds(s) && s.Top(f) && s.Low(f) == s.Idx(f) && Below(s, f, p)
    ensures LowBounds(Pop(Close(s, f, p), Segment(s, f)))
  {
    var t := Pop(Close(s, f, p), Segment(s, f));
    forall g, e | g in t.open && e in t.looked && e.0 in t.stack && e.1 in t.stack && Owns(t, g, e.0)
      ensures t.Low(g) <= t.Idx(e.1)
    {
      OwnsWithout(s, t, f, g, e.0);
    }
  }

  lemma PopLow<T(!new)>(r: Rel<T>, s: State<T>, f: T, p: T)
    requires Shape(s) && LowBounds(s) && LowReached(r, s) && s.Top(f) && s.Low(f) == s.Idx(f) && Below(s, f, p)
    ensures LowReached(r, Pop(Close(s, f, p), Segment(s, f)))
  {
    hide Reaches;
    var t := Pop(Close(s, f, p), Segment(s, f));
    forall g | g in t.open ensures LowAt(r, t, g) {
      var w := LowNode(r, s, g);
      assert s.Idx(g) < s.Idx(f);
      assert t.Low(g) == s.Low(g);
      assert w in t.stack && t.Idx(w) == t.Low(g);
    }
  }

  lemma PopDescends<T(!new)>(r: Rel<T>, s: State<T>, f: T, p: T)
    requires Shape(s) && Descends(r, s) && s.Top(f)
    ensures Descends(r, Pop(Close(s, f, p), Segment(s, f)))
  {
    hide Reaches, Anchored;
    var t := Pop(Close(s, f, p), Segment(s, f));
    forall x | x in t.stack ensures Anchored(r, t, x) {
      var g := Anchor(r, s, x);
      AnchoredBy(r, t, x, g);
    }
  }

  /** Closing an exhausted top node whose low is smaller leaves its segment to the open node below. */
  lemma MergeKeepsInv<T(!new)>(r: Rel<T>, s: State<T>, f: T, p: T)
    requires Inv(r, s) && s.Top(f) && Exhausted(r, s, f) && s.Low(f) < s.Idx(f) && Below(s, f, p)
    ensures s.open != {f}
    ensures Inv(r, Close(s, f, p))
  {
    hide Reaches, LowAt, Anchored, LowBounds;
    var g := LowerOpen(r, s, f);
    MergeBounds(s, f, p);
    MergeLow(r, s, f, p);
    MergeDescends(r, s, f, p, g);
  }

  /** A top node with a smaller low reaches an open node below it. */
  lemma LowerOpen<T(!new)>(r: Rel<T>, s: State<T>, f: T) returns (g: T)
    requires Shape(s) && LowReached(r, s) && Descends(r, s) && f in s.open && s.Low(f) < s.Idx(f)
    ensures g in s.open && s.Idx(g) < s.Idx(f) && Reaches(r, f, g)
  {
    hide Reaches;
    var w := LowNode(r, s, f);
    g := Anchor(r, s, w);
    ReachesTrans(r, f, w, g);
  }

  lemma MergeBounds<T(!new)>(s: State<T>, f: T, p: T)
    requires Shape(s) && LowBounds(s) && s.Top(f) && p in s.open && p != f && Below(s, f, p)
    ensures LowBounds(Close(s, f, p))
  {
    var t := Close(s, f, p);
    forall g, e | g in t.open && e in t.looked && e.0 in t.stack && e.1 in t.stack && Owns(t, g, e.0)
      ensures t.Low(g) <= t.Idx(e.1)
    {
      if s.Idx(f) <= s.Idx(e.0) {
        assert Owns(s, f, e.0);
        assert p in t.open && t.Idx(p) <= t.Idx(e.0);
        assert g == p;
      } else {
        OwnsWithout(s, t, f, g, e.0);
      }
    }
  }

  lemma MergeLow<T(!new)>(r: Rel<T>, s: State<T>, f: T, p: T)
    requires Shape(s) && LowReached(r, s) && Ascends(r, s) && s.Top(f) && p in s.open && p != f && Below(s, f, p)
    ensures LowReached(r, Close(s, f, p))
  {
    hide Reaches;
    var t := Close(s, f, p);
    forall g | g in t.open ensures LowAt(r, t, g) {
      var h := if g == p && t.Low(p) != s.Low(p) then f else g;
      var w := LowNode(r, s, h);
      if h == f {
        ReachesTrans(r, p, f, w);
      }
      assert t.Idx(w) == t.Low(g);
    }
  }

  lemma MergeDescends<T(!new)>(r: Rel<T>, s: State<T>, f: T, p: T, g: T)
    requires Shape(s) && Descends(r, s) && g in s.open && s.Idx(g) < s.Idx(f) && Reaches(r, f, g)
    ensures Descends(r, Close(s, f, p))
  {
    hide Reaches, Anchored;
    var t := Close(s, f, p);
    forall x | x in t.stack ensures Anchored(r, t, x) {
      var h := Anchor(r, s, x);
      if h == f {
        ReachesTrans(r, x, f, g);
        AnchoredBy(r, t, x, g);
      } else {
        AnchoredBy(r, t, x, h);
      }
    }
  }

  /** An edge out of the top node is reached by every open node. */
  lemma ChildReached<T(!new)>(r: Rel<T>, s: State<T>, f: T, x: T)
    requires Shape(s) && Ascends(r, s) && s.Top(f) && (f, x) in r
    ensures forall g | g in s.open :: Reaches(r, g, x)
  {
    hide Reaches;
    forall g | g in s.open ensures Reaches(r, g, x) {
      ReachesStep(r, g, f, x);
    }
  }

  /** With nothing open the stack is empty, and what is numbered is closed under edges. */
  lemma NothingOpen<T(!new)>(r: Rel<T>, s: State<T>)
    requires Inv(r, s) && s.open == {}
    ensures s.stack == {} && Closed(r, s.index.Keys)
  {
    hide Reaches;
    if x :| x in s.stack {
      var g := Anchor(r, s, x);
    }
  }

  lemma NothingYet<T(!new)>(r: Rel<T>, s: State<T>)
    requires s == State(0, map[], map[], {}, {}, {})
    ensures Inv(r, s)
  {
  }

  /** A child numbered just now is too new to lower its parent. */
  lemma ChildLow<T(!new)>(s: State<T>, f: T, x: T)
    requires Shape(s) && LowBounds(s) && f in s.open && x !in s.index
    ensures Look(Visit(s, x), f, x).low == s.low[x := s.count]
  {
    assert s.Low(f) <= s.Idx(f) < s.count;
  }
}
