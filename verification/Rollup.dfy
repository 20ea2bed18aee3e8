/** Adding edges up by key: what both collapsing a map and merging file graphs do.
    The tally is stated without reference to the order edges arrive in. */
module Rollup {
  import opened Wrappers
  import opened Ordering
  import opened CodeMap

  datatype Key = Key(from: Id, to: Id, kind: EdgeKind)

  function KeyOf(e: Edge): Key
  {
    Key(e.from, e.to, e.kind)
  }

  /** The counts of the chosen edges, added up. */
  function Sum(es: seq<Edge>, p: Edge -> bool): nat
  {
    if es == [] then 0
    else
      var e := es[|es| - 1];
      Sum(es[..|es| - 1], p) + if p(e) then e.count else 0
  }

  /** Record e under key k: counts add, and one certain edge makes the relation certain. */
  function Add(m: map<Key, Edge>, k: Key, e: Edge): map<Key, Edge>
  {
    if k in m then m[k := m[k].(count := m[k].count + e.count, dynamic := m[k].dynamic && e.dynamic)]
    else m[k := Edge(k.from, k.to, k.kind, e.count, e.dynamic)]
  }

  ghost predicate Has(es: seq<Edge>, key: Edge -> Option<Key>, k: Key)
  {
    exists e :: e in es && key(e) == Some(k)
  }

  /** m holds one edge per key that occurs: its total count, dynamic only if all were. */
  ghost predicate Tallied(es: seq<Edge>, key: Edge -> Option<Key>, m: map<Key, Edge>)
  {
    && (forall k :: k in m <==> Has(es, key, k))
    && (forall k | k in m :: KeyOf(m[k]) == k)
    && (forall k | k in m :: m[k].count == Sum(es, e => key(e) == Some(k)))
    && (forall k | k in m :: m[k].dynamic <==> forall e | e in es && key(e) == Some(k) :: e.dynamic)
  }

  lemma {:induction false} SumSame(es: seq<Edge>, p: Edge -> bool, q: Edge -> bool)
    requires forall e | e in es :: p(e) == q(e)
    ensures Sum(es, p) == Sum(es, q)
  {
    if es != [] {
      SumSame(es[..|es| - 1], p, q);
    }
  }

  lemma {:induction false} SumNone(es: seq<Edge>, p: Edge -> bool)
    requires forall e | e in es :: !p(e)
    ensures Sum(es, p) == 0
  {
    if es != [] {
      SumNone(es[..|es| - 1], p);
    }
  }

  lemma {:induction false} SumSplit(es: seq<Edge>, p: Edge -> bool, q: Edge -> bool, both: Edge -> bool)
    requires forall e | e in es :: !(p(e) && q(e)) && (both(e) <==> p(e) || q(e))
    ensures Sum(es, both) == Sum(es, p) + Sum(es, q)
  {
    if es != [] {
      SumSplit(es[..|es| - 1], p, q, both);
    }
  }

  lemma {:induction false} SumConcat(a: seq<Edge>, b: seq<Edge>, p: Edge -> bool)
    ensures Sum(a + b, p) == Sum(a, p) + Sum(b, p)
  {
    if b == [] {
      assert a + b == a;
    } else {
      var n := |b| - 1;
      SumConcat(a, b[..n], p);
      assert (a + b)[..|a + b| - 1] == a + b[..n];
    }
  }

  /** One edge's sum is its count; with SumConcat this determines every sum. */
  lemma SumOne(e: Edge, p: Edge -> bool)
    ensures Sum([], p) == 0 && Sum([e], p) == if p(e) then e.count else 0
  {
    assert [e][..0] == [];
  }

  /** What a tally holds, key by key. */
  lemma TallyMeans(es: seq<Edge>, key: Edge -> Option<Key>, m: map<Key, Edge>, k: Key)
    requires Tallied(es, key, m)
    ensures k in m <==> exists e :: e in es && key(e) == Some(k)
    ensures k in m ==> m[k].from == k.from && m[k].to == k.to && m[k].kind == k.kind
                       && m[k].count == Sum(es, e => key(e) == Some(k))
                       && (m[k].dynamic <==> forall e | e in es && key(e) == Some(k) :: e.dynamic)
  {
    hide Sum;
    assert k in m ==> KeyOf(m[k]) == k;
  }

  lemma NothingTallied(key: Edge -> Option<Key>)
    ensures Tallied([], key, map[])
  {
  }

  lemma TallyOneMore(es: seq<Edge>, key: Edge -> Option<Key>, m: map<Key, Edge>, e: Edge)
    requires Tallied(es, key, m)
    ensures Tallied(es + [e], key, if key(e) == None then m else Add(m, key(e).value, e))
  {
    hide Has, Sum;
    var m' := if key(e) == None then m else Add(m, key(e).value, e);
    forall k ensures Has(es + [e], key, k) <==> Has(es, key, k) || key(e) == Some(k) {
      HasOneMore(es, key, e, k);
    }
    forall k | k in m' ensures m'[k].count == Sum(es + [e], d => key(d) == Some(k)) {
      SumOneMore(es, key, e, k);
    }
    forall k | k in m' ensures m'[k].dynamic <==> forall d | d in es + [e] && key(d) == Some(k) :: d.dynamic {
      assert forall d :: d in es + [e] <==> d in es || d == e;
      if k !in m {
        HasNot(es, key, k);
      }
    }
  }

  lemma HasOneMore(es: seq<Edge>, key: Edge -> Option<Key>, e: Edge, k: Key)
    ensures Has(es + [e], key, k) <==> Has(es, key, k) || key(e) == Some(k)
  {
    assert forall d :: d in es + [e] <==> d in es || d == e;
  }

  lemma HasNot(es: seq<Edge>, key: Edge -> Option<Key>, k: Key)
    requires !Has(es, key, k)
    ensures forall d | d in es :: key(d) != Some(k)
  {
  }

  lemma SumOneMore(es: seq<Edge>, key: Edge -> Option<Key>, e: Edge, k: Key)
    ensures Sum(es + [e], d => key(d) == Some(k)) == Sum(es, d => key(d) == Some(k)) + if key(e) == Some(k) then e.count else 0
    ensures !Has(es, key, k) ==> Sum(es, d => key(d) == Some(k)) == 0
  {
    assert (es + [e])[..|es|] == es;
    if !Has(es, key, k) {
      SumNone(es, d => key(d) == Some(k));
    }
  }

  // ----- listing a tally in order

  predicate KeyBefore(a: Key, b: Key)
  {
    if a.from != b.from then Before(a.from, b.from)
    else if a.to != b.to then Before(a.to, b.to)
    else a.kind.Rank() < b.kind.Rank()
  }

  predicate EdgeBefore(a: Edge, b: Edge)
  {
    KeyBefore(KeyOf(a), KeyOf(b))
  }

  /** out holds exactly the tally's edges, by from, to and kind. */
  ghost predicate ListsEdges(m: map<Key, Edge>, out: seq<Edge>)
  {
    && Increasing(EdgeBefore, out)
    && (forall e :: e in out <==> KeyOf(e) in m && m[KeyOf(e)] == e)
  }

  lemma KeyBeforeTotal(a: Key, b: Key)
    ensures KeyBefore(a, b) || a == b || KeyBefore(b, a)
    ensures !(KeyBefore(a, b) && KeyBefore(b, a)) && !KeyBefore(a, a)
  {
    BeforeTotal(a.from, b.from);
    BeforeTotal(a.to, b.to);
  }

  lemma KeyBeforeTrans(a: Key, b: Key, c: Key)
    requires KeyBefore(a, b) && KeyBefore(b, c)
    ensures KeyBefore(a, c)
  {
    BeforeTotal(a.from, b.from);
    BeforeTotal(b.from, c.from);
    BeforeTotal(a.to, b.to);
    BeforeTotal(b.to, c.to);
    if a.from != b.from && b.from != c.from {
      BeforeTrans(a.from, b.from, c.from);
      BeforeTotal(a.from, c.from);
    } else if a.from == b.from == c.from && a.to != b.to && b.to != c.to {
      BeforeTrans(a.to, b.to, c.to);
      BeforeTotal(a.to, c.to);
    }
  }

  lemma EdgeBeforeIsStrict()
    ensures Strict(EdgeBefore) && Weak(EdgeBefore)
  {
    forall x: Edge ensures !EdgeBefore(x, x) { KeyBeforeTotal(KeyOf(x), KeyOf(x)); }
    forall x, y, z | EdgeBefore(x, y) && EdgeBefore(y, z) ensures EdgeBefore(x, z) {
      KeyBeforeTrans(KeyOf(x), KeyOf(y), KeyOf(z));
    }
    forall x, y | EdgeBefore(x, y) ensures !EdgeBefore(y, x) { KeyBeforeTotal(KeyOf(x), KeyOf(y)); }
    forall x, y, z | !EdgeBefore(y, x) && !EdgeBefore(z, y) ensures !EdgeBefore(z, x) {
      KeyBeforeTotal(KeyOf(x), KeyOf(y));
      KeyBeforeTotal(KeyOf(y), KeyOf(z));
      if EdgeBefore(z, x) && KeyOf(x) != KeyOf(y) && KeyOf(y) != KeyOf(z) {
        KeyBeforeTrans(KeyOf(x), KeyOf(y), KeyOf(z));
        KeyBeforeTotal(KeyOf(x), KeyOf(z));
      }
    }
  }

  /** found holds the tally's edges for all keys but those in left, each once. */
  ghost predicate FoundEdges(byKey: map<Key, Edge>, left: set<Key>, found: seq<Edge>)
  {
    && (forall e :: e in found <==> KeyOf(e) in byKey && KeyOf(e) !in left && byKey[KeyOf(e)] == e)
    && (forall i, j | 0 <= i < j < |found| :: KeyOf(found[i]) != KeyOf(found[j]))
  }

  lemma SortedFound(byKey: map<Key, Edge>, found: seq<Edge>)
    requires FoundEdges(byKey, {}, found)
    ensures ListsEdges(byKey, Sort(EdgeBefore, found))
  {
    EdgeBeforeIsStrict();
    forall i, j | 0 <= i < |found| && 0 <= j < |found| && i != j
      ensures EdgeBefore(found[i], found[j]) || EdgeBefore(found[j], found[i])
    {
      KeyBeforeTotal(KeyOf(found[i]), KeyOf(found[j]));
    }
    SortDistinct(EdgeBefore, found);
    SortElements(EdgeBefore, found);
  }

  /** Gather the tally's edges in whatever order the map yields them, then sort. */
  method SortedEdges(byKey: map<Key, Edge>) returns (out: seq<Edge>)
    requires forall k | k in byKey :: KeyOf(byKey[k]) == k
    ensures ListsEdges(byKey, out)
  {
    var keys := byKey.Keys;
    var found: seq<Edge> := [];
    while keys != {}
      invariant keys <= byKey.Keys && FoundEdges(byKey, keys, found)
      decreases keys
    {
      var k :| k in keys;
      found, keys := found + [byKey[k]], keys - {k};
    }
    SortedFound(byKey, found);
    out := Sort(EdgeBefore, found);
  }

  /** A listing holds the tally's edges and no others, in order of from, then to, then the kind's name. */
  lemma ListingMeans(m: map<Key, Edge>, out: seq<Edge>, i: nat, j: nat)
    requires ListsEdges(m, out) && i < j < |out|
    ensures forall e :: e in out <==> Key(e.from, e.to, e.kind) in m && m[Key(e.from, e.to, e.kind)] == e
    ensures !Before(out[j].from, out[i].from)
    ensures out[i].from == out[j].from ==> !Before(out[j].to, out[i].to)
    ensures out[i].from == out[j].from && out[i].to == out[j].to ==> Before(KindName(out[i].kind), KindName(out[j].kind))
  {
    assert EdgeBefore(out[i], out[j]);
    BeforeTotal(out[i].from, out[j].from);
    BeforeTotal(out[i].to, out[j].to);
    RankIsNameOrder(out[i].kind, out[j].kind);
  }

  lemma ListingUnique(m: map<Key, Edge>, a: seq<Edge>, b: seq<Edge>)
    requires ListsEdges(m, a) && ListsEdges(m, b)
    ensures a == b
  {
    EdgeBeforeIsStrict();
    IncreasingUnique(EdgeBefore, a, b);
  }

  // ----- a tally of a tally

  /** Regrouping: a listing's counts over a set of keys are the original counts over those keys. */
  lemma {:induction false} SumRegroup(es: seq<Edge>, key: Edge -> Option<Key>, list: seq<Edge>, want: Key -> bool)
    requires forall i, j | 0 <= i < j < |list| :: KeyOf(list[i]) != KeyOf(list[j])
    requires forall l | l in list :: l.count == Sum(es, e => key(e) == Some(KeyOf(l)))
    ensures Sum(list, l => want(KeyOf(l)))
         == Sum(es, e => key(e) != None && want(key(e).value) && exists l :: l in list && KeyOf(l) == key(e).value)
  {
    var whole := (e: Edge) => key(e) != None && want(key(e).value) && exists l :: l in list && KeyOf(l) == key(e).value;
    if list == [] {
      SumNone(es, whole);
    } else {
      var front, last := list[..|list| - 1], list[|list| - 1];
      assert list == front + [last];
      SumRegroup(es, key, front, want);
      var rest := (e: Edge) => key(e) != None && want(key(e).value) && exists l :: l in front && KeyOf(l) == key(e).value;
      var mine := (e: Edge) => key(e) == Some(KeyOf(last));
      if want(KeyOf(last)) {
        SumSplit(es, rest, mine, whole);
      } else {
        SumSame(es, rest, whole);
      }
    }
  }

  // ----- a tally with its listing

  /** Edges added up by key: the tally, and its edges in order. */
  datatype Rolled = Rolled(tally: map<Key, Edge>, edges: seq<Edge>)

  ghost predicate RolledUp(es: seq<Edge>, key: Edge -> Option<Key>, r: Rolled)
  {
    Tallied(es, key, r.tally) && ListsEdges(r.tally, r.edges)
  }

  /** Edges can always be rolled up. */
  lemma {:induction false} TallyExists(es: seq<Edge>, key: Edge -> Option<Key>) returns (m: map<Key, Edge>)
    ensures Tallied(es, key, m)
  {
    hide Tallied, Add;
    if |es| == 0 {
      m := map[];
      NothingTallied(key);
      assert es == [];
    } else {
      var front, e := es[..|es| - 1], es[|es| - 1];
      var n := TallyExists(front, key);
      TallyOneMore(front, key, n, e);
      assert es == front + [e];
      m := if key(e) == None then n else Add(n, key(e).value, e);
    }
  }

  lemma {:induction false} EdgesFound(byKey: map<Key, Edge>, left: set<Key>) returns (found: seq<Edge>)
    requires left <= byKey.Keys && forall k | k in byKey :: KeyOf(byKey[k]) == k
    ensures FoundEdges(byKey, left, found)
    decreases byKey.Keys - left
  {
    var todo := byKey.Keys - left;
    if todo == {} {
      found := [];
    } else {
      var k :| k in todo;
      var rest := EdgesFound(byKey, left + {k});
      found := rest + [byKey[k]];
    }
  }

  lemma RolledExists(es: seq<Edge>, key: Edge -> Option<Key>) returns (r: Rolled)
    ensures RolledUp(es, key, r)
  {
    hide Sum, Has, FoundEdges, ListsEdges, Sort;
    var byKey := TallyExists(es, key);
    var found := EdgesFound(byKey, {});
    SortedFound(byKey, found);
    r := Rolled(byKey, Sort(EdgeBefore, found));
  }
}
