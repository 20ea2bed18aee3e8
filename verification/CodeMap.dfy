/** The vocabulary of a code map: nodes, edges, identifiers, and the relations
    its edges stand for. */
module CodeMap {
  import opened Graphs
  import opened Ordering
  import opened Tarjan

  type Id = string

  datatype NodeKind = KindFunction | KindFile | KindExternal | KindPackage

  datatype EdgeKind = Calls | Contains | Extends | Includes | Instantiates | RouteTo
  {
    /** Position of the kind's name in string order. */
    function Rank(): nat
    {
      match this
      case Calls => 0
      case Contains => 1
      case Extends => 2
      case Includes => 3
      case Instantiates => 4
      case RouteTo => 5
    }
  }

  datatype Node = Node(
    id: Id, kind: NodeKind, name: string, file: string, line: nat, access: string, component: string,
    entry: bool, synthetic: bool, island: int, reachable: bool, root: bool, utility: bool, boundary: bool)

  datatype Edge = Edge(from: Id, to: Id, kind: EdgeKind, count: nat, dynamic: bool)

  datatype Stats = Stats(
    callSites: nat, resolved: nat, dynamic: nat, unresolved: nat, builtin: nat, unreadable: nat,
    cached: nat, routes: nat, routesUnresolved: nat, islands: nat, detached: nat)

  datatype Level = LevelFunction | LevelFile | LevelPackage | LevelCall

  /** A containment edge is the file hierarchy, not a dependency. */
  predicate Structural(k: EdgeKind)
  {
    k != Contains
  }

  // ----- the relations edges stand for

  function Dependencies(edges: seq<Edge>): Rel<Id>
  {
    set e | e in edges && Structural(e.kind) :: (e.from, e.to)
  }

  /** Every edge of any kind, in both directions. */
  function Links(edges: seq<Edge>): Rel<Id>
  {
    (set e | e in edges :: (e.from, e.to)) + (set e | e in edges :: (e.to, e.from))
  }

  function Ids(nodes: seq<Node>): set<Id>
  {
    set n | n in nodes :: n.id
  }

  function IdList(nodes: seq<Node>): seq<Id>
  {
    seq(|nodes|, i requires 0 <= i < |nodes| => nodes[i].id)
  }

  /** Identifiers are unique. */
  ghost predicate Distinct(nodes: seq<Node>)
  {
    forall i, j | 0 <= i < j < |nodes| :: nodes[i].id != nodes[j].id
  }

  /** No edge dangles. */
  ghost predicate Grounded(nodes: seq<Node>, edges: seq<Edge>)
  {
    forall e | e in edges :: e.from in Ids(nodes) && e.to in Ids(nodes)
  }

  // ----- adjacency lists

  /** The targets of x's edges, in edge order. */
  function Targets(edges: seq<Edge>, structuralOnly: bool, x: Id): seq<Id>
  {
    if edges == [] then []
    else
      var rest := Targets(edges[..|edges| - 1], structuralOnly, x);
      var e := edges[|edges| - 1];
      if e.from == x && (structuralOnly ==> Structural(e.kind)) then rest + [e.to] else rest
  }

  lemma {:induction false} TargetsAreDependencies(edges: seq<Edge>, x: Id, y: Id)
    ensures y in Targets(edges, true, x) <==> (x, y) in Dependencies(edges)
  {
    if edges != [] {
      var front, e := edges[..|edges| - 1], edges[|edges| - 1];
      TargetsAreDependencies(front, x, y);
      assert edges == front + [e];
      assert forall d :: d in edges <==> d in front || d == e;
      if (x, y) in Dependencies(edges) && (x, y) !in Dependencies(front) {
        assert e.from == x && e.to == y;
      }
      if Structural(e.kind) && e.from == x && e.to == y {
        assert e in edges;
      }
    }
  }

  lemma AdjacencyOfTargets(edges: seq<Edge>, adj: map<Id, seq<Id>>)
    requires forall x :: Succ(adj, x) == Targets(edges, true, x)
    ensures forall x, y :: y in Succ(adj, x) <==> (x, y) in Dependencies(edges)
  {
    forall x, y ensures y in Succ(adj, x) <==> (x, y) in Dependencies(edges) {
      TargetsAreDependencies(edges, x, y);
    }
  }

  // ----- what the vocabulary says, edge by edge

  /** The name a kind is stored under. */
  function KindName(k: EdgeKind): string
  {
    match k
    case Calls => "calls"
    case Contains => "contains"
    case Extends => "extends"
    case Includes => "includes"
    case Instantiates => "instantiates"
    case RouteTo => "route"
  }

  /** Kinds rank as their names sort. */
  lemma RankIsNameOrder(j: EdgeKind, k: EdgeKind)
    ensures j.Rank() < k.Rank() <==> Before(KindName(j), KindName(k))
  {
    if j == k {
      BeforeTotal(KindName(j), KindName(k));
    } else if j.Includes? && k.Instantiates? {
      DiffersAt(KindName(j), KindName(k), 2);
    } else if j.Instantiates? && k.Includes? {
      DiffersAt(KindName(k), KindName(j), 2);
      BeforeTotal(KindName(j), KindName(k));
    } else if j.Calls? && k.Contains? {
      DiffersAt(KindName(j), KindName(k), 1);
    } else if j.Contains? && k.Calls? {
      DiffersAt(KindName(k), KindName(j), 1);
      BeforeTotal(KindName(j), KindName(k));
    } else if KindName(j)[0] < KindName(k)[0] {
      DiffersAt(KindName(j), KindName(k), 0);
    } else {
      DiffersAt(KindName(k), KindName(j), 0);
      BeforeTotal(KindName(j), KindName(k));
    }
  }

  /** A dependency is an edge of any kind but containment, in its own direction; a link is any edge in either. */
  lemma EdgeByEdge(edges: seq<Edge>, x: Id, y: Id)
    ensures (x, y) in Dependencies(edges) <==> exists e :: e in edges && e.kind != Contains && e.from == x && e.to == y
    ensures (x, y) in Links(edges) <==> exists e :: e in edges && ((e.from == x && e.to == y) || (e.from == y && e.to == x))
  {
  }

  /** A node's targets grow at the end by each edge out of it. */
  lemma TargetsOneMore(edges: seq<Edge>, structuralOnly: bool, e: Edge, x: Id)
    ensures Targets([], structuralOnly, x) == []
    ensures Targets(edges + [e], structuralOnly, x) ==
            Targets(edges, structuralOnly, x) + if e.from == x && !(structuralOnly && e.kind == Contains) then [e.to] else []
  {
    assert (edges + [e])[..|edges|] == edges;
  }
}
