/** Rolling a map up to files or packages, as a quotient of its nodes. */
module Collapsing {
  import opened Graphs
  import opened Ordering
  import opened CodeMap
  import opened Walks
  import opened Islands
  import opened Annotations
  import opened Wrappers
  import opened Rollup

  // ----- paths and identifiers

  /** One past the last slash, 0 when there is none. */
  function AfterSlash(p: string): (i: nat)
    ensures i <= |p|
  {
    if p == "" then 0
    else if p[|p| - 1] == '/' then |p|
    else AfterSlash(p[..|p| - 1])
  }

  function Base(p: string): string
  {
    if p == "" then "." else p[AfterSlash(p)..]
  }

  /** The directory part of a clean slash-separated path. */
  function Dir(p: string): string
  {
    if AfterSlash(p) == 0 then "."
    else if AfterSlash(p) == 1 then "/"
    else p[..AfterSlash(p) - 1]
  }

  lemma {:induction false} AfterSlashIs(p: string)
    ensures AfterSlash(p) > 0 ==> p[AfterSlash(p) - 1] == '/'
    ensures '/' !in p[AfterSlash(p)..]
  {
    if p != "" && p[|p| - 1] != '/' {
      AfterSlashIs(p[..|p| - 1]);
      assert p[AfterSlash(p)..] == p[..|p| - 1][AfterSlash(p)..] + [p[|p| - 1]];
    }
  }

  lemma {:induction false} AfterSlashAt(d: string, f: string)
    requires '/' !in f
    ensures AfterSlash(f) == 0 && AfterSlash(d + "/" + f) == |d| + 1
  {
    if f != "" {
      AfterSlashAt(d, f[..|f| - 1]);
      assert (d + "/" + f)[..|d + "/" + f| - 1] == d + "/" + f[..|f| - 1];
    }
  }

  /** A path's folder and name are what its last slash separates. */
  lemma PathParts(d: string, f: string)
    requires '/' !in f
    ensures d != "" ==> Dir(d + "/" + f) == d
    ensures Dir("/" + f) == "/" && Dir(f) == "."
    ensures Base(d + "/" + f) == f && (f != "" ==> Base(f) == f)
  {
    AfterSlashAt(d, f);
    AfterSlashAt("", f);
    assert "" + "/" + f == "/" + f;
    assert (d + "/" + f)[..|d|] == d && (d + "/" + f)[|d| + 1..] == f;
  }

  /** A path in folder d is d, a slash and a name. */
  lemma PathIn(p: string) returns (f: string)
    requires Dir(p) != "." && Dir(p) != "/"
    ensures '/' !in f && p == Dir(p) + "/" + f
  {
    AfterSlashIs(p);
    f := p[AfterSlash(p)..];
  }

  function PackageId(dir: string): Id
  {
    if dir == "" || dir == "." then "." else dir
  }

  function DirOf(n: Node): string
  {
    if n.file == "" then "." else PackageId(Dir(n.file))
  }

  /** A function is named by its file and its own name in lower case. */
  function FuncId(file: string, name: string): Id
  {
    file + "::" + Lower(name)
  }

  function FileId(file: string): Id
  {
    file
  }

  function ExternalId(called: string): Id
  {
    "?" + Lower(called)
  }

  // ----- what each node becomes

  /** A file-level collapse leaves these alone. */
  predicate Kept(n: Node)
  {
    n.kind == KindExternal || n.file == ""
  }

  function Target(n: Node, level: Level): Node
  {
    match level
    case LevelFile =>
      if Kept(n) then n
      else Node(n.file, KindFile, Base(n.file), n.file, 0, "", n.component,
                n.entry && n.kind != KindFunction, false, 0, false, false, n.utility, false)
    case LevelPackage =>
      if n.kind == KindExternal then n
      else Node(PackageId(DirOf(n)), KindPackage, DirOf(n), DirOf(n), 0, "", "",
                n.entry, true, 0, false, false, n.utility, false)
    case LevelFunction => n
    case LevelCall => n
  }

  /** Entry survives if any part has it, utility only if all do; the rest is the first part's. */
  function AddNode(m: map<Id, Node>, t: Node): map<Id, Node>
  {
    if t.id in m then m[t.id := m[t.id].(entry := m[t.id].entry || t.entry, utility := m[t.id].utility && t.utility)]
    else m[t.id := t]
  }

  function Merged(nodes: seq<Node>, level: Level): map<Id, Node>
  {
    if nodes == [] then map[]
    else AddNode(Merged(nodes[..|nodes| - 1], level), Target(nodes[|nodes| - 1], level))
  }

  function Remap(nodes: seq<Node>, level: Level): map<Id, Id>
  {
    if nodes == [] then map[]
    else
      var n := nodes[|nodes| - 1];
      Remap(nodes[..|nodes| - 1], level)[n.id := Target(n, level).id]
  }

  function At(remap: map<Id, Id>, x: Id): Id
  {
    if x in remap then remap[x] else ""
  }

  lemma NoNodes(nodes: seq<Node>, level: Level)
    ensures Remap(nodes[..0], level) == map[] && Merged(nodes[..0], level) == map[]
  {
  }

  lemma OneMoreNode(nodes: seq<Node>, i: nat, level: Level)
    requires i < |nodes|
    ensures Remap(nodes[..i + 1], level) == Remap(nodes[..i], level)[nodes[i].id := Target(nodes[i], level).id]
    ensures Merged(nodes[..i + 1], level) == AddNode(Merged(nodes[..i], level), Target(nodes[i], level))
  {
    assert nodes[..i + 1][..i] == nodes[..i];
  }

  /** The key a dependency is counted under, if it joins two different targets. */
  function NewKey(remap: map<Id, Id>, e: Edge): Option<Key>
  {
    var from, to := At(remap, e.from), At(remap, e.to);
    if !Structural(e.kind) || from == "" || to == "" || from == to then None else Some(Key(from, to, e.kind))
  }

  function Keying(remap: map<Id, Id>): Edge -> Option<Key>
  {
    (e: Edge) => NewKey(remap, e)
  }

  // ----- listing merged nodes

  predicate IdBefore(a: Node, b: Node)
  {
    Before(a.id, b.id)
  }

  ghost predicate ListsNodes(m: map<Id, Node>, out: seq<Node>)
  {
    && Increasing(IdBefore, out)
    && (forall n :: n in out <==> n.id in m && m[n.id] == n)
  }

  lemma IdBeforeIsStrict()
    ensures Strict(IdBefore) && Weak(IdBefore)
  {
    BeforeIsStrict();
  }

  /** found holds the map's nodes for all ids but those in left, each once. */
  ghost predicate FoundNodes(byId: map<Id, Node>, left: set<Id>, found: seq<Node>)
  {
    && (forall n :: n in found <==> n.id in byId && n.id !in left && byId[n.id] == n)
    && (forall i, j | 0 <= i < j < |found| :: found[i].id != found[j].id)
  }

  lemma SortedFoundNodes(byId: map<Id, Node>, found: seq<Node>)
    requires FoundNodes(byId, {}, found)
    ensures ListsNodes(byId, Sort(IdBefore, found))
  {
    IdBeforeIsStrict();
    forall i, j | 0 <= i < |found| && 0 <= j < |found| && i != j
      ensures IdBefore(found[i], found[j]) || IdBefore(found[j], found[i])
    {
      BeforeTotal(found[i].id, found[j].id);
    }
    SortDistinct(IdBefore, found);
    SortElements(IdBefore, found);
  }

  method SortedNodes(byId: map<Id, Node>) returns (out: seq<Node>)
    requires forall x | x in byId :: byId[x].id == x
    ensures ListsNodes(byId, out)
  {
    var ids := byId.Keys;
    var found: seq<Node> := [];
    while ids != {}
      invariant ids <= byId.Keys && FoundNodes(byId, ids, found)
      decreases ids
    {
      var x :| x in ids;
      found, ids := found + [byId[x]], ids - {x};
    }
    SortedFoundNodes(byId, found);
    out := Sort(IdBefore, found);
  }

  lemma {:induction false} NodesFound(byId: map<Id, Node>, left: set<Id>) returns (found: seq<Node>)
    requires left <= byId.Keys && forall x | x in byId :: byId[x].id == x
    ensures FoundNodes(byId, left, found)
    decreases byId.Keys - left
  {
    var todo := byId.Keys - left;
    if todo == {} {
      found := [];
    } else {
      var x :| x in todo;
      var rest := NodesFound(byId, left + {x});
      found := rest + [byId[x]];
    }
  }

  // ----- what merging and remapping amount to

  ghost predicate Becomes(nodes: seq<Node>, level: Level, x: Id)
  {
    exists n :: n in nodes && Target(n, level).id == x
  }

  ghost predicate AnyEntry(nodes: seq<Node>, level: Level, x: Id)
  {
    exists n :: n in nodes && Target(n, level).id == x && Target(n, level).entry
  }

  ghost predicate AllUtility(nodes: seq<Node>, level: Level, x: Id)
  {
    forall n | n in nodes && Target(n, level).id == x :: Target(n, level).utility
  }

  ghost predicate LikeOne(nodes: seq<Node>, level: Level, o: Node)
  {
    exists n :: n in nodes && o == Target(n, level).(entry := o.entry, utility := o.utility)
  }

  /** o stands for the nodes that become its id: one of them, but for entry and utility. */
  ghost predicate StandsFor(nodes: seq<Node>, level: Level, o: Node)
  {
    && LikeOne(nodes, level, o)
    && (o.entry <==> AnyEntry(nodes, level, o.id))
    && (o.utility <==> AllUtility(nodes, level, o.id))
  }

  lemma {:induction false} MergedIs(nodes: seq<Node>, level: Level)
    ensures forall x :: x in Merged(nodes, level) <==> Becomes(nodes, level, x)
    ensures forall x | x in Merged(nodes, level) :: Merged(nodes, level)[x].id == x && StandsFor(nodes, level, Merged(nodes, level)[x])
  {
    hide Target, Becomes, StandsFor;
    if nodes == [] {
      assert forall x :: !Becomes([], level, x) by { NothingBecomes(level); }
    } else {
      var front, n := nodes[..|nodes| - 1], nodes[|nodes| - 1];
      var t := Target(n, level);
      assert nodes == front + [n];
      MergedIs(front, level);
      forall x ensures x in Merged(nodes, level) <==> Becomes(nodes, level, x) {
        MergedOneMore(front, n, level, x);
      }
      forall x | x in Merged(nodes, level)
        ensures Merged(nodes, level)[x].id == x && StandsFor(nodes, level, Merged(nodes, level)[x])
      {
        if x in Merged(front, level) {
          StandsForMore(front, n, level, Merged(front, level)[x]);
        } else {
          StandsForNew(front, n, level);
        }
      }
    }
  }

  lemma NothingBecomes(level: Level)
    ensures forall x :: !Becomes([], level, x)
  {
  }

  lemma MergedOneMore(front: seq<Node>, n: Node, level: Level, x: Id)
    ensures Becomes(front + [n], level, x) <==> Becomes(front, level, x) || Target(n, level).id == x
    ensures AnyEntry(front + [n], level, x) <==> AnyEntry(front, level, x) || (Target(n, level).id == x && Target(n, level).entry)
    ensures AllUtility(front + [n], level, x) <==> AllUtility(front, level, x) && (Target(n, level).id == x ==> Target(n, level).utility)
  {
    hide Target;
    assert forall m :: m in front + [n] <==> m in front || m == n;
  }

  lemma StandsForMore(front: seq<Node>, n: Node, level: Level, o: Node)
    requires StandsFor(front, level, o)
    ensures var t := Target(n, level);
            StandsFor(front + [n], level,
                      if t.id == o.id then o.(entry := o.entry || t.entry, utility := o.utility && t.utility) else o)
  {
    hide Target, AnyEntry, AllUtility;
    MergedOneMore(front, n, level, o.id);
    var m :| m in front && o == Target(m, level).(entry := o.entry, utility := o.utility);
    assert m in front + [n];
  }

  lemma StandsForNew(front: seq<Node>, n: Node, level: Level)
    requires !Becomes(front, level, Target(n, level).id)
    ensures StandsFor(front + [n], level, Target(n, level))
  {
    var t := Target(n, level);
    MergedOneMore(front, n, level, t.id);
    assert n in front + [n];
    assert t == t.(entry := t.entry, utility := t.utility);
  }

  lemma {:induction false} RemapIs(nodes: seq<Node>, level: Level)
    requires Distinct(nodes)
    ensures Remap(nodes, level).Keys == Ids(nodes)
    ensures forall n | n in nodes :: Remap(nodes, level)[n.id] == Target(n, level).id
  {
    hide Target;
    if nodes != [] {
      var front, n := nodes[..|nodes| - 1], nodes[|nodes| - 1];
      RemapIs(front, level);
      assert nodes == front + [n];
      assert Ids(nodes) == Ids(front) + {n.id};
    }
  }

  /** A collapse: the merged nodes in order, the same with their annotations, and the dependencies rolled up. */
  datatype Quotient = Quotient(list: seq<Node>, nodes: seq<Node>, rolled: Rolled)

  ghost predicate Collapsed(nodes: seq<Node>, edges: seq<Edge>, level: Level, q: Quotient)
  {
    && ListsNodes(Merged(nodes, level), q.list)
    && SameButMarks(q.list, q.nodes)
    && RolledUp(edges, Keying(Remap(nodes, level)), q.rolled)
  }

  /** Every node of the collapse stands for the nodes that became it, annotations aside. */
  lemma CollapsedNode(nodes: seq<Node>, edges: seq<Edge>, level: Level, q: Quotient, o: Node) returns (l: Node)
    requires Collapsed(nodes, edges, level, q) && o in q.nodes
    ensures l.id in Merged(nodes, level) && Merged(nodes, level)[l.id] == l && StandsFor(nodes, level, l)
    ensures o == l.(island := o.island, reachable := o.reachable, root := o.root)
  {
    hide Merged, RolledUp, StandsFor;
    MergedIs(nodes, level);
    var i :| 0 <= i < |q.nodes| && q.nodes[i] == o;
    l := q.list[i];
    assert l in q.list;
  }

  lemma CollapsedIds(nodes: seq<Node>, edges: seq<Edge>, level: Level, q: Quotient)
    requires Collapsed(nodes, edges, level, q)
    ensures forall x :: x in Ids(q.nodes) <==> Becomes(nodes, level, x)
    ensures Distinct(q.nodes)
  {
    hide Merged, RolledUp, StandsFor, Becomes;
    MergedIs(nodes, level);
    forall x ensures x in Ids(q.nodes) <==> x in Merged(nodes, level) {
      if x in Merged(nodes, level) {
        assert Merged(nodes, level)[x] in q.list;
        var i :| 0 <= i < |q.list| && q.list[i] == Merged(nodes, level)[x];
        assert q.nodes[i] in q.nodes;
      }
      if x in Ids(q.nodes) {
        var i :| 0 <= i < |q.nodes| && q.nodes[i].id == x;
        assert q.list[i] in q.list;
      }
    }
    forall i, j | 0 <= i < j < |q.nodes| ensures q.nodes[i].id != q.nodes[j].id {
      assert IdBefore(q.list[i], q.list[j]);
      BeforeTotal(q.list[i].id, q.list[j].id);
    }
  }

  // ----- a collapse in terms of the nodes it was made from

  /** A node of folder d: neither external nor without a file, its file d, a slash and a name. */
  ghost predicate InFolder(n: Node, d: string)
  {
    n.kind != KindExternal && exists f :: '/' !in f && n.file == d + "/" + f
  }

  /** Left as they are: externals, and at file level nodes without a file. To the root package: nodes
      without a file, and those whose file is in no folder. */
  lemma NotMoved(n: Node)
    ensures n.kind == KindExternal ==> Target(n, LevelFile) == n && Target(n, LevelPackage) == n
    ensures n.file == "" ==> Target(n, LevelFile) == n
    ensures n.kind != KindExternal && '/' !in n.file ==> Target(n, LevelPackage).id == "."
    ensures n.kind != KindExternal && n.file != "" ==> Target(n, LevelFile).id == n.file
  {
    hide Base;
    if '/' !in n.file {
      NoSlash(n.file);
    }
  }

  lemma FolderPackage(n: Node, d: string)
    requires d != "" && d != "." && d != "/"
    ensures InFolder(n, d) <==> n.kind != KindExternal && Target(n, LevelPackage).id == d
    ensures InFolder(n, d) ==> Target(n, LevelPackage).entry == n.entry && Target(n, LevelPackage).utility == n.utility
                               && Target(n, LevelPackage).kind == KindPackage && Target(n, LevelPackage).name == d
                               && Target(n, LevelPackage).file == d && Target(n, LevelPackage).synthetic
                               && Target(n, LevelPackage).component == ""
  {
    hide Dir, Base;
    if InFolder(n, d) {
      var f :| '/' !in f && n.file == d + "/" + f;
      PathParts(d, f);
    }
    if n.kind != KindExternal && Target(n, LevelPackage).id == d {
      assert n.file != "" && Dir(n.file) == d;
      var f := PathIn(n.file);
    }
  }

  /** Collapsed to packages, the nodes of a folder become the one node named by it, an entry
      exactly when some node of the folder is and a utility exactly when all are. */
  lemma PackageHolds(nodes: seq<Node>, edges: seq<Edge>, q: Quotient, d: string)
    requires Collapsed(nodes, edges, LevelPackage, q) && d != "" && d != "." && d != "/"
    requires forall n | n in nodes && n.kind == KindExternal :: n.id != d
    ensures (exists n :: n in nodes && InFolder(n, d)) <==> exists o :: o in q.nodes && o.id == d
    ensures forall o | o in q.nodes && o.id == d ::
              && o.kind == KindPackage && o.name == d && o.file == d && o.synthetic && o.component == ""
              && (o.entry <==> exists n :: n in nodes && InFolder(n, d) && n.entry)
              && (o.utility <==> forall n | n in nodes && InFolder(n, d) :: n.utility)
  {
    hide Collapsed, InFolder, Target;
    CollapsedIds(nodes, edges, LevelPackage, q);
    forall n | n in nodes ensures Target(n, LevelPackage).id == d <==> InFolder(n, d) {
      FolderPackage(n, d);
      ExternalKept(n);
    }
    assert Becomes(nodes, LevelPackage, d) <==> exists n :: n in nodes && InFolder(n, d);
    assert (exists o :: o in q.nodes && o.id == d) <==> d in Ids(q.nodes);
    forall o | o in q.nodes && o.id == d
      ensures o.kind == KindPackage && o.name == d && o.file == d && o.synthetic && o.component == ""
      ensures o.entry <==> exists n :: n in nodes && InFolder(n, d) && n.entry
      ensures o.utility <==> forall n | n in nodes && InFolder(n, d) :: n.utility
    {
      var l := CollapsedNode(nodes, edges, LevelPackage, q, o);
      FolderFlags(nodes, d);
      var m :| m in nodes && l == Target(m, LevelPackage).(entry := l.entry, utility := l.utility);
      FolderPackage(m, d);
    }
  }

  lemma ExternalKept(n: Node)
    ensures n.kind == KindExternal ==> Target(n, LevelPackage) == n
  {
  }

  lemma FolderFlags(nodes: seq<Node>, d: string)
    requires d != "" && d != "." && d != "/" && forall n | n in nodes :: Target(n, LevelPackage).id == d <==> InFolder(n, d)
    ensures AnyEntry(nodes, LevelPackage, d) <==> exists n :: n in nodes && InFolder(n, d) && n.entry
    ensures AllUtility(nodes, LevelPackage, d) <==> forall n | n in nodes && InFolder(n, d) :: n.utility
  {
    hide Target, InFolder;
    forall n | n in nodes && InFolder(n, d) ensures Target(n, LevelPackage).entry == n.entry && Target(n, LevelPackage).utility == n.utility {
      FolderPackage(n, d);
    }
  }

  /** Collapsed to files, the nodes of a file become the one node named by it: named by its last
      part, an entry exactly when some node of the file but a function is, a utility exactly when
      all are. */
  lemma FileHolds(nodes: seq<Node>, edges: seq<Edge>, q: Quotient, d: string, f: string)
    requires Collapsed(nodes, edges, LevelFile, q) && '/' !in f && f != "" && d != ""
    requires forall n | n in nodes && (n.kind == KindExternal || n.file == "") :: n.id != d + "/" + f
    ensures var file := d + "/" + f;
            && ((exists n :: n in nodes && n.kind != KindExternal && n.file == file) <==> exists o :: o in q.nodes && o.id == file)
            && forall o | o in q.nodes && o.id == file ::
                 && o.kind == KindFile && o.name == f && o.file == file && !o.synthetic && o.line == 0 && o.access == ""
                 && (exists n :: n in nodes && n.kind != KindExternal && n.file == file && n.component == o.component)
                 && (o.entry <==> exists n :: n in nodes && n.kind != KindExternal && n.file == file && n.entry && n.kind != KindFunction)
                 && (o.utility <==> forall n | n in nodes && n.kind != KindExternal && n.file == file :: n.utility)
  {
    hide Collapsed, Dir, Base;
    var file := d + "/" + f;
    PathParts(d, f);
    CollapsedIds(nodes, edges, LevelFile, q);
    forall n | n in nodes ensures Target(n, LevelFile).id == file <==> n.kind != KindExternal && n.file == file {
    }
    assert Becomes(nodes, LevelFile, file) <==> exists n :: n in nodes && n.kind != KindExternal && n.file == file;
    assert (exists o :: o in q.nodes && o.id == file) <==> file in Ids(q.nodes);
    forall o | o in q.nodes && o.id == file
      ensures o.kind == KindFile && o.name == f && o.file == file && !o.synthetic && o.line == 0 && o.access == ""
      ensures exists n :: n in nodes && n.kind != KindExternal && n.file == file && n.component == o.component
      ensures o.entry <==> exists n :: n in nodes && n.kind != KindExternal && n.file == file && n.entry && n.kind != KindFunction
      ensures o.utility <==> forall n | n in nodes && n.kind != KindExternal && n.file == file :: n.utility
    {
      var l := CollapsedNode(nodes, edges, LevelFile, q, o);
      var m :| m in nodes && l == Target(m, LevelFile).(entry := l.entry, utility := l.utility);
    }
  }

  /** The dependencies of a collapse, read off the map's: one from x to y of a kind for those of
      that kind between nodes that go to x and to y, x not y, with their counts added up, dynamic
      exactly when all are. */
  lemma CollapsedEdges(nodes: seq<Node>, edges: seq<Edge>, level: Level, q: Quotient, x: Id, y: Id, kind: EdgeKind)
    requires Named(nodes) && Grounded(nodes, edges) && Collapsed(nodes, edges, level, q)
    ensures (exists l :: l in q.rolled.edges && l.from == x && l.to == y && l.kind == kind)
        <==> exists e :: e in edges && Between(nodes, level, e, x, y, kind)
    ensures forall l | l in q.rolled.edges && l.from == x && l.to == y && l.kind == kind ::
              && l.count == Sum(edges, e => Between(nodes, level, e, x, y, kind))
              && (l.dynamic <==> forall e | e in edges && Between(nodes, level, e, x, y, kind) :: e.dynamic)
  {
    hide Remap, Sum, Named, Between, Tallied, Has;
    var key := Keying(Remap(nodes, level));
    var k := Key(x, y, kind);
    CollapsedRolled(nodes, edges, level, q);
    forall e | e in edges ensures key(e) == Some(k) <==> Between(nodes, level, e, x, y, kind) {
      KeyBetween(nodes, edges, level, e, x, y, kind);
    }
    TallyMeans(edges, key, q.rolled.tally, k);
    SumSame(edges, e => key(e) == Some(k), e => Between(nodes, level, e, x, y, kind));
    assert (exists l :: l in q.rolled.edges && l.from == x && l.to == y && l.kind == kind) <==> k in q.rolled.tally by {
      if k in q.rolled.tally {
        assert KeyOf(q.rolled.tally[k]) == k;
      }
    }
  }

  /** e is a dependency of the kind from a node that goes to x to one that goes to y. */
  ghost predicate Between(nodes: seq<Node>, level: Level, e: Edge, x: Id, y: Id, kind: EdgeKind)
  {
    && e.kind != Contains && e.kind == kind && x != y
    && (exists n :: n in nodes && n.id == e.from && Target(n, level).id == x)
    && (exists n :: n in nodes && n.id == e.to && Target(n, level).id == y)
  }

  lemma KeyBetween(nodes: seq<Node>, edges: seq<Edge>, level: Level, e: Edge, x: Id, y: Id, kind: EdgeKind)
    requires Named(nodes) && Grounded(nodes, edges) && e in edges
    ensures Keying(Remap(nodes, level))(e) == Some(Key(x, y, kind)) <==> Between(nodes, level, e, x, y, kind)
  {
    hide Remap, Target, Named;
    var a :| a in nodes && a.id == e.from;
    var b :| b in nodes && b.id == e.to;
    RemappedTo(nodes, level, a);
    RemappedTo(nodes, level, b);
    forall n | n in nodes && n.id == a.id ensures n == a { SameNode(nodes, n, a); }
    forall n | n in nodes && n.id == b.id ensures n == b { SameNode(nodes, n, b); }
    TargetsNamed(nodes, level);
    assert a.id in Ids(nodes) && b.id in Ids(nodes);
  }

  lemma SameNode(nodes: seq<Node>, a: Node, b: Node)
    requires Named(nodes) && a in nodes && b in nodes && a.id == b.id
    ensures a == b
  {
  }

  /** Any map has a collapse. */
  lemma CollapseExists(nodes: seq<Node>, edges: seq<Edge>, level: Level) returns (q: Quotient)
    ensures Collapsed(nodes, edges, level, q)
  {
    hide Merged, RolledUp, ListsNodes, Remap, FoundNodes, Sort;
    MergedNamed(nodes, level);
    var found := NodesFound(Merged(nodes, level), {});
    SortedFoundNodes(Merged(nodes, level), found);
    var list := Sort(IdBefore, found);
    var r := RolledExists(edges, Keying(Remap(nodes, level)));
    q := Quotient(list, list, r);
  }

  // ----- identifiers

  /** Identifiers are unique and non-empty. */
  ghost predicate Named(nodes: seq<Node>)
  {
    Distinct(nodes) && forall n | n in nodes :: n.id != ""
  }

  /** The node's id is the one its kind, file and name give it. */
  ghost predicate WellNamed(n: Node)
  {
    match n.kind
    case KindFunction => n.file != "" && exists name :: n.id == FuncId(n.file, name)
    case KindFile => n.file != "" && n.id == FileId(n.file)
    case KindExternal => exists name :: n.id == ExternalId(name)
    case KindPackage => false
  }

  /** A node that a file collapse leaves alone and that carries another node's file as its id
      belongs to the same package. */
  ghost predicate ClashFree(nodes: seq<Node>)
  {
    forall a, b | a in nodes && b in nodes && Kept(a) && !Kept(b) && a.id == b.file ::
      Target(a, LevelPackage).id == Target(b, LevelPackage).id
  }

  lemma {:induction false} SlashBefore(p: string)
    ensures AfterSlash(p) <= |p|
    ensures Dir(p) == p ==> p == "." || p == "/"
  {
    if AfterSlash(p) > 1 {
      assert |Dir(p)| < |p|;
    }
  }

  /** For identifiers as a build makes them, being clash-free is that no external is named
      like a file; so it holds when every file is a node of its own, or no path begins with '?'. */
  lemma NamesClash(nodes: seq<Node>)
    requires Distinct(nodes) && forall n | n in nodes :: WellNamed(n)
    ensures Named(nodes)
    ensures ClashFree(nodes) <==> forall a, b | a in nodes && b in nodes && Kept(a) && !Kept(b) :: a.id != b.file
    ensures (forall b | b in nodes && !Kept(b) && b.file[0] == '?' :: exists f :: f in nodes && !Kept(f) && f.id == b.file)
              ==> ClashFree(nodes)
  {
    hide AfterSlash, Dir;
    forall n | n in nodes ensures n.id != "" {
      assert WellNamed(n);
    }
    forall a, b | a in nodes && b in nodes && Kept(a) && !Kept(b) && a.id == b.file
      ensures Target(a, LevelPackage).id != Target(b, LevelPackage).id
      ensures b.file[0] == '?'
      ensures forall f | f in nodes && f.id == b.file :: f == a
    {
      assert WellNamed(a) && WellNamed(b);
      assert a.id[0] == '?';
      SlashBefore(b.file);
      assert a.kind == KindExternal;
    }
  }

  /** An external can be named like a file exactly when the path begins with '?' and has no capitals. */
  lemma ExternalLikeFile(file: string)
    ensures (exists name :: ExternalId(name) == FileId(file)) <==> file != "" && file[0] == '?' && Lower(file) == file
  {
    if exists name :: ExternalId(name) == FileId(file) {
      var name :| ExternalId(name) == FileId(file);
      forall i | 0 <= i < |file| ensures LowerChar(file[i]) == file[i] {
        assert i > 0 ==> file[i] == LowerChar(name[i - 1]);
      }
      assert Lower(file) == file;
    }
    if file != "" && file[0] == '?' && Lower(file) == file {
      var name := file[1..];
      forall i | 0 <= i < |name| ensures Lower(name)[i] == name[i] {
        assert Lower(file)[i + 1] == file[i + 1];
      }
      assert Lower(name) == name;
      assert ExternalId(name) == FileId(file);
    }
  }

  /** Functions of any files share an id exactly when the file is the same and the names
      differ only in case, a name having no colon in it. */
  lemma FunctionNamesFold(f: string, a: string, g: string, b: string)
    requires ':' !in a && ':' !in b
    ensures FuncId(f, a) == FuncId(g, b) <==> f == g && Lower(a) == Lower(b)
  {
    if FuncId(f, a) == FuncId(g, b) {
      ColonPlace(f, a, g, b);
      ColonPlace(g, b, f, a);
      assert FuncId(f, a)[..|f|] == f && FuncId(g, b)[..|g|] == g;
      assert FuncId(f, a)[|f| + 2..] == Lower(a) && FuncId(g, b)[|g| + 2..] == Lower(b);
    }
  }

  lemma ColonPlace(f: string, a: string, g: string, b: string)
    requires ':' !in b && FuncId(f, a) == FuncId(g, b)
    ensures |a| >= |b|
  {
    assert FuncId(f, a)[|f| + 1] == ':';
    if |a| < |b| {
      NoColonAfter(g, b, |f| + 1);
    }
  }

  lemma NoColonAfter(file: string, name: string, i: nat)
    requires ':' !in name && |file| + 2 <= i < |FuncId(file, name)|
    ensures FuncId(file, name)[i] != ':'
  {
    assert FuncId(file, name)[i] == LowerChar(name[i - |file| - 2]);
  }

  // ----- files first, then packages

  /** Two nodes with one file-level target go to one package. */
  lemma SameTarget(nodes: seq<Node>, m: Node, n: Node)
    requires Named(nodes) && ClashFree(nodes) && m in nodes && n in nodes && Target(m, LevelFile).id == Target(n, LevelFile).id
    ensures Target(m, LevelPackage).id == Target(n, LevelPackage).id
  {
    hide PackageId, Dir, Base;
    if Kept(m) && Kept(n) {
      assert m == n;
    }
  }

  /** A file-level node goes to the package of the node it was made from. */
  lemma TargetTwice(m: Node, entry: bool, utility: bool)
    ensures Target(Target(m, LevelFile).(entry := entry, utility := utility), LevelPackage).id == Target(m, LevelPackage).id
  {
    hide PackageId, Dir, Base;
  }

  /** A file-level node goes to the same package as every node that became it. */
  lemma SamePackage(nodes: seq<Node>, n: Node, o: Node)
    requires Named(nodes) && ClashFree(nodes) && n in nodes && LikeOne(nodes, LevelFile, o) && o.id == Target(n, LevelFile).id
    ensures Target(o, LevelPackage).id == Target(n, LevelPackage).id
  {
    hide Target, Named, ClashFree;
    var m :| m in nodes && o == Target(m, LevelFile).(entry := o.entry, utility := o.utility);
    TargetTwice(m, o.entry, o.utility);
    SameTarget(nodes, m, n);
  }

  lemma RemapTwice(nodes: seq<Node>, n1: seq<Node>, x: Id)
    requires Named(nodes) && Distinct(n1) && x in Ids(nodes)
    requires forall y :: y in Ids(n1) <==> Becomes(nodes, LevelFile, y)
    requires forall o | o in n1 :: PackageAs(nodes, o)
    ensures At(Remap(nodes, LevelFile), x) != "" && At(Remap(nodes, LevelFile), x) in Ids(n1)
    ensures At(Remap(n1, LevelPackage), At(Remap(nodes, LevelFile), x)) == At(Remap(nodes, LevelPackage), x)
  {
    hide Remap, Becomes;
    RemapIs(nodes, LevelFile);
    RemapIs(nodes, LevelPackage);
    RemapIs(n1, LevelPackage);
    var n :| n in nodes && n.id == x;
    var y := Target(n, LevelFile).id;
    BecomesTarget(nodes, LevelFile, n);
    var o :| o in n1 && o.id == y;
    assert PackageAs(nodes, o);
  }

  lemma BecomesTarget(nodes: seq<Node>, level: Level, n: Node)
    requires n in nodes
    ensures Becomes(nodes, level, Target(n, level).id)
  {
  }

  /** o's package is the package of each node that became o. */
  ghost predicate PackageAs(nodes: seq<Node>, o: Node)
  {
    forall n | n in nodes && Target(n, LevelFile).id == o.id :: Target(o, LevelPackage).id == Target(n, LevelPackage).id
  }

  /** Counting by file and then by package is counting by package. */
  lemma KeysCompose(nodes: seq<Node>, n1: seq<Node>, e: Edge)
    requires Named(nodes) && Distinct(n1)
    requires forall y :: y in Ids(n1) <==> Becomes(nodes, LevelFile, y)
    requires forall o | o in n1 :: PackageAs(nodes, o)
    ensures var f := NewKey(Remap(nodes, LevelFile), e);
            && (f == None ==> NewKey(Remap(nodes, LevelPackage), e) == None)
            && (f != None ==> (NewKey(Remap(nodes, LevelPackage), e)
                               == NewKey(Remap(n1, LevelPackage), Edge(f.value.from, f.value.to, f.value.kind, 0, false))))
  {
    hide Remap, Becomes, PackageAs;
    RemapIs(nodes, LevelFile);
    RemapIs(nodes, LevelPackage);
    if e.from in Ids(nodes) {
      RemapTwice(nodes, n1, e.from);
    }
    if e.to in Ids(nodes) {
      RemapTwice(nodes, n1, e.to);
    }
  }

  /** Each edge's key in one go is the second key of the edge its first key is listed under. */
  ghost predicate KeysAgree(edges: seq<Edge>, first: Edge -> Option<Key>, second: Edge -> Option<Key>, whole: Edge -> Option<Key>)
  {
    && (forall e | e in edges && first(e) == None :: whole(e) == None)
    && (forall e, l | e in edges && first(e) != None && KeyOf(l) == first(e).value :: whole(e) == second(l))
  }

  /** A second tally over a listing of the first is the tally by the combined key. */
  lemma TalliesCompose(edges: seq<Edge>, first: Edge -> Option<Key>, r1: Rolled, second: Edge -> Option<Key>, t2: map<Key, Edge>,
                       whole: Edge -> Option<Key>, t3: map<Key, Edge>)
    requires RolledUp(edges, first, r1) && Tallied(r1.edges, second, t2) && Tallied(edges, whole, t3)
    requires KeysAgree(edges, first, second, whole)
    ensures t2 == t3
  {
    hide Has, Sum, RolledUp, KeysAgree;
    forall k ensures k in t2 <==> k in t3 {
      HasCompose(edges, first, r1, second, whole, k);
    }
    forall k | k in t2 ensures t2[k] == t3[k] {
      assert KeyOf(t2[k]) == KeyOf(t3[k]);
      SumCompose(edges, first, r1, second, whole, k);
      DynamicCompose(edges, first, r1, second, whole, k);
    }
  }

  lemma HasCompose(edges: seq<Edge>, first: Edge -> Option<Key>, r1: Rolled, second: Edge -> Option<Key>, whole: Edge -> Option<Key>, k: Key)
    requires RolledUp(edges, first, r1) && KeysAgree(edges, first, second, whole)
    ensures Has(r1.edges, second, k) <==> Has(edges, whole, k)
  {
    hide Sum;
    if Has(r1.edges, second, k) {
      var l :| l in r1.edges && second(l) == Some(k);
      assert Has(edges, first, KeyOf(l));
      var e :| e in edges && first(e) == Some(KeyOf(l));
      assert whole(e) == Some(k);
    }
    if Has(edges, whole, k) {
      var e :| e in edges && whole(e) == Some(k);
      assert Has(edges, first, first(e).value);
      var l := r1.tally[first(e).value];
      assert l in r1.edges;
    }
  }

  lemma SumCompose(edges: seq<Edge>, first: Edge -> Option<Key>, r1: Rolled, second: Edge -> Option<Key>, whole: Edge -> Option<Key>, k: Key)
    requires RolledUp(edges, first, r1) && KeysAgree(edges, first, second, whole)
    ensures Sum(r1.edges, l => second(l) == Some(k)) == Sum(edges, e => whole(e) == Some(k))
  {
    hide Sum, Has;
    var e1 := r1.edges;
    var want := (key: Key) => second(Edge(key.from, key.to, key.kind, 0, false)) == Some(k);
    DistinctKeys(r1);
    SumRegroup(edges, first, e1, want);
    forall l | l in e1 ensures want(KeyOf(l)) == (second(l) == Some(k)) {
      var e := Source(edges, first, r1, l);
      assert KeyOf(Edge(l.from, l.to, l.kind, 0, false)) == KeyOf(l);
    }
    SumSame(e1, l => want(KeyOf(l)), l => second(l) == Some(k));
    var regrouped := (e: Edge) => first(e) != None && want(first(e).value) && exists l :: l in e1 && KeyOf(l) == first(e).value;
    forall e | e in edges ensures regrouped(e) == (whole(e) == Some(k)) {
      if first(e) != None {
        var l := Counted(edges, first, r1, e);
        assert KeyOf(Edge(l.from, l.to, l.kind, 0, false)) == first(e).value;
      }
    }
    SumSame(edges, regrouped, e => whole(e) == Some(k));
  }

  lemma DistinctKeys(r: Rolled)
    requires ListsEdges(r.tally, r.edges)
    ensures forall i, j | 0 <= i < j < |r.edges| :: KeyOf(r.edges[i]) != KeyOf(r.edges[j])
  {
    forall i, j | 0 <= i < j < |r.edges| ensures KeyOf(r.edges[i]) != KeyOf(r.edges[j]) {
      assert EdgeBefore(r.edges[i], r.edges[j]);
      KeyBeforeTotal(KeyOf(r.edges[i]), KeyOf(r.edges[j]));
    }
  }

  /** An edge behind each listed edge, and the listed edge each keyed edge is counted in. */
  lemma Source(edges: seq<Edge>, first: Edge -> Option<Key>, r: Rolled, l: Edge) returns (e: Edge)
    requires RolledUp(edges, first, r) && l in r.edges
    ensures e in edges && first(e) == Some(KeyOf(l))
  {
    hide Sum;
    assert Has(edges, first, KeyOf(l));
    e :| e in edges && first(e) == Some(KeyOf(l));
  }

  lemma Counted(edges: seq<Edge>, first: Edge -> Option<Key>, r: Rolled, e: Edge) returns (l: Edge)
    requires RolledUp(edges, first, r) && e in edges && first(e) != None
    ensures l in r.edges && KeyOf(l) == first(e).value
    ensures l.dynamic ==> e.dynamic
  {
    hide Sum;
    assert Has(edges, first, first(e).value);
    l := r.tally[first(e).value];
  }

  lemma DynamicCompose(edges: seq<Edge>, first: Edge -> Option<Key>, r1: Rolled, second: Edge -> Option<Key>, whole: Edge -> Option<Key>, k: Key)
    requires RolledUp(edges, first, r1) && KeysAgree(edges, first, second, whole)
    ensures (forall l | l in r1.edges && second(l) == Some(k) :: l.dynamic) <==> (forall e | e in edges && whole(e) == Some(k) :: e.dynamic)
  {
    hide Sum, Has;
    if forall l | l in r1.edges && second(l) == Some(k) :: l.dynamic {
      forall e | e in edges && whole(e) == Some(k) ensures e.dynamic {
        var l := Counted(edges, first, r1, e);
      }
    }
    if forall e | e in edges && whole(e) == Some(k) :: e.dynamic {
      forall l | l in r1.edges && second(l) == Some(k) ensures l.dynamic {
        forall e | e in edges && first(e) == Some(KeyOf(l)) ensures e.dynamic {
          assert whole(e) == second(l);
        }
      }
    }
  }

  lemma FileNodesPackageAs(nodes: seq<Node>, edges: seq<Edge>, q: Quotient)
    requires Named(nodes) && ClashFree(nodes) && Collapsed(nodes, edges, LevelFile, q)
    ensures forall o | o in q.nodes :: PackageAs(nodes, o)
  {
    hide Collapsed, Named, ClashFree;
    forall o, n | o in q.nodes && n in nodes && Target(n, LevelFile).id == o.id
      ensures Target(o, LevelPackage).id == Target(n, LevelPackage).id
    {
      var l := CollapsedNode(nodes, edges, LevelFile, q, o);
      SamePackage(nodes, n, l);
    }
  }

  /** Two collapses with the same dependencies, counts and certainty included, ids and utility flags. */
  ghost predicate Agree(q: Quotient, p: Quotient)
  {
    && q.rolled.edges == p.rolled.edges
    && IdList(q.nodes) == IdList(p.nodes)
    && forall a, b | a in q.nodes && b in p.nodes && a.id == b.id :: a.utility == b.utility
  }

  /** Collapsing to files and then to packages agrees with collapsing straight to packages. */
  lemma FilesThenPackages(nodes: seq<Node>, edges: seq<Edge>, q1: Quotient, q2: Quotient, q3: Quotient)
    requires Named(nodes) && ClashFree(nodes)
    requires Collapsed(nodes, edges, LevelFile, q1)
    requires Collapsed(q1.nodes, q1.rolled.edges, LevelPackage, q2)
    requires Collapsed(nodes, edges, LevelPackage, q3)
    ensures Agree(q2, q3)
  {
    hide Tallied, ListsEdges, ListsNodes, Merged, Remap, Becomes, PackageAs, Named, ClashFree, KeysAgree;
    CollapsedIds(nodes, edges, LevelFile, q1);
    FileNodesPackageAs(nodes, edges, q1);
    KeyingsAgree(nodes, edges, q1.nodes);
    TalliesCompose(edges, Keying(Remap(nodes, LevelFile)), q1.rolled, Keying(Remap(q1.nodes, LevelPackage)), q2.rolled.tally,
                   Keying(Remap(nodes, LevelPackage)), q3.rolled.tally);
    ListingUnique(q2.rolled.tally, q2.rolled.edges, q3.rolled.edges);
    PackagesCompose(nodes, q1.nodes);
    CollapsedIds(q1.nodes, q1.rolled.edges, LevelPackage, q2);
    CollapsedIds(nodes, edges, LevelPackage, q3);
    ListedInOrder(Merged(q1.nodes, LevelPackage), q2.list);
    ListedInOrder(Merged(nodes, LevelPackage), q3.list);
    SameIdList(q2, q3);
    forall a, b | a in q2.nodes && b in q3.nodes && a.id == b.id ensures a.utility == b.utility {
      var la := CollapsedNode(q1.nodes, q1.rolled.edges, LevelPackage, q2, a);
      var lb := CollapsedNode(nodes, edges, LevelPackage, q3, b);
      UtilityComposes(nodes, edges, q1, a.id);
    }
  }

  lemma KeyingsAgree(nodes: seq<Node>, edges: seq<Edge>, n1: seq<Node>)
    requires Named(nodes) && Distinct(n1)
    requires forall y :: y in Ids(n1) <==> Becomes(nodes, LevelFile, y)
    requires forall o | o in n1 :: PackageAs(nodes, o)
    ensures KeysAgree(edges, Keying(Remap(nodes, LevelFile)), Keying(Remap(n1, LevelPackage)), Keying(Remap(nodes, LevelPackage)))
  {
    hide Remap, Becomes, PackageAs, Named;
    forall e | e in edges ensures NewKey(Remap(nodes, LevelFile), e) == None ==> NewKey(Remap(nodes, LevelPackage), e) == None {
      KeysCompose(nodes, n1, e);
    }
    forall e, l | e in edges && NewKey(Remap(nodes, LevelFile), e) != None && KeyOf(l) == NewKey(Remap(nodes, LevelFile), e).value
      ensures NewKey(Remap(nodes, LevelPackage), e) == NewKey(Remap(n1, LevelPackage), l)
    {
      KeysCompose(nodes, n1, e);
    }
  }

  lemma PackagesCompose(nodes: seq<Node>, n1: seq<Node>)
    requires forall y :: y in Ids(n1) <==> Becomes(nodes, LevelFile, y)
    requires forall o | o in n1 :: PackageAs(nodes, o)
    ensures forall x :: Becomes(n1, LevelPackage, x) <==> Becomes(nodes, LevelPackage, x)
  {
    hide Target;
    forall x ensures Becomes(n1, LevelPackage, x) <==> Becomes(nodes, LevelPackage, x) {
      if Becomes(n1, LevelPackage, x) {
        var o :| o in n1 && Target(o, LevelPackage).id == x;
        assert o.id in Ids(n1);
        var n :| n in nodes && Target(n, LevelFile).id == o.id;
        assert PackageAs(nodes, o);
      }
      if Becomes(nodes, LevelPackage, x) {
        var n :| n in nodes && Target(n, LevelPackage).id == x;
        BecomesTarget(nodes, LevelFile, n);
        var o :| o in n1 && o.id == Target(n, LevelFile).id;
        assert PackageAs(nodes, o);
      }
    }
  }

  lemma UtilityComposes(nodes: seq<Node>, edges: seq<Edge>, q: Quotient, x: Id)
    requires Named(nodes) && ClashFree(nodes) && Collapsed(nodes, edges, LevelFile, q)
    ensures AllUtility(q.nodes, LevelPackage, x) <==> AllUtility(nodes, LevelPackage, x)
  {
    hide Collapsed, Named, ClashFree, PackageAs, Becomes;
    CollapsedIds(nodes, edges, LevelFile, q);
    FileNodesPackageAs(nodes, edges, q);
    if AllUtility(q.nodes, LevelPackage, x) {
      forall n | n in nodes && Target(n, LevelPackage).id == x ensures Target(n, LevelPackage).utility {
        BecomesTarget(nodes, LevelFile, n);
        var o :| o in q.nodes && o.id == Target(n, LevelFile).id;
        UtilityOf(nodes, edges, q, o);
        PackageOf(nodes, o, n);
      }
    }
    if AllUtility(nodes, LevelPackage, x) {
      forall o | o in q.nodes && Target(o, LevelPackage).id == x ensures Target(o, LevelPackage).utility {
        UtilityOf(nodes, edges, q, o);
        forall n | n in nodes && Target(n, LevelFile).id == o.id ensures Target(n, LevelFile).utility {
          PackageOf(nodes, o, n);
        }
      }
    }
  }

  lemma PackageOf(nodes: seq<Node>, o: Node, n: Node)
    requires PackageAs(nodes, o) && n in nodes && Target(n, LevelFile).id == o.id
    ensures Target(o, LevelPackage).id == Target(n, LevelPackage).id
  {
  }

  lemma UtilityOf(nodes: seq<Node>, edges: seq<Edge>, q: Quotient, o: Node)
    requires Collapsed(nodes, edges, LevelFile, q) && o in q.nodes
    ensures o.utility <==> AllUtility(nodes, LevelFile, o.id)
  {
    hide Collapsed, AllUtility;
    var l := CollapsedNode(nodes, edges, LevelFile, q, o);
  }

  lemma ListedInOrder(m: map<Id, Node>, list: seq<Node>)
    requires ListsNodes(m, list)
    ensures Increasing(IdBefore, list)
  {
  }

  /** Both lists of nodes are in id order. */
  lemma SameIdList(q: Quotient, p: Quotient)
    requires Increasing(IdBefore, q.list) && SameButMarks(q.list, q.nodes)
    requires Increasing(IdBefore, p.list) && SameButMarks(p.list, p.nodes)
    requires Ids(q.nodes) == Ids(p.nodes)
    ensures IdList(q.nodes) == IdList(p.nodes)
  {
    BeforeIsStrict();
    forall i, j | 0 <= i < j < |q.nodes| ensures Before(q.nodes[i].id, q.nodes[j].id) {
      assert IdBefore(q.list[i], q.list[j]);
    }
    forall i, j | 0 <= i < j < |p.nodes| ensures Before(p.nodes[i].id, p.nodes[j].id) {
      assert IdBefore(p.list[i], p.list[j]);
    }
    IdListIs(q.nodes);
    IdListIs(p.nodes);
    IncreasingUnique(Before, IdList(q.nodes), IdList(p.nodes));
  }

  lemma IdListIs(nodes: seq<Node>)
    ensures forall x :: x in IdList(nodes) <==> x in Ids(nodes)
  {
    forall x | x in Ids(nodes) ensures x in IdList(nodes) {
      var i :| 0 <= i < |nodes| && nodes[i].id == x;
      assert IdList(nodes)[i] == x;
    }
  }

  // ----- exactly when the two routes agree

  ghost predicate Routes(nodes: seq<Node>, edges: seq<Edge>, q1: Quotient, q2: Quotient, q3: Quotient)
  {
    && Collapsed(nodes, edges, LevelFile, q1)
    && Collapsed(q1.nodes, q1.rolled.edges, LevelPackage, q2)
    && Collapsed(nodes, edges, LevelPackage, q3)
  }

  /** However the collapses are made, going by files gives what going straight gives. */
  ghost predicate RoutesAgree(nodes: seq<Node>, edges: seq<Edge>)
  {
    forall q1, q2, q3 | Routes(nodes, edges, q1, q2, q3) :: Agree(q2, q3)
  }

  /** The two routes to packages agree for every set of dependencies exactly when no node that a
      file collapse leaves alone carries the file of a node from another package as its id. */
  lemma RoutesAgreeIff(nodes: seq<Node>)
    requires Named(nodes)
    ensures ClashFree(nodes) <==> forall edges :: RoutesAgree(nodes, edges)
  {
    hide Named, Agree, Collapsed;
    if ClashFree(nodes) {
      hide ClashFree;
      forall edges ensures RoutesAgree(nodes, edges) {
        forall q1, q2, q3 | Routes(nodes, edges, q1, q2, q3) ensures Agree(q2, q3) {
          FilesThenPackages(nodes, edges, q1, q2, q3);
        }
      }
    } else {
      var a, b :| a in nodes && b in nodes && Kept(a) && !Kept(b) && a.id == b.file
                  && Target(a, LevelPackage).id != Target(b, LevelPackage).id;
      ClashDisagrees(nodes, a, b);
    }
  }

  /** A dependency between the two is lost inside one file, though it joins two packages. */
  lemma ClashDisagrees(nodes: seq<Node>, a: Node, b: Node)
    requires Named(nodes) && a in nodes && b in nodes && Kept(a) && !Kept(b) && a.id == b.file
    requires Target(a, LevelPackage).id != Target(b, LevelPackage).id
    ensures !RoutesAgree(nodes, [Edge(b.id, a.id, Calls, 1, false)])
  {
    hide Collapsed, RolledUp, Remap;
    var e := Edge(b.id, a.id, Calls, 1, false);
    var q1 := CollapseExists(nodes, [e], LevelFile);
    var q2 := CollapseExists(q1.nodes, q1.rolled.edges, LevelPackage);
    var q3 := CollapseExists(nodes, [e], LevelPackage);
    ClashKeys(nodes, a, b, e);
    assert q1.rolled.edges == [] by {
      CollapsedRolled(nodes, [e], LevelFile, q1);
      NoneRolled([e], Keying(Remap(nodes, LevelFile)), q1.rolled);
    }
    assert q2.rolled.edges == [] by {
      CollapsedRolled(q1.nodes, q1.rolled.edges, LevelPackage, q2);
      NoneRolled(q1.rolled.edges, Keying(Remap(q1.nodes, LevelPackage)), q2.rolled);
    }
    assert q3.rolled.edges != [] by {
      CollapsedRolled(nodes, [e], LevelPackage, q3);
      var l := Counted([e], Keying(Remap(nodes, LevelPackage)), q3.rolled, e);
    }
    assert Routes(nodes, [e], q1, q2, q3);
  }

  lemma CollapsedRolled(nodes: seq<Node>, edges: seq<Edge>, level: Level, q: Quotient)
    requires Collapsed(nodes, edges, level, q)
    ensures RolledUp(edges, Keying(Remap(nodes, level)), q.rolled)
  {
  }

  lemma ClashKeys(nodes: seq<Node>, a: Node, b: Node, e: Edge)
    requires Named(nodes) && a in nodes && b in nodes && Kept(a) && !Kept(b) && a.id == b.file
    requires Target(a, LevelPackage).id != Target(b, LevelPackage).id && e == Edge(b.id, a.id, Calls, 1, false)
    ensures NewKey(Remap(nodes, LevelFile), e) == None && NewKey(Remap(nodes, LevelPackage), e) != None
  {
    hide Remap;
    RemapIs(nodes, LevelFile);
    RemapIs(nodes, LevelPackage);
    assert a.id in Ids(nodes) && b.id in Ids(nodes);
  }

  lemma NoneRolled(edges: seq<Edge>, key: Edge -> Option<Key>, r: Rolled)
    requires RolledUp(edges, key, r) && forall e | e in edges :: key(e) == None
    ensures r.edges == []
  {
    hide RolledUp;
    if r.edges != [] {
      var e := Source(edges, key, r, r.edges[0]);
    }
  }

  lemma ExternalNode(name: string) returns (n: Node)
    ensures n.kind == KindExternal && n.id == ExternalId(name) && n.file == "" && WellNamed(n)
  {
    n := Node(ExternalId(name), KindExternal, name, "", 0, "", "", false, false, 0, false, false, false, false);
  }

  lemma FunctionNode(file: string, name: string) returns (n: Node)
    requires file != ""
    ensures n.kind == KindFunction && n.id == FuncId(file, name) && n.file == file && WellNamed(n)
  {
    n := Node(FuncId(file, name), KindFunction, name, file, 0, "", "", false, false, 0, false, false, false, false);
  }

  lemma FileNode(file: string) returns (n: Node)
    requires file != ""
    ensures n.kind == KindFile && n.id == FileId(file) && n.file == file && WellNamed(n)
  {
    n := Node(FileId(file), KindFile, Base(file), file, 0, "", "", false, false, 0, false, false, false, false);
  }

  /** Such a map as a build makes it: a page calls svc.cfc(), which is not resolved, and routes to
      a method of the controller ?svc.cfc, which was not scanned. */
  lemma ClashHappens() returns (nodes: seq<Node>, edges: seq<Edge>)
    ensures Named(nodes) && Grounded(nodes, edges) && (forall n | n in nodes :: WellNamed(n))
    ensures !RoutesAgree(nodes, edges)
  {
    hide RoutesAgree, FuncId, ExternalId, WellNamed, Target, Named, Grounded;
    var a := ExternalNode("svc.cfc");
    var b := FunctionNode("?svc.cfc", "list");
    var c := FileNode("index.cfm");
    nodes := [a, b, c];
    edges := [Edge(c.id, a.id, Calls, 1, false), Edge(c.id, b.id, RouteTo, 1, false)];
    ExternalSpelled();
    FunctionIdDiffers(b.file, "list", c.file);
    assert |a.id| == 8 && |c.id| == 9;
    ThreeNodes(a, b, c);
    InRoot(b);
    InRoot(c);
    assert Target(a, LevelPackage).id == a.id by { ExternalStays(a); }
    RouteMoves(nodes, edges, a, b, c);
  }

  lemma ExternalSpelled()
    ensures ExternalId("svc.cfc") == "?svc.cfc"
  {
    assert Lower("svc.cfc") == "svc.cfc";
  }

  lemma ExternalStays(n: Node)
    requires n.kind == KindExternal
    ensures Target(n, LevelPackage) == n
  {
  }

  lemma ThreeNodes(a: Node, b: Node, c: Node)
    requires a.id != "" && b.id != "" && c.id != "" && a.id != b.id && b.id != c.id && a.id != c.id
    ensures Named([a, b, c])
    ensures Grounded([a, b, c], [Edge(c.id, a.id, Calls, 1, false), Edge(c.id, b.id, RouteTo, 1, false)])
  {
    assert a in [a, b, c] && b in [a, b, c] && c in [a, b, c];
  }

  lemma FunctionIdDiffers(file: string, name: string, other: string)
    ensures FuncId(file, name) != file && FuncId(file, name) != ""
    ensures ':' !in other ==> FuncId(file, name) != other
  {
    assert FuncId(file, name)[|file|] == ':';
  }

  lemma InRoot(n: Node)
    requires !Kept(n) && '/' !in n.file
    ensures Target(n, LevelPackage).id == "."
  {
    NoSlash(n.file);
  }

  lemma {:induction false} NoSlash(p: string)
    requires '/' !in p
    ensures AfterSlash(p) == 0
  {
    if p != "" {
      NoSlash(p[..|p| - 1]);
    }
  }

  /** Going by files, b is taken for the external a, so a dependency inside one package leaves it. */
  lemma RouteMoves(nodes: seq<Node>, edges: seq<Edge>, a: Node, b: Node, c: Node)
    requires Named(nodes) && nodes == [a, b, c] && a.kind == KindExternal && !Kept(b) && !Kept(c) && a.id == b.file != c.file
    requires edges == [Edge(c.id, a.id, Calls, 1, false), Edge(c.id, b.id, RouteTo, 1, false)]
    requires Target(b, LevelPackage).id == Target(c, LevelPackage).id != a.id
    ensures !RoutesAgree(nodes, edges)
  {
    hide Collapsed, RolledUp, Remap, Target, Merged;
    var q1 := CollapseExists(nodes, edges, LevelFile);
    var q2 := CollapseExists(q1.nodes, q1.rolled.edges, LevelPackage);
    var q3 := CollapseExists(nodes, edges, LevelPackage);
    CollapsedRolled(nodes, edges, LevelFile, q1);
    CollapsedRolled(q1.nodes, q1.rolled.edges, LevelPackage, q2);
    CollapsedRolled(nodes, edges, LevelPackage, q3);
    assert edges[1] in edges;
    RouteKeys(nodes, a, b, c, edges[1]);
    var l1 := Counted(edges, Keying(Remap(nodes, LevelFile)), q1.rolled, edges[1]);
    RouteKeptOut(nodes, edges, a, b, c, q1, l1);
    var l2 := Counted(q1.rolled.edges, Keying(Remap(q1.nodes, LevelPackage)), q2.rolled, l1);
    Unlisted(edges, Keying(Remap(nodes, LevelPackage)), q3.rolled, l2);
    assert Routes(nodes, edges, q1, q2, q3);
  }

  lemma Unlisted(edges: seq<Edge>, key: Edge -> Option<Key>, r: Rolled, l: Edge)
    requires RolledUp(edges, key, r) && forall e | e in edges :: key(e) != Some(KeyOf(l))
    ensures l !in r.edges
  {
    hide RolledUp;
    if l in r.edges {
      var e := Source(edges, key, r, l);
    }
  }

  lemma RouteKeys(nodes: seq<Node>, a: Node, b: Node, c: Node, e: Edge)
    requires Named(nodes) && nodes == [a, b, c] && a.kind == KindExternal && !Kept(b) && !Kept(c) && a.id == b.file != c.file
    requires e == Edge(c.id, b.id, RouteTo, 1, false) && Target(b, LevelPackage).id == Target(c, LevelPackage).id
    ensures NewKey(Remap(nodes, LevelFile), e) == Some(Key(c.file, a.id, RouteTo))
    ensures NewKey(Remap(nodes, LevelPackage), e) == None
  {
    hide Remap, PackageId, Dir;
    RemapIs(nodes, LevelFile);
    RemapIs(nodes, LevelPackage);
    assert b in nodes && c in nodes && b.id in Ids(nodes) && c.id in Ids(nodes);
  }

  lemma RouteKeptOut(nodes: seq<Node>, edges: seq<Edge>, a: Node, b: Node, c: Node, q: Quotient, l: Edge)
    requires Named(nodes) && nodes == [a, b, c] && a.kind == KindExternal && !Kept(b) && !Kept(c) && a.id == b.file != c.file
    requires Collapsed(nodes, edges, LevelFile, q) && KeyOf(l) == Key(c.file, a.id, RouteTo)
    requires Target(c, LevelPackage).id != a.id
    ensures NewKey(Remap(q.nodes, LevelPackage), l) == Some(Key(Target(c, LevelPackage).id, a.id, RouteTo))
  {
    hide Remap, Collapsed, Target;
    assert c in nodes && a in nodes && a.id != "";
    FirstStands(nodes, a, b, c);
    PageStands(nodes, a, b, c);
    PackageFrom(nodes, edges, q, a.id, a);
    PackageFrom(nodes, edges, q, c.file, c);
    PackageNamed(c);
  }

  lemma PackageFrom(nodes: seq<Node>, edges: seq<Edge>, q: Quotient, x: Id, n: Node)
    requires Collapsed(nodes, edges, LevelFile, q) && x in Merged(nodes, LevelFile)
    requires Target(Merged(nodes, LevelFile)[x], LevelPackage).id == Target(n, LevelPackage).id
    ensures At(Remap(q.nodes, LevelPackage), x) == Target(n, LevelPackage).id
  {
    hide Remap, Collapsed, PackageId, Dir, Merged, Becomes, StandsFor;
    CollapsedIds(nodes, edges, LevelFile, q);
    MergedIs(nodes, LevelFile);
    RemapIs(q.nodes, LevelPackage);
    assert x in Ids(q.nodes);
    var o :| o in q.nodes && o.id == x;
    var l := CollapsedNode(nodes, edges, LevelFile, q, o);
  }

  lemma PackageNamed(n: Node)
    requires !Kept(n)
    ensures Target(n, LevelPackage).id != ""
  {
  }

  /** The merged node for a and b is a's. */
  lemma FirstStands(nodes: seq<Node>, a: Node, b: Node, c: Node)
    requires nodes == [a, b, c] && a.kind == KindExternal && !Kept(b) && !Kept(c) && a.id == b.file != c.file
    ensures a.id in Merged(nodes, LevelFile)
    ensures Target(Merged(nodes, LevelFile)[a.id], LevelPackage).id == a.id == Target(a, LevelPackage).id
  {
    hide Merged, PackageId, Dir, Base;
    MergedThree(nodes, a, b, c);
  }

  lemma PageStands(nodes: seq<Node>, a: Node, b: Node, c: Node)
    requires nodes == [a, b, c] && a.kind == KindExternal && !Kept(b) && !Kept(c) && a.id == b.file != c.file
    ensures c.file in Merged(nodes, LevelFile)
    ensures Target(Merged(nodes, LevelFile)[c.file], LevelPackage).id == Target(c, LevelPackage).id
  {
    hide Merged, PackageId, Dir, Base;
    MergedThree(nodes, a, b, c);
  }

  lemma MergedThree(nodes: seq<Node>, a: Node, b: Node, c: Node)
    requires nodes == [a, b, c]
    ensures Merged(nodes, LevelFile) == AddNode(AddNode(AddNode(map[], Target(a, LevelFile)), Target(b, LevelFile)), Target(c, LevelFile))
  {
    hide Merged, AddNode, Target;
    NoNodes(nodes, LevelFile);
    OneMoreNode(nodes, 0, LevelFile);
    OneMoreNode(nodes, 1, LevelFile);
    OneMoreNode(nodes, 2, LevelFile);
    assert nodes[..3] == nodes;
  }

  // ----- a collapse is a homomorphism

  /** Every dependency either stays inside one target or becomes a dependency of the collapse. */
  lemma DependencyMaps(nodes: seq<Node>, edges: seq<Edge>, level: Level, r: Rolled, d: (Id, Id))
    requires Named(nodes) && d in Dependencies(edges) && d.0 in Ids(nodes) && d.1 in Ids(nodes)
    requires RolledUp(edges, Keying(Remap(nodes, level)), r)
    ensures At(Remap(nodes, level), d.0) == At(Remap(nodes, level), d.1)
         || (At(Remap(nodes, level), d.0), At(Remap(nodes, level), d.1)) in Dependencies(r.edges)
  {
    hide Sum, Remap;
    var e :| e in edges && Structural(e.kind) && (e.from, e.to) == d;
    TargetsNamed(nodes, level);
    if At(Remap(nodes, level), d.0) != At(Remap(nodes, level), d.1) {
      var l := Counted(edges, Keying(Remap(nodes, level)), r, e);
    }
  }

  lemma TargetsNamed(nodes: seq<Node>, level: Level)
    requires Named(nodes)
    ensures forall x | x in Ids(nodes) :: At(Remap(nodes, level), x) != ""
  {
    RemapIs(nodes, level);
  }

  /** Dependency paths map to dependency paths. */
  lemma PathsMap(nodes: seq<Node>, edges: seq<Edge>, level: Level, r: Rolled, a: Id, b: Id)
    requires Named(nodes) && Grounded(nodes, edges) && a in Ids(nodes) && Reaches(Dependencies(edges), a, b)
    requires RolledUp(edges, Keying(Remap(nodes, level)), r)
    ensures Reaches(Dependencies(r.edges), At(Remap(nodes, level), a), At(Remap(nodes, level), b))
  {
    hide Reaches, RolledUp, Remap, Named;
    var f, r' := Remap(nodes, level), Dependencies(r.edges);
    var s := set x | x in Ids(nodes) && Reaches(r', At(f, a), At(f, x));
    ReachesSelf(r', At(f, a));
    forall d | d in Dependencies(edges) && d.0 in s ensures d.1 in s {
      assert d.1 in Ids(nodes);
      DependencyMaps(nodes, edges, level, r, d);
      if At(f, d.0) != At(f, d.1) {
        ReachesStep(r', At(f, a), At(f, d.0), At(f, d.1));
      }
    }
    ReachesClosed(Dependencies(edges), s, a, b);
  }

  /** What entry points reach still is reached from entry points after a package collapse. */
  lemma LiveCodeMaps(nodes: seq<Node>, edges: seq<Edge>, q: Quotient, x: Id)
    requires Named(nodes) && Grounded(nodes, edges)
    requires Collapsed(nodes, edges, LevelPackage, q)
    requires ReachedFrom(Dependencies(edges), EntryIds(nodes), x)
    ensures ReachedFrom(Dependencies(q.rolled.edges), EntryIds(q.nodes), At(Remap(nodes, LevelPackage), x))
  {
    hide Reaches, RolledUp, Remap, Named, Merged, ListsNodes, Becomes;
    var s :| s in EntryIds(nodes) && Reaches(Dependencies(edges), s, x);
    var n :| n in nodes && n.entry && n.id == s;
    PathsMap(nodes, edges, LevelPackage, q.rolled, s, x);
    var t := Target(n, LevelPackage);
    assert At(Remap(nodes, LevelPackage), s) == t.id by { RemappedTo(nodes, LevelPackage, n); }
    CollapsedIds(nodes, edges, LevelPackage, q);
    BecomesTarget(nodes, LevelPackage, n);
    var o :| o in q.nodes && o.id == t.id;
    var l := CollapsedNode(nodes, edges, LevelPackage, q, o);
    assert AnyEntry(nodes, LevelPackage, t.id);
    assert t.id in EntryIds(q.nodes);
  }

  lemma RemappedTo(nodes: seq<Node>, level: Level, n: Node)
    requires Named(nodes) && n in nodes
    ensures At(Remap(nodes, level), n.id) == Target(n, level).id
  {
    RemapIs(nodes, level);
  }

  /** Containment joins a file to what it declares. */
  ghost predicate ContainsInFile(nodes: seq<Node>, edges: seq<Edge>)
  {
    forall e, a, b | e in edges && e.kind == Contains && a in nodes && b in nodes && a.id == e.from && b.id == e.to ::
      a.file == b.file && !Kept(a) && !Kept(b)
  }

  /** What any edges join stays joined: no island is split by a collapse. */
  lemma IslandsMap(nodes: seq<Node>, edges: seq<Edge>, level: Level, r: Rolled, a: Id, b: Id)
    requires Named(nodes) && Grounded(nodes, edges) && ContainsInFile(nodes, edges) && (level == LevelFile || level == LevelPackage)
    requires RolledUp(edges, Keying(Remap(nodes, level)), r)
    requires a in Ids(nodes) && Reaches(Links(edges), a, b)
    ensures Reaches(Links(r.edges), At(Remap(nodes, level), a), At(Remap(nodes, level), b))
  {
    hide Reaches, RolledUp, Remap, Named;
    var f, r' := Remap(nodes, level), Links(r.edges);
    var s := set x | x in Ids(nodes) && Reaches(r', At(f, a), At(f, x));
    ReachesSelf(r', At(f, a));
    forall d | d in Links(edges) && d.0 in s ensures d.1 in s {
      LinkMaps(nodes, edges, level, r, d);
      if At(f, d.0) != At(f, d.1) {
        ReachesStep(r', At(f, a), At(f, d.0), At(f, d.1));
      }
    }
    ReachesClosed(Links(edges), s, a, b);
  }

  lemma LinkMaps(nodes: seq<Node>, edges: seq<Edge>, level: Level, r: Rolled, d: (Id, Id))
    requires Named(nodes) && Grounded(nodes, edges) && ContainsInFile(nodes, edges) && (level == LevelFile || level == LevelPackage)
    requires RolledUp(edges, Keying(Remap(nodes, level)), r) && d in Links(edges)
    ensures d.0 in Ids(nodes) && d.1 in Ids(nodes)
    ensures At(Remap(nodes, level), d.0) == At(Remap(nodes, level), d.1)
         || (At(Remap(nodes, level), d.0), At(Remap(nodes, level), d.1)) in Links(r.edges)
  {
    hide RolledUp, Remap, Named, Dependencies, ContainsInFile;
    var e := LinkEdge(edges, d);
    assert e.from in Ids(nodes) && e.to in Ids(nodes);
    hide Links, Grounded;
    if Structural(e.kind) {
      IsDependency(edges, e);
      DependencyMaps(nodes, edges, level, r, (e.from, e.to));
      DependencyLinks(r.edges, At(Remap(nodes, level), e.from), At(Remap(nodes, level), e.to));
    } else {
      ContainsInside(nodes, edges, level, e);
    }
  }

  lemma LinkEdge(edges: seq<Edge>, d: (Id, Id)) returns (e: Edge)
    requires d in Links(edges)
    ensures e in edges && ((e.from, e.to) == d || (e.to, e.from) == d)
  {
    e :| e in edges && ((e.from, e.to) == d || (e.to, e.from) == d);
  }

  lemma IsDependency(edges: seq<Edge>, e: Edge)
    requires e in edges && Structural(e.kind)
    ensures (e.from, e.to) in Dependencies(edges)
  {
  }

  lemma DependencyLinks(edges: seq<Edge>, a: Id, b: Id)
    ensures (a, b) in Dependencies(edges) ==> (a, b) in Links(edges) && (b, a) in Links(edges)
  {
  }

  lemma ContainsInside(nodes: seq<Node>, edges: seq<Edge>, level: Level, e: Edge)
    requires Named(nodes) && Grounded(nodes, edges) && ContainsInFile(nodes, edges) && (level == LevelFile || level == LevelPackage)
    requires e in edges && e.kind == Contains
    ensures At(Remap(nodes, level), e.from) == At(Remap(nodes, level), e.to)
  {
    hide Remap, Named, Target;
    var m :| m in nodes && m.id == e.from;
    var n :| n in nodes && n.id == e.to;
    RemappedTo(nodes, level, m);
    RemappedTo(nodes, level, n);
    SameFile(m, n, level);
  }

  lemma SameFile(m: Node, n: Node, level: Level)
    requires m.file == n.file && !Kept(m) && !Kept(n) && (level == LevelFile || level == LevelPackage)
    ensures Target(m, level).id == Target(n, level).id
  {
  }

  /** Nodes of one island never land in different islands. */
  lemma IslandsNotSplit(nodes: seq<Node>, edges: seq<Edge>, islands: nat, level: Level, q: Quotient, outIslands: nat,
                        a: Node, b: Node, oa: Node, ob: Node)
    requires Named(nodes) && Grounded(nodes, edges) && ContainsInFile(nodes, edges) && (level == LevelFile || level == LevelPackage)
    requires IslandsRight(nodes, edges, islands) && Collapsed(nodes, edges, level, q)
    requires IslandsRight(q.nodes, q.rolled.edges, outIslands)
    requires a in nodes && b in nodes && a.island == b.island
    requires oa in q.nodes && ob in q.nodes && oa.id == Target(a, level).id && ob.id == Target(b, level).id
    ensures oa.island == ob.island
  {
    hide Reaches, RolledUp, ListsNodes, Merged, Remap, Named, Target;
    IslandsMap(nodes, edges, level, q.rolled, a.id, b.id);
    RemappedTo(nodes, level, a);
    RemappedTo(nodes, level, b);
  }

  /** The collapse's counts add up to those of the dependencies between different targets. */
  lemma CountsConserved(nodes: seq<Node>, edges: seq<Edge>, level: Level, r: Rolled)
    requires RolledUp(edges, Keying(Remap(nodes, level)), r)
    ensures Sum(r.edges, e => true) == Sum(edges, e => NewKey(Remap(nodes, level), e) != None)
  {
    hide Sum, Has, Remap;
    var key := Keying(Remap(nodes, level));
    DistinctKeys(r);
    var want := (k: Key) => true;
    SumRegroup(edges, key, r.edges, want);
    var regrouped := (e: Edge) => key(e) != None && want(key(e).value) && exists l :: l in r.edges && KeyOf(l) == key(e).value;
    forall e | e in edges ensures regrouped(e) == (NewKey(Remap(nodes, level), e) != None) {
      if key(e) != None {
        var l := Counted(edges, key, r, e);
      }
    }
    SumSame(edges, regrouped, e => NewKey(Remap(nodes, level), e) != None);
    SumSame(r.edges, l => want(KeyOf(l)), e => true);
  }

  lemma MergedNamed(nodes: seq<Node>, level: Level)
    ensures forall x | x in Merged(nodes, level) :: Merged(nodes, level)[x].id == x
  {
    hide Merged, StandsFor;
    MergedIs(nodes, level);
  }

  lemma TalliedKeys(es: seq<Edge>, key: Edge -> Option<Key>, m: map<Key, Edge>)
    requires Tallied(es, key, m)
    ensures forall k | k in m :: KeyOf(m[k]) == k
  {
  }
}
