/**
 The Cargo packages a release distributes: everything reachable from the Morphz package over
 dependencies that are not only development dependencies.
 */
module Licenses {
  import opened Prelude
  import opened Graphs
  import Orders

  /** A license file by its path components. */
  type FilePath = seq<string>

  /** What the bundle needs of one package: its identity, declared license and license files. */
  datatype Entry = Entry(name: string, version: string, expression: string, paths: seq<FilePath>)

  /** `source` is absent for path packages; `paths` are its resolved license files. */
  datatype Package = Package(id: string, name: string, version: string, source: Option<string>, license: Option<string>, paths: seq<FilePath>)

  /** A dependency edge with its kinds; an absent or empty list stands for one normal kind. */
  datatype Dependency = Dependency(pkg: string, kinds: seq<Option<string>>)

  datatype Node = Node(id: string, deps: seq<Dependency>)

  datatype Metadata = Metadata(packages: seq<Package>, nodes: seq<Node>, workspaceMembers: seq<string>)

  predicate Distributed(d: Dependency) {
    d.kinds == [] || exists i | 0 <= i < |d.kinds| :: d.kinds[i] != Some("dev")
  }

  function Targets(deps: seq<Dependency>): seq<string> {
    if deps == [] then []
    else
      var rest, last := Targets(deps[..|deps| - 1]), deps[|deps| - 1];
      if Distributed(last) then rest + [last.pkg] else rest
  }

  /** Dictionaries keep the last entry of a key. */
  function NodesById(nodes: seq<Node>): map<string, Node> {
    if nodes == [] then map[] else NodesById(nodes[..|nodes| - 1])[nodes[|nodes| - 1].id := nodes[|nodes| - 1]]
  }

  function PackagesById(packages: seq<Package>): map<string, Package> {
    if packages == [] then map[] else PackagesById(packages[..|packages| - 1])[packages[|packages| - 1].id := packages[|packages| - 1]]
  }

  function GraphOf(nodes: map<string, Node>): Graph {
    map id | id in nodes :: Targets(nodes[id].deps)
  }

  function Roots(packages: seq<Package>, members: set<string>): seq<string> {
    if packages == [] then []
    else
      var rest, last := Roots(packages[..|packages| - 1], members), packages[|packages| - 1];
      if last.name == "morphz" && last.id in members then rest + [last.id] else rest
  }

  /** The packages that count as roots: named morphz and members of the workspace. */
  function IsRoot(members: set<string>): Package -> bool {
    (p: Package) => p.name == "morphz" && p.id in members
  }

  ghost predicate IdsAt(packages: seq<Package>, at: seq<nat>, ids: seq<string>) {
    |ids| == |at| && forall j | 0 <= j < |at| :: at[j] < |packages| && packages[at[j]].id == ids[j]
  }

  lemma {:induction false} RootsExact(packages: seq<Package>, members: set<string>) returns (at: seq<nat>)
    ensures Picks(packages, IsRoot(members), at) && IdsAt(packages, at, Roots(packages, members))
  {
    at := [];
    if packages != [] {
      var n := |packages| - 1;
      at := RootsExact(packages[..n], members);
      PicksSnoc(packages[..n], IsRoot(members), at, packages[n]);
      assert packages == packages[..n] + [packages[n]];
      at := at + if IsRoot(members)(packages[n]) then [n] else [];
    }
  }

  /** The last record with this id. */
  ghost predicate LastPackage(packages: seq<Package>, id: string, p: Package) {
    exists i | 0 <= i < |packages| ::
      packages[i] == p && p.id == id && forall j | i < j < |packages| :: packages[j].id != id
  }

  ghost predicate LastNode(nodes: seq<Node>, id: string, n: Node) {
    exists i | 0 <= i < |nodes| :: nodes[i] == n && n.id == id && forall j | i < j < |nodes| :: nodes[j].id != id
  }

  lemma {:induction false} PackagesByIdExact(packages: seq<Package>, id: string)
    ensures id in PackagesById(packages) ==> LastPackage(packages, id, PackagesById(packages)[id])
    ensures id !in PackagesById(packages) ==> forall i | 0 <= i < |packages| :: packages[i].id != id
  {
    if packages != [] {
      var n := |packages| - 1;
      PackagesByIdExact(packages[..n], id);
      if packages[n].id == id {
        assert packages[n] == PackagesById(packages)[id];
      } else if id in PackagesById(packages) {
        var p := PackagesById(packages)[id];
        var i :| 0 <= i < n && packages[..n][i] == p && p.id == id && forall j | i < j < n :: packages[..n][j].id != id;
        assert packages[i] == p && forall j | i < j < |packages| :: packages[j].id != id;
      }
    }
  }

  lemma {:induction false} NodesByIdExact(nodes: seq<Node>, id: string)
    ensures id in NodesById(nodes) ==> LastNode(nodes, id, NodesById(nodes)[id])
    ensures id !in NodesById(nodes) ==> forall i | 0 <= i < |nodes| :: nodes[i].id != id
  {
    if nodes != [] {
      var n := |nodes| - 1;
      NodesByIdExact(nodes[..n], id);
      if nodes[n].id == id {
        assert nodes[n] == NodesById(nodes)[id];
      } else if id in NodesById(nodes) {
        var x := NodesById(nodes)[id];
        var i :| 0 <= i < n && nodes[..n][i] == x && x.id == id && forall j | i < j < n :: nodes[..n][j].id != id;
        assert nodes[i] == x && forall j | i < j < |nodes| :: nodes[j].id != id;
      }
    }
  }

  /** The last node of package `a` lists a dependency on `b` that is not only for development. */
  ghost predicate Needs(nodes: seq<Node>, a: string, b: string) {
    exists n :: LastNode(nodes, a, n) && exists d | d in n.deps ::
      d.pkg == b && (d.kinds == [] || exists kind | kind in d.kinds :: kind != Some("dev"))
  }

  /** A chain of such dependencies from the root. */
  ghost predicate NeedChain(nodes: seq<Node>, root: string, chain: seq<string>, id: string) {
    && chain != [] && chain[0] == root && chain[|chain| - 1] == id
    && forall i | 0 < i < |chain| :: Needs(nodes, chain[i - 1], chain[i])
  }

  ghost predicate Needed(nodes: seq<Node>, root: string, id: string) {
    exists chain :: NeedChain(nodes, root, chain, id)
  }

  lemma LastNodeIsUnique(nodes: seq<Node>, id: string, a: Node, b: Node)
    requires LastNode(nodes, id, a) && LastNode(nodes, id, b)
    ensures a == b
  {
    var i :| 0 <= i < |nodes| && nodes[i] == a && a.id == id && forall j | i < j < |nodes| :: nodes[j].id != id;
    var k :| 0 <= k < |nodes| && nodes[k] == b && b.id == id && forall j | k < j < |nodes| :: nodes[j].id != id;
    assert i == k;
  }

  lemma NeedsIsNext(nodes: seq<Node>, a: string, b: string)
    ensures Needs(nodes, a, b) <==> b in Next(GraphOf(NodesById(nodes)), a)
  {
    NodesByIdExact(nodes, a);
    if a in NodesById(nodes) {
      var n := NodesById(nodes)[a];
      TargetsExact(n.deps, b);
      if Needs(nodes, a, b) {
        var x :| LastNode(nodes, a, x) && exists d | d in x.deps ::
          d.pkg == b && (d.kinds == [] || exists kind | kind in d.kinds :: kind != Some("dev"));
        LastNodeIsUnique(nodes, a, x, n);
        var d :| d in n.deps && d.pkg == b && (d.kinds == [] || exists kind | kind in d.kinds :: kind != Some("dev"));
        assert Distributed(d);
      }
      if b in Targets(n.deps) {
        var d :| d in n.deps && d.pkg == b && Distributed(d);
        if d.kinds != [] {
          var i :| 0 <= i < |d.kinds| && d.kinds[i] != Some("dev");
          assert d.kinds[i] in d.kinds;
        }
      }
    }
  }

  lemma NeededIsReachable(nodes: seq<Node>, root: string, id: string)
    ensures Needed(nodes, root, id) <==> Reachable(GraphOf(NodesById(nodes)), root, id)
  {
    var g := GraphOf(NodesById(nodes));
    if Needed(nodes, root, id) {
      var chain :| NeedChain(nodes, root, chain, id);
      forall i | 0 < i < |chain| ensures chain[i] in Next(g, chain[i - 1]) {
        NeedsIsNext(nodes, chain[i - 1], chain[i]);
      }
      assert PathTo(g, root, chain, id);
    }
    if Reachable(g, root, id) {
      var path :| PathTo(g, root, path, id);
      forall i | 0 < i < |path| ensures Needs(nodes, path[i - 1], path[i]) {
        NeedsIsNext(nodes, path[i - 1], path[i]);
      }
      assert NeedChain(nodes, root, path, id);
    }
  }

  function EntryOf(p: Package): Entry {
    Entry(p.name, p.version, if p.license.Some? && p.license.value != "" then p.license.value else "license-file", p.paths)
  }

  /** The loop over one node's dependencies. */
  method PushTargets(pending: seq<string>, deps: seq<Dependency>) returns (r: seq<string>)
    ensures r == pending + Targets(deps)
  {
    r := pending;
    for i := 0 to |deps|
      invariant r == pending + Targets(deps[..i])
    {
      assert deps[..i + 1][..i] == deps[..i];
      if Distributed(deps[i]) {
        r := r + [deps[i].pkg];
      }
    }
    assert deps[..|deps|] == deps;
  }

  /** The root, every node and every edge target: all that the worklist can ever meet. */
  ghost function Universe(g: Graph, root: string): set<string> {
    {root} + g.Keys + set n, m | n in g && m in g[n] :: m
  }

  lemma VisitStaysInside(g: Graph, root: string, reachable: set<string>, rest: seq<string>, id: string)
    requires reachable <= Universe(g, root) && id in Universe(g, root) && id !in reachable
    requires forall n | n in rest :: n in Universe(g, root)
    ensures reachable + {id} <= Universe(g, root) && forall n | n in rest + Next(g, id) :: n in Universe(g, root)
    ensures |Universe(g, root) - (reachable + {id})| < |Universe(g, root) - reachable|
  {
    OneLess(Universe(g, root), reachable, id);
    forall n | n in Next(g, id) ensures n in Universe(g, root) {
      assert id in g && n in g[id];
    }
  }

  lemma OneLess(all: set<string>, reachable: set<string>, id: string)
    requires id in all && id !in reachable
    ensures |all - (reachable + {id})| < |all - reachable|
  {
    assert all - reachable == (all - (reachable + {id})) + {id};
  }

  /** The worklist: it ends on every graph, and computes exactly the reachable packages. */
  method ReachableIds(nodes: map<string, Node>, root: string) returns (reachable: set<string>)
    ensures forall id :: id in reachable <==> Reachable(GraphOf(nodes), root, id)
  {
    ghost var g := GraphOf(nodes);
    ghost var all := Universe(g, root);
    reachable := {};
    var pending := [root];
    ExploringStarts(g, root);
    while pending != []
      invariant Exploring(g, root, reachable, pending)
      invariant reachable <= all && forall id | id in pending :: id in all
      decreases |all - reachable|, |pending|
    {
      var id, rest := pending[|pending| - 1], pending[..|pending| - 1];
      assert id in pending && forall n | n in rest :: n in pending;
      if id in reachable {
        ExploringSkips(g, root, reachable, pending);
        pending := rest;
        continue;
      }
      ExploringVisits(g, root, reachable, pending);
      VisitStaysInside(g, root, reachable, rest, id);
      reachable := reachable + {id};
      pending := Continue(nodes, rest, id);
    }
    ExploringEnds(g, root, reachable);
  }

  /** Push what the node leads to; a package without a node is a leaf. */
  method Continue(nodes: map<string, Node>, rest: seq<string>, id: string) returns (pending: seq<string>)
    ensures pending == rest + Next(GraphOf(nodes), id)
  {
    if id !in nodes {
      return rest;
    }
    pending := PushTargets(rest, nodes[id].deps);
  }

  /** The sorted list of a set of texts. */
  method Sorted(s: set<string>) returns (r: seq<string>)
    ensures Distinct(r) && Orders.SortedBy(Orders.TEXT_LE, r) && forall x :: x in r <==> x in s
  {
    var todo := s;
    r := [];
    while todo != {}
      invariant forall x :: x in s <==> x in todo || x in r
      decreases |todo|
    {
      var x :| x in todo;
      r := r + [x];
      todo := todo - {x};
    }
    Orders.TextIsTotalOrder();
    Orders.SortedSetFacts(Orders.TEXT_LE, r);
    r := Orders.SortedSet(Orders.TEXT_LE, r);
  }

  function EntriesOf(byId: map<string, Package>, members: set<string>, ids: seq<string>): seq<Entry>
    requires forall id | id in ids :: id in byId
  {
    if ids == [] then []
    else
      var last := ids[|ids| - 1];
      var rest := EntriesOf(byId, members, ids[..|ids| - 1]);
      if last in members || byId[last].source.None? then rest else rest + [EntryOf(byId[last])]
  }

  ghost predicate AllRecorded(g: Graph, root: string, byId: map<string, Package>) {
    forall id | Reachable(g, root, id) :: id in byId
  }

  /** The packages to bundle, or nothing when the script raises: it needs exactly one Morphz workspace
      package and a package record for everything reachable from it. `ids` lists the reachable ids
      in order; the result has an entry for each of them outside the workspace that has a source. */
  method RustPackages(m: Metadata) returns (r: Option<seq<Entry>>, ids: seq<string>)
    ensures
      var members, byId, g := Elements(m.workspaceMembers), PackagesById(m.packages), GraphOf(NodesById(m.nodes));
      var roots := Roots(m.packages, members);
      && (r.Some? <==> |roots| == 1 && AllRecorded(g, roots[0], byId))
      && (r.Some? ==>
            && Distinct(ids) && Orders.SortedBy(Orders.TEXT_LE, ids)
            && (forall id :: id in ids <==> Reachable(g, roots[0], id)) && (forall id | id in ids :: id in byId)
            && r.value == EntriesOf(byId, members, ids))
    ensures r.Some? <==> exists at: nat :: OneRoot(m, at) && AllPresent(m, m.packages[at].id)
    ensures r.Some? ==> forall at: nat | OneRoot(m, at) :: Lists(m, m.packages[at].id, ids, r.value)
  {
    RootsAreOne(m);
    ids := [];
    var members := Elements(m.workspaceMembers);
    var byId, nodes, roots := PackagesById(m.packages), NodesById(m.nodes), Roots(m.packages, members);
    if |roots| != 1 {
      return None, [];
    }
    AllPresentIsRecorded(m, roots[0]);
    var reachable := ReachableIds(nodes, roots[0]);
    var order := Sorted(reachable);
    var entries: seq<Entry> := [];
    for i := 0 to |order|
      invariant forall id | id in order[..i] :: id in byId
      invariant entries == EntriesOf(byId, members, order[..i])
    {
      var id := order[i];
      assert order[..i + 1] == order[..i] + [id] && order[..i + 1][..i] == order[..i] && id in order;
      if id !in byId {
        assert Reachable(GraphOf(nodes), roots[0], id) && !AllRecorded(GraphOf(nodes), roots[0], byId);
        return None, [];
      }
      if id !in members && byId[id].source.Some? {
        entries := entries + [EntryOf(byId[id])];
      }
    }
    assert order[..|order|] == order;
    ListsAll(m, roots[0], order);
    return Some(entries), order;
  }

  /** An entry is listed exactly when some reachable package outside the workspace, with a source, has it. */
  lemma {:induction false} EntriesExact(byId: map<string, Package>, members: set<string>, ids: seq<string>, e: Entry)
    requires forall id | id in ids :: id in byId
    ensures e in EntriesOf(byId, members, ids) <==>
      exists id | id in ids :: id !in members && byId[id].source.Some? && EntryOf(byId[id]) == e
  {
    if ids != [] {
      EntriesExact(byId, members, ids[..|ids| - 1], e);
      assert forall id :: id in ids <==> id in ids[..|ids| - 1] || id == ids[|ids| - 1];
    }
  }

  /** A target of the loop is exactly the package of a dependency with some kind that is not `dev`. */
  lemma {:induction false} TargetsExact(deps: seq<Dependency>, pkg: string)
    ensures pkg in Targets(deps) <==> exists d | d in deps :: d.pkg == pkg && Distributed(d)
  {
    if deps != [] {
      TargetsExact(deps[..|deps| - 1], pkg);
      assert forall d :: d in deps <==> d in deps[..|deps| - 1] || d == deps[|deps| - 1];
    }
  }

  /** The metadata has exactly one Morphz workspace package: it stands at this position. */
  ghost predicate OneRoot(m: Metadata, at: nat) {
    && at < |m.packages| && m.packages[at].name == "morphz" && m.packages[at].id in m.workspaceMembers
    && forall i | 0 <= i < |m.packages| && i != at :: !(m.packages[i].name == "morphz" && m.packages[i].id in m.workspaceMembers)
  }

  lemma RootsAreOne(m: Metadata)
    ensures |Roots(m.packages, Elements(m.workspaceMembers))| == 1 <==> exists at: nat :: OneRoot(m, at)
    ensures forall at: nat | OneRoot(m, at) :: Roots(m.packages, Elements(m.workspaceMembers)) == [m.packages[at].id]
  {
    var members := Elements(m.workspaceMembers);
    var at := RootsExact(m.packages, members);
    assert |at| > 1 ==> at[0] < at[1];
    if |at| == 1 {
      assert OneRoot(m, at[0]) by {
        forall i | 0 <= i < |m.packages| && IsRoot(members)(m.packages[i]) ensures i == at[0] {
          assert i in at;
        }
      }
    }
    forall k: nat | OneRoot(m, k) ensures at == [k] {
      assert k in at by {
        assert IsRoot(members)(m.packages[k]);
      }
      forall j | 0 <= j < |at| ensures at[j] == k {
        assert IsRoot(members)(m.packages[at[j]]);
      }
    }
  }

  /** What a listed entry comes from: the last record of a needed package outside the workspace, with a
      source, under its declared license or as `license-file`. */
  ghost predicate Comes(m: Metadata, root: string, id: string, e: Entry) {
    exists p :: LastPackage(m.packages, id, p) && Needed(m.nodes, root, id) && id !in m.workspaceMembers && p.source.Some?
      && e == Entry(p.name, p.version, if p.license.Some? && p.license.value != "" then p.license.value else "license-file", p.paths)
  }

  lemma LastPackageIsUnique(packages: seq<Package>, id: string, a: Package, b: Package)
    requires LastPackage(packages, id, a) && LastPackage(packages, id, b)
    ensures a == b
  {
    var i :| 0 <= i < |packages| && packages[i] == a && a.id == id && forall j | i < j < |packages| :: packages[j].id != id;
    var k :| 0 <= k < |packages| && packages[k] == b && b.id == id && forall j | k < j < |packages| :: packages[j].id != id;
    assert i == k;
  }

  /** On the metadata itself: an entry is listed exactly when it comes from some needed package. */
  lemma EntriesComeFrom(m: Metadata, root: string, ids: seq<string>, e: Entry)
    requires forall id :: id in ids <==> Reachable(GraphOf(NodesById(m.nodes)), root, id)
    requires forall id | id in ids :: id in PackagesById(m.packages)
    ensures e in EntriesOf(PackagesById(m.packages), Elements(m.workspaceMembers), ids) <==> exists id :: Comes(m, root, id, e)
  {
    var byId := PackagesById(m.packages);
    EntriesExact(byId, Elements(m.workspaceMembers), ids, e);
    forall id ensures PackagesById(m.packages) == byId && (id in byId ==> LastPackage(m.packages, id, byId[id])) {
      PackagesByIdExact(m.packages, id);
    }
    if e in EntriesOf(byId, Elements(m.workspaceMembers), ids) {
      var id :| id in ids && id !in Elements(m.workspaceMembers) && byId[id].source.Some? && EntryOf(byId[id]) == e;
      NeededIsReachable(m.nodes, root, id);
      assert Comes(m, root, id, e);
    }
    if id :| Comes(m, root, id, e) {
      var p :| LastPackage(m.packages, id, p) && Needed(m.nodes, root, id) && id !in m.workspaceMembers && p.source.Some?
        && e == Entry(p.name, p.version, if p.license.Some? && p.license.value != "" then p.license.value else "license-file", p.paths);
      NeededIsReachable(m.nodes, root, id);
      LastPackageIsUnique(m.packages, id, p, byId[id]);
    }
  }

  /** The ids are those of the needed packages, and the entries come from them. */
  ghost predicate Lists(m: Metadata, root: string, ids: seq<string>, entries: seq<Entry>) {
    && (forall id :: id in ids <==> Needed(m.nodes, root, id))
    && (forall e :: e in entries <==> exists id :: Comes(m, root, id, e))
  }

  lemma ListsAll(m: Metadata, root: string, ids: seq<string>)
    requires forall id :: id in ids <==> Reachable(GraphOf(NodesById(m.nodes)), root, id)
    requires forall id | id in ids :: id in PackagesById(m.packages)
    ensures Lists(m, root, ids, EntriesOf(PackagesById(m.packages), Elements(m.workspaceMembers), ids))
  {
    forall id ensures id in ids <==> Needed(m.nodes, root, id) {
      NeededIsReachable(m.nodes, root, id);
    }
    var entries := EntriesOf(PackagesById(m.packages), Elements(m.workspaceMembers), ids);
    forall e ensures e in entries <==> exists id :: Comes(m, root, id, e) {
      EntriesComeFrom(m, root, ids, e);
    }
  }

  /** Every needed package has a record. */
  ghost predicate AllPresent(m: Metadata, root: string) {
    forall id | Needed(m.nodes, root, id) :: exists i | 0 <= i < |m.packages| :: m.packages[i].id == id
  }

  lemma AllPresentIsRecorded(m: Metadata, root: string)
    ensures AllPresent(m, root) <==> AllRecorded(GraphOf(NodesById(m.nodes)), root, PackagesById(m.packages))
  {
    var g, byId := GraphOf(NodesById(m.nodes)), PackagesById(m.packages);
    forall id ensures id in byId <==> exists i | 0 <= i < |m.packages| :: m.packages[i].id == id {
      PackagesByIdExact(m.packages, id);
      if id in byId {
        var p := byId[id];
        var i :| 0 <= i < |m.packages| && m.packages[i] == p && p.id == id;
      }
    }
    forall id ensures Needed(m.nodes, root, id) <==> Reachable(g, root, id) {
      NeededIsReachable(m.nodes, root, id);
    }
  }
}
