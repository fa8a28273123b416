/** Reachability in a finite graph, and the state of a depth-first worklist over it. */
module Graphs {

  /** Successors by node; a node without an entry has none. */
  type Graph = map<string, seq<string>>

  function Next(g: Graph, n: string): seq<string> {
    if n in g then g[n] else []
  }

  /** Each node of the path is followed by one of its successors. */
  ghost predicate IsPath(g: Graph, path: seq<string>) {
    path != [] && forall i | 0 < i < |path| :: path[i] in Next(g, path[i - 1])
  }

  ghost predicate PathTo(g: Graph, root: string, path: seq<string>, n: string) {
    IsPath(g, path) && path[0] == root && path[|path| - 1] == n
  }

  ghost predicate Reachable(g: Graph, root: string, n: string) {
    exists path :: PathTo(g, root, path, n)
  }

  lemma RootIsReachable(g: Graph, root: string)
    ensures Reachable(g, root, root)
  {
    assert PathTo(g, root, [root], root);
  }

  lemma SuccessorIsReachable(g: Graph, root: string, n: string, m: string)
    requires Reachable(g, root, n) && m in Next(g, n)
    ensures Reachable(g, root, m)
  {
    var path :| PathTo(g, root, path, n);
    assert PathTo(g, root, path + [m], m);
  }

  /** A set with the root that is closed under successors holds every reachable node. */
  lemma {:induction false} ClosedSetHoldsPath(g: Graph, s: set<string>, path: seq<string>)
    requires IsPath(g, path) && path[0] in s && forall n, m | n in s && m in Next(g, n) :: m in s
    ensures path[|path| - 1] in s
  {
    if |path| > 1 {
      ClosedSetHoldsPath(g, s, path[..|path| - 1]);
      assert path[|path| - 1] in Next(g, path[|path| - 2]);
    }
  }

  /** The worklist invariant: all seen nodes are reachable, and what a visited node leads to is
      visited or waiting. */
  ghost predicate Exploring(g: Graph, root: string, visited: set<string>, pending: seq<string>) {
    && (root in visited || root in pending)
    && (forall n | n in visited || n in pending :: Reachable(g, root, n))
    && (forall n, m | n in visited && m in Next(g, n) :: m in visited || m in pending)
  }

  lemma ExploringStarts(g: Graph, root: string)
    ensures Exploring(g, root, {}, [root])
  {
    RootIsReachable(g, root);
  }

  /** Popping a node seen before. */
  lemma ExploringSkips(g: Graph, root: string, visited: set<string>, pending: seq<string>)
    requires Exploring(g, root, visited, pending) && pending != [] && pending[|pending| - 1] in visited
    ensures Exploring(g, root, visited, pending[..|pending| - 1])
  {
    var rest := pending[..|pending| - 1];
    assert forall n :: n in pending <==> n in rest || n == pending[|pending| - 1];
  }

  /** Popping a new node and pushing what it leads to. */
  lemma ExploringVisits(g: Graph, root: string, visited: set<string>, pending: seq<string>)
    requires Exploring(g, root, visited, pending) && pending != []
    ensures
      var n := pending[|pending| - 1];
      Exploring(g, root, visited + {n}, pending[..|pending| - 1] + Next(g, n))
  {
    var n, rest := pending[|pending| - 1], pending[..|pending| - 1];
    assert forall m :: m in pending <==> m in rest || m == n;
    assert n in pending && Reachable(g, root, n);
    forall m | m in Next(g, n) ensures Reachable(g, root, m) {
      SuccessorIsReachable(g, root, n, m);
    }
  }

  /** With nothing waiting, the visited nodes are exactly the reachable ones. */
  lemma ExploringEnds(g: Graph, root: string, visited: set<string>)
    requires Exploring(g, root, visited, [])
    ensures forall n :: n in visited <==> Reachable(g, root, n)
  {
    forall n | Reachable(g, root, n) ensures n in visited {
      var path :| PathTo(g, root, path, n);
      ClosedSetHoldsPath(g, visited, path);
    }
  }
}
