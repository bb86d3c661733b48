/** findCyclicArrows (src/lib/utils/validation.ts): depth-first search with a
    visited set and a recursion stack over a directed graph given as a map
    from node id to its list of successors.

    The search is modelled with its state made explicit: `Dfs`, `Explore`
    (the loop over a node's successors) and `Roots` (the loop over the map's
    keys) thread a `Search` record through the calls exactly as the closure
    mutates its three sets. Two quirks of the original are kept:
    - after a cycle is found the recursion stack is not unwound, so a later
      root may hit a stale stack entry;
    - the path slice starts at `path.indexOf(node)`, which is -1 for such a
      stale entry, so `path[-1]` (undefined) is recorded; it appears here as
      `Undefined`.
    What is proved is that the reported list is non-empty exactly when the
    graph has a directed cycle. */
module CycleSearch {

  type Graph = map<int, seq<int>>

  /** An entry of the reported list: a node id, or the `undefined` read
      from `path[-1]`. */
  datatype Ref = Id(id: int) | Undefined

  /** The closure state: visited nodes, the recursion stack, and the
      insertion-ordered set of reported entries. */
  datatype Search = Search(visited: set<int>, onStack: set<int>, found: seq<Ref>)

  datatype Step = Step(hit: bool, state: Search)

  /** `graph.get(node) || []` */
  function Neighbors(g: Graph, node: int): seq<int>
  {
    if node in g then g[node] else []
  }

  /** Every node the search can reach: the keys and every listed successor. */
  ghost function Nodes(g: Graph): set<int>
  {
    g.Keys + set k, v | k in g && v in g[k] :: v
  }

  lemma NeighborsAreNodes(g: Graph, node: int)
    ensures forall v :: v in Neighbors(g, node) ==> v in Nodes(g)
  {
    if node in g {
      forall v | v in g[node] ensures v in Nodes(g) {
        assert v in set k, w | k in g && w in g[k] :: w;
      }
    }
  }

  ghost predicate Edge(g: Graph, u: int, v: int)
  {
    u in g && v in g[u]
  }

  ghost predicate IsWalk(g: Graph, w: seq<int>)
  {
    forall i :: 0 <= i < |w| - 1 ==> Edge(g, w[i], w[i + 1])
  }

  /** A closed walk of at least one edge starting and ending at `u`. */
  ghost predicate OnCycle(g: Graph, u: int)
  {
    exists w :: |w| >= 2 && IsWalk(g, w) && w[0] == u && w[|w| - 1] == u
  }

  ghost predicate HasCycle(g: Graph)
  {
    exists w :: |w| >= 2 && IsWalk(g, w) && w[0] == w[|w| - 1]
  }

  /** `path.indexOf(node)` */
  function IndexOf(path: seq<int>, node: int): (i: int)
    ensures -1 <= i < |path|
    ensures i >= 0 ==> path[i] == node && forall k :: 0 <= k < i ==> path[k] != node
    ensures i == -1 <==> node !in path
  {
    if |path| == 0 then -1
    else if path[0] == node then 0
    else
      var k := IndexOf(path[1..], node);
      if k == -1 then -1 else k + 1
  }

  /** `path[i]` for i = start, ..., |path| - 1, reading `undefined` outside
      the array. */
  function Slice(path: seq<int>, start: int): (r: seq<Ref>)
    requires start >= -1
    ensures |r| == if start < |path| then |path| - start else 0
    decreases |path| - start
  {
    if start >= |path| then []
    else [if 0 <= start then Id(path[start]) else Undefined] + Slice(path, start + 1)
  }

  /** `Set.add` on an insertion-ordered set, one element after another. */
  function AddAll(found: seq<Ref>, xs: seq<Ref>): (r: seq<Ref>)
    ensures found <= r
    ensures forall x :: x in xs ==> x in r
    ensures forall x :: x in r ==> x in found || x in xs
    decreases |xs|
  {
    if |xs| == 0 then found
    else
      var next := if xs[0] in found then found else found + [xs[0]];
      var r := AddAll(next, xs[1..]);
      assert found <= next && next <= r;
      assert forall x :: x in xs ==> x == xs[0] || x in xs[1..];
      assert xs[0] in next;
      r
  }

  /** The inner `dfs(nodeId, path)`. */
  function Dfs(g: Graph, node: int, path: seq<int>, s: Search): (r: Step)
    requires node in Nodes(g) && s.visited <= Nodes(g)
    ensures s.visited <= r.state.visited <= Nodes(g)
    ensures s.found <= r.state.found
    ensures r.hit ==> |r.state.found| > 0
    decreases Nodes(g) - s.visited, 0
  {
    if node in s.onStack then
      var start := IndexOf(path, node);
      Step(true, s.(found := AddAll(s.found, Slice(path, start) + [Id(node)])))
    else if node in s.visited then
      Step(false, s)
    else
      var entered := s.(visited := s.visited + {node}, onStack := s.onStack + {node});
      NeighborsAreNodes(g, node);
      var r := Explore(g, node, Neighbors(g, node), 0, path + [node], entered);
      if r.hit then r
      else Step(false, r.state.(onStack := r.state.onStack - {node}))
  }

  /** `for (const neighborId of neighbors) if (dfs(neighborId, [...path])) return true;` */
  function Explore(g: Graph, node: int, ns: seq<int>, k: nat, path: seq<int>, s: Search): (r: Step)
    requires k <= |ns|
    requires forall v :: v in ns ==> v in Nodes(g)
    requires s.visited <= Nodes(g)
    ensures s.visited <= r.state.visited <= Nodes(g)
    ensures s.found <= r.state.found
    ensures r.hit ==> |r.state.found| > 0
    decreases Nodes(g) - s.visited, 1, |ns| - k
  {
    if k == |ns| then Step(false, s)
    else
      var r := Dfs(g, ns[k], path, s);
      if r.hit then r else Explore(g, node, ns, k + 1, path, r.state)
  }

  /** `for (const nodeId of graph.keys()) if (!visited.has(nodeId)) dfs(nodeId, []);` */
  function Roots(g: Graph, keys: seq<int>, k: nat, s: Search): (r: Search)
    requires k <= |keys|
    requires forall key :: key in keys ==> key in g
    requires s.visited <= Nodes(g)
    ensures s.visited <= r.visited <= Nodes(g)
    ensures s.found <= r.found
    decreases |keys| - k
  {
    if k == |keys| then s
    else if keys[k] !in s.visited then Roots(g, keys, k + 1, Dfs(g, keys[k], [], s).state)
    else Roots(g, keys, k + 1, s)
  }

  /** findCyclicArrows, with `keys` the map's keys in insertion order. */
  function FindCyclicArrows(g: Graph, keys: seq<int>): seq<Ref>
    requires forall key :: key in keys ==> key in g
  {
    Roots(g, keys, 0, Search({}, {}, [])).found
  }

  // ---------------------------------------------------------------------
  // Correctness. While no cycle has been reported the state is "clean":
  // the stack holds exactly the current path, and every finished (visited,
  // off-stack) node has only finished successors and lies on no cycle.

  ghost predicate Finished(s: Search, u: int)
  {
    u in s.visited && u !in s.onStack
  }

  ghost predicate ClosedAt(g: Graph, s: Search, u: int)
  {
    forall v :: v in Neighbors(g, u) ==> Finished(s, v)
  }

  ghost predicate Clean(g: Graph, s: Search, path: seq<int>)
  {
    && s.found == []
    && s.onStack == (set x | x in path)
    && IsWalk(g, path)
    && s.onStack <= s.visited
    && forall u :: Finished(s, u) ==> ClosedAt(g, s, u) && !OnCycle(g, u)
  }

  /** A walk that starts at a finished node stays among finished nodes. */
  lemma {:induction false} WalkStaysFinished(g: Graph, s: Search, w: seq<int>)
    requires |w| >= 1 && IsWalk(g, w) && Finished(s, w[0])
    requires forall u :: Finished(s, u) ==> ClosedAt(g, s, u)
    ensures forall i :: 0 <= i < |w| ==> Finished(s, w[i])
    decreases |w|
  {
    if |w| > 1 {
      assert Edge(g, w[0], w[1]);
      assert w[1] in Neighbors(g, w[0]);
      assert IsWalk(g, w[1..]) by {
        forall i | 0 <= i < |w[1..]| - 1 ensures Edge(g, w[1..][i], w[1..][i + 1]) {
          assert Edge(g, w[i + 1], w[i + 2]);
        }
      }
      WalkStaysFinished(g, s, w[1..]);
      forall i | 0 <= i < |w| ensures Finished(s, w[i]) {
        if i > 0 { assert w[i] == w[1..][i - 1]; }
      }
    }
  }

  /** A node all of whose successors are finished, itself unfinished, lies
      on no cycle. */
  lemma NotOnCycleWhenSuccessorsFinished(g: Graph, s: Search, node: int)
    requires forall u :: Finished(s, u) ==> ClosedAt(g, s, u)
    requires ClosedAt(g, s, node)
    requires !Finished(s, node)
    ensures !OnCycle(g, node)
  {
    forall w | |w| >= 2 && IsWalk(g, w) && w[0] == node ensures w[|w| - 1] != node {
      assert Edge(g, w[0], w[1]);
      assert w[1] in Neighbors(g, node);
      var tail := w[1..];
      assert IsWalk(g, tail) by {
        forall i | 0 <= i < |tail| - 1 ensures Edge(g, tail[i], tail[i + 1]) {
          assert Edge(g, w[i + 1], w[i + 2]);
        }
      }
      WalkStaysFinished(g, s, tail);
      assert Finished(s, tail[|tail| - 1]);
    }
  }

  /** Hitting a node on the clean stack closes a cycle through the path. */
  lemma StackHitIsCycle(g: Graph, path: seq<int>, node: int)
    requires IsWalk(g, path) && node in path
    requires Edge(g, path[|path| - 1], node)
    ensures HasCycle(g)
  {
    var k := IndexOf(path, node);
    var w := path[k..] + [node];
    assert IsWalk(g, w) by {
      forall i | 0 <= i < |w| - 1 ensures Edge(g, w[i], w[i + 1]) {
        if i < |path| - k - 1 {
          assert w[i] == path[k + i] && w[i + 1] == path[k + i + 1];
        } else {
          assert w[i] == path[|path| - 1] && w[i + 1] == node;
        }
      }
    }
    assert |w| >= 2 && w[0] == w[|w| - 1];
  }

  lemma {:induction false} DfsClean(g: Graph, node: int, path: seq<int>, s: Search)
    requires node in Nodes(g) && s.visited <= Nodes(g)
    requires Clean(g, s, path)
    requires |path| > 0 ==> Edge(g, path[|path| - 1], node)
    ensures var r := Dfs(g, node, path, s);
      && (r.hit ==> HasCycle(g))
      && (!r.hit ==> Clean(g, r.state, path) && r.state.onStack == s.onStack && Finished(r.state, node))
    decreases Nodes(g) - s.visited, 0
  {
    var r := Dfs(g, node, path, s);
    if node in s.onStack {
      assert node in path;
      StackHitIsCycle(g, path, node);
    } else if node in s.visited {
    } else {
      var entered := s.(visited := s.visited + {node}, onStack := s.onStack + {node});
      var path' := path + [node];
      assert entered.onStack == (set x | x in path');
      assert IsWalk(g, path') by {
        forall i | 0 <= i < |path'| - 1 ensures Edge(g, path'[i], path'[i + 1]) {
          if i < |path| - 1 { assert path'[i] == path[i] && path'[i + 1] == path[i + 1]; }
        }
      }
      assert forall u :: Finished(entered, u) <==> Finished(s, u);
      assert Clean(g, entered, path');
      NeighborsAreNodes(g, node);
      var ns := Neighbors(g, node);
      assert forall i :: 0 <= i < |ns| ==> Edge(g, node, ns[i]);
      ExploreClean(g, node, ns, 0, path', entered);
      var e := Explore(g, node, ns, 0, path', entered);
      if !e.hit {
        var done := e.state.(onStack := e.state.onStack - {node});
        assert r.state == done;
        assert node !in path;
        assert done.onStack == (set x | x in path);
        assert forall u :: Finished(e.state, u) ==> Finished(done, u);
        assert ClosedAt(g, e.state, node);
        NotOnCycleWhenSuccessorsFinished(g, e.state, node);
        forall u | Finished(done, u) ensures ClosedAt(g, done, u) && !OnCycle(g, u) {
          if u != node {
            assert Finished(e.state, u);
          }
        }
      }
    }
  }

  lemma {:induction false} ExploreClean(g: Graph, node: int, ns: seq<int>, k: nat, path: seq<int>, s: Search)
    requires k <= |ns|
    requires forall v :: v in ns ==> v in Nodes(g)
    requires s.visited <= Nodes(g)
    requires |path| > 0 && path[|path| - 1] == node
    requires forall i :: 0 <= i < |ns| ==> Edge(g, node, ns[i])
    requires forall i :: 0 <= i < k ==> Finished(s, ns[i])
    requires Clean(g, s, path)
    ensures var r := Explore(g, node, ns, k, path, s);
      && (r.hit ==> HasCycle(g))
      && (!r.hit ==> Clean(g, r.state, path) && r.state.onStack == s.onStack
                     && forall i :: 0 <= i < |ns| ==> Finished(r.state, ns[i]))
    decreases Nodes(g) - s.visited, 1, |ns| - k
  {
    if k < |ns| {
      DfsClean(g, ns[k], path, s);
      var d := Dfs(g, ns[k], path, s);
      if !d.hit {
        assert forall i :: 0 <= i <= k ==> Finished(d.state, ns[i]);
        ExploreClean(g, node, ns, k + 1, path, d.state);
      }
    }
  }

  lemma {:induction false} RootsClean(g: Graph, keys: seq<int>, k: nat, s: Search)
    requires k <= |keys|
    requires forall key :: key in keys ==> key in g
    requires s.visited <= Nodes(g)
    requires Clean(g, s, [])
    ensures var r := Roots(g, keys, k, s);
      && (|r.found| > 0 ==> HasCycle(g))
      && (|r.found| == 0 ==> Clean(g, r, []) && forall i :: k <= i < |keys| ==> keys[i] in r.visited)
    decreases |keys| - k
  {
    if k < |keys| {
      if keys[k] !in s.visited {
        DfsClean(g, keys[k], [], s);
        var d := Dfs(g, keys[k], [], s);
        if !d.hit {
          RootsClean(g, keys, k + 1, d.state);
        }
      } else {
        RootsClean(g, keys, k + 1, s);
      }
    }
  }

  /** The search reports something exactly when the graph has a directed
      cycle, provided every key of the map is used as a root. */
  lemma FindCyclicArrowsSpec(g: Graph, keys: seq<int>)
    requires forall key :: key in keys <==> key in g
    ensures |FindCyclicArrows(g, keys)| > 0 <==> HasCycle(g)
  {
    var s0 := Search({}, {}, []);
    assert Clean(g, s0, []);
    RootsClean(g, keys, 0, s0);
    var r := Roots(g, keys, 0, s0);
    if |r.found| == 0 {
      forall w | |w| >= 2 && IsWalk(g, w) ensures w[0] != w[|w| - 1] {
        assert Edge(g, w[0], w[1]);
        assert w[0] in keys;
        var i :| 0 <= i < |keys| && keys[i] == w[0];
        assert Finished(r, w[0]);
        assert !OnCycle(g, w[0]);
      }
    }
  }

  /** A graph without edges has no cycle. */
  lemma NoEdgesNoCycle(g: Graph)
    requires forall k, v :: k in g ==> v !in g[k]
    ensures !HasCycle(g)
  {
    forall w | |w| >= 2 ensures !IsWalk(g, w) {
      assert !Edge(g, w[0], w[1]);
    }
  }
}
