// All simple paths up to a length, by backtracking (src/query/executor.cpp:448-484).
module SimplePaths {
  import opened PathSearch
  import opened Sequences

  const SIZE_RANGE: nat := 0x1_0000_0000_0000_0000

  type Size = n: nat | n < SIZE_RANGE

  /** `max_length + 1` as a size_t. */
  function NodeLimit(maxLength: Size): nat {
    (maxLength + 1) % SIZE_RANGE
  }

  ghost predicate Walk(g: Adjacency, p: seq<NodeId>) {
    forall i :: 0 <= i < |p| - 1 ==> p[i + 1] in Adj(g, p[i])
  }

  /** A simple path of at most `limit` nodes that continues `path` and ends, past its first node, in `to`. */
  ghost predicate Completes(g: Adjacency, path: seq<NodeId>, to: NodeId, limit: nat, p: seq<NodeId>) {
    && path <= p && Walk(g, p) && Distinct(p)
    && 2 <= |p| <= limit && p[|p| - 1] == to
  }

  lemma AdjIsVertex(g: Adjacency, u: NodeId, v: NodeId)
    requires v in Adj(g, u)
    ensures v in Vertices(g)
  {
  }

  ghost function Unused(g: Adjacency, path: seq<NodeId>): set<NodeId> {
    set v | v in Vertices(g) && v !in path
  }

  /** Stepping to a fresh neighbour keeps the path simple and uses up a vertex. */
  lemma StepDown(g: Adjacency, path: seq<NodeId>, v: NodeId)
    requires path != [] && Walk(g, path) && Distinct(path)
    requires v in Adj(g, path[|path| - 1]) && v !in path
    ensures v in Unused(g, path) && Unused(g, path + [v]) < Unused(g, path)
    ensures Walk(g, path + [v]) && Distinct(path + [v])
  {
    AdjIsVertex(g, path[|path| - 1], v);
    assert v in Unused(g, path) && v !in Unused(g, path + [v]);
  }

  /** What the recursion collects below `path`, in order. */
  ghost function Below(g: Adjacency, path: seq<NodeId>, to: NodeId, limit: nat): seq<seq<NodeId>>
    requires path != []
    decreases Unused(g, path), |Adj(g, path[|path| - 1])| + 1
  {
    var current := path[|path| - 1];
    if |path| > limit then []
    else if current == to && |path| > 1 then [path]
    else Through(g, path, Adj(g, current), to, limit)
  }

  ghost function Through(g: Adjacency, path: seq<NodeId>, neighbors: seq<NodeId>, to: NodeId,
                      limit: nat): seq<seq<NodeId>>
    requires path != []
    decreases Unused(g, path), |neighbors|
  {
    if neighbors == [] then []
    else
      var n := |neighbors| - 1;
      var v := neighbors[n];
      Through(g, path, neighbors[..n], to, limit) +
      if v in Unused(g, path) then
        assert Unused(g, path + [v]) < Unused(g, path) by { assert v in Unused(g, path) && v !in Unused(g, path + [v]); }
        Below(g, path + [v], to, limit)
      else []
  }

  lemma {:induction false} BelowExact(g: Adjacency, path: seq<NodeId>, to: NodeId, limit: nat, p: seq<NodeId>)
    requires path != [] && Walk(g, path) && Distinct(path)
    ensures p in Below(g, path, to, limit) <==> Completes(g, path, to, limit, p)
    decreases Unused(g, path), |Adj(g, path[|path| - 1])| + 1
  {
    var n := |path|;
    var current := path[n - 1];
    if n <= limit && !(current == to && n > 1) {
      ThroughExact(g, path, Adj(g, current), to, limit, p);
      if Completes(g, path, to, limit, p) {
        assert p[n - 1] == current;
        assert p[(n - 1) + 1] in Adj(g, p[n - 1]);
      }
    } else if Completes(g, path, to, limit, p) {
      assert p[n - 1] == current;
      assert p == path;
    }
  }

  lemma {:induction false} ThroughExact(g: Adjacency, path: seq<NodeId>, neighbors: seq<NodeId>, to: NodeId,
                                        limit: nat, p: seq<NodeId>)
    requires path != [] && Walk(g, path) && Distinct(path)
    requires forall i :: 0 <= i < |neighbors| ==> neighbors[i] in Adj(g, path[|path| - 1])
    ensures p in Through(g, path, neighbors, to, limit) <==>
            Completes(g, path, to, limit, p) && |p| > |path| && p[|path|] in neighbors
    decreases Unused(g, path), |neighbors|
  {
    if neighbors != [] {
      var n := |neighbors| - 1;
      var v := neighbors[n];
      assert neighbors == neighbors[..n] + [v];
      ThroughExact(g, path, neighbors[..n], to, limit, p);
      AdjIsVertex(g, path[|path| - 1], v);
      if v !in path {
        StepDown(g, path, v);
        BelowExact(g, path + [v], to, limit, p);
      } else if Completes(g, path, to, limit, p) && |p| > |path| {
        assert p[|path|] != v by {
          var i :| 0 <= i < |path| && path[i] == v;
          assert p[i] == v;
        }
      }
    }
  }

  // ----- Order -----

  /** Strictly before, at the first position where the two differ. */
  ghost predicate Before(p: seq<NodeId>, q: seq<NodeId>) {
    exists k :: DifferAt(p, q, k) && p[k] < q[k]
  }

  ghost predicate DifferAt(p: seq<NodeId>, q: seq<NodeId>, k: int) {
    0 <= k < |p| && k < |q| && p[..k] == q[..k]
  }

  ghost predicate InOrder(ps: seq<seq<NodeId>>) {
    forall i, j :: 0 <= i < j < |ps| ==> Before(ps[i], ps[j])
  }

  lemma BeforeIsStrict(p: seq<NodeId>, q: seq<NodeId>)
    requires Before(p, q)
    ensures p != q
  {
  }

  lemma {:induction false} BelowInOrder(g: Adjacency, path: seq<NodeId>, to: NodeId, limit: nat)
    requires path != [] && Walk(g, path) && Distinct(path)
    requires forall u :: u in g ==> Increasing(g[u])
    ensures InOrder(Below(g, path, to, limit))
    decreases Unused(g, path), |Adj(g, path[|path| - 1])| + 1
  {
    var current := path[|path| - 1];
    if |path| <= limit && !(current == to && |path| > 1) {
      ThroughInOrder(g, path, Adj(g, current), to, limit);
    }
  }

  lemma {:induction false} ThroughInOrder(g: Adjacency, path: seq<NodeId>, neighbors: seq<NodeId>, to: NodeId,
                      limit: nat)
    requires path != [] && Walk(g, path) && Distinct(path) && Increasing(neighbors)
    requires forall u :: u in g ==> Increasing(g[u])
    requires forall i :: 0 <= i < |neighbors| ==> neighbors[i] in Adj(g, path[|path| - 1])
    ensures InOrder(Through(g, path, neighbors, to, limit))
    decreases Unused(g, path), |neighbors|
  {
    if neighbors != [] {
      var n := |neighbors| - 1;
      var v := neighbors[n];
      assert neighbors == neighbors[..n] + [v];
      ThroughInOrder(g, path, neighbors[..n], to, limit);
      if v in Unused(g, path) {
        StepDown(g, path, v);
        BelowInOrder(g, path + [v], to, limit);
        EarlierNeighborFirst(g, path, neighbors[..n], v, to, limit);
      }
    }
  }

  lemma EarlierNeighborFirst(g: Adjacency, path: seq<NodeId>, neighbors: seq<NodeId>, v: NodeId, to: NodeId, limit: nat)
    requires path != [] && Walk(g, path) && Distinct(path) && Walk(g, path + [v]) && Distinct(path + [v])
    requires forall i :: 0 <= i < |neighbors| ==> neighbors[i] in Adj(g, path[|path| - 1]) && neighbors[i] < v
    ensures forall p, q :: p in Through(g, path, neighbors, to, limit) && q in Below(g, path + [v], to, limit)
                           ==> Before(p, q)
  {
    forall p, q | p in Through(g, path, neighbors, to, limit) && q in Below(g, path + [v], to, limit)
      ensures Before(p, q)
    {
      ThroughExact(g, path, neighbors, to, limit, p);
      BelowExact(g, path + [v], to, limit, q);
      assert q[|path|] == (path + [v])[|path|];
      assert p[..|path|] == path == q[..|path|];
      assert DifferAt(p, q, |path|);
    }
  }

  lemma ThroughNext(g: Adjacency, path: seq<NodeId>, neighbors: seq<NodeId>, i: nat, to: NodeId, limit: nat)
    requires path != [] && i < |neighbors|
    ensures Through(g, path, neighbors[..i + 1], to, limit) ==
            Through(g, path, neighbors[..i], to, limit) +
            if neighbors[i] in Unused(g, path) then Below(g, path + [neighbors[i]], to, limit) else []
  {
    hide Below;
    assert neighbors[..i + 1][..i] == neighbors[..i];
  }

  lemma BelowUnfolds(g: Adjacency, path: seq<NodeId>, to: NodeId, limit: nat)
    requires path != []
    ensures Below(g, path, to, limit) ==
            if |path| > limit then []
            else if path[|path| - 1] == to && |path| > 1 then [path]
            else Through(g, path, Adj(g, path[|path| - 1]), to, limit)
    ensures Through(g, path, [], to, limit) == []
  {
  }

  // ----- The search as it is written, with one path and one visited set passed by reference -----

  class PathCollector {
    var path: seq<NodeId>
    var visited: set<NodeId>
    var paths: seq<seq<NodeId>>

    constructor (from: NodeId)
      ensures path == [from] && visited == {from} && paths == []
    {
      path, visited, paths := [from], {from}, [];
    }

    /** Every call leaves `path` and `visited` as it found them. */
    method Dfs(g: Adjacency, current: NodeId, to: NodeId, limit: nat)
      requires path != [] && path[|path| - 1] == current && Distinct(path) && Walk(g, path)
      requires forall v :: v in visited <==> v in path
      modifies this
      ensures path == old(path) && visited == old(visited)
      ensures paths == old(paths) + Below(g, path, to, limit)
      decreases Unused(g, path)
    {
      hide Walk, Distinct, Increasing, Below, Through;
      BelowUnfolds(g, path, to, limit);
      if |path| > limit {
        return;
      }
      if current == to && |path| > 1 {
        paths := paths + [path];
        return;
      }
      var neighbors := Adj(g, current);
      for i := 0 to |neighbors|
        invariant path == old(path) && visited == old(visited)
        invariant paths == old(paths) + Through(g, path, neighbors[..i], to, limit)
      {
        var neighbor := neighbors[i];
        ThroughNext(g, path, neighbors, i, to, limit);
        AdjIsVertex(g, current, neighbor);
        if neighbor !in visited {
          StepDown(g, path, neighbor);
          visited := visited + {neighbor};
          path := path + [neighbor];
          Dfs(g, neighbor, to, limit);
          path := path[..|path| - 1];
          visited := visited - {neighbor};
          assert path == old(path) && visited == old(visited);
        }
      }
      assert neighbors[..|neighbors|] == neighbors;
    }
  }

  ghost predicate NoneTwice(ps: seq<seq<NodeId>>) {
    forall i, j :: 0 <= i < j < |ps| ==> ps[i] != ps[j]
  }

  lemma InOrderNoneTwice(ps: seq<seq<NodeId>>)
    requires InOrder(ps)
    ensures NoneTwice(ps)
  {
    forall i, j | 0 <= i < j < |ps| ensures ps[i] != ps[j] {
      BeforeIsStrict(ps[i], ps[j]);
    }
  }

  /** Exactly the simple paths of at most `limit` nodes, in order and none twice when neighbour lists are in order. */
  ghost predicate AreSimplePaths(g: Adjacency, from: NodeId, to: NodeId, limit: nat, paths: seq<seq<NodeId>>) {
    && (forall p :: p in paths <==> IsPath(g, p, from, to) && Distinct(p) && 2 <= |p| <= limit)
    && ((forall u :: u in g ==> Increasing(g[u])) ==> InOrder(paths) && NoneTwice(paths))
  }

  /** `bfs_paths_with_length`. */
  method PathsWithLength(g: Adjacency, from: NodeId, to: NodeId, maxLength: Size) returns (paths: seq<seq<NodeId>>)
    ensures AreSimplePaths(g, from, to, NodeLimit(maxLength), paths)
  {
    var search := new PathCollector(from);
    search.Dfs(g, from, to, NodeLimit(maxLength));
    paths := search.paths;
    assert paths == Below(g, [from], to, NodeLimit(maxLength));
    forall p ensures p in paths <==>
              IsPath(g, p, from, to) && Distinct(p) && 2 <= |p| <= NodeLimit(maxLength)
    {
      BelowExact(g, [from], to, NodeLimit(maxLength), p);
    }
    if forall u :: u in g ==> Increasing(g[u]) {
      BelowInOrder(g, [from], to, NodeLimit(maxLength));
      InOrderNoneTwice(paths);
    }
  }

  ghost predicate SimplePathTo(g: Adjacency, p: seq<NodeId>, from: NodeId, to: NodeId) {
    IsPath(g, p, from, to) && Distinct(p) && |p| >= 2
  }

  /**
   * The bound is honoured, every simple path of at most `maxLength` edges being found, exactly when
   * `max_length + 1` does not wrap or there is nothing to find: at the largest size_t nothing is returned.
   */
  lemma BoundHonouredIff(g: Adjacency, from: NodeId, to: NodeId, maxLength: Size)
    ensures (forall p :: p in Below(g, [from], to, NodeLimit(maxLength)) <==>
                         SimplePathTo(g, p, from, to) && |p| - 1 <= maxLength)
            <==>
            maxLength != SIZE_RANGE - 1 || forall p :: SimplePathTo(g, p, from, to) ==> |p| > SIZE_RANGE
  {
    forall p ensures p in Below(g, [from], to, NodeLimit(maxLength)) <==>
                     SimplePathTo(g, p, from, to) && |p| <= NodeLimit(maxLength)
    {
      BelowExact(g, [from], to, NodeLimit(maxLength), p);
    }
    if maxLength == SIZE_RANGE - 1 {
      assert NodeLimit(maxLength) == 0;
      forall p ensures p !in Below(g, [from], to, NodeLimit(maxLength)) {
      }
    } else {
      assert NodeLimit(maxLength) == maxLength + 1;
    }
  }
}
