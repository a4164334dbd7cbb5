// Path queries over the undirected neighbour lists of the store (src/query/executor.cpp:402-484).
module PathSearch {
  type NodeId = nat

  /** Neighbour lists as get_adjacent_nodes returns them; a node without edges has none. */
  type Adjacency = map<NodeId, seq<NodeId>>

  function Adj(g: Adjacency, u: NodeId): seq<NodeId> {
    if u in g then g[u] else []
  }

  ghost predicate IsPath(g: Adjacency, p: seq<NodeId>, a: NodeId, b: NodeId) {
    && |p| > 0 && p[0] == a && p[|p| - 1] == b
    && forall i :: 0 <= i < |p| - 1 ==> p[i + 1] in Adj(g, p[i])
  }

  ghost predicate Closed(g: Adjacency, universe: set<NodeId>) {
    forall u, v :: u in universe && v in Adj(g, u) ==> v in universe
  }

  ghost function Vertices(g: Adjacency): set<NodeId> {
    (set u | u in g) + (set u, i | u in g && 0 <= i < |g[u]| :: g[u][i])
  }

  // ----- Breadth-first shortest path -----

  /** A visited node other than the start has a visited parent one step nearer to the start. */
  ghost predicate TreeEdge(g: Adjacency, from: NodeId, parent: map<NodeId, NodeId>, dist: map<NodeId, nat>, v: NodeId)
    requires v in dist
  {
    v == from ||
    (v in parent && parent[v] in dist && v in Adj(g, parent[v]) && dist[v] == dist[parent[v]] + 1)
  }

  ghost predicate ParentTree(g: Adjacency, from: NodeId, parent: map<NodeId, NodeId>, dist: map<NodeId, nat>) {
    && from in dist && dist[from] == 0
    && (forall v {:trigger TreeEdge(g, from, parent, dist, v)} :: v in dist ==> TreeEdge(g, from, parent, dist, v))
  }

  /** All neighbours of a processed node are visited, at most one step farther away. */
  ghost predicate Explored(g: Adjacency, done: set<NodeId>, dist: map<NodeId, nat>) {
    forall u, v :: u in done && u in dist && v in Adj(g, u) ==> v in dist && dist[v] <= dist[u] + 1
  }

  /** The queue holds the visited, unprocessed nodes once each, by distance, none nearer than `level`. */
  ghost predicate QueueInOrder(queue: seq<NodeId>, dist: map<NodeId, nat>, level: nat) {
    && (forall i, j :: 0 <= i < j < |queue| ==> queue[i] != queue[j])
    && (forall i :: 0 <= i < |queue| ==> queue[i] in dist && level <= dist[queue[i]])
    && (forall i, j :: 0 <= i <= j < |queue| ==> dist[queue[i]] <= dist[queue[j]])
    && (forall v :: v in dist ==> dist[v] <= level + 1)
  }

  /** The state of the search while `current` (none between rounds) is being expanded. */
  ghost predicate Searching(g: Adjacency, from: NodeId, queue: seq<NodeId>, parent: map<NodeId, NodeId>,
                            dist: map<NodeId, nat>, done: set<NodeId>, current: set<NodeId>, level: nat) {
    && ParentTree(g, from, parent, dist)
    && QueueInOrder(queue, dist, level)
    && Explored(g, done, dist)
    && done <= dist.Keys
    && (forall v :: v in dist && v !in done <==> v in queue || v in current)
    && (forall v :: v in current ==> v in dist && dist[v] == level && v !in queue)
  }

  lemma JoinQueue(queue: seq<NodeId>, dist: map<NodeId, nat>, level: nat, v: NodeId)
    requires QueueInOrder(queue, dist, level) && v !in dist
    ensures QueueInOrder(queue + [v], dist[v := level + 1], level)
  {
    var queue', dist' := queue + [v], dist[v := level + 1];
    forall i | 0 <= i < |queue'| ensures queue'[i] in dist' && level <= dist'[queue'[i]] <= level + 1 {
    }
    forall i, j | 0 <= i <= j < |queue'| ensures dist'[queue'[i]] <= dist'[queue'[j]] {
      if j < |queue| {
        assert queue'[i] == queue[i] && queue'[j] == queue[j];
      }
    }
  }

  lemma JoinTree(g: Adjacency, from: NodeId, parent: map<NodeId, NodeId>, dist: map<NodeId, nat>,
                 current: NodeId, v: NodeId)
    requires ParentTree(g, from, parent, dist) && current in dist && v in Adj(g, current) && v !in dist
    ensures ParentTree(g, from, parent[v := current], dist[v := dist[current] + 1])
  {
    forall w | w in dist && w != v
      ensures TreeEdge(g, from, parent[v := current], dist[v := dist[current] + 1], w)
    {
      assert TreeEdge(g, from, parent, dist, w);
    }
  }

  /** A neighbour seen for the first time joins the end of the queue one level down. */
  lemma Discover(g: Adjacency, from: NodeId, queue: seq<NodeId>, parent: map<NodeId, NodeId>,
                 dist: map<NodeId, nat>, done: set<NodeId>, current: NodeId, level: nat, v: NodeId)
    requires Searching(g, from, queue, parent, dist, done, {current}, level)
    requires v in Adj(g, current) && v !in dist
    ensures Searching(g, from, queue + [v], parent[v := current], dist[v := level + 1], done, {current}, level)
  {
    assert current in {current};
    JoinQueue(queue, dist, level, v);
    JoinTree(g, from, parent, dist, current, v);
    assert Explored(g, done, dist[v := level + 1]);
  }

  lemma PopFront(g: Adjacency, from: NodeId, queue: seq<NodeId>, parent: map<NodeId, NodeId>,
                 dist: map<NodeId, nat>, done: set<NodeId>, level: nat)
    requires Searching(g, from, queue, parent, dist, done, {}, level) && queue != []
    ensures Searching(g, from, queue[1..], parent, dist, done, {queue[0]}, dist[queue[0]])
  {
    var rest := queue[1..];
    assert QueueInOrder(rest, dist, dist[queue[0]]) by {
      forall i | 0 <= i < |rest| ensures rest[i] == queue[i + 1] && dist[queue[0]] <= dist[rest[i]] {
      }
    }
    assert queue == [queue[0]] + rest;
  }

  lemma FinishNode(g: Adjacency, from: NodeId, queue: seq<NodeId>, parent: map<NodeId, NodeId>,
                   dist: map<NodeId, nat>, done: set<NodeId>, current: NodeId, level: nat)
    requires Searching(g, from, queue, parent, dist, done, {current}, level)
    requires forall v :: v in Adj(g, current) ==> v in dist
    ensures Searching(g, from, queue, parent, dist, done + {current}, {}, level) && current in dist.Keys - done
  {
    assert current in {current};
  }

  /** Until the target is visited, no path to it is short enough to have been explored. */
  lemma TargetIsFarther(g: Adjacency, from: NodeId, queue: seq<NodeId>, parent: map<NodeId, NodeId>,
                        dist: map<NodeId, nat>, done: set<NodeId>, current: set<NodeId>, level: nat, to: NodeId)
    requires Searching(g, from, queue, parent, dist, done, current, level) && to !in dist
    ensures forall p :: IsPath(g, p, from, to) ==> |p| >= level + 2
  {
    forall p | IsPath(g, p, from, to) ensures |p| >= level + 2 {
      if |p| - 1 <= level {
        ShortPathsAreVisited(g, from, done, dist, level, p, to);
      }
    }
  }

  /** While only nodes at distance `level` or more are unprocessed, every path of that length ends visited. */
  lemma {:induction false} ShortPathsAreVisited(g: Adjacency, from: NodeId, done: set<NodeId>, dist: map<NodeId, nat>,
                                                level: nat, p: seq<NodeId>, x: NodeId)
    requires from in dist && dist[from] == 0 && Explored(g, done, dist)
    requires forall v :: v in dist && v !in done ==> dist[v] >= level
    requires IsPath(g, p, from, x) && |p| - 1 <= level
    ensures x in dist && dist[x] <= |p| - 1
    decreases |p|
  {
    if |p| > 1 {
      var q := p[..|p| - 1];
      ShortPathsAreVisited(g, from, done, dist, level, q, q[|q| - 1]);
      assert p[|q| - 1 + 1] in Adj(g, p[|q| - 1]);
    }
  }

  lemma {:induction false} ClosedHoldsPath(g: Adjacency, inside: set<NodeId>, p: seq<NodeId>, a: NodeId, b: NodeId)
    requires IsPath(g, p, a, b) && a in inside && Closed(g, inside)
    ensures b in inside
    decreases |p|
  {
    if |p| > 1 {
      var q := p[..|p| - 1];
      ClosedHoldsPath(g, inside, q, a, q[|q| - 1]);
      assert p[|q| - 1 + 1] in Adj(g, p[|q| - 1]);
    }
  }

  /** The parent walk at the end of bfs_shortest_path. */
  method Reconstruct(g: Adjacency, from: NodeId, to: NodeId, parent: map<NodeId, NodeId>, ghost dist: map<NodeId, nat>)
    returns (path: seq<NodeId>)
    requires ParentTree(g, from, parent, dist) && to in dist
    ensures IsPath(g, path, from, to) && |path| == dist[to] + 1
  {
    var reversed: seq<NodeId> := [];
    var node := to;
    ghost var tail: seq<NodeId> := [];
    while node != from
      invariant node in dist && |tail| == |reversed| == dist[to] - dist[node]
      invariant IsPath(g, [node] + tail, node, to)
      invariant forall i :: 0 <= i < |tail| ==> reversed[i] == tail[|tail| - 1 - i]
      decreases dist[node]
    {
      assert TreeEdge(g, from, parent, dist, node);
      reversed := reversed + [node];
      tail := [node] + tail;
      node := parent[node];
      assert IsPath(g, [node] + tail, node, to) by {
        forall i | 0 <= i < |tail| ensures ([node] + tail)[i + 1] in Adj(g, ([node] + tail)[i]) {
          if i > 0 {
            assert tail[(i - 1) + 1] in Adj(g, tail[i - 1]);
          }
        }
      }
    }
    reversed := reversed + [from];
    path := Reverse(reversed);
    assert path == [from] + tail;
  }

  method Reverse(s: seq<NodeId>) returns (r: seq<NodeId>)
    ensures |r| == |s| && forall i :: 0 <= i < |s| ==> r[i] == s[|s| - 1 - i]
  {
    r := [];
    for i := 0 to |s|
      invariant |r| == i && forall j :: 0 <= j < i ==> r[j] == s[i - 1 - j]
    {
      r := [s[i]] + r;
    }
  }

  /** The inner loop: visit the neighbours of `current`, stopping at the target. */
  method Expand(g: Adjacency, from: NodeId, to: NodeId, current: NodeId, queue0: seq<NodeId>, visited0: set<NodeId>,
                parent0: map<NodeId, NodeId>, ghost dist0: map<NodeId, nat>, ghost done: set<NodeId>, ghost level: nat)
    returns (found: bool, queue: seq<NodeId>, visited: set<NodeId>, parent: map<NodeId, NodeId>,
             ghost dist: map<NodeId, nat>)
    requires visited0 == dist0.Keys && to !in visited0
    requires Searching(g, from, queue0, parent0, dist0, done, {current}, level)
    ensures visited == dist.Keys && (found <==> to in visited)
    ensures forall v :: v in visited ==> v in visited0 || v in Adj(g, current)
    ensures if found then ParentTree(g, from, parent, dist) && dist[to] == level + 1
                          && forall p :: IsPath(g, p, from, to) ==> |p| >= level + 2
            else Searching(g, from, queue, parent, dist, done + {current}, {}, level)
  {
    hide ParentTree, IsPath;
    found, queue, visited, parent, dist := false, queue0, visited0, parent0, dist0;
    var neighbors := Adj(g, current);
    for i := 0 to |neighbors|
      invariant visited == dist.Keys && to !in visited
      invariant forall v :: v in visited ==> v in visited0 || v in neighbors
      invariant Searching(g, from, queue, parent, dist, done, {current}, level)
      invariant forall j :: 0 <= j < i ==> neighbors[j] in visited
    {
      var neighbor := neighbors[i];
      if neighbor !in visited {
        Discover(g, from, queue, parent, dist, done, current, level, neighbor);
        TargetIsFarther(g, from, queue, parent, dist, done, {current}, level, to);
        visited := visited + {neighbor};
        parent := parent[neighbor := current];
        queue := queue + [neighbor];
        dist := dist[neighbor := level + 1];
        if neighbor == to {
          found := true;
          return;
        }
      }
    }
    FinishNode(g, from, queue, parent, dist, done, current, level);
  }

  /** Empty exactly when there is no path, otherwise a path no other is shorter than. */
  ghost predicate IsShortest(g: Adjacency, from: NodeId, to: NodeId, path: seq<NodeId>) {
    && (path == [] <==> forall p :: !IsPath(g, p, from, to))
    && (path != [] ==> IsPath(g, path, from, to) && forall p :: IsPath(g, p, from, to) ==> |path| <= |p|)
  }

  /** `bfs_shortest_path`. */
  method ShortestPath(g: Adjacency, from: NodeId, to: NodeId) returns (path: seq<NodeId>)
    ensures IsShortest(g, from, to, path)
  {
    if from == to {
      path := [from];
      assert IsPath(g, path, from, to);
      return;
    }
    var queue := [from];
    var visited := {from};
    var parent: map<NodeId, NodeId> := map[];
    ghost var dist: map<NodeId, nat> := map[from := 0];
    ghost var done: set<NodeId> := {};
    ghost var level := 0;
    ghost var universe := Vertices(g) + {from};
    while queue != []
      invariant visited == dist.Keys && to !in visited && visited <= universe && Closed(g, universe)
      invariant Searching(g, from, queue, parent, dist, done, {}, level)
      decreases universe - done
    {
      PopFront(g, from, queue, parent, dist, done, level);
      var current := queue[0];
      queue := queue[1..];
      level := dist[current];
      assert current in {current} && current in universe - done;
      var found;
      found, queue, visited, parent, dist := Expand(g, from, to, current, queue, visited, parent, dist, done, level);
      if found {
        path := Reconstruct(g, from, to, parent, dist);
        return;
      }
      done := done + {current};
    }
    forall p ensures !IsPath(g, p, from, to) {
      if IsPath(g, p, from, to) {
        ClosedHoldsPath(g, done, p, from, to);
      }
    }
    path := [];
  }
}
