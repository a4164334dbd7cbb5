// The waits-for graph of the lock manager (src/transaction/lock_manager.h:42-45): which
// transaction was last seen waiting for which others. A vertex without an entry and a vertex
// with an empty list mean the same thing, so everything is stated through `Succ`.
module WaitsFor {
  type TxId = nat
  type Graph = map<TxId, seq<TxId>>

  function Succ(g: Graph, u: TxId): seq<TxId> {
    if u in g then g[u] else []
  }

  ghost predicate SameEdges(g: Graph, h: Graph) {
    forall u :: Succ(g, u) == Succ(h, u)
  }

  ghost predicate IsPath(g: Graph, p: seq<TxId>) {
    |p| > 0 && forall i :: 0 <= i < |p| - 1 ==> p[i + 1] in Succ(g, p[i])
  }

  ghost predicate PathBetween(g: Graph, p: seq<TxId>, a: TxId, b: TxId) {
    IsPath(g, p) && p[0] == a && p[|p| - 1] == b
  }

  ghost predicate Reaches(g: Graph, a: TxId, b: TxId) {
    exists p :: PathBetween(g, p, a, b)
  }

  ghost predicate OnCycle(g: Graph, v: TxId) {
    exists p :: PathBetween(g, p, v, v) && |p| >= 2
  }

  ghost predicate CycleReachable(g: Graph, s: TxId) {
    exists v :: Reaches(g, s, v) && OnCycle(g, v)
  }

  ghost predicate Acyclic(g: Graph) {
    forall v :: !OnCycle(g, v)
  }

  /** A set that no edge leaves and that contains no cycle: the finished part of a search. */
  ghost predicate Finished(g: Graph, done: set<TxId>) {
    && (forall d, v :: d in done && v in Succ(g, d) ==> v in done)
    && (forall d :: d in done ==> !OnCycle(g, d))
  }

  lemma SameEdgesSamePaths(g: Graph, h: Graph)
    requires SameEdges(g, h)
    ensures forall p :: IsPath(g, p) <==> IsPath(h, p)
    ensures forall v :: OnCycle(g, v) <==> OnCycle(h, v)
    ensures forall a, b :: Reaches(g, a, b) <==> Reaches(h, a, b)
    ensures forall s :: CycleReachable(g, s) <==> CycleReachable(h, s)
  {
    forall p | IsPath(g, p) ensures IsPath(h, p) {
    }
    forall p | IsPath(h, p) ensures IsPath(g, p) {
    }
    forall p, a, b ensures PathBetween(g, p, a, b) <==> PathBetween(h, p, a, b) {
    }
  }

  lemma {:induction false} PathStaysInside(g: Graph, p: seq<TxId>, inside: set<TxId>)
    requires IsPath(g, p) && p[0] in inside
    requires forall d, v :: d in inside && v in Succ(g, d) ==> v in inside
    ensures forall i :: 0 <= i < |p| ==> p[i] in inside
    decreases |p|
  {
    if |p| > 1 {
      var q := p[1..];
      assert IsPath(g, q) by {
        forall i | 0 <= i < |q| - 1 ensures q[i + 1] in Succ(g, q[i]) {
          assert p[(i + 1) + 1] in Succ(g, p[i + 1]);
        }
      }
      assert p[0 + 1] in Succ(g, p[0]);
      PathStaysInside(g, q, inside);
      forall i | 0 <= i < |p| ensures p[i] in inside {
        if i > 0 { assert p[i] == q[i - 1]; }
      }
    }
  }

  lemma ReachesStaysInside(g: Graph, a: TxId, b: TxId, inside: set<TxId>)
    requires Reaches(g, a, b) && a in inside
    requires forall d, v :: d in inside && v in Succ(g, d) ==> v in inside
    ensures b in inside
  {
    var p :| PathBetween(g, p, a, b);
    PathStaysInside(g, p, inside);
  }

  /** A cycle through `u` leaves `u` by some edge and comes back. */
  lemma CycleReturns(g: Graph, u: TxId) returns (v: TxId)
    requires OnCycle(g, u)
    ensures v in Succ(g, u) && Reaches(g, v, u)
  {
    var p :| PathBetween(g, p, u, u) && |p| >= 2;
    v := p[1];
    assert p[0 + 1] in Succ(g, p[0]);
    var q := p[1..];
    assert PathBetween(g, q, v, u) by {
      forall i | 0 <= i < |q| - 1 ensures q[i + 1] in Succ(g, q[i]) {
        assert p[(i + 1) + 1] in Succ(g, p[i + 1]);
      }
    }
  }

  /** A vertex all of whose successors are finished is on no cycle, so it may be finished too. */
  lemma FinishVertex(g: Graph, done: set<TxId>, u: TxId)
    requires Finished(g, done) && u !in done
    requires forall v :: v in Succ(g, u) ==> v in done
    ensures Finished(g, done + {u})
  {
    if OnCycle(g, u) {
      var v := CycleReturns(g, u);
      ReachesStaysInside(g, v, u, done);
    }
  }

  /** Nothing reachable from a finished vertex lies on a cycle. */
  lemma FinishedHasNoCycle(g: Graph, done: set<TxId>, s: TxId)
    requires Finished(g, done) && s in done
    ensures !CycleReachable(g, s)
  {
    forall v | Reaches(g, s, v) ensures !OnCycle(g, v) {
      ReachesStaysInside(g, s, v, done);
    }
  }

  /** An edge from the end of a path back to one of its vertices closes a cycle reachable from its start. */
  lemma BackEdgeClosesCycle(g: Graph, p: seq<TxId>, v: TxId)
    requires IsPath(g, p) && v in p && v in Succ(g, p[|p| - 1])
    ensures CycleReachable(g, p[0])
  {
    var k :| 0 <= k < |p| && p[k] == v;
    assert PathBetween(g, p[..k + 1], p[0], v);
    var c := p[k..] + [v];
    assert PathBetween(g, c, v, v) by {
      forall i | 0 <= i < |c| - 1 ensures c[i + 1] in Succ(g, c[i]) {
        if i + 1 < |p| - k {
          assert p[(k + i) + 1] in Succ(g, p[k + i]);
        }
      }
    }
    assert OnCycle(g, v);
    assert Reaches(g, p[0], v);
  }

  lemma JoinPaths(g: Graph, p: seq<TxId>, q: seq<TxId>)
    requires IsPath(g, p) && IsPath(g, q) && p[|p| - 1] == q[0]
    ensures PathBetween(g, p + q[1..], p[0], q[|q| - 1])
  {
    var r := p + q[1..];
    forall i | 0 <= i < |r| - 1 ensures r[i + 1] in Succ(g, r[i]) {
      if i + 1 < |p| {
        assert p[i + 1] in Succ(g, p[i]);
      } else {
        assert r[i] == q[i - |p| + 1];
        assert q[(i - |p| + 1) + 1] in Succ(g, q[i - |p| + 1]);
      }
    }
  }

  lemma CycleInSupergraph(g: Graph, h: Graph, p: seq<TxId>, v: TxId)
    requires PathBetween(h, p, v, v) && |p| >= 2
    requires forall i :: 0 <= i < |p| - 1 && p[i + 1] in Succ(h, p[i]) ==> p[i + 1] in Succ(g, p[i])
    ensures OnCycle(g, v)
  {
    assert PathBetween(g, p, v, v);
  }

  /** Dropping edges never creates a cycle. */
  lemma SubgraphOfAcyclic(g: Graph, h: Graph)
    requires Acyclic(g)
    requires forall u, v :: v in Succ(h, u) ==> v in Succ(g, u)
    ensures Acyclic(h)
  {
    forall v ensures !OnCycle(h, v) {
      if p :| PathBetween(h, p, v, v) && |p| >= 2 {
        CycleInSupergraph(g, h, p, v);
      }
    }
  }

  lemma SplitPath(g: Graph, p: seq<TxId>, k: nat)
    requires IsPath(g, p) && k < |p|
    ensures PathBetween(g, p[..k + 1], p[0], p[k]) && PathBetween(g, p[k..], p[k], p[|p| - 1])
  {
    var b := p[k..];
    forall i | 0 <= i < |b| - 1 ensures b[i + 1] in Succ(g, b[i]) {
      assert p[(k + i) + 1] in Succ(g, p[k + i]);
    }
  }

  /** If only the out-edges of `t` changed in an acyclic graph, every cycle now passes through `t`. */
  lemma NewCycleGoesThrough(g: Graph, h: Graph, t: TxId, v: TxId)
    requires Acyclic(g) && (forall u :: u != t ==> Succ(h, u) == Succ(g, u))
    requires OnCycle(h, v)
    ensures OnCycle(h, t) && Reaches(h, v, t)
  {
    hide IsPath;
    var p :| PathBetween(h, p, v, v) && |p| >= 2;
    var n := |p| - 1;
    if k :| 0 <= k < n && p[k] == t {
      var a, b := p[..k + 1], p[k..];
      SplitPath(h, p, k);
      JoinPaths(h, b, a);
      assert |b + a[1..]| >= 2;
    } else {
      CycleInSupergraph(g, h, p, v);
    }
  }
}
