// The lock manager: a table of granted requests per resource and a waits-for graph searched for
// cycles before a caller is put to sleep (src/transaction/lock_manager.cpp).
module Locking {
  import opened WaitsFor

  type ResourceId = nat

  datatype LockMode = Shared | Exclusive

  // Every stored request is granted: blocked callers leave nothing in the table.
  datatype LockRequest = LockRequest(tx: TxId, mode: LockMode)

  /** What one pass through the body of `lock` under the mutex ends in. */
  datatype Outcome = Granted | Deadlock | Waiting

  /** The table and, without its empty entries, the waits-for graph. */
  datatype LockState = LockState(table: map<ResourceId, seq<LockRequest>>, waits: Graph)

  predicate Clashes(req: LockRequest, tx: TxId, mode: LockMode) {
    req.tx != tx && (mode.Exclusive? || req.mode.Exclusive?)
  }

  /** The transactions a caller would have to wait for, in table order. */
  function Blockers(reqs: seq<LockRequest>, tx: TxId, mode: LockMode): seq<TxId> {
    if reqs == [] then []
    else
      var last := reqs[|reqs| - 1];
      Blockers(reqs[..|reqs| - 1], tx, mode) + if Clashes(last, tx, mode) then [last.tx] else []
  }

  function Without(reqs: seq<LockRequest>, tx: TxId): seq<LockRequest> {
    if reqs == [] then []
    else
      var last := reqs[|reqs| - 1];
      Without(reqs[..|reqs| - 1], tx) + if last.tx == tx then [] else [last]
  }

  function Requests(s: LockState, r: ResourceId): seq<LockRequest> {
    if r in s.table then s.table[r] else []
  }

  /** One pass through `lock` for a caller that is new or has just been woken. */
  ghost function Attempt(s: LockState, tx: TxId, r: ResourceId, mode: LockMode): (LockState, Outcome) {
    var reqs := Requests(s, r);
    var blockers := Blockers(reqs, tx, mode);
    if blockers == [] then
      (LockState(s.table[r := reqs + [LockRequest(tx, mode)]], s.waits - {tx}), Granted)
    else if CycleReachable(s.waits[tx := blockers], tx) then
      (LockState(s.table[r := reqs], s.waits - {tx}), Deadlock)
    else
      (LockState(s.table[r := reqs], s.waits[tx := blockers]), Waiting)
  }

  function Unlock(s: LockState, tx: TxId, r: ResourceId): LockState {
    if r in s.table then s.(table := s.table[r := Without(s.table[r], tx)]) else s
  }

  function UnlockAll(s: LockState, tx: TxId): LockState {
    LockState(map r | r in s.table :: Without(s.table[r], tx), s.waits - {tx})
  }

  lemma {:induction false} BlockersExact(reqs: seq<LockRequest>, tx: TxId, mode: LockMode, b: TxId)
    ensures b in Blockers(reqs, tx, mode) <==>
            exists i :: 0 <= i < |reqs| && Clashes(reqs[i], tx, mode) && reqs[i].tx == b
  {
    if reqs != [] {
      var n := |reqs| - 1;
      BlockersExact(reqs[..n], tx, mode, b);
      if b in Blockers(reqs[..n], tx, mode) {
        var i :| 0 <= i < n && Clashes(reqs[..n][i], tx, mode) && reqs[..n][i].tx == b;
        assert Clashes(reqs[i], tx, mode) && reqs[i].tx == b;
      }
      if i :| 0 <= i < |reqs| && Clashes(reqs[i], tx, mode) && reqs[i].tx == b {
        if i < n { assert reqs[..n][i] == reqs[i]; }
      }
    }
  }

  lemma {:induction false} WithoutExact(reqs: seq<LockRequest>, tx: TxId, q: LockRequest)
    ensures q in Without(reqs, tx) <==> q in reqs && q.tx != tx
    ensures q.tx != tx ==> multiset(Without(reqs, tx))[q] == multiset(reqs)[q]
  {
    if reqs != [] {
      WithoutExact(reqs[..|reqs| - 1], tx, q);
      assert reqs == reqs[..|reqs| - 1] + [reqs[|reqs| - 1]];
    }
  }

  lemma UnlockAllExact(s: LockState, tx: TxId)
    ensures var after := UnlockAll(s, tx).table;
            && after.Keys == s.table.Keys
            && forall r :: r in after ==> forall q :: q in after[r] <==> q in s.table[r] && q.tx != tx
  {
    hide Without;
    var after := UnlockAll(s, tx).table;
    forall r | r in after ensures forall q :: q in after[r] <==> q in s.table[r] && q.tx != tx {
      forall q ensures q in after[r] <==> q in s.table[r] && q.tx != tx {
        WithoutExact(s.table[r], tx, q);
      }
    }
  }

  function Marked(m: map<TxId, bool>): set<TxId> {
    set u | u in m && m[u]
  }

  /** Reading `m[u]` through operator[] inserts a default entry. */
  function Touch(m: map<TxId, bool>, u: TxId): (r: map<TxId, bool>)
    ensures u in r && Marked(r) == Marked(m) && (u in m ==> r == m)
  {
    if u in m then m else m[u := false]
  }

  function Normal(g: Graph): Graph {
    map u | u in g && g[u] != [] :: g[u]
  }

  ghost function Vertices(g: Graph): set<TxId> {
    (set u | u in g) + (set u, i | u in g && 0 <= i < |g[u]| :: g[u][i])
  }

  /** The recursion stack of the depth-first search is a path, and its marks are exactly its vertices. */
  ghost predicate StackOf(g: Graph, path: seq<TxId>, gray: set<TxId>) {
    && (path != [] ==> IsPath(g, path))
    && (forall u :: u in path <==> u in gray)
  }

  ghost predicate ClosedUniverse(g: Graph, universe: set<TxId>) {
    forall a, b :: a in universe && b in Succ(g, a) ==> b in universe
  }

  lemma PushVertex(g: Graph, path: seq<TxId>, gray: set<TxId>, u: TxId)
    requires StackOf(g, path, gray)
    requires path == [] || u in Succ(g, path[|path| - 1])
    ensures StackOf(g, path + [u], gray + {u})
  {
  }

  lemma NormalSameEdges(g: Graph)
    ensures SameEdges(g, Normal(g))
  {
  }

  lemma NormalErase(g: Graph, u: TxId)
    ensures Normal(g - {u}) == Normal(g) - {u}
  {
  }

  lemma SameEdgesSameNormal(g: Graph, h: Graph)
    requires SameEdges(g, h)
    ensures Normal(g) == Normal(h)
  {
    forall u ensures u in Normal(g) <==> u in Normal(h) {
      assert Succ(g, u) == Succ(h, u);
    }
    forall u | u in Normal(g) ensures Normal(g)[u] == Normal(h)[u] {
      assert Succ(g, u) == Succ(h, u);
    }
  }

  lemma BlockersNonempty(reqs: seq<LockRequest>, tx: TxId, mode: LockMode)
    ensures Blockers(reqs, tx, mode) != [] <==> exists i :: 0 <= i < |reqs| && Clashes(reqs[i], tx, mode)
  {
    if i :| 0 <= i < |reqs| && Clashes(reqs[i], tx, mode) {
      BlockersExact(reqs, tx, mode, reqs[i].tx);
    } else if Blockers(reqs, tx, mode) != [] {
      BlockersExact(reqs, tx, mode, Blockers(reqs, tx, mode)[0]);
    }
  }

  /**
   * A request is granted exactly when no other transaction holds a request there, or all of them and this
   * one are shared. A granted request is recorded, behind those that are there; any other leaves the table
   * with the same requests, and a caller that is to wait records exactly those who hold what it may not share.
   */
  lemma GrantedIff(s: LockState, tx: TxId, r: ResourceId, mode: LockMode)
    ensures var held := if r in s.table then s.table[r] else [];
            var (after, outcome) := Attempt(s, tx, r, mode);
            && (outcome == Granted <==> forall q :: q in held && q.tx != tx ==> mode == Shared && q.mode == Shared)
            && after.table == s.table[r := if outcome == Granted then held + [LockRequest(tx, mode)] else held]
            && after.waits - {tx} == s.waits - {tx}
            && (outcome == Waiting <==> tx in after.waits)
            && (outcome == Waiting ==> forall b :: b in after.waits[tx] <==>
                  exists q :: q in held && q.tx == b && b != tx && (mode == Exclusive || q.mode == Exclusive))
  {
    var held := Requests(s, r);
    BlockersNonempty(held, tx, mode);
    forall b ensures b in Blockers(held, tx, mode) <==>
                     exists q :: q in held && q.tx == b && b != tx && (mode == Exclusive || q.mode == Exclusive)
    {
      BlockersExact(held, tx, mode, b);
      if i :| 0 <= i < |held| && Clashes(held[i], tx, mode) && held[i].tx == b {
        assert held[i] in held;
      }
    }
  }

  lemma SinkHasNoCycle(g: Graph, s: TxId)
    requires Succ(g, s) == []
    ensures !CycleReachable(g, s)
  {
    FinishVertex(g, {}, s);
    FinishedHasNoCycle(g, {s}, s);
  }

  class LockManager {
    var table: map<ResourceId, seq<LockRequest>>
    var waits: Graph

    ghost function State(): LockState
      reads this
    {
      LockState(table, Normal(waits))
    }

    constructor ()
      ensures State() == LockState(map[], map[])
    {
      table, waits := map[], map[];
    }

    /**
     * `has_cycle`. `path` is the recursion stack, `gray` its vertices, `g` the graph without the
     * entries added on the way. Vertices visited and off the stack are finished.
     */
    method HasCycle(u: TxId, visited0: map<TxId, bool>, onStack0: map<TxId, bool>,
                    ghost g: Graph, ghost path: seq<TxId>, ghost gray: set<TxId>, ghost universe: set<TxId>)
      returns (found: bool, visited: map<TxId, bool>, onStack: map<TxId, bool>)
      requires SameEdges(waits, g) && u in universe && ClosedUniverse(g, universe)
      requires gray == Marked(onStack0) <= Marked(visited0) && StackOf(g, path, gray)
      requires Finished(g, Marked(visited0) - gray)
      requires u !in Marked(visited0) && (u !in visited0 ==> Succ(g, u) == [])
      requires path == [] || u in Succ(g, path[|path| - 1])
      modifies this`waits
      ensures SameEdges(waits, g)
      ensures found ==> CycleReachable(g, (path + [u])[0])
      ensures !found ==> gray == Marked(onStack) && Marked(visited0) <= Marked(visited)
      ensures !found ==> Finished(g, Marked(visited) - gray)
      ensures !found && u in visited0 ==> u in Marked(visited) - gray
      decreases universe - Marked(visited0), 0
    {
      hide Finished, StackOf, CycleReachable;
      visited, onStack := visited0, onStack0;
      if u !in visited {
        return false, visited, onStack;
      }
      visited := visited[u := true];
      onStack := onStack[u := true];
      if u !in waits {
        waits := waits[u := []];
      }
      PushVertex(g, path, gray, u);
      ghost var gray1 := gray + {u};
      assert Marked(visited) == Marked(visited0) + {u} && Marked(onStack) == gray1;
      assert Marked(visited) - gray1 == Marked(visited0) - gray;
      var list := waits[u];
      assert list == Succ(waits, u) == Succ(g, u);
      for i := 0 to |list|
        invariant SameEdges(waits, g)
        invariant gray1 == Marked(onStack) <= Marked(visited) && Marked(visited0) <= Marked(visited)
        invariant u in Marked(visited) && Finished(g, Marked(visited) - gray1)
        invariant forall j :: 0 <= j < i ==> list[j] in Marked(visited) - gray1
      {
        assert universe - Marked(visited) < universe - Marked(visited0) by {
          assert u in universe - Marked(visited0);
        }
        assert (path + [u])[0] == (path + [u] + [list[i]])[0];
        found, visited, onStack := Follow(list[i], visited, onStack, g, path + [u], gray1, universe);
        if found {
          return true, visited, onStack;
        }
      }
      FinishVertex(g, Marked(visited) - gray1, u);
      found, onStack := false, onStack[u := false];
      assert Marked(onStack) == gray;
      assert Marked(visited) - gray == (Marked(visited) - gray1) + {u};
    }

    /** The body of the loop in `has_cycle`: one edge from the vertex on top of the stack to `v`. */
    method Follow(v: TxId, visited0: map<TxId, bool>, onStack0: map<TxId, bool>,
                  ghost g: Graph, ghost path: seq<TxId>, ghost gray: set<TxId>, ghost universe: set<TxId>)
      returns (found: bool, visited: map<TxId, bool>, onStack: map<TxId, bool>)
      requires SameEdges(waits, g) && v in universe && ClosedUniverse(g, universe)
      requires gray == Marked(onStack0) <= Marked(visited0) && StackOf(g, path, gray)
      requires Finished(g, Marked(visited0) - gray)
      requires path != [] && v in Succ(g, path[|path| - 1])
      modifies this`waits
      ensures SameEdges(waits, g)
      ensures found ==> CycleReachable(g, path[0])
      ensures !found ==> gray == Marked(onStack) && Marked(visited0) <= Marked(visited)
      ensures !found ==> Finished(g, Marked(visited) - gray) && v in Marked(visited) - gray
      decreases universe - Marked(visited0), 1
    {
      visited, onStack := Touch(visited0, v), onStack0;
      if !visited[v] {
        found, visited, onStack := HasCycle(v, visited, onStack, g, path, gray, universe);
        assert (path + [v])[0] == path[0];
      } else {
        onStack := Touch(onStack, v);
        found := onStack[v];
        if found {
          BackEdgeClosesCycle(g, path, v);
        }
      }
    }

    /** `detect_deadlock` is exact, although the search leaves empty entries in the graph. */
    method DetectDeadlock(start: TxId) returns (found: bool)
      modifies this`waits
      ensures Normal(waits) == old(Normal(waits))
      ensures found <==> CycleReachable(waits, start)
    {
      ghost var g := waits;
      var visited: map<TxId, bool>, onStack: map<TxId, bool> := map[], map[];
      var todo := waits.Keys;
      while todo != {}
        invariant todo <= waits.Keys && visited.Keys == onStack.Keys == waits.Keys - todo
        invariant Marked(visited) == {} && Marked(onStack) == {}
      {
        var u :| u in todo;
        visited, onStack := visited[u := false], onStack[u := false];
        todo := todo - {u};
      }
      found, visited, onStack := HasCycle(start, visited, onStack, g, [], {}, Vertices(g) + {start});
      SameEdgesSamePaths(waits, g);
      SameEdgesSameNormal(waits, g);
      if !found {
        if start !in g {
          SinkHasNoCycle(g, start);
        } else {
          FinishedHasNoCycle(g, Marked(visited) - {}, start);
        }
      }
    }

    /** The blocked part of that pass: record whom `tx` waits for, and withdraw if that closes a cycle. */
    method WaitOrRefuse(tx: TxId, blockers: seq<TxId>) returns (outcome: Outcome)
      requires blockers != []
      modifies this`waits
      ensures var asked := old(Normal(waits))[tx := blockers];
              if CycleReachable(asked, tx)
              then outcome == Deadlock && Normal(waits) == old(Normal(waits)) - {tx}
              else outcome == Waiting && Normal(waits) == asked
    {
      ghost var before := Normal(waits);
      waits := waits[tx := blockers];
      assert Normal(waits) == before[tx := blockers];
      var deadlock := DetectDeadlock(tx);
      NormalSameEdges(waits);
      SameEdgesSamePaths(waits, Normal(waits));
      if deadlock {
        NormalErase(waits, tx);
        waits := waits - {tx};
        assert before[tx := blockers] - {tx} == before - {tx};
        return Deadlock;
      }
      return Waiting;
    }

    /** One pass through `lock`. On `Waiting` the caller sleeps and calls this again when woken. */
    method TryLock(tx: TxId, r: ResourceId, mode: LockMode) returns (outcome: Outcome)
      modifies this
      ensures (State(), outcome) == Attempt(old(State()), tx, r, mode)
      ensures var held := if r in old(table) then old(table)[r] else [];
              && (outcome == Granted <==> forall q :: q in held && q.tx != tx ==> mode == Shared && q.mode == Shared)
              && table == old(table)[r := if outcome == Granted then held + [LockRequest(tx, mode)] else held]
    {
      ghost var s := State();
      GrantedIff(s, tx, r, mode);
      if r !in table {
        table := table[r := []];
      }
      var requests := table[r];
      assert table == s.table[r := Requests(s, r)] && s.waits == Normal(waits);
      BlockersNonempty(requests, tx, mode);
      var conflict := false;
      for i := 0 to |requests|
        invariant conflict <==> exists j :: 0 <= j < i && Clashes(requests[j], tx, mode)
      {
        if Clashes(requests[i], tx, mode) {
          conflict := true;
          break;
        }
      }
      if conflict {
        var blockers: seq<TxId> := [];
        for i := 0 to |requests|
          invariant blockers == Blockers(requests[..i], tx, mode)
        {
          assert requests[..i + 1][..i] == requests[..i];
          if Clashes(requests[i], tx, mode) {
            blockers := blockers + [requests[i].tx];
          }
        }
        assert requests[..|requests|] == requests;
        outcome := WaitOrRefuse(tx, blockers);
        return;
      }
      table := table[r := requests + [LockRequest(tx, mode)]];
      assert table == s.table[r := requests + [LockRequest(tx, mode)]];
      NormalErase(waits, tx);
      waits := waits - {tx};
      return Granted;
    }

    /** Returns whether sleepers are notified: only when the resource has an entry. */
    method Release(tx: TxId, r: ResourceId) returns (notify: bool)
      modifies this`table
      ensures State() == Unlock(old(State()), tx, r)
      ensures notify <==> r in old(table)
      ensures table.Keys == old(table).Keys && forall k :: k in table && k != r ==> table[k] == old(table)[k]
      ensures r in table ==> forall q :: q in table[r] <==> q in old(table)[r] && q.tx != tx
    {
      notify := r in table;
      if notify {
        var kept := RemoveIf(table[r], tx);
        forall q ensures q in kept <==> q in table[r] && q.tx != tx {
          WithoutExact(table[r], tx, q);
        }
        table := table[r := kept];
      }
    }

    method ReleaseAll(tx: TxId)
      modifies this
      ensures State() == UnlockAll(old(State()), tx)
      ensures table.Keys == old(table).Keys && tx !in waits
      ensures forall r :: r in table ==> forall q :: q in table[r] <==> q in old(table)[r] && q.tx != tx
    {
      hide Without;
      ghost var s := State();
      ghost var before := table;
      var todo := table.Keys;
      while todo != {}
        invariant waits == old(waits) && table.Keys == before.Keys && todo <= before.Keys
        invariant forall r :: r in before ==>
                    table[r] == if r in todo then before[r] else Without(before[r], tx)
      {
        var r :| r in todo;
        var kept := RemoveIf(table[r], tx);
        table := table[r := kept];
        todo := todo - {r};
      }
      assert table == UnlockAll(s, tx).table;
      UnlockAllExact(s, tx);
      NormalErase(waits, tx);
      waits := waits - {tx};
    }
  }

  method RemoveIf(requests: seq<LockRequest>, tx: TxId) returns (kept: seq<LockRequest>)
    ensures kept == Without(requests, tx)
  {
    kept := [];
    for i := 0 to |requests|
      invariant kept == Without(requests[..i], tx)
    {
      assert requests[..i + 1][..i] == requests[..i];
      if requests[i].tx != tx {
        kept := kept + [requests[i]];
      }
    }
    assert requests[..|requests|] == requests;
  }
}
