// Every interleaving of calls on the lock manager: each step is one pass under its mutex
// (src/transaction/lock_manager.cpp:6-71). A transaction has at most one call in flight, so a
// sleeping transaction only wakes; spurious wake-ups are included.
module LockProtocol {
  import opened Sequences
  import opened WaitsFor
  import opened Locking

  /** A caller inside `cv_.wait`; `notified` once a notify_all has been issued since it slept. */
  datatype Sleeper = Sleeper(r: ResourceId, mode: LockMode, notified: bool)

  datatype System = System(locks: LockState, asleep: map<TxId, Sleeper>)

  datatype Step =
    | Lock(tx: TxId, r: ResourceId, mode: LockMode)
    | Wake(tx: TxId)
    | Unlock(tx: TxId, r: ResourceId)
    | UnlockAll(tx: TxId)

  const Initial := System(LockState(map[], map[]), map[])

  predicate Allowed(s: System, step: Step) {
    step.Wake? <==> step.tx in s.asleep
  }

  function NotifyAll(asleep: map<TxId, Sleeper>): map<TxId, Sleeper> {
    map t | t in asleep :: asleep[t].(notified := true)
  }

  ghost function Pass(s: System, tx: TxId, r: ResourceId, mode: LockMode): System {
    var (locks, outcome) := Attempt(s.locks, tx, r, mode);
    System(locks, if outcome.Waiting? then s.asleep[tx := Sleeper(r, mode, false)] else s.asleep - {tx})
  }

  ghost function Apply(s: System, step: Step): System
    requires Allowed(s, step)
  {
    match step
    case Lock(tx, r, mode) => Pass(s, tx, r, mode)
    case Wake(tx) => Pass(s, tx, s.asleep[tx].r, s.asleep[tx].mode)
    case Unlock(tx, r) =>
      if r in s.locks.table then System(Locking.Unlock(s.locks, tx, r), NotifyAll(s.asleep)) else s
    case UnlockAll(tx) => System(Locking.UnlockAll(s.locks, tx), NotifyAll(s.asleep))
  }

  /** `u` holds a lock on the resource `t` sleeps on, in a mode that excludes `t`. */
  predicate Excludes(s: System, u: TxId, t: TxId) {
    t in s.asleep &&
    exists q :: q in Requests(s.locks, s.asleep[t].r) && q.tx == u && Clashes(q, t, s.asleep[t].mode)
  }

  /** Asleep with no wake-up on the way. */
  predicate Blocked(s: System, t: TxId) {
    t in s.asleep && !s.asleep[t].notified
  }

  /** Different transactions share a resource only in shared mode. */
  ghost predicate Compatible(s: LockState) {
    forall r, p, q :: p in Requests(s, r) && q in Requests(s, r) && p.tx != q.tx
                      ==> p.mode == Shared && q.mode == Shared
  }

  /**
   * Locks are compatible, the recorded graph is acyclic, every sleeper has recorded somebody, and the
   * edges of a blocked sleeper still name holders that exclude it.
   */
  ghost predicate Inv(s: System) {
    && Compatible(s.locks)
    && Acyclic(s.locks.waits)
    && (forall t :: t in s.asleep ==> Succ(s.locks.waits, t) != [])
    && (forall t, u :: Blocked(s, t) && u in Succ(s.locks.waits, t) ==> Excludes(s, u, t))
  }

  lemma CompatibleAfterGrant(s: LockState, tx: TxId, r: ResourceId, mode: LockMode)
    requires Compatible(s) && Blockers(Requests(s, r), tx, mode) == []
    ensures Compatible(s.(table := s.table[r := Requests(s, r) + [LockRequest(tx, mode)]]))
  {
    var reqs := Requests(s, r);
    var s' := s.(table := s.table[r := reqs + [LockRequest(tx, mode)]]);
    BlockersNonempty(reqs, tx, mode);
    forall k, p, q | p in Requests(s', k) && q in Requests(s', k) && p.tx != q.tx
      ensures p.mode == Shared && q.mode == Shared
    {
      if p !in Requests(s, k) {
        assert p == LockRequest(tx, mode) && !Clashes(q, tx, mode);
      } else if q !in Requests(s, k) {
        assert q == LockRequest(tx, mode) && !Clashes(p, tx, mode);
      }
    }
  }

  /** Requests only grow during a pass, so what blocks the other sleepers still does. */
  lemma PassKeepsBlockers(s: System, tx: TxId, r: ResourceId, mode: LockMode)
    requires Inv(s)
    ensures var s' := Pass(s, tx, r, mode);
            forall t, u :: t != tx && Blocked(s', t) && u in Succ(s'.locks.waits, t) ==> Excludes(s', u, t)
  {
    var s' := Pass(s, tx, r, mode);
    forall t, u | t != tx && Blocked(s', t) && u in Succ(s'.locks.waits, t) ensures Excludes(s', u, t) {
      assert Blocked(s, t) && u in Succ(s.locks.waits, t);
      assert Excludes(s, u, t);
      var q :| q in Requests(s.locks, s.asleep[t].r) && q.tx == u && Clashes(q, t, s.asleep[t].mode);
      assert q in Requests(s'.locks, s'.asleep[t].r);
    }
  }

  lemma PassKeepsAcyclic(s: System, tx: TxId, r: ResourceId, mode: LockMode)
    requires Inv(s)
    ensures Acyclic(Pass(s, tx, r, mode).locks.waits)
  {
    var g := s.locks.waits;
    SubgraphOfAcyclic(g, g - {tx});
    var h := g[tx := Blockers(Requests(s.locks, r), tx, mode)];
    if !CycleReachable(h, tx) {
      assert PathBetween(h, [tx], tx, tx);
      forall v ensures !OnCycle(h, v) {
        if OnCycle(h, v) {
          NewCycleGoesThrough(g, h, tx, v);
        }
      }
    }
  }

  lemma PassKeepsCompatible(s: System, tx: TxId, r: ResourceId, mode: LockMode)
    requires Compatible(s.locks)
    ensures Compatible(Pass(s, tx, r, mode).locks)
  {
    var s' := Pass(s, tx, r, mode);
    var reqs := Requests(s.locks, r);
    if Blockers(reqs, tx, mode) == [] {
      CompatibleAfterGrant(s.locks, tx, r, mode);
      var granted := s.locks.(table := s.locks.table[r := reqs + [LockRequest(tx, mode)]]);
      assert forall k :: Requests(s'.locks, k) == Requests(granted, k);
    } else {
      assert forall k :: Requests(s'.locks, k) == Requests(s.locks, k);
    }
  }

  lemma PassRecordsBlockers(s: System, tx: TxId, r: ResourceId, mode: LockMode)
    ensures var s' := Pass(s, tx, r, mode);
            forall u :: tx in s'.asleep && u in Succ(s'.locks.waits, tx) ==> Excludes(s', u, tx)
  {
    var s' := Pass(s, tx, r, mode);
    var reqs := Requests(s.locks, r);
    forall u | tx in s'.asleep && u in Succ(s'.locks.waits, tx) ensures Excludes(s', u, tx) {
      BlockersExact(reqs, tx, mode, u);
      var i :| 0 <= i < |reqs| && Clashes(reqs[i], tx, mode) && reqs[i].tx == u;
      assert reqs[i] in Requests(s'.locks, r);
    }
  }

  lemma PassKeepsInv(s: System, tx: TxId, r: ResourceId, mode: LockMode)
    requires Inv(s)
    ensures Inv(Pass(s, tx, r, mode))
  {
    PassKeepsCompatible(s, tx, r, mode);
    PassKeepsAcyclic(s, tx, r, mode);
    PassKeepsBlockers(s, tx, r, mode);
    PassRecordsBlockers(s, tx, r, mode);
  }

  lemma ReleaseKeepsInv(s: System, step: Step)
    requires Inv(s) && Allowed(s, step) && (step.Unlock? || step.UnlockAll?)
    ensures Inv(Apply(s, step))
  {
    hide Acyclic, Excludes;
    var s' := Apply(s, step);
    ReleaseKeepsCompatible(s, step);
    SubgraphOfAcyclic(s.locks.waits, s.locks.waits - {step.tx});
    assert forall t :: s' != s ==> !Blocked(s', t);
  }

  lemma ReleaseShrinks(s: System, step: Step, r: ResourceId, q: LockRequest)
    requires Allowed(s, step) && (step.Unlock? || step.UnlockAll?)
    ensures q in Requests(Apply(s, step).locks, r) ==> q in Requests(s.locks, r)
  {
    WithoutExact(Requests(s.locks, r), step.tx, q);
  }

  lemma ReleaseKeepsCompatible(s: System, step: Step)
    requires Compatible(s.locks) && Allowed(s, step) && (step.Unlock? || step.UnlockAll?)
    ensures Compatible(Apply(s, step).locks)
  {
    hide Apply;
    var s' := Apply(s, step);
    forall r, p, q | p in Requests(s'.locks, r) && q in Requests(s'.locks, r) && p.tx != q.tx
      ensures p.mode == Shared && q.mode == Shared
    {
      ReleaseShrinks(s, step, r, p);
      ReleaseShrinks(s, step, r, q);
    }
  }

  lemma StepKeepsInv(s: System, step: Step)
    requires Inv(s) && Allowed(s, step)
    ensures Inv(Apply(s, step))
  {
    match step
    case Lock(tx, r, mode) => PassKeepsInv(s, tx, r, mode);
    case Wake(tx) => PassKeepsInv(s, tx, s.asleep[tx].r, s.asleep[tx].mode);
    case Unlock(_, _) => ReleaseKeepsInv(s, step);
    case UnlockAll(_) => ReleaseKeepsInv(s, step);
  }

  ghost predicate Next(s: System, s': System) {
    exists step :: Allowed(s, step) && s' == Apply(s, step)
  }

  ghost predicate Run(trace: seq<System>) {
    |trace| > 0 && trace[0] == Initial && forall i :: 0 <= i < |trace| - 1 ==> Next(trace[i], trace[i + 1])
  }

  /** Safety over whole runs. */
  lemma {:induction false} RunKeepsInv(trace: seq<System>, i: nat)
    requires Run(trace) && i < |trace|
    ensures Inv(trace[i])
  {
    if i == 0 {
      forall v ensures !OnCycle(map[], v) {
        SinkHasNoCycle(map[], v);
        assert PathBetween(map[], [v], v, v);
      }
    } else {
      RunKeepsInv(trace, i - 1);
      assert Next(trace[i - 1], trace[(i - 1) + 1]);
      var step :| Allowed(trace[i - 1], step) && trace[i] == Apply(trace[i - 1], step);
      StepKeepsInv(trace[i - 1], step);
    }
  }

  /** In every state of every run different transactions hold the same resource only in shared mode. */
  lemma ExclusiveOverRuns(trace: seq<System>, i: nat, r: ResourceId, p: LockRequest, q: LockRequest)
    requires Run(trace) && i < |trace| && r in trace[i].locks.table
    requires p in trace[i].locks.table[r] && q in trace[i].locks.table[r] && p.tx != q.tx
    ensures p.mode == Shared && q.mode == Shared
  {
    RunKeepsInv(trace, i);
    assert p in Requests(trace[i].locks, r) && q in Requests(trace[i].locks, r);
  }

  /** A recorded request stays over a step exactly unless its owner unlocks the resource, or all. */
  lemma StaysUntilUnlocked(s: System, step: Step, r: ResourceId, q: LockRequest)
    requires Allowed(s, step) && r in s.locks.table && q in s.locks.table[r]
    ensures var after := Apply(s, step).locks.table;
            r in after && (q in after[r] <==> step != Step.Unlock(q.tx, r) && step != Step.UnlockAll(q.tx))
  {
    match step
    case Lock(tx, k, mode) => GrantedIff(s.locks, tx, k, mode);
    case Wake(tx) => GrantedIff(s.locks, tx, s.asleep[tx].r, s.asleep[tx].mode);
    case Unlock(tx, _) => WithoutExact(s.locks.table[r], tx, q);
    case UnlockAll(tx) => WithoutExact(s.locks.table[r], tx, q);
  }

  /** What has been granted is in the table from then on, until its owner unlocks it, whatever the others do. */
  lemma {:induction false} HeldUntilUnlocked(trace: seq<System>, steps: seq<Step>, r: ResourceId, q: LockRequest)
    requires |trace| == |steps| + 1
    requires forall i :: 0 <= i < |steps| ==> Allowed(trace[i], steps[i]) && trace[i + 1] == Apply(trace[i], steps[i])
    requires r in trace[0].locks.table && q in trace[0].locks.table[r]
    requires forall i :: 0 <= i < |steps| ==> steps[i] != Step.Unlock(q.tx, r) && steps[i] != Step.UnlockAll(q.tx)
    ensures forall i :: 0 <= i < |trace| ==> r in trace[i].locks.table && q in trace[i].locks.table[r]
    decreases |steps|
  {
    if steps != [] {
      var n := |steps| - 1;
      HeldUntilUnlocked(trace[..n + 1], steps[..n], r, q);
      assert trace[..n + 1][n] == trace[n];
      assert trace[n + 1] == Apply(trace[n], steps[n]);
      StaysUntilUnlocked(trace[n], steps[n], r, q);
      assert forall i :: 0 <= i < n + 1 ==> trace[..n + 1][i] == trace[i];
    }
  }

  /** No lost wake-up: a blocked sleeper that tried again now would not be granted its lock. */
  lemma BlockedIsReallyBlocked(s: System, t: TxId)
    requires Inv(s) && Blocked(s, t)
    ensures !Attempt(s.locks, t, s.asleep[t].r, s.asleep[t].mode).1.Granted?
  {
    var u := Succ(s.locks.waits, t)[0];
    assert Excludes(s, u, t);
    BlockersNonempty(Requests(s.locks, s.asleep[t].r), t, s.asleep[t].mode);
  }

  /** A path along recorded edges on which everybody but perhaps the last is asleep. */
  ghost predicate SleepersPath(s: System, p: seq<TxId>) {
    && IsPath(s.locks.waits, p)
    && forall i :: 0 <= i < |p| - 1 ==> p[i] in s.asleep
  }

  lemma {:induction false} FollowToAwake(s: System, p: seq<TxId>) returns (q: seq<TxId>)
    requires Inv(s) && SleepersPath(s, p) && Distinct(p) && p[|p| - 1] in s.asleep
    ensures SleepersPath(s, q) && q[0] == p[0] && |q| > |p| && q[|q| - 1] !in s.asleep
    decreases |s.asleep| - |p|
  {
    DistinctIsBounded(p, s.asleep.Keys);
    var u := Succ(s.locks.waits, p[|p| - 1])[0];
    q := p + [u];
    PushVertex(s.locks.waits, p, (set v | v in p), u);
    if u in p {
      BackEdgeClosesCycle(s.locks.waits, p, u);
    } else if u in s.asleep {
      DistinctIsBounded(q, s.asleep.Keys);
      q := FollowToAwake(s, q);
    }
  }

  /** No total deadlock: from every sleeper, recorded edges lead through sleepers to one that is awake. */
  lemma SleeperLeadsToAwake(s: System, t: TxId)
    requires Inv(s) && t in s.asleep
    ensures exists p :: SleepersPath(s, p) && |p| >= 2 && p[0] == t && p[|p| - 1] !in s.asleep
  {
    var p := FollowToAwake(s, [t]);
  }

  /** The same in every state of every run: never are all the transactions that wait for each other asleep. */
  lemma NoTotalDeadlock(trace: seq<System>, i: nat, t: TxId)
    requires Run(trace) && i < |trace| && t in trace[i].asleep
    ensures exists p :: SleepersPath(trace[i], p) && |p| >= 2 && p[0] == t && p[|p| - 1] !in trace[i].asleep
  {
    RunKeepsInv(trace, i);
    SleeperLeadsToAwake(trace[i], t);
  }

  /** Blocked sleepers, each excluded by the next, along recorded edges. */
  ghost predicate BlockingChain(s: System, p: seq<TxId>) {
    && IsPath(s.locks.waits, p)
    && forall i :: 0 <= i < |p| - 1 ==> Blocked(s, p[i]) && Excludes(s, p[i + 1], p[i])
  }

  lemma {:induction false} ExtendChain(s: System, p: seq<TxId>) returns (q: seq<TxId>)
    requires Inv(s) && BlockingChain(s, p) && Distinct(p) && Blocked(s, p[|p| - 1])
    ensures BlockingChain(s, q) && q[0] == p[0] && |q| > |p| && !Blocked(s, q[|q| - 1])
    decreases |s.asleep| - |p|
  {
    DistinctIsBounded(p, s.asleep.Keys);
    var u := Succ(s.locks.waits, p[|p| - 1])[0];
    q := p + [u];
    PushVertex(s.locks.waits, p, (set v | v in p), u);
    assert Excludes(s, u, p[|p| - 1]);
    if u in p {
      BackEdgeClosesCycle(s.locks.waits, p, u);
    } else if Blocked(s, u) {
      DistinctIsBounded(q, s.asleep.Keys);
      q := ExtendChain(s, q);
    }
  }

  /**
   * From a sleeper with no wake-up on the way, recorded edges lead through others like it, each excluded by
   * the next, to a transaction that is awake or about to try again and holds a lock the one before it needs.
   */
  lemma BlockedLeadsToRunnable(s: System, t: TxId)
    requires Inv(s) && Blocked(s, t)
    ensures exists p :: BlockingChain(s, p) && |p| >= 2 && p[0] == t && !Blocked(s, p[|p| - 1])
  {
    var p := ExtendChain(s, [t]);
  }

  /** Whether a path reaches `t` does not depend on the edges leaving `t`. */
  lemma {:induction false} ReachesIgnoresTarget(g: Graph, h: Graph, p: seq<TxId>, t: TxId)
    requires forall u :: u != t ==> Succ(h, u) == Succ(g, u)
    requires IsPath(g, p) && p[|p| - 1] == t
    ensures Reaches(h, p[0], t)
  {
    if p[0] == t {
      assert PathBetween(h, [t], t, t);
    } else {
      assert p[0 + 1] in Succ(g, p[0]);
      var q := p[1..];
      assert IsPath(g, q) by {
        forall i | 0 <= i < |q| - 1 ensures q[i + 1] in Succ(g, q[i]) {
          assert p[(i + 1) + 1] in Succ(g, p[i + 1]);
        }
      }
      ReachesIgnoresTarget(g, h, q, t);
      var r :| PathBetween(h, r, q[0], t);
      assert IsPath(h, [p[0], q[0]]);
      JoinPaths(h, [p[0], q[0]], r);
    }
  }

  /**
   * A caller is refused exactly when it is blocked by a transaction that already waits for it,
   * directly or through others.
   */
  lemma RefusedIffWaitedFor(s: System, tx: TxId, r: ResourceId, mode: LockMode)
    requires Inv(s)
    ensures Attempt(s.locks, tx, r, mode).1.Deadlock? <==>
            exists b :: b in Blockers(Requests(s.locks, r), tx, mode) && Reaches(s.locks.waits, b, tx)
  {
    var blockers := Blockers(Requests(s.locks, r), tx, mode);
    var g := s.locks.waits;
    var h := g[tx := blockers];
    if CycleReachable(h, tx) {
      var v :| Reaches(h, tx, v) && OnCycle(h, v);
      NewCycleGoesThrough(g, h, tx, v);
      var b := CycleReturns(h, tx);
      var p :| PathBetween(h, p, b, tx);
      ReachesIgnoresTarget(h, g, p, tx);
    }
    if b :| b in blockers && Reaches(g, b, tx) {
      var p :| PathBetween(g, p, b, tx);
      ReachesIgnoresTarget(g, h, p, tx);
      var q :| PathBetween(h, q, b, tx);
      assert IsPath(h, [tx, b]);
      JoinPaths(h, [tx, b], q);
      assert PathBetween(h, [tx], tx, tx);
      assert OnCycle(h, tx);
    }
  }
}
