// The transaction layer as one step machine: begin, commit, abort, the two halves of
// write_version with its sleep in between, and garbage collection, in every interleaving.
// Callers are as the repository's own are (src/query/cypher/executor.cpp:37-169): a transaction writes
// while it is active, has one call in flight, takes locks only through write_version, and calls
// unlock_all between its calls.
module Engine {
  import opened Wrappers
  import opened Transactions
  import opened Versions
  import opened Mvcc
  import opened WaitsFor
  import Locking
  import LP = LockProtocol

  datatype Write<D> = Write(key: Key, version: Version<D>)

  /** `writes` holds the calls of write_version in flight: asleep, or holding the key's lock. */
  datatype Engine<D> = Engine(
    txns: TxTable,
    chains: map<Key, Chain<D>>,
    locking: LP.System,
    writes: map<TxId, Write<D>>)

  datatype Step<D> =
    | BeginTx
    | CommitTx(tx: TxId)
    | AbortTx(tx: TxId)
    | StartWrite(tx: TxId, write: Write<D>)
    | WakeWrite(tx: TxId)
    | FinishWrite(tx: TxId)
    | ReleaseLocks(tx: TxId)
    | GarbageCollect(m: TxId)

  function Initial<D>(): Engine<D> {
    Engine(TxTable(1, {}, map[]), map[], LP.Initial, map[])
  }

  ghost predicate Allowed<D>(e: Engine<D>, step: Step<D>) {
    match step
    case BeginTx => true
    case CommitTx(t) => t in e.txns.active && t !in e.writes
    case AbortTx(t) => t in e.txns.active && t !in e.writes
    case StartWrite(t, w) =>
      t in e.txns.active && t !in e.writes && w.version.created == t && NewVersion(w.version)
    case WakeWrite(t) => t in e.locking.asleep && t in e.writes
    case FinishWrite(t) => t in e.writes && t !in e.locking.asleep
    case ReleaseLocks(t) => t !in e.writes && t !in e.locking.asleep
    case GarbageCollect(_) => true
  }

  /** One pass of `t` at the lock; a refused caller has no write in flight any more. */
  ghost function TryWrite<D>(e: Engine<D>, t: TxId, w: Write<D>): Engine<D> {
    var outcome := Locking.Attempt(e.locking.locks, t, w.key, Locking.Exclusive).1;
    e.(locking := LP.Pass(e.locking, t, w.key, Locking.Exclusive),
       writes := if outcome.Deadlock? then e.writes - {t} else e.writes[t := w])
  }

  ghost function Apply<D>(e: Engine<D>, step: Step<D>): Engine<D>
    requires Allowed(e, step)
  {
    match step
    case BeginTx => e.(txns := Begin(e.txns))
    case CommitTx(t) => e.(txns := Finish(e.txns, t, Committed))
    case AbortTx(t) => e.(txns := Finish(e.txns, t, Aborted))
    case StartWrite(t, w) => TryWrite(e, t, w)
    case WakeWrite(t) => TryWrite(e, t, e.writes[t])
    case FinishWrite(t) =>
      var w := e.writes[t];
      e.(chains := WriteKey(e.chains, w.key, w.version),
         locking := LP.Apply(e.locking, LP.Unlock(t, w.key)),
         writes := e.writes - {t})
    case ReleaseLocks(t) => e.(locking := LP.Apply(e.locking, LP.UnlockAll(t)))
    case GarbageCollect(m) => e.(chains := CollectAll(e.chains, m))
  }

  ghost predicate SleepersWrite<D>(l: LP.System, writes: map<TxId, Write<D>>) {
    forall t :: t in l.asleep ==>
      t in writes && l.asleep[t].r == writes[t].key && l.asleep[t].mode == Locking.Exclusive
  }

  ghost predicate HoldersWrite<D>(l: LP.System, writes: map<TxId, Write<D>>) {
    forall r, q :: q in Locking.Requests(l.locks, r) ==>
      q.mode == Locking.Exclusive && q.tx in writes && q.tx !in l.asleep && writes[q.tx].key == r
  }

  ghost predicate WritersHold<D>(l: LP.System, writes: map<TxId, Write<D>>) {
    forall t :: t in writes && t !in l.asleep ==>
      Locking.LockRequest(t, Locking.Exclusive) in Locking.Requests(l.locks, writes[t].key)
  }

  ghost predicate OnlySleepersWait(l: LP.System) {
    forall t :: t !in l.asleep ==> Succ(l.locks.waits, t) == []
  }

  /** The lock table holds exactly the keys of the writers past their lock, and only sleepers wait. */
  ghost predicate LocksMatchWrites<D>(l: LP.System, writes: map<TxId, Write<D>>) {
    SleepersWrite(l, writes) && HoldersWrite(l, writes) && WritersHold(l, writes) && OnlySleepersWait(l)
  }

  ghost predicate WritesOk<D>(e: Engine<D>) {
    forall t :: t in e.writes ==>
      t in e.txns.active && e.writes[t].version.created == t && NewVersion(e.writes[t].version)
  }

  ghost predicate ChainsOk<D>(e: Engine<D>) {
    forall key, v :: key in e.chains && v in e.chains[key] ==> v.created < e.txns.next
  }

  ghost predicate Inv<D>(e: Engine<D>) {
    TableOk(e.txns) && LP.Inv(e.locking) && LocksMatchWrites(e.locking, e.writes) && WritesOk(e) && ChainsOk(e)
  }

  // ----- No writer is ever refused -----

  lemma SinksOnlyNoCycle(g: Graph, t: TxId)
    requires forall v :: v in Succ(g, t) ==> v != t && Succ(g, v) == []
    ensures !CycleReachable(g, t)
  {
    var sinks := set v | v in Succ(g, t);
    forall v | v in sinks ensures !OnCycle(g, v) {
      FinishVertex(g, {}, v);
    }
    FinishVertex(g, sinks, t);
    FinishedHasNoCycle(g, sinks + {t}, t);
  }

  /** A lock holder waits for nobody, so a writer never closes a cycle and never gets a conflict. */
  lemma WriterNeverRefused<D>(e: Engine<D>, t: TxId, key: Key)
    requires Inv(e)
    ensures !Locking.Attempt(e.locking.locks, t, key, Locking.Exclusive).1.Deadlock?
  {
    var reqs := Locking.Requests(e.locking.locks, key);
    var blockers := Locking.Blockers(reqs, t, Locking.Exclusive);
    var h := e.locking.locks.waits[t := blockers];
    forall v | v in Succ(h, t) ensures v != t && Succ(h, v) == [] {
      Locking.BlockersExact(reqs, t, Locking.Exclusive, v);
      var i :| 0 <= i < |reqs| && Locking.Clashes(reqs[i], t, Locking.Exclusive) && reqs[i].tx == v;
      assert reqs[i] in reqs;
    }
    SinksOnlyNoCycle(h, t);
  }

  // ----- The invariant over every step -----

  lemma PassAdds(l: LP.System, t: TxId, key: Key, r: Key, q: Locking.LockRequest)
    requires !Locking.Attempt(l.locks, t, key, Locking.Exclusive).1.Deadlock?
    ensures var l' := LP.Pass(l, t, key, Locking.Exclusive);
            q in Locking.Requests(l'.locks, r) <==>
              q in Locking.Requests(l.locks, r)
              || (r == key && q == Locking.LockRequest(t, Locking.Exclusive)
                  && Locking.Attempt(l.locks, t, key, Locking.Exclusive).1.Granted?)
  {
    hide Locking.Blockers;
  }

  lemma PassSleeps(l: LP.System, t: TxId, key: Key)
    requires !Locking.Attempt(l.locks, t, key, Locking.Exclusive).1.Deadlock?
    ensures var (l', granted) := (LP.Pass(l, t, key, Locking.Exclusive),
                                  Locking.Attempt(l.locks, t, key, Locking.Exclusive).1.Granted?);
            && (t in l'.asleep <==> !granted)
            && (!granted ==> l'.asleep[t].r == key && l'.asleep[t].mode == Locking.Exclusive)
            && (granted ==> Succ(l'.locks.waits, t) == [])
            && forall u :: u != t ==>
                 && (u in l'.asleep <==> u in l.asleep) && (u in l.asleep ==> l'.asleep[u] == l.asleep[u])
                 && Succ(l'.locks.waits, u) == Succ(l.locks.waits, u)
  {
    hide Locking.Blockers;
  }

  lemma PassKeepsMatch<D>(l: LP.System, writes: map<TxId, Write<D>>, t: TxId, w: Write<D>)
    requires LocksMatchWrites(l, writes)
    requires t in writes ==> t in l.asleep && writes[t] == w
    requires !Locking.Attempt(l.locks, t, w.key, Locking.Exclusive).1.Deadlock?
    ensures LocksMatchWrites(LP.Pass(l, t, w.key, Locking.Exclusive), writes[t := w])
  {
    hide LP.Pass, Locking.Attempt, Locking.Requests, HoldersWrite, WritersHold;
    PassSleeps(l, t, w.key);
    assert OnlySleepersWait(LP.Pass(l, t, w.key, Locking.Exclusive));
    assert SleepersWrite(LP.Pass(l, t, w.key, Locking.Exclusive), writes[t := w]);
    PassKeepsHolders(l, writes, t, w);
    PassKeepsWriters(l, writes, t, w);
  }

  lemma PassKeepsHolders<D>(l: LP.System, writes: map<TxId, Write<D>>, t: TxId, w: Write<D>)
    requires HoldersWrite(l, writes) && (t in writes ==> t in l.asleep)
    requires !Locking.Attempt(l.locks, t, w.key, Locking.Exclusive).1.Deadlock?
    ensures HoldersWrite(LP.Pass(l, t, w.key, Locking.Exclusive), writes[t := w])
  {
    hide LP.Pass, Locking.Attempt, Locking.Requests;
    var l', writes' := LP.Pass(l, t, w.key, Locking.Exclusive), writes[t := w];
    PassSleeps(l, t, w.key);
    forall r, q | q in Locking.Requests(l'.locks, r)
      ensures q.mode == Locking.Exclusive && q.tx in writes' && q.tx !in l'.asleep && writes'[q.tx].key == r
    {
      PassAdds(l, t, w.key, r, q);
    }
  }

  lemma PassKeepsWriters<D>(l: LP.System, writes: map<TxId, Write<D>>, t: TxId, w: Write<D>)
    requires WritersHold(l, writes)
    requires !Locking.Attempt(l.locks, t, w.key, Locking.Exclusive).1.Deadlock?
    ensures WritersHold(LP.Pass(l, t, w.key, Locking.Exclusive), writes[t := w])
  {
    hide LP.Pass, Locking.Attempt, Locking.Requests;
    var l', writes' := LP.Pass(l, t, w.key, Locking.Exclusive), writes[t := w];
    PassSleeps(l, t, w.key);
    forall u | u in writes' && u !in l'.asleep
      ensures Locking.LockRequest(u, Locking.Exclusive) in Locking.Requests(l'.locks, writes'[u].key)
    {
      PassAdds(l, t, w.key, writes'[u].key, Locking.LockRequest(u, Locking.Exclusive));
    }
  }

  lemma TryWriteKeepsInv<D>(e: Engine<D>, t: TxId, w: Write<D>)
    requires Inv(e) && t in e.txns.active && w.version.created == t && NewVersion(w.version)
    requires t in e.writes ==> t in e.locking.asleep && e.writes[t] == w
    ensures Inv(TryWrite(e, t, w))
  {
    hide LP.Inv, Locking.Attempt, LocksMatchWrites, TableOk;
    WriterNeverRefused(e, t, w.key);
    LP.PassKeepsInv(e.locking, t, w.key, Locking.Exclusive);
    PassKeepsMatch(e.locking, e.writes, t, w);
  }

  lemma UnlockKeepsMatch<D>(l: LP.System, writes: map<TxId, Write<D>>, t: TxId)
    requires LocksMatchWrites(l, writes) && t in writes && t !in l.asleep
    ensures LocksMatchWrites(LP.Apply(l, LP.Unlock(t, writes[t].key)), writes - {t})
  {
    hide Locking.Requests;
    var key := writes[t].key;
    var l' := LP.Apply(l, LP.Unlock(t, key));
    forall r, q ensures q in Locking.Requests(l'.locks, r) <==>
                        q in Locking.Requests(l.locks, r) && (q.tx != t || r != key)
    {
      UnlockKeepsOthers(l, t, key, r, q);
    }
    assert HoldersWrite(l', writes - {t});
    assert WritersHold(l', writes - {t});
  }

  lemma UnlockKeepsOthers(l: LP.System, t: TxId, key: Key, r: Key, q: Locking.LockRequest)
    requires t !in l.asleep
    ensures q in Locking.Requests(LP.Apply(l, LP.Unlock(t, key)).locks, r) <==>
            q in Locking.Requests(l.locks, r) && (q.tx != t || r != key)
  {
    Locking.WithoutExact(Locking.Requests(l.locks, key), t, q);
  }

  lemma UnlockAllKeepsMatch<D>(l: LP.System, writes: map<TxId, Write<D>>, t: TxId)
    requires LocksMatchWrites(l, writes) && t !in writes && t !in l.asleep
    ensures LocksMatchWrites(LP.Apply(l, LP.UnlockAll(t)), writes)
  {
    hide Locking.Requests;
    var l' := LP.Apply(l, LP.UnlockAll(t));
    forall r, q ensures q in Locking.Requests(l'.locks, r) <==> q in Locking.Requests(l.locks, r) {
      UnlockAllKeepsOthers(l, t, r, q);
    }
    assert OnlySleepersWait(l');
  }

  lemma UnlockAllKeepsOthers(l: LP.System, t: TxId, r: Key, q: Locking.LockRequest)
    requires t !in l.asleep
    ensures q in Locking.Requests(LP.Apply(l, LP.UnlockAll(t)).locks, r) <==>
            q in Locking.Requests(l.locks, r) && q.tx != t
  {
    Locking.WithoutExact(Locking.Requests(l.locks, r), t, q);
  }

  lemma WriteKeepsChains<D>(e: Engine<D>, w: Write<D>)
    requires ChainsOk(e) && NewVersion(w.version) && w.version.created < e.txns.next
    ensures ChainsOk(e.(chains := WriteKey(e.chains, w.key, w.version)))
  {
    var chain := ChainOf(e.chains, w.key);
    forall v | v in Append(chain, w.version) ensures v.created < e.txns.next {
      if v != w.version {
        var i :| 0 <= i < |chain| && Append(chain, w.version)[i] == v;
        assert chain[i] in chain && chain[i].created == v.created;
      }
    }
  }

  lemma GarbageCollectKeepsChains<D>(e: Engine<D>, m: TxId)
    requires ChainsOk(e)
    ensures ChainsOk(e.(chains := CollectAll(e.chains, m)))
  {
    forall key, v | key in e.chains && v in Collect(e.chains[key], m) ensures v in e.chains[key] {
      CollectDropsExpired(e.chains[key], m, v);
    }
  }

  lemma StepKeepsInv<D>(e: Engine<D>, step: Step<D>)
    requires Inv(e) && Allowed(e, step)
    ensures Inv(Apply(e, step))
  {
    hide LP.Inv, LP.Apply, TryWrite, LocksMatchWrites;
    match step
    case BeginTx =>
    case CommitTx(_) =>
    case AbortTx(_) =>
    case StartWrite(t, w) => TryWriteKeepsInv(e, t, w);
    case WakeWrite(t) => TryWriteKeepsInv(e, t, e.writes[t]);
    case FinishWrite(t) =>
      LP.StepKeepsInv(e.locking, LP.Unlock(t, e.writes[t].key));
      UnlockKeepsMatch(e.locking, e.writes, t);
      WriteKeepsChains(e, e.writes[t]);
    case ReleaseLocks(t) =>
      LP.StepKeepsInv(e.locking, LP.UnlockAll(t));
      UnlockAllKeepsMatch(e.locking, e.writes, t);
    case GarbageCollect(m) => GarbageCollectKeepsChains(e, m);
  }

  /** `states[i + 1]` is what `steps[i]` makes of `states[i]`. */
  ghost predicate Steps<D>(states: seq<Engine<D>>, steps: seq<Step<D>>) {
    |states| == |steps| + 1 &&
    forall i :: 0 <= i < |steps| ==> Allowed(states[i], steps[i]) && states[i + 1] == Apply(states[i], steps[i])
  }

  lemma {:induction false} StepsKeepInv<D>(states: seq<Engine<D>>, steps: seq<Step<D>>, i: nat)
    requires Steps(states, steps) && Inv(states[0]) && i < |states|
    ensures Inv(states[i])
  {
    if i > 0 {
      StepsKeepInv(states, steps, i - 1);
      assert states[(i - 1) + 1] == Apply(states[i - 1], steps[i - 1]);
      StepKeepsInv(states[i - 1], steps[i - 1]);
    }
  }

  ghost predicate Reachable<D(!new)>(e: Engine<D>) {
    exists states, steps :: Steps(states, steps) && states[0] == Initial() && states[|steps|] == e
  }

  lemma InitialReachable<D(!new)>()
    ensures Reachable(Initial<D>())
  {
    var states: seq<Engine<D>>, steps: seq<Step<D>> := [Initial()], [];
    assert Steps(states, steps) && states[0] == Initial() && states[|steps|] == Initial();
  }

  lemma StepReachable<D(!new)>(e: Engine<D>, step: Step<D>)
    requires Reachable(e) && Allowed(e, step)
    ensures Reachable(Apply(e, step))
  {
    var states, steps :| Steps(states, steps) && states[0] == Initial() && states[|steps|] == e;
    var states', steps' := states + [Apply(e, step)], steps + [step];
    assert Steps(states', steps') by {
      forall i | 0 <= i < |steps'| ensures Allowed(states'[i], steps'[i]) && states'[i + 1] == Apply(states'[i], steps'[i]) {
        if i < |steps| {
          assert Allowed(states[i], steps[i]) && states[i + 1] == Apply(states[i], steps[i]);
        }
      }
    }
    assert states'[0] == Initial() && states'[|steps'|] == Apply(e, step);
  }

  predicate PastLock<D>(e: Engine<D>, t: TxId) {
    t in e.writes && t !in e.locking.asleep
  }

  /**
   * In every reachable state: no write is refused with a conflict, and at most one transaction is past
   * the lock of a key.
   */
  lemma SafetyOverRuns<D(!new)>(e: Engine<D>)
    requires Reachable(e)
    ensures Inv(e)
    ensures forall t, key :: !Locking.Attempt(e.locking.locks, t, key, Locking.Exclusive).1.Deadlock?
    ensures forall t, u | PastLock(e, t) && PastLock(e, u) && t != u :: e.writes[t].key != e.writes[u].key
  {
    var states, steps :| Steps(states, steps) && states[0] == Initial() && states[|steps|] == e;
    LP.RunKeepsInv([LP.Initial], 0);
    StepsKeepInv(states, steps, |steps|);
    forall t, key ensures !Locking.Attempt(e.locking.locks, t, key, Locking.Exclusive).1.Deadlock? {
      WriterNeverRefused(e, t, key);
    }
    forall t, u | PastLock(e, t) && PastLock(e, u) && t != u ensures e.writes[t].key != e.writes[u].key {
      var p := Locking.LockRequest(t, Locking.Exclusive);
      var q := Locking.LockRequest(u, Locking.Exclusive);
      assert p in Locking.Requests(e.locking.locks, e.writes[t].key);
      assert q in Locking.Requests(e.locking.locks, e.writes[u].key);
    }
  }

  // ----- What a reader can notice -----

  function ReadBy<D>(e: Engine<D>, t: TxId, key: Key): Option<Version<D>> {
    Read(e.txns, ChainOf(e.chains, key), t)
  }

  /** Steps that may change what `t` reads: its own writes, commits of lower ids, unsafe collection. */
  ghost predicate MayDisturb<D>(e: Engine<D>, step: Step<D>, t: TxId) {
    match step
    case FinishWrite(u) => u == t
    case CommitTx(u) => u < t
    case GarbageCollect(m) => m > t || exists key :: key in e.chains && !SafeToCollect(e.txns, e.chains[key], m)
    case _ => false
  }

  lemma OtherStepsKeepReads<D>(e: Engine<D>, step: Step<D>, t: TxId, key: Key)
    requires Inv(e) && Allowed(e, step) && 1 <= t < e.txns.next && !MayDisturb(e, step, t)
    ensures SameRead(ReadBy(Apply(e, step), t, key), ReadBy(e, t, key))
  {
    var e' := Apply(e, step);
    var chain := ChainOf(e.chains, key);
    match step
    case FinishWrite(u) =>
      UnseenWriteChangesNoRead(e.txns, ChainOf(e.chains, e.writes[u].key), e.writes[u].version, t);
    case GarbageCollect(m) =>
      CollectAllChain(e.chains, m, key);
      CollectInvisibleIff(e.txns, chain, m);
    case _ =>
      ReadDependsOnVisibility(e'.txns, chain, e.txns, chain, t);
  }

  /** Steps of which none but commits may disturb `t`. */
  ghost predicate UndisturbedRun<D>(states: seq<Engine<D>>, steps: seq<Step<D>>, t: TxId) {
    && Steps(states, steps)
    && forall i :: 0 <= i < |steps| && !steps[i].CommitTx? ==> !MayDisturb(states[i], steps[i], t)
  }

  /** `u` sleeps on a key whose lock `t` holds for a write of its own. */
  predicate StuckBehind<D>(e: Engine<D>, u: TxId, t: TxId) {
    PastLock(e, t) && u in e.locking.asleep && u in e.writes && e.writes[u].key == e.writes[t].key
  }

  /** No lower id is active, but for those that cannot go on before `t` does. */
  ghost predicate NoneFreeBelow<D>(e: Engine<D>, t: TxId) {
    forall u :: u in e.txns.active && u < t ==> StuckBehind(e, u, t)
  }

  lemma WakeStaysStuck<D>(e: Engine<D>, u: TxId, t: TxId)
    requires Inv(e) && StuckBehind(e, u, t) && u != t
    ensures StuckBehind(Apply(e, WakeWrite(u)), u, t)
  {
    var key := e.writes[u].key;
    var reqs := Locking.Requests(e.locking.locks, key);
    WriterNeverRefused(e, u, key);
    assert Locking.LockRequest(t, Locking.Exclusive) in reqs;
    var i :| 0 <= i < |reqs| && reqs[i] == Locking.LockRequest(t, Locking.Exclusive);
    assert Locking.Clashes(reqs[i], u, Locking.Exclusive);
    Locking.BlockersNonempty(reqs, u, Locking.Exclusive);
  }

  lemma StepStaysStuck<D>(e: Engine<D>, step: Step<D>, u: TxId, t: TxId)
    requires Inv(e) && Allowed(e, step) && StuckBehind(e, u, t) && u != t && step != FinishWrite(t)
    ensures StuckBehind(Apply(e, step), u, t)
  {
    hide Locking.Attempt, Inv;
    match step
    case WakeWrite(v) =>
      if v == u {
        WakeStaysStuck(e, u, t);
      }
    case _ =>
  }

  lemma StepKeepsNoneFree<D>(e: Engine<D>, step: Step<D>, t: TxId)
    requires Inv(e) && Allowed(e, step) && 1 <= t < e.txns.next && NoneFreeBelow(e, t)
    requires !step.CommitTx? ==> !MayDisturb(e, step, t)
    ensures !MayDisturb(e, step, t) && NoneFreeBelow(Apply(e, step), t)
  {
    hide StuckBehind, LP.Apply, LP.Pass, LP.Inv, LocksMatchWrites;
    forall u | u in Apply(e, step).txns.active && u < t ensures StuckBehind(Apply(e, step), u, t) {
      StepStaysStuck(e, step, u, t);
    }
    if step.CommitTx? && step.tx < t {
      NotStuckWithoutWrite(e, step.tx, t);
    }
  }

  lemma NotStuckWithoutWrite<D>(e: Engine<D>, u: TxId, t: TxId)
    ensures u !in e.writes ==> !StuckBehind(e, u, t)
  {
  }

  /**
   * Repeatable reads: while no lower id is free to go on, what `t` reads of a key never changes, whatever
   * the others do, until `t` writes or versions it can see are collected.
   */
  lemma {:induction false} RepeatableRead<D>(states: seq<Engine<D>>, steps: seq<Step<D>>, t: TxId, key: Key)
    requires UndisturbedRun(states, steps, t) && Inv(states[0])
    requires 1 <= t < states[0].txns.next && NoneFreeBelow(states[0], t)
    ensures SameRead(ReadBy(states[|steps|], t, key), ReadBy(states[0], t, key))
    decreases |steps|
  {
    if steps != [] {
      var e, step := states[0], steps[0];
      assert Allowed(e, step) && states[0 + 1] == Apply(e, step);
      StepKeepsNoneFree(e, step, t);
      OtherStepsKeepReads(e, step, t, key);
      StepKeepsInv(e, step);
      TailUndisturbed(states, steps, t);
      RepeatableRead(states[1..], steps[1..], t, key);
    }
  }

  lemma TailUndisturbed<D>(states: seq<Engine<D>>, steps: seq<Step<D>>, t: TxId)
    requires UndisturbedRun(states, steps, t) && steps != []
    ensures UndisturbedRun(states[1..], steps[1..], t)
  {
    var rest, later := states[1..], steps[1..];
    forall i | 0 <= i < |later|
      ensures Allowed(rest[i], later[i]) && rest[i + 1] == Apply(rest[i], later[i])
      ensures !later[i].CommitTx? ==> !MayDisturb(rest[i], later[i], t)
    {
      assert Allowed(states[i + 1], steps[i + 1]) && states[(i + 1) + 1] == Apply(states[i + 1], steps[i + 1]);
    }
  }

  /** A write on a key nobody has locked goes straight through. */
  lemma UncontendedWrite<D>(e: Engine<D>, t: TxId, w: Write<D>)
    requires Allowed(e, StartWrite(t, w)) && t !in e.locking.asleep
    requires Locking.Requests(e.locking.locks, w.key) == []
    ensures var e1 := Apply(e, StartWrite(t, w));
            Allowed(e1, Step<D>.FinishWrite(t)) &&
            var e2 := Apply(e1, Step<D>.FinishWrite(t));
            e2.txns == e.txns && e2.chains == WriteKey(e.chains, w.key, w.version) && e2.writes == e.writes
  {
    assert Locking.Blockers([], t, Locking.Exclusive) == [];
    assert e.writes[t := w] - {t} == e.writes;
  }

  // ----- Without that condition reads are not repeatable -----

  ghost predicate CanReach<D(!new)>(e: Engine<D>, e': Engine<D>, t: TxId) {
    exists states, steps :: UndisturbedRun(states, steps, t) && states[0] == e && states[|steps|] == e'
  }

  lemma ReachesItself<D(!new)>(e: Engine<D>, t: TxId)
    ensures CanReach(e, e, t)
  {
    var states, steps: seq<Step<D>> := [e], [];
    assert UndisturbedRun(states, steps, t) && states[0] == e && states[|steps|] == e;
  }

  lemma ReachesNext<D(!new)>(e: Engine<D>, e': Engine<D>, step: Step<D>, t: TxId)
    requires CanReach(e, e', t) && Allowed(e', step) && (step.CommitTx? || !MayDisturb(e', step, t))
    ensures CanReach(e, Apply(e', step), t)
  {
    var states, steps :| UndisturbedRun(states, steps, t) && states[0] == e && states[|steps|] == e';
    var states', steps' := states + [Apply(e', step)], steps + [step];
    assert UndisturbedRun(states', steps', t) by {
      forall i | 0 <= i < |steps'|
        ensures Allowed(states'[i], steps'[i]) && states'[i + 1] == Apply(states'[i], steps'[i])
        ensures !steps'[i].CommitTx? ==> !MayDisturb(states'[i], steps'[i], t)
      {
        if i < |steps| {
          assert Allowed(states[i], steps[i]) && states[i + 1] == Apply(states[i], steps[i]);
        }
      }
    }
    assert states'[0] == e && states'[|steps'|] == Apply(e', step);
  }

  /** When the writer past the lock of a key is done, nobody holds a lock on that key. */
  lemma LastHolder<D>(e: Engine<D>, h: TxId, q: Locking.LockRequest)
    requires Inv(e) && PastLock(e, h)
    ensures q !in Locking.Requests(Apply(e, FinishWrite(h)).locking.locks, e.writes[h].key)
  {
    var reqs := Locking.Requests(e.locking.locks, e.writes[h].key);
    Locking.WithoutExact(reqs, h, q);
    assert Locking.LockRequest(h, Locking.Exclusive) in reqs;
  }

  lemma HolderHolds<D>(e: Engine<D>, h: TxId)
    requires Inv(e) && PastLock(e, h)
    ensures Locking.LockRequest(h, Locking.Exclusive) in Locking.Requests(e.locking.locks, e.writes[h].key)
  {
  }

  lemma NobodyHolds<D>(e: Engine<D>, key: Key)
    requires Inv(e) && forall h :: PastLock(e, h) ==> e.writes[h].key != key
    ensures Locking.Requests(e.locking.locks, key) == []
  {
    var reqs := Locking.Requests(e.locking.locks, key);
    if reqs != [] {
      assert reqs[0] in reqs && PastLock(e, reqs[0].tx);
    }
  }

  /** The engine is `e` but for writes in flight, locks and chains. */
  ghost predicate SameTable<D>(e: Engine<D>, e': Engine<D>) {
    e'.txns == e.txns
  }

  /** A woken writer whose key nobody holds gets past the lock. */
  lemma WakeGetsLock<D>(e: Engine<D>, u: TxId)
    requires Inv(e) && u in e.locking.asleep
    requires forall h :: PastLock(e, h) ==> e.writes[h].key != e.writes[u].key
    ensures u in e.writes && Allowed(e, WakeWrite(u)) && PastLock(Apply(e, WakeWrite(u)), u)
    ensures SameTable(e, Apply(e, WakeWrite(u)))
  {
    NobodyHolds(e, e.writes[u].key);
    assert Locking.Blockers([], u, Locking.Exclusive) == [];
  }

  /** An active lower id that `t` does not hold up can end the write it has in flight. */
  lemma CanEndWrite<D(!new)>(e: Engine<D>, u: TxId, t: TxId) returns (e': Engine<D>)
    requires Inv(e) && u < t < e.txns.next && !StuckBehind(e, u, t)
    ensures CanReach(e, e', t) && Inv(e') && SameTable(e, e') && u !in e'.writes
  {
    ReachesItself(e, t);
    e' := e;
    if u in e.locking.asleep {
      e' := CanGetLock(e, u, t);
    }
    if u in e'.writes {
      ReachesNext(e, e', FinishWrite(u), t);
      StepKeepsInv(e', FinishWrite(u));
      e' := Apply(e', FinishWrite(u));
    }
  }

  lemma CanGetLock<D(!new)>(e: Engine<D>, u: TxId, t: TxId) returns (e': Engine<D>)
    requires Inv(e) && u < t < e.txns.next && !StuckBehind(e, u, t) && u in e.locking.asleep
    ensures CanReach(e, e', t) && Inv(e') && SameTable(e, e') && PastLock(e', u)
  {
    ReachesItself(e, t);
    e' := e;
    if h :| PastLock(e, h) && e.writes[h].key == e.writes[u].key {
      assert h != t;
      e' := Apply(e, FinishWrite(h));
      ReachesNext(e, e, FinishWrite(h), t);
      StepKeepsInv(e, FinishWrite(h));
      LastHolderGone(e, h, u);
    }
    WakeGetsLock(e', u);
    ReachesNext(e, e', WakeWrite(u), t);
    StepKeepsInv(e', WakeWrite(u));
    e' := Apply(e', WakeWrite(u));
  }

  lemma LastHolderGone<D>(e: Engine<D>, h: TxId, u: TxId)
    requires Inv(e) && PastLock(e, h) && u in e.locking.asleep && u in e.writes && e.writes[h].key == e.writes[u].key
    ensures var e' := Apply(e, FinishWrite(h));
            Inv(e') && SameTable(e, e') && u in e'.locking.asleep && u in e'.writes
            && forall g :: PastLock(e', g) ==> e'.writes[g].key != e'.writes[u].key
  {
    hide LP.Inv, LocksMatchWrites, Locking.Requests;
    StepKeepsInv(e, FinishWrite(h));
    var e' := Apply(e, FinishWrite(h));
    forall g | PastLock(e', g) ensures e'.writes[g].key != e'.writes[u].key {
      LastHolder(e, h, Locking.LockRequest(g, Locking.Exclusive));
      HolderHolds(e', g);
    }
  }

  lemma {:induction false} FreshKey(used: set<Key>) returns (key: Key)
    ensures key !in used && forall k :: k in used ==> k < key
  {
    if used == {} {
      key := 0;
    } else {
      var k :| k in used;
      var above := FreshKey(used - {k});
      assert forall j :: j in used ==> j == k || j in used - {k};
      key := if above > k then above else k + 1;
    }
  }

  /** A value that a lower id writes to a new key and commits becomes visible. */
  lemma WriteAndCommitIsSeen<D(!new)>(e: Engine<D>, u: TxId, t: TxId, key: Key, x: D) returns (e': Engine<D>)
    requires Inv(e) && u in e.txns.active && u !in e.writes && u < t < e.txns.next
    requires key !in e.chains && key !in e.locking.locks.table
    ensures CanReach(e, e', t) && ReadBy(e', t, key) == Some(Version(u, 0, x))
  {
    var w := Write(key, Version(u, 0, x));
    ReachesItself(e, t);
    UncontendedWrite(e, u, w);
    ReachesNext(e, e, StartWrite(u, w), t);
    var e1 := Apply(e, StartWrite(u, w));
    ReachesNext(e, e1, FinishWrite(u), t);
    var e2 := Apply(e1, FinishWrite(u));
    ReachesNext(e, e2, CommitTx(u), t);
    e' := Apply(e2, CommitTx(u));
    assert ChainOf(e'.chains, key) == [w.version];
    ReadReturns(e'.txns, [w.version], t, 0);
  }

  lemma ReachesOn<D(!new)>(e: Engine<D>, e': Engine<D>, e'': Engine<D>, t: TxId)
    requires CanReach(e, e', t) && CanReach(e', e'', t)
    ensures CanReach(e, e'', t)
  {
    var states, steps :| UndisturbedRun(states, steps, t) && states[0] == e && states[|steps|] == e';
    var states': seq<Engine<D>>, steps': seq<Step<D>> :|
      UndisturbedRun(states', steps', t) && states'[0] == e' && states'[|steps'|] == e'';
    var all: seq<Engine<D>>, allSteps: seq<Step<D>> := states + states'[1..], steps + steps';
    assert UndisturbedRun(all, allSteps, t) by {
      forall i | 0 <= i < |allSteps|
        ensures Allowed(all[i], allSteps[i]) && all[i + 1] == Apply(all[i], allSteps[i])
        ensures !allSteps[i].CommitTx? ==> !MayDisturb(all[i], allSteps[i], t)
      {
        if i < |steps| {
          assert Allowed(states[i], steps[i]) && states[i + 1] == Apply(states[i], steps[i]);
        } else {
          var j := i - |steps|;
          assert Allowed(states'[j], steps'[j]) && states'[j + 1] == Apply(states'[j], steps'[j]);
        }
      }
    }
    assert all[0] == e && all[|allSteps|] == e'';
  }

  /** A lower id that is free to go on can change what `t` reads, without `t` doing anything. */
  lemma FreeLowerDisturbs<D(!new)>(e: Engine<D>, u: TxId, t: TxId, x: D) returns (e': Engine<D>, key: Key)
    requires Inv(e) && u in e.txns.active && u < t < e.txns.next && !StuckBehind(e, u, t)
    ensures CanReach(e, e', t) && ReadBy(e, t, key) == None && ReadBy(e', t, key) == Some(Version(u, 0, x))
  {
    var e1 := CanEndWrite(e, u, t);
    key := FreshKey(e.chains.Keys + e1.chains.Keys + e1.locking.locks.table.Keys);
    e' := WriteAndCommitIsSeen(e1, u, t, key, x);
    ReachesOn(e, e1, e', t);
  }

  ghost predicate ReadsRepeat<D(!new)>(e: Engine<D>, t: TxId) {
    forall e', key :: CanReach(e, e', t) ==> SameRead(ReadBy(e', t, key), ReadBy(e, t, key))
  }

  /**
   * Exactly when reads repeat: over all runs in which `t` ends no write and no collection it could notice
   * happens, every read of `t` stays as it is if and only if no lower id is active, but for those that
   * sleep on a key `t` itself has locked. (`x` is any value that could be written.)
   */
  lemma RepeatableReadIff<D(!new)>(e: Engine<D>, t: TxId, x: D)
    requires Inv(e) && 1 <= t < e.txns.next
    ensures ReadsRepeat(e, t) <==> NoneFreeBelow(e, t)
  {
    if NoneFreeBelow(e, t) {
      forall e', key | CanReach(e, e', t) ensures SameRead(ReadBy(e', t, key), ReadBy(e, t, key)) {
        var states, steps :| UndisturbedRun(states, steps, t) && states[0] == e && states[|steps|] == e';
        RepeatableRead(states, steps, t, key);
      }
    } else {
      var u :| u in e.txns.active && u < t && !StuckBehind(e, u, t);
      var e', key := FreeLowerDisturbs(e, u, t, x);
      assert !SameRead(ReadBy(e', t, key), ReadBy(e, t, key));
    }
  }

  /** Two transactions are running and the first has written key 7; the second does not see it. */
  lemma UncommittedWrite<D(!new)>(x: D) returns (e: Engine<D>)
    ensures Reachable(e) && e.txns == TxTable(3, {1, 2}, map[]) && e.writes == map[]
    ensures ChainOf(e.chains, 7) == [Version(1, 0, x)] && ReadBy(e, 2, 7) == None
  {
    var v := Version(1, 0, x);
    InitialReachable<D>();
    var e0: Engine<D> := Initial();
    StepReachable(e0, BeginTx);
    var e1 := Apply(e0, BeginTx);
    StepReachable(e1, BeginTx);
    var e2 := Apply(e1, BeginTx);
    UncontendedWrite(e2, 1, Write(7, v));
    StepReachable(e2, StartWrite(1, Write(7, v)));
    var e3 := Apply(e2, StartWrite(1, Write(7, v)));
    StepReachable(e3, Step<D>.FinishWrite(1));
    e := Apply(e3, Step<D>.FinishWrite(1));
    ReadIsNewestVisible(e.txns, [v], 2);
  }

  /** Such a state is reached: a reader sees a lower id commit after it began. */
  lemma LowerCommitIsSeen<D(!new)>(x: D) returns (e: Engine<D>)
    ensures Reachable(e) && e.txns.active == {1, 2} && Allowed(e, Step<D>.CommitTx(1))
    ensures ReadBy(e, 2, 7) == None && ReadBy(Apply(e, Step<D>.CommitTx(1)), 2, 7) == Some(Version(1, 0, x))
  {
    e := UncommittedWrite(x);
    var e' := Apply(e, Step<D>.CommitTx(1));
    ReadReturns(e'.txns, ChainOf(e'.chains, 7), 2, 0);
  }
}
