// What has been written to a key, and what collection has left of it, over every run of the transaction layer
// (src/transaction/mvcc_manager.cpp:11-110).
module History {
  import opened Wrappers
  import opened Transactions
  import opened Versions
  import opened Mvcc
  import opened E = Engine
  import Locking
  import LP = LockProtocol

  // ----- A chain of which collection has left some versions -----

  /** The versions at the places in `kept`, in order. */
  function Select<D>(h: Chain<D>, kept: set<nat>): Chain<D> {
    if h == [] then []
    else
      var n := |h| - 1;
      Select(h[..n], kept) + if n in kept then [h[n]] else []
  }

  lemma {:induction false} SelectSame<D>(h: Chain<D>, a: set<nat>, b: set<nat>)
    requires forall j :: 0 <= j < |h| ==> (j in a <==> j in b)
    ensures Select(h, a) == Select(h, b)
  {
    if h != [] {
      SelectSame(h[..|h| - 1], a, b);
    }
  }

  lemma {:induction false} SelectMembers<D>(h: Chain<D>, kept: set<nat>, v: Version<D>)
    ensures v in Select(h, kept) <==> exists j :: 0 <= j < |h| && j in kept && h[j] == v
  {
    if h != [] {
      var n := |h| - 1;
      SelectMembers(h[..n], kept, v);
      assert forall j :: 0 <= j < n ==> h[..n][j] == h[j];
    }
  }

  /** Places of versions that are not expired. */
  function Unexpired<D>(h: Chain<D>, kept: set<nat>, m: TxId): set<nat> {
    set j | j in kept && j < |h| && !Expired(h[j], m)
  }

  lemma {:induction false} CollectSelected<D>(h: Chain<D>, kept: set<nat>, m: TxId)
    ensures Collect(Select(h, kept), m) == Select(h, Unexpired(h, kept, m))
  {
    if h != [] {
      var n := |h| - 1;
      var before := Select(h[..n], kept);
      CollectSelected(h[..n], kept, m);
      SelectSame(h[..n], Unexpired(h[..n], kept, m), Unexpired(h, kept, m));
      if n in kept {
        assert Select(h, kept)[..|before|] == before;
      } else {
        assert Select(h, kept) == before;
      }
    }
  }

  /** `chain` is what is left of all that was written, `h`. A live version is never missing, nor one of two equals. */
  ghost predicate Remains<D>(chain: Chain<D>, h: Chain<D>, kept: set<nat>) {
    && ChainOk(h) && chain == Select(h, kept)
    && (forall j :: j in kept ==> j < |h|)
    && (forall j :: 0 <= j < |h| && j !in kept ==> h[j].deleted != 0)
    && (forall i, j :: 0 <= j < i < |h| && i !in kept && h[j] == h[i] ==> j !in kept)
  }

  lemma RemainsAfterCollect<D>(chain: Chain<D>, h: Chain<D>, kept: set<nat>, m: TxId)
    requires Remains(chain, h, kept)
    ensures Remains(Collect(chain, m), h, Unexpired(h, kept, m))
  {
    CollectSelected(h, kept, m);
  }

  lemma OnlyNewestLive<D>(h: Chain<D>, j: nat)
    requires ChainOk(h) && j < |h| - 1
    ensures h[j].deleted != 0
  {
    assert Ended(h[j]) || h[j].deleted == h[j + 1].created;
  }

  /** A new version ends the newest one, if that is live, whether or not older ones are missing. */
  lemma AppendToSelected<D>(h: Chain<D>, kept: set<nat>, v: Version<D>)
    requires ChainOk(h) && forall j :: 0 <= j < |h| && j !in kept ==> h[j].deleted != 0
    ensures Append(Select(h, kept), v) == Select(Append(h, v), kept + {|h|})
  {
    var n := |h|;
    var longer := Append(h, v);
    var chain := Select(h, kept);
    assert Select(longer, kept + {n}) == Select(longer[..n], kept + {n}) + [v];
    if n == 0 {
      assert longer[..n] == h;
    } else {
      var before := Select(h[..n - 1], kept);
      assert longer[..n][..n - 1] == h[..n - 1];
      SelectSame(h[..n - 1], kept, kept + {n});
      if h[n - 1].deleted == 0 {
        assert chain == before + [h[n - 1]];
        assert longer[..n][n - 1] == h[n - 1].(deleted := v.created);
        assert Select(longer[..n], kept + {n}) == before + [h[n - 1].(deleted := v.created)];
      } else {
        assert longer[..n] == h;
        SelectSame(h, kept, kept + {n});
        NothingLive(h, kept);
      }
    }
  }

  lemma NothingLive<D>(h: Chain<D>, kept: set<nat>)
    requires ChainOk(h) && (h != [] ==> h[|h| - 1].deleted != 0)
    ensures forall i :: 0 <= i < |Select(h, kept)| ==> Select(h, kept)[i].deleted != 0
  {
    forall v | v in Select(h, kept) ensures v.deleted != 0 {
      SelectMembers(h, kept, v);
      var j :| 0 <= j < |h| && j in kept && h[j] == v;
      if j < |h| - 1 {
        OnlyNewestLive(h, j);
      }
    }
  }

  lemma AppendedAt<D>(h: Chain<D>, v: Version<D>, j: nat)
    ensures |Append(h, v)| == |h| + 1
    ensures j < |h| && h[j].deleted != 0 ==> Append(h, v)[j] == h[j]
  {
  }

  lemma RemainsAfterAppend<D>(chain: Chain<D>, h: Chain<D>, kept: set<nat>, v: Version<D>)
    requires Remains(chain, h, kept) && NewVersion(v)
    ensures Remains(Append(chain, v), Append(h, v), kept + {|h|})
  {
    AppendToSelected(h, kept, v);
    AppendKeepsChainOk(h, v);
    hide Append, ChainOk, Select, NewVersion;
    var longer := Append(h, v);
    AppendedAt(h, v, 0);
    forall j | 0 <= j < |longer| && j !in kept + {|h|} ensures longer[j] == h[j] && h[j].deleted != 0 {
      AppendedAt(h, v, j);
    }
    forall i, j | 0 <= j < i < |longer| && i !in kept + {|h|} && longer[j] == longer[i] ensures j !in kept + {|h|} {
      EqualsGoTogether(h, kept, v, i, j);
    }
  }

  lemma EqualsGoTogether<D>(h: Chain<D>, kept: set<nat>, v: Version<D>, i: nat, j: nat)
    requires j < i < |h| && i !in kept && h[i].deleted != 0 && Append(h, v)[j] == Append(h, v)[i]
    requires forall i, j :: 0 <= j < i < |h| && i !in kept && h[j] == h[i] ==> j !in kept
    ensures j !in kept
  {
    AppendedAt(h, v, i);
  }

  // ----- The read against everything that was written -----

  /** The newest visible version that is left. */
  lemma {:induction false} ReadSelected<D>(s: TxTable, h: Chain<D>, kept: set<nat>, t: TxId)
    ensures Read(s, Select(h, kept), t).None? <==>
            forall j :: 0 <= j < |h| && j in kept ==> !Visible(s, h[j], t)
    ensures Read(s, Select(h, kept), t).Some? ==>
              exists i :: 0 <= i < |h| && i in kept && Read(s, Select(h, kept), t) == Some(h[i]) && Visible(s, h[i], t)
                          && forall j :: i < j < |h| && j in kept ==> !Visible(s, h[j], t)
  {
    if h != [] {
      var n := |h| - 1;
      var before, chain := Select(h[..n], kept), Select(h, kept);
      ReadSelected(s, h[..n], kept, t);
      assert forall j :: 0 <= j < n ==> h[..n][j] == h[j];
      if n in kept {
        assert chain[..|before|] == before;
      } else {
        assert chain == before;
      }
      if n in kept && Visible(s, h[n], t) {
        assert Read(s, chain, t) == Some(h[n]);
      } else {
        assert Read(s, chain, t) == Read(s, before, t);
        if Read(s, before, t).Some? {
          var i :| 0 <= i < n && i in kept && Read(s, before, t) == Some(h[..n][i]) && Visible(s, h[..n][i], t)
                   && forall j :: i < j < n && j in kept ==> !Visible(s, h[..n][j], t);
          assert Read(s, chain, t) == Some(h[i]);
        }
      }
    }
  }

  /**
   * The newest effective write ended the key, yet an older effective version that is left is exposed again; or
   * the newest effective write is a value, and collection has taken it.
   */
  ghost predicate MisreadAt<D>(s: TxTable, h: Chain<D>, kept: set<nat>, t: TxId, i: nat)
    requires i < |h|
  {
    if Ended(h[i]) then exists j: nat :: j in kept && ExposedBelow(s, h, t, i, j) else i !in kept
  }

  ghost predicate Misread<D>(s: TxTable, h: Chain<D>, kept: set<nat>, t: TxId) {
    exists i: nat :: NewestEffective(s, h, t, i) && MisreadAt(s, h, kept, t, i)
  }

  lemma NewestDecides<D>(s: TxTable, chain: Chain<D>, h: Chain<D>, kept: set<nat>, t: TxId, i: nat)
    requires Remains(chain, h, kept) && NewestEffective(s, h, t, i)
    ensures Read(s, chain, t) == (if Ended(h[i]) then None else Some(h[i])) <==> !MisreadAt(s, h, kept, t, i)
  {
    hide Visible, Read, Select;
    forall j: nat | j < |h|
      ensures Visible(s, h[j], t) <==> Effective(s, h[j], t) && !Ended(h[j]) && Uncovered(s, h, t, j)
    {
      VisibleExactly(s, h, t, j);
    }
    ReadSelected(s, h, kept, t);
    if Ended(h[i]) {
      forall j: nat | j < |h| && j in kept ensures Visible(s, h[j], t) <==> ExposedBelow(s, h, t, i, j) {
      }
    } else {
      assert Visible(s, h[i], t);
    }
  }

  /** The read of what is left is the last effective write of all that was written, exactly when it is not misread. */
  lemma ReadIsLastWrittenIff<D>(s: TxTable, chain: Chain<D>, h: Chain<D>, kept: set<nat>, t: TxId)
    requires Remains(chain, h, kept)
    ensures Read(s, chain, t) == LastWrite(s, h, t) <==> !Misread(s, h, kept, t)
  {
    hide Read, LastWrite, Select, Remains, MisreadAt;
    LastWriteIsNewestEffective(s, h, t);
    if i: nat :| NewestEffective(s, h, t, i) {
      NewestDecides(s, chain, h, kept, t, i);
      assert forall k: nat :: NewestEffective(s, h, t, k) ==> k == i;
    } else {
      NothingToRead(s, chain, h, kept, t);
    }
  }

  lemma NothingToRead<D>(s: TxTable, chain: Chain<D>, h: Chain<D>, kept: set<nat>, t: TxId)
    requires Remains(chain, h, kept) && forall j :: 0 <= j < |h| ==> !Effective(s, h[j], t)
    ensures Read(s, chain, t) == None
  {
    ReadSelected(s, h, kept, t);
    forall j: nat | j < |h| ensures !Visible(s, h[j], t) {
      VisibleExactly(s, h, t, j);
    }
  }

  // ----- Over every run -----

  /** The write step appends to what was written to the key. */
  predicate WritesTo<D>(e: Engine<D>, key: Key, step: Step<D>) {
    step.FinishWrite? && step.tx in e.writes && e.writes[step.tx].key == key
  }

  function NextWritten<D>(e: Engine<D>, key: Key, h: Chain<D>, step: Step<D>): Chain<D> {
    if WritesTo(e, key, step) then Append(h, e.writes[step.tx].version) else h
  }

  function NextKept<D>(e: Engine<D>, key: Key, h: Chain<D>, kept: set<nat>, step: Step<D>): set<nat> {
    if WritesTo(e, key, step) then kept + {|h|}
    else if step.GarbageCollect? then Unexpired(h, kept, step.m)
    else kept
  }

  /** Everything written to the key in the first i steps, whatever has been collected. */
  ghost function Written<D>(states: seq<Engine<D>>, steps: seq<Step<D>>, key: Key, i: nat): Chain<D>
    requires i <= |steps| < |states|
  {
    if i == 0 then [] else NextWritten(states[i - 1], key, Written(states, steps, key, i - 1), steps[i - 1])
  }

  /** The places in it that collection has left. */
  ghost function Kept<D>(states: seq<Engine<D>>, steps: seq<Step<D>>, key: Key, i: nat): set<nat>
    requires i <= |steps| < |states|
  {
    if i == 0 then {}
    else NextKept(states[i - 1], key, Written(states, steps, key, i - 1), Kept(states, steps, key, i - 1), steps[i - 1])
  }

  lemma StepKeepsRemains<D>(e: Engine<D>, key: Key, h: Chain<D>, kept: set<nat>, step: Step<D>)
    requires Inv(e) && Allowed(e, step) && Remains(ChainOf(e.chains, key), h, kept)
    ensures Remains(ChainOf(Apply(e, step).chains, key), NextWritten(e, key, h, step), NextKept(e, key, h, kept, step))
  {
    hide Remains, LP.Inv, LocksMatchWrites, Locking.Attempt, LP.Pass, LP.Apply;
    match step
    case FinishWrite(t) =>
      if e.writes[t].key == key {
        RemainsAfterAppend(ChainOf(e.chains, key), h, kept, e.writes[t].version);
      }
    case GarbageCollect(m) =>
      CollectAllChain(e.chains, m, key);
      RemainsAfterCollect(ChainOf(e.chains, key), h, kept, m);
    case _ =>
  }

  lemma {:induction false} RunKeepsRemains<D>(states: seq<Engine<D>>, steps: seq<Step<D>>, key: Key, i: nat)
    requires Steps(states, steps) && states[0] == Initial() && i <= |steps|
    ensures Inv(states[i])
    ensures Remains(ChainOf(states[i].chains, key), Written(states, steps, key, i), Kept(states, steps, key, i))
  {
    hide Inv, Apply, Allowed;
    if i == 0 {
      StartsRight<D>();
    } else {
      RunKeepsRemains(states, steps, key, i - 1);
      assert Allowed(states[i - 1], steps[i - 1]) && states[(i - 1) + 1] == Apply(states[i - 1], steps[i - 1]);
      StepKeepsInv(states[i - 1], steps[i - 1]);
      StepKeepsRemains(states[i - 1], key, Written(states, steps, key, i - 1), Kept(states, steps, key, i - 1), steps[i - 1]);
    }
  }

  lemma StartsRight<D>()
    ensures Inv(Initial<D>())
  {
    LP.RunKeepsInv([LP.Initial], 0);
  }

  /**
   * After every run, under any interleaving of writes, commits, aborts and collections, a read is the last effective
   * write of all that was written to the key, exactly when it is not misread.
   */
  lemma ReadsOverRuns<D>(states: seq<Engine<D>>, steps: seq<Step<D>>, i: nat, t: TxId, key: Key)
    requires Steps(states, steps) && states[0] == Initial() && i <= |steps|
    ensures ReadBy(states[i], t, key) == LastWrite(states[i].txns, Written(states, steps, key, i), t) <==>
            !Misread(states[i].txns, Written(states, steps, key, i), Kept(states, steps, key, i), t)
  {
    RunKeepsRemains(states, steps, key, i);
    ReadIsLastWrittenIff(states[i].txns, ChainOf(states[i].chains, key), Written(states, steps, key, i),
                         Kept(states, steps, key, i), t);
  }

  /** The manager, in a state that a run has reached: what it answers is measured against everything written. */
  method ReadAfterRun<D>(manager: MvccManager<D>, key: Key, t: TxId,
                         ghost states: seq<Engine<D>>, ghost steps: seq<Step<D>>)
    returns (r: Result<Version<D>, MvccError>)
    requires Steps(states, steps) && states[0] == Initial()
    requires manager.txns.State() == states[|steps|].txns && manager.versions == states[|steps|].chains
    ensures (if r.Ok? then Some(r.value) else None) ==
            LastWrite(states[|steps|].txns, Written(states, steps, key, |steps|), t) <==>
            !Misread(states[|steps|].txns, Written(states, steps, key, |steps|), Kept(states, steps, key, |steps|), t)
  {
    hide Misread, LastWrite, Written, Kept, Steps;
    ReadsOverRuns(states, steps, |steps|, t, key);
    r := manager.ReadVersion(key, t);
  }

  /** Step p collects the version at place j of what had been written by then. */
  ghost predicate Takes<D>(states: seq<Engine<D>>, steps: seq<Step<D>>, key: Key, p: nat, j: nat)
    requires p < |steps| < |states|
  {
    steps[p].GarbageCollect? && j < |Written(states, steps, key, p)|
    && Expired(Written(states, steps, key, p)[j], steps[p].m)
  }

  /** A version is missing exactly when some collection came after the version had been ended by an id below its bound. */
  lemma {:induction false} MissingIff<D>(states: seq<Engine<D>>, steps: seq<Step<D>>, key: Key, i: nat, j: nat)
    requires i <= |steps| < |states| && j < |Written(states, steps, key, i)|
    ensures j !in Kept(states, steps, key, i) <==> exists p :: 0 <= p < i && Takes(states, steps, key, p, j)
  {
    if i > 0 {
      var h := Written(states, steps, key, i - 1);
      if j < |h| {
        MissingIff(states, steps, key, i - 1, j);
        assert Takes(states, steps, key, i - 1, j) <==> steps[i - 1].GarbageCollect? && Expired(h[j], steps[i - 1].m);
      } else {
        WrittenGrows(states, steps, key, i - 1);
      }
    }
  }

  lemma {:induction false} WrittenGrows<D>(states: seq<Engine<D>>, steps: seq<Step<D>>, key: Key, i: nat)
    requires i <= |steps| < |states|
    ensures forall p :: 0 <= p <= i ==> |Written(states, steps, key, p)| <= |Written(states, steps, key, i)|
  {
    if i > 0 {
      WrittenGrows(states, steps, key, i - 1);
    }
  }

  // ----- Runs that go wrong -----

  /** Some run from the start ends in `e`, having written `h` to the key, of which `kept` is left. */
  ghost predicate ReachableAs<D(!new)>(e: Engine<D>, key: Key, h: Chain<D>, kept: set<nat>) {
    exists states, steps ::
      Steps(states, steps) && states[0] == Initial() && states[|steps|] == e
      && Written(states, steps, key, |steps|) == h && Kept(states, steps, key, |steps|) == kept
  }

  lemma {:induction false} HistoryOfPrefix<D>(states: seq<Engine<D>>, steps: seq<Step<D>>, e: Engine<D>, step: Step<D>,
                                              key: Key, i: nat)
    requires i <= |steps| < |states|
    ensures Written(states + [e], steps + [step], key, i) == Written(states, steps, key, i)
    ensures Kept(states + [e], steps + [step], key, i) == Kept(states, steps, key, i)
  {
    if i > 0 {
      HistoryOfPrefix(states, steps, e, step, key, i - 1);
    }
  }

  lemma NextReachable<D(!new)>(e: Engine<D>, key: Key, h: Chain<D>, kept: set<nat>, step: Step<D>)
    requires ReachableAs(e, key, h, kept) && Allowed(e, step)
    ensures ReachableAs(Apply(e, step), key, NextWritten(e, key, h, step), NextKept(e, key, h, kept, step))
  {
    hide NextWritten, NextKept, Apply, Allowed;
    var states, steps :|
      Steps(states, steps) && states[0] == Initial() && states[|steps|] == e
      && Written(states, steps, key, |steps|) == h && Kept(states, steps, key, |steps|) == kept;
    var e' := Apply(e, step);
    var states', steps' := states + [e'], steps + [step];
    StepsLonger(states, steps, step);
    HistoryOfPrefix(states, steps, e', step, key, |steps|);
    assert Steps(states', steps') && states'[0] == Initial() && states'[|steps'|] == e';
    assert Written(states', steps', key, |steps'|) == NextWritten(e, key, h, step);
    assert Kept(states', steps', key, |steps'|) == NextKept(e, key, h, kept, step);
  }

  lemma StepsLonger<D>(states: seq<Engine<D>>, steps: seq<Step<D>>, step: Step<D>)
    requires Steps(states, steps) && Allowed(states[|steps|], step)
    ensures Steps(states + [Apply(states[|steps|], step)], steps + [step])
  {
    hide Apply, Allowed;
    var states', steps' := states + [Apply(states[|steps|], step)], steps + [step];
    forall i | 0 <= i < |steps'| ensures Allowed(states'[i], steps'[i]) && states'[i + 1] == Apply(states'[i], steps'[i]) {
      if i < |steps| {
        assert Allowed(states[i], steps[i]) && states[i + 1] == Apply(states[i], steps[i]);
      }
    }
  }

  /** What a reachable state has in its chain follows from the history. */
  lemma ReachedChain<D(!new)>(e: Engine<D>, key: Key, h: Chain<D>, kept: set<nat>)
    requires ReachableAs(e, key, h, kept)
    ensures Reachable(e) && Inv(e) && ChainOf(e.chains, key) == Select(h, kept)
  {
    var states, steps :|
      Steps(states, steps) && states[0] == Initial() && states[|steps|] == e
      && Written(states, steps, key, |steps|) == h && Kept(states, steps, key, |steps|) == kept;
    RunKeepsRemains(states, steps, key, |steps|);
  }

  /** A reachable state with no write in flight. */
  ghost predicate Quiet<D(!new)>(e: Engine<D>, key: Key, table: TxTable, h: Chain<D>, kept: set<nat>) {
    ReachableAs(e, key, h, kept) && e.txns == table && e.writes == map[]
  }

  lemma QuietFour<D(!new)>(key: Key) returns (e: Engine<D>)
    ensures Quiet(e, key, TxTable(5, {1, 2, 3, 4}, map[]), [], {})
  {
    e := Initial();
    assert ReachableAs(e, key, [], {}) by {
      var states, steps: seq<Step<D>> := [e], [];
      assert Steps(states, steps) && states[0] == Initial() && states[|steps|] == e;
      assert Written(states, steps, key, |steps|) == [] && Kept(states, steps, key, |steps|) == {};
    }
    e := QuietBegin(e, key, [], {});
    e := QuietBegin(e, key, [], {});
    e := QuietBegin(e, key, [], {});
    e := QuietBegin(e, key, [], {});
  }

  lemma QuietBegin<D(!new)>(e: Engine<D>, key: Key, h: Chain<D>, kept: set<nat>) returns (e': Engine<D>)
    requires Quiet(e, key, e.txns, h, kept)
    ensures Quiet(e', key, Begin(e.txns), h, kept)
  {
    hide ReachableAs;
    NextReachable(e, key, h, kept, BeginTx);
    e' := Apply(e, BeginTx);
  }

  lemma QuietEnd<D(!new)>(e: Engine<D>, key: Key, h: Chain<D>, kept: set<nat>, t: TxId, commits: bool)
    returns (e': Engine<D>)
    requires Quiet(e, key, e.txns, h, kept) && t in e.txns.active
    ensures Quiet(e', key, Finish(e.txns, t, if commits then Committed else Aborted), h, kept)
  {
    hide ReachableAs;
    var step: Step<D> := if commits then CommitTx(t) else AbortTx(t);
    NextReachable(e, key, h, kept, step);
    e' := Apply(e, step);
  }

  lemma QuietCollect<D(!new)>(e: Engine<D>, key: Key, h: Chain<D>, kept: set<nat>, m: TxId) returns (e': Engine<D>)
    requires Quiet(e, key, e.txns, h, kept)
    ensures e' == Apply(e, GarbageCollect(m)) && Quiet(e', key, e.txns, h, Unexpired(h, kept, m))
  {
    hide ReachableAs;
    NextReachable(e, key, h, kept, GarbageCollect(m));
    e' := Apply(e, GarbageCollect(m));
  }

  lemma QuietWrite<D(!new)>(e: Engine<D>, key: Key, h: Chain<D>, kept: set<nat>, v: Version<D>) returns (e': Engine<D>)
    requires Quiet(e, key, e.txns, h, kept) && v.created in e.txns.active && NewVersion(v)
    ensures Quiet(e', key, e.txns, Append(h, v), kept + {|h|})
  {
    hide ReachableAs;
    var t, w := v.created, Write(key, v);
    ReachedChain(e, key, h, kept);
    NobodyHolds(e, key);
    assert t !in e.locking.asleep;
    UncontendedWrite(e, t, w);
    NextReachable(e, key, h, kept, StartWrite(t, w));
    var e1 := Apply(e, StartWrite(t, w));
    NextReachable(e1, key, h, kept, Step<D>.FinishWrite(t));
    e' := Apply(e1, Step<D>.FinishWrite(t));
    assert WritesTo(e1, key, Step<D>.FinishWrite(t)) && e1.writes[t] == w;
  }

  /** The transaction writes once and ends. */
  lemma QuietTransaction<D(!new)>(e: Engine<D>, key: Key, h: Chain<D>, kept: set<nat>, v: Version<D>, commits: bool,
                                  h': Chain<D>, kept': set<nat>)
    returns (e': Engine<D>)
    requires Quiet(e, key, e.txns, h, kept) && v.created in e.txns.active && NewVersion(v)
    requires h' == Append(h, v) && kept' == kept + {|h|}
    ensures Quiet(e', key, Finish(e.txns, v.created, if commits then Committed else Aborted), h', kept')
  {
    hide ReachableAs, Append;
    e' := QuietWrite(e, key, h, kept, v);
    e' := QuietEnd(e', key, h', kept', v.created, commits);
  }

  lemma AppendTwo<D>(a: Version<D>, b: Version<D>)
    requires a.deleted == 0
    ensures Append([], a) == [a] && Append([a], b) == [a.(deleted := b.created), b]
  {
  }

  lemma AppendThree<D>(a: Version<D>, b: Version<D>, c: Version<D>)
    requires b.deleted == 0
    ensures Append([a, b], c) == [a, b.(deleted := c.created), c]
  {
  }

  lemma SelectLast<D>(h: Chain<D>, v: Version<D>, kept: set<nat>)
    ensures Select(h + [v], kept) == Select(h, kept) + if |h| in kept then [v] else []
  {
    assert (h + [v])[..|h|] == h;
  }

  /** Three transactions write one key, in the order given, the last as it likes. */
  lemma ThreeWrites<D(!new)>(a: Version<D>, b: Version<D>, c: Version<D>, aCommits: bool, bCommits: bool, cCommits: bool)
    returns (e: Engine<D>, table: TxTable)
    requires {a.created, b.created, c.created} == {1, 2, 3} && a.deleted == b.deleted == 0 && NewVersion(c)
    ensures table.next == 5 && table.active == {4}
    ensures table.completed.Keys == {1, 2, 3}
    ensures table.completed[a.created] == (if aCommits then Committed else Aborted)
    ensures table.completed[b.created] == (if bCommits then Committed else Aborted)
    ensures table.completed[c.created] == (if cCommits then Committed else Aborted)
    ensures Quiet(e, 7, table, [a.(deleted := b.created), b.(deleted := c.created), c], {0, 1, 2})
  {
    hide ReachableAs, Append;
    e := QuietFour(7);
    AppendTwo(a, b);
    AppendThree(a.(deleted := b.created), b, c);
    var a', b' := a.(deleted := b.created), b.(deleted := c.created);
    e := QuietTransaction(e, 7, [], {}, a, aCommits, [a], {0});
    e := QuietTransaction(e, 7, [a], {0}, b, bCommits, [a', b], {0, 1});
    e := QuietTransaction(e, 7, [a', b], {0, 1}, c, cCommits, [a', b', c], {0, 1, 2});
    table := e.txns;
  }

  lemma ReadSelectedLast<D>(s: TxTable, h: Chain<D>, v: Version<D>, kept: set<nat>, t: TxId)
    ensures Read(s, Select(h + [v], kept), t) ==
            if |h| in kept && Visible(s, v, t) then Some(v) else Read(s, Select(h, kept), t)
  {
    hide Visible, Select, Read;
    SelectLast(h, v, kept);
    ReadLast(s, Select(h, kept), v, t);
    assert Select(h, kept) + [] == Select(h, kept);
  }

  function ReadThree<D>(s: TxTable, a: Version<D>, b: Version<D>, c: Version<D>, kept: set<nat>, t: TxId): Option<Version<D>> {
    if 2 in kept && Visible(s, c, t) then Some(c)
    else if 1 in kept && Visible(s, b, t) then Some(b)
    else if 0 in kept && Visible(s, a, t) then Some(a)
    else None
  }

  lemma ReadOfThree<D(!new)>(e: Engine<D>, table: TxTable, a: Version<D>, b: Version<D>, c: Version<D>, kept: set<nat>)
    requires Quiet(e, 7, table, [a, b, c], kept)
    ensures Reachable(e) && ReadBy(e, 4, 7) == ReadThree(table, a, b, c, kept, 4)
  {
    hide Visible, ReachableAs, Select, Read, Inv;
    ReachedChain(e, 7, [a, b, c], kept);
    var none: Chain<D> := [];
    assert none + [a] == [a] && [a] + [b] == [a, b] && [a, b] + [c] == [a, b, c];
    EmptyRead<D>(table, kept);
    ReadSelectedLast(table, none, a, kept, 4);
    ReadSelectedLast(table, [a], b, kept, 4);
    ReadSelectedLast(table, [a, b], c, kept, 4);
  }

  lemma EmptyRead<D>(table: TxTable, kept: set<nat>)
    ensures Read<D>(table, Select([], kept), 4) == None
  {
  }

  lemma LastOfThree<D>(s: TxTable, a: Version<D>, b: Version<D>, c: Version<D>, t: TxId)
    ensures LastWrite(s, [a, b, c], t) ==
            if Effective(s, c, t) then (if Ended(c) then None else Some(c))
            else if Effective(s, b, t) then (if Ended(b) then None else Some(b))
            else if Effective(s, a, t) then (if Ended(a) then None else Some(a))
            else None
  {
    hide Visible, Effective, Read, LastWrite, Ended;
    var none: Chain<D> := [];
    assert none + [a] == [a] && [a] + [b] == [a, b] && [a, b] + [c] == [a, b, c];
    assert LastWrite(s, none, t) == None by { EmptyLast<D>(s, t); }
    ReadLast(s, none, a, t);
    ReadLast(s, [a], b, t);
    ReadLast(s, [a, b], c, t);
  }

  lemma EmptyLast<D>(s: TxTable, t: TxId)
    ensures LastWrite<D>(s, [], t) == None
  {
  }

  /** An aborted writer between a value and a committed deletion makes the deleted value readable again. */
  lemma AbortedWriterResurrects<D(!new)>(x: D, y: D, z: D) returns (e: Engine<D>)
    ensures Reachable(e) && e.txns.active == {4}
    ensures ReachableAs(e, 7, [Version(1, 2, x), Version(2, 3, y), Version(3, 3, z)], {0, 1, 2})
    ensures LastWrite(e.txns, [Version(1, 2, x), Version(2, 3, y), Version(3, 3, z)], 4) == None
    ensures ReadBy(e, 4, 7) == Some(Version(1, 2, x))
  {
    hide ReachableAs, Inv, Allowed, ReadBy, LastWrite;
    var table;
    e, table := ThreeWrites(Version(1, 0, x), Version(2, 0, y), Version(3, 3, z), true, false, true);
    ReadOfThree(e, table, Version(1, 2, x), Version(2, 3, y), Version(3, 3, z), {0, 1, 2});
    LastOfThree(table, Version(1, 2, x), Version(2, 3, y), Version(3, 3, z), 4);
  }

  /** After two aborted overwrites, collection takes the only committed value. */
  lemma CollectAfterAbortLosesValue<D(!new)>(x: D, y: D, z: D) returns (e: Engine<D>)
    ensures Reachable(e) && e.txns.active == {4} && ReadBy(e, 4, 7) == Some(Version(1, 2, x))
    ensures var e' := Apply(e, GarbageCollect(4));
            var h := [Version(1, 2, x), Version(2, 3, y), Version(3, 0, z)];
            && ReachableAs(e', 7, h, {2}) && Ordered(h)
            && ReadBy(e', 4, 7) == None && LastWrite(e'.txns, h, 4) == Some(Version(1, 2, x))
  {
    hide ReachableAs, Inv, Allowed, ReadBy, LastWrite;
    var table;
    var a, b, c := Version(1, 2, x), Version(2, 3, y), Version(3, 0, z);
    e, table := ThreeWrites(Version(1, 0, x), Version(2, 0, y), c, true, false, false);
    ReadOfThree(e, table, a, b, c, {0, 1, 2});
    assert Unexpired([a, b, c], {0, 1, 2}, 4) == {2};
    var e' := QuietCollect(e, 7, [a, b, c], {0, 1, 2}, 4);
    ReadOfThree(e', table, a, b, c, {2});
    LastOfThree(table, a, b, c, 4);
  }

  /** With creators out of order, collection takes the newest committed value out of the middle. */
  lemma CollectOutOfOrderLosesValue<D(!new)>(x: D, y: D, z: D) returns (e: Engine<D>)
    ensures Reachable(e) && e.txns.active == {4} && ReadBy(e, 4, 7) == Some(Version(3, 1, y))
    ensures var e' := Apply(e, GarbageCollect(2));
            var h := [Version(2, 3, x), Version(3, 1, y), Version(1, 0, z)];
            && ReachableAs(e', 7, h, {0, 2})
            && ReadBy(e', 4, 7) == None && LastWrite(e'.txns, h, 4) == Some(Version(3, 1, y))
  {
    hide ReachableAs, Inv, Allowed, ReadBy, LastWrite;
    var table;
    var a, b, c := Version(2, 3, x), Version(3, 1, y), Version(1, 0, z);
    e, table := ThreeWrites(Version(2, 0, x), Version(3, 0, y), c, true, true, false);
    ReadOfThree(e, table, a, b, c, {0, 1, 2});
    assert Unexpired([a, b, c], {0, 1, 2}, 2) == {0, 2};
    var e' := QuietCollect(e, 7, [a, b, c], {0, 1, 2}, 2);
    ReadOfThree(e', table, a, b, c, {0, 2});
    LastOfThree(table, a, b, c, 4);
  }

  /** Two transactions that run at the same time have read one value; both replace it, and both commit. */
  lemma LostUpdate<D(!new)>(x: D, y: D, z: D) returns (before: Engine<D>, after: Engine<D>)
    ensures Reachable(before) && before.txns.active == {2, 3, 4}
    ensures ReadBy(before, 2, 7) == ReadBy(before, 3, 7) == Some(Version(1, 0, x))
    ensures Reachable(after) && after.txns.active == {4}
    ensures after.txns.completed == map[1 := Committed, 2 := Committed, 3 := Committed]
    ensures ReachableAs(after, 7, [Version(1, 2, x), Version(2, 3, y), Version(3, 0, z)], {0, 1, 2})
    ensures ReadBy(after, 4, 7) == Some(Version(3, 0, z))
  {
    hide ReachableAs, Append, Inv, Allowed, LastWrite;
    var a, b, c := Version(1, 0, x), Version(2, 0, y), Version(3, 0, z);
    var a', b' := Version(1, 2, x), Version(2, 3, y);
    AppendTwo(a, b);
    AppendThree(a', b, c);
    var e := QuietFour(7);
    before := QuietTransaction(e, 7, [], {}, a, true, [a], {0});
    ReadOfOne(before, before.txns, a);
    e := QuietWrite(before, 7, [a], {0}, b);
    assert {0} + {1} == {0, 1} && {0, 1} + {2} == {0, 1, 2};
    e := QuietWrite(e, 7, [a', b], {0, 1}, c);
    e := QuietEnd(e, 7, [a', b', c], {0, 1, 2}, 2, true);
    after := QuietEnd(e, 7, [a', b', c], {0, 1, 2}, 3, true);
    ReadOfThree(after, after.txns, a', b', c, {0, 1, 2});
  }

  lemma ReadOfOne<D(!new)>(e: Engine<D>, table: TxTable, a: Version<D>)
    requires Quiet(e, 7, table, [a], {0})
    ensures Reachable(e) && forall t :: Visible(table, a, t) ==> ReadBy(e, t, 7) == Some(a)
  {
    ReachedChain(e, 7, [a], {0});
    var none: Chain<D> := [];
    SelectLast(none, a, {0});
    assert none + [a] == [a];
  }
}
