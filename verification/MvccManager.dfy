// The MVCC manager: version chains by key, guarded by one exclusive lock per write
// (src/transaction/mvcc_manager.cpp).
module Mvcc {
  import opened Wrappers
  import opened Transactions
  import opened Versions
  import Locking

  type Key = nat

  datatype MvccError = NotFound | Conflict

  /** How a call of `write_version` that does not sleep inside the lock manager ends. */
  datatype WriteOutcome = Written | Refused(error: MvccError) | Sleeping

  function ChainOf<D>(chains: map<Key, Chain<D>>, key: Key): Chain<D> {
    if key in chains then chains[key] else []
  }

  function WriteKey<D>(chains: map<Key, Chain<D>>, key: Key, v: Version<D>): map<Key, Chain<D>> {
    chains[key := Append(ChainOf(chains, key), v)]
  }

  /** Chains that become empty lose their entry. */
  function CollectAll<D>(chains: map<Key, Chain<D>>, m: TxId): map<Key, Chain<D>> {
    map key | key in chains && Collect(chains[key], m) != [] :: Collect(chains[key], m)
  }

  lemma CollectAllChain<D>(chains: map<Key, Chain<D>>, m: TxId, key: Key)
    ensures ChainOf(CollectAll(chains, m), key) == Collect(ChainOf(chains, key), m)
  {
  }

  lemma CollectedExact<D>(chains: map<Key, Chain<D>>, m: TxId)
    ensures var kept := CollectAll(chains, m);
            && (forall key :: key in kept <==>
                  key in chains && exists v :: v in chains[key] && !(v.deleted != 0 && v.deleted < m))
            && (forall key :: key in kept ==>
                  forall v :: v in kept[key] <==> v in chains[key] && !(v.deleted != 0 && v.deleted < m))
  {
    hide Collect;
    var kept := CollectAll(chains, m);
    forall key | key in chains
      ensures forall v :: v in Collect(chains[key], m) <==> v in chains[key] && !(v.deleted != 0 && v.deleted < m)
    {
      forall v ensures v in Collect(chains[key], m) <==> v in chains[key] && !(v.deleted != 0 && v.deleted < m) {
        CollectDropsExpired(chains[key], m, v);
      }
    }
    forall key | key in chains && Collect(chains[key], m) != []
      ensures exists v :: v in chains[key] && !(v.deleted != 0 && v.deleted < m)
    {
      var v := Collect(chains[key], m)[0];
      CollectDropsExpired(chains[key], m, v);
      assert v in chains[key] && !(v.deleted != 0 && v.deleted < m);
    }
  }

  class MvccManager<D> {
    const txns: TransactionManager
    const locks: Locking.LockManager
    var versions: map<Key, Chain<D>>

    constructor (txns: TransactionManager)
      ensures this.txns == txns && fresh(locks) && versions == map[]
      ensures locks.State() == Locking.LockState(map[], map[])
    {
      this.txns := txns;
      locks := new Locking.LockManager();
      versions := map[];
    }

    method IsVersionVisible(v: Version<D>, t: TxId) returns (r: bool)
      ensures r <==> Visible(txns.State(), v, t)
    {
      if v.created == t {
        return v.deleted == 0 || v.deleted != t;
      }
      var committed := txns.IsTransactionCommitted(v.created);
      if !committed {
        return false;
      }
      if v.created > t {
        return false;
      }
      if v.deleted != 0 {
        if v.deleted == t {
          return false;
        }
        committed := txns.IsTransactionCommitted(v.deleted);
        if committed && v.deleted <= t {
          return false;
        }
      }
      return true;
    }

    /** The newest version visible to `t`, and NOT_FOUND exactly if there is none. */
    method ReadVersion(key: Key, t: TxId) returns (r: Result<Version<D>, MvccError>)
      ensures var chain := if key in versions then versions[key] else [];
              && (r.Ok? <==> exists i :: 0 <= i < |chain| && Visible(txns.State(), chain[i], t))
              && (r.Ok? ==> exists i :: 0 <= i < |chain| && r.value == chain[i] && Visible(txns.State(), chain[i], t)
                              && forall j :: i < j < |chain| ==> !Visible(txns.State(), chain[j], t))
              && (r.Err? ==> r.error == NotFound)
      ensures var chain := if key in versions then versions[key] else [];
              && Read(txns.State(), chain, t) == (if r.Ok? then Some(r.value) else None)
              && (ChainOk(chain) ==>
                    ((if r.Ok? then Some(r.value) else None) == LastWrite(txns.State(), chain, t) <==>
                     !Resurrects(txns.State(), chain, t)))
    {
      ghost var all := if key in versions then versions[key] else [];
      ReadIsNewestVisible(txns.State(), all, t);
      if ChainOk(all) {
        ReadIsLastWriteIff(txns.State(), all, t);
      }
      r := Newest(key, t);
    }

    method Newest(key: Key, t: TxId) returns (r: Result<Version<D>, MvccError>)
      ensures Read(txns.State(), if key in versions then versions[key] else [], t) == if r.Ok? then Some(r.value) else None
      ensures r.Err? ==> r.error == NotFound
    {
      if key !in versions {
        return Err(NotFound);
      }
      var chain := versions[key];
      var i := |chain|;
      assert chain[..i] == chain;
      while i > 0
        invariant 0 <= i <= |chain| && Read(txns.State(), chain, t) == Read(txns.State(), chain[..i], t)
      {
        i := i - 1;
        assert chain[..i + 1][..i] == chain[..i];
        var visible := IsVersionVisible(chain[i], t);
        if visible {
          return Ok(chain[i]);
        }
      }
      return Err(NotFound);
    }

    /** The first half of `write_version`: one pass at the exclusive lock on the key. */
    method BeginWrite(key: Key, v: Version<D>) returns (outcome: Locking.Outcome)
      modifies locks
      ensures (locks.State(), outcome) == Locking.Attempt(old(locks.State()), v.created, key, Locking.Exclusive)
    {
      outcome := locks.TryLock(v.created, key, Locking.Exclusive);
    }

    /** The second half, once the lock is held: mark the latest version, append, release. */
    method FinishWrite(key: Key, v: Version<D>)
      modifies this`versions, locks
      ensures versions == WriteKey(old(versions), key, v)
      ensures versions.Keys == old(versions.Keys) + {key}
      ensures forall k :: k in old(versions) && k != key ==> versions[k] == old(versions)[k]
      ensures var chain, n := if key in old(versions) then old(versions)[key] else [], |versions[key]| - 1;
              && n == |chain| && versions[key][n] == v && (forall j :: 0 <= j < n - 1 ==> versions[key][j] == chain[j])
              && (n > 0 ==> versions[key][n - 1] ==
                              chain[n - 1].(deleted := if chain[n - 1].deleted == 0 then v.created else chain[n - 1].deleted))
      ensures locks.State() == Locking.Unlock(old(locks.State()), v.created, key)
    {
      var chain := if key in versions then versions[key] else [];
      if |chain| > 0 {
        var latest := chain[|chain| - 1];
        if latest.deleted == 0 {
          chain := chain[|chain| - 1 := latest.(deleted := v.created)];
        }
      }
      chain := chain + [v];
      versions := versions[key := chain];
      var notify := locks.Release(v.created, key);
    }

    /** `write_version` by a caller that reports, instead of waiting out, a held lock. */
    method WriteVersion(key: Key, v: Version<D>) returns (r: WriteOutcome)
      modifies this`versions, locks
      ensures r == Written <==> key in old(locks.table) ==> forall q :: q in old(locks.table[key]) ==> q.tx == v.created
      ensures r != Written ==> versions == old(versions)
      ensures r == Written ==>
                && versions.Keys == old(versions.Keys) + {key} && |versions[key]| > 0 && versions[key][|versions[key]| - 1] == v
                && (forall k :: k in old(versions) && k != key ==> versions[k] == old(versions)[k])
                && (key in locks.table ==> forall q :: q in locks.table[key] ==> q.tx != v.created)
      ensures var (asked, outcome) := Locking.Attempt(old(locks.State()), v.created, key, Locking.Exclusive);
              match outcome
              case Granted => r == Written && versions == WriteKey(old(versions), key, v)
                              && locks.State() == Locking.Unlock(asked, v.created, key)
              case Deadlock => r == Refused(Conflict) && versions == old(versions) && locks.State() == asked
              case Waiting => r == Sleeping && versions == old(versions) && locks.State() == asked
    {
      hide WriteKey, Locking.Attempt, Locking.Without;
      Locking.GrantedIff(locks.State(), v.created, key, Locking.Exclusive);
      var outcome := BeginWrite(key, v);
      match outcome
      case Deadlock => return Refused(Conflict);
      case Waiting => return Sleeping;
      case Granted =>
        ghost var held := Locking.Requests(locks.State(), key);
        forall q ensures q in Locking.Without(held, v.created) <==> q in held && q.tx != v.created {
          Locking.WithoutExact(held, v.created, q);
        }
        FinishWrite(key, v);
        return Written;
    }

    /** Of every chain the versions ended before `m` go; a chain with no other versions goes as a whole. */
    method GarbageCollect(m: TxId)
      modifies this`versions
      ensures versions == CollectAll(old(versions), m)
      ensures forall key :: key in versions <==>
                key in old(versions) && exists v :: v in old(versions)[key] && !(v.deleted != 0 && v.deleted < m)
      ensures forall key :: key in versions ==>
                forall v :: v in versions[key] <==> v in old(versions)[key] && !(v.deleted != 0 && v.deleted < m)
    {
      hide Collect;
      ghost var before := versions;
      var todo := versions.Keys;
      while todo != {}
        invariant todo <= before.Keys && versions.Keys <= before.Keys
        invariant forall key :: key in todo ==> key in versions && versions[key] == before[key]
        invariant forall key :: key in before && key !in todo ==>
                    if Collect(before[key], m) == [] then key !in versions
                    else key in versions && versions[key] == Collect(before[key], m)
      {
        var key :| key in todo;
        var kept := RemoveExpired(versions[key], m);
        if kept == [] {
          versions := versions - {key};
        } else {
          versions := versions[key := kept];
        }
        todo := todo - {key};
      }
      assert versions == CollectAll(before, m);
      CollectedExact(before, m);
    }

    static method RemoveExpired(chain: Chain<D>, m: TxId) returns (kept: Chain<D>)
      ensures kept == Collect(chain, m)
    {
      kept := [];
      for i := 0 to |chain|
        invariant kept == Collect(chain[..i], m)
      {
        assert chain[..i + 1][..i] == chain[..i];
        if !(chain[i].deleted != 0 && chain[i].deleted < m) {
          kept := kept + [chain[i]];
        }
      }
      assert chain[..|chain|] == chain;
    }
  }
}
