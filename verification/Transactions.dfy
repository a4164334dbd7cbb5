// Transaction ids and their fate (src/transaction/mvcc.cpp).
module Transactions {
  type TxId = nat

  datatype TxState = Active | Committed | Aborted

  /** What the manager knows: the next id, the active ids and the recorded outcomes. */
  datatype TxTable = TxTable(next: TxId, active: set<TxId>, completed: map<TxId, TxState>)

  /** `is_transaction_committed`: an id that is in neither map counts as committed. */
  predicate IsCommitted(s: TxTable, t: TxId) {
    t !in s.active && (t in s.completed ==> s.completed[t] == Committed)
  }

  function Begin(s: TxTable): TxTable {
    s.(next := s.next + 1, active := s.active + {s.next})
  }

  function Finish(s: TxTable, t: TxId, fate: TxState): TxTable {
    s.(active := s.active - {t}, completed := s.completed[t := fate])
  }

  /** Every id handed out is either active or completed, and never both. */
  ghost predicate TableOk(s: TxTable) {
    && s.next >= 1
    && (forall t :: t in s.active ==> t !in s.completed)
    && (forall t :: t in s.active || t in s.completed <==> 1 <= t < s.next)
    && (forall t :: t in s.completed ==> s.completed[t] != Active)
  }

  class Transaction {
    const id: TxId
    var startTimestamp: nat
    var commitTimestamp: nat
    var state: TxState

    constructor (id: TxId, start: nat)
      ensures this.id == id && startTimestamp == start && commitTimestamp == 0 && state == Active
    {
      this.id, startTimestamp, commitTimestamp, state := id, start, 0, Active;
    }
  }

  class TransactionManager {
    var nextId: TxId
    var currentTimestamp: nat
    var active: map<TxId, Transaction>
    var completed: map<TxId, TxState>
    /** Every transaction object handed out so far. */
    ghost var issued: set<Transaction>

    ghost function State(): TxTable
      reads this
    {
      TxTable(nextId, active.Keys, completed)
    }

    /** The objects agree with the tables. */
    ghost predicate Valid()
      reads this, issued
    {
      && TableOk(State())
      && (forall t :: t in active ==> active[t] in issued && active[t].id == t)
      && (forall x :: x in issued ==>
            && x.startTimestamp < currentTimestamp
            && (if x.state == Active then x.id in active && active[x.id] == x
                else x.id in completed && completed[x.id] == x.state))
    }

    constructor ()
      ensures Valid() && issued == {} && State() == TxTable(1, {}, map[])
    {
      nextId, currentTimestamp, active, completed, issued := 1, 1, map[], map[], {};
    }

    method BeginTransaction() returns (tx: Transaction)
      requires Valid()
      modifies this
      ensures Valid() && fresh(tx) && issued == old(issued) + {tx}
      ensures nextId == old(nextId) + 1 && active == old(active)[old(nextId) := tx] && completed == old(completed)
      ensures State() == Begin(old(State()))
      ensures tx.id == old(nextId) && tx.state == Active
      ensures tx.startTimestamp == old(currentTimestamp) < currentTimestamp
    {
      tx := new Transaction(nextId, currentTimestamp);
      nextId := nextId + 1;
      currentTimestamp := currentTimestamp + 1;
      active := active[tx.id := tx];
      issued := issued + {tx};
    }

    /** Commit and abort are refused, without effect, for a transaction that is no longer active. */
    method CommitTransaction(tx: Transaction) returns (ok: bool)
      requires Valid() && tx in issued
      modifies this, tx
      ensures Valid() && issued == old(issued)
      ensures ok <==> old(tx.state) == Active
      ensures nextId == old(nextId) && active == (if ok then old(active) - {tx.id} else old(active))
      ensures completed == if ok then old(completed)[tx.id := Committed] else old(completed)
      ensures State() == if ok then Finish(old(State()), tx.id, Committed) else old(State())
      ensures tx.startTimestamp == old(tx.startTimestamp)
      ensures if ok then tx.state == Committed && tx.startTimestamp < tx.commitTimestamp < currentTimestamp
              else tx.state == old(tx.state) && tx.commitTimestamp == old(tx.commitTimestamp)
    {
      if tx.state != Active {
        return false;
      }
      tx.commitTimestamp := currentTimestamp;
      currentTimestamp := currentTimestamp + 1;
      tx.state := Committed;
      active := active - {tx.id};
      completed := completed[tx.id := Committed];
      return true;
    }

    method AbortTransaction(tx: Transaction) returns (ok: bool)
      requires Valid() && tx in issued
      modifies this, tx
      ensures Valid() && issued == old(issued)
      ensures ok <==> old(tx.state) == Active
      ensures nextId == old(nextId) && active == (if ok then old(active) - {tx.id} else old(active))
      ensures completed == if ok then old(completed)[tx.id := Aborted] else old(completed)
      ensures State() == if ok then Finish(old(State()), tx.id, Aborted) else old(State())
      ensures tx.state == if ok then Aborted else old(tx.state)
    {
      if tx.state != Active {
        return false;
      }
      tx.state := Aborted;
      active := active - {tx.id};
      completed := completed[tx.id := Aborted];
      return true;
    }

    method IsTransactionCommitted(t: TxId) returns (r: bool)
      ensures r <==> t !in active && (t in completed ==> completed[t] == Committed)
      ensures r <==> IsCommitted(State(), t)
    {
      if t in active {
        return false;
      }
      if t in completed {
        return completed[t] == Committed;
      }
      return true;
    }
  }
}
