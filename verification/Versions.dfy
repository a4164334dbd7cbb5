// Version chains: visibility, the newest-first read, appending and garbage collection
// (src/transaction/mvcc_manager.cpp:11-110) against "the last write by me or by a committed
// transaction with an id no greater than mine".
module Versions {
  import opened Wrappers
  import opened Transactions

  /** `deleted == 0` means live; a version written as a tombstone has `deleted == created`. */
  datatype Version<D> = Version(created: TxId, deleted: TxId, data: D)

  type Chain<D> = seq<Version<D>>

  predicate Visible<D>(s: TxTable, v: Version<D>, t: TxId) {
    if v.created == t then v.deleted == 0 || v.deleted != t
    else if !IsCommitted(s, v.created) then false
    else if v.created > t then false
    else if v.deleted != 0 then v.deleted != t && !(IsCommitted(s, v.deleted) && v.deleted <= t)
    else true
  }

  function Read<D>(s: TxTable, chain: Chain<D>, t: TxId): Option<Version<D>> {
    if chain == [] then None
    else if Visible(s, chain[|chain| - 1], t) then Some(chain[|chain| - 1])
    else Read(s, chain[..|chain| - 1], t)
  }

  function Append<D>(chain: Chain<D>, v: Version<D>): Chain<D> {
    var n := |chain|;
    (if n > 0 && chain[n - 1].deleted == 0 then chain[n - 1 := chain[n - 1].(deleted := v.created)] else chain) + [v]
  }

  predicate Expired<D>(v: Version<D>, m: TxId) {
    v.deleted != 0 && v.deleted < m
  }

  function Collect<D>(chain: Chain<D>, m: TxId): Chain<D> {
    if chain == [] then []
    else
      var last := chain[|chain| - 1];
      Collect(chain[..|chain| - 1], m) + if Expired(last, m) then [] else [last]
  }

  // ----- The chain invariant -----

  /** What a caller may write: a live version or a tombstone, by a real transaction. */
  predicate NewVersion<D>(v: Version<D>) {
    v.created > 0 && (v.deleted == 0 || v.deleted == v.created)
  }

  /** Ended by its own creator: a tombstone, or overwritten by the transaction that wrote it. */
  predicate Ended<D>(v: Version<D>) {
    v.deleted == v.created
  }

  /** Every version but the newest was ended by its own creator or by the creator of the next. */
  ghost predicate ChainOk<D>(chain: Chain<D>) {
    && (forall j :: 0 <= j < |chain| ==> chain[j].created > 0)
    && (forall j :: 0 <= j < |chain| - 1 ==> Ended(chain[j]) || chain[j].deleted == chain[j + 1].created)
    && (chain != [] ==> NewVersion(chain[|chain| - 1]))
  }

  ghost predicate Ordered<D>(chain: Chain<D>) {
    forall i, j :: 0 <= i <= j < |chain| ==> chain[i].created <= chain[j].created
  }

  /** Appending ends a live newest version in the writer's name, and changes nothing else of what was there. */
  lemma AppendExact<D>(chain: Chain<D>, v: Version<D>)
    ensures var c := Append(chain, v);
            var n := |chain|;
            && |c| == n + 1 && c[n] == v && (forall j :: 0 <= j < n - 1 ==> c[j] == chain[j])
            && (n > 0 ==>
                  && c[n - 1].created == chain[n - 1].created && c[n - 1].data == chain[n - 1].data
                  && c[n - 1].deleted == if chain[n - 1].deleted == 0 then v.created else chain[n - 1].deleted)
  {
  }

  /**
   * What a reader sees, from the version's own fields: its own versions unless it ended them itself, and
   * committed versions of lower ids unless it, or a committed transaction with a lower id, ended them.
   */
  lemma VisibleIff<D>(s: TxTable, v: Version<D>, t: TxId)
    ensures var created := v.created !in s.active && (v.created in s.completed ==> s.completed[v.created] == Committed);
            var deleted := v.deleted !in s.active && (v.deleted in s.completed ==> s.completed[v.deleted] == Committed);
            Visible(s, v, t) <==>
            || (v.created == t && (v.deleted == 0 || v.deleted != t))
            || (v.created < t && created && (v.deleted == 0 || (v.deleted != t && (v.deleted > t || !deleted))))
  {
  }

  lemma AppendKeepsChainOk<D>(chain: Chain<D>, v: Version<D>)
    requires ChainOk(chain) && NewVersion(v)
    ensures ChainOk(Append(chain, v))
  {
    var c := Append(chain, v);
    forall j | 0 <= j < |c| - 1 ensures Ended(c[j]) || c[j].deleted == c[j + 1].created {
      if j < |chain| - 1 {
        assert Ended(chain[j]) || chain[j].deleted == chain[j + 1].created;
        assert c[j] == chain[j] && c[j + 1].created == chain[j + 1].created;
      }
    }
  }

  // ----- The newest-first read against the last effective write -----

  /** Written by the reader itself, or by a committed transaction with an id no greater than its own. */
  predicate Effective<D>(s: TxTable, v: Version<D>, t: TxId) {
    v.created == t || (v.created <= t && IsCommitted(s, v.created))
  }

  ghost predicate NewestEffective<D>(s: TxTable, chain: Chain<D>, t: TxId, i: nat) {
    && i < |chain| && Effective(s, chain[i], t)
    && forall j :: i < j < |chain| ==> !Effective(s, chain[j], t)
  }

  /** No effective version directly above this one, unless this one is the reader's own. */
  predicate Uncovered<D>(s: TxTable, chain: Chain<D>, t: TxId, j: nat)
    requires j < |chain|
  {
    j == |chain| - 1 || chain[j].created == t || !Effective(s, chain[j + 1], t)
  }

  /** Visibility, decided from one version's own fields, in terms of the chain around it. */
  lemma VisibleExactly<D>(s: TxTable, chain: Chain<D>, t: TxId, j: nat)
    requires ChainOk(chain) && j < |chain|
    ensures Visible(s, chain[j], t) <==>
            Effective(s, chain[j], t) && !Ended(chain[j]) && Uncovered(s, chain, t, j)
  {
    if j < |chain| - 1 {
      assert Ended(chain[j]) || chain[j].deleted == chain[j + 1].created;
    }
  }

  lemma {:induction false} ReadIsNewestVisible<D>(s: TxTable, chain: Chain<D>, t: TxId)
    ensures Read(s, chain, t).None? <==> forall j :: 0 <= j < |chain| ==> !Visible(s, chain[j], t)
    ensures Read(s, chain, t).Some? ==>
              exists i :: 0 <= i < |chain| && Read(s, chain, t) == Some(chain[i]) && Visible(s, chain[i], t) &&
                forall j :: i < j < |chain| ==> !Visible(s, chain[j], t)
  {
    if chain != [] {
      var n := |chain| - 1;
      if !Visible(s, chain[n], t) {
        ReadIsNewestVisible(s, chain[..n], t);
        if Read(s, chain, t).Some? {
          var i :| 0 <= i < n && Read(s, chain, t) == Some(chain[..n][i]) && Visible(s, chain[..n][i], t) &&
            forall j :: i < j < n ==> !Visible(s, chain[..n][j], t);
          assert chain[..n][i] == chain[i];
          forall j | i < j < |chain| ensures !Visible(s, chain[j], t) {
            if j < n { assert chain[..n][j] == chain[j]; }
          }
        } else {
          forall j | 0 <= j < |chain| ensures !Visible(s, chain[j], t) {
            if j < n { assert chain[..n][j] == chain[j]; }
          }
        }
      }
    }
  }

  lemma ReadReturns<D>(s: TxTable, chain: Chain<D>, t: TxId, i: nat)
    requires i < |chain| && Visible(s, chain[i], t)
    requires forall j :: i < j < |chain| ==> !Visible(s, chain[j], t)
    ensures Read(s, chain, t) == Some(chain[i])
  {
    ReadIsNewestVisible(s, chain, t);
    var k :| 0 <= k < |chain| && Read(s, chain, t) == Some(chain[k]) && Visible(s, chain[k], t) &&
      forall j :: k < j < |chain| ==> !Visible(s, chain[j], t);
  }

  /** The last effective write, unless that write ended the key. */
  function LastWrite<D>(s: TxTable, chain: Chain<D>, t: TxId): Option<Version<D>> {
    if chain == [] then None
    else
      var last := chain[|chain| - 1];
      if Effective(s, last, t) then (if Ended(last) then None else Some(last))
      else LastWrite(s, chain[..|chain| - 1], t)
  }

  /** A newer effective version ended the key, yet an older effective one is exposed again. */
  ghost predicate Resurrects<D>(s: TxTable, chain: Chain<D>, t: TxId) {
    exists i: nat, j: nat :: NewestEffective(s, chain, t, i) && Ended(chain[i]) && ExposedBelow(s, chain, t, i, j)
  }

  ghost predicate ExposedBelow<D>(s: TxTable, chain: Chain<D>, t: TxId, i: nat, j: nat)
    requires i < |chain|
  {
    j < i && Effective(s, chain[j], t) && !Ended(chain[j]) && Uncovered(s, chain, t, j)
  }

  lemma {:induction false} LastWriteIsNewestEffective<D>(s: TxTable, chain: Chain<D>, t: TxId)
    ensures (forall i: nat :: !NewestEffective(s, chain, t, i)) ==>
              LastWrite(s, chain, t) == None && forall j :: 0 <= j < |chain| ==> !Effective(s, chain[j], t)
    ensures forall i: nat :: NewestEffective(s, chain, t, i) ==>
              LastWrite(s, chain, t) == if Ended(chain[i]) then None else Some(chain[i])
  {
    if chain != [] {
      var n := |chain| - 1;
      if Effective(s, chain[n], t) {
        assert NewestEffective(s, chain, t, n);
      } else {
        LastWriteIsNewestEffective(s, chain[..n], t);
        forall i: nat ensures NewestEffective(s, chain, t, i) <==> NewestEffective(s, chain[..n], t, i) {
          if NewestEffective(s, chain[..n], t, i) {
            assert chain[..n][i] == chain[i];
            forall j | i < j < |chain| ensures !Effective(s, chain[j], t) {
              if j < n { assert chain[..n][j] == chain[j]; }
            }
          }
          if NewestEffective(s, chain, t, i) {
            assert i < n && chain[..n][i] == chain[i];
          }
        }
        if forall i: nat :: !NewestEffective(s, chain, t, i) {
          forall j | 0 <= j < |chain| ensures !Effective(s, chain[j], t) {
            if j < n { assert chain[..n][j] == chain[j]; }
          }
        }
      }
    }
  }

  /**
   * The newest-first read returns the last effective write, exactly when no older version has been
   * exposed again under an effective tombstone.
   */
  lemma ReadIsLastWriteIff<D>(s: TxTable, chain: Chain<D>, t: TxId)
    requires ChainOk(chain)
    ensures Read(s, chain, t) == LastWrite(s, chain, t) <==> !Resurrects(s, chain, t)
  {
    forall j: nat | j < |chain|
      ensures Visible(s, chain[j], t) <==>
              Effective(s, chain[j], t) && !Ended(chain[j]) && Uncovered(s, chain, t, j)
    {
      VisibleExactly(s, chain, t, j);
    }
    ReadIsNewestVisible(s, chain, t);
    LastWriteIsNewestEffective(s, chain, t);
    if i: nat :| NewestEffective(s, chain, t, i) {
      if Ended(chain[i]) {
        if j: nat :| ExposedBelow(s, chain, t, i, j) {
          assert Visible(s, chain[j], t);
        } else {
          forall j | 0 <= j < |chain| ensures !Visible(s, chain[j], t) {
            assert !ExposedBelow(s, chain, t, i, j);
          }
        }
      } else {
        ReadReturns(s, chain, t, i);
      }
    }
  }

  /**
   * Deleted stays deleted: under an effective tombstone whose older versions are all effective, in
   * transaction order, the key reads as absent.
   */
  lemma DeletedStaysDeleted<D>(s: TxTable, chain: Chain<D>, t: TxId, i: nat)
    requires ChainOk(chain) && Ordered(chain)
    requires NewestEffective(s, chain, t, i) && Ended(chain[i])
    requires forall j :: 0 <= j < i ==> Effective(s, chain[j], t)
    ensures Read(s, chain, t) == None
  {
    LastWriteIsNewestEffective(s, chain, t);
    ReadIsLastWriteIff(s, chain, t);
    forall j: nat ensures !ExposedBelow(s, chain, t, i, j) {
      if j < i {
        assert Effective(s, chain[j + 1], t) && chain[j].created <= chain[j + 1].created;
        assert Ended(chain[j]) || chain[j].deleted == chain[j + 1].created;
      }
    }
    assert forall k: nat :: NewestEffective(s, chain, t, k) ==> k == i;
  }

  // ----- Isolation: what other transactions do to a reader -----

  ghost predicate SameRead<D>(a: Option<Version<D>>, b: Option<Version<D>>) {
    a.Some? == b.Some? && (a.Some? ==> a.value.created == b.value.created && a.value.data == b.value.data)
  }

  lemma {:induction false} ReadDependsOnVisibility<D>(s: TxTable, c: Chain<D>, s': TxTable, c': Chain<D>, t: TxId)
    requires |c| == |c'|
    requires forall j :: 0 <= j < |c| ==> Visible(s, c[j], t) == Visible(s', c'[j], t)
    requires forall j :: 0 <= j < |c| ==> c[j].created == c'[j].created && c[j].data == c'[j].data
    ensures SameRead(Read(s, c, t), Read(s', c', t))
    decreases |c|
  {
    if c != [] {
      ReadDependsOnVisibility(s, c[..|c| - 1], s', c'[..|c| - 1], t);
    }
  }

  /** A write by another transaction that is not effective for `t` changes nothing `t` reads. */
  lemma UnseenWriteChangesNoRead<D>(s: TxTable, chain: Chain<D>, v: Version<D>, t: TxId)
    requires NewVersion(v) && !Effective(s, v, t)
    ensures SameRead(Read(s, Append(chain, v), t), Read(s, chain, t))
  {
    var c := Append(chain, v);
    var n := |chain|;
    assert c[n] == v && !Visible(s, v, t);
    ReadDependsOnVisibility(s, c[..n], s, chain, t);
  }

  /** The reader's own live write is what it reads next; its own tombstone hides the key it wrote. */
  lemma OwnWriteIsRead<D>(s: TxTable, chain: Chain<D>, v: Version<D>)
    requires NewVersion(v) && v.deleted == 0
    ensures Read(s, Append(chain, v), v.created) == Some(v)
  {
  }

  /** Nobody but its writer ever reads a version that is uncommitted, aborted or from a later transaction. */
  lemma ReadIsEffective<D>(s: TxTable, chain: Chain<D>, t: TxId)
    ensures Read(s, chain, t).Some? ==> Effective(s, Read(s, chain, t).value, t)
  {
    ReadIsNewestVisible(s, chain, t);
  }

  // ----- Garbage collection -----

  lemma {:induction false} CollectKeepsLive<D>(s: TxTable, chain: Chain<D>, m: TxId, t: TxId)
    requires forall j :: 0 <= j < |chain| && Expired(chain[j], m) ==> !Visible(s, chain[j], t)
    ensures Read(s, Collect(chain, m), t) == Read(s, chain, t)
    decreases |chain|
  {
    if chain != [] {
      var n := |chain| - 1;
      CollectKeepsLive(s, chain[..n], m, t);
      if Expired(chain[n], m) {
        assert Collect(chain, m) == Collect(chain[..n], m);
      } else {
        assert Collect(chain, m)[..|Collect(chain, m)| - 1] == Collect(chain[..n], m);
      }
    }
  }

  lemma {:induction false} CollectDropsExpired<D>(chain: Chain<D>, m: TxId, v: Version<D>)
    ensures v in Collect(chain, m) <==> v in chain && !(v.deleted != 0 && v.deleted < m)
    ensures v in Collect(chain, m) ==> multiset(Collect(chain, m))[v] == multiset(chain)[v]
    decreases |chain|
  {
    if chain != [] {
      CollectDropsExpired(chain[..|chain| - 1], m, v);
      assert chain == chain[..|chain| - 1] + [chain[|chain| - 1]];
    }
  }

  /** Collecting changes what `t` reads exactly when the version `t` was reading is dropped. */
  lemma CollectChangesReadIff<D>(s: TxTable, chain: Chain<D>, m: TxId, t: TxId)
    ensures Read(s, Collect(chain, m), t) == Read(s, chain, t) <==>
            !(Read(s, chain, t).Some? && Expired(Read(s, chain, t).value, m))
    decreases |chain|
  {
    ReadIsNewestVisible(s, Collect(chain, m), t);
    if Read(s, Collect(chain, m), t).Some? {
      CollectDropsExpired(chain, m, Read(s, Collect(chain, m), t).value);
    }
    if chain != [] {
      var n := |chain| - 1;
      CollectChangesReadIff(s, chain[..n], m, t);
      if Expired(chain[n], m) {
        assert Collect(chain, m) == Collect(chain[..n], m);
      } else {
        assert Collect(chain, m)[..|Collect(chain, m)| - 1] == Collect(chain[..n], m);
      }
    }
  }

  /** An expired version that no reader with an id of at least `m` can see. */
  predicate SafeToDrop<D>(s: TxTable, v: Version<D>, m: TxId) {
    Ended(v) || (v.created < m && (IsCommitted(s, v.created) ==> IsCommitted(s, v.deleted)))
  }

  lemma ExpiredUnseenIff<D>(s: TxTable, v: Version<D>, m: TxId)
    requires Expired(v, m)
    ensures SafeToDrop(s, v, m) <==> forall t :: t >= m ==> !Visible(s, v, t)
  {
    if !SafeToDrop(s, v, m) {
      if v.created < m {
        assert Visible(s, v, m);
      } else {
        assert Visible(s, v, v.created);
      }
    }
  }

  ghost predicate SafeToCollect<D>(s: TxTable, chain: Chain<D>, m: TxId) {
    forall v :: v in chain && Expired(v, m) ==> SafeToDrop(s, v, m)
  }

  /** Garbage collection drops no version a current or future reader could see, exactly when it is safe. */
  lemma CollectInvisibleIff<D>(s: TxTable, chain: Chain<D>, m: TxId)
    ensures SafeToCollect(s, chain, m) <==>
            forall v, t :: v in chain && Expired(v, m) && t >= m ==> !Visible(s, v, t)
    ensures SafeToCollect(s, chain, m) ==> forall t :: t >= m ==> Read(s, Collect(chain, m), t) == Read(s, chain, t)
  {
    forall v | v in chain && Expired(v, m)
      ensures SafeToDrop(s, v, m) <==> forall t :: t >= m ==> !Visible(s, v, t)
    {
      ExpiredUnseenIff(s, v, m);
    }
    if SafeToCollect(s, chain, m) {
      forall t | t >= m ensures Read(s, Collect(chain, m), t) == Read(s, chain, t) {
        CollectKeepsLive(s, chain, m, t);
      }
    }
  }

  /** With every deleter below `m` committed and creators in order, collecting is safe. */
  lemma CommittedDeletersAreSafe<D>(s: TxTable, chain: Chain<D>, m: TxId)
    requires ChainOk(chain) && Ordered(chain)
    requires forall v :: v in chain && Expired(v, m) ==> IsCommitted(s, v.deleted)
    ensures SafeToCollect(s, chain, m)
  {
    forall v | v in chain && Expired(v, m) ensures SafeToDrop(s, v, m) {
      var j :| 0 <= j < |chain| && chain[j] == v;
      if j < |chain| - 1 {
        assert Ended(chain[j]) || chain[j].deleted == chain[j + 1].created;
        assert chain[j].created <= chain[j + 1].created;
      }
    }
  }

  /** On an ordered chain exactly a prefix is dropped, and what remains is again such a chain. */
  lemma {:induction false} CollectDropsPrefix<D>(chain: Chain<D>, m: TxId) returns (k: nat)
    requires ChainOk(chain) && Ordered(chain)
    ensures k <= |chain| && Collect(chain, m) == chain[k..]
    ensures ChainOk(chain[k..]) && Ordered(chain[k..])
    ensures forall j :: 0 <= j < |chain| ==> (Expired(chain[j], m) <==> j < k)
    decreases |chain|
  {
    k := 0;
    if chain != [] {
      var n := |chain| - 1;
      forall i, j | 0 <= i < j < |chain| && Expired(chain[j], m) ensures Expired(chain[i], m) {
        assert Ended(chain[i]) || chain[i].deleted == chain[i + 1].created;
        assert chain[i].created <= chain[i + 1].created <= chain[j].created;
        DeleterNotBeforeCreator(chain, j);
      }
      while k < |chain| && Expired(chain[k], m)
        invariant k <= |chain| && forall j :: 0 <= j < k ==> Expired(chain[j], m)
      {
        k := k + 1;
      }
      CollectSplit(chain, m, k);
    }
  }

  lemma DeleterNotBeforeCreator<D>(chain: Chain<D>, j: nat)
    requires ChainOk(chain) && Ordered(chain) && j < |chain|
    ensures chain[j].deleted != 0 ==> chain[j].created <= chain[j].deleted
  {
    if j < |chain| - 1 {
      assert Ended(chain[j]) || chain[j].deleted == chain[j + 1].created;
      assert chain[j].created <= chain[j + 1].created;
    }
  }

  lemma {:induction false} CollectSplit<D>(chain: Chain<D>, m: TxId, k: nat)
    requires k <= |chain|
    requires forall j :: 0 <= j < |chain| ==> (Expired(chain[j], m) <==> j < k)
    ensures Collect(chain, m) == chain[k..]
    decreases |chain|
  {
    if chain != [] {
      var n := |chain| - 1;
      if k <= n {
        CollectSplit(chain[..n], m, k);
        assert chain[k..] == chain[..n][k..] + [chain[n]];
      } else {
        CollectSplit(chain[..n], m, n);
      }
    }
  }

  lemma ReadLast<D>(s: TxTable, chain: Chain<D>, v: Version<D>, t: TxId)
    ensures Read(s, chain + [v], t) == if Visible(s, v, t) then Some(v) else Read(s, chain, t)
    ensures LastWrite(s, chain + [v], t) ==
            if Effective(s, v, t) then (if Ended(v) then None else Some(v)) else LastWrite(s, chain, t)
  {
    assert (chain + [v])[..|chain|] == chain;
  }
}
