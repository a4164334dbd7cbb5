// Edge lists by end node, and the neighbours they give
// (src/storage/graph_store.cpp:251-303, 434-451, src/storage/simple_index_manager.cpp:68-131).
module Adjacency {
  import opened Sequences

  type NodeId = nat
  type EdgeId = nat

  datatype Ends = Ends(from: NodeId, to: NodeId)

  type Lists = map<NodeId, seq<EdgeId>>

  function Listed(lists: Lists, u: NodeId): seq<EdgeId> {
    if u in lists then lists[u] else []
  }

  function Pushed(lists: Lists, u: NodeId, e: EdgeId): Lists {
    lists[u := Listed(lists, u) + [e]]
  }

  function Without(es: seq<EdgeId>, e: EdgeId): seq<EdgeId> {
    if es == [] then []
    else Without(es[..|es| - 1], e) + if es[|es| - 1] == e then [] else [es[|es| - 1]]
  }

  function Removed(lists: Lists, u: NodeId, e: EdgeId): Lists {
    lists[u := Without(Listed(lists, u), e)]
  }

  /** Each edge is in the list of its start exactly once, and in no other list. */
  ghost predicate ListedByStart(lists: Lists, ends: map<EdgeId, Ends>) {
    && (forall u :: Distinct(Listed(lists, u)))
    && (forall u, e :: e in Listed(lists, u) <==> e in ends && ends[e].from == u)
  }

  ghost predicate ListedByEnd(lists: Lists, ends: map<EdgeId, Ends>) {
    && (forall u :: Distinct(Listed(lists, u)))
    && (forall u, e :: e in Listed(lists, u) <==> e in ends && ends[e].to == u)
  }

  lemma {:induction false} WithoutExact(es: seq<EdgeId>, e: EdgeId)
    ensures forall x :: x in Without(es, e) <==> x in es && x != e
    ensures Distinct(es) ==> Distinct(Without(es, e))
  {
    if es != [] {
      var n := |es| - 1;
      var before := Without(es[..n], e);
      WithoutExact(es[..n], e);
      assert es == es[..n] + [es[n]];
      assert forall i :: 0 <= i < |before| ==> before[i] in before && before[i] in es[..n];
    }
  }

  /** Of a list that holds an edge once, exactly that place goes. */
  lemma {:induction false} WithoutOnce(es: seq<EdgeId>, i: nat)
    requires i < |es| && Distinct(es)
    ensures Without(es, es[i]) == es[..i] + es[i + 1..]
  {
    var n := |es| - 1;
    if i < n {
      WithoutOnce(es[..n], i);
      assert es[i + 1..] == es[..n][i + 1..] + [es[n]];
      assert es[..n][..i] == es[..i];
    } else {
      WithoutNothing(es[..n], es[n]);
    }
  }

  lemma {:induction false} WithoutNothing(es: seq<EdgeId>, e: EdgeId)
    requires e !in es
    ensures Without(es, e) == es
  {
    if es != [] {
      WithoutNothing(es[..|es| - 1], e);
    }
  }

  lemma PushByStart(lists: Lists, ends: map<EdgeId, Ends>, e: EdgeId, x: Ends)
    requires ListedByStart(lists, ends) && e !in ends
    ensures ListedByStart(Pushed(lists, x.from, e), ends[e := x])
  {
    var pushed := Pushed(lists, x.from, e);
    assert forall u :: Listed(pushed, u) == if u == x.from then Listed(lists, u) + [e] else Listed(lists, u);
    assert e !in Listed(lists, x.from);
  }

  lemma PushByEnd(lists: Lists, ends: map<EdgeId, Ends>, e: EdgeId, x: Ends)
    requires ListedByEnd(lists, ends) && e !in ends
    ensures ListedByEnd(Pushed(lists, x.to, e), ends[e := x])
  {
    var pushed := Pushed(lists, x.to, e);
    assert forall u :: Listed(pushed, u) == if u == x.to then Listed(lists, u) + [e] else Listed(lists, u);
    assert e !in Listed(lists, x.to);
  }

  lemma RemoveByStart(lists: Lists, ends: map<EdgeId, Ends>, e: EdgeId)
    requires ListedByStart(lists, ends) && e in ends
    ensures ListedByStart(Removed(lists, ends[e].from, e), ends - {e})
  {
    var u0 := ends[e].from;
    var removed := Removed(lists, u0, e);
    WithoutExact(Listed(lists, u0), e);
    assert forall u :: Listed(removed, u) == if u == u0 then Without(Listed(lists, u), e) else Listed(lists, u);
  }

  lemma RemoveByEnd(lists: Lists, ends: map<EdgeId, Ends>, e: EdgeId)
    requires ListedByEnd(lists, ends) && e in ends
    ensures ListedByEnd(Removed(lists, ends[e].to, e), ends - {e})
  {
    var u0 := ends[e].to;
    var removed := Removed(lists, u0, e);
    WithoutExact(Listed(lists, u0), e);
    assert forall u :: Listed(removed, u) == if u == u0 then Without(Listed(lists, u), e) else Listed(lists, u);
  }

  lemma EraseEmpty(outgoing: Lists, incoming: Lists, ends: map<EdgeId, Ends>, u: NodeId)
    requires ListedByStart(outgoing, ends) && ListedByEnd(incoming, ends)
    requires Listed(outgoing, u) == [] && Listed(incoming, u) == []
    ensures ListedByStart(outgoing - {u}, ends) && ListedByEnd(incoming - {u}, ends)
  {
    assert forall v :: Listed(outgoing - {u}, v) == Listed(outgoing, v);
    assert forall v :: Listed(incoming - {u}, v) == Listed(incoming, v);
  }

  // ----- Sorting and removing duplicates -----

  function Inserted(s: seq<NodeId>, x: NodeId): seq<NodeId> {
    if s == [] || x < s[0] then [x] + s else if x == s[0] then s else [s[0]] + Inserted(s[1..], x)
  }

  /** std::sort followed by std::unique and erase. */
  function SortedUnique(s: seq<NodeId>): seq<NodeId> {
    if s == [] then [] else Inserted(SortedUnique(s[1..]), s[0])
  }

  lemma {:induction false} InsertedExact(s: seq<NodeId>, x: NodeId)
    requires Increasing(s)
    ensures Increasing(Inserted(s, x))
    ensures forall y :: y in Inserted(s, x) <==> y == x || y in s
  {
    if s != [] && x > s[0] {
      var rest := Inserted(s[1..], x);
      InsertedExact(s[1..], x);
      forall j | 0 <= j < |rest| ensures s[0] < rest[j] {
        assert rest[j] in rest;
        assert rest[j] != x ==> rest[j] in s[1..];
      }
      assert s == [s[0]] + s[1..];
    }
  }

  lemma {:induction false} SortedUniqueExact(s: seq<NodeId>)
    ensures Increasing(SortedUnique(s))
    ensures forall y :: y in SortedUnique(s) <==> y in s
  {
    if s != [] {
      SortedUniqueExact(s[1..]);
      InsertedExact(SortedUnique(s[1..]), s[0]);
      assert s == [s[0]] + s[1..];
    }
  }

  lemma EmptyTogether(a: seq<NodeId>, b: seq<NodeId>)
    requires forall y :: y in a <==> y in b
    ensures a == [] <==> b == []
  {
    if a != [] {
      assert a[0] in a;
    }
    if b != [] {
      assert b[0] in b;
    }
  }

  /** An increasing list is determined by what is in it. */
  lemma {:induction false} IncreasingUnique(a: seq<NodeId>, b: seq<NodeId>)
    requires Increasing(a) && Increasing(b) && forall y :: y in a <==> y in b
    ensures a == b
  {
    EmptyTogether(a, b);
    if a != [] {
      assert a[0] in b && b[0] in a;
      assert a[0] == b[0];
      forall y ensures y in a[1..] <==> y in b[1..] {
        assert y in a[1..] <==> y in a && y != a[0] by { TailOf(a, y); }
        assert y in b[1..] <==> y in b && y != b[0] by { TailOf(b, y); }
      }
      IncreasingUnique(a[1..], b[1..]);
      assert a == [a[0]] + a[1..] && b == [b[0]] + b[1..];
    }
  }

  lemma TailOf(a: seq<NodeId>, y: NodeId)
    requires Increasing(a) && a != []
    ensures y in a[1..] <==> y in a && y != a[0]
  {
    assert a == [a[0]] + a[1..];
    if y in a[1..] {
      var i :| 0 <= i < |a[1..]| && a[1..][i] == y;
      assert a[0] < a[i + 1];
    }
  }

  // ----- Neighbours -----

  ghost predicate Adjacent(ends: map<EdgeId, Ends>, u: NodeId, v: NodeId) {
    exists e :: e in ends && (ends[e] == Ends(u, v) || ends[e] == Ends(v, u))
  }

  /** The neighbours of u, in increasing order. */
  ghost predicate IsNeighbourList(ends: map<EdgeId, Ends>, u: NodeId, list: seq<NodeId>) {
    Increasing(list) && forall v :: v in list <==> Adjacent(ends, u, v)
  }

  lemma NeighboursUnique(ends: map<EdgeId, Ends>, u: NodeId, a: seq<NodeId>, b: seq<NodeId>)
    requires IsNeighbourList(ends, u, a) && IsNeighbourList(ends, u, b)
    ensures a == b
  {
    forall v ensures v in a <==> v in b {
      assert v in a <==> Adjacent(ends, u, v);
    }
    IncreasingUnique(a, b);
  }

  /** Being neighbours is mutual. */
  lemma NeighboursSymmetric(ends: map<EdgeId, Ends>, u: NodeId, v: NodeId, ofU: seq<NodeId>, ofV: seq<NodeId>)
    requires IsNeighbourList(ends, u, ofU) && IsNeighbourList(ends, v, ofV)
    ensures v in ofU <==> u in ofV
  {
    assert Adjacent(ends, u, v) <==> Adjacent(ends, v, u);
  }

  function Other(x: Ends, u: NodeId): NodeId {
    if x.from == u then x.to else x.from
  }

  /** The far ends, seen from u, of the edges that are known. */
  function Others(ends: map<EdgeId, Ends>, es: seq<EdgeId>, u: NodeId): seq<NodeId> {
    if es == [] then []
    else
      var e := es[|es| - 1];
      Others(ends, es[..|es| - 1], u) + if e in ends then [Other(ends[e], u)] else []
  }

  lemma {:induction false} OthersExact(ends: map<EdgeId, Ends>, es: seq<EdgeId>, u: NodeId, v: NodeId)
    ensures v in Others(ends, es, u) <==> exists e :: e in es && e in ends && Other(ends[e], u) == v
  {
    if es != [] {
      var n := |es| - 1;
      OthersExact(ends, es[..n], u, v);
      assert es == es[..n] + [es[n]];
    }
  }

  /** The far ends of the edges in the two lists of u, sorted and without duplicates. */
  function NeighboursOf(outgoing: Lists, incoming: Lists, ends: map<EdgeId, Ends>, u: NodeId): seq<NodeId> {
    SortedUnique(Others(ends, Listed(outgoing, u), u) + Others(ends, Listed(incoming, u), u))
  }

  /** That is the neighbour list of u when the lists are right. */
  lemma ListsGiveNeighbours(outgoing: Lists, incoming: Lists, ends: map<EdgeId, Ends>, u: NodeId)
    requires ListedByStart(outgoing, ends) && ListedByEnd(incoming, ends)
    ensures IsNeighbourList(ends, u, NeighboursOf(outgoing, incoming, ends, u))
  {
    var out, into := Others(ends, Listed(outgoing, u), u), Others(ends, Listed(incoming, u), u);
    SortedUniqueExact(out + into);
    forall v ensures v in out + into <==> Adjacent(ends, u, v) {
      OthersExact(ends, Listed(outgoing, u), u, v);
      OthersExact(ends, Listed(incoming, u), u, v);
      if e :| e in ends && (ends[e] == Ends(u, v) || ends[e] == Ends(v, u)) {
        assert e in Listed(outgoing, u) || e in Listed(incoming, u);
      }
    }
  }

  // ----- Runs of add and remove events -----

  datatype Event = Add(edge: EdgeId, ends: Ends) | Remove(edge: EdgeId)

  /** The edges after the events, when each adds a new edge or removes a present one. */
  ghost predicate Legal(events: seq<Event>) {
    events != [] ==>
      var before := events[..|events| - 1];
      Legal(before) &&
      match events[|events| - 1]
      case Add(e, _) => e !in Replayed(before)
      case Remove(e) => e in Replayed(before)
  }

  function Replayed(events: seq<Event>): map<EdgeId, Ends> {
    if events == [] then map[]
    else
      match events[|events| - 1]
      case Add(e, x) => Replayed(events[..|events| - 1])[e := x]
      case Remove(e) => Replayed(events[..|events| - 1]) - {e}
  }

  function ReplayedOutgoing(events: seq<Event>): Lists {
    if events == [] then map[]
    else
      var before := events[..|events| - 1];
      match events[|events| - 1]
      case Add(e, x) => Pushed(ReplayedOutgoing(before), x.from, e)
      case Remove(e) => if e in Replayed(before) then Removed(ReplayedOutgoing(before), Replayed(before)[e].from, e)
                        else ReplayedOutgoing(before)
  }

  function ReplayedIncoming(events: seq<Event>): Lists {
    if events == [] then map[]
    else
      var before := events[..|events| - 1];
      match events[|events| - 1]
      case Add(e, x) => Pushed(ReplayedIncoming(before), x.to, e)
      case Remove(e) => if e in Replayed(before) then Removed(ReplayedIncoming(before), Replayed(before)[e].to, e)
                        else ReplayedIncoming(before)
  }

  /** After every legal run of events the lists hold exactly the edges that are left. */
  lemma {:induction false} ListsOverRuns(events: seq<Event>)
    requires Legal(events)
    ensures ListedByStart(ReplayedOutgoing(events), Replayed(events))
    ensures ListedByEnd(ReplayedIncoming(events), Replayed(events))
  {
    if events != [] {
      var before := events[..|events| - 1];
      ListsOverRuns(before);
      match events[|events| - 1] {
        case Add(e, x) =>
          PushByStart(ReplayedOutgoing(before), Replayed(before), e, x);
          PushByEnd(ReplayedIncoming(before), Replayed(before), e, x);
        case Remove(e) =>
          RemoveByStart(ReplayedOutgoing(before), Replayed(before), e);
          RemoveByEnd(ReplayedIncoming(before), Replayed(before), e);
      }
    }
  }
}
