// The store's edge lists and the separate adjacency index, kept in step (src/cli/repl.cpp:233-241,
// src/storage/graph_store.cpp:269-303, 523-581, src/storage/simple_index_manager.cpp:68-131).
module StoreIndex {
  import opened Wrappers
  import opened Bytes
  import opened Records
  import opened Adjacency
  import opened IndexManager
  import PageStore
  import GS = GraphStore

  /** Both hold right lists, and for the same edges. */
  ghost predicate Agree(g: GS.GraphStore, index: SimpleIndexManager)
    reads g, g.store, index
  {
    g.Valid() && index.Valid() && index.endpoints == GS.EndsOf(g.edges)
  }

  lemma NewEdgeId(g: GS.GraphStore)
    requires g.Valid()
    ensures g.nextEdgeId !in GS.EndsOf(g.edges)
  {
    hide GS.Stored, GS.ListsOk;
    GS.KnownEnds(g.edges, g.nextEdgeId);
  }

  /** An edge is created in the store and, if that worked, added to the index. */
  method CreateIndexedEdge(g: GS.GraphStore, index: SimpleIndexManager, from: U64, to: U64, labelId: U32,
                           timestamp: U64, properties: Properties)
    returns (result: Result<U64, GS.StoreError>)
    requires Agree(g, index) && g.Room() && GS.Fits(properties)
    modifies g, g.store, index
    ensures Agree(g, index) && g.store.closed == old(g.store.closed)
    ensures result.Ok? <==> !g.store.closed
    ensures result.Ok? ==> result.value !in old(index.endpoints)
                           && index.endpoints == old(index.endpoints)[result.value := Ends(from, to)]
    ensures result.Err? ==> index.endpoints == old(index.endpoints)
  {
    hide GS.Stored, GS.ListsOk, GS.Fits, GS.EndsOf, ListedByStart, ListedByEnd, Pushed;
    NewEdgeId(g);
    ghost var before := g.edges;
    result := g.CreateEdge(from, to, labelId, timestamp, properties);
    if result.Ok? {
      GS.EndsOfChanged(before, result.value, g.edges[result.value]);
      index.AddEdge(from, to, result.value);
    }
  }

  /** An edge is deleted from the store and, if that worked, removed from the index. */
  method DeleteIndexedEdge(g: GS.GraphStore, index: SimpleIndexManager, e: EdgeId)
    returns (result: Result<(), GS.StoreError>)
    requires Agree(g, index)
    modifies g, index
    ensures Agree(g, index)
    ensures result.Ok? <==> e in old(index.endpoints) && !g.store.closed
    ensures index.endpoints == if result.Ok? then old(index.endpoints) - {e} else old(index.endpoints)
  {
    hide GS.Stored, GS.ListsOk, GS.EndsOf, ListedByStart, ListedByEnd, Removed;
    GS.KnownEnds(g.edges, e);
    ghost var before := g.edges;
    var found := g.GetEdge(e);
    result := g.DeleteEdge(e);
    if result.Ok? {
      GS.EndsOfChanged(before, e, before[e]);
      index.RemoveEdge(found.value.0.fromNode, found.value.0.toNode, e);
    }
  }

  /** Changing the properties of an edge needs no change of the index. */
  method UpdateIndexedEdge(g: GS.GraphStore, index: SimpleIndexManager, e: EdgeId, properties: Properties)
    returns (result: Result<(), GS.StoreError>)
    requires Agree(g, index) && g.Room() && GS.Fits(properties)
    modifies g, g.store
    ensures Agree(g, index) && g.store.closed == old(g.store.closed)
    ensures result.Ok? <==> e in index.endpoints && !g.store.closed
  {
    hide GS.Stored, GS.ListsOk, GS.Fits, ListedByStart, ListedByEnd;
    GS.KnownEnds(g.edges, e);
    ghost var before := g.edges;
    result := g.UpdateEdge(e, properties);
    assert GS.EndsOf(g.edges) == GS.EndsOf(before);
  }

  /** While they agree, the store and the index give the same neighbours of every node. */
  method SameNeighbours(g: GS.GraphStore, index: SimpleIndexManager, u: NodeId)
    returns (ofStore: seq<NodeId>, ofIndex: seq<NodeId>)
    requires Agree(g, index)
    ensures !g.store.closed ==> ofStore == ofIndex
    ensures IsNeighbourList(GS.EndsOf(g.edges), u, ofIndex)
  {
    hide GS.Stored, GS.ListsOk, GS.EndsOf, ListedByStart, ListedByEnd, IsNeighbourList;
    ofStore := g.GetAdjacentNodes(u);
    ofIndex := index.GetAdjacentNodes(u);
    if !g.store.closed {
      NeighboursUnique(GS.EndsOf(g.edges), u, ofStore, ofIndex);
    }
  }

  // ----- An index that is not told of deletions -----

  /** The index knows every edge of the store, and perhaps edges that are gone. */
  ghost predicate Behind(g: GS.GraphStore, index: SimpleIndexManager)
    reads g, g.store, index
  {
    && g.Valid() && index.Valid()
    && forall e :: e in GS.EndsOf(g.edges) ==> e in index.endpoints && index.endpoints[e] == GS.EndsOf(g.edges)[e]
  }

  lemma AgreeIsBehind(g: GS.GraphStore, index: SimpleIndexManager)
    requires Agree(g, index)
    ensures Behind(g, index)
  {
    hide GS.GraphStore.Valid, SimpleIndexManager.Valid, GS.EndsOf;
  }

  /** What the repository's callers do: the index is not told. */
  method DeleteUntold(g: GS.GraphStore, index: SimpleIndexManager, e: EdgeId) returns (result: Result<(), GS.StoreError>)
    requires Behind(g, index)
    modifies g
    ensures Behind(g, index)
    ensures result.Ok? <==> e in old(GS.EndsOf(g.edges)) && !g.store.closed
    ensures GS.EndsOf(g.edges) == if result.Ok? then old(GS.EndsOf(g.edges)) - {e} else old(GS.EndsOf(g.edges))
  {
    hide GS.Stored, GS.ListsOk, GS.EndsOf, ListedByStart, ListedByEnd;
    GS.KnownEnds(g.edges, e);
    ghost var before := g.edges;
    result := g.DeleteEdge(e);
    if result.Ok? {
      GS.EndsOfChanged(before, e, before[e]);
    }
  }

  /** Every edge that is gone has its two ends joined by one that is left. */
  ghost predicate JoinedOtherwise(ends: map<EdgeId, Ends>, live: map<EdgeId, Ends>) {
    forall e :: e in ends && e !in live ==> Adjacent(live, ends[e].from, ends[e].to)
  }

  lemma AdjacentTo(ends: map<EdgeId, Ends>, e: EdgeId, u: NodeId, v: NodeId)
    requires e in ends && (ends[e] == Ends(u, v) || ends[e] == Ends(v, u))
    ensures Adjacent(ends, u, v)
  {
  }

  ghost predicate SameNeighboursOf(ends: map<EdgeId, Ends>, live: map<EdgeId, Ends>, u: NodeId) {
    forall v :: Adjacent(ends, u, v) <==> Adjacent(live, u, v)
  }

  lemma SameAdjacency(ends: map<EdgeId, Ends>, live: map<EdgeId, Ends>)
    requires forall e :: e in live ==> e in ends && ends[e] == live[e]
    ensures JoinedOtherwise(ends, live) <==> forall u :: SameNeighboursOf(ends, live, u)
  {
    if JoinedOtherwise(ends, live) {
      forall u: NodeId, v: NodeId ensures Adjacent(ends, u, v) <==> Adjacent(live, u, v) {
        if e :| e in ends && (ends[e] == Ends(u, v) || ends[e] == Ends(v, u)) {
          if e in live {
            AdjacentTo(live, e, u, v);
          } else {
            var other :| other in live && (live[other] == Ends(ends[e].from, ends[e].to)
                                           || live[other] == Ends(ends[e].to, ends[e].from));
            AdjacentTo(live, other, u, v);
          }
        }
        if e :| e in live && (live[e] == Ends(u, v) || live[e] == Ends(v, u)) {
          AdjacentTo(ends, e, u, v);
        }
      }
    }
    if forall u :: SameNeighboursOf(ends, live, u) {
      forall e | e in ends && e !in live ensures Adjacent(live, ends[e].from, ends[e].to) {
        assert SameNeighboursOf(ends, live, ends[e].from);
        AdjacentTo(ends, e, ends[e].from, ends[e].to);
      }
    }
  }

  /** What get_adjacent_nodes of the store gives, and what that of the index gives. */
  ghost predicate SameList(g: GS.GraphStore, index: SimpleIndexManager, u: NodeId)
    reads g, index
  {
    NeighboursOf(g.outgoing, g.incoming, GS.EndsOf(g.edges), u) ==
    NeighboursOf(index.outgoing, index.incoming, index.endpoints, u)
  }

  lemma SameListIff(g: GS.GraphStore, index: SimpleIndexManager, u: NodeId)
    requires g.Valid() && index.Valid()
    ensures SameList(g, index, u) <==> SameNeighboursOf(index.endpoints, GS.EndsOf(g.edges), u)
  {
    hide GS.Stored, NeighboursOf, Adjacent, ListedByStart, ListedByEnd;
    var live, ends := GS.EndsOf(g.edges), index.endpoints;
    var ofStore := NeighboursOf(g.outgoing, g.incoming, live, u);
    var ofIndex := NeighboursOf(index.outgoing, index.incoming, ends, u);
    ListsGiveNeighbours(g.outgoing, g.incoming, live, u);
    ListsGiveNeighbours(index.outgoing, index.incoming, ends, u);
    forall v ensures (v in ofStore <==> Adjacent(live, u, v)) && (v in ofIndex <==> Adjacent(ends, u, v)) {
    }
    if SameNeighboursOf(ends, live, u) {
      IncreasingUnique(ofStore, ofIndex);
    }
  }

  /**
   * However many deletions the index has missed, it gives the same neighbours of every node as the store, exactly
   * when every edge that is gone has its two ends joined by an edge that is left.
   */
  lemma MissedDeletionsHarmlessIff(g: GS.GraphStore, index: SimpleIndexManager)
    requires Behind(g, index)
    ensures (forall u :: SameList(g, index, u)) <==> JoinedOtherwise(index.endpoints, GS.EndsOf(g.edges))
  {
    hide GS.GraphStore.Valid, SimpleIndexManager.Valid, GS.EndsOf, SameList, JoinedOtherwise, SameNeighboursOf;
    var ends, live := index.endpoints, GS.EndsOf(g.edges);
    SameAdjacency(ends, live);
    forall u ensures SameList(g, index, u) <==> SameNeighboursOf(ends, live, u) {
      SameListIff(g, index, u);
    }
  }

  lemma ListsOfOne(e: EdgeId, none: seq<NodeId>, one: seq<NodeId>)
    requires IsNeighbourList(map[], 1, none) && IsNeighbourList(map[e := Ends(1, 2)], 1, one)
    ensures none == [] && one == [2]
  {
    var ends := map[e := Ends(1, 2)];
    assert forall v :: !Adjacent(map[], 1, v);
    EmptyTogether(none, []);
    assert IsNeighbourList(ends, 1, [2]) by {
      AdjacentTo(ends, e, 1, 2);
    }
    NeighboursUnique(ends, 1, one, [2]);
  }

  method CreateBoth() returns (g: GS.GraphStore, index: SimpleIndexManager, e: EdgeId)
    ensures fresh(g) && fresh(g.store) && fresh(index) && Agree(g, index) && !g.store.closed
    ensures index.endpoints == map[e := Ends(1, 2)]
  {
    hide GS.Fits, GS.GraphStore.Valid, SimpleIndexManager.Valid;
    var pages := new PageStore.FilePageStore([]);
    g := new GS.GraphStore(pages);
    index := new SimpleIndexManager();
    GS.EmptyFits();
    assert GS.EndsOf(g.edges) == map[];
    var created := CreateIndexedEdge(g, index, 1, 2, 0, 0, []);
    e := created.value;
  }

  /** One edge is created in both and deleted from the store: the index goes on listing its far end. */
  method MissedDeletionShows() returns (ofStore: seq<NodeId>, ofIndex: seq<NodeId>)
    ensures ofStore == [] && ofIndex == [2]
  {
    hide GS.GraphStore.Valid, SimpleIndexManager.Valid, GS.EndsOf, NeighboursOf, IsNeighbourList;
    var g, index, e := CreateBoth();
    AgreeIsBehind(g, index);
    var deleted := DeleteUntold(g, index, e);
    ofStore := g.GetAdjacentNodes(1);
    ofIndex := index.GetAdjacentNodes(1);
    assert GS.EndsOf(g.edges) == map[];
    ListsOfOne(e, ofStore, ofIndex);
  }
}
