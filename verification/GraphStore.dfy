// Nodes and edges, one to a page (src/storage/graph_store.cpp:219-303, 354-451, 472-625).
module GraphStore {
  import opened Wrappers
  import opened Bytes
  import opened Records
  import opened PageStore
  import opened Adjacency

  const NODE_PAGE: U32 := 1
  const EDGE_PAGE: U32 := 2

  datatype StoreError = NotFound | NotAllowed | Io(failure: Failure) | WrongPageType | Unreadable(corruption: Corruption)

  type Node = (NodeRecord, Properties)

  type Edge = (EdgeRecord, Properties)

  // ----- One record on a page -----

  function PageHeader(kind: U32, pageId: U64, size: U32): (bytes: seq<Byte>)
    ensures |bytes| == HEADER_SIZE
  {
    LittleEndian(MAGIC, 4) + (LittleEndian(1, 4) + (LittleEndian(kind, 4) + (LittleEndian(0, 4)
    + (LittleEndian(size, 4) + (LittleEndian(1, 4) + (LittleEndian(pageId, 8) + (LittleEndian(INVALID_PAGE_ID, 8)
    + LittleEndian(0, 8))))))))
  }

  function PageImage(kind: U32, pageId: U64, payload: seq<Byte>): (page: seq<Byte>)
    requires HEADER_SIZE + |payload| <= PAGE_SIZE
    ensures |page| == PAGE_SIZE
  {
    PageHeader(kind, pageId, HEADER_SIZE + |payload|) + (payload + Zeros(PAGE_SIZE - HEADER_SIZE - |payload|))
  }

  function KindOf(page: seq<Byte>): U32
    requires |page| == PAGE_SIZE
  {
    Read32(page[8..])
  }

  ghost predicate HoldsNode(page: seq<Byte>, v: Node) {
    |page| == PAGE_SIZE && KindOf(page) == NODE_PAGE && ParseNode(page[HEADER_SIZE..]) == Ok(v)
  }

  ghost predicate HoldsEdge(page: seq<Byte>, v: Edge) {
    |page| == PAGE_SIZE && KindOf(page) == EDGE_PAGE && ParseEdge(page[HEADER_SIZE..]) == Ok(v)
  }

  lemma FirstParts(a: seq<Byte>, b: seq<Byte>, c: seq<Byte>, d: seq<Byte>, rest: seq<Byte>)
    requires |a| == |b| == |c| == |d| == 4
    ensures var all := a + (b + (c + (d + rest)));
            all[0..4] == a && all[4..8] == b && all[8..12] == c && all[12..16] == d && all[16..] == rest
  {
  }

  lemma LastParts(e: seq<Byte>, f: seq<Byte>, g: seq<Byte>, h: seq<Byte>, i: seq<Byte>)
    requires |e| == |f| == 4 && |g| == |h| == |i| == 8
    ensures var all := e + (f + (g + (h + i)));
            all[0..4] == e && all[4..8] == f && all[8..16] == g && all[16..24] == h && all[24..32] == i
  {
  }

  /** Every field of the header of a stored page, at its place. */
  lemma HeaderFields(kind: U32, pageId: U64, size: U32)
    ensures var page := PageHeader(kind, pageId, size);
            && page[0..4] == LittleEndian(0x47524148, 4) && page[4..8] == LittleEndian(1, 4)
            && page[8..12] == LittleEndian(kind, 4) && page[12..16] == LittleEndian(0, 4)
            && var rest := page[16..];
               && rest[0..4] == LittleEndian(size, 4) && rest[4..8] == LittleEndian(1, 4)
               && rest[8..16] == LittleEndian(pageId, 8) && rest[16..24] == LittleEndian(0, 8)
               && rest[24..32] == LittleEndian(0, 8)
  {
    hide LittleEndian;
    var rest := LittleEndian(size, 4) + (LittleEndian(1, 4) + (LittleEndian(pageId, 8) + (LittleEndian(INVALID_PAGE_ID, 8)
                + LittleEndian(0, 8))));
    FirstParts(LittleEndian(MAGIC, 4), LittleEndian(1, 4), LittleEndian(kind, 4), LittleEndian(0, 4), rest);
    LastParts(LittleEndian(size, 4), LittleEndian(1, 4), LittleEndian(pageId, 8), LittleEndian(INVALID_PAGE_ID, 8),
              LittleEndian(0, 8));
  }

  /** A stored page is its header, then the record, then zeros. */
  lemma ImageFields(kind: U32, pageId: U64, payload: seq<Byte>)
    requires HEADER_SIZE + |payload| <= PAGE_SIZE
    ensures var page := PageImage(kind, pageId, payload);
            && page[..48] == PageHeader(kind, pageId, 48 + |payload|) && page[48..48 + |payload|] == payload
            && forall i :: 48 + |payload| <= i < 4096 ==> page[i] == 0
  {
    hide PageHeader;
  }

  lemma HeaderKind(kind: U32, pageId: U64, size: U32)
    ensures PageHeader(kind, pageId, size)[8..12] == LittleEndian(kind, 4)
  {
    hide LittleEndian;
  }

  /** The page written keeps the kind and the payload of the page given. */
  lemma SealedImage(kind: U32, pageId: U64, payload: seq<Byte>)
    requires HEADER_SIZE + |payload| <= PAGE_SIZE
    ensures var page := Sealed(pageId, PageImage(kind, pageId, payload));
            KindOf(page) == kind
            && page[HEADER_SIZE..] == payload + Zeros(PAGE_SIZE - HEADER_SIZE - |payload|)
  {
    hide Sealed, PageHeader, LittleEndian, Read32;
    var image := PageImage(kind, pageId, payload);
    var page := Sealed(pageId, image);
    SealedKeeps(pageId, image);
    HeaderKind(kind, pageId, HEADER_SIZE + |payload|);
    assert page[8..12] == page[4..12][4..8] == image[4..12][4..8] == image[8..12];
    assert image[8..12] == PageHeader(kind, pageId, HEADER_SIZE + |payload|)[8..12];
    assert page[8..] == LittleEndian(kind, 4) + page[12..];
    Read32RoundTrip(kind, page[12..]);
    assert page[HEADER_SIZE..] == page[32..][16..] == image[32..][16..] == image[HEADER_SIZE..];
  }

  predicate Fits(properties: Properties) {
    HEADER_SIZE + 48 + |PropertiesBytes(properties)| <= PAGE_SIZE
  }

  lemma EmptyFits()
    ensures Fits([])
  {
  }

  lemma NodePage(pageId: U64, v: Node)
    requires Fits(v.1)
    ensures |NodeBytes(v.0, v.1)| + HEADER_SIZE <= PAGE_SIZE
    ensures HoldsNode(Sealed(pageId, PageImage(NODE_PAGE, pageId, NodeBytes(v.0, v.1))), v)
    ensures Read32(Sealed(pageId, PageImage(NODE_PAGE, pageId, NodeBytes(v.0, v.1)))[8..]) == 1
  {
    hide Sealed, PageImage, PropertiesBytes, ParseNode, NodeHeader, Read32;
    var bytes := NodeBytes(v.0, v.1);
    SealedImage(NODE_PAGE, pageId, bytes);
    NodeRoundTrip(v.0, v.1, Zeros(PAGE_SIZE - HEADER_SIZE - |bytes|));
  }

  lemma EdgePage(pageId: U64, v: Edge)
    requires Fits(v.1)
    ensures |EdgeBytes(v.0, v.1)| + HEADER_SIZE <= PAGE_SIZE
    ensures HoldsEdge(Sealed(pageId, PageImage(EDGE_PAGE, pageId, EdgeBytes(v.0, v.1))), v)
    ensures Read32(Sealed(pageId, PageImage(EDGE_PAGE, pageId, EdgeBytes(v.0, v.1)))[8..]) == 2
  {
    hide Sealed, PageImage, PropertiesBytes, ParseEdge, EdgeHeader, Read32;
    var bytes := EdgeBytes(v.0, v.1);
    SealedImage(EDGE_PAGE, pageId, bytes);
    EdgeRoundTrip(v.0, v.1, Zeros(PAGE_SIZE - HEADER_SIZE - |bytes|));
  }

  // ----- The indexes and the pages -----

  type Pages = map<PageId, seq<Byte>>

  ghost predicate NodesStored(pages: Pages, index: map<NodeId, PageId>, nodes: map<NodeId, Node>) {
    && index.Keys == nodes.Keys
    && forall id :: id in index ==> index[id] in pages && HoldsNode(pages[index[id]], nodes[id])
  }

  ghost predicate EdgesStored(pages: Pages, index: map<EdgeId, PageId>, edges: map<EdgeId, Edge>) {
    && index.Keys == edges.Keys
    && forall id :: id in index ==> index[id] in pages && HoldsEdge(pages[index[id]], edges[id])
  }

  /** Indexed records sit on different pages, none of them free. */
  ghost predicate Apart(free: set<PageId>, nodeIndex: map<NodeId, PageId>, edgeIndex: map<EdgeId, PageId>) {
    && (forall m, n :: m in nodeIndex && n in nodeIndex && m != n ==> nodeIndex[m] != nodeIndex[n])
    && (forall m, n :: m in edgeIndex && n in edgeIndex && m != n ==> edgeIndex[m] != edgeIndex[n])
    && (forall m, n :: m in nodeIndex && n in edgeIndex ==> nodeIndex[m] != edgeIndex[n])
    && (forall n :: n in nodeIndex ==> nodeIndex[n] !in free)
    && (forall n :: n in edgeIndex ==> edgeIndex[n] !in free)
  }

  ghost predicate Unused(p: PageId, nodeIndex: map<NodeId, PageId>, edgeIndex: map<EdgeId, PageId>) {
    && (forall n :: n in nodeIndex ==> nodeIndex[n] != p)
    && (forall n :: n in edgeIndex ==> edgeIndex[n] != p)
  }

  ghost predicate Stored(pages: Pages, free: set<PageId>, nodeIndex: map<NodeId, PageId>, edgeIndex: map<EdgeId,
                      PageId>,
                         nodes: map<NodeId, Node>, edges: map<EdgeId, Edge>) {
    NodesStored(pages, nodeIndex, nodes) && EdgesStored(pages, edgeIndex, edges) && Apart(free, nodeIndex, edgeIndex)
  }

  /** Writing a page that no index points to disturbs nothing that is stored. */
  lemma WriteUnused(pages: Pages, free: set<PageId>, nodeIndex: map<NodeId, PageId>, edgeIndex: map<EdgeId, PageId>,
                    nodes: map<NodeId, Node>, edges: map<EdgeId, Edge>, p: PageId, page: seq<Byte>)
    requires Stored(pages, free, nodeIndex, edgeIndex, nodes, edges) && Unused(p, nodeIndex, edgeIndex)
    ensures Stored(pages[p := page], free, nodeIndex, edgeIndex, nodes, edges)
  {
    hide HoldsNode, HoldsEdge;
  }

  /** A page that was free or is new carries no record. */
  lemma PageTaken(pages: Pages, free: set<PageId>, nodeIndex: map<NodeId, PageId>, edgeIndex: map<EdgeId, PageId>,
                  nodes: map<NodeId, Node>, edges: map<EdgeId, Edge>, p: PageId, page: seq<Byte>)
    requires Stored(pages, free, nodeIndex, edgeIndex, nodes, edges) && (p in free || p !in pages)
    ensures Unused(p, nodeIndex, edgeIndex) && Stored(pages[p := page], free - {p}, nodeIndex, edgeIndex, nodes, edges)
  {
    hide HoldsNode, HoldsEdge;
  }

  lemma IndexNode(pages: Pages, free: set<PageId>, nodeIndex: map<NodeId, PageId>, edgeIndex: map<EdgeId, PageId>,
                  nodes: map<NodeId, Node>, edges: map<EdgeId, Edge>, id: NodeId, p: PageId, v: Node)
    requires Stored(pages, free, nodeIndex, edgeIndex, nodes, edges) && Unused(p, nodeIndex, edgeIndex)
    requires p in pages && p !in free && HoldsNode(pages[p], v)
    ensures Stored(pages, free, nodeIndex[id := p], edgeIndex, nodes[id := v], edges)
  {
    hide HoldsNode, HoldsEdge;
  }

  lemma IndexEdge(pages: Pages, free: set<PageId>, nodeIndex: map<NodeId, PageId>, edgeIndex: map<EdgeId, PageId>,
                  nodes: map<NodeId, Node>, edges: map<EdgeId, Edge>, id: EdgeId, p: PageId, v: Edge)
    requires Stored(pages, free, nodeIndex, edgeIndex, nodes, edges) && Unused(p, nodeIndex, edgeIndex)
    requires p in pages && p !in free && HoldsEdge(pages[p], v)
    ensures Stored(pages, free, nodeIndex, edgeIndex[id := p], nodes, edges[id := v])
  {
    hide HoldsNode, HoldsEdge;
  }

  lemma ForgetNode(pages: Pages, free: set<PageId>, nodeIndex: map<NodeId, PageId>, edgeIndex: map<EdgeId, PageId>,
                   nodes: map<NodeId, Node>, edges: map<EdgeId, Edge>, id: NodeId)
    requires Stored(pages, free, nodeIndex, edgeIndex, nodes, edges)
    ensures Stored(pages, free, nodeIndex - {id}, edgeIndex, nodes - {id}, edges)
  {
    hide HoldsNode, HoldsEdge;
  }

  lemma ForgetEdge(pages: Pages, free: set<PageId>, nodeIndex: map<NodeId, PageId>, edgeIndex: map<EdgeId, PageId>,
                   nodes: map<NodeId, Node>, edges: map<EdgeId, Edge>, id: EdgeId)
    requires Stored(pages, free, nodeIndex, edgeIndex, nodes, edges)
    ensures Stored(pages, free, nodeIndex, edgeIndex - {id}, nodes, edges - {id})
  {
    hide HoldsNode, HoldsEdge;
  }

  ghost function EndsOf(edges: map<EdgeId, Edge>): map<EdgeId, Ends> {
    map e | e in edges :: Ends(edges[e].0.fromNode, edges[e].0.toNode)
  }

  lemma KnownEnds(edges: map<EdgeId, Edge>, e: EdgeId)
    ensures e in EndsOf(edges) <==> e in edges
    ensures e in edges ==> EndsOf(edges)[e] == Ends(edges[e].0.fromNode, edges[e].0.toNode)
  {
  }

  lemma EndsOfChanged(edges: map<EdgeId, Edge>, e: EdgeId, v: Edge)
    ensures EndsOf(edges[e := v]) == EndsOf(edges)[e := Ends(v.0.fromNode, v.0.toNode)]
    ensures EndsOf(edges - {e}) == EndsOf(edges) - {e}
  {
  }

  ghost predicate NoDangling(nodes: map<NodeId, Node>, edges: map<EdgeId, Edge>) {
    forall e :: e in edges ==> edges[e].0.fromNode in nodes && edges[e].0.toNode in nodes
  }

  lemma NoEdgeNoDangling(nodes: map<NodeId, Node>, edges: map<EdgeId, Edge>, id: NodeId)
    requires !HasEdge(edges, id)
    ensures NoDangling(nodes, edges) ==> NoDangling(nodes - {id}, edges)
  {
  }

  lemma EdgeBetweenLive(nodes: map<NodeId, Node>, edges: map<EdgeId, Edge>, e: EdgeId, v: Edge)
    ensures NoDangling(nodes, edges) && v.0.fromNode in nodes && v.0.toNode in nodes ==> NoDangling(nodes, edges[e := v])
  {
  }

  ghost predicate HasEdge(edges: map<EdgeId, Edge>, id: NodeId) {
    exists e :: e in edges && (edges[e].0.fromNode == id || edges[e].0.toNode == id)
  }

  lemma OutgoingEdges(outgoing: Lists, edges: map<EdgeId, Edge>, u: NodeId, e: EdgeId)
    requires ListedByStart(outgoing, EndsOf(edges))
    ensures e in Listed(outgoing, u) <==> e in edges && edges[e].0.fromNode == u
  {
    KnownEnds(edges, e);
  }

  lemma IncomingEdges(incoming: Lists, edges: map<EdgeId, Edge>, u: NodeId, e: EdgeId)
    requires ListedByEnd(incoming, EndsOf(edges))
    ensures e in Listed(incoming, u) <==> e in edges && edges[e].0.toNode == u
  {
    KnownEnds(edges, e);
  }

  lemma ListedEdges(outgoing: Lists, incoming: Lists, edges: map<EdgeId, Edge>, u: NodeId)
    requires ListedByStart(outgoing, EndsOf(edges)) && ListedByEnd(incoming, EndsOf(edges))
    ensures forall e :: e in Listed(outgoing, u) ==> e in edges && edges[e].0.fromNode == u
    ensures forall e :: e in Listed(incoming, u) ==> e in edges && edges[e].0.toNode == u
  {
    forall e ensures e in Listed(outgoing, u) <==> e in edges && edges[e].0.fromNode == u {
      OutgoingEdges(outgoing, edges, u, e);
    }
    forall e ensures e in Listed(incoming, u) <==> e in edges && edges[e].0.toNode == u {
      IncomingEdges(incoming, edges, u, e);
    }
  }

  lemma NothingSorted()
    ensures SortedUnique([]) == []
  {
  }

  lemma HasEdgeIff(outgoing: Lists, incoming: Lists, edges: map<EdgeId, Edge>, id: NodeId)
    requires ListedByStart(outgoing, EndsOf(edges)) && ListedByEnd(incoming, EndsOf(edges))
    ensures HasEdge(edges, id) <==> Listed(outgoing, id) != [] || Listed(incoming, id) != []
  {
    hide ListedByStart, ListedByEnd, EndsOf;
    if Listed(outgoing, id) != [] {
      OutgoingEdges(outgoing, edges, id, Listed(outgoing, id)[0]);
    }
    if Listed(incoming, id) != [] {
      IncomingEdges(incoming, edges, id, Listed(incoming, id)[0]);
    }
    if e :| e in edges && (edges[e].0.fromNode == id || edges[e].0.toNode == id) {
      OutgoingEdges(outgoing, edges, id, e);
      IncomingEdges(incoming, edges, id, e);
    }
  }

  /** The lists hold exactly the edges, and the count is right. */
  ghost predicate ListsOk(outgoing: Lists, incoming: Lists, edges: map<EdgeId, Edge>, count: nat) {
    ListedByStart(outgoing, EndsOf(edges)) && ListedByEnd(incoming, EndsOf(edges)) && count == |edges|
  }

  lemma ListsAfterAdd(outgoing: Lists, incoming: Lists, edges: map<EdgeId, Edge>, count: nat, e: EdgeId, v: Edge)
    requires ListsOk(outgoing, incoming, edges, count) && e !in edges
    ensures ListsOk(Pushed(outgoing, v.0.fromNode, e), Pushed(incoming, v.0.toNode, e), edges[e := v], count + 1)
  {
    KnownEnds(edges, e);
    EndsOfChanged(edges, e, v);
    PushByStart(outgoing, EndsOf(edges), e, Ends(v.0.fromNode, v.0.toNode));
    PushByEnd(incoming, EndsOf(edges), e, Ends(v.0.fromNode, v.0.toNode));
  }

  lemma ListsAfterUpdate(outgoing: Lists, incoming: Lists, edges: map<EdgeId, Edge>, count: nat, e: EdgeId, v: Edge)
    requires ListsOk(outgoing, incoming, edges, count) && e in edges
    requires v.0.fromNode == edges[e].0.fromNode && v.0.toNode == edges[e].0.toNode
    ensures ListsOk(outgoing, incoming, edges[e := v], count)
  {
    assert EndsOf(edges[e := v]) == EndsOf(edges);
  }

  lemma ListsAfterRemove(outgoing: Lists, incoming: Lists, edges: map<EdgeId, Edge>, count: nat, e: EdgeId)
    requires ListsOk(outgoing, incoming, edges, count) && e in edges
    ensures count > 0
    ensures ListsOk(Removed(outgoing, edges[e].0.fromNode, e), Removed(incoming, edges[e].0.toNode, e), edges - {e}, count - 1)
  {
    KnownEnds(edges, e);
    EndsOfChanged(edges, e, edges[e]);
    RemoveByStart(outgoing, EndsOf(edges), e);
    RemoveByEnd(incoming, EndsOf(edges), e);
  }

  lemma EraseEmptyLists(outgoing: Lists, incoming: Lists, edges: map<EdgeId, Edge>, count: nat, id: NodeId)
    requires ListsOk(outgoing, incoming, edges, count) && Listed(outgoing, id) == [] && Listed(incoming, id) == []
    ensures ListsOk(outgoing - {id}, incoming - {id}, edges, count)
  {
    hide EndsOf, ListedByStart, ListedByEnd;
    EraseEmpty(outgoing, incoming, EndsOf(edges), id);
  }

  /** Ids start at one, and every id in use has been handed out. */
  ghost predicate IdsOk(nodes: map<NodeId, Node>, edges: map<EdgeId, Edge>, nextNode: nat, nextEdge: nat) {
    && 1 <= nextNode && 1 <= nextEdge
    && (forall id :: id in nodes ==> 1 <= id < nextNode) && (forall e :: e in edges ==> 1 <= e < nextEdge)
  }

  function Incremented(count: U64): (n: U64)
    ensures n == (count + 1) % RANGE_64
  {
    if count == RANGE_64 - 1 then 0 else count + 1
  }

  function Decremented(count: U64): (n: U64)
    ensures n == (count + RANGE_64 - 1) % RANGE_64
  {
    if count == 0 then RANGE_64 - 1 else count - 1
  }

  /** Creating a node keeps the count right. */
  lemma CountAfterCreate(nodes: map<NodeId, Node>, count: U64, id: U64, v: Node)
    requires count == |nodes| < RANGE_64 - 1 && id !in nodes
    ensures Incremented(count) == |nodes[id := v]|
  {
  }

  lemma RestSize(nodes: map<NodeId, Node>, id: NodeId)
    ensures |nodes - {id}| == if id in nodes then |nodes| - 1 else |nodes|
  {
    var rest := nodes - {id};
    assert rest.Keys == nodes.Keys - {id};
    assert |rest| == |rest.Keys| && |nodes| == |nodes.Keys|;
  }

  /** Deleting a node keeps the count right exactly when there was such a node. */
  lemma CountAfterDelete(nodes: map<NodeId, Node>, count: U64, id: NodeId)
    requires count == |nodes|
    ensures Decremented(count) == |nodes - {id}| <==> id in nodes
  {
    RestSize(nodes, id);
  }

  /** The fields of a new record; property_count has 32 bits. */
  function NewNode(id: U64, count: nat): (r: NodeRecord)
    ensures r.id == id && r.propertyCount == count % 0x1_0000_0000
    ensures r.labelCount == r.inDegree == r.outDegree == 0
    ensures r.propertyOffset == r.inEdgesOffset == r.outEdgesOffset == 0
  {
    NodeRecord(id, 0, count % 0x1_0000_0000, 0, 0, 0, 0, 0)
  }

  function NewEdge(id: U64, from: U64, to: U64, labelId: U32, count: nat, timestamp: U64): (r: EdgeRecord)
    ensures r.id == id && r.fromNode == from && r.toNode == to && r.labelId == labelId
    ensures r.propertyCount == count % 0x1_0000_0000 && r.propertyOffset == 0 && r.timestamp == timestamp
  {
    EdgeRecord(id, from, to, labelId, count % 0x1_0000_0000, 0, timestamp)
  }

  /** Only the number of properties changes. */
  function NodeWithCount(node: NodeRecord, count: nat): (r: NodeRecord)
    ensures r.propertyCount == count % 0x1_0000_0000 && r.id == node.id && r.labelCount == node.labelCount
    ensures r.inDegree == node.inDegree && r.outDegree == node.outDegree && r.propertyOffset == node.propertyOffset
    ensures r.inEdgesOffset == node.inEdgesOffset && r.outEdgesOffset == node.outEdgesOffset
  {
    node.(propertyCount := count % 0x1_0000_0000)
  }

  function EdgeWithCount(edge: EdgeRecord, count: nat): (r: EdgeRecord)
    ensures r.propertyCount == count % 0x1_0000_0000 && r.id == edge.id && r.fromNode == edge.fromNode
    ensures r.toNode == edge.toNode && r.labelId == edge.labelId && r.propertyOffset == edge.propertyOffset
    ensures r.timestamp == edge.timestamp
  {
    edge.(propertyCount := count % 0x1_0000_0000)
  }

  class GraphStore {
    const store: FilePageStore
    var nodeIndex: map<NodeId, PageId>
    var edgeIndex: map<EdgeId, PageId>
    var outgoing: Lists
    var incoming: Lists
    var nextNodeId: nat
    var nextEdgeId: nat
    var nodeCount: U64
    var edgeCount: nat
    /** What is stored: the meaning of indexes and pages. */
    ghost var nodes: map<NodeId, Node>
    ghost var edges: map<EdgeId, Edge>

    ghost predicate PagesValid()
      reads this, store
    {
      store.Valid() && Stored(store.pages, store.freePages, nodeIndex, edgeIndex, nodes, edges)
    }

    ghost predicate Valid()
      reads this, store
    {
      PagesValid() && ListsOk(outgoing, incoming, edges, edgeCount) && IdsOk(nodes, edges, nextNodeId, nextEdgeId)
    }

    /** There are ids left for a page and a record. */
    ghost predicate Room()
      reads this, store
    {
      store.nextPageId < RANGE_64 && nextNodeId < RANGE_64 && nextEdgeId < RANGE_64
    }

    constructor (store: FilePageStore)
      requires store.Valid()
      ensures this.store == store && Valid() && nodes == map[] && edges == map[] && nodeCount == 0
      ensures nextNodeId == nextEdgeId == 1 && outgoing == incoming == map[]
    {
      this.store := store;
      nodeIndex, edgeIndex, outgoing, incoming := map[], map[], map[], map[];
      nextNodeId, nextEdgeId, nodeCount, edgeCount, nodes, edges := 1, 1, 0, 0, map[], map[];
    }

    method AllocatePage() returns (result: Result<PageId, Failure>)
      requires PagesValid() && store.nextPageId < RANGE_64
      modifies store
      ensures PagesValid() && store.closed == old(store.closed)
      ensures store.nextPageId <= old(store.nextPageId) + 1
      ensures store.closed ==> result == Err(IoError) && store.pages == old(store.pages)
      ensures !store.closed ==>
                result.Ok? && result.value in store.pages && result.value !in store.freePages
                && Unused(result.value, nodeIndex, edgeIndex)
    {
      hide Stored, Unused;
      result := store.Allocate();
      if result.Ok? {
        var p := result.value;
        assert store.pages == old(store.pages)[p := store.pages[p]];
        assert store.freePages == old(store.freePages) - {p};
        PageTaken(old(store.pages), old(store.freePages), nodeIndex, edgeIndex, nodes, edges, p, store.pages[p]);
      }
    }

    method StoreNodeRecord(id: NodeId, node: NodeRecord, properties: Properties) returns (result: Result<(),
                        StoreError>)
      requires PagesValid() && store.nextPageId < RANGE_64 && Fits(properties)
      modifies this`nodeIndex, this`nodes, store
      ensures PagesValid() && store.closed == old(store.closed)
      ensures store.nextPageId <= old(store.nextPageId) + 1
      ensures result == if store.closed then Err(Io(IoError)) else Ok(())
      ensures nodes == if store.closed then old(nodes) else old(nodes)[id := (node, properties)]
    {
      hide Stored, HoldsNode, PageImage, Sealed, NodeBytes, PropertiesBytes, Unused;
      var data := SerializeNode(node, properties);
      var newPage := AllocatePage();
      if newPage.Err? {
        return Err(Io(newPage.error));
      }
      var p := newPage.value;
      NodePage(p, (node, properties));
      var image := PageImage(NODE_PAGE, p, data);
      WriteUnused(store.pages, store.freePages, nodeIndex, edgeIndex, nodes, edges, p, Sealed(p, image));
      var written := store.Write(p, image);
      IndexNode(store.pages, store.freePages, nodeIndex, edgeIndex, nodes, edges, id, p, (node, properties));
      nodeIndex := nodeIndex[id := p];
      nodes := nodes[id := (node, properties)];
      return Ok(());
    }

    method StoreEdgeRecord(id: EdgeId, edge: EdgeRecord, properties: Properties) returns (result: Result<(),
                        StoreError>)
      requires PagesValid() && store.nextPageId < RANGE_64 && Fits(properties)
      modifies this`edgeIndex, this`edges, store
      ensures PagesValid() && store.closed == old(store.closed)
      ensures store.nextPageId <= old(store.nextPageId) + 1
      ensures result == if store.closed then Err(Io(IoError)) else Ok(())
      ensures edges == if store.closed then old(edges) else old(edges)[id := (edge, properties)]
    {
      hide Stored, HoldsEdge, PageImage, Sealed, EdgeBytes, PropertiesBytes, Unused;
      var data := SerializeEdge(edge, properties);
      var newPage := AllocatePage();
      if newPage.Err? {
        return Err(Io(newPage.error));
      }
      var p := newPage.value;
      EdgePage(p, (edge, properties));
      var image := PageImage(EDGE_PAGE, p, data);
      WriteUnused(store.pages, store.freePages, nodeIndex, edgeIndex, nodes, edges, p, Sealed(p, image));
      var written := store.Write(p, image);
      IndexEdge(store.pages, store.freePages, nodeIndex, edgeIndex, nodes, edges, id, p, (edge, properties));
      edgeIndex := edgeIndex[id := p];
      edges := edges[id := (edge, properties)];
      return Ok(());
    }

    method GetNode(id: NodeId) returns (result: Result<Node, StoreError>)
      requires PagesValid()
      ensures result == if id !in nodes then Err(NotFound) else if store.closed then Err(Io(IoError)) else Ok(nodes[id])
    {
      if id !in nodeIndex {
        return Err(NotFound);
      }
      var page := store.Read(nodeIndex[id]);
      if page.Err? {
        return Err(Io(page.error));
      }
      if KindOf(page.value) != NODE_PAGE {
        return Err(WrongPageType);
      }
      var node := DeserializeNode(page.value[HEADER_SIZE..]);
      match node {
        case Ok(v) => return Ok(v);
        case Err(e) => return Err(Unreadable(e));
      }
    }

    method GetEdge(id: EdgeId) returns (result: Result<Edge, StoreError>)
      requires PagesValid()
      ensures result == if id !in edges then Err(NotFound) else if store.closed then Err(Io(IoError)) else Ok(edges[id])
    {
      if id !in edgeIndex {
        return Err(NotFound);
      }
      var page := store.Read(edgeIndex[id]);
      if page.Err? {
        return Err(Io(page.error));
      }
      if KindOf(page.value) != EDGE_PAGE {
        return Err(WrongPageType);
      }
      var edge := DeserializeEdge(page.value[HEADER_SIZE..]);
      match edge {
        case Ok(v) => return Ok(v);
        case Err(e) => return Err(Unreadable(e));
      }
    }

    method CreateNode(properties: Properties) returns (result: Result<U64, StoreError>)
      requires Valid() && Room() && Fits(properties)
      modifies this`nextNodeId, this`nodeCount, this`nodeIndex, this`nodes, store
      ensures Valid() && store.closed == old(store.closed) && nextNodeId == old(nextNodeId) + 1
      ensures store.nextPageId <= old(store.nextPageId) + 1
      ensures result == if store.closed then Err(Io(IoError)) else Ok(old(nextNodeId))
      ensures nodes == if store.closed then old(nodes)
                       else old(nodes)[old(nextNodeId) := (NewNode(old(nextNodeId), |properties|), properties)]
      ensures result.Ok? ==> result.value in nodes && nodes[result.value].0.id == result.value &&
                             nodes[result.value].0.propertyCount == |properties| % 0x1_0000_0000 &&
                             nodes[result.value].1 == properties
      ensures nodeCount == if store.closed then old(nodeCount) else (old(nodeCount) + 1) % RANGE_64
    {
      hide Stored, Fits;
      var id := nextNodeId;
      nextNodeId := nextNodeId + 1;
      var stored := StoreNodeRecord(id, NewNode(id, |properties|), properties);
      if stored.Err? {
        return Err(stored.error);
      }
      nodeCount := Incremented(nodeCount);
      return Ok(id);
    }

    method UpdateNode(id: NodeId, properties: Properties) returns (result: Result<(), StoreError>)
      requires Valid() && Room() && Fits(properties)
      modifies this`nodeIndex, this`nodes, store
      ensures Valid() && store.closed == old(store.closed)
      ensures store.nextPageId <= old(store.nextPageId) + 1
      ensures result == if id !in old(nodes) then Err(NotFound) else if store.closed then Err(Io(IoError)) else Ok(())
      ensures nodes == if result.Err? then old(nodes)
                       else old(nodes)[id := (NodeWithCount(old(nodes)[id].0, |properties|), properties)]
      ensures result.Ok? ==>
                nodes[id] == (old(nodes)[id].0.(propertyCount := |properties| % 0x1_0000_0000), properties)
    {
      hide Stored, Fits;
      var found := GetNode(id);
      if found.Err? {
        return Err(found.error);
      }
      result := StoreNodeRecord(id, NodeWithCount(found.value.0, |properties|), properties);
    }

    method CreateEdge(from: U64, to: U64, labelId: U32, timestamp: U64, properties: Properties)
      returns (result: Result<U64, StoreError>)
      requires Valid() && Room() && Fits(properties)
      modifies this`nextEdgeId, this`edgeCount, this`edgeIndex, this`edges, this`outgoing, this`incoming, store
      ensures Valid() && store.closed == old(store.closed)
      ensures store.nextPageId <= old(store.nextPageId) + 1
      ensures nextEdgeId == old(nextEdgeId) + 1
      ensures result == if store.closed then Err(Io(IoError)) else Ok(old(nextEdgeId))
      ensures edges == if store.closed then old(edges)
                       else old(edges)[old(nextEdgeId) :=
                              (NewEdge(old(nextEdgeId), from, to, labelId, |properties|, timestamp), properties)]
      ensures result.Ok? ==> result.value in edges && edges[result.value].0.id == result.value &&
                             edges[result.value].0.fromNode == from && edges[result.value].0.toNode == to &&
                             edges[result.value].0.labelId == labelId && edges[result.value].0.timestamp == timestamp &&
                             edges[result.value].0.propertyCount == |properties| % 0x1_0000_0000 &&
                             edges[result.value].1 == properties
      ensures old(NoDangling(nodes, edges)) && from in nodes && to in nodes ==> NoDangling(nodes, edges)
      ensures outgoing == if store.closed then old(outgoing) else Pushed(old(outgoing), from, old(nextEdgeId))
      ensures incoming == if store.closed then old(incoming) else Pushed(old(incoming), to, old(nextEdgeId))
    {
      hide Stored, Fits, ListsOk, Pushed, Removed, FilePageStore.Valid, NoDangling;
      var e := nextEdgeId;
      nextEdgeId := nextEdgeId + 1;
      var edge := NewEdge(e, from, to, labelId, |properties|, timestamp);
      EdgeBetweenLive(nodes, edges, e, (edge, properties));
      ListsAfterAdd(outgoing, incoming, edges, edgeCount, e, (edge, properties));
      var stored := StoreEdgeRecord(e, edge, properties);
      if stored.Err? {
        return Err(stored.error);
      }
      UpdateAdjacencyLists(from, to, e, true);
      edgeCount := edgeCount + 1;
      return Ok(e);
    }

    method UpdateAdjacencyLists(from: NodeId, to: NodeId, e: EdgeId, add: bool)
      modifies this`outgoing, this`incoming
      ensures outgoing == if add then Pushed(old(outgoing), from, e) else Removed(old(outgoing), from, e)
      ensures incoming == if add then Pushed(old(incoming), to, e) else Removed(old(incoming), to, e)
    {
      if add {
        outgoing := outgoing[from := Listed(outgoing, from) + [e]];
        incoming := incoming[to := Listed(incoming, to) + [e]];
      } else {
        outgoing := outgoing[from := Without(Listed(outgoing, from), e)];
        incoming := incoming[to := Without(Listed(incoming, to), e)];
      }
    }

    method UpdateEdge(e: EdgeId, properties: Properties) returns (result: Result<(), StoreError>)
      requires Valid() && Room() && Fits(properties)
      modifies this`edgeIndex, this`edges, store
      ensures Valid() && store.closed == old(store.closed)
      ensures store.nextPageId <= old(store.nextPageId) + 1
      ensures result == if e !in old(edges) then Err(NotFound) else if store.closed then Err(Io(IoError)) else Ok(())
      ensures edges == if result.Err? then old(edges)
                       else old(edges)[e := (EdgeWithCount(old(edges)[e].0, |properties|), properties)]
      ensures result.Ok? ==>
                edges[e] == (old(edges)[e].0.(propertyCount := |properties| % 0x1_0000_0000), properties)
      ensures old(NoDangling(nodes, edges)) ==> NoDangling(nodes, edges)
    {
      hide Stored, Fits, ListsOk;
      var found := GetEdge(e);
      if found.Err? {
        return Err(found.error);
      }
      var edge := EdgeWithCount(found.value.0, |properties|);
      ListsAfterUpdate(outgoing, incoming, edges, edgeCount, e, (edge, properties));
      result := StoreEdgeRecord(e, edge, properties);
    }

    method DeleteEdge(e: EdgeId) returns (result: Result<(), StoreError>)
      requires Valid()
      modifies this`edgeCount, this`edgeIndex, this`edges, this`outgoing, this`incoming
      ensures Valid()
      ensures result == if e !in old(edges) then Err(NotFound) else if store.closed then Err(Io(IoError)) else Ok(())
      ensures edges == if result.Err? then old(edges) else old(edges) - {e}
      ensures old(NoDangling(nodes, edges)) ==> NoDangling(nodes, edges)
      ensures outgoing == if result.Err? then old(outgoing) else Removed(old(outgoing), old(edges)[e].0.fromNode, e)
      ensures incoming == if result.Err? then old(incoming) else Removed(old(incoming), old(edges)[e].0.toNode, e)
    {
      hide Stored, ListsOk, FilePageStore.Valid;
      var found := GetEdge(e);
      if found.Err? {
        return Err(found.error);
      }
      DropEdge(e, found.value.0);
      return Ok(());
    }

    method DropEdge(e: EdgeId, edge: EdgeRecord)
      requires Valid() && e in edges && edge == edges[e].0
      modifies this`edgeCount, this`edgeIndex, this`edges, this`outgoing, this`incoming
      ensures Valid() && edges == old(edges) - {e}
      ensures outgoing == Removed(old(outgoing), edge.fromNode, e) && incoming == Removed(old(incoming), edge.toNode, e)
    {
      hide Stored, ListsOk, Pushed, Removed, FilePageStore.Valid;
      ListsAfterRemove(outgoing, incoming, edges, edgeCount, e);
      ForgetEdge(store.pages, store.freePages, nodeIndex, edgeIndex, nodes, edges, e);
      UpdateAdjacencyLists(edge.fromNode, edge.toNode, e, false);
      edgeIndex := edgeIndex - {e};
      edges := edges - {e};
      edgeCount := edgeCount - 1;
    }

    /** An unknown node is not refused: only the count goes wrong. */
    method DeleteNode(id: NodeId) returns (result: Result<(), StoreError>)
      requires Valid()
      modifies this`nodeCount, this`nodeIndex, this`nodes, this`outgoing, this`incoming
      ensures Valid()
      ensures result == if HasEdge(edges, id) then Err(NotAllowed) else Ok(())
      ensures nodes == if result.Err? then old(nodes) else old(nodes) - {id}
      ensures nodeCount == if result.Err? then old(nodeCount) else (old(nodeCount) + RANGE_64 - 1) % RANGE_64
      ensures old(NoDangling(nodes, edges)) ==> NoDangling(nodes, edges)
      ensures outgoing == (if result.Err? then old(outgoing) else old(outgoing) - {id})
      ensures incoming == (if result.Err? then old(incoming) else old(incoming) - {id})
    {
      hide Stored, ListedByStart, ListedByEnd, EndsOf, HasEdge, NoDangling, FilePageStore.Valid;
      HasEdgeIff(outgoing, incoming, edges, id);
      if Listed(outgoing, id) != [] {
        return Err(NotAllowed);
      }
      if Listed(incoming, id) != [] {
        return Err(NotAllowed);
      }
      NoEdgeNoDangling(nodes, edges, id);
      DropNode(id);
      return Ok(());
    }

    method DropNode(id: NodeId)
      requires Valid() && Listed(outgoing, id) == [] && Listed(incoming, id) == []
      modifies this`nodeCount, this`nodeIndex, this`nodes, this`outgoing, this`incoming
      ensures Valid() && nodes == old(nodes) - {id}
      ensures nodeCount == (old(nodeCount) + RANGE_64 - 1) % RANGE_64
      ensures outgoing == old(outgoing) - {id} && incoming == old(incoming) - {id}
    {
      hide Stored, ListsOk, FilePageStore.Valid, Listed;
      ForgetNode(store.pages, store.freePages, nodeIndex, edgeIndex, nodes, edges, id);
      EraseEmptyLists(outgoing, incoming, edges, edgeCount, id);
      nodeIndex := nodeIndex - {id};
      nodes := nodes - {id};
      outgoing := outgoing - {id};
      incoming := incoming - {id};
      nodeCount := Decremented(nodeCount);
    }

    method GetAdjacentNodes(u: NodeId) returns (adjacent: seq<NodeId>)
      requires Valid()
      ensures !store.closed ==>
                adjacent == NeighboursOf(outgoing, incoming, EndsOf(edges), u) && IsNeighbourList(EndsOf(edges), u, adjacent)
      ensures store.closed ==> adjacent == []
    {
      hide Stored, ListedByStart, ListedByEnd, EndsOf, Others, SortedUnique, IsNeighbourList, FilePageStore.Valid;
      ListedEdges(outgoing, incoming, edges, u);
      ListsGiveNeighbours(outgoing, incoming, EndsOf(edges), u);
      adjacent := [];
      adjacent := CollectEnds(Listed(outgoing, u), u, true, adjacent);
      adjacent := CollectEnds(Listed(incoming, u), u, false, adjacent);
      if store.closed {
        NothingSorted();
      } else {
        assert adjacent == Others(EndsOf(edges), Listed(outgoing, u), u) + Others(EndsOf(edges), Listed(incoming, u), u);
      }
      adjacent := SortedUnique(adjacent);
    }

    /** The far ends of a list of edges that all start (or all end) at u. */
    method CollectEnds(es: seq<EdgeId>, u: NodeId, forward: bool, before: seq<NodeId>) returns (adjacent: seq<NodeId>)
      requires PagesValid()
      requires forall e :: e in es ==> e in edges && u == if forward then edges[e].0.fromNode else edges[e].0.toNode
      ensures adjacent == before + if store.closed then [] else Others(EndsOf(edges), es, u)
    {
      hide Stored, FilePageStore.Valid;
      adjacent := before;
      for i := 0 to |es|
        invariant adjacent == before + if store.closed then [] else Others(EndsOf(edges), es[..i], u)
      {
        assert es[..i + 1][..i] == es[..i] && es[i] in es;
        KnownEnds(edges, es[i]);
        var edge := GetEdge(es[i]);
        if edge.Ok? {
          adjacent := adjacent + [if forward then edge.value.0.toNode else edge.value.0.fromNode];
        }
      }
      assert es[..|es|] == es;
    }
  }
}
