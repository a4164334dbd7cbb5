// Queries and path searches on a store whose invariant holds: what they see of it, and what follows for their results
// (src/storage/graph_store.cpp:219-303, src/query/cypher/executor.cpp:195-602, src/query/executor.cpp:402-484).
module StoreSearch {
  import opened Wrappers
  import opened Records
  import opened Sequences
  import opened Adjacency
  import opened GraphView
  import opened ChainPattern
  import VariableLength
  import PathSearch
  import SimplePaths
  import PageStore
  import GS = GraphStore

  // ----- What a query sees -----

  ghost function SeenNodes(nodes: map<NodeId, GS.Node>): map<NodeId, Properties> {
    map id | id in nodes :: nodes[id].1
  }

  ghost function SeenEdges(edges: map<EdgeId, GS.Edge>): map<EdgeId, EdgeData<Properties>> {
    map e | e in edges :: EdgeData(edges[e].0.fromNode, edges[e].0.toNode, edges[e].1)
  }

  /** While the page store is closed no record can be read; the edge lists are in memory. */
  ghost function ViewOf(g: GS.GraphStore): View<Properties>
    reads g, g.store
  {
    View(if g.store.closed then map[] else SeenNodes(g.nodes), if g.store.closed then map[] else SeenEdges(g.edges),
         g.outgoing, g.incoming, g.nodeCount)
  }

  /** `get_node` as a query uses it. */
  method SeeNode(g: GS.GraphStore, id: NodeId) returns (seen: Option<Properties>)
    requires g.Valid()
    ensures seen == if id in ViewOf(g).nodes then Some(ViewOf(g).nodes[id]) else None
  {
    var node := g.GetNode(id);
    seen := if node.Ok? then Some(node.value.1) else None;
  }

  /** `get_edge` as a query uses it. */
  method SeeEdge(g: GS.GraphStore, e: EdgeId) returns (seen: Option<EdgeData<Properties>>)
    requires g.Valid()
    ensures seen == if e in ViewOf(g).edges then Some(ViewOf(g).edges[e]) else None
  {
    var edge := g.GetEdge(e);
    seen := if edge.Ok? then Some(EdgeData(edge.value.0.fromNode, edge.value.0.toNode, edge.value.1)) else None;
  }

  /** The edges seen have the recorded ends, and the lists hold exactly the recorded edges. */
  ghost predicate Shows<P>(view: View<P>, ends: map<EdgeId, Ends>) {
    && ListedByStart(view.outgoing, ends) && ListedByEnd(view.incoming, ends)
    && forall e :: e in view.edges ==> e in ends && ends[e] == Ends(view.edges[e].from, view.edges[e].to)
  }

  lemma ViewShows(g: GS.GraphStore)
    requires g.Valid()
    ensures Shows(ViewOf(g), GS.EndsOf(g.edges))
  {
    hide GS.Stored, ListedByStart, ListedByEnd;
  }

  // ----- Patterns -----

  ghost predicate HasLoop(ends: map<EdgeId, Ends>) {
    exists e :: e in ends && ends[e].from == ends[e].to
  }

  lemma TwiceIsLoop<P>(view: View<P>, ends: map<EdgeId, Ends>, u: NodeId, e: EdgeId)
    requires Shows(view, ends) && e in Listed(view.outgoing, u) && e in Listed(view.incoming, u)
    ensures HasLoop(ends)
  {
    assert ends[e].from == u == ends[e].to;
  }

  /** An edge is a candidate twice exactly when it is a loop and direction does not matter. */
  lemma CandidatesOnceIff<P>(view: View<P>, ends: map<EdgeId, Ends>, pattern: EdgePattern<P>)
    requires Shows(view, ends)
    ensures DistinctLists(view, pattern) <==> pattern.directed || !HasLoop(ends)
  {
    if pattern.directed || !HasLoop(ends) {
      forall u ensures NoDuplicates(Candidates(view, pattern, u)) {
        var out, into := Listed(view.outgoing, u), Listed(view.incoming, u);
        forall i, j | 0 <= i < |out| && 0 <= j < |into| && !pattern.directed ensures Differ(out[i], into[j]) {
          if out[i] == into[j] {
            TwiceIsLoop(view, ends, u, out[i]);
          }
        }
      }
    } else {
      var e :| e in ends && ends[e].from == ends[e].to;
      var u := ends[e].from;
      var out, into := Listed(view.outgoing, u), Listed(view.incoming, u);
      assert e in out && e in into;
      var i :| 0 <= i < |out| && out[i] == e;
      var j :| 0 <= j < |into| && into[j] == e;
      var both := Candidates(view, pattern, u);
      assert both[i] == e == both[|out| + j] && !Differ(both[i], both[|out| + j]);
      assert !NoDuplicates(both);
    }
  }

  /** No candidate by which a walk goes on is listed twice, whatever the direction and whatever loops there are. */
  lemma StepsOnce<P>(view: View<P>, ends: map<EdgeId, Ends>, pattern: EdgePattern<P>)
    requires Shows(view, ends)
    ensures VariableLength.DistinctSteps(view, pattern)
  {
    forall u ensures VariableLength.StepsApart(view, u, Candidates(view, pattern, u)) {
      var out, into := Listed(view.outgoing, u), Listed(view.incoming, u);
      forall i, j | 0 <= i < |out| && 0 <= j < |into| ensures VariableLength.StepsDiffer(view, u, out[i], into[j]) {
        assert out[i] in out && into[j] in into;
      }
    }
  }

  /** A variable-length pattern on a store: each walk gives exactly one row. */
  lemma EachWalkOnce(g: GS.GraphStore, from: NodePattern<Properties>, edge: EdgePattern<Properties>,
                     to: NodePattern<Properties>, rows: seq<VariableLength.Row>)
    returns (found: seq<VariableLength.Found>)
    requires g.Valid() && VariableLength.VariableAnswers(ViewOf(g), from, edge, to, rows)
    ensures VariableLength.Matched(ViewOf(g), from, edge, to, NodesUpTo(ViewOf(g), from, g.nodeCount), rows, found)
    ensures VariableLength.FoundOnce(found)
  {
    hide GS.GraphStore.Valid, Shows, VariableLength.DistinctSteps;
    ViewShows(g);
    StepsOnce(ViewOf(g), GS.EndsOf(g.edges), edge);
    found :| VariableLength.Matched(ViewOf(g), from, edge, to, NodesUpTo(ViewOf(g), from, g.nodeCount), rows, found);
  }

  /** An incoming edge, tried because direction does not matter, leads back to where the walk already is. */
  lemma UndirectedStep<P>(view: View<P>, ends: map<EdgeId, Ends>, pattern: EdgePattern<P>, u: NodeId, e: EdgeId)
    requires Shows(view, ends) && e in view.edges && view.edges[e].to != u
    ensures e in EdgesFrom(view, pattern, u) <==> e in EdgesFrom(view, pattern.(directed := true), u)
  {
    var directed := pattern.(directed := true);
    MatchingEdgesExact(view, pattern, Candidates(view, pattern, u));
    MatchingEdgesExact(view, directed, Candidates(view, directed, u));
    assert e !in Listed(view.incoming, u);
  }

  /** A candidate that does not start here is followed to where it ends, which is here. */
  lemma IncomingStaysPut<P>(view: View<P>, ends: map<EdgeId, Ends>, pattern: EdgePattern<P>, u: NodeId, e: EdgeId)
    requires Shows(view, ends) && e in EdgesFrom(view, pattern, u)
    ensures e in view.edges && (view.edges[e].from == u || view.edges[e].to == u)
    ensures pattern.directed ==> view.edges[e].from == u
  {
    MatchingEdgesExact(view, pattern, Candidates(view, pattern, u));
  }

  /** A variable-length pattern without a direction is answered by exactly the walks along the edges. */
  lemma {:induction false} UndirectedIsDirected<P>(view: View<P>, ends: map<EdgeId, Ends>, pattern: EdgePattern<P>,
                                                   s: NodeId, w: seq<EdgeId>)
    requires Shows(view, ends)
    ensures VariableLength.SimpleWalk(view, pattern, s, w) <==>
            VariableLength.SimpleWalk(view, pattern.(directed := true), s, w)
    decreases |w|
  {
    hide Shows;
    if w != [] {
      var before, e, directed := w[..|w| - 1], w[|w| - 1], pattern.(directed := true);
      var u := VariableLength.End(view, s, before);
      UndirectedIsDirected(view, ends, pattern, s, before);
      VariableLength.LastStep(view, pattern, s, w);
      VariableLength.LastStep(view, directed, s, w);
      VariableLength.TrailShape(view, s, before);
      MatchingEdgesExact(view, pattern, Candidates(view, pattern, u));
      MatchingEdgesExact(view, directed, Candidates(view, directed, u));
      if e in view.edges && view.edges[e].to != u {
        UndirectedStep(view, ends, pattern, u, e);
      }
    }
  }

  lemma SameAnswers(view: View<Properties>, ends: map<EdgeId, Ends>, from: NodePattern<Properties>,
                    edge: EdgePattern<Properties>, other: EdgePattern<Properties>, to: NodePattern<Properties>,
                    rows: seq<VariableLength.Row>)
    requires Shows(view, ends) && edge.(directed := true) == other.(directed := true)
    requires VariableLength.VariableAnswers(view, from, edge, to, rows)
    ensures VariableLength.VariableAnswers(view, from, other, to, rows)
  {
    hide Shows, VariableLength.DistinctSteps, VariableLength.SimpleWalk, VariableLength.RowsOf;
    var starts := NodesUpTo(view, from, view.nodeCount);
    var found :| VariableLength.Matched(view, from, edge, to, starts, rows, found);
    StepsOnce(view, ends, edge);
    forall s: NodeId, w
      ensures VariableLength.Requested(view, edge, to, s, w) <==> VariableLength.Requested(view, other, to, s, w)
    {
      UndirectedIsDirected(view, ends, edge, s, w);
      UndirectedIsDirected(view, ends, other, s, w);
    }
    assert VariableLength.Matched(view, from, other, to, starts, rows, found);
  }

  /** On a store, direction makes no difference to a variable-length pattern: edges are only followed forwards. */
  lemma DirectionIgnored(g: GS.GraphStore, from: NodePattern<Properties>, edge: EdgePattern<Properties>,
                         to: NodePattern<Properties>, rows: seq<VariableLength.Row>)
    requires g.Valid()
    ensures VariableLength.VariableAnswers(ViewOf(g), from, edge, to, rows) <==>
            VariableLength.VariableAnswers(ViewOf(g), from, edge.(directed := true), to, rows)
  {
    hide GS.GraphStore.Valid, Shows, VariableLength.VariableAnswers;
    ViewShows(g);
    if VariableLength.VariableAnswers(ViewOf(g), from, edge, to, rows) {
      SameAnswers(ViewOf(g), GS.EndsOf(g.edges), from, edge, edge.(directed := true), to, rows);
    }
    if VariableLength.VariableAnswers(ViewOf(g), from, edge.(directed := true), to, rows) {
      SameAnswers(ViewOf(g), GS.EndsOf(g.edges), from, edge.(directed := true), edge, to, rows);
    }
  }

  /** A loop, taken where direction does not matter, is a candidate as an outgoing and as an incoming edge. */
  ghost predicate LoopStep<P>(ends: map<EdgeId, Ends>, edge: EdgePattern<P>, e: EdgeId) {
    !edge.directed && e in ends && ends[e].from == ends[e].to
  }

  lemma DistinctCount(s: seq<EdgeId>, e: EdgeId)
    requires Distinct(s)
    ensures multiset(s)[e] == if e in s then 1 else 0
  {
    assert NoDuplicates(s);
    OnceCount(s, e);
  }

  lemma StepCount<P>(view: View<P>, ends: map<EdgeId, Ends>, edge: EdgePattern<P>, u: NodeId, e: EdgeId)
    requires Shows(view, ends) && e in EdgesFrom(view, edge, u)
    ensures multiset(EdgesFrom(view, edge, u))[e] == if LoopStep(ends, edge, e) then 2 else 1
  {
    hide Distinct;
    MatchingEdgesExact(view, edge, Candidates(view, edge, u));
    MatchingEdgesCount(view, edge, Candidates(view, edge, u), e);
    DistinctCount(Listed(view.outgoing, u), e);
    DistinctCount(Listed(view.incoming, u), e);
  }

  /** Twice as many for each loop taken where direction does not matter. */
  ghost function Ways<P>(ends: map<EdgeId, Ends>, pattern: Pattern<P>, w: seq<EdgeId>): (n: nat)
    requires |w| <= |pattern.edges|
    ensures n >= 1
  {
    if w == [] then 1
    else
      var n := |w| - 1;
      Ways(ends, pattern, w[..n]) * if LoopStep(ends, pattern.edges[n], w[n]) then 2 else 1
  }

  lemma {:induction false} TimesIsWays<P>(view: View<P>, ends: map<EdgeId, Ends>, pattern: Pattern<P>,
                                          s: NodeId, w: seq<EdgeId>)
    requires Shows(view, ends) && IsChain(pattern) && Answers(view, pattern, s, w)
    ensures |w| <= |pattern.edges| && Times(view, pattern, s, w) == Ways(ends, pattern, w)
    decreases |w|
  {
    assert |w| <= |pattern.edges|;
    hide Shows, Answers, EdgesFrom, At, LoopStep;
    if w != [] {
      var n := |w| - 1;
      AnswersBefore(view, pattern, n, s, w);
      LastEdgeFits(view, pattern, s, w, n);
      TimesIsWays(view, ends, pattern, s, w[..n]);
      StepCount(view, ends, pattern.edges[n], At(view, s, w[..n], n), w[n]);
    }
  }

  ghost predicate TakesNoLoop<P>(ends: map<EdgeId, Ends>, pattern: Pattern<P>, w: seq<EdgeId>)
    requires |w| <= |pattern.edges|
  {
    forall i :: 0 <= i < |w| ==> !LoopStep(ends, pattern.edges[i], w[i])
  }

  lemma {:induction false} OneWayIff<P>(ends: map<EdgeId, Ends>, pattern: Pattern<P>, w: seq<EdgeId>)
    requires |w| <= |pattern.edges|
    ensures Ways(ends, pattern, w) == 1 <==> TakesNoLoop(ends, pattern, w)
  {
    if w != [] {
      var n := |w| - 1;
      OneWayIff(ends, pattern, w[..n]);
      assert TakesNoLoop(ends, pattern, w) <==> TakesNoLoop(ends, pattern, w[..n]) && !LoopStep(ends, pattern.edges[n], w[n]);
    }
  }

  ghost predicate AnswersAll<P>(view: View<P>, pattern: Pattern<P>, s: NodeId, w: seq<EdgeId>)
    requires IsChain(pattern)
  {
    |w| == |pattern.edges| && Answers(view, pattern, s, w)
  }

  /**
   * A chain on a store: an answering walk gives one row, and twice as many for each loop it takes where direction
   * does not matter. No walk gives two rows exactly when none takes such a loop.
   */
  lemma RowsPerWalk(g: GS.GraphStore, pattern: Pattern<Properties>, result: Result<seq<VariableLength.Row>, Refusal>)
    returns (found: seq<VariableLength.Found>)
    requires g.Valid() && IsChain(pattern) && ChainAnswers(ViewOf(g), pattern, result) && result.Ok?
    ensures Joined(ViewOf(g), pattern, |pattern.edges|, result.value, found)
    ensures forall s: NodeId, w :: AnswersAll(ViewOf(g), pattern, s, w) ==>
              multiset(found)[(s, w)] == Ways(GS.EndsOf(g.edges), pattern, w)
    ensures NoDuplicates(found) <==>
            forall s: NodeId, w :: AnswersAll(ViewOf(g), pattern, s, w) ==> TakesNoLoop(GS.EndsOf(g.edges), pattern, w)
  {
    hide GS.GraphStore.Valid, Shows, RowsDescribe, Answers, TakesNoLoop, Ways;
    ViewShows(g);
    var view, ends := ViewOf(g), GS.EndsOf(g.edges);
    found :| Joined(view, pattern, |pattern.edges|, result.value, found);
    forall s: NodeId, w | AnswersAll(view, pattern, s, w) ensures multiset(found)[(s, w)] == Ways(ends, pattern, w) {
      TimesIsWays(view, ends, pattern, s, w);
    }
    OnceIffNoLoop(view, ends, pattern, found);
  }

  lemma OnceIffNoLoop<P>(view: View<P>, ends: map<EdgeId, Ends>, pattern: Pattern<P>, found: seq<VariableLength.Found>)
    requires IsChain(pattern)
    requires forall s: NodeId, w :: (s, w) in found <==> AnswersAll(view, pattern, s, w)
    requires forall s: NodeId, w :: AnswersAll(view, pattern, s, w) ==>
               multiset(found)[(s, w)] == Ways(ends, pattern, w)
    ensures NoDuplicates(found) <==>
            forall s: NodeId, w :: AnswersAll(view, pattern, s, w) ==> TakesNoLoop(ends, pattern, w)
  {
    hide Answers, TakesNoLoop, Ways;
    if NoDuplicates(found) {
      forall s: NodeId, w | AnswersAll(view, pattern, s, w) ensures TakesNoLoop(ends, pattern, w) {
        OnceCount(found, (s, w));
        OneWayIff(ends, pattern, w);
      }
    }
    if forall s: NodeId, w :: AnswersAll(view, pattern, s, w) ==> TakesNoLoop(ends, pattern, w) {
      forall i, j | 0 <= i < j < |found| ensures Differ(found[i], found[j]) {
        assert (found[i].0, found[i].1) in found;
        OneWayIff(ends, pattern, found[i].1);
        if found[i] == found[j] {
          TwiceCount(found, i, j);
        }
      }
    }
  }

  // ----- The scan for nodes -----

  ghost function UpTo(n: nat): (ids: set<NodeId>)
    ensures |ids| == n && forall id :: id in ids <==> 1 <= id <= n
  {
    if n == 0 then {} else UpTo(n - 1) + {n}
  }

  lemma {:induction false} SubsetOfSameSize(a: set<NodeId>, b: set<NodeId>)
    requires a <= b && |a| == |b|
    ensures a == b
  {
    if x :| x in b {
      if x in a {
        SubsetOfSameSize(a - {x}, b - {x});
      } else {
        PageStore.SubsetSize(a, b - {x});
      }
    }
  }

  /**
   * With a right node count, the scan is complete for every pattern exactly when the live ids are the numbers from
   * one to the count.
   */
  lemma ScanOfStoreCompleteIff(g: GS.GraphStore)
    requires g.Valid() && !g.store.closed && g.nodeCount == |g.nodes|
    ensures (forall pattern: NodePattern<Properties> :: ScanComplete(ViewOf(g), pattern)) <==>
            g.nodes.Keys == UpTo(g.nodeCount)
  {
    hide GS.Stored, GS.ListsOk;
    var view := ViewOf(g);
    if forall pattern: NodePattern<Properties> :: ScanComplete(view, pattern) {
      var all := NodePattern(None, (p: Properties) => true);
      assert ScanComplete(view, all);
      ScanCompleteIff(view, all);
      forall id | id in g.nodes ensures id in UpTo(g.nodeCount) {
        assert NodeMatches(view, all, id);
      }
      SubsetOfSameSize(g.nodes.Keys, UpTo(g.nodeCount));
    }
    if g.nodes.Keys == UpTo(g.nodeCount) {
      forall pattern: NodePattern<Properties> ensures ScanComplete(view, pattern) {
        ScanCompleteIff(view, pattern);
      }
    }
  }

  lemma SecondUnseen(nodes: map<NodeId, GS.Node>, outgoing: Lists, incoming: Lists, pattern: NodePattern<Properties>)
    requires nodes.Keys == {2} && nodes[2].1 == [] && pattern.accepts([])
    ensures var view := View(SeenNodes(nodes), map[], outgoing, incoming, 1);
            NodeMatches(view, pattern, 2) && NodesUpTo(view, pattern, 1) == [] && |nodes| == 1
  {
    var view: View<Properties> := View(SeenNodes(nodes), map[], outgoing, incoming, 1);
    assert NodesUpTo(view, pattern, 1) == NodesUpTo(view, pattern, 0) + [];
    assert |nodes| == |nodes.Keys|;
  }

  method CreateTwo() returns (g: GS.GraphStore)
    ensures fresh(g) && fresh(g.store) && g.Valid() && g.Room() && !g.store.closed && g.nodeCount == 2
    ensures g.nodes.Keys == {1, 2} && g.nodes[1].1 == g.nodes[2].1 == []
    ensures g.edges == map[] && g.outgoing == g.incoming == map[] && g.nextEdgeId == 1 && g.store.nextPageId <= 3
  {
    hide GS.GraphStore.Valid, PageStore.FilePageStore.Valid, GS.Fits, GS.NewNode;
    var pages := new PageStore.FilePageStore([]);
    g := new GS.GraphStore(pages);
    GS.EmptyFits();
    var first := g.CreateNode([]);
    var second := g.CreateNode([]);
  }

  /** Two nodes are created and the first is deleted: the second lives, the count is right, and the scan is empty. */
  method DeletedNodeHidesAnother(pattern: NodePattern<Properties>) returns (g: GS.GraphStore)
    requires pattern.accepts([])
    ensures fresh(g) && g.Valid() && !g.store.closed && g.nodeCount == |g.nodes| == 1
    ensures NodeMatches(ViewOf(g), pattern, 2) && NodesUpTo(ViewOf(g), pattern, g.nodeCount) == []
  {
    hide GS.GraphStore.Valid, NodesUpTo, NodeMatches;
    g := CreateTwo();
    var deleted := g.DeleteNode(1);
    SecondUnseen(g.nodes, g.outgoing, g.incoming, pattern);
    assert SeenEdges(g.edges) == map[];
  }

  // ----- What the scan costs a pattern -----

  /** A pattern is matched from exactly the matching nodes whose ids the scan gets to. */
  lemma StartsOfStore(g: GS.GraphStore, node: NodePattern<Properties>, s: NodeId)
    requires g.Valid()
    ensures s in NodesUpTo(ViewOf(g), node, g.nodeCount) <==> NodeMatches(ViewOf(g), node, s) && s <= g.nodeCount
  {
    hide GS.Stored, GS.ListsOk;
    NodesUpToExact(ViewOf(g), node, g.nodeCount);
  }

  /** The walk w from s answers the first |w| edges of the pattern, wherever the node s is. */
  ghost predicate DeclaredAnswer<P>(view: View<P>, pattern: Pattern<P>, s: NodeId, w: seq<EdgeId>)
    requires IsChain(pattern)
  {
    && |w| <= |pattern.edges| && NodeMatches(view, pattern.nodes[0], s)
    && (forall i :: 0 <= i < |w| ==> StepFits(view, pattern, s, w, i))
    && (forall i :: 0 <= i < |w| ==> StepAgrees(view, pattern, s, w, i))
  }

  /** The answers of a chain that are lost are those whose first node has an id above the node count. */
  lemma AnswersOfStore(g: GS.GraphStore, pattern: Pattern<Properties>, s: NodeId, w: seq<EdgeId>)
    requires g.Valid() && IsChain(pattern)
    ensures Answers(ViewOf(g), pattern, s, w) <==> DeclaredAnswer(ViewOf(g), pattern, s, w) && s <= g.nodeCount
  {
    hide GS.GraphStore.Valid, NodesUpTo, NodeMatches, StepFits, StepAgrees;
    StartsOfStore(g, pattern.nodes[0], s);
  }

  /** No answer to any part of a chain is lost, exactly when the scan is complete for its first node. */
  lemma NoAnswerLostIff(g: GS.GraphStore, pattern: Pattern<Properties>)
    requires g.Valid() && IsChain(pattern)
    ensures (forall s: NodeId, w :: DeclaredAnswer(ViewOf(g), pattern, s, w) ==> Answers(ViewOf(g), pattern, s, w)) <==>
            ScanComplete(ViewOf(g), pattern.nodes[0])
  {
    hide GS.GraphStore.Valid, NodesUpTo, NodeMatches, StepFits, StepAgrees, Answers;
    var view := ViewOf(g);
    forall s: NodeId, w
      ensures Answers(view, pattern, s, w) <==> DeclaredAnswer(view, pattern, s, w) && s <= g.nodeCount
    {
      AnswersOfStore(g, pattern, s, w);
    }
    forall s: NodeId
      ensures s in NodesUpTo(view, pattern.nodes[0], g.nodeCount) <==> NodeMatches(view, pattern.nodes[0], s) && s <= g.nodeCount
      ensures DeclaredAnswer(view, pattern, s, []) <==> NodeMatches(view, pattern.nodes[0], s)
    {
      StartsOfStore(g, pattern.nodes[0], s);
    }
    if forall s: NodeId, w :: DeclaredAnswer(view, pattern, s, w) ==> Answers(view, pattern, s, w) {
      forall s: NodeId | NodeMatches(view, pattern.nodes[0], s)
        ensures s in NodesUpTo(view, pattern.nodes[0], view.nodeCount)
      {
        assert DeclaredAnswer(view, pattern, s, []) && Answers(view, pattern, s, []);
      }
    }
  }

  /** A variable-length pattern finds the requested walks from the matching nodes whose ids the scan gets to. */
  lemma FoundOnStore(g: GS.GraphStore, from: NodePattern<Properties>, edge: EdgePattern<Properties>,
                     to: NodePattern<Properties>, rows: seq<VariableLength.Row>, found: seq<VariableLength.Found>)
    requires g.Valid()
    requires VariableLength.Matched(ViewOf(g), from, edge, to, NodesUpTo(ViewOf(g), from, g.nodeCount), rows, found)
    ensures forall s: NodeId, w :: (s, w) in found <==>
              NodeMatches(ViewOf(g), from, s) && s <= g.nodeCount && VariableLength.Requested(ViewOf(g), edge, to, s, w)
  {
    hide GS.GraphStore.Valid, NodesUpTo, NodeMatches, VariableLength.Requested, VariableLength.RowsOf;
    forall s: NodeId
      ensures s in NodesUpTo(ViewOf(g), from, g.nodeCount) <==> NodeMatches(ViewOf(g), from, s) && s <= g.nodeCount
    {
      StartsOfStore(g, from, s);
    }
  }

  // ----- Paths -----

  ghost function NeighbourLists(outgoing: Lists, incoming: Lists, ends: map<EdgeId, Ends>): PathSearch.Adjacency {
    map u | u in outgoing.Keys + incoming.Keys :: NeighboursOf(outgoing, incoming, ends, u)
  }

  /** What `get_adjacent_nodes` gives for each node. */
  ghost function GraphOf(g: GS.GraphStore): PathSearch.Adjacency
    reads g, g.store
  {
    if g.store.closed then map[] else NeighbourLists(g.outgoing, g.incoming, GS.EndsOf(g.edges))
  }

  lemma NeighbourListsOk(outgoing: Lists, incoming: Lists, ends: map<EdgeId, Ends>, u: NodeId)
    requires ListedByStart(outgoing, ends) && ListedByEnd(incoming, ends)
    ensures IsNeighbourList(ends, u, PathSearch.Adj(NeighbourLists(outgoing, incoming, ends), u))
  {
    hide ListedByStart, ListedByEnd, IsNeighbourList;
    ListsGiveNeighbours(outgoing, incoming, ends, u);
    if u !in outgoing && u !in incoming {
      assert Others(ends, [], u) + Others(ends, [], u) == [];
    }
  }

  /** `get_adjacent_nodes` as a path search uses it. */
  method Neighbours(g: GS.GraphStore, u: NodeId) returns (adjacent: seq<NodeId>)
    requires g.Valid()
    ensures adjacent == PathSearch.Adj(GraphOf(g), u)
  {
    hide GS.Stored, ListedByStart, ListedByEnd, IsNeighbourList, NeighbourLists;
    adjacent := g.GetAdjacentNodes(u);
    if !g.store.closed {
      NeighbourListsOk(g.outgoing, g.incoming, GS.EndsOf(g.edges), u);
      NeighboursUnique(GS.EndsOf(g.edges), u, adjacent, PathSearch.Adj(GraphOf(g), u));
    }
  }

  /** Each node on the path is joined to the next by a live edge in either direction. */
  ghost predicate JoinedPath(ends: map<EdgeId, Ends>, p: seq<NodeId>, a: NodeId, b: NodeId) {
    && |p| > 0 && p[0] == a && p[|p| - 1] == b
    && forall i :: 0 <= i < |p| - 1 ==> Adjacent(ends, p[i], p[i + 1])
  }

  lemma PathIsJoined(g: GS.GraphStore, p: seq<NodeId>, a: NodeId, b: NodeId)
    requires g.Valid() && !g.store.closed
    ensures PathSearch.IsPath(GraphOf(g), p, a, b) <==> JoinedPath(GS.EndsOf(g.edges), p, a, b)
  {
    hide GS.Stored, ListedByStart, ListedByEnd, NeighbourLists, Adjacent;
    var ends := GS.EndsOf(g.edges);
    forall i | 0 <= i < |p| - 1 ensures p[i + 1] in PathSearch.Adj(GraphOf(g), p[i]) <==> Adjacent(ends, p[i], p[i + 1]) {
      NeighbourListsOk(g.outgoing, g.incoming, ends, p[i]);
    }
  }

  ghost predicate NoJoinedPath(ends: map<EdgeId, Ends>, a: NodeId, b: NodeId) {
    forall p :: !JoinedPath(ends, p, a, b)
  }

  ghost predicate NoneShorter(ends: map<EdgeId, Ends>, a: NodeId, b: NodeId, n: nat) {
    forall p :: JoinedPath(ends, p, a, b) ==> n <= |p|
  }

  /** The shortest path search on a store. */
  lemma ShortestOnStore(g: GS.GraphStore, from: NodeId, to: NodeId, path: seq<NodeId>)
    requires g.Valid() && !g.store.closed && PathSearch.IsShortest(GraphOf(g), from, to, path)
    ensures path == [] <==> NoJoinedPath(GS.EndsOf(g.edges), from, to)
    ensures path != [] ==>
              JoinedPath(GS.EndsOf(g.edges), path, from, to) && NoneShorter(GS.EndsOf(g.edges), from, to, |path|)
  {
    hide GS.GraphStore.Valid, PathSearch.IsPath, JoinedPath;
    forall p ensures PathSearch.IsPath(GraphOf(g), p, from, to) <==> JoinedPath(GS.EndsOf(g.edges), p, from, to) {
      PathIsJoined(g, p, from, to);
    }
  }

  ghost function Backwards(p: seq<NodeId>): (q: seq<NodeId>)
    ensures |q| == |p|
  {
    seq(|p|, i requires 0 <= i < |p| => p[|p| - 1 - i])
  }

  lemma JoinedBackwards(ends: map<EdgeId, Ends>, p: seq<NodeId>, a: NodeId, b: NodeId)
    requires JoinedPath(ends, p, a, b)
    ensures JoinedPath(ends, Backwards(p), b, a)
  {
    var q := Backwards(p);
    forall i | 0 <= i < |q| - 1 ensures Adjacent(ends, q[i], q[i + 1]) {
      var k := |p| - 2 - i;
      assert Adjacent(ends, p[k], p[k + 1]);
    }
  }

  /** Searching from either end finds paths of the same length. */
  lemma DistanceSymmetric(g: GS.GraphStore, a: NodeId, b: NodeId, there: seq<NodeId>, back: seq<NodeId>)
    requires g.Valid() && !g.store.closed
    requires PathSearch.IsShortest(GraphOf(g), a, b, there) && PathSearch.IsShortest(GraphOf(g), b, a, back)
    ensures |there| == |back|
  {
    hide GS.GraphStore.Valid, PathSearch.IsShortest, JoinedPath;
    var ends := GS.EndsOf(g.edges);
    ShortestOnStore(g, a, b, there);
    ShortestOnStore(g, b, a, back);
    if there != [] {
      JoinedBackwards(ends, there, a, b);
    }
    if back != [] {
      JoinedBackwards(ends, back, b, a);
    }
  }

  /** The search for all simple paths on a store: exactly those within the limit, in order and none twice. */
  lemma SimplePathsOnStore(g: GS.GraphStore, from: NodeId, to: NodeId, limit: nat, paths: seq<seq<NodeId>>)
    requires g.Valid() && !g.store.closed && SimplePaths.AreSimplePaths(GraphOf(g), from, to, limit, paths)
    ensures forall p :: p in paths <==>
              JoinedPath(GS.EndsOf(g.edges), p, from, to) && Distinct(p) && 2 <= |p| <= limit
    ensures SimplePaths.InOrder(paths) && SimplePaths.NoneTwice(paths)
  {
    hide GS.Stored, ListedByStart, ListedByEnd, NeighbourLists, JoinedPath, PathSearch.IsPath;
    forall p ensures PathSearch.IsPath(GraphOf(g), p, from, to) <==> JoinedPath(GS.EndsOf(g.edges), p, from, to) {
      PathIsJoined(g, p, from, to);
    }
    forall u | u in GraphOf(g) ensures Increasing(GraphOf(g)[u]) {
      NeighbourListsOk(g.outgoing, g.incoming, GS.EndsOf(g.edges), u);
    }
  }
}
