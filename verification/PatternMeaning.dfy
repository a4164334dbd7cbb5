// What a pattern without a direction would mean, and hop bounds inside a chain, against what the code does
// (src/query/cypher/executor.cpp:195-313, 386-452, 510-555).
module PatternMeaning {
  import opened Wrappers
  import opened Records
  import opened Adjacency
  import opened GraphView
  import opened VariableLength
  import opened ChainPattern
  import opened StoreSearch
  import GS = GraphStore

  /** A matching edge between u and v, in either direction. */
  ghost predicate Joins<P>(view: View<P>, pattern: EdgePattern<P>, u: NodeId, v: NodeId, e: EdgeId) {
    EdgeMatches(view, pattern, e) &&
    var edge := view.edges[e];
    (edge.from == u && edge.to == v) || (edge.from == v && edge.to == u)
  }

  /** A walk over distinct nodes that may follow each edge in either direction. */
  ghost predicate BothWaysWalk<P>(view: View<P>, pattern: EdgePattern<P>, trail: seq<NodeId>, walk: seq<EdgeId>) {
    && |trail| == |walk| + 1 && NoDuplicates(trail)
    && forall i :: 0 <= i < |walk| ==> Joins(view, pattern, trail[i], trail[i + 1], walk[i])
  }

  /** The code takes this walk, and comes through these nodes. */
  ghost predicate Taken<P>(view: View<P>, pattern: EdgePattern<P>, trail: seq<NodeId>, walk: seq<EdgeId>) {
    |trail| > 0 && SimpleWalk(view, pattern, trail[0], walk) && Trail(view, trail[0], walk) == trail
  }

  ghost predicate Forwards<P>(view: View<P>, trail: seq<NodeId>, walk: seq<EdgeId>) {
    |trail| == |walk| + 1 && forall i :: 0 <= i < |walk| ==> walk[i] in view.edges && view.edges[walk[i]].from == trail[i]
  }

  lemma {:induction false} TrailAt<P>(view: View<P>, s: NodeId, walk: seq<EdgeId>, i: nat)
    requires i <= |walk|
    ensures |Trail(view, s, walk)| == |walk| + 1
    ensures Trail(view, s, walk)[i] ==
            if i == 0 then s else if walk[i - 1] in view.edges then view.edges[walk[i - 1]].to else 0
  {
    TrailShape(view, s, walk);
    if walk != [] {
      TrailShape(view, s, walk[..|walk| - 1]);
      if i < |walk| {
        TrailAt(view, s, walk[..|walk| - 1], i);
      }
    }
  }

  lemma CandidateIff<P>(view: View<P>, ends: map<EdgeId, Ends>, pattern: EdgePattern<P>, u: NodeId, e: EdgeId)
    requires Shows(view, ends)
    ensures e in EdgesFrom(view, pattern, u) <==>
            EdgeMatches(view, pattern, e) && (view.edges[e].from == u || (!pattern.directed && view.edges[e].to == u))
  {
    MatchingEdgesExact(view, pattern, Candidates(view, pattern, u));
  }

  lemma TakenStep<P>(view: View<P>, ends: map<EdgeId, Ends>, pattern: EdgePattern<P>,
                     trail: seq<NodeId>, walk: seq<EdgeId>, i: nat)
    requires Shows(view, ends) && Taken(view, pattern, trail, walk) && i < |walk|
    ensures |trail| == |walk| + 1 && Joins(view, pattern, trail[i], trail[i + 1], walk[i])
    ensures view.edges[walk[i]].from == trail[i]
  {
    hide Shows, EdgesFrom;
    TrailAt(view, trail[0], walk, i + 1);
    assert walk[i] in EdgesFrom(view, pattern, trail[i]);
    CandidateIff(view, ends, pattern, trail[i], walk[i]);
    assert Differ(trail[i], trail[i + 1]);
  }

  /** Whatever the direction of the pattern: the code takes exactly the walks that follow every edge forwards. */
  lemma TakenIffForwards<P>(view: View<P>, ends: map<EdgeId, Ends>, pattern: EdgePattern<P>,
                            trail: seq<NodeId>, walk: seq<EdgeId>)
    requires Shows(view, ends)
    ensures Taken(view, pattern, trail, walk) <==> BothWaysWalk(view, pattern, trail, walk) && Forwards(view, trail, walk)
  {
    hide Shows, EdgesFrom;
    if Taken(view, pattern, trail, walk) {
      TrailAt(view, trail[0], walk, 0);
      forall i | 0 <= i < |walk| ensures Joins(view, pattern, trail[i], trail[i + 1], walk[i]) {
        TakenStep(view, ends, pattern, trail, walk, i);
      }
      forall i | 0 <= i < |walk| ensures walk[i] in view.edges && view.edges[walk[i]].from == trail[i] {
        TakenStep(view, ends, pattern, trail, walk, i);
      }
    }
    if BothWaysWalk(view, pattern, trail, walk) && Forwards(view, trail, walk) {
      TrailAt(view, trail[0], walk, 0);
      forall i | 0 <= i <= |walk| ensures Trail(view, trail[0], walk)[i] == trail[i] {
        TrailAt(view, trail[0], walk, i);
        assert i > 0 ==> Joins(view, pattern, trail[i - 1], trail[(i - 1) + 1], walk[i - 1]);
      }
      assert Trail(view, trail[0], walk) == trail;
      forall i | 0 <= i < |walk| ensures walk[i] in EdgesFrom(view, pattern, Trail(view, trail[0], walk)[i]) {
        assert Joins(view, pattern, trail[i], trail[i + 1], walk[i]);
        CandidateIff(view, ends, pattern, trail[i], walk[i]);
      }
      assert SimpleWalk(view, pattern, trail[0], walk);
    }
  }

  ghost predicate OnlyLoops<P>(view: View<P>, pattern: EdgePattern<P>) {
    forall e :: EdgeMatches(view, pattern, e) ==> view.edges[e].from == view.edges[e].to
  }

  ghost predicate AllTaken<P>(view: View<P>, pattern: EdgePattern<P>) {
    forall trail, walk :: BothWaysWalk(view, pattern, trail, walk) ==> Taken(view, pattern, trail, walk)
  }

  lemma ForwardsByOne<P>(view: View<P>, u: NodeId, v: NodeId, e: EdgeId)
    ensures Forwards(view, [u, v], [e]) <==> e in view.edges && view.edges[e].from == u
  {
    assert [u, v][0] == u && [e][0] == e;
  }

  lemma BackwardsNotTaken<P>(view: View<P>, ends: map<EdgeId, Ends>, pattern: EdgePattern<P>, e: EdgeId)
    requires Shows(view, ends) && EdgeMatches(view, pattern, e) && view.edges[e].from != view.edges[e].to
    ensures var trail := [view.edges[e].to, view.edges[e].from];
            BothWaysWalk(view, pattern, trail, [e]) && !Taken(view, pattern, trail, [e])
  {
    hide Shows, Taken;
    var u, v := view.edges[e].to, view.edges[e].from;
    TakenIffForwards(view, ends, pattern, [u, v], [e]);
    ForwardsByOne(view, u, v, e);
    assert Joins(view, pattern, u, v, e);
  }

  lemma FirstStepLeaves<P>(view: View<P>, pattern: EdgePattern<P>, trail: seq<NodeId>, walk: seq<EdgeId>)
    requires BothWaysWalk(view, pattern, trail, walk) && walk != []
    ensures !OnlyLoops(view, pattern)
  {
    assert Joins(view, pattern, trail[0], trail[0 + 1], walk[0]);
    assert Differ(trail[0], trail[1]);
  }

  /** Every walk that may go either way is taken, exactly when every matching edge is a loop. */
  lemma AllTakenIff<P>(view: View<P>, ends: map<EdgeId, Ends>, pattern: EdgePattern<P>)
    requires Shows(view, ends)
    ensures AllTaken(view, pattern) <==> OnlyLoops(view, pattern)
  {
    hide Shows, Taken;
    if e :| EdgeMatches(view, pattern, e) && view.edges[e].from != view.edges[e].to {
      BackwardsNotTaken(view, ends, pattern, e);
    }
    if OnlyLoops(view, pattern) {
      forall trail, walk | BothWaysWalk(view, pattern, trail, walk) ensures Taken(view, pattern, trail, walk) {
        if walk != [] {
          FirstStepLeaves(view, pattern, trail, walk);
        } else {
          TakenIffForwards(view, ends, pattern, trail, walk);
        }
      }
    }
  }

  /** The end of e that is not u. */
  function FarEnd<P>(view: View<P>, e: EdgeId, u: NodeId): NodeId
    requires e in view.edges
  {
    if view.edges[e].from == u then view.edges[e].to else view.edges[e].from
  }

  /** A step of a chain from u by e arrives at the far end, exactly when e starts at u. */
  lemma ArrivesIff<P>(view: View<P>, ends: map<EdgeId, Ends>, pattern: EdgePattern<P>, u: NodeId, e: EdgeId)
    requires Shows(view, ends) && e in EdgesFrom(view, pattern, u)
    ensures e in view.edges && (view.edges[e].to == FarEnd(view, e, u) <==> view.edges[e].from == u)
  {
    CandidateIff(view, ends, pattern, u, e);
  }

  ghost predicate AllArrive<P>(view: View<P>, pattern: EdgePattern<P>) {
    forall u, e :: e in EdgesFrom(view, pattern, u) && e in view.edges ==> view.edges[e].to == FarEnd(view, e, u)
  }

  /** Every step a chain takes without a direction arrives at the far end, exactly when every matching edge is a loop. */
  lemma AllArriveIff<P>(view: View<P>, ends: map<EdgeId, Ends>, pattern: EdgePattern<P>)
    requires Shows(view, ends) && !pattern.directed
    ensures AllArrive(view, pattern) <==> OnlyLoops(view, pattern)
  {
    hide Shows, EdgesFrom;
    if AllArrive(view, pattern) {
      forall e | EdgeMatches(view, pattern, e) ensures view.edges[e].from == view.edges[e].to {
        CandidateIff(view, ends, pattern, view.edges[e].to, e);
      }
    }
    if OnlyLoops(view, pattern) {
      forall u, e | e in EdgesFrom(view, pattern, u) && e in view.edges ensures view.edges[e].to == FarEnd(view, e, u) {
        CandidateIff(view, ends, pattern, u, e);
      }
    }
  }

  // ----- A store with one edge -----

  /** An edge without properties. */
  ghost predicate IsEdge(edges: map<EdgeId, EdgeData<Properties>>, e: EdgeId, from: NodeId, to: NodeId) {
    e in edges && edges[e].from == from && edges[e].to == to && edges[e].props == []
  }

  lemma PushedFirst(u: NodeId, e: EdgeId)
    ensures Adjacency.Pushed(map[], u, e) == map[u := [e]]
  {
    assert Listed(map[], u) + [e] == [e];
  }

  method CreateOneEdge() returns (g: GS.GraphStore)
    ensures fresh(g) && fresh(g.store) && g.Valid() && g.Room() && !g.store.closed && g.nodeCount == 2
    ensures g.nodes.Keys == {1, 2} && g.nodes[1].1 == g.nodes[2].1 == []
    ensures IsEdge(SeenEdges(g.edges), 1, 1, 2) && g.edges.Keys == {1} && g.nextEdgeId == 2
    ensures g.outgoing == map[1 := [1]] && g.incoming == map[2 := [1]]
  {
    hide GS.GraphStore.Valid, GS.Fits;
    g := CreateTwo();
    GS.EmptyFits();
    PushedFirst(1, 1);
    PushedFirst(2, 1);
    var e := g.CreateEdge(1, 2, 0, 0, []);
  }

  /** One edge from 1 to 2, as seen by a query. */
  ghost predicate OneEdge(view: View<Properties>) {
    && view.nodes == map[1 := [], 2 := []] && view.nodeCount == 2
    && view.edges.Keys == {1} && IsEdge(view.edges, 1, 1, 2)
    && view.outgoing == map[1 := [1]] && view.incoming == map[2 := [1]]
  }

  /** From 2 there should be a walk to 1; the code has none that takes an edge, and a chain goes from 2 to 2. */
  ghost predicate MissesWayBack(view: View<Properties>, edge: EdgePattern<Properties>) {
    && BothWaysWalk(view, edge, [2, 1], [1])
    && (forall w :: SimpleWalk(view, edge, 2, w) ==> w == [])
    && (forall row: Row, to: NodePattern<Properties> :: to.accepts([]) && row == map["a" := NodeRef(2)] ==>
          ExpandRow(view, row, "a", edge, to.(variable := Some("b"))) == [map["a" := NodeRef(2), "b" := NodeRef(2)]])
  }

  lemma OnlyIncoming(view: View<Properties>, edge: EdgePattern<Properties>)
    requires OneEdge(view) && edge.accepts([]) && !edge.directed
    ensures EdgesFrom(view, edge, 2) == [1]
  {
    var es: seq<EdgeId> := [1];
    assert Candidates(view, edge, 2) == es && es[..0] == [];
    assert MatchingEdges(view, edge, es) == MatchingEdges(view, edge, es[..0]) + [1];
  }

  lemma WayBackMissed(view: View<Properties>, edge: EdgePattern<Properties>)
    requires OneEdge(view) && edge.accepts([]) && !edge.directed && edge.variable.None?
    ensures MissesWayBack(view, edge)
  {
    hide EdgesFrom;
    OnlyIncoming(view, edge);
    assert Joins(view, edge, [2, 1][0], [2, 1][0 + 1], [1][0]);
    forall w | SimpleWalk(view, edge, 2, w) ensures w == [] {
      if w != [] {
        TrailAt(view, 2, w, 0);
        TrailAt(view, 2, w, 1);
      }
    }
    forall row: Row, to: NodePattern<Properties> | to.accepts([]) && row == map["a" := NodeRef(2)]
      ensures ExpandRow(view, row, "a", edge, to.(variable := Some("b"))) == [map["a" := NodeRef(2), "b" := NodeRef(2)]]
    {
      var es: seq<EdgeId> := [1];
      var named := to.(variable := Some("b"));
      assert FollowEdges(view, row, edge, named, es) ==
             FollowEdges(view, row, edge, named, es[..0]) + FollowEdge(view, row, edge, named, 1);
    }
  }

  /** Carried by a new store with two nodes and one edge between them. */
  method WayBackMissedOnStore(edge: EdgePattern<Properties>) returns (g: GS.GraphStore)
    requires edge.accepts([]) && !edge.directed && edge.variable.None?
    ensures fresh(g) && g.Valid() && MissesWayBack(ViewOf(g), edge)
  {
    hide GS.GraphStore.Valid, MissesWayBack;
    g := CreateOneEdge();
    assert SeenNodes(g.nodes) == map[1 := [], 2 := []];
    WayBackMissed(ViewOf(g), edge);
  }

  // ----- Hop bounds inside a chain -----

  ghost predicate SameButBounds<P>(a: EdgePattern<P>, b: EdgePattern<P>) {
    a.(minHops := 1, maxHops := 1) == b.(minHops := 1, maxHops := 1)
  }

  /** Two chains that differ only in the hop bounds of their edges. */
  ghost predicate SameChain<P>(p: Pattern<P>, q: Pattern<P>) {
    && p.nodes == q.nodes && |p.edges| == |q.edges|
    && forall i :: 0 <= i < |p.edges| ==> SameButBounds(p.edges[i], q.edges[i])
  }

  lemma {:induction false} SameMatching<P>(view: View<P>, a: EdgePattern<P>, b: EdgePattern<P>, es: seq<EdgeId>)
    requires SameButBounds(a, b)
    ensures MatchingEdges(view, a, es) == MatchingEdges(view, b, es)
  {
    if es != [] {
      SameMatching(view, a, b, es[..|es| - 1]);
      assert a.accepts == b.accepts;
    }
  }

  lemma {:induction false} SameFollowing<P>(view: View<P>, row: Row, a: EdgePattern<P>, b: EdgePattern<P>,
                                            to: NodePattern<P>, es: seq<EdgeId>)
    requires SameButBounds(a, b)
    ensures FollowEdges(view, row, a, to, es) == FollowEdges(view, row, b, to, es)
  {
    if es != [] {
      SameFollowing(view, row, a, b, to, es[..|es| - 1]);
      assert a.variable == b.variable;
    }
  }

  lemma {:induction false} SameExpansion<P>(view: View<P>, rows: seq<Row>, variable: string, a: EdgePattern<P>,
                                            b: EdgePattern<P>, to: NodePattern<P>)
    requires SameButBounds(a, b)
    ensures ExpandRows(view, rows, variable, a, to) == ExpandRows(view, rows, variable, b, to)
  {
    if rows != [] {
      var row := rows[|rows| - 1];
      SameExpansion(view, rows[..|rows| - 1], variable, a, b, to);
      if variable in row && row[variable].NodeRef? {
        assert a.directed == b.directed;
        SameMatching(view, a, b, Candidates(view, a, row[variable].id));
        SameFollowing(view, row, a, b, to, EdgesFrom(view, a, row[variable].id));
      }
    }
  }

  /** The expansion of a chain does not depend on its hop bounds. */
  lemma {:induction false} HopBoundsIgnored<P>(view: View<P>, p: Pattern<P>, q: Pattern<P>, i: nat, rows: seq<Row>)
    requires IsChain(p) && SameChain(p, q) && i <= |p.edges|
    ensures ExpandFrom(view, p, i, rows) == ExpandFrom(view, q, i, rows)
    decreases |p.edges| - i
  {
    hide ExpandRows, SameButBounds;
    if i < |p.edges| && p.nodes[i].variable.Some? {
      SameExpansion(view, rows, p.nodes[i].variable.value, p.edges[i], q.edges[i], p.nodes[i + 1]);
      HopBoundsIgnored(view, p, q, i + 1,
        ExpandRows(view, rows, p.nodes[i].variable.value, p.edges[i], p.nodes[i + 1]));
    }
  }

  /** A walk of a length within the bounds of the edge pattern leads from u to v. */
  ghost predicate WithinBounds<P>(view: View<P>, edge: EdgePattern<P>, u: NodeId, v: NodeId) {
    exists walk :: SimpleWalk(view, edge, u, walk) && End(view, u, walk) == v
                   && AsSize(edge.minHops) <= |walk| <= AsSize(MaxHops(edge.maxHops))
  }

  lemma OneHopWithin<P>(view: View<P>, ends: map<EdgeId, Ends>, edge: EdgePattern<P>, e: EdgeId)
    requires Shows(view, ends) && EdgeMatches(view, edge, e) && view.edges[e].from != view.edges[e].to
    requires AsSize(edge.minHops) <= 1 <= AsSize(MaxHops(edge.maxHops))
    ensures WithinBounds(view, edge, view.edges[e].from, view.edges[e].to)
  {
    hide Shows, SimpleWalk;
    var u, v := view.edges[e].from, view.edges[e].to;
    ForwardsByOne(view, u, v, e);
    assert Joins(view, edge, u, v, e);
    assert BothWaysWalk(view, edge, [u, v], [e]);
    TakenIffForwards(view, ends, edge, [u, v], [e]);
    assert End(view, u, [e]) == v;
  }

  /** Between the two nodes of the store with one edge there is only the walk along it. */
  lemma OnlyOneHop(view: View<Properties>, ends: map<EdgeId, Ends>, edge: EdgePattern<Properties>, walk: seq<EdgeId>)
    requires OneEdge(view) && Shows(view, ends) && SimpleWalk(view, edge, 1, walk) && End(view, 1, walk) == 2
    ensures |walk| == 1
  {
    hide Shows, EdgesFrom;
    var trail := Trail(view, 1, walk);
    TrailAt(view, 1, walk, 0);
    TakenIffForwards(view, ends, edge, trail, walk);
    if |walk| > 1 {
      NotTwice(view, trail, walk);
    }
  }

  lemma NotTwice(view: View<Properties>, trail: seq<NodeId>, walk: seq<EdgeId>)
    requires view.edges.Keys == {1} && |walk| > 1 && Forwards(view, trail, walk)
    ensures trail[0] == trail[1]
  {
    assert walk[0] in view.edges && walk[1] in view.edges;
  }

  /** A matching edge that is not a loop, among right lists. */
  ghost predicate CanTake(view: View<Properties>, ends: map<EdgeId, Ends>, edge: EdgePattern<Properties>, e: EdgeId) {
    Shows(view, ends) && EdgeMatches(view, edge, e) && view.edges[e].from != view.edges[e].to
  }

  /** With right lists, every edge a chain can take is within the bounds. */
  ghost predicate AlwaysWithin(edge: EdgePattern<Properties>) {
    forall view: View<Properties>, ends, e :: CanTake(view, ends, edge, e) ==>
      WithinBounds(view, edge, view.edges[e].from, view.edges[e].to)
  }

  /** What a chain takes for the edge pattern is always within its bounds, exactly when the bounds admit one hop. */
  lemma AlwaysWithinIff(edge: EdgePattern<Properties>)
    requires edge.accepts([])
    ensures AlwaysWithin(edge) <==> AsSize(edge.minHops) <= 1 <= AsSize(MaxHops(edge.maxHops))
  {
    if AsSize(edge.minHops) <= 1 <= AsSize(MaxHops(edge.maxHops)) {
      hide Shows, WithinBounds;
      forall view: View<Properties>, ends, e | CanTake(view, ends, edge, e)
        ensures WithinBounds(view, edge, view.edges[e].from, view.edges[e].to)
      {
        OneHopWithin(view, ends, edge, e);
      }
    }
    if AlwaysWithin(edge) {
      var view, ends := OneEdgeView();
      assert CanTake(view, ends, edge, 1) && WithinBounds(view, edge, 1, 2);
      var walk :| SimpleWalk(view, edge, 1, walk) && End(view, 1, walk) == 2
                  && AsSize(edge.minHops) <= |walk| <= AsSize(MaxHops(edge.maxHops));
      OnlyOneHop(view, ends, edge, walk);
    }
  }

  lemma OneEdgeView() returns (view: View<Properties>, ends: map<EdgeId, Ends>)
    ensures OneEdge(view) && Shows(view, ends)
  {
    var none: Properties := [];
    var edge := EdgeData<Properties>.EdgeData(1, 2, none);
    view := View<Properties>.View(map[1 := none, 2 := none], map[1 := edge], map[1 := [1]], map[2 := [1]], 2);
    ends := map[1 := Ends(1, 2)];
  }

  /** Edges from 1 to 2 and from 2 to 1, as seen by a query. */
  ghost predicate Ring(view: View<Properties>) {
    && view.nodes == map[1 := [], 2 := []] && view.nodeCount == 2
    && view.edges.Keys == {1, 2} && IsEdge(view.edges, 1, 1, 2) && IsEdge(view.edges, 2, 2, 1)
    && view.outgoing == map[1 := [1], 2 := [2]] && view.incoming == map[2 := [1], 1 := [2]]
  }

  /** (a)-[*2..2]->(b)-->(c) */
  function TwoThenOne(accepts: Properties -> bool): Pattern<Properties> {
    Pattern([NodePattern(Some("a"), accepts), NodePattern(Some("b"), accepts), NodePattern(Some("c"), accepts)],
            [EdgePattern(None, accepts, true, 2, 2), EdgePattern(None, accepts, true, 1, 1)])
  }

  lemma RingStep(view: View<Properties>, edge: EdgePattern<Properties>, u: NodeId)
    requires Ring(view) && edge.accepts([]) && edge.directed && (u == 1 || u == 2)
    ensures EdgesFrom(view, edge, u) == [u] && view.edges[u].to == 3 - u
  {
    var es: seq<EdgeId> := [u];
    assert Candidates(view, edge, u) == es && es[..0] == [];
    assert MatchingEdges(view, edge, es) == MatchingEdges(view, edge, es[..0]) + [u];
  }

  lemma TwoHopsReturn(view: View<Properties>, edge: EdgePattern<Properties>, walk: seq<EdgeId>)
    requires Ring(view) && edge.accepts([]) && edge.directed && |walk| >= 2
    requires var trail := Trail(view, 1, walk);
             |trail| > 1 && walk[0] in EdgesFrom(view, edge, trail[0]) && walk[1] in EdgesFrom(view, edge, trail[1])
    ensures |Trail(view, 1, walk)| > 2 && Trail(view, 1, walk)[0] == Trail(view, 1, walk)[2]
  {
    hide EdgesFrom;
    TrailAt(view, 1, walk, 0);
    TrailAt(view, 1, walk, 1);
    TrailAt(view, 1, walk, 2);
    RingStep(view, edge, 1);
    RingStep(view, edge, 2);
  }

  lemma NoTwoHops(view: View<Properties>, edge: EdgePattern<Properties>, walk: seq<EdgeId>)
    requires Ring(view) && edge.accepts([]) && edge.directed && SimpleWalk(view, edge, 1, walk)
    ensures |walk| < 2
  {
    hide EdgesFrom, Ring;
    if |walk| >= 2 {
      TrailShape(view, 1, walk);
      TwoHopsReturn(view, edge, walk);
    }
  }

  lemma RingScan(view: View<Properties>, node: NodePattern<Properties>)
    requires Ring(view) && node.accepts([])
    ensures NodesUpTo(view, node, view.nodeCount) == [1, 2]
  {
    assert NodesUpTo(view, node, 1) == NodesUpTo(view, node, 0) + [1];
  }

  lemma RingAnswers(view: View<Properties>, accepts: Properties -> bool)
    requires Ring(view) && accepts([])
    ensures Answers(view, TwoThenOne(accepts), 1, [1, 2])
  {
    hide EdgesFrom, NodesUpTo;
    var pattern := TwoThenOne(accepts);
    RingStep(view, pattern.edges[0], 1);
    RingStep(view, pattern.edges[1], 2);
    RingScan(view, pattern.nodes[0]);
    assert StepFits(view, pattern, 1, [1, 2], 0);
    assert StepFits(view, pattern, 1, [1, 2], 1);
    NamesApartExact(view, pattern, 1, [1, 2]);
    assert StepsAgree(view, pattern, 1, [1, 2]);
  }

  /** A walk answers though no walk of the length asked for leads from its first node to its second. */
  lemma BoundsDisregarded(view: View<Properties>, accepts: Properties -> bool)
    requires Ring(view) && accepts([])
    ensures var pattern := TwoThenOne(accepts);
            Answers(view, pattern, 1, [1, 2]) && !WithinBounds(view, pattern.edges[0], 1, At(view, 1, [1, 2], 1))
  {
    hide Ring, Answers, SimpleWalk, End, At;
    var pattern := TwoThenOne(accepts);
    RingAnswers(view, accepts);
    forall walk | SimpleWalk(view, pattern.edges[0], 1, walk) ensures |walk| < 2 {
      NoTwoHops(view, pattern.edges[0], walk);
    }
  }

  lemma RingLists()
    ensures Adjacency.Pushed(map[1 := [1]], 2, 2) == map[1 := [1], 2 := [2]]
    ensures Adjacency.Pushed(map[2 := [1]], 1, 2) == map[2 := [1], 1 := [2]]
  {
    assert Listed(map[1 := [1]], 2) + [2] == [2] && Listed(map[2 := [1]], 1) + [2] == [2];
  }

  lemma RingEdges(edges: map<EdgeId, GS.Edge>, v: GS.Edge)
    requires edges.Keys == {1} && IsEdge(SeenEdges(edges), 1, 1, 2) && v.0.fromNode == 2 && v.0.toNode == 1 && v.1 == []
    ensures var seen := SeenEdges(edges[2 := v]);
            seen.Keys == {1, 2} && IsEdge(seen, 1, 1, 2) && IsEdge(seen, 2, 2, 1)
  {
  }

  method CreateRing() returns (g: GS.GraphStore)
    ensures fresh(g) && g.Valid() && Ring(ViewOf(g))
  {
    hide GS.GraphStore.Valid, GS.Fits, Adjacency.Pushed, SeenEdges, IsEdge;
    g := CreateOneEdge();
    ghost var before := g.edges;
    GS.EmptyFits();
    RingLists();
    var e := g.CreateEdge(2, 1, 0, 0, []);
    RingEdges(before, g.edges[2]);
    assert SeenNodes(g.nodes) == map[1 := [], 2 := []];
  }

  /** Carried by a new store with two nodes and an edge each way. */
  method BoundsDisregardedOnStore(accepts: Properties -> bool) returns (g: GS.GraphStore)
    requires accepts([])
    ensures fresh(g) && g.Valid() && Answers(ViewOf(g), TwoThenOne(accepts), 1, [1, 2])
    ensures !WithinBounds(ViewOf(g), TwoThenOne(accepts).edges[0], 1, At(ViewOf(g), 1, [1, 2], 1))
  {
    hide GS.GraphStore.Valid, Answers, WithinBounds, Ring, TwoThenOne, At;
    g := CreateRing();
    BoundsDisregarded(ViewOf(g), accepts);
  }
}
