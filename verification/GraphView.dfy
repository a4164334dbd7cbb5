// What a query sees of the store, and the candidate nodes and edges of one pattern element
// (src/query/cypher/executor.cpp:337-384, 510-602).
module GraphView {
  import opened Wrappers
  import Adjacency

  type NodeId = Adjacency.NodeId
  type EdgeId = Adjacency.EdgeId

  datatype EdgeData<P> = EdgeData(from: NodeId, to: NodeId, props: P)

  /** The results of get_node, get_edge, get_outgoing_edges, get_incoming_edges and get_node_count. */
  datatype View<P> = View(
    nodes: map<NodeId, P>,
    edges: map<EdgeId, EdgeData<P>>,
    outgoing: Adjacency.Lists,
    incoming: Adjacency.Lists,
    nodeCount: nat)

  /** Property (and type) constraints are an arbitrary predicate on the stored properties. */
  datatype NodePattern<!P> = NodePattern(variable: Option<string>, accepts: P -> bool)

  type Int32 = n: int | -0x8000_0000 <= n < 0x8000_0000

  datatype EdgePattern<!P> = EdgePattern(
    variable: Option<string>, accepts: P -> bool, directed: bool, minHops: Int32, maxHops: Int32)

  predicate NodeMatches<P>(view: View<P>, pattern: NodePattern<P>, u: NodeId) {
    u in view.nodes && pattern.accepts(view.nodes[u])
  }

  predicate EdgeMatches<P>(view: View<P>, pattern: EdgePattern<P>, e: EdgeId) {
    e in view.edges && pattern.accepts(view.edges[e].props)
  }

  function Candidates<P>(view: View<P>, pattern: EdgePattern<P>, u: NodeId): seq<EdgeId> {
    Adjacency.Listed(view.outgoing, u) + if pattern.directed then [] else Adjacency.Listed(view.incoming, u)
  }

  function MatchingEdges<P>(view: View<P>, pattern: EdgePattern<P>, es: seq<EdgeId>): seq<EdgeId> {
    if es == [] then []
    else
      var e := es[|es| - 1];
      MatchingEdges(view, pattern, es[..|es| - 1]) + if EdgeMatches(view, pattern, e) then [e] else []
  }

  /** `find_edges_by_pattern` with no far end given. */
  function EdgesFrom<P>(view: View<P>, pattern: EdgePattern<P>, u: NodeId): seq<EdgeId> {
    MatchingEdges(view, pattern, Candidates(view, pattern, u))
  }

  /** `find_nodes_by_pattern`: only the ids from 1 to the node count are looked at. */
  function NodesUpTo<P>(view: View<P>, pattern: NodePattern<P>, n: nat): seq<NodeId> {
    if n == 0 then []
    else NodesUpTo(view, pattern, n - 1) + if NodeMatches(view, pattern, n) then [n] else []
  }

  /** The comparison has a name so that quantifiers over lists of any kind can refer to it. */
  ghost predicate Differ<T>(a: T, b: T) {
    a != b
  }

  ghost predicate NoDuplicates<T>(s: seq<T>) {
    forall i, j :: 0 <= i < j < |s| ==> Differ(s[i], s[j])
  }

  /** No edge id is listed twice as a candidate. */
  ghost predicate DistinctLists<P>(view: View<P>, pattern: EdgePattern<P>) {
    forall u :: NoDuplicates(Candidates(view, pattern, u))
  }

  lemma {:induction false} OnceCount<T>(s: seq<T>, x: T)
    requires NoDuplicates(s)
    ensures multiset(s)[x] <= 1
  {
    if s != [] {
      var n := |s| - 1;
      assert s == s[..n] + [s[n]];
      OnceCount(s[..n], x);
      assert forall i :: 0 <= i < n ==> Differ(s[i], s[n]);
    }
  }

  lemma TwiceCount<T>(s: seq<T>, i: nat, j: nat)
    requires i < j < |s| && s[i] == s[j]
    ensures multiset(s)[s[i]] >= 2
  {
    assert s == s[..j] + s[j..];
    assert s[..j][i] in s[..j] && s[j..][0] in s[j..];
  }

  lemma {:induction false} MatchingEdgesExact<P>(view: View<P>, pattern: EdgePattern<P>, es: seq<EdgeId>)
    ensures forall e :: e in MatchingEdges(view, pattern, es) <==>
              e in es && e in view.edges && pattern.accepts(view.edges[e].props)
    ensures NoDuplicates(es) ==> NoDuplicates(MatchingEdges(view, pattern, es))
  {
    if es != [] {
      var n := |es| - 1;
      MatchingEdgesExact(view, pattern, es[..n]);
      assert es == es[..n] + [es[n]];
    }
  }

  /** A matching edge is kept as often as it is a candidate. */
  lemma {:induction false} MatchingEdgesCount<P>(view: View<P>, pattern: EdgePattern<P>, es: seq<EdgeId>, e: EdgeId)
    ensures multiset(MatchingEdges(view, pattern, es))[e] == if EdgeMatches(view, pattern, e) then multiset(es)[e] else 0
  {
    if es != [] {
      var n := |es| - 1;
      MatchingEdgesCount(view, pattern, es[..n], e);
      assert es == es[..n] + [es[n]];
    }
  }

  lemma {:induction false} NodesUpToExact<P>(view: View<P>, pattern: NodePattern<P>, n: nat)
    ensures forall u :: u in NodesUpTo(view, pattern, n) <==>
              1 <= u <= n && u in view.nodes && pattern.accepts(view.nodes[u])
    ensures forall i, j :: 0 <= i < j < |NodesUpTo(view, pattern, n)| ==>
              NodesUpTo(view, pattern, n)[i] < NodesUpTo(view, pattern, n)[j]
  {
    if n > 0 {
      NodesUpToExact(view, pattern, n - 1);
      var before := NodesUpTo(view, pattern, n - 1);
      assert forall i :: 0 <= i < |before| ==> before[i] in before;
    }
  }

  /** The scan finds every node that matches the pattern. */
  ghost predicate ScanComplete<P>(view: View<P>, pattern: NodePattern<P>) {
    forall u: NodeId :: NodeMatches(view, pattern, u) ==> u in NodesUpTo(view, pattern, view.nodeCount)
  }

  lemma ScanCompleteIff<P>(view: View<P>, pattern: NodePattern<P>)
    ensures ScanComplete(view, pattern) <==> forall u: NodeId :: NodeMatches(view, pattern, u) ==> 1 <= u <= view.nodeCount
  {
    NodesUpToExact(view, pattern, view.nodeCount);
  }

  lemma EdgesFromExact<P>(view: View<P>, pattern: EdgePattern<P>, u: NodeId)
    ensures forall e :: e in EdgesFrom(view, pattern, u) <==>
              && (e in Adjacency.Listed(view.outgoing, u) || (!pattern.directed && e in Adjacency.Listed(view.incoming, u)))
              && e in view.edges && pattern.accepts(view.edges[e].props)
  {
    MatchingEdgesExact(view, pattern, Candidates(view, pattern, u));
  }

  method Filter<P>(view: View<P>, pattern: EdgePattern<P>, u: NodeId) returns (filtered: seq<EdgeId>)
    ensures filtered == EdgesFrom(view, pattern, u)
  {
    var result := Adjacency.Listed(view.outgoing, u);
    if !pattern.directed {
      result := result + Adjacency.Listed(view.incoming, u);
    }
    assert result == Candidates(view, pattern, u);
    filtered := [];
    for i := 0 to |result|
      invariant filtered == MatchingEdges(view, pattern, result[..i])
    {
      assert result[..i + 1][..i] == result[..i];
      if result[i] in view.edges && pattern.accepts(view.edges[result[i]].props) {
        filtered := filtered + [result[i]];
      }
    }
    assert result[..|result|] == result;
  }

  method FindEdges<P>(view: View<P>, pattern: EdgePattern<P>, u: NodeId) returns (filtered: seq<EdgeId>)
    ensures filtered == EdgesFrom(view, pattern, u)
    ensures forall e :: e in filtered <==>
              && (e in Adjacency.Listed(view.outgoing, u) || (!pattern.directed && e in Adjacency.Listed(view.incoming, u)))
              && e in view.edges && pattern.accepts(view.edges[e].props)
  {
    filtered := Filter(view, pattern, u);
    EdgesFromExact(view, pattern, u);
  }

  method FindNodes<P>(view: View<P>, pattern: NodePattern<P>) returns (result: seq<NodeId>)
    ensures result == NodesUpTo(view, pattern, view.nodeCount)
    ensures forall u :: u in result <==> 1 <= u <= view.nodeCount && u in view.nodes && pattern.accepts(view.nodes[u])
    ensures forall i, j :: 0 <= i < j < |result| ==> result[i] < result[j]
  {
    NodesUpToExact(view, pattern, view.nodeCount);
    result := [];
    for u := 1 to view.nodeCount + 1
      invariant result == NodesUpTo(view, pattern, u - 1)
    {
      if u in view.nodes && pattern.accepts(view.nodes[u]) {
        result := result + [u];
      }
    }
  }
}
