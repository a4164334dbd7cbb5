// Fixed chains: match the first node, then expand the rows edge by edge
// (src/query/cypher/executor.cpp:195-244, 315-335, 386-452).
module ChainPattern {
  import opened Wrappers
  import opened GraphView
  import opened VariableLength

  /** A chain of node patterns with an edge pattern between each two. */
  datatype Pattern<!P> = Pattern(nodes: seq<NodePattern<P>>, edges: seq<EdgePattern<P>>)

  ghost predicate IsChain<P>(pattern: Pattern<P>) {
    |pattern.nodes| == |pattern.edges| + 1
  }

  datatype Refusal = UnnamedNode

  // ----- What the code computes, row by row -----

  function Bind(row: Row, variable: Option<string>, binding: Binding): Row {
    if variable.Some? then row[variable.value := binding] else row
  }

  /** The row for taking edge e, unless its end does not match or is bound to something else. */
  function FollowEdge<P>(view: View<P>, row: Row, edge: EdgePattern<P>, to: NodePattern<P>, e: EdgeId): seq<Row> {
    if e !in view.edges || !NodeMatches(view, to, view.edges[e].to) then []
    else
      var end := NodeRef(view.edges[e].to);
      var longer := Bind(row, edge.variable, EdgeRef(e));
      if to.variable.Some? && to.variable.value in longer && longer[to.variable.value] != end then []
      else [Bind(longer, to.variable, end)]
  }

  function FollowEdges<P>(view: View<P>, row: Row, edge: EdgePattern<P>, to: NodePattern<P>,
                      es: seq<EdgeId>): seq<Row> {
    if es == [] then []
    else
      var n := |es| - 1;
      FollowEdges(view, row, edge, to, es[..n]) + FollowEdge(view, row, edge, to, es[n])
  }

  function ExpandRow<P>(view: View<P>, row: Row, variable: string, edge: EdgePattern<P>, to: NodePattern<P>): seq<Row> {
    if variable !in row || !row[variable].NodeRef? then []
    else FollowEdges(view, row, edge, to, EdgesFrom(view, edge, row[variable].id))
  }

  function ExpandRows<P>(view: View<P>, rows: seq<Row>, variable: string, edge: EdgePattern<P>,
                      to: NodePattern<P>): seq<Row> {
    if rows == [] then []
    else
      var n := |rows| - 1;
      ExpandRows(view, rows[..n], variable, edge, to) + ExpandRow(view, rows[n], variable, edge, to)
  }

  /** The rest of the chain, from edge i on. */
  function ExpandFrom<P>(view: View<P>, pattern: Pattern<P>, i: nat, rows: seq<Row>): Result<seq<Row>, Refusal>
    requires |pattern.nodes| == |pattern.edges| + 1 && i <= |pattern.edges|
    decreases |pattern.edges| - i
  {
    if i == |pattern.edges| then Ok(rows)
    else if pattern.nodes[i].variable.None? then Err(UnnamedNode)
    else
      var next := ExpandRows(view, rows, pattern.nodes[i].variable.value, pattern.edges[i], pattern.nodes[i + 1]);
      if next == [] then Ok([]) else ExpandFrom(view, pattern, i + 1, next)
  }

  function NodeRows<P>(node: NodePattern<P>, ids: seq<NodeId>): seq<Row> {
    seq(|ids|, i requires 0 <= i < |ids| => Bind(map[], node.variable, NodeRef(ids[i])))
  }

  function StartRows<P>(view: View<P>, node: NodePattern<P>): seq<Row> {
    NodeRows(node, NodesUpTo(view, node, view.nodeCount))
  }

  method MatchNode<P>(view: View<P>, node: NodePattern<P>) returns (rows: seq<Row>)
    ensures rows == StartRows(view, node)
  {
    rows := [];
    var ids := FindNodes(view, node);
    for i := 0 to |ids|
      invariant rows == NodeRows(node, ids[..i])
    {
      var row: Row := map[];
      if node.variable.Some? {
        row := row[node.variable.value := NodeRef(ids[i])];
      }
      rows := rows + [row];
    }
  }

  method ExpandResults<P>(view: View<P>, previous: seq<Row>, from: NodePattern<P>, edge: EdgePattern<P>,
                      to: NodePattern<P>)
    returns (result: Result<seq<Row>, Refusal>)
    ensures result == if from.variable.None? then Err(UnnamedNode)
                      else Ok(ExpandRows(view, previous, from.variable.value, edge, to))
  {
    if from.variable.None? {
      return Err(UnnamedNode);
    }
    var rows: seq<Row> := [];
    for i := 0 to |previous|
      invariant rows == ExpandRows(view, previous[..i], from.variable.value, edge, to)
    {
      var row := previous[i];
      assert previous[..i + 1][..i] == previous[..i];
      if from.variable.value !in row || !row[from.variable.value].NodeRef? {
        continue;
      }
      var more := ExpandOne(view, row, edge, to, row[from.variable.value].id);
      rows := rows + more;
    }
    assert previous[..|previous|] == previous;
    return Ok(rows);
  }

  /** The loop over the edges leaving the node a row has reached. */
  method ExpandOne<P>(view: View<P>, row: Row, edge: EdgePattern<P>, to: NodePattern<P>,
                      u: NodeId) returns (rows: seq<Row>)
    ensures rows == FollowEdges(view, row, edge, to, EdgesFrom(view, edge, u))
  {
    rows := [];
    var es := FindEdges(view, edge, u);
    for j := 0 to |es|
      invariant rows == FollowEdges(view, row, edge, to, es[..j])
    {
      assert es[..j + 1][..j] == es[..j];
      var more := TakeEdge(view, row, edge, to, es[j]);
      rows := rows + more;
    }
    assert es[..|es|] == es;
  }

  method TakeEdge<P>(view: View<P>, row: Row, edge: EdgePattern<P>, to: NodePattern<P>,
                     e: EdgeId) returns (rows: seq<Row>)
    ensures rows == FollowEdge(view, row, edge, to, e)
  {
    rows := [];
    if e !in view.edges {
      return;
    }
    var end := view.edges[e].to;
    if end in view.nodes && to.accepts(view.nodes[end]) {
      var newRow := row;
      if edge.variable.Some? {
        newRow := newRow[edge.variable.value := EdgeRef(e)];
      }
      if to.variable.Some? {
        if to.variable.value in newRow {
          if newRow[to.variable.value] != NodeRef(end) {
            return;
          }
          assert newRow == newRow[to.variable.value := NodeRef(end)];
        } else {
          newRow := newRow[to.variable.value := NodeRef(end)];
        }
      }
      rows := [newRow];
    }
  }

  /** `match_pattern`, for a pattern that is neither empty nor a single variable-length edge. */
  method MatchChain<P>(view: View<P>, pattern: Pattern<P>) returns (result: Result<seq<Row>, Refusal>)
    requires IsChain(pattern)
    ensures result == ExpandFrom(view, pattern, 0, StartRows(view, pattern.nodes[0]))
  {
    var rows := MatchNode(view, pattern.nodes[0]);
    for i := 0 to |pattern.edges|
      invariant ExpandFrom(view, pattern, 0, StartRows(view, pattern.nodes[0])) == ExpandFrom(view, pattern, i, rows)
    {
      if pattern.nodes[i].variable.None? {
        return Err(UnnamedNode);
      }
      var expanded := ExpandResults(view, rows, pattern.nodes[i], pattern.edges[i], pattern.nodes[i + 1]);
      if expanded.Err? {
        return expanded;
      }
      rows := expanded.value;
      if rows == [] {
        return Ok(rows);
      }
    }
    return Ok(rows);
  }

  // ----- The declarative join -----

  /** The node reached after i edges of the walk w from s. */
  function At<P>(view: View<P>, s: NodeId, w: seq<EdgeId>, i: nat): NodeId
    requires i <= |w|
  {
    if i == 0 then s else if w[i - 1] in view.edges then view.edges[w[i - 1]].to else 0
  }

  ghost predicate SameNode<P>(view: View<P>, pattern: Pattern<P>, s: NodeId, w: seq<EdgeId>, i: nat, j: nat)
    requires i <= |w| < |pattern.nodes| && j <= |w|
  {
    pattern.nodes[i].variable.Some? && pattern.nodes[i].variable == pattern.nodes[j].variable ==>
      At(view, s, w, i) == At(view, s, w, j)
  }

  ghost predicate StepFits<P>(view: View<P>, pattern: Pattern<P>, s: NodeId, w: seq<EdgeId>, i: nat)
    requires IsChain(pattern) && i < |w| <= |pattern.edges|
  {
    && w[i] in EdgesFrom(view, pattern.edges[i], At(view, s, w, i))
    && NodeMatches(view, pattern.nodes[i + 1], At(view, s, w, i + 1))
  }

  /** What the walk binds the variables met so far to; of several bindings of one name, the last. */
  function RowOf<P>(view: View<P>, pattern: Pattern<P>, s: NodeId, w: seq<EdgeId>): Row
    requires |pattern.nodes| == |pattern.edges| + 1 && |w| <= |pattern.edges|
  {
    if w == [] then Bind(map[], pattern.nodes[0].variable, NodeRef(s))
    else
      var n := |w| - 1;
      Bind(Bind(RowOf(view, pattern, s, w[..n]), pattern.edges[n].variable, EdgeRef(w[n])),
           pattern.nodes[n + 1].variable, NodeRef(At(view, s, w, n + 1)))
  }

  /** If the name of node i + 1 has been bound before, then to that node. */
  ghost predicate StepAgrees<P>(view: View<P>, pattern: Pattern<P>, s: NodeId, w: seq<EdgeId>, i: nat)
    requires IsChain(pattern) && i < |w| <= |pattern.edges|
  {
    var variable := pattern.nodes[i + 1].variable;
    var row := Bind(RowOf(view, pattern, s, w[..i]), pattern.edges[i].variable, EdgeRef(w[i]));
    variable.Some? && variable.value in row ==> row[variable.value] == NodeRef(At(view, s, w, i + 1))
  }

  /** The walk w from s answers the first |w| edges of the pattern. */
  ghost predicate Answers<P>(view: View<P>, pattern: Pattern<P>, s: NodeId, w: seq<EdgeId>)
    requires IsChain(pattern)
  {
    && |w| <= |pattern.edges|
    && s in NodesUpTo(view, pattern.nodes[0], view.nodeCount)
    && (forall i :: 0 <= i < |w| ==> StepFits(view, pattern, s, w, i))
    && (forall i :: 0 <= i < |w| ==> StepAgrees(view, pattern, s, w, i))
  }

  lemma AnswersPrefix<P>(view: View<P>, pattern: Pattern<P>, s: NodeId, w: seq<EdgeId>, e: EdgeId)
    requires IsChain(pattern) && |w| < |pattern.edges|
    ensures Answers(view, pattern, s, w + [e]) <==>
            Answers(view, pattern, s, w) && StepFits(view, pattern, s, w + [e], |w|)
            && StepAgrees(view, pattern, s, w + [e], |w|)
  {
    var longer := w + [e];
    assert forall i :: 0 <= i <= |w| ==> longer[..i] == w[..i];
    assert forall i :: 0 <= i <= |w| ==> At(view, s, longer, i) == At(view, s, w, i);
    assert forall i :: 0 <= i < |w| ==> StepFits(view, pattern, s, longer, i) == StepFits(view, pattern, s, w, i);
    assert forall i :: 0 <= i < |w| ==> StepAgrees(view, pattern, s, longer, i) == StepAgrees(view, pattern, s, w, i);
  }

  // ----- The join when names are apart -----

  /** Edge variables differ from each other and from node variables. */
  ghost predicate EdgeNamesApart<P>(pattern: Pattern<P>) {
    && (forall i, j :: 0 <= i < |pattern.edges| && 0 <= j < |pattern.nodes| && pattern.edges[i].variable.Some? ==>
          pattern.edges[i].variable != pattern.nodes[j].variable)
    && (forall i, j :: 0 <= i < j < |pattern.edges| && pattern.edges[i].variable.Some? ==>
          pattern.edges[i].variable != pattern.edges[j].variable)
  }

  /** The row binds exactly the variables met so far, each to what the walk has there. */
  ghost predicate Describes<P>(view: View<P>, pattern: Pattern<P>, s: NodeId, w: seq<EdgeId>, row: Row)
    requires |w| < |pattern.nodes| && |w| <= |pattern.edges|
  {
    && (forall i :: 0 <= i <= |w| && pattern.nodes[i].variable.Some? ==>
          pattern.nodes[i].variable.value in row && row[pattern.nodes[i].variable.value] == NodeRef(At(view, s, w, i)))
    && (forall i :: 0 <= i < |w| && pattern.edges[i].variable.Some? ==>
          pattern.edges[i].variable.value in row && row[pattern.edges[i].variable.value] == EdgeRef(w[i]))
    && (forall v :: v in row ==> (exists i :: 0 <= i <= |w| && pattern.nodes[i].variable == Some(v))
                                 || (exists i :: 0 <= i < |w| && pattern.edges[i].variable == Some(v)))
  }

  /** The last node of the walk is the one its variable is bound to, if it is bound. */
  ghost predicate LastAgrees<P>(view: View<P>, pattern: Pattern<P>, s: NodeId, w: seq<EdgeId>)
    requires |w| < |pattern.nodes|
  {
    forall i :: 0 <= i < |w| ==> SameNode(view, pattern, s, w, i, |w|)
  }

  /** Binding an edge variable leaves every node variable as it was. */
  lemma EdgeNameIsNew<P>(view: View<P>, pattern: Pattern<P>, s: NodeId, w: seq<EdgeId>, row: Row)
    requires IsChain(pattern) && EdgeNamesApart(pattern) && |w| < |pattern.edges|
    requires Describes(view, pattern, s, w, row) && pattern.edges[|w|].variable.Some?
    ensures pattern.edges[|w|].variable.value !in row
  {
    var v := pattern.edges[|w|].variable.value;
    forall i | 0 <= i < |w| ensures pattern.edges[i].variable != Some(v) {
      if pattern.edges[i].variable.Some? {
        assert pattern.edges[i].variable != pattern.edges[|w|].variable;
      }
    }
  }

  lemma BoundByNode<P>(view: View<P>, pattern: Pattern<P>, s: NodeId, w: seq<EdgeId>, row: Row) returns (i: nat)
    requires IsChain(pattern) && EdgeNamesApart(pattern) && |w| < |pattern.edges|
    requires Describes(view, pattern, s, w, row)
    requires pattern.nodes[|w| + 1].variable.Some? && pattern.nodes[|w| + 1].variable.value in row
    ensures i <= |w| && pattern.nodes[i].variable == pattern.nodes[|w| + 1].variable
  {
    var variable := pattern.nodes[|w| + 1].variable;
    forall j | 0 <= j < |w| ensures pattern.edges[j].variable != variable {
      assert pattern.edges[j].variable.Some? ==> pattern.edges[j].variable != pattern.nodes[|w| + 1].variable;
    }
    i :| 0 <= i <= |w| && pattern.nodes[i].variable == variable;
  }

  /** The variable of the next node is bound to something else exactly when the walk's nodes disagree. */
  lemma BoundElsewhereIff<P>(view: View<P>, pattern: Pattern<P>, s: NodeId, w: seq<EdgeId>, e: EdgeId, row: Row)
    requires IsChain(pattern) && EdgeNamesApart(pattern) && |w| < |pattern.edges|
    requires Describes(view, pattern, s, w, row)
    ensures var variable := pattern.nodes[|w| + 1].variable;
            var longer := Bind(row, pattern.edges[|w|].variable, EdgeRef(e));
            (variable.Some? && variable.value in longer && longer[variable.value] != NodeRef(At(view, s, w + [e], |w| + 1)))
            <==> !LastAgrees(view, pattern, s, w + [e])
  {
    var variable := pattern.nodes[|w| + 1].variable;
    assert forall i :: 0 <= i <= |w| ==> At(view, s, w + [e], i) == At(view, s, w, i);
    assert pattern.edges[|w|].variable.Some? ==> pattern.edges[|w|].variable != variable;
    if variable.Some? && variable.value in row {
      var i := BoundByNode(view, pattern, s, w, row);
      assert row[variable.value] == NodeRef(At(view, s, w, i));
      assert SameNode(view, pattern, s, w + [e], i, |w| + 1) <==> At(view, s, w, i) == At(view, s, w + [e], |w| + 1);
    }
  }

  lemma DescribesNext<P>(view: View<P>, pattern: Pattern<P>, s: NodeId, w: seq<EdgeId>, e: EdgeId, row: Row)
    requires IsChain(pattern) && EdgeNamesApart(pattern) && |w| < |pattern.edges|
    requires Describes(view, pattern, s, w, row) && LastAgrees(view, pattern, s, w + [e])
    ensures Describes(view, pattern, s, w + [e],
              Bind(Bind(row, pattern.edges[|w|].variable, EdgeRef(e)),
                   pattern.nodes[|w| + 1].variable, NodeRef(At(view, s, w + [e], |w| + 1))))
  {
    var longer := w + [e];
    var middle := Bind(row, pattern.edges[|w|].variable, EdgeRef(e));
    var last := Bind(middle, pattern.nodes[|w| + 1].variable, NodeRef(At(view, s, longer, |w| + 1)));
    if pattern.edges[|w|].variable.Some? {
      EdgeNameIsNew(view, pattern, s, w, row);
    }
    forall i | 0 <= i <= |longer| && pattern.nodes[i].variable.Some?
      ensures pattern.nodes[i].variable.value in last
      ensures last[pattern.nodes[i].variable.value] == NodeRef(At(view, s, longer, i))
    {
      if i <= |w| {
        assert At(view, s, longer, i) == At(view, s, w, i) && SameNode(view, pattern, s, longer, i, |w| + 1);
      }
    }
    forall i | 0 <= i < |longer| && pattern.edges[i].variable.Some?
      ensures pattern.edges[i].variable.value in last
      ensures last[pattern.edges[i].variable.value] == EdgeRef(longer[i])
    {
      assert pattern.edges[i].variable != pattern.nodes[|w| + 1].variable;
    }
    forall v | v in last
      ensures (exists i :: 0 <= i <= |longer| && pattern.nodes[i].variable == Some(v))
              || (exists i :: 0 <= i < |longer| && pattern.edges[i].variable == Some(v))
    {
      assert v in row || pattern.edges[|w|].variable == Some(v) || pattern.nodes[|w| + 1].variable == Some(v);
    }
  }

  /** Every node has the same id as each later node of its name. */
  ghost predicate NodesAgree<P>(view: View<P>, pattern: Pattern<P>, s: NodeId, w: seq<EdgeId>)
    requires |w| < |pattern.nodes|
  {
    forall i, j :: 0 <= i < j <= |w| ==> SameNode(view, pattern, s, w, i, j)
  }

  lemma NodesAgreeNext<P>(view: View<P>, pattern: Pattern<P>, s: NodeId, w: seq<EdgeId>, e: EdgeId)
    requires |w| + 1 < |pattern.nodes|
    ensures NodesAgree(view, pattern, s, w + [e]) <==>
            NodesAgree(view, pattern, s, w) && LastAgrees(view, pattern, s, w + [e])
  {
    var longer := w + [e];
    assert forall i :: 0 <= i <= |w| ==> At(view, s, longer, i) == At(view, s, w, i);
    assert forall i, j :: 0 <= i < j <= |w| ==>
      SameNode(view, pattern, s, longer, i, j) == SameNode(view, pattern, s, w, i, j);
  }

  ghost predicate StepsAgree<P>(view: View<P>, pattern: Pattern<P>, s: NodeId, w: seq<EdgeId>)
    requires IsChain(pattern) && |w| <= |pattern.edges|
  {
    forall i :: 0 <= i < |w| ==> StepAgrees(view, pattern, s, w, i)
  }

  lemma StepsAgreeNext<P>(view: View<P>, pattern: Pattern<P>, s: NodeId, w: seq<EdgeId>, e: EdgeId)
    requires IsChain(pattern) && |w| < |pattern.edges|
    ensures StepsAgree(view, pattern, s, w + [e]) <==>
            StepsAgree(view, pattern, s, w) && StepAgrees(view, pattern, s, w + [e], |w|)
  {
    var longer := w + [e];
    assert forall i :: 0 <= i <= |w| ==> longer[..i] == w[..i];
    assert forall i :: 0 <= i < |w| ==> StepAgrees(view, pattern, s, longer, i) == StepAgrees(view, pattern, s, w, i);
  }

  /**
   * When edge variables are apart, the walks that answer are those that give repeated node variables one node, and
   * the row binds exactly the variables met so far, each to what the walk has there.
   */
  lemma {:induction false} NamesApartExact<P>(view: View<P>, pattern: Pattern<P>, s: NodeId, w: seq<EdgeId>)
    requires IsChain(pattern) && EdgeNamesApart(pattern) && |w| <= |pattern.edges|
    ensures StepsAgree(view, pattern, s, w) <==> NodesAgree(view, pattern, s, w)
    ensures StepsAgree(view, pattern, s, w) ==> Describes(view, pattern, s, w, RowOf(view, pattern, s, w))
  {
    if w != [] {
      hide EdgeNamesApart, StepsAgree, NodesAgree, LastAgrees, Describes, RowOf, StepAgrees;
      var n := |w| - 1;
      var before, e := w[..n], w[n];
      assert before + [e] == w;
      NamesApartExact(view, pattern, s, before);
      StepsAgreeNext(view, pattern, s, before, e);
      NodesAgreeNext(view, pattern, s, before, e);
      RowNext(view, pattern, s, before, e);
      if StepsAgree(view, pattern, s, before) {
        BoundElsewhereIff(view, pattern, s, before, e, RowOf(view, pattern, s, before));
        if LastAgrees(view, pattern, s, w) {
          DescribesNext(view, pattern, s, before, e, RowOf(view, pattern, s, before));
        }
      }
    }
  }

  // ----- One step -----

  lemma RowNext<P>(view: View<P>, pattern: Pattern<P>, s: NodeId, w: seq<EdgeId>, e: EdgeId)
    requires IsChain(pattern) && |w| < |pattern.edges|
    ensures var variable, end := pattern.nodes[|w| + 1].variable, NodeRef(At(view, s, w + [e], |w| + 1));
            var longer := Bind(RowOf(view, pattern, s, w), pattern.edges[|w|].variable, EdgeRef(e));
            && RowOf(view, pattern, s, w + [e]) == Bind(longer, variable, end)
            && (StepAgrees(view, pattern, s, w + [e], |w|) <==>
                  (variable.Some? && variable.value in longer ==> longer[variable.value] == end))
  {
    assert (w + [e])[..|w|] == w;
  }

  lemma StepFitsAt<P>(view: View<P>, pattern: Pattern<P>, s: NodeId, w: seq<EdgeId>, e: EdgeId)
    requires IsChain(pattern) && |w| < |pattern.edges|
    requires e in EdgesFrom(view, pattern.edges[|w|], At(view, s, w, |w|))
    ensures e in view.edges && At(view, s, w + [e], |w| + 1) == view.edges[e].to
    ensures StepFits(view, pattern, s, w + [e], |w|) <==> NodeMatches(view, pattern.nodes[|w| + 1], view.edges[e].to)
  {
    MatchingEdgesExact(view, pattern.edges[|w|], Candidates(view, pattern.edges[|w|], At(view, s, w, |w|)));
    assert At(view, s, w + [e], |w|) == At(view, s, w, |w|);
  }

  /** One edge taken by the code is one step of the join: the row grows exactly when the walk still answers. */
  lemma FollowEdgeExact<P>(view: View<P>, pattern: Pattern<P>, s: NodeId, w: seq<EdgeId>, e: EdgeId)
    requires IsChain(pattern) && |w| < |pattern.edges| && Answers(view, pattern, s, w)
    requires e in EdgesFrom(view, pattern.edges[|w|], At(view, s, w, |w|))
    ensures FollowEdge(view, RowOf(view, pattern, s, w), pattern.edges[|w|], pattern.nodes[|w| + 1], e) ==
            if Answers(view, pattern, s, w + [e]) then [RowOf(view, pattern, s, w + [e])] else []
  {
    hide Answers, EdgesFrom, RowOf, StepFits, StepAgrees, At;
    AnswersPrefix(view, pattern, s, w, e);
    RowNext(view, pattern, s, w, e);
    StepFitsAt(view, pattern, s, w, e);
  }

  /** The row of a walk binds the name of its last node to that node. */
  lemma LastBound<P>(view: View<P>, pattern: Pattern<P>, s: NodeId, w: seq<EdgeId>)
    requires IsChain(pattern) && |w| <= |pattern.edges| && pattern.nodes[|w|].variable.Some?
    ensures var v := pattern.nodes[|w|].variable.value;
            v in RowOf(view, pattern, s, w) && RowOf(view, pattern, s, w)[v] == NodeRef(At(view, s, w, |w|))
  {
  }

  // ----- The whole chain -----

  ghost predicate Accounts<P>(view: View<P>, pattern: Pattern<P>, k: nat, row: Row, f: Found)
    requires IsChain(pattern) && k <= |pattern.edges|
  {
    |f.1| == k && Answers(view, pattern, f.0, f.1) && row == RowOf(view, pattern, f.0, f.1)
  }

  /** Each row describes the walk listed beside it. */
  ghost predicate RowsDescribe<P>(view: View<P>, pattern: Pattern<P>, k: nat, rows: seq<Row>, found: seq<Found>)
    requires IsChain(pattern) && k <= |pattern.edges|
  {
    && |rows| == |found|
    && forall i :: 0 <= i < |found| ==> Accounts(view, pattern, k, rows[i], found[i])
  }

  lemma JoinDescribed<P>(view: View<P>, pattern: Pattern<P>, k: nat, rows: seq<Row>, found: seq<Found>,
                      rows': seq<Row>, found': seq<Found>)
    requires IsChain(pattern) && k <= |pattern.edges|
    requires RowsDescribe(view, pattern, k, rows, found) && RowsDescribe(view, pattern, k, rows', found')
    ensures RowsDescribe(view, pattern, k, rows + rows', found + found')
  {
    hide Answers, RowOf;
  }

  ghost function ExtendedBy<P>(view: View<P>, pattern: Pattern<P>, f: Found, e: EdgeId): seq<Found>
    requires IsChain(pattern)
  {
    if Answers(view, pattern, f.0, f.1 + [e]) then [(f.0, f.1 + [e])] else []
  }

  /** The walks that go on from f by one of the edges es. */
  ghost function Extended<P>(view: View<P>, pattern: Pattern<P>, f: Found, es: seq<EdgeId>): seq<Found>
    requires IsChain(pattern)
  {
    if es == [] then []
    else
      var n := |es| - 1;
      Extended(view, pattern, f, es[..n]) + ExtendedBy(view, pattern, f, es[n])
  }

  ghost function ExtendedAll<P>(view: View<P>, pattern: Pattern<P>, found: seq<Found>, k: nat): seq<Found>
    requires IsChain(pattern) && k < |pattern.edges| && forall i :: 0 <= i < |found| ==> |found[i].1| == k
  {
    if found == [] then []
    else
      var n := |found| - 1;
      ExtendedAll(view, pattern, found[..n], k)
      + Extended(view, pattern, found[n], EdgesFrom(view, pattern.edges[k], At(view, found[n].0, found[n].1, k)))
  }

  lemma FollowEdgeDescribed<P>(view: View<P>, pattern: Pattern<P>, k: nat, f: Found, row: Row, e: EdgeId)
    requires IsChain(pattern) && k < |pattern.edges| && Accounts(view, pattern, k, row, f)
    requires e in EdgesFrom(view, pattern.edges[k], At(view, f.0, f.1, k))
    ensures RowsDescribe(view, pattern, k + 1,
              FollowEdge(view, row, pattern.edges[k], pattern.nodes[k + 1], e), ExtendedBy(view, pattern, f, e))
  {
    FollowEdgeExact(view, pattern, f.0, f.1, e);
  }

  lemma {:induction false} FollowEdgesExact<P>(view: View<P>, pattern: Pattern<P>, k: nat, f: Found, row: Row,
                      es: seq<EdgeId>)
    requires IsChain(pattern) && k < |pattern.edges| && Accounts(view, pattern, k, row, f)
    requires forall i :: 0 <= i < |es| ==> es[i] in EdgesFrom(view, pattern.edges[k], At(view, f.0, f.1, k))
    ensures RowsDescribe(view, pattern, k + 1,
              FollowEdges(view, row, pattern.edges[k], pattern.nodes[k + 1], es), Extended(view, pattern, f, es))
  {
    if es != [] {
      var n := |es| - 1;
      FollowEdgesExact(view, pattern, k, f, row, es[..n]);
      FollowEdgeDescribed(view, pattern, k, f, row, es[n]);
      JoinDescribed(view, pattern, k + 1,
        FollowEdges(view, row, pattern.edges[k], pattern.nodes[k + 1], es[..n]), Extended(view, pattern, f, es[..n]),
        FollowEdge(view, row, pattern.edges[k], pattern.nodes[k + 1], es[n]), ExtendedBy(view, pattern, f, es[n]));
    }
  }

  lemma ExpandRowExact<P>(view: View<P>, pattern: Pattern<P>, k: nat, row: Row, f: Found)
    requires IsChain(pattern) && k < |pattern.edges| && pattern.nodes[k].variable.Some?
    requires Accounts(view, pattern, k, row, f)
    ensures RowsDescribe(view, pattern, k + 1,
              ExpandRow(view, row, pattern.nodes[k].variable.value, pattern.edges[k], pattern.nodes[k + 1]),
              Extended(view, pattern, f, EdgesFrom(view, pattern.edges[k], At(view, f.0, f.1, k))))
  {
    hide Answers, EdgesFrom, FollowEdges;
    LastBound(view, pattern, f.0, f.1);
    FollowEdgesExact(view, pattern, k, f, row, EdgesFrom(view, pattern.edges[k], At(view, f.0, f.1, k)));
  }

  lemma {:induction false} ExpandRowsExact<P>(view: View<P>, pattern: Pattern<P>, k: nat, rows: seq<Row>,
                      found: seq<Found>)
    requires IsChain(pattern) && k < |pattern.edges| && pattern.nodes[k].variable.Some?
    requires RowsDescribe(view, pattern, k, rows, found)
    ensures RowsDescribe(view, pattern, k + 1,
              ExpandRows(view, rows, pattern.nodes[k].variable.value, pattern.edges[k], pattern.nodes[k + 1]),
              ExtendedAll(view, pattern, found, k))
  {
    hide Answers, RowOf, EdgesFrom;
    if rows != [] {
      var n := |rows| - 1;
      var v, edge, to := pattern.nodes[k].variable.value, pattern.edges[k], pattern.nodes[k + 1];
      assert Accounts(view, pattern, k, rows[n], found[n]);
      ExpandRowsExact(view, pattern, k, rows[..n], found[..n]);
      ExpandRowExact(view, pattern, k, rows[n], found[n]);
      JoinDescribed(view, pattern, k + 1,
        ExpandRows(view, rows[..n], v, edge, to), ExtendedAll(view, pattern, found[..n], k),
        ExpandRow(view, rows[n], v, edge, to),
        Extended(view, pattern, found[n], EdgesFrom(view, edge, At(view, found[n].0, found[n].1, k))));
    }
  }

  lemma {:induction false} ExtendedMembers<P>(view: View<P>, pattern: Pattern<P>, f: Found, es: seq<EdgeId>,
                      s: NodeId, w: seq<EdgeId>)
    requires IsChain(pattern)
    ensures (s, w) in Extended(view, pattern, f, es) <==>
            w != [] && f == (s, w[..|w| - 1]) && w[|w| - 1] in es && Answers(view, pattern, s, w)
  {
    if es != [] {
      var n := |es| - 1;
      ExtendedMembers(view, pattern, f, es[..n], s, w);
      assert es == es[..n] + [es[n]];
      if w != [] && w[..|w| - 1] == f.1 && w[|w| - 1] == es[n] {
        assert w == f.1 + [es[n]];
      }
    }
  }

  lemma {:induction false} ExtendedAllMembers<P>(view: View<P>, pattern: Pattern<P>, found: seq<Found>, k: nat,
                      s: NodeId, w: seq<EdgeId>)
    requires IsChain(pattern) && k < |pattern.edges| && forall i :: 0 <= i < |found| ==> |found[i].1| == k
    ensures (s, w) in ExtendedAll(view, pattern, found, k) <==>
            |w| == k + 1 && (s, w[..k]) in found && Answers(view, pattern, s, w)
  {
    hide Answers, EdgesFrom, At;
    if found != [] {
      var n := |found| - 1;
      ExtendedAllMembers(view, pattern, found[..n], k, s, w);
      ExtendedMembers(view, pattern, found[n], EdgesFrom(view, pattern.edges[k], At(view, found[n].0, found[n].1, k)), s, w);
      assert found == found[..n] + [found[n]];
      if |w| == k + 1 && Answers(view, pattern, s, w) {
        LastEdgeFits(view, pattern, s, w, k);
      }
    }
  }

  lemma LastEdgeFits<P>(view: View<P>, pattern: Pattern<P>, s: NodeId, w: seq<EdgeId>, k: nat)
    requires IsChain(pattern) && k < |pattern.edges| && |w| == k + 1 && Answers(view, pattern, s, w)
    ensures w[k] in EdgesFrom(view, pattern.edges[k], At(view, s, w[..k], k))
  {
    assert StepFits(view, pattern, s, w, k);
    assert At(view, s, w[..k], k) == At(view, s, w, k);
  }

  lemma ExtendedByCount<P>(view: View<P>, pattern: Pattern<P>, f: Found, e: EdgeId, s: NodeId, w: seq<EdgeId>)
    requires IsChain(pattern)
    ensures multiset(ExtendedBy(view, pattern, f, e))[(s, w)] ==
            if w != [] && f == (s, w[..|w| - 1]) && w[|w| - 1] == e && Answers(view, pattern, s, w) then 1 else 0
  {
    hide Answers;
    if w != [] {
      assert w == w[..|w| - 1] + [w[|w| - 1]];
    }
    assert (f.1 + [e])[..|f.1|] == f.1;
  }

  lemma {:induction false} ExtendedCount<P>(view: View<P>, pattern: Pattern<P>, f: Found, es: seq<EdgeId>,
                      s: NodeId, w: seq<EdgeId>)
    requires IsChain(pattern)
    ensures multiset(Extended(view, pattern, f, es))[(s, w)] ==
            if w != [] && f == (s, w[..|w| - 1]) && Answers(view, pattern, s, w) then multiset(es)[w[|w| - 1]] else 0
  {
    hide Answers, ExtendedBy;
    if es != [] {
      var n := |es| - 1;
      ExtendedCount(view, pattern, f, es[..n], s, w);
      ExtendedByCount(view, pattern, f, es[n], s, w);
      assert es == es[..n] + [es[n]];
    }
  }

  /** How often the walk w is listed as a continuation of walks of k edges. */
  ghost function Continued<P>(view: View<P>, pattern: Pattern<P>, found: seq<Found>, k: nat, s: NodeId,
                      w: seq<EdgeId>): nat
    requires IsChain(pattern) && k < |pattern.edges|
  {
    if |w| == k + 1 && Answers(view, pattern, s, w)
    then multiset(found)[(s, w[..k])] * multiset(EdgesFrom(view, pattern.edges[k], At(view, s, w[..k], k)))[w[k]]
    else 0
  }

  lemma ContinuedByLast<P>(view: View<P>, pattern: Pattern<P>, found: seq<Found>, k: nat, s: NodeId, w: seq<EdgeId>)
    requires IsChain(pattern) && k < |pattern.edges| && forall i :: 0 <= i < |found| ==> |found[i].1| == k
    requires found != []
    ensures var n := |found| - 1;
            var es := EdgesFrom(view, pattern.edges[k], At(view, found[n].0, found[n].1, k));
            Continued(view, pattern, found, k, s, w) ==
            Continued(view, pattern, found[..n], k, s, w) + multiset(Extended(view, pattern, found[n], es))[(s, w)]
  {
    hide Answers, EdgesFrom, At;
    var n := |found| - 1;
    assert found == found[..n] + [found[n]];
    ExtendedCount(view, pattern, found[n], EdgesFrom(view, pattern.edges[k], At(view, found[n].0, found[n].1, k)), s, w);
    if |w| == k + 1 && Answers(view, pattern, s, w) {
      var m := multiset(EdgesFrom(view, pattern.edges[k], At(view, s, w[..k], k)))[w[k]];
      assert multiset(found)[(s, w[..k])] == multiset(found[..n])[(s, w[..k])] + if found[n] == (s, w[..k]) then 1 else 0;
      TimesOneMore(multiset(found[..n])[(s, w[..k])], m);
    }
  }

  lemma TimesOneMore(a: nat, m: nat)
    ensures (a + 1) * m == a * m + m
  {
  }

  lemma {:induction false} ExtendedAllCount<P>(view: View<P>, pattern: Pattern<P>, found: seq<Found>, k: nat,
                      s: NodeId, w: seq<EdgeId>)
    requires IsChain(pattern) && k < |pattern.edges| && forall i :: 0 <= i < |found| ==> |found[i].1| == k
    ensures multiset(ExtendedAll(view, pattern, found, k))[(s, w)] == Continued(view, pattern, found, k, s, w)
  {
    hide Answers, EdgesFrom, At;
    if found != [] {
      ExtendedAllCount(view, pattern, found[..|found| - 1], k, s, w);
      ContinuedByLast(view, pattern, found, k, s, w);
    }
  }

  /** In how many ways the edges of w can be taken, each as often as it is a candidate. */
  ghost function Times<P>(view: View<P>, pattern: Pattern<P>, s: NodeId, w: seq<EdgeId>): nat
    requires |w| <= |pattern.edges|
  {
    if w == [] then 1
    else
      var n := |w| - 1;
      Times(view, pattern, s, w[..n]) * multiset(EdgesFrom(view, pattern.edges[n], At(view, s, w[..n], n)))[w[n]]
  }

  /** `found` lists exactly the walks answering the first k edges, each as often as its edges are candidates. */
  ghost predicate Join<P>(view: View<P>, pattern: Pattern<P>, k: nat, found: seq<Found>)
    requires IsChain(pattern) && k <= |pattern.edges|
  {
    && (forall s: NodeId, w :: (s, w) in found <==> |w| == k && Answers(view, pattern, s, w))
    && (forall s: NodeId, w :: |w| == k && Answers(view, pattern, s, w) ==>
          multiset(found)[(s, w)] == Times(view, pattern, s, w))
  }

  lemma EdgeOnce<P>(view: View<P>, edge: EdgePattern<P>, u: NodeId, e: EdgeId)
    requires DistinctLists(view, edge)
    ensures multiset(EdgesFrom(view, edge, u))[e] <= 1
  {
    MatchingEdgesExact(view, edge, Candidates(view, edge, u));
    OnceCount(EdgesFrom(view, edge, u), e);
  }

  lemma {:induction false} TimesOnce<P>(view: View<P>, pattern: Pattern<P>, s: NodeId, w: seq<EdgeId>)
    requires |w| <= |pattern.edges| && forall i :: 0 <= i < |w| ==> DistinctLists(view, pattern.edges[i])
    ensures Times(view, pattern, s, w) <= 1
  {
    hide DistinctLists, EdgesFrom, At;
    if w != [] {
      var n := |w| - 1;
      TimesOnce(view, pattern, s, w[..n]);
      EdgeOnce(view, pattern.edges[n], At(view, s, w[..n], n), w[n]);
    }
  }

  /** If edge lists repeat nothing, the join has each walk once. */
  lemma JoinOnce<P>(view: View<P>, pattern: Pattern<P>, k: nat, found: seq<Found>)
    requires IsChain(pattern) && k <= |pattern.edges| && Join(view, pattern, k, found)
    requires forall i :: 0 <= i < k ==> DistinctLists(view, pattern.edges[i])
    ensures NoDuplicates(found)
  {
    hide Answers, DistinctLists;
    forall i, j | 0 <= i < j < |found| ensures Differ(found[i], found[j]) {
      assert (found[i].0, found[i].1) in found;
      TimesOnce(view, pattern, found[i].0, found[i].1);
      if found[i] == found[j] {
        TwiceCount(found, i, j);
      }
    }
  }

  ghost function StartsFound(ids: seq<NodeId>): seq<Found> {
    seq(|ids|, i requires 0 <= i < |ids| => (ids[i], []))
  }

  lemma StartCount(ids: seq<NodeId>, f: Found)
    requires forall i, j :: 0 <= i < j < |ids| ==> ids[i] < ids[j]
    ensures multiset(StartsFound(ids))[f] <= 1
  {
    forall i, j | 0 <= i < j < |ids| ensures Differ(StartsFound(ids)[i], StartsFound(ids)[j]) {
    }
    OnceCount(StartsFound(ids), f);
  }

  lemma StartFound(ids: seq<NodeId>, s: NodeId, w: seq<EdgeId>)
    ensures (s, w) in StartsFound(ids) <==> w == [] && s in ids
  {
    if w == [] && s in ids {
      var i :| 0 <= i < |ids| && ids[i] == s;
      assert StartsFound(ids)[i] == (s, w);
    }
  }

  lemma StartsDescribed<P>(view: View<P>, pattern: Pattern<P>)
    requires IsChain(pattern)
    ensures RowsDescribe(view, pattern, 0, StartRows(view, pattern.nodes[0]),
                         StartsFound(NodesUpTo(view, pattern.nodes[0], view.nodeCount)))
  {
    hide NodesUpTo;
  }

  lemma JoinStarts<P>(view: View<P>, pattern: Pattern<P>)
    requires IsChain(pattern)
    ensures Join(view, pattern, 0, StartsFound(NodesUpTo(view, pattern.nodes[0], view.nodeCount)))
  {
    hide NodesUpTo, StartsFound;
    var ids := NodesUpTo(view, pattern.nodes[0], view.nodeCount);
    NodesUpToExact(view, pattern.nodes[0], view.nodeCount);
    forall s: NodeId, w ensures (s, w) in StartsFound(ids) <==> |w| == 0 && Answers(view, pattern, s, w) {
      StartFound(ids, s, w);
    }
    forall s: NodeId, w | |w| == 0 && Answers(view, pattern, s, w)
      ensures multiset(StartsFound(ids))[(s, w)] == Times(view, pattern, s, w)
    {
      StartCount(ids, (s, w));
      assert (s, w) in StartsFound(ids);
    }
  }

  lemma AnswersBefore<P>(view: View<P>, pattern: Pattern<P>, k: nat, s: NodeId, w: seq<EdgeId>)
    requires IsChain(pattern) && k < |pattern.edges| && |w| == k + 1 && Answers(view, pattern, s, w)
    ensures Answers(view, pattern, s, w[..k])
  {
    assert w == w[..k] + [w[k]];
    AnswersPrefix(view, pattern, s, w[..k], w[k]);
  }

  lemma JoinNext<P>(view: View<P>, pattern: Pattern<P>, k: nat, found: seq<Found>)
    requires IsChain(pattern) && k < |pattern.edges| && Join(view, pattern, k, found)
    requires forall i :: 0 <= i < |found| ==> |found[i].1| == k
    ensures Join(view, pattern, k + 1, ExtendedAll(view, pattern, found, k))
  {
    hide Answers, EdgesFrom, At, ExtendedAll;
    var next := ExtendedAll(view, pattern, found, k);
    forall s: NodeId, w ensures (s, w) in next <==> |w| == k + 1 && Answers(view, pattern, s, w) {
      ExtendedAllMembers(view, pattern, found, k, s, w);
      if |w| == k + 1 && Answers(view, pattern, s, w) {
        AnswersBefore(view, pattern, k, s, w);
      }
    }
    forall s: NodeId, w | |w| == k + 1 && Answers(view, pattern, s, w)
      ensures multiset(next)[(s, w)] == Times(view, pattern, s, w)
    {
      AnswersBefore(view, pattern, k, s, w);
      ExtendedAllCount(view, pattern, found, k, s, w);
    }
  }

  ghost predicate HasAnswer<P>(view: View<P>, pattern: Pattern<P>, k: nat)
    requires IsChain(pattern)
  {
    exists s: NodeId, w :: |w| == k && Answers(view, pattern, s, w)
  }

  /** Expansion gets to edge i and finds the node before it unnamed. */
  ghost predicate Stuck<P>(view: View<P>, pattern: Pattern<P>, i: nat)
    requires IsChain(pattern)
  {
    i < |pattern.edges| && pattern.nodes[i].variable.None? && (i == 0 || HasAnswer(view, pattern, i))
  }

  lemma {:induction false} NoAnswerNoLonger<P>(view: View<P>, pattern: Pattern<P>, k: nat, s: NodeId, w: seq<EdgeId>)
    requires IsChain(pattern) && !HasAnswer(view, pattern, k) && k <= |w|
    ensures !Answers(view, pattern, s, w)
    decreases |w|
  {
    if k < |w| <= |pattern.edges| {
      var n := |w| - 1;
      NoAnswerNoLonger(view, pattern, k, s, w[..n]);
      assert w == w[..n] + [w[n]];
      AnswersPrefix(view, pattern, s, w[..n], w[n]);
    }
  }

  lemma JoinEmptyIff<P>(view: View<P>, pattern: Pattern<P>, k: nat, found: seq<Found>)
    requires IsChain(pattern) && k <= |pattern.edges| && Join(view, pattern, k, found)
    ensures found == [] <==> !HasAnswer(view, pattern, k)
  {
    if found != [] {
      assert (found[0].0, found[0].1) in found;
    }
  }

  /** `found` is the join of the first k edges, and the rows describe it. */
  ghost predicate Joined<P>(view: View<P>, pattern: Pattern<P>, k: nat, rows: seq<Row>, found: seq<Found>)
    requires IsChain(pattern) && k <= |pattern.edges|
  {
    RowsDescribe(view, pattern, k, rows, found) && Join(view, pattern, k, found)
  }

  lemma JoinedNext<P>(view: View<P>, pattern: Pattern<P>, k: nat, rows: seq<Row>, found: seq<Found>)
    requires IsChain(pattern) && k < |pattern.edges| && pattern.nodes[k].variable.Some?
    requires Joined(view, pattern, k, rows, found)
    ensures forall i :: 0 <= i < |found| ==> |found[i].1| == k
    ensures Joined(view, pattern, k + 1,
              ExpandRows(view, rows, pattern.nodes[k].variable.value, pattern.edges[k], pattern.nodes[k + 1]),
              ExtendedAll(view, pattern, found, k))
  {
    ExpandRowsExact(view, pattern, k, rows, found);
    JoinNext(view, pattern, k, found);
  }

  ghost predicate NeverStuckFrom<P>(view: View<P>, pattern: Pattern<P>, i: nat)
    requires IsChain(pattern)
  {
    forall m: nat :: i <= m ==> !Stuck(view, pattern, m)
  }

  lemma NeverStuckNext<P>(view: View<P>, pattern: Pattern<P>, i: nat)
    requires IsChain(pattern) && i < |pattern.edges| && pattern.nodes[i].variable.Some?
    ensures NeverStuckFrom(view, pattern, i) <==> NeverStuckFrom(view, pattern, i + 1)
  {
    assert !Stuck(view, pattern, i);
  }

  lemma NeverStuckAtEnd<P>(view: View<P>, pattern: Pattern<P>)
    requires IsChain(pattern)
    ensures NeverStuckFrom(view, pattern, |pattern.edges|)
  {
  }

  lemma StuckHere<P>(view: View<P>, pattern: Pattern<P>, i: nat, rows: seq<Row>, found: seq<Found>)
    requires IsChain(pattern) && i < |pattern.edges| && pattern.nodes[i].variable.None?
    requires Joined(view, pattern, i, rows, found) && (i == 0 || rows != [])
    ensures !NeverStuckFrom(view, pattern, i)
  {
    JoinEmptyIff(view, pattern, i, found);
    assert Stuck(view, pattern, i);
  }

  /** Breaking off as soon as no rows are left is right. */
  lemma JoinedNone<P>(view: View<P>, pattern: Pattern<P>, k: nat, found: seq<Found>)
    requires IsChain(pattern) && 0 < k <= |pattern.edges| && Joined(view, pattern, k, [], found)
    ensures Joined(view, pattern, |pattern.edges|, [], []) && NeverStuckFrom(view, pattern, k)
  {
    JoinEmptyIff(view, pattern, k, found);
    forall s: NodeId, w | k <= |w| ensures !Answers(view, pattern, s, w) {
      NoAnswerNoLonger(view, pattern, k, s, w);
    }
  }

  lemma {:induction false} ExpandFromExact<P>(view: View<P>, pattern: Pattern<P>, i: nat, rows: seq<Row>,
                      found: seq<Found>)
    returns (all: seq<Found>)
    requires IsChain(pattern) && i <= |pattern.edges|
    requires Joined(view, pattern, i, rows, found) && (i == 0 || rows != [])
    ensures ExpandFrom(view, pattern, i, rows).Ok? <==> NeverStuckFrom(view, pattern, i)
    ensures ExpandFrom(view, pattern, i, rows).Ok? ==>
              Joined(view, pattern, |pattern.edges|, ExpandFrom(view, pattern, i, rows).value, all)
    decreases |pattern.edges| - i
  {
    hide Joined, NeverStuckFrom, ExpandRows, ExtendedAll;
    all := found;
    NeverStuckAtEnd(view, pattern);
    if i < |pattern.edges| {
      if pattern.nodes[i].variable.None? {
        StuckHere(view, pattern, i, rows, found);
      } else {
        NeverStuckNext(view, pattern, i);
        var next := ExpandRows(view, rows, pattern.nodes[i].variable.value, pattern.edges[i], pattern.nodes[i + 1]);
        JoinedNext(view, pattern, i, rows, found);
        all := ExtendedAll(view, pattern, found, i);
        if next != [] {
          all := ExpandFromExact(view, pattern, i + 1, next, all);
        } else {
          JoinedNone(view, pattern, i + 1, all);
          all := [];
        }
      }
    }
  }

  /**
   * Iterative expansion is the join: it is refused exactly when it gets to an unnamed node, and otherwise the rows
   * are those of the answering walks.
   */
  lemma ChainIsJoin<P>(view: View<P>, pattern: Pattern<P>) returns (found: seq<Found>)
    requires IsChain(pattern)
    ensures var result := ExpandFrom(view, pattern, 0, StartRows(view, pattern.nodes[0]));
            && (result.Err? <==> exists i: nat :: Stuck(view, pattern, i))
            && (result.Ok? ==> Joined(view, pattern, |pattern.edges|, result.value, found))
  {
    JoinStarts(view, pattern);
    StartsDescribed(view, pattern);
    found := ExpandFromExact(view, pattern, 0, StartRows(view, pattern.nodes[0]),
      StartsFound(NodesUpTo(view, pattern.nodes[0], view.nodeCount)));
  }

  /**
   * What a chain is answered with: a refusal exactly when expansion gets to an unnamed node, otherwise the
   * rows of the join.
   */
  ghost predicate ChainAnswers<P>(view: View<P>, pattern: Pattern<P>, result: Result<seq<Row>, Refusal>)
    requires IsChain(pattern)
  {
    && (result.Err? <==> exists i: nat :: Stuck(view, pattern, i))
    && (result.Ok? ==> exists found :: Joined(view, pattern, |pattern.edges|, result.value, found))
  }

  // ----- Patterns of one edge, spelt out -----

  /** Some row binds these names to these ends. */
  ghost predicate HasRow<P>(rows: seq<Row>, from: NodePattern<P>, to: NodePattern<P>, s: NodeId, end: NodeId) {
    exists i :: 0 <= i < |rows| && RowEnds(rows[i], from, to, s, end)
  }

  ghost predicate RowEnds<P>(row: Row, from: NodePattern<P>, to: NodePattern<P>, s: NodeId, end: NodeId) {
    && (forall v :: v in row <==> from.variable == Some(v) || to.variable == Some(v))
    && (to.variable.Some? ==> row[to.variable.value] == NodeRef(end))
    && (from.variable.Some? && from.variable != to.variable ==> row[from.variable.value] == NodeRef(s))
  }

  /** Every walk over distinct nodes that the bounds ask for, from a start the scan finds, has its row. */
  lemma WalksHaveRows<P>(view: View<P>, from: NodePattern<P>, edge: EdgePattern<P>, to: NodePattern<P>, rows: seq<Row>)
    requires VariableAnswers(view, from, edge, to, rows)
    ensures forall s: NodeId, w ::
              (&& s in NodesUpTo(view, from, view.nodeCount) && SimpleWalk(view, edge, s, w)
               && End(view, s, w) in view.nodes && to.accepts(view.nodes[End(view, s, w)])
               && edge.minHops <= |w| && 0 <= edge.minHops
               && |w| <= (if edge.maxHops == -1 then 10 else edge.maxHops)) ==>
              HasRow(rows, from, to, s, End(view, s, w))
  {
    hide SimpleWalk, NodesUpTo, VariableAnswers;
    var found := AnswersExact(view, from, edge, to, rows);
    forall s: NodeId, w | s in NodesUpTo(view, from, view.nodeCount) && SimpleWalk(view, edge, s, w)
      && End(view, s, w) in view.nodes && to.accepts(view.nodes[End(view, s, w)])
      && edge.minHops <= |w| && 0 <= edge.minHops
      && |w| <= (if edge.maxHops == -1 then 10 else edge.maxHops)
      ensures HasRow(rows, from, to, s, End(view, s, w))
    {
      assert (s, w) in found;
      var i :| 0 <= i < |found| && found[i] == (s, w);
      assert RowEnds(rows[i], from, to, s, End(view, s, w));
    }
  }

  /** The row for taking e from s, which also binds the edge's name. */
  ghost predicate HasEdgeRow<P>(rows: seq<Row>, from: NodePattern<P>, edge: EdgePattern<P>, to: NodePattern<P>,
                                s: NodeId, e: EdgeId, end: NodeId) {
    exists i ::
      && 0 <= i < |rows|
      && (from.variable.Some? ==> from.variable.value in rows[i] && rows[i][from.variable.value] == NodeRef(s))
      && (edge.variable.Some? ==> edge.variable.value in rows[i] && rows[i][edge.variable.value] == EdgeRef(e))
      && (to.variable.Some? ==> to.variable.value in rows[i] && rows[i][to.variable.value] == NodeRef(end))
  }

  lemma EdgeHasRow<P>(view: View<P>, pattern: Pattern<P>, result: Result<seq<Row>, Refusal>, s: NodeId, e: EdgeId)
    requires IsChain(pattern) && |pattern.edges| == 1 && EdgeNamesApart(pattern) && ChainAnswers(view, pattern, result)
    requires pattern.nodes[0].variable.Some?
    requires s in NodesUpTo(view, pattern.nodes[0], view.nodeCount) && e in EdgesFrom(view, pattern.edges[0], s)
    requires e in view.edges && NodeMatches(view, pattern.nodes[1], view.edges[e].to)
    requires pattern.nodes[0].variable == pattern.nodes[1].variable ==> s == view.edges[e].to
    ensures result.Ok?
    ensures var from, edge, to := pattern.nodes[0].variable, pattern.edges[0].variable, pattern.nodes[1].variable;
            exists row :: && row in result.value && from.value in row && row[from.value] == NodeRef(s)
              && (edge.Some? ==> edge.value in row && row[edge.value] == EdgeRef(e))
              && (to.Some? ==> to.value in row && row[to.value] == NodeRef(view.edges[e].to))
    ensures HasEdgeRow(result.value, pattern.nodes[0], pattern.edges[0], pattern.nodes[1], s, e, view.edges[e].to)
  {
    hide NodesUpTo, EdgesFrom, EdgeNamesApart, RowOf;
    NamesApartExact(view, pattern, s, [e]);
    assert StepFits(view, pattern, s, [e], 0) && SameNode(view, pattern, s, [e], 0, 1);
    assert NodesAgree(view, pattern, s, [e]) && Answers(view, pattern, s, [e]);
    forall i: nat ensures !Stuck(view, pattern, i) {
    }
    var found :| Joined(view, pattern, 1, result.value, found);
    assert (s, [e]) in found;
    var i :| 0 <= i < |found| && found[i] == (s, [e]);
    assert Accounts(view, pattern, 1, result.value[i], found[i]);
    var row := RowOf(view, pattern, s, [e]);
    assert Describes(view, pattern, s, [e], row) && result.value[i] == row && row in result.value;
    assert pattern.nodes[0].variable.Some? && At(view, s, [e], 0) == s && At(view, s, [e], 1) == view.edges[e].to;
  }

  /** An unnamed node before the only edge is refused. */
  lemma UnnamedRefused<P>(view: View<P>, pattern: Pattern<P>, result: Result<seq<Row>, Refusal>)
    requires IsChain(pattern) && |pattern.edges| == 1 && ChainAnswers(view, pattern, result)
    requires pattern.nodes[0].variable.None?
    ensures result.Err?
  {
    assert Stuck(view, pattern, 0);
  }

  /** `match_pattern`. With more than one edge the hop bounds are not looked at. */
  method MatchPattern<P>(view: View<P>, pattern: Pattern<P>) returns (result: Result<seq<Row>, Refusal>)
    requires pattern.nodes == [] || IsChain(pattern)
    ensures pattern.nodes == [] ==> result == Ok([])
    ensures |pattern.nodes| == 2 && (pattern.edges[0].minHops != 1 || pattern.edges[0].maxHops != 1) ==>
              result.Ok? && VariableAnswers(view, pattern.nodes[0], pattern.edges[0], pattern.nodes[1], result.value)
    ensures pattern.nodes != []
            && (|pattern.nodes| == 2 ==> pattern.edges[0].minHops == 1 && pattern.edges[0].maxHops == 1) ==>
              result == ExpandFrom(view, pattern, 0, StartRows(view, pattern.nodes[0])) && ChainAnswers(view, pattern, result)
  {
    if pattern.nodes == [] {
      return Ok([]);
    }
    hide VariableAnswers, Stuck, Joined;
    ghost var found := ChainIsJoin(view, pattern);
    if |pattern.nodes| == 1 && pattern.edges == [] {
      var start := MatchNode(view, pattern.nodes[0]);
      return Ok(start);
    }
    if |pattern.edges| == 1 && (pattern.edges[0].minHops != 1 || pattern.edges[0].maxHops != 1) {
      var rows := MatchVariableLength(view, pattern.nodes[0], pattern.edges[0], pattern.nodes[1]);
      return Ok(rows);
    }
    result := MatchChain(view, pattern);
  }

  /**
   * A pattern of one edge. Unless both bounds are 1, every walk the bounds ask for has its row. If both are, an
   * unnamed first node is refused, and otherwise every matching edge to a matching end has its row.
   */
  method MatchOneEdge<P>(view: View<P>, from: NodePattern<P>, edge: EdgePattern<P>, to: NodePattern<P>)
    returns (result: Result<seq<Row>, Refusal>)
    ensures edge.minHops != 1 || edge.maxHops != 1 ==> result.Ok?
    ensures edge.minHops != 1 || edge.maxHops != 1 ==>
              forall s: NodeId, w ::
                (&& s in NodesUpTo(view, from, view.nodeCount) && SimpleWalk(view, edge, s, w)
                 && End(view, s, w) in view.nodes && to.accepts(view.nodes[End(view, s, w)])
                 && edge.minHops <= |w| && 0 <= edge.minHops
                 && |w| <= (if edge.maxHops == -1 then 10 else edge.maxHops)) ==>
                HasRow(result.value, from, to, s, End(view, s, w))
    ensures edge.minHops == edge.maxHops == 1 ==> (result.Err? <==> from.variable.None?)
    ensures edge.minHops == edge.maxHops == 1 && from.variable.Some?
            && (edge.variable.Some? ==> edge.variable != from.variable && edge.variable != to.variable) ==>
              forall s: NodeId, e ::
                (&& s in NodesUpTo(view, from, view.nodeCount) && e in EdgesFrom(view, edge, s)
                 && e in view.edges && view.edges[e].to in view.nodes && to.accepts(view.nodes[view.edges[e].to])
                 && (from.variable == to.variable ==> s == view.edges[e].to)) ==>
                HasEdgeRow(result.value, from, edge, to, s, e, view.edges[e].to)
  {
    hide VariableAnswers, ChainAnswers, SimpleWalk, NodesUpTo, EdgesFrom, HasRow, HasEdgeRow, ExpandFrom;
    var pattern := Pattern([from, to], [edge]);
    result := MatchPattern(view, pattern);
    if edge.minHops != 1 || edge.maxHops != 1 {
      WalksHaveRows(view, from, edge, to, result.value);
    } else if from.variable.None? {
      UnnamedRefused(view, pattern, result);
    } else {
      NamedNotRefused(view, pattern, result);
      if edge.variable.Some? ==> edge.variable != from.variable && edge.variable != to.variable {
        assert EdgeNamesApart(pattern);
        forall s: NodeId, e | s in NodesUpTo(view, from, view.nodeCount) && e in EdgesFrom(view, edge, s)
          && e in view.edges && view.edges[e].to in view.nodes && to.accepts(view.nodes[view.edges[e].to])
          && (from.variable == to.variable ==> s == view.edges[e].to)
          ensures HasEdgeRow(result.value, from, edge, to, s, e, view.edges[e].to)
        {
          EdgeHasRow(view, pattern, result, s, e);
        }
      }
    }
  }

  lemma NamedNotRefused<P>(view: View<P>, pattern: Pattern<P>, result: Result<seq<Row>, Refusal>)
    requires IsChain(pattern) && |pattern.edges| == 1 && ChainAnswers(view, pattern, result)
    requires pattern.nodes[0].variable.Some?
    ensures result.Ok?
  {
    forall i: nat ensures !Stuck(view, pattern, i) {
    }
  }
}
