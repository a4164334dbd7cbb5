// Variable-length patterns: a worklist of node paths (src/query/cypher/executor.cpp:246-313).
module VariableLength {
  import opened Wrappers
  import opened GraphView
  import opened Sequences

  datatype Binding = NodeRef(id: NodeId) | EdgeRef(id: EdgeId)

  type Row = map<string, Binding>

  const SIZE_RANGE: nat := 0x1_0000_0000_0000_0000

  /** The conversion of an int to size_t: a negative bound becomes a huge one. */
  function AsSize(n: Int32): nat {
    if n >= 0 then n else n + SIZE_RANGE
  }

  function MaxHops(n: Int32): Int32 {
    if n == -1 then 10 else n
  }

  function VariableRow<P>(from: NodePattern<P>, to: NodePattern<P>, start: NodeId, last: NodeId): Row {
    var row: Row := if from.variable.Some? then map[from.variable.value := NodeRef(start)] else map[];
    if to.variable.Some? then row[to.variable.value := NodeRef(last)] else row
  }

  // ----- Walks: edge sequences from a start node -----

  /** The nodes a walk visits, following each edge to its `to` end. */
  function Trail<P>(view: View<P>, s: NodeId, walk: seq<EdgeId>): seq<NodeId> {
    if walk == [] then [s]
    else
      var e := walk[|walk| - 1];
      Trail(view, s, walk[..|walk| - 1]) + [if e in view.edges then view.edges[e].to else 0]
  }

  function End<P>(view: View<P>, s: NodeId, walk: seq<EdgeId>): NodeId {
    if walk == [] then s
    else
      var e := walk[|walk| - 1];
      if e in view.edges then view.edges[e].to else 0
  }

  /** Every edge matches and leaves the node reached so far, and no node is visited twice. */
  ghost predicate SimpleWalk<P>(view: View<P>, pattern: EdgePattern<P>, s: NodeId, walk: seq<EdgeId>) {
    && NoDuplicates(Trail(view, s, walk))
    && forall i :: 0 <= i < |walk| && i < |Trail(view, s, walk)| ==>
         walk[i] in EdgesFrom(view, pattern, Trail(view, s, walk)[i])
  }

  lemma {:induction false} TrailShape<P>(view: View<P>, s: NodeId, walk: seq<EdgeId>)
    ensures |Trail(view, s, walk)| == |walk| + 1 && Trail(view, s, walk)[|walk|] == End(view, s, walk)
  {
    if walk != [] {
      TrailShape(view, s, walk[..|walk| - 1]);
    }
  }

  lemma LastStep<P>(view: View<P>, pattern: EdgePattern<P>, s: NodeId, walk: seq<EdgeId>)
    requires walk != []
    ensures var before := walk[..|walk| - 1];
            SimpleWalk(view, pattern, s, walk) <==>
              SimpleWalk(view, pattern, s, before)
              && walk[|walk| - 1] in EdgesFrom(view, pattern, End(view, s, before))
              && End(view, s, walk) !in Trail(view, s, before)
  {
    hide EdgesFrom;
    var n := |walk| - 1;
    var before := walk[..n];
    var trail, shorter := Trail(view, s, walk), Trail(view, s, before);
    TrailShape(view, s, before);
    assert trail == shorter + [End(view, s, walk)];
    if SimpleWalk(view, pattern, s, walk) {
      forall i | 0 <= i < n ensures before[i] in EdgesFrom(view, pattern, shorter[i]) {
        assert walk[i] in EdgesFrom(view, pattern, trail[i]);
      }
      assert walk[n] in EdgesFrom(view, pattern, trail[n]);
    }
    if SimpleWalk(view, pattern, s, before) && walk[n] in EdgesFrom(view, pattern, End(view, s, before)) {
      forall i | 0 <= i < |walk| ensures walk[i] in EdgesFrom(view, pattern, trail[i]) {
        if i < n { assert before[i] in EdgesFrom(view, pattern, shorter[i]); }
      }
      if trail[|walk|] !in shorter {
        assert NoDuplicates(trail);
      }
    }
  }

  /** `w` goes on from the simple walk `walk` by one matching edge to a node not yet visited. */
  ghost predicate Continues<P>(view: View<P>, pattern: EdgePattern<P>, s: NodeId, walk: seq<EdgeId>, w: seq<EdgeId>) {
    && |w| == |walk| + 1 && w[..|walk|] == walk
    && w[|walk|] in EdgesFrom(view, pattern, End(view, s, walk))
    && End(view, s, w) !in Trail(view, s, walk)
  }

  lemma ContinuesIsSimple<P>(view: View<P>, pattern: EdgePattern<P>, s: NodeId, walk: seq<EdgeId>, w: seq<EdgeId>)
    requires SimpleWalk(view, pattern, s, walk)
    ensures Continues(view, pattern, s, walk, w) <==>
            |w| == |walk| + 1 && w[..|walk|] == walk && SimpleWalk(view, pattern, s, w)
  {
    if |w| == |walk| + 1 {
      LastStep(view, pattern, s, w);
    }
  }

  /** The candidates differ, or are one that is gone or leads back to where it is a candidate. */
  ghost predicate StepsDiffer<P>(view: View<P>, u: NodeId, a: EdgeId, b: EdgeId) {
    a != b || (a in view.edges ==> view.edges[a].to == u)
  }

  ghost predicate StepsApart<P>(view: View<P>, u: NodeId, es: seq<EdgeId>) {
    forall i, j :: 0 <= i < j < |es| ==> StepsDiffer(view, u, es[i], es[j])
  }

  /** No edge by which a walk could go on is listed twice as a candidate. */
  ghost predicate DistinctSteps<P>(view: View<P>, pattern: EdgePattern<P>) {
    forall u :: StepsApart(view, u, Candidates(view, pattern, u))
  }

  lemma {:induction false} MatchingStepsApart<P>(view: View<P>, pattern: EdgePattern<P>, u: NodeId, es: seq<EdgeId>)
    requires StepsApart(view, u, es)
    ensures StepsApart(view, u, MatchingEdges(view, pattern, es))
  {
    if es != [] {
      var n := |es| - 1;
      var before := MatchingEdges(view, pattern, es[..n]);
      MatchingStepsApart(view, pattern, u, es[..n]);
      MatchingEdgesExact(view, pattern, es[..n]);
      forall i | 0 <= i < |before| ensures StepsDiffer(view, u, before[i], es[n]) {
        assert before[i] in before;
        var k :| 0 <= k < n && es[..n][k] == before[i];
        assert StepsDiffer(view, u, es[k], es[n]);
      }
    }
  }

  // ----- Termination: a simple walk visits no more nodes than there are -----

  ghost function Universe<P>(view: View<P>, s: NodeId): set<NodeId> {
    {s} + (set e | e in view.edges :: view.edges[e].to)
  }

  lemma {:induction false} TrailInUniverse<P>(view: View<P>, pattern: EdgePattern<P>, s: NodeId, w: seq<EdgeId>)
    requires SimpleWalk(view, pattern, s, w)
    ensures forall i :: 0 <= i < |Trail(view, s, w)| ==> Trail(view, s, w)[i] in Universe(view, s)
    decreases |w|
  {
    if w != [] {
      var before := w[..|w| - 1];
      LastStep(view, pattern, s, w);
      TrailInUniverse(view, pattern, s, before);
      MatchingEdgesExact(view, pattern, Candidates(view, pattern, End(view, s, before)));
      assert w[|w| - 1] in view.edges;
    }
  }

  lemma WalkIsBounded<P>(view: View<P>, pattern: EdgePattern<P>, s: NodeId, w: seq<EdgeId>)
    requires SimpleWalk(view, pattern, s, w)
    ensures |w| < |Universe(view, s)|
  {
    TrailInUniverse(view, pattern, s, w);
    TrailShape(view, s, w);
    var trail := Trail(view, s, w);
    assert Distinct(trail) by {
      forall i, j | 0 <= i < j < |trail| ensures trail[i] != trail[j] {
        assert Differ(trail[i], trail[j]);
      }
    }
    DistinctIsBounded(trail, Universe(view, s));
  }

  // ----- The worklist -----
  // `all` lists the walks in the order they are queued; the first `p` have been taken off the queue.

  ghost predicate Trails<P>(view: View<P>, s: NodeId, queue: seq<seq<NodeId>>, walks: seq<seq<EdgeId>>) {
    |queue| == |walks| && forall i :: 0 <= i < |queue| ==> queue[i] == Trail(view, s, walks[i])
  }

  ghost predicate RowsFor<P>(view: View<P>, from: NodePattern<P>, to: NodePattern<P>, s: NodeId,
                             rows: seq<Row>, walks: seq<seq<EdgeId>>) {
    |rows| == |walks| &&
    forall i :: 0 <= i < |rows| ==> rows[i] == VariableRow(from, to, s, End(view, s, walks[i]))
  }

  ghost predicate ByLength(walks: seq<seq<EdgeId>>) {
    forall i, j :: 0 <= i < j < |walks| ==> |walks[i]| <= |walks[j]|
  }

  /** Only simple walks within the bound are queued, and all continuations of those taken are. */
  ghost predicate Explored<P>(view: View<P>, edge: EdgePattern<P>, s: NodeId, hi: nat, all: seq<seq<EdgeId>>, p: nat) {
    && p <= |all| && [] in all
    && (forall w :: w in all ==> |w| <= hi && SimpleWalk(view, edge, s, w))
    && (forall i, w :: 0 <= i < p && |w| <= hi && Continues(view, edge, s, all[i], w) ==> w in all)
  }

  /** The queue holds walks of length k up to index q, and of length k + 1 after it. */
  ghost predicate Levels(all: seq<seq<EdgeId>>, p: nat, q: nat, k: nat) {
    && p <= q <= |all| && ByLength(all)
    && (forall i :: p <= i < q ==> |all[i]| == k)
    && (forall i :: q <= i < |all| ==> |all[i]| == k + 1)
  }

  /** No walk is queued twice: each but the empty one continues a walk that has been taken. */
  ghost predicate Once(all: seq<seq<EdgeId>>, p: nat) {
    && p <= |all| && NoDuplicates(all)
    && (forall w :: w in all && w != [] ==> w[..|w| - 1] in all[..p])
  }

  ghost predicate NewWalks<P>(view: View<P>, edge: EdgePattern<P>, s: NodeId, hi: nat, walk: seq<EdgeId>,
                      more: seq<seq<EdgeId>>) {
    forall w :: w in more <==> |w| <= hi && Continues(view, edge, s, walk, w)
  }

  lemma ExploreNext<P>(view: View<P>, edge: EdgePattern<P>, s: NodeId, hi: nat, all: seq<seq<EdgeId>>, p: nat,
                      more: seq<seq<EdgeId>>)
    requires Explored(view, edge, s, hi, all, p) && p < |all|
    requires NewWalks(view, edge, s, hi, all[p], more)
    ensures Explored(view, edge, s, hi, all + more, p + 1)
  {
    assert all[p] in all;
    forall w | w in more ensures |w| <= hi && SimpleWalk(view, edge, s, w) {
      ContinuesIsSimple(view, edge, s, all[p], w);
    }
    forall i, w | 0 <= i < p + 1 && |w| <= hi && Continues(view, edge, s, (all + more)[i], w) ensures w in all + more {
      assert (all + more)[i] == all[i];
    }
  }

  lemma LevelNext<P>(view: View<P>, edge: EdgePattern<P>, s: NodeId, hi: nat, all: seq<seq<EdgeId>>, p: nat, q: nat,
                     k: nat,
                     more: seq<seq<EdgeId>>)
    requires Levels(all, p, q, k) && p < q && NewWalks(view, edge, s, hi, all[p], more)
    ensures Levels(all + more, p + 1, q, k)
  {
    forall i | 0 <= i < |more| ensures |more[i]| == k + 1 {
      assert more[i] in more;
    }
  }

  lemma NotTakenYet(all: seq<seq<EdgeId>>, p: nat)
    requires NoDuplicates(all) && p < |all|
    ensures all[p] !in all[..p]
  {
    forall j | 0 <= j < p ensures Differ(all[..p][j], all[p]) {
      assert Differ(all[j], all[p]);
    }
  }

  lemma OnceNext<P>(view: View<P>, edge: EdgePattern<P>, s: NodeId, hi: nat, all: seq<seq<EdgeId>>, p: nat,
                    more: seq<seq<EdgeId>>)
    requires Once(all, p) && p < |all| && NoDuplicates(more) && NewWalks(view, edge, s, hi, all[p], more)
    ensures Once(all + more, p + 1)
  {
    assert (all + more)[..p + 1] == all[..p] + [all[p]];
    NotTakenYet(all, p);
    forall w | w in more ensures w !in all && w != [] && w[..|w| - 1] == all[p] {
      assert |w| == |all[p]| + 1 && w[..|all[p]|] == all[p];
    }
    forall i, j | 0 <= i < |all| && 0 <= j < |more| ensures Differ(all[i], more[j]) {
      assert more[j] in more && all[i] in all;
    }
  }

  /** When everything queued has been taken, every simple walk within the bound was. */
  lemma {:induction false} ExploredIsComplete<P>(view: View<P>, edge: EdgePattern<P>, s: NodeId, hi: nat,
                                                 all: seq<seq<EdgeId>>, w: seq<EdgeId>)
    requires Explored(view, edge, s, hi, all, |all|) && |w| <= hi && SimpleWalk(view, edge, s, w)
    ensures w in all
    decreases |w|
  {
    if w != [] {
      var before := w[..|w| - 1];
      LastStep(view, edge, s, w);
      ExploredIsComplete(view, edge, s, hi, all, before);
      var i :| 0 <= i < |all| && all[i] == before;
      assert Continues(view, edge, s, all[i], w);
    }
  }

  /** `more` holds the continuations of `walk` by the candidates `es`. */
  ghost predicate ContinuedBy<P>(view: View<P>, edge: EdgePattern<P>, s: NodeId, walk: seq<EdgeId>, es: seq<EdgeId>,
                      more: seq<seq<EdgeId>>) {
    forall w :: w in more <==> |w| == |walk| + 1 && Continues(view, edge, s, walk, w) && w[|walk|] in es
  }

  lemma ContinueByOne<P>(view: View<P>, edge: EdgePattern<P>, s: NodeId, walk: seq<EdgeId>, es: seq<EdgeId>,
                         more: seq<seq<EdgeId>>, e: EdgeId)
    requires ContinuedBy(view, edge, s, walk, es, more)
    requires e in EdgesFrom(view, edge, End(view, s, walk))
    ensures ContinuedBy(view, edge, s, walk, es + [e],
              if End(view, s, walk + [e]) in Trail(view, s, walk) then more else more + [walk + [e]])
  {
    var longer := walk + [e];
    var more' := if End(view, s, longer) in Trail(view, s, walk) then more else more + [longer];
    forall w ensures w in more' <==> |w| == |walk| + 1 && Continues(view, edge, s, walk, w) && w[|walk|] in es + [e] {
      OnlyOneByEdge(walk, e, w);
    }
  }

  ghost predicate ByEdge(walk: seq<EdgeId>, e: EdgeId, w: seq<EdgeId>) {
    |w| == |walk| + 1 && w[..|walk|] == walk && w[|walk|] == e
  }

  lemma OnlyOneByEdge(walk: seq<EdgeId>, e: EdgeId, w: seq<EdgeId>)
    ensures ByEdge(walk, e, w) <==> w == walk + [e]
  {
    assert (walk + [e])[..|walk|] == walk;
  }

  lemma TrailLast<P>(view: View<P>, s: NodeId, walk: seq<EdgeId>, e: EdgeId)
    requires e in view.edges
    ensures End(view, s, walk + [e]) == view.edges[e].to
    ensures Trail(view, s, walk + [e]) == Trail(view, s, walk) + [view.edges[e].to]
  {
    assert (walk + [e])[..|walk|] == walk;
  }

  lemma QueueLast<P>(view: View<P>, s: NodeId, queue: seq<seq<NodeId>>, queued: seq<seq<EdgeId>>,
                     more: seq<seq<EdgeId>>,
                     w: seq<EdgeId>)
    requires Trails(view, s, queue, queued + more)
    ensures Trails(view, s, queue + [Trail(view, s, w)], queued + (more + [w]))
  {
    assert queued + (more + [w]) == queued + more + [w];
  }

  lemma AddDistinct<P>(view: View<P>, u: NodeId, es: seq<EdgeId>, i: nat, walk: seq<EdgeId>, more: seq<seq<EdgeId>>)
    requires StepsApart(view, u, es) && i < |es| && NoDuplicates(more)
    requires es[i] in view.edges && view.edges[es[i]].to != u
    requires forall w :: w in more ==> |w| == |walk| + 1 && w[|walk|] in es[..i]
    ensures NoDuplicates(more + [walk + [es[i]]])
  {
    forall j | 0 <= j < |more| ensures Differ(more[j], walk + [es[i]]) {
      assert more[j] in more;
      var k :| 0 <= k < i && es[..i][k] == more[j][|walk|];
      assert StepsDiffer(view, u, es[k], es[i]);
    }
  }

  /** The state of the loop over the edges leaving the end of `walk`, with the edges `es` done. */
  ghost predicate Pushed<P>(view: View<P>, edge: EdgePattern<P>, s: NodeId, walk: seq<EdgeId>, es: seq<EdgeId>,
                            queue: seq<seq<NodeId>>, queued: seq<seq<EdgeId>>, more: seq<seq<EdgeId>>) {
    && Trails(view, s, queue, queued + more)
    && ContinuedBy(view, edge, s, walk, es, more)
    && (DistinctSteps(view, edge) ==> NoDuplicates(more))
  }

  lemma TakeNext<T>(a: seq<T>, i: nat)
    requires i < |a|
    ensures a[..i + 1] == a[..i] + [a[i]]
  {
  }

  lemma PushNext<P>(view: View<P>, edge: EdgePattern<P>, s: NodeId, walk: seq<EdgeId>, i: nat,
                    queue: seq<seq<NodeId>>, queued: seq<seq<EdgeId>>, more: seq<seq<EdgeId>>)
    requires var es := EdgesFrom(view, edge, End(view, s, walk));
             i < |es| && Pushed(view, edge, s, walk, es[..i], queue, queued, more)
    ensures var es := EdgesFrom(view, edge, End(view, s, walk));
            var longer := walk + [es[i]];
            es[i] in view.edges && End(view, s, longer) == view.edges[es[i]].to &&
            if End(view, s, longer) in Trail(view, s, walk)
            then Pushed(view, edge, s, walk, es[..i + 1], queue, queued, more)
            else Pushed(view, edge, s, walk, es[..i + 1], queue + [Trail(view, s, walk) + [End(view, s, longer)]],
                        queued, more + [longer])
  {
    var es := EdgesFrom(view, edge, End(view, s, walk));
    MatchingEdgesExact(view, edge, Candidates(view, edge, End(view, s, walk)));
    assert es[i] in es;
    TakeNext(es, i);
    ContinueByOne(view, edge, s, walk, es[..i], more, es[i]);
    TrailLast(view, s, walk, es[i]);
    if End(view, s, walk + [es[i]]) !in Trail(view, s, walk) {
      QueueLast(view, s, queue, queued, more, walk + [es[i]]);
      if DistinctSteps(view, edge) {
        TrailShape(view, s, walk);
        MatchingStepsApart(view, edge, End(view, s, walk), Candidates(view, edge, End(view, s, walk)));
        AddDistinct(view, End(view, s, walk), es, i, walk, more);
      }
    }
  }

  /** The loop over the edges leaving the end of `path`, the trail of `walk`. */
  method PushNeighbors<P>(view: View<P>, edge: EdgePattern<P>, s: NodeId, path: seq<NodeId>,
                          queue0: seq<seq<NodeId>>, ghost walk: seq<EdgeId>, ghost queued: seq<seq<EdgeId>>)
    returns (queue: seq<seq<NodeId>>, ghost more: seq<seq<EdgeId>>)
    requires path == Trail(view, s, walk) && |path| == |walk| + 1 && path[|walk|] == End(view, s, walk)
    requires Trails(view, s, queue0, queued)
    ensures Trails(view, s, queue, queued + more)
    ensures forall w :: w in more <==> Continues(view, edge, s, walk, w)
    ensures DistinctSteps(view, edge) ==> NoDuplicates(more)
  {
    queue, more := queue0, [];
    var es := FindEdges(view, edge, path[|path| - 1]);
    assert queued + more == queued;
    for i := 0 to |es|
      invariant Pushed(view, edge, s, walk, es[..i], queue, queued, more)
    {
      PushNext(view, edge, s, walk, i, queue, queued, more);
      if es[i] in view.edges {
        var neighbor := view.edges[es[i]].to;
        if neighbor !in path {
          queue := queue + [path + [neighbor]];
          more := more + [walk + [es[i]]];
        }
      }
    }
    assert es[..|es|] == es;
  }

  predicate Wanted<P>(view: View<P>, to: NodePattern<P>, s: NodeId, lo: nat, w: seq<EdgeId>) {
    |w| >= lo && NodeMatches(view, to, End(view, s, w))
  }

  /** The walks kept so far are the wanted ones among those taken. */
  ghost predicate Kept<P>(view: View<P>, to: NodePattern<P>, s: NodeId, lo: nat, all: seq<seq<EdgeId>>, p: nat,
                      kept: seq<seq<EdgeId>>) {
    p <= |all| && ByLength(kept) && forall w :: w in kept <==> w in all[..p] && Wanted(view, to, s, lo, w)
  }

  lemma KeepNext<P>(view: View<P>, to: NodePattern<P>, s: NodeId, lo: nat, all: seq<seq<EdgeId>>, p: nat,
                    kept: seq<seq<EdgeId>>, more: seq<seq<EdgeId>>)
    requires Kept(view, to, s, lo, all, p, kept) && p < |all| && ByLength(all)
    ensures Kept(view, to, s, lo, all + more, p + 1, kept + if Wanted(view, to, s, lo, all[p]) then [all[p]] else [])
  {
    assert (all + more)[..p + 1] == all[..p] + [all[p]];
    forall i | 0 <= i < |kept| ensures |kept[i]| <= |all[p]| {
      assert kept[i] in kept;
      var j :| 0 <= j < p && all[..p][j] == kept[i];
      assert |all[j]| <= |all[p]|;
    }
  }

  lemma KeepOnce(all: seq<seq<EdgeId>>, p: nat, kept: seq<seq<EdgeId>>)
    requires NoDuplicates(all) && p < |all| && NoDuplicates(kept)
    requires forall w :: w in kept ==> w in all[..p]
    ensures NoDuplicates(kept + [all[p]])
  {
    forall i | 0 <= i < |kept| ensures Differ(kept[i], all[p]) {
      assert kept[i] in kept;
      var j :| 0 <= j < p && all[..p][j] == kept[i];
      assert Differ(all[j], all[p]);
    }
  }

  lemma RowsForLast<P>(view: View<P>, from: NodePattern<P>, to: NodePattern<P>, s: NodeId,
                       rows: seq<Row>, walks: seq<seq<EdgeId>>, w: seq<EdgeId>)
    requires RowsFor(view, from, to, s, rows, walks)
    ensures RowsFor(view, from, to, s, rows + [VariableRow(from, to, s, End(view, s, w))], walks + [w])
  {
  }

  /** The loop body for the path at the head of the queue, the trail of `walk`. */
  method TakePath<P>(view: View<P>, from: NodePattern<P>, edge: EdgePattern<P>, to: NodePattern<P>,
                     s: NodeId, lo: nat, hi: nat, path: seq<NodeId>, queue0: seq<seq<NodeId>>, rows0: seq<Row>,
                     ghost walk: seq<EdgeId>, ghost queued: seq<seq<EdgeId>>, ghost kept: seq<seq<EdgeId>>)
    returns (queue: seq<seq<NodeId>>, rows: seq<Row>, ghost more: seq<seq<EdgeId>>)
    requires path == Trail(view, s, walk) && |walk| <= hi
    requires Trails(view, s, queue0, queued) && RowsFor(view, from, to, s, rows0, kept)
    ensures Trails(view, s, queue, queued + more) && NewWalks(view, edge, s, hi, walk, more)
    ensures RowsFor(view, from, to, s, rows, kept + if Wanted(view, to, s, lo, walk) then [walk] else [])
    ensures DistinctSteps(view, edge) ==> NoDuplicates(more)
  {
    queue, rows, more := queue0, rows0, [];
    TrailShape(view, s, walk);
    RowsForLast(view, from, to, s, rows, kept, walk);
    assert kept + [] == kept && queued + [] == queued;
    if |path| - 1 <= hi {
      var last := path[|path| - 1];
      if |path| - 1 >= lo && last in view.nodes && to.accepts(view.nodes[last]) {
        rows := rows + [VariableRow(from, to, s, last)];
      }
      if |path| - 1 < hi {
        queue, more := PushNeighbors(view, edge, s, path, queue, walk, queued);
      }
    }
  }

  /** A walk the pattern asks for, apart from where it starts. */
  ghost predicate Requested<P>(view: View<P>, edge: EdgePattern<P>, to: NodePattern<P>, s: NodeId, w: seq<EdgeId>) {
    && SimpleWalk(view, edge, s, w)
    && AsSize(edge.minHops) <= |w| <= AsSize(MaxHops(edge.maxHops))
    && NodeMatches(view, to, End(view, s, w))
  }

  ghost predicate Working<P>(view: View<P>, edge: EdgePattern<P>, to: NodePattern<P>, s: NodeId, lo: nat, hi: nat,
                             all: seq<seq<EdgeId>>, p: nat, q: nat, k: nat, kept: seq<seq<EdgeId>>) {
    && Explored(view, edge, s, hi, all, p) && Levels(all, p, q, k) && Kept(view, to, s, lo, all, p, kept)
    && (DistinctSteps(view, edge) ==> Once(all, p) && NoDuplicates(kept))
    && k <= |Universe(view, s)|
  }

  lemma NextPath<P>(view: View<P>, edge: EdgePattern<P>, to: NodePattern<P>, s: NodeId, lo: nat, hi: nat,
                    all: seq<seq<EdgeId>>, p: nat, q: nat, k: nat, kept: seq<seq<EdgeId>>, more: seq<seq<EdgeId>>)
    requires Working(view, edge, to, s, lo, hi, all, p, q, k, kept) && p < q
    requires NewWalks(view, edge, s, hi, all[p], more)
    requires DistinctSteps(view, edge) ==> NoDuplicates(more)
    ensures Working(view, edge, to, s, lo, hi, all + more, p + 1, q, k,
                    kept + if Wanted(view, to, s, lo, all[p]) then [all[p]] else [])
  {
    ExploreNext(view, edge, s, hi, all, p, more);
    LevelNext(view, edge, s, hi, all, p, q, k, more);
    KeepNext(view, to, s, lo, all, p, kept, more);
    if DistinctSteps(view, edge) {
      OnceNext(view, edge, s, hi, all, p, more);
      KeepOnce(all, p, kept);
      assert kept + [] == kept;
    }
  }

  lemma NextLevel<P>(view: View<P>, edge: EdgePattern<P>, to: NodePattern<P>, s: NodeId, lo: nat, hi: nat,
                     all: seq<seq<EdgeId>>, p: nat, k: nat, kept: seq<seq<EdgeId>>)
    requires Working(view, edge, to, s, lo, hi, all, p, p, k, kept) && p < |all|
    ensures Working(view, edge, to, s, lo, hi, all, p, |all|, k + 1, kept)
  {
    assert all[p] in all;
    WalkIsBounded(view, edge, s, all[p]);
  }

  lemma WorkDone<P>(view: View<P>, edge: EdgePattern<P>, to: NodePattern<P>, s: NodeId, lo: nat, hi: nat,
                    all: seq<seq<EdgeId>>, q: nat, k: nat, kept: seq<seq<EdgeId>>, w: seq<EdgeId>)
    requires Working(view, edge, to, s, lo, hi, all, |all|, q, k, kept)
    ensures w in kept <==>
            SimpleWalk(view, edge, s, w) && lo <= |w| <= hi && NodeMatches(view, to, End(view, s, w))
  {
    assert all[..|all|] == all;
    if SimpleWalk(view, edge, s, w) && |w| <= hi {
      ExploredIsComplete(view, edge, s, hi, all, w);
    }
  }

  lemma QueueTail<P>(view: View<P>, s: NodeId, queue: seq<seq<NodeId>>, all: seq<seq<EdgeId>>, p: nat)
    requires p < |all| && Trails(view, s, queue, all[p..])
    ensures queue[0] == Trail(view, s, all[p]) && Trails(view, s, queue[1..], all[p + 1..])
  {
    assert all[p..][0] == all[p] && all[p..][1..] == all[p + 1..];
  }

  lemma DropOfConcat<T>(a: seq<T>, b: seq<T>, k: nat)
    requires k <= |a|
    ensures (a + b)[k..] == a[k..] + b
  {
  }

  /** One round of the worklist. */
  method TakeHead<P>(view: View<P>, from: NodePattern<P>, edge: EdgePattern<P>, to: NodePattern<P>,
                     s: NodeId, lo: nat, hi: nat, queue0: seq<seq<NodeId>>, rows0: seq<Row>,
                     ghost all: seq<seq<EdgeId>>, ghost p: nat, ghost q: nat, ghost k: nat, ghost kept: seq<seq<EdgeId>>)
    returns (queue: seq<seq<NodeId>>, rows: seq<Row>, ghost all': seq<seq<EdgeId>>, ghost kept': seq<seq<EdgeId>>)
    requires Working(view, edge, to, s, lo, hi, all, p, q, k, kept) && p < q
    requires Trails(view, s, queue0, all[p..]) && RowsFor(view, from, to, s, rows0, kept)
    ensures Working(view, edge, to, s, lo, hi, all', p + 1, q, k, kept')
    ensures Trails(view, s, queue, all'[p + 1..]) && RowsFor(view, from, to, s, rows, kept')
  {
    ghost var walk, more := all[p], [];
    assert walk in all;
    QueueTail(view, s, queue0, all, p);
    queue, rows, more := TakePath(view, from, edge, to, s, lo, hi, queue0[0], queue0[1..], rows0, walk, all[p + 1..], kept);
    NextPath(view, edge, to, s, lo, hi, all, p, q, k, kept, more);
    DropOfConcat(all, more, p + 1);
    all', kept' := all + more, kept + if Wanted(view, to, s, lo, walk) then [walk] else [];
  }

  lemma WorkStarts<P>(view: View<P>, edge: EdgePattern<P>, to: NodePattern<P>, s: NodeId, lo: nat, hi: nat)
    ensures Working(view, edge, to, s, lo, hi, [[]], 0, 1, 0, [])
  {
  }

  /** The rows for one start node, one for each walk in `kept`. */
  method MatchFrom<P>(view: View<P>, from: NodePattern<P>, edge: EdgePattern<P>, to: NodePattern<P>, s: NodeId)
    returns (rows: seq<Row>, ghost kept: seq<seq<EdgeId>>)
    ensures RowsFor(view, from, to, s, rows, kept)
    ensures forall w :: w in kept <==> Requested(view, edge, to, s, w)
    ensures ByLength(kept)
    ensures DistinctSteps(view, edge) ==> NoDuplicates(kept)
  {
    hide DistinctSteps, SimpleWalk, NodesUpTo, Explored, Once, NoDuplicates, ByLength;
    rows, kept := [], [];
    var lo, hi := AsSize(edge.minHops), AsSize(MaxHops(edge.maxHops));
    var queue: seq<seq<NodeId>> := [[s]];
    ghost var all: seq<seq<EdgeId>>, p: nat, q: nat, k: nat := [[]], 0, 1, 0;
    ghost var bound := |Universe(view, s)|;
    WorkStarts(view, edge, to, s, lo, hi);
    while queue != []
      invariant Working(view, edge, to, s, lo, hi, all, p, q, k, kept)
      invariant Trails(view, s, queue, all[p..]) && RowsFor(view, from, to, s, rows, kept)
      decreases bound - k, q - p
    {
      if p == q {
        NextLevel(view, edge, to, s, lo, hi, all, p, k, kept);
        q, k := |all|, k + 1;
      }
      queue, rows, all, kept := TakeHead(view, from, edge, to, s, lo, hi, queue, rows, all, p, q, k, kept);
      p := p + 1;
    }
    forall w ensures w in kept <==> Requested(view, edge, to, s, w) {
      WorkDone(view, edge, to, s, lo, hi, all, q, k, kept, w);
    }
  }

  // ----- All start nodes -----

  /** A row's origin: its start node and its walk. */
  type Found = (NodeId, seq<EdgeId>)

  ghost function Tagged(s: NodeId, walks: seq<seq<EdgeId>>): seq<Found> {
    seq(|walks|, i requires 0 <= i < |walks| => (s, walks[i]))
  }

  ghost predicate RowsOf<P>(view: View<P>, from: NodePattern<P>, to: NodePattern<P>, rows: seq<Row>,
                      found: seq<Found>) {
    |rows| == |found| &&
    forall i :: 0 <= i < |rows| ==> rows[i] == VariableRow(from, to, found[i].0, End(view, found[i].0, found[i].1))
  }

  ghost predicate FoundOrder(found: seq<Found>) {
    forall i, j :: 0 <= i < j < |found| ==>
      found[i].0 < found[j].0 || (found[i].0 == found[j].0 && |found[i].1| <= |found[j].1|)
  }

  ghost predicate FoundOnce(found: seq<Found>) {
    forall i, j :: 0 <= i < j < |found| ==> found[i].0 != found[j].0 || found[i].1 != found[j].1
  }

  lemma TaggedExact(s: NodeId, walks: seq<seq<EdgeId>>, s': NodeId, w: seq<EdgeId>)
    ensures (s', w) in Tagged(s, walks) <==> s' == s && w in walks
  {
    if s' == s && w in walks {
      var i :| 0 <= i < |walks| && walks[i] == w;
      assert Tagged(s, walks)[i] == (s', w);
    }
  }

  lemma AddRows<P>(view: View<P>, from: NodePattern<P>, to: NodePattern<P>, rows: seq<Row>, found: seq<Found>,
                   s: NodeId, more: seq<Row>, walks: seq<seq<EdgeId>>)
    requires RowsOf(view, from, to, rows, found) && RowsFor(view, from, to, s, more, walks)
    ensures RowsOf(view, from, to, rows + more, found + Tagged(s, walks))
  {
  }

  lemma AddStart(found: seq<Found>, s: NodeId, walks: seq<seq<EdgeId>>)
    requires FoundOrder(found) && ByLength(walks)
    requires forall j :: 0 <= j < |found| ==> found[j].0 < s
    ensures FoundOrder(found + Tagged(s, walks))
  {
  }

  lemma AddOnce(found: seq<Found>, s: NodeId, walks: seq<seq<EdgeId>>)
    requires FoundOnce(found) && NoDuplicates(walks)
    requires forall j :: 0 <= j < |found| ==> found[j].0 < s
    ensures FoundOnce(found + Tagged(s, walks))
  {
  }

  ghost predicate FoundAll<P>(view: View<P>, edge: EdgePattern<P>, to: NodePattern<P>, starts: seq<NodeId>,
                      found: seq<Found>) {
    forall s: NodeId, w :: (s, w) in found <==> s in starts && Requested(view, edge, to, s, w)
  }

  lemma AddFound<P>(view: View<P>, edge: EdgePattern<P>, to: NodePattern<P>, starts: seq<NodeId>, found: seq<Found>,
                    s: NodeId, walks: seq<seq<EdgeId>>)
    requires FoundAll(view, edge, to, starts, found) && s !in starts
    requires forall w :: w in walks <==> Requested(view, edge, to, s, w)
    ensures FoundAll(view, edge, to, starts + [s], found + Tagged(s, walks))
  {
    forall s': NodeId, w ensures (s', w) in found + Tagged(s, walks) <==>
                        s' in starts + [s] && Requested(view, edge, to, s', w)
    {
      TaggedExact(s, walks, s', w);
    }
  }

  /** What the outer loop has produced for the start nodes `starts`. */
  ghost predicate Matched<P>(view: View<P>, from: NodePattern<P>, edge: EdgePattern<P>, to: NodePattern<P>,
                             starts: seq<NodeId>, rows: seq<Row>, found: seq<Found>) {
    && RowsOf(view, from, to, rows, found)
    && FoundAll(view, edge, to, starts, found)
    && FoundOrder(found)
    && (DistinctSteps(view, edge) ==> FoundOnce(found))
  }

  lemma AddMatches<P>(view: View<P>, from: NodePattern<P>, edge: EdgePattern<P>, to: NodePattern<P>,
                      starts: seq<NodeId>, rows: seq<Row>, found: seq<Found>,
                      s: NodeId, more: seq<Row>, walks: seq<seq<EdgeId>>)
    requires Matched(view, from, edge, to, starts, rows, found)
    requires forall i :: 0 <= i < |starts| ==> starts[i] < s
    requires RowsFor(view, from, to, s, more, walks) && ByLength(walks)
    requires forall w :: w in walks <==> Requested(view, edge, to, s, w)
    requires DistinctSteps(view, edge) ==> NoDuplicates(walks)
    ensures Matched(view, from, edge, to, starts + [s], rows + more, found + Tagged(s, walks))
  {
    forall j | 0 <= j < |found| ensures found[j].0 < s {
      assert (found[j].0, found[j].1) in found;
    }
    AddRows(view, from, to, rows, found, s, more, walks);
    AddStart(found, s, walks);
    AddFound(view, edge, to, starts, found, s, walks);
    if DistinctSteps(view, edge) {
      AddOnce(found, s, walks);
    }
  }

  /**
   * One row for every requested walk from every matching start node (exactly one when no edge that leads on is
   * listed twice), by start node and then by length.
   */
  ghost predicate VariableAnswers<P>(view: View<P>, from: NodePattern<P>, edge: EdgePattern<P>, to: NodePattern<P>,
                      rows: seq<Row>) {
    exists found :: Matched(view, from, edge, to, NodesUpTo(view, from, view.nodeCount), rows, found)
  }

  /** `match_variable_length_path`. */
  method MatchVariableLength<P>(view: View<P>, from: NodePattern<P>, edge: EdgePattern<P>, to: NodePattern<P>)
    returns (rows: seq<Row>)
    ensures VariableAnswers(view, from, edge, to, rows)
  {
    rows := [];
    ghost var found: seq<Found> := [];
    var starts := FindNodes(view, from);
    NodesUpToExact(view, from, view.nodeCount);
    for i := 0 to |starts|
      invariant Matched(view, from, edge, to, starts[..i], rows, found)
    {
      var more, walks := MatchFrom(view, from, edge, to, starts[i]);
      AddMatches(view, from, edge, to, starts[..i], rows, found, starts[i], more, walks);
      assert starts[..i + 1] == starts[..i] + [starts[i]];
      rows, found := rows + more, found + Tagged(starts[i], walks);
    }
    assert starts[..|starts|] == starts;
  }

  // ----- What the rows hold, spelt out -----

  /** Exactly the two names are bound: the first to the start, the last to the end, which wins if they are the same. */
  lemma VariableRowExact<P>(from: NodePattern<P>, to: NodePattern<P>, start: NodeId, last: NodeId)
    ensures forall v :: v in VariableRow(from, to, start, last) <==> from.variable == Some(v) || to.variable == Some(v)
    ensures to.variable.Some? ==> VariableRow(from, to, start, last)[to.variable.value] == NodeRef(last)
    ensures from.variable.Some? && from.variable != to.variable ==>
              VariableRow(from, to, start, last)[from.variable.value] == NodeRef(start)
  {
  }

  /** The bounds as they are meant: -1 is ten hops at most, any other negative number is no bound that is ever met. */
  lemma BoundsExact(minHops: Int32, maxHops: Int32)
    ensures minHops >= 0 ==> AsSize(minHops) == minHops
    ensures minHops < 0 ==> AsSize(minHops) == 0x1_0000_0000_0000_0000 + minHops
    ensures AsSize(MaxHops(-1)) == 10
    ensures maxHops >= 0 ==> AsSize(MaxHops(maxHops)) == maxHops
    ensures maxHops < -1 ==> AsSize(MaxHops(maxHops)) == 0x1_0000_0000_0000_0000 + maxHops
  {
  }

  /**
   * Each row belongs to one walk and names its two ends. The walks are those over distinct nodes from a start that
   * the scan finds to a matching end, with a number of edges within the bounds.
   */
  lemma AnswersExact<P>(view: View<P>, from: NodePattern<P>, edge: EdgePattern<P>, to: NodePattern<P>, rows: seq<Row>)
    returns (found: seq<Found>)
    requires VariableAnswers(view, from, edge, to, rows)
    ensures |rows| == |found|
    ensures forall i :: 0 <= i < |rows| ==>
              && (forall v :: v in rows[i] <==> from.variable == Some(v) || to.variable == Some(v))
              && (to.variable.Some? ==>
                    rows[i][to.variable.value] == NodeRef(End(view, found[i].0, found[i].1)))
              && (from.variable.Some? && from.variable != to.variable ==>
                    rows[i][from.variable.value] == NodeRef(found[i].0))
    ensures forall s: NodeId, w :: (s, w) in found <==>
              && s in NodesUpTo(view, from, view.nodeCount) && SimpleWalk(view, edge, s, w)
              && End(view, s, w) in view.nodes && to.accepts(view.nodes[End(view, s, w)])
              && (if edge.minHops >= 0 then edge.minHops <= |w| else 0x1_0000_0000_0000_0000 + edge.minHops <= |w|)
              && (if edge.maxHops == -1 then |w| <= 10
                  else if edge.maxHops >= 0 then |w| <= edge.maxHops
                  else |w| <= 0x1_0000_0000_0000_0000 + edge.maxHops)
    ensures forall i, j :: 0 <= i < j < |found| ==>
              found[i].0 < found[j].0 || (found[i].0 == found[j].0 && |found[i].1| <= |found[j].1|)
  {
    found :| Matched(view, from, edge, to, NodesUpTo(view, from, view.nodeCount), rows, found);
    hide SimpleWalk, VariableRow, NodesUpTo, AsSize, MaxHops, DistinctSteps;
    BoundsExact(edge.minHops, edge.maxHops);
    forall i | 0 <= i < |rows|
      ensures forall v :: v in rows[i] <==> from.variable == Some(v) || to.variable == Some(v)
      ensures to.variable.Some? ==> rows[i][to.variable.value] == NodeRef(End(view, found[i].0, found[i].1))
      ensures from.variable.Some? && from.variable != to.variable ==> rows[i][from.variable.value] == NodeRef(found[i].0)
    {
      VariableRowExact(from, to, found[i].0, End(view, found[i].0, found[i].1));
    }
  }
}
