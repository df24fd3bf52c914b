/** The bookkeeping of the flow optimiser: live paths, the flow they put on each edge, the
    paths in use and the number of flows for each destination. */
module CarouselState {
  import opened Overlay
  import opened ResidualSearch

  datatype PathWithInfo = PathWithInfo(path: seq<Node>, pathStr: string, dest: Node, latency: real)

  // ---------- Flow on edges ----------

  /** One of the first n hops of the path goes from u to v. */
  ghost predicate HopBefore(path: seq<Node>, n: int, u: Node, v: Node) {
    exists i {:trigger path[i]} :: 0 <= i < n && i + 1 < |path| && path[i] == u && path[i + 1] == v
  }

  ghost predicate OnHop(path: seq<Node>, u: Node, v: Node) {
    HopBefore(path, |path|, u, v)
  }

  /** How many of the live paths use the hop from u to v. */
  ghost function Uses(live: seq<PathWithInfo>, u: Node, v: Node): nat {
    if live == [] then 0
    else Uses(live[..|live| - 1], u, v) + (if OnHop(live[|live| - 1].path, u, v) then 1 else 0)
  }

  lemma UsesBack(live: seq<PathWithInfo>, p: PathWithInfo, u: Node, v: Node)
    ensures Uses(live + [p], u, v) == Uses(live, u, v) + (if OnHop(p.path, u, v) then 1 else 0)
  {
    assert (live + [p])[..|live|] == live;
  }

  lemma {:induction false} UsesFront(live: seq<PathWithInfo>, u: Node, v: Node)
    requires live != []
    ensures Uses(live, u, v) == (if OnHop(live[0].path, u, v) then 1 else 0) + Uses(live[1..], u, v)
  {
    var n := |live| - 1;
    if n > 0 {
      UsesFront(live[..n], u, v);
      assert live[..n][1..] == live[1..][..n - 1];
      assert live[1..][|live[1..]| - 1] == live[n];
    }
  }

  lemma {:induction false} UsesAtMostAll(live: seq<PathWithInfo>, u: Node, v: Node)
    ensures Uses(live, u, v) <= |live|
  {
    if live != [] {
      UsesAtMostAll(live[..|live| - 1], u, v);
    }
  }

  /** An edge carries one unit for each live path over it; residual and capacities agree. */
  ghost predicate EdgeHolds(ef: EdgeFlow, uses: nat, cap: real) {
    && ef.flow == uses as real && ef.residual == ef.effCap - ef.flow
    && ef.cap == cap && 0.0 <= ef.effCap <= ef.cap
  }

  ghost predicate FlowHolds(graph: FlowGraph, live: seq<PathWithInfo>, cap: real) {
    forall u, v :: HasEdge(graph, u, v) ==> EdgeHolds(graph[u][v], Uses(live, u, v), cap)
  }

  function WithFlow(ef: EdgeFlow, f: real): EdgeFlow {
    ef.(flow := f, residual := ef.effCap - f)
  }

  /** One unit more, or one unit less but not below zero. */
  function Moved(ef: EdgeFlow, allocate: bool): EdgeFlow {
    if allocate then WithFlow(ef, ef.flow + 1.0)
    else WithFlow(ef, if ef.flow - 1.0 < 0.0 then 0.0 else ef.flow - 1.0)
  }

  ghost predicate SameEdges(g: FlowGraph, g': FlowGraph) {
    g'.Keys == g.Keys && forall u, v :: HasEdge(g, u, v) <==> HasEdge(g', u, v)
  }

  /** g' is g with one unit moved on each of the first n hops. */
  ghost predicate Shifted(g: FlowGraph, g': FlowGraph, path: seq<Node>, n: int, allocate: bool) {
    && SameEdges(g, g')
    && forall u, v :: HasEdge(g, u, v) ==>
         g'[u][v] == (if HopBefore(path, n, u, v) then Moved(g[u][v], allocate) else g[u][v])
  }

  function SetEdge(g: FlowGraph, u: Node, v: Node, ef: EdgeFlow): FlowGraph
    requires HasEdge(g, u, v)
  {
    g[u := g[u][v := ef]]
  }

  lemma SetEdgeHolds(g: FlowGraph, u: Node, v: Node, ef: EdgeFlow)
    requires HasEdge(g, u, v)
    ensures SameEdges(g, SetEdge(g, u, v, ef))
    ensures forall x, y :: HasEdge(g, x, y) ==> SetEdge(g, u, v, ef)[x][y] == (if x == u && y == v then ef else g[x][y])
  {
  }

  lemma NextHopIsNew(path: seq<Node>, i: nat, u: Node, v: Node)
    requires NoDup(path) && i + 1 < |path|
    ensures HopBefore(path, i + 1, u, v) <==> HopBefore(path, i, u, v) || (u == path[i] && v == path[i + 1])
    ensures !HopBefore(path, i, path[i], v)
  {
    if u == path[i] && v == path[i + 1] {
      assert path[i] == u;
    }
  }

  /** `allocateFlow` and `releaseFlow`: one pass over the hops of a path. */
  method MoveFlow(g: FlowGraph, path: seq<Node>, allocate: bool) returns (g': FlowGraph)
    requires NoDup(path)
    ensures Shifted(g, g', path, |path|, allocate)
  {
    hide NoDup, HopBefore;
    g' := g;
    var i := 0;
    NoHopYet(path);
    while i < |path| - 1
      invariant 0 <= i
      invariant |path| > 0 ==> i < |path|
      invariant Shifted(g, g', path, i, allocate)
    {
      var from, to := path[i], path[i + 1];
      forall u, v
        ensures HopBefore(path, i + 1, u, v) <==> HopBefore(path, i, u, v) || (u == from && v == to)
        ensures !HopBefore(path, i, from, v)
      {
        NextHopIsNew(path, i, u, v);
      }
      if HasEdge(g', from, to) {
        SetEdgeHolds(g', from, to, Moved(g'[from][to], allocate));
        g' := SetEdge(g', from, to, Moved(g'[from][to], allocate));
      }
      i := i + 1;
    }
    LastHopEnds(path, i);
  }

  lemma NoHopYet(path: seq<Node>)
    ensures forall u, v :: !HopBefore(path, 0, u, v)
  {
  }

  lemma LastHopEnds(path: seq<Node>, i: int)
    requires i >= |path| - 1
    ensures forall u, v :: HopBefore(path, i, u, v) <==> HopBefore(path, |path|, u, v)
  {
  }

  /** A path gets its unit on every edge it uses. */
  lemma AllocationHolds(g: FlowGraph, g': FlowGraph, live: seq<PathWithInfo>, p: PathWithInfo, cap: real)
    requires FlowHolds(g, live, cap) && Shifted(g, g', p.path, |p.path|, true)
    ensures FlowHolds(g', live + [p], cap)
  {
    hide HopBefore, Uses;
    forall u, v | HasEdge(g', u, v)
      ensures EdgeHolds(g'[u][v], Uses(live + [p], u, v), cap)
    {
      assert HasEdge(g, u, v) && EdgeHolds(g[u][v], Uses(live, u, v), cap);
      UsesBack(live, p, u, v);
    }
  }

  /** The oldest path gives its unit back: the edge carries at least that one unit, so the
      clamp at zero has no effect. */
  lemma ReleaseHolds(g: FlowGraph, g': FlowGraph, live: seq<PathWithInfo>, cap: real)
    requires live != [] && FlowHolds(g, live, cap) && Shifted(g, g', live[0].path, |live[0].path|, false)
    ensures FlowHolds(g', live[1..], cap)
    ensures forall u, v :: HasEdge(g, u, v) && OnHop(live[0].path, u, v) ==> g[u][v].flow >= 1.0 && g'[u][v].flow == g[u][v].flow - 1.0
  {
    forall u, v | HasEdge(g, u, v)
      ensures HasEdge(g', u, v) && EdgeHolds(g'[u][v], Uses(live[1..], u, v), cap)
      ensures OnHop(live[0].path, u, v) ==> g[u][v].flow >= 1.0 && g'[u][v].flow == g[u][v].flow - 1.0
    {
      assert HasEdge(g', u, v) && EdgeHolds(g[u][v], Uses(live, u, v), cap);
      UsesFront(live, u, v);
    }
  }

  /** No edge carries more than its capacity when there are no more paths than that. */
  lemma FlowWithinCapacity(graph: FlowGraph, live: seq<PathWithInfo>, cap: real, u: Node, v: Node)
    requires FlowHolds(graph, live, cap) && |live| as real <= cap && HasEdge(graph, u, v)
    ensures 0.0 <= graph[u][v].flow <= graph[u][v].cap
  {
    UsesAtMostAll(live, u, v);
  }
}
