/** `ComputingMulti` of the flow optimiser: fill each destination's quota, then repeatedly
    retire the oldest path and look for a new one while some edges are made unattractive,
    keeping the best-scored list of paths. */
module Carousel {
  import opened Optional
  import opened Overlay
  import opened ResidualSearch
  import opened CarouselState
  import PathNames

  const FLOWS_PER_DEST: nat := 2
  const DEFAULT_THETA_L := 100.0

  // ---------- Books ----------

  /** The destinations of the live paths, with their multiplicities. */
  ghost function DestBag(live: seq<PathWithInfo>): multiset<Node> {
    multiset(seq(|live|, i requires 0 <= i < |live| => live[i].dest))
  }

  lemma DestBagBack(live: seq<PathWithInfo>, p: PathWithInfo)
    ensures DestBag(live + [p]) == DestBag(live) + multiset{p.dest}
  {
    var all := live + [p];
    var a := seq(|all|, i requires 0 <= i < |all| => all[i].dest);
    assert a == seq(|live|, i requires 0 <= i < |live| => live[i].dest) + [p.dest];
  }

  lemma DestBagFront(live: seq<PathWithInfo>)
    requires live != []
    ensures DestBag(live) == multiset{live[0].dest} + DestBag(live[1..])
  {
    var a := seq(|live|, i requires 0 <= i < |live| => live[i].dest);
    var tail := live[1..];
    assert a == [live[0].dest] + seq(|tail|, i requires 0 <= i < |tail| => tail[i].dest);
  }

  /** A counter read from the map: a missing key reads as zero. */
  function Count(counts: map<Node, int>, d: Node): int {
    if d in counts then counts[d] else 0
  }

  ghost predicate CountsHold(counts: map<Node, int>, live: seq<PathWithInfo>) {
    forall d :: Count(counts, d) == DestBag(live)[d]
  }

  /** The key a path is known by in the set of used paths. */
  function Key(p: PathWithInfo): string {
    PathNames.Join(p.path)
  }

  ghost function UsedOf(live: seq<PathWithInfo>): set<string> {
    set i | 0 <= i < |live| :: Key(live[i])
  }

  /** The used-path set is exactly the set of live paths, no two of which are alike. */
  ghost predicate UsedHolds(used: set<string>, live: seq<PathWithInfo>) {
    used == UsedOf(live) && forall i, j :: 0 <= i < j < |live| ==> Key(live[i]) != Key(live[j])
  }

  /** Where names hold no separator, a path counts as used exactly if a live one has its hops. */
  lemma UsedIsLive(live: seq<PathWithInfo>, p: PathWithInfo)
    requires forall q :: q in live + [p] ==> q.path != [] && forall h :: h in q.path ==> PathNames.ArrowFree(h)
    ensures Key(p) in UsedOf(live) <==> exists q :: q in live && q.path == p.path
  {
    hide PathNames.ArrowFree, PathNames.Join;
    assert p in live + [p];
    forall i | 0 <= i < |live|
      ensures Key(live[i]) == Key(p) <==> live[i].path == p.path
    {
      assert live[i] in live + [p];
      PathNames.JoinIsInjective(live[i].path, p.path);
    }
  }

  /** No destination has more paths than its quota for each time it was asked for. */
  ghost predicate QuotaHolds(live: seq<PathWithInfo>, asked: multiset<Node>) {
    forall d :: DestBag(live)[d] <= FLOWS_PER_DEST * asked[d]
  }

  lemma QuotaBoundsPaths(live: seq<PathWithInfo>, ends: seq<Node>)
    requires QuotaHolds(live, multiset(ends))
    ensures |live| <= FLOWS_PER_DEST * |ends|
  {
    var asked := multiset(ends);
    assert DestBag(live) <= asked + asked;
    var rest := (asked + asked) - DestBag(live);
    assert DestBag(live) + rest == asked + asked;
    assert |DestBag(live) + rest| == |DestBag(live)| + |rest| && |asked + asked| == |asked| + |asked|;
    assert |DestBag(live)| == |live| && |asked| == |ends|;
  }

  // ---------- The network of a list of paths ----------

  /** What one call works on: the idle network, the request and its latency bounds. */
  datatype Job = Job(nodes: set<Node>, latencies: map<string, real>, idle: FlowGraph, start: Node, ends: seq<Node>,
                     bounds: map<Node, real>, cap: real)

  ghost predicate NoBans(graph: FlowGraph) {
    forall u, v :: HasEdge(graph, u, v) ==> !graph[u][v].banned
  }

  ghost predicate JobHolds(job: Job) {
    && FlowHolds(job.idle, [], job.cap) && NoBans(job.idle)
    && forall k :: k in job.latencies ==> job.latencies[k] >= 0.0
  }

  ghost function NetOf(job: Job, graph: FlowGraph): Network {
    Network(graph, job.nodes, job.latencies)
  }

  /** The idle network with one unit of flow for each live path on each of its edges. */
  ghost function Reflow(idle: FlowGraph, live: seq<PathWithInfo>): FlowGraph {
    map u | u in idle :: map v | v in idle[u] :: WithFlow(idle[u][v], Uses(live, u, v) as real)
  }

  /** The graph is that network, up to bans. */
  ghost predicate FlowsOf(idle: FlowGraph, graph: FlowGraph, live: seq<PathWithInfo>) {
    && SameEdges(idle, graph)
    && forall u, v :: HasEdge(idle, u, v) ==> graph[u][v].(banned := false) == WithFlow(idle[u][v], Uses(live, u, v) as real)
  }

  lemma SameGraph(g: FlowGraph, g': FlowGraph)
    requires SameEdges(g, g') && forall u, v :: HasEdge(g, u, v) ==> g[u][v] == g'[u][v]
    ensures g == g'
  {
    forall u | u in g
      ensures g[u] == g'[u]
    {
      assert forall v :: v in g[u] <==> HasEdge(g, u, v);
      assert forall v :: v in g'[u] <==> HasEdge(g', u, v);
    }
  }

  /** Without bans the graph is determined by the live paths. */
  lemma GraphIsReflow(idle: FlowGraph, graph: FlowGraph, live: seq<PathWithInfo>)
    requires FlowsOf(idle, graph, live) && NoBans(graph)
    ensures graph == Reflow(idle, live)
  {
    hide Uses;
    SameGraph(graph, Reflow(idle, live));
  }

  lemma FlowsHold(idle: FlowGraph, graph: FlowGraph, live: seq<PathWithInfo>, cap: real)
    requires FlowHolds(idle, [], cap) && FlowsOf(idle, graph, live)
    ensures FlowHolds(graph, live, cap)
  {
    hide Uses;
    forall u, v | HasEdge(graph, u, v)
      ensures EdgeHolds(graph[u][v], Uses(live, u, v), cap)
    {
      assert HasEdge(idle, u, v) && EdgeHolds(idle[u][v], Uses([], u, v), cap);
      assert graph[u][v].(banned := false) == WithFlow(idle[u][v], Uses(live, u, v) as real);
    }
  }

  /** Moving one unit along a path gives the network of the new list. */
  lemma ShiftKeepsFlows(idle: FlowGraph, g: FlowGraph, g': FlowGraph, live: seq<PathWithInfo>, live': seq<PathWithInfo>, cap: real,
                        path: seq<Node>, n: int, allocate: bool)
    requires FlowsOf(idle, g, live) && Shifted(g, g', path, n, allocate) && FlowHolds(g', live', cap)
    ensures FlowsOf(idle, g', live')
  {
    hide Uses, HopBefore;
    forall u, v | HasEdge(idle, u, v)
      ensures g'[u][v].(banned := false) == WithFlow(idle[u][v], Uses(live', u, v) as real)
    {
      assert HasEdge(g, u, v) && HasEdge(g', u, v) && EdgeHolds(g'[u][v], Uses(live', u, v), cap);
      assert g[u][v].(banned := false) == WithFlow(idle[u][v], Uses(live, u, v) as real);
      assert g'[u][v] == WithFlow(g[u][v], Uses(live', u, v) as real);
    }
  }

  lemma NothingFlows(idle: FlowGraph, cap: real)
    requires FlowHolds(idle, [], cap) && NoBans(idle)
    ensures FlowsOf(idle, idle, [])
  {
    forall u, v | HasEdge(idle, u, v)
      ensures idle[u][v].(banned := false) == WithFlow(idle[u][v], Uses([], u, v) as real)
    {
      assert EdgeHolds(idle[u][v], Uses([], u, v), cap);
    }
  }

  // ---------- Paths ----------

  function ThetaL(bounds: map<Node, real>, d: Node): real {
    if d in bounds then bounds[d] else DEFAULT_THETA_L
  }

  /** The hops joined with bars, the key of the accumulator. */
  function Piped(path: seq<Node>): string {
    if path == [] then "" else if |path| == 1 then path[0] else path[0] + "|" + Piped(path[1..])
  }

  /** What a step may cost: the latency of an edge taken forwards, nothing for one taken
      backwards, and the penalty on top if the edge was banned at the time. */
  ghost predicate Priced(job: Job, from: Node, a: Arc) {
    var base := if a.isRev then 0.0 else Latency(job.latencies, from, a.to);
    && (if a.isRev then HasEdge(job.idle, a.to, from) else HasEdge(job.idle, from, a.to))
    && (a.cost == base || a.cost == base + BANNED_PENALTY)
  }

  /** The arcs lead along the path and their costs add up to its latency. */
  ghost predicate Walked(job: Job, p: PathWithInfo, arcs: seq<Arc>) {
    && Hops(job.start, arcs) == p.path && WalkCost(arcs) == p.latency
    && forall i {:trigger arcs[i]} :: 0 <= i < |arcs| ==> Priced(job, Hops(job.start, arcs)[i], arcs[i])
  }

  /** A path the optimiser may return: simple, from start to a requested destination, of at
      most 30 nodes, with the latency of its steps, within that destination's bound. */
  ghost predicate PathHolds(job: Job, p: PathWithInfo) {
    && 1 <= |p.path| <= MAX_HOPS && NoDup(p.path)
    && p.path[0] == job.start && p.path[|p.path| - 1] == p.dest && p.dest in job.ends
    && 0.0 <= p.latency <= ThetaL(job.bounds, p.dest)
    && p.pathStr == Piped(p.path)
    && exists arcs :: Walked(job, p, arcs)
  }

  ghost predicate PathsHold(job: Job, live: seq<PathWithInfo>) {
    forall i :: 0 <= i < |live| ==> PathHolds(job, live[i])
  }

  /** The path is the walk along these feasible arcs. */
  ghost predicate FoundBy(net: Network, start: Node, bounds: map<Node, real>, p: PathWithInfo, arcs: seq<Arc>) {
    && Feasible(net, start, p.dest, ThetaL(bounds, p.dest), arcs)
    && p == PathWithInfo(Hops(start, arcs), Piped(Hops(start, arcs)), p.dest, WalkCost(arcs))
  }

  ghost predicate FoundIn(net: Network, start: Node, bounds: map<Node, real>, p: PathWithInfo) {
    start in net.graph && exists arcs :: FoundBy(net, start, bounds, p, arcs)
  }

  lemma {:induction false} WalkCostNonNegative(net: Network, s: Node, arcs: seq<Arc>)
    requires NonNegativeLatencies(net) && IsWalk(net, s, arcs)
    ensures WalkCost(arcs) >= 0.0
  {
    assert [] <= arcs;
    PrefixIsCheaper(net, s, [], arcs);
  }

  lemma ArcIsPriced(job: Job, graph: FlowGraph, u: Node, a: Arc)
    requires SameEdges(job.idle, graph) && IsArc(NetOf(job, graph), u, a)
    ensures Priced(job, u, a)
  {
  }

  lemma WalkIsPriced(job: Job, graph: FlowGraph, s: Node, arcs: seq<Arc>)
    requires SameEdges(job.idle, graph) && IsWalk(NetOf(job, graph), s, arcs)
    ensures forall i {:trigger arcs[i]} :: 0 <= i < |arcs| ==> Priced(job, Hops(s, arcs)[i], arcs[i])
  {
    hide IsArc, Priced, SameEdges, Hops;
    forall i {:trigger arcs[i]} | 0 <= i < |arcs|
      ensures Priced(job, Hops(s, arcs)[i], arcs[i])
    {
      ArcIsPriced(job, graph, Hops(s, arcs)[i], arcs[i]);
    }
  }

  /** What a search finds is a path the optimiser may keep. */
  lemma FoundPathHolds(job: Job, graph: FlowGraph, p: PathWithInfo, arcs: seq<Arc>)
    requires JobHolds(job) && SameEdges(job.idle, graph) && p.dest in job.ends
    requires FoundBy(NetOf(job, graph), job.start, job.bounds, p, arcs)
    ensures PathHolds(job, p)
  {
    hide WalkCost, IsWalk, Priced, NoDup, Piped, FlowHolds, NoBans, SameEdges, ThetaL, Hops;
    WalkCostNonNegative(NetOf(job, graph), job.start, arcs);
    WalkIsPriced(job, graph, job.start, arcs);
    assert Walked(job, p, arcs);
  }

  /** The latencies of the edges along a path. */
  ghost function PathLatency(latencies: map<string, real>, path: seq<Node>): real {
    if |path| <= 1 then 0.0
    else var n := |path| - 1; PathLatency(latencies, path[..n]) + Latency(latencies, path[n - 1], path[n])
  }

  lemma {:induction false} ForwardCost(job: Job, s: Node, arcs: seq<Arc>)
    requires forall i {:trigger arcs[i]} :: 0 <= i < |arcs| ==> !arcs[i].isRev && Priced(job, Hops(s, arcs)[i], arcs[i])
    ensures PathLatency(job.latencies, Hops(s, arcs)) <= WalkCost(arcs)
  {
    hide Latency, HasEdge;
    if arcs != [] {
      var n := |arcs| - 1;
      var p := arcs[..n];
      HopsPrefix(s, p, arcs);
      assert Hops(s, arcs)[..n + 1] == Hops(s, p);
      forall i {:trigger p[i]} | 0 <= i < |p|
        ensures !p[i].isRev && Priced(job, Hops(s, p)[i], p[i])
      {
        assert p[i] == arcs[i];
      }
      ForwardCost(job, s, p);
      assert Priced(job, Hops(s, arcs)[n], arcs[n]);
    }
  }

  /** Where no hop has an edge in the other direction, the edges of a path keep the bound. */
  lemma EdgesWithinBound(job: Job, p: PathWithInfo)
    requires PathHolds(job, p) && forall i :: 0 <= i < |p.path| - 1 ==> !HasEdge(job.idle, p.path[i + 1], p.path[i])
    ensures PathLatency(job.latencies, p.path) <= p.latency <= ThetaL(job.bounds, p.dest)
  {
    hide NoDup, Piped, PathLatency, WalkCost;
    var arcs: seq<Arc> :| Walked(job, p, arcs);
    forall i {:trigger arcs[i]} | 0 <= i < |arcs|
      ensures !arcs[i].isRev
    {
      assert Priced(job, Hops(job.start, arcs)[i], arcs[i]) && Hops(job.start, arcs)[i + 1] == arcs[i].to;
      assert !HasEdge(job.idle, p.path[i + 1], p.path[i]);
    }
    ForwardCost(job, job.start, arcs);
  }

  // ---------- Bans ----------

  /** `banEdge`. */
  function BanEdge(g: FlowGraph, u: Node, v: Node): FlowGraph {
    if HasEdge(g, u, v) then SetEdge(g, u, v, g[u][v].(banned := true)) else g
  }

  /** Equal up to bans. */
  ghost predicate SameFlows(g: FlowGraph, g': FlowGraph) {
    && SameEdges(g, g')
    && forall u, v :: HasEdge(g, u, v) ==> g'[u][v].(banned := false) == g[u][v].(banned := false)
  }

  lemma BanEdgeKeepsFlows(g: FlowGraph, u: Node, v: Node)
    ensures SameFlows(g, BanEdge(g, u, v))
    ensures forall x, y :: HasEdge(g, x, y) ==> (BanEdge(g, u, v)[x][y].banned <==> g[x][y].banned || (x == u && y == v))
  {
    if HasEdge(g, u, v) {
      SetEdgeHolds(g, u, v, g[u][v].(banned := true));
    }
  }

  lemma SameFlowsTrans(a: FlowGraph, b: FlowGraph, c: FlowGraph)
    requires SameFlows(a, b) && SameFlows(b, c)
    ensures SameFlows(a, c)
  {
    forall u, v | HasEdge(a, u, v)
      ensures c[u][v].(banned := false) == a[u][v].(banned := false)
    {
      assert HasEdge(b, u, v);
    }
  }

  lemma SameFlowsKeep(idle: FlowGraph, g: FlowGraph, g': FlowGraph, live: seq<PathWithInfo>)
    requires SameFlows(g, g') && FlowsOf(idle, g, live)
    ensures FlowsOf(idle, g', live)
  {
    hide Uses;
    forall u, v | HasEdge(idle, u, v)
      ensures g'[u][v].(banned := false) == WithFlow(idle[u][v], Uses(live, u, v) as real)
    {
      assert HasEdge(g, u, v);
      assert g'[u][v].(banned := false) == g[u][v].(banned := false);
    }
  }

  /** The edge is on the hot path or the first one of the path retired. */
  ghost predicate IsBanned(hot: seq<Node>, retired: seq<Node>, u: Node, v: Node) {
    OnHop(hot, u, v) || (|retired| >= 2 && u == retired[0] && v == retired[1])
  }

  /** The graph with the bans of one turn. */
  ghost function BanGraph(g: FlowGraph, hot: seq<Node>, retired: seq<Node>): FlowGraph {
    map u | u in g :: map v | v in g[u] :: g[u][v].(banned := IsBanned(hot, retired, u, v))
  }

  /** The bans of a turn: on a path chosen most often so far, if any was, and on the first
      edge of the retired one. */
  ghost predicate Banned(hist: seq<PathWithInfo>, g: FlowGraph, retired: PathWithInfo, g': FlowGraph) {
    if hist == [] then g' == BanGraph(g, [], retired.path)
    else exists hot :: MostFrequent(hist, hot) && g' == BanGraph(g, hot.path, retired.path)
  }

  lemma NoHops()
    ensures forall u, v :: !OnHop([], u, v)
  {
  }

  lemma BannedGraph(g: FlowGraph, g': FlowGraph, hot: seq<Node>, retired: seq<Node>)
    requires SameFlows(g, g') && forall u, v :: HasEdge(g, u, v) ==> (g'[u][v].banned <==> IsBanned(hot, retired, u, v))
    ensures g' == BanGraph(g, hot, retired)
  {
    hide IsBanned;
    forall u, v | HasEdge(g', u, v)
      ensures g'[u][v] == BanGraph(g, hot, retired)[u][v]
    {
      assert HasEdge(g, u, v) && g'[u][v].(banned := false) == g[u][v].(banned := false);
    }
    SameGraph(g', BanGraph(g, hot, retired));
  }

  /** `banPathEdges`: exactly the edges along the path are banned too. */
  method BanPathEdges(g: FlowGraph, path: seq<Node>) returns (g': FlowGraph)
    ensures SameFlows(g, g')
    ensures forall u, v :: HasEdge(g, u, v) ==> (g'[u][v].banned <==> g[u][v].banned || OnHop(path, u, v))
  {
    g' := g;
    SameFlowsRefl(g);
    NoHopYet(path);
    var i := 0;
    while i < |path| - 1
      invariant SameFlows(g, g') && 0 <= i && (|path| > 0 ==> i < |path|)
      invariant forall u, v :: HasEdge(g, u, v) ==> (g'[u][v].banned <==> g[u][v].banned || HopBefore(path, i, u, v))
    {
      BanEdgeKeepsFlows(g', path[i], path[i + 1]);
      SameFlowsTrans(g, g', BanEdge(g', path[i], path[i + 1]));
      NextHop(path, i);
      g' := BanEdge(g', path[i], path[i + 1]);
      i := i + 1;
    }
    LastHopEnds(path, i);
  }

  lemma NextHop(path: seq<Node>, i: nat)
    requires i + 1 < |path|
    ensures forall u, v :: HopBefore(path, i + 1, u, v) <==> HopBefore(path, i, u, v) || (u == path[i] && v == path[i + 1])
  {
    forall u, v
      ensures HopBefore(path, i + 1, u, v) <==> HopBefore(path, i, u, v) || (u == path[i] && v == path[i + 1])
    {
      assert path[i] == path[i];
    }
  }

  /** `unbanAllEdges`. */
  function UnbanAll(g: FlowGraph): (g': FlowGraph)
    ensures SameFlows(g, g') && NoBans(g')
  {
    map u | u in g :: map v | v in g[u] :: g[u][v].(banned := false)
  }

  /** The step goes over a banned edge. */
  ghost predicate StepBanned(hot: seq<Node>, retired: seq<Node>, from: Node, a: Arc) {
    if a.isRev then IsBanned(hot, retired, a.to, from) else IsBanned(hot, retired, from, a.to)
  }

  /** How many of the steps do. */
  ghost function BannedSteps(hot: seq<Node>, retired: seq<Node>, s: Node, arcs: seq<Arc>): nat {
    if arcs == [] then 0
    else
      var n := |arcs| - 1;
      BannedSteps(hot, retired, s, arcs[..n]) + if StepBanned(hot, retired, Hops(s, arcs)[n], arcs[n]) then 1 else 0
  }

  ghost function Charge(hot: seq<Node>, retired: seq<Node>, from: Node, a: Arc): real {
    if StepBanned(hot, retired, from, a) then 100.0 else 0.0
  }

  /** The same steps without what the bans add to their cost. */
  ghost function Uncharged(hot: seq<Node>, retired: seq<Node>, s: Node, arcs: seq<Arc>): (free: seq<Arc>)
    ensures |free| == |arcs| && Hops(s, free) == Hops(s, arcs)
    ensures forall i :: 0 <= i < |arcs| ==> free[i] == arcs[i].(cost := arcs[i].cost - Charge(hot, retired, Hops(s, arcs)[i], arcs[i]))
  {
    seq(|arcs|, i requires 0 <= i < |arcs| => arcs[i].(cost := arcs[i].cost - Charge(hot, retired, Hops(s, arcs)[i], arcs[i])))
  }

  lemma StepIsCharged(job: Job, g: FlowGraph, hot: seq<Node>, retired: seq<Node>, u: Node, a: Arc)
    requires NoBans(g) && IsArc(NetOf(job, BanGraph(g, hot, retired)), u, a)
    ensures IsArc(NetOf(job, g), u, a.(cost := a.cost - Charge(hot, retired, u, a)))
  {
    hide Latency, IsBanned;
    if a.isRev {
      assert HasEdge(g, a.to, u);
    } else {
      assert HasEdge(g, u, a.to);
    }
  }

  lemma {:induction false} ChargesAddUp(hot: seq<Node>, retired: seq<Node>, s: Node, arcs: seq<Arc>)
    ensures WalkCost(arcs) == WalkCost(Uncharged(hot, retired, s, arcs)) + 100.0 * BannedSteps(hot, retired, s, arcs) as real
  {
    hide StepBanned;
    if arcs != [] {
      var n := |arcs| - 1;
      ChargesAddUp(hot, retired, s, arcs[..n]);
      UnchargedPrefix(hot, retired, s, arcs, n);
    }
  }

  lemma UnchargedPrefix(hot: seq<Node>, retired: seq<Node>, s: Node, arcs: seq<Arc>, n: nat)
    requires n <= |arcs|
    ensures Uncharged(hot, retired, s, arcs)[..n] == Uncharged(hot, retired, s, arcs[..n])
  {
    hide Charge;
  }

  /** A walk costs 100 more for each of its steps over a banned edge than without the bans. */
  lemma BansAreCharged(job: Job, g: FlowGraph, hot: seq<Node>, retired: seq<Node>, s: Node, arcs: seq<Arc>)
    requires NoBans(g) && IsWalk(NetOf(job, BanGraph(g, hot, retired)), s, arcs)
    ensures IsWalk(NetOf(job, g), s, Uncharged(hot, retired, s, arcs))
    ensures WalkCost(arcs) == WalkCost(Uncharged(hot, retired, s, arcs)) + 100.0 * BannedSteps(hot, retired, s, arcs) as real
  {
    hide IsArc, Charge, BanGraph, NoBans, BannedSteps, WalkCost, Hops, Uncharged;
    ChargesAddUp(hot, retired, s, arcs);
    var free := Uncharged(hot, retired, s, arcs);
    forall i {:trigger free[i]} | 0 <= i < |free|
      ensures IsArc(NetOf(job, g), Hops(s, free)[i], free[i])
    {
      StepIsCharged(job, g, hot, retired, Hops(s, arcs)[i], arcs[i]);
    }
  }

  /** With a latency bound below 100 no banned edge is taken. */
  lemma BansShutOut(job: Job, g: FlowGraph, hot: seq<Node>, retired: seq<Node>, t: Node, thetaL: real, arcs: seq<Arc>)
    requires JobHolds(job) && NoBans(g) && Feasible(NetOf(job, BanGraph(g, hot, retired)), job.start, t, thetaL, arcs) && thetaL < 100.0
    ensures BannedSteps(hot, retired, job.start, arcs) == 0
  {
    hide BannedSteps, IsWalk, BanGraph, NoBans, NoDup, WalkCost, FlowHolds;
    BansAreCharged(job, g, hot, retired, job.start, arcs);
    WalkCostNonNegative(NetOf(job, g), job.start, Uncharged(hot, retired, job.start, arcs));
  }

  // ---------- What a step may do ----------

  /** Some feasible path leads to t. */
  ghost predicate CanServe(net: Network, start: Node, bounds: map<Node, real>, t: Node) {
    start in net.graph && exists full :: Feasible(net, start, t, ThetaL(bounds, t), full)
  }

  /** Some feasible path not in use leads to t. */
  ghost predicate CanServeUnused(net: Network, start: Node, bounds: map<Node, real>, t: Node, used: set<string>) {
    start in net.graph && exists full :: Eligible(net, start, t, ThetaL(bounds, t), used, full)
  }

  /** Some feasible path in use already leads to t. */
  ghost predicate CanServeUsed(net: Network, start: Node, bounds: map<Node, real>, t: Node, used: set<string>) {
    start in net.graph && exists full :: Feasible(net, start, t, ThetaL(bounds, t), full) && !Unused(used, start, full)
  }

  /** A search on this graph may come back with p, which is not live: on the first attempt p
      is a fastest such path, later it is any feasible one. */
  ghost predicate NewPath(job: Job, graph: FlowGraph, live: seq<PathWithInfo>, attempt: nat, p: PathWithInfo) {
    && FoundIn(NetOf(job, graph), job.start, job.bounds, p) && p.dest in job.ends && Key(p) !in UsedOf(live)
    && (attempt <= 1 ==>
          forall full :: Eligible(NetOf(job, graph), job.start, p.dest, ThetaL(job.bounds, p.dest), UsedOf(live), full) ==>
                           p.latency <= WalkCost(full))
  }

  /** A search on this graph may come back without a new path to d: the first attempt only if
      there is none; a later one if nothing is feasible, or by meeting a path in use. */
  ghost predicate GivenUp(job: Job, graph: FlowGraph, live: seq<PathWithInfo>, attempt: nat, d: Node) {
    var net := NetOf(job, graph);
    if attempt <= 1 then !CanServeUnused(net, job.start, job.bounds, d, UsedOf(live))
    else !CanServe(net, job.start, job.bounds, d) || CanServeUsed(net, job.start, job.bounds, d, UsedOf(live))
  }

  /** From list a to list b by serving one destination: up to two new paths, the first one a
      fastest, each found with the flow of those before it; fewer only if given up. */
  ghost predicate Served(job: Job, end: Node, a: seq<PathWithInfo>, b: seq<PathWithInfo>) {
    && a <= b && |b| <= |a| + FLOWS_PER_DEST
    && (forall i :: |a| <= i < |b| ==> b[i].dest == end && NewPath(job, Reflow(job.idle, b[..i]), b[..i], i - |a| + 1, b[i]))
    && (|b| < |a| + FLOWS_PER_DEST ==> GivenUp(job, Reflow(job.idle, b), b, |b| - |a| + 1, end))
  }

  /** The lists of the first phase: the destinations are served in turn, from nothing. */
  ghost predicate Filled(job: Job, lists: seq<seq<PathWithInfo>>) {
    && |lists| == |job.ends| + 1 && lists[0] == []
    && forall k :: 0 <= k < |job.ends| ==> Served(job, job.ends[k], lists[k], lists[k + 1])
  }

  /** From list a to list b on this graph: one new path to a destination below its quota, or
      none if all of those are given up. */
  ghost predicate Replaced(job: Job, graph: FlowGraph, attempt: nat, a: seq<PathWithInfo>, b: seq<PathWithInfo>) {
    if b == a then forall d :: d in job.ends && DestBag(a)[d] < FLOWS_PER_DEST ==> GivenUp(job, graph, a, attempt, d)
    else |b| == |a| + 1 && b[..|a|] == a && DestBag(a)[b[|a|].dest] < FLOWS_PER_DEST && NewPath(job, graph, a, attempt, b[|a|])
  }

  /** From list a to list b by one turn: the oldest path goes, the edges of a path chosen most
      often so far and the first edge of the retired one are banned, and a replacement is
      looked for on that network. */
  ghost predicate Turned(job: Job, hist: seq<PathWithInfo>, attempt: nat, a: seq<PathWithInfo>, b: seq<PathWithInfo>) {
    a != [] && exists graph :: Banned(hist, Reflow(job.idle, a[1..]), a[0], graph) && Replaced(job, graph, attempt, a[1..], b)
  }

  /** What a turn adds to the history. */
  ghost function Appended(a: seq<PathWithInfo>, b: seq<PathWithInfo>): seq<PathWithInfo> {
    if b != [] && |b| == |a| then [b[|b| - 1]] else []
  }

  /** With no live path every feasible path is unused. */
  lemma NothingUsed(net: Network, start: Node, bounds: map<Node, real>, d: Node)
    ensures UsedOf([]) == {}
    ensures CanServeUnused(net, start, bounds, d, {}) <==> CanServe(net, start, bounds, d)
  {
    hide Feasible, PathNames.Join;
    assert forall full :: Eligible(net, start, d, ThetaL(bounds, d), {}, full) <==> Feasible(net, start, d, ThetaL(bounds, d), full);
  }

  /** The first destination that can be served gets a path. */
  lemma ServedFirst(job: Job, end: Node, b: seq<PathWithInfo>)
    requires Served(job, end, [], b)
    ensures b == [] <==> !CanServe(NetOf(job, Reflow(job.idle, [])), job.start, job.bounds, end)
  {
    hide Feasible, Reflow, Piped, WalkCost, PathNames.Join;
    var net := NetOf(job, Reflow(job.idle, []));
    NothingUsed(net, job.start, job.bounds, end);
    if b != [] {
      assert b[..0] == [];
      var arcs :| FoundBy(net, job.start, job.bounds, b[0], arcs);
    }
  }

  /** The first phase ends without a path exactly if no destination can be served. */
  lemma {:induction false} FilledNothing(job: Job, lists: seq<seq<PathWithInfo>>, n: nat)
    requires Filled(job, lists) && n <= |job.ends|
    ensures lists[n] == [] <==> forall k :: 0 <= k < n ==> !CanServe(NetOf(job, Reflow(job.idle, [])), job.start, job.bounds, job.ends[k])
  {
    hide CanServe, Reflow, NewPath, GivenUp;
    if n > 0 {
      FilledNothing(job, lists, n - 1);
      assert Served(job, job.ends[n - 1], lists[n - 1], lists[(n - 1) + 1]);
      if lists[n - 1] == [] {
        ServedFirst(job, job.ends[n - 1], lists[n]);
      }
    }
  }

  /** Serving a destination keeps the quotas, counting this request. */
  lemma ServedQuota(job: Job, end: Node, a: seq<PathWithInfo>, b: seq<PathWithInfo>, asked: multiset<Node>)
    requires Served(job, end, a, b) && QuotaHolds(a, asked)
    ensures QuotaHolds(b, asked + multiset{end})
  {
    hide NewPath, GivenUp, Reflow;
    var n := |a|;
    assert |b| == n ==> b == a;
    assert |b| > n ==> b[..n + 1] == a + [b[n]];
    assert |b| == n + 1 ==> b == b[..n + 1];
    assert |b| > n + 1 ==> b == b[..n + 1] + [b[n + 1]];
    if |b| > n {
      DestBagBack(a, b[n]);
      if |b| > n + 1 {
        DestBagBack(b[..n + 1], b[n + 1]);
      }
    }
    forall d
      ensures DestBag(b)[d] <= FLOWS_PER_DEST * (asked + multiset{end})[d]
    {
      assert DestBag(a)[d] <= FLOWS_PER_DEST * asked[d];
      assert DestBag(b)[d] <= DestBag(a)[d] + (if d == end then FLOWS_PER_DEST else 0);
    }
  }

  // ---------- One run ----------

  ghost predicate Books(job: Job, graph: FlowGraph, live: seq<PathWithInfo>, used: set<string>, counts: map<Node, int>) {
    && FlowsOf(job.idle, graph, live) && UsedHolds(used, live) && CountsHold(counts, live) && PathsHold(job, live)
  }

  lemma AddKeepsUsed(used: set<string>, live: seq<PathWithInfo>, p: PathWithInfo)
    requires UsedHolds(used, live) && Key(p) !in used
    ensures UsedHolds(used + {Key(p)}, live + [p])
  {
    hide Key;
    var all := live + [p];
    forall s
      ensures s in used + {Key(p)} <==> s in UsedOf(all)
    {
      if s in used {
        var i :| 0 <= i < |live| && Key(live[i]) == s;
        assert all[i] == live[i];
      }
      if s == Key(p) {
        assert all[|live|] == p;
      }
    }
  }

  lemma DropKeepsUsed(used: set<string>, live: seq<PathWithInfo>)
    requires live != [] && UsedHolds(used, live)
    ensures UsedHolds(used - {Key(live[0])}, live[1..])
  {
    hide Key;
    var rest := live[1..];
    forall s
      ensures s in used - {Key(live[0])} <==> s in UsedOf(rest)
    {
      if s in used && s != Key(live[0]) {
        var i :| 0 <= i < |live| && Key(live[i]) == s;
        assert rest[i - 1] == live[i];
      }
      if s in UsedOf(rest) {
        var i :| 0 <= i < |rest| && Key(rest[i]) == s;
        assert live[i + 1] == rest[i] && Key(live[0]) != Key(live[i + 1]);
      }
    }
  }

  lemma ShiftKeepsBans(g: FlowGraph, g': FlowGraph, path: seq<Node>, n: int, allocate: bool)
    requires Shifted(g, g', path, n, allocate)
    ensures NoBans(g) ==> NoBans(g')
  {
  }

  lemma AddKeepsCounts(counts: map<Node, int>, live: seq<PathWithInfo>, p: PathWithInfo)
    requires CountsHold(counts, live)
    ensures CountsHold(counts[p.dest := Count(counts, p.dest) + 1], live + [p])
  {
    DestBagBack(live, p);
  }

  lemma DropKeepsCounts(counts: map<Node, int>, live: seq<PathWithInfo>)
    requires CountsHold(counts, live) && live != []
    ensures CountsHold(counts[live[0].dest := Count(counts, live[0].dest) - 1], live[1..])
  {
    DestBagFront(live);
    var counts' := counts[live[0].dest := Count(counts, live[0].dest) - 1];
    forall d
      ensures Count(counts', d) == DestBag(live[1..])[d]
    {
      assert Count(counts, d) == DestBag(live)[d];
      assert DestBag(live)[d] == multiset{live[0].dest}[d] + DestBag(live[1..])[d];
    }
  }

  /** The books after a path is added. */
  lemma AddKeepsBooks(job: Job, graph: FlowGraph, live: seq<PathWithInfo>, used: set<string>, counts: map<Node, int>,
                      p: PathWithInfo, graph': FlowGraph)
    requires JobHolds(job) && Books(job, graph, live, used, counts)
    requires PathHolds(job, p) && Key(p) !in used && Shifted(graph, graph', p.path, |p.path|, true)
    ensures Books(job, graph', live + [p], used + {Key(p)}, counts[p.dest := Count(counts, p.dest) + 1])
  {
    hide UsedHolds, CountsHold, FlowHolds, FlowsOf, PathHolds, Shifted, NoBans, Key;
    AddKeepsUsed(used, live, p);
    AddKeepsCounts(counts, live, p);
    FlowsHold(job.idle, graph, live, job.cap);
    AllocationHolds(graph, graph', live, p, job.cap);
    ShiftKeepsFlows(job.idle, graph, graph', live, live + [p], job.cap, p.path, |p.path|, true);
  }

  /** The books after the oldest path is dropped. */
  lemma DropKeepsBooks(job: Job, graph: FlowGraph, live: seq<PathWithInfo>, used: set<string>, counts: map<Node, int>, graph': FlowGraph)
    requires JobHolds(job) && Books(job, graph, live, used, counts)
    requires live != [] && Shifted(graph, graph', live[0].path, |live[0].path|, false)
    ensures Books(job, graph', live[1..], used - {Key(live[0])}, counts[live[0].dest := Count(counts, live[0].dest) - 1])
  {
    hide UsedHolds, CountsHold, FlowHolds, FlowsOf, PathHolds, Shifted, NoBans, Key;
    DropKeepsUsed(used, live);
    DropKeepsCounts(counts, live);
    FlowsHold(job.idle, graph, live, job.cap);
    ReleaseHolds(graph, graph', live, job.cap);
    ShiftKeepsFlows(job.idle, graph, graph', live, live[1..], job.cap, live[0].path, |live[0].path|, false);
  }

  /** The state one call of the optimiser works on. */
  class Run {
    const nodes: set<Node>
    const latencies: map<string, real>
    const start: Node
    const ends: seq<Node>
    const bounds: map<Node, real>
    const capacity: real
    ghost const idle: FlowGraph
    var graph: FlowGraph
    var live: seq<PathWithInfo>
    var used: set<string>
    var destFlowCount: map<Node, int>

    constructor (nodes: set<Node>, latencies: map<string, real>, start: Node, ends: seq<Node>, bounds: map<Node, real>,
                 capacity: real, graph: FlowGraph)
      requires JobHolds(Job(nodes, latencies, graph, start, ends, bounds, capacity))
      ensures TheJob() == Job(nodes, latencies, graph, start, ends, bounds, capacity)
      ensures Valid() && NoBans(this.graph) && live == []
    {
      this.nodes, this.latencies, this.start, this.ends := nodes, latencies, start, ends;
      this.bounds, this.capacity, this.idle, this.graph := bounds, capacity, graph, graph;
      live, used, destFlowCount := [], {}, map[];
      NothingFlows(graph, capacity);
    }

    ghost function TheJob(): Job {
      Job(nodes, latencies, idle, start, ends, bounds, capacity)
    }

    /** Flow, used paths, counters and live paths agree in every state of a run. */
    ghost predicate Valid()
      reads this
    {
      JobHolds(TheJob()) && Books(TheJob(), graph, live, used, destFlowCount)
    }

    function Net(): (net: Network)
      reads this`graph
      ensures net == NetOf(TheJob(), graph)
    {
      Network(graph, nodes, latencies)
    }

    /** `findFeasiblePathWithLatency`: the first attempt looks for the fastest unused path,
        later ones for any feasible path. */
    method Find(t: Node, attempt: nat) returns (r: Option<PathWithInfo>)
      requires Valid() && t in ends
      ensures r.Some? ==> r.value.dest == t && PathHolds(TheJob(), r.value) && FoundIn(Net(), start, bounds, r.value)
      ensures r.Some? && Key(r.value) !in used ==> NewPath(TheJob(), graph, live, attempt, r.value)
      ensures r.Some? && attempt <= 1 ==> Key(r.value) !in used
      ensures r.None? || Key(r.value) in used ==> GivenUp(TheJob(), graph, live, attempt, t)
      ensures attempt <= 1 ==> (r.None? <==> !CanServeUnused(Net(), start, bounds, t, used))
      ensures attempt > 1 ==> (r.None? <==> !CanServe(Net(), start, bounds, t))
    {
      hide CountsHold, PathsHold, FlowHolds, NoBans, Feasible, PathHolds, WalkCost, Piped, UsedOf, PathNames.Join;
      assert used == UsedOf(live);
      if start !in graph {
        return None;
      }
      var thetaL := ThetaL(bounds, t);
      var hit, arcs := DfsPathSearch(Net(), start, t, thetaL, used, attempt <= 1, attempt > 1);
      if hit.None? {
        return None;
      }
      var p := PathWithInfo(hit.value.path, Piped(hit.value.path), t, hit.value.latency);
      assert FoundBy(Net(), start, bounds, p, arcs);
      FoundPathHolds(TheJob(), graph, p, arcs);
      return Some(p);
    }

    /** A new path joins the list and takes its unit of flow. */
    method Add(p: PathWithInfo)
      requires Valid() && PathHolds(TheJob(), p) && Key(p) !in used
      modifies this`graph, this`live, this`used, this`destFlowCount
      ensures Valid() && live == old(live) + [p]
      ensures Shifted(old(graph), graph, p.path, |p.path|, true)
      ensures NoBans(old(graph)) ==> NoBans(graph)
    {
      hide Books, Shifted, NoDup, NoBans, PathNames.Join, JobHolds, Walked;
      var graph' := MoveFlow(graph, p.path, true);
      ShiftKeepsBans(graph, graph', p.path, |p.path|, true);
      AddKeepsBooks(TheJob(), graph, live, used, destFlowCount, p, graph');
      graph := graph';
      live := live + [p];
      used := used + {PathNames.Join(p.path)};
      destFlowCount := destFlowCount[p.dest := Count(destFlowCount, p.dest) + 1];
    }

    /** The oldest path leaves the list and gives its unit of flow back. */
    method DropOldest() returns (p: PathWithInfo)
      requires Valid() && live != []
      modifies this`graph, this`live, this`used, this`destFlowCount
      ensures Valid() && p == old(live)[0] && live == old(live)[1..]
      ensures Shifted(old(graph), graph, p.path, |p.path|, false)
      ensures NoBans(old(graph)) ==> NoBans(graph)
    {
      hide Books, Shifted, NoDup, NoBans, PathNames.Join, FlowHolds, JobHolds;
      p := live[0];
      FirstIsSimple();
      var graph' := MoveFlow(graph, p.path, false);
      ShiftKeepsBans(graph, graph', p.path, |p.path|, false);
      DropKeepsBooks(TheJob(), graph, live, used, destFlowCount, graph');
      graph := graph';
      live := live[1..];
      used := used - {PathNames.Join(p.path)};
      destFlowCount := destFlowCount[p.dest := Count(destFlowCount, p.dest) - 1];
    }

    lemma FirstIsSimple()
      requires Valid() && live != []
      ensures NoDup(live[0].path)
    {
      hide NoDup, Walked;
      assert PathHolds(TheJob(), live[0]);
    }

    lemma BookFacts()
      requires Valid()
      ensures used == UsedOf(live) && CountsHold(destFlowCount, live)
      ensures NoBans(graph) ==> graph == Reflow(idle, live)
    {
      hide PathsHold, FlowsOf, NoBans, FlowHolds;
      if NoBans(graph) {
        GraphIsReflow(idle, graph, live);
      }
    }

    // ---------- Filling the quotas ----------

    /** Look for up to two paths to one destination, in at most twenty attempts; an attempt
        that finds a path already in use is spent. */
    method FillDestination(end: Node)
      requires Valid() && NoBans(graph) && end in ends
      modifies this`graph, this`live, this`used, this`destFlowCount
      ensures Valid() && NoBans(graph) && Served(TheJob(), end, old(live), live)
    {
      hide Books, JobHolds, Shifted, PathHolds, NoBans, FoundIn, CanServe, CanServeUnused, CanServeUsed, Reflow, UsedOf, NewPath, GivenUp, Key;
      var maxAttempts := FLOWS_PER_DEST * 10;
      var attemptCount := 0;
      var i := 0;
      BookFacts();
      while i < FLOWS_PER_DEST
        invariant Valid() && NoBans(graph) && 0 <= i <= FLOWS_PER_DEST && i <= attemptCount <= maxAttempts
        invariant old(live) <= live && |live| == |old(live)| + i && (i == 0 <==> attemptCount == 0)
        invariant graph == Reflow(idle, live)
        invariant forall k :: |old(live)| <= k < |live| ==>
                    live[k].dest == end && NewPath(TheJob(), Reflow(idle, live[..k]), live[..k], k - |old(live)| + 1, live[k])
        invariant attemptCount > i == 1 ==> GivenUp(TheJob(), graph, live, 2, end)
        decreases maxAttempts - attemptCount
      {
        attemptCount := attemptCount + 1;
        if attemptCount > maxAttempts {
          break;
        }
        var pathInfo := Find(end, attemptCount);
        LaterAttempts(TheJob(), graph, live, attemptCount, end);
        if pathInfo.None? {
          break;
        }
        var pathStr := PathNames.Join(pathInfo.value.path);
        assert pathStr == Key(pathInfo.value) by { KeyIs(pathInfo.value); }
        if pathStr in used {
          continue;
        }
        LaterFinds(TheJob(), graph, live, attemptCount, pathInfo.value);
        ghost var before := live;
        Add(pathInfo.value);
        BookFacts();
        assert live[..|before|] == before;
        assert forall k :: |old(live)| <= k < |before| ==> live[k] == before[k] && live[..k] == before[..k];
        i := i + 1;
      }
    }

    /** The first phase: every requested destination in turn.  It ends without a path only
        if no destination can be served at all. */
    method Fill() returns (ghost lists: seq<seq<PathWithInfo>>)
      requires Valid() && NoBans(graph) && live == []
      modifies this`graph, this`live, this`used, this`destFlowCount
      ensures Valid() && NoBans(graph) && QuotaHolds(live, multiset(ends))
      ensures Filled(TheJob(), lists) && live == lists[|ends|]
    {
      hide Books, JobHolds, NoBans, DestBag, Served;
      lists := [[]];
      NoQuota();
      for k := 0 to |ends|
        invariant Valid() && NoBans(graph) && QuotaHolds(live, multiset(ends[..k]))
        invariant |lists| == k + 1 && lists[0] == [] && lists[k] == live
        invariant forall j :: 0 <= j < k ==> Served(TheJob(), ends[j], lists[j], lists[j + 1])
      {
        ghost var before := live;
        FillDestination(ends[k]);
        ServedQuota(TheJob(), ends[k], before, live, multiset(ends[..k]));
        assert ends[..k + 1] == ends[..k] + [ends[k]];
        lists := lists + [live];
      }
      assert ends[..|ends|] == ends;
    }

    // ---------- The carousel ----------

    /** The second phase: the older half of the paths is retired. */
    method RetireHalf()
      requires Valid() && NoBans(graph) && QuotaHolds(live, multiset(ends))
      modifies this`graph, this`live, this`used, this`destFlowCount
      ensures Valid() && NoBans(graph) && QuotaHolds(live, multiset(ends))
      ensures live == old(live)[|old(live)| / 2..]
    {
      hide Books, JobHolds, NoBans, Shifted;
      var removeNum := |live| / 2;
      for i := 0 to removeNum
        invariant Valid() && NoBans(graph) && QuotaHolds(live, multiset(ends))
        invariant live == old(live)[i..]
      {
        DropKeepsQuota(live, multiset(ends));
        var _ := DropOldest();
      }
    }

    /** One turn: the oldest path goes, the edges of the most frequent path and the first
        edge of the retired one are banned, and the destinations below their quota are
        tried in some order until one gets a new path.  No ban outlives the turn. */
    method Turn(acc: PathAccumulator, attempt: nat)
      requires Valid() && NoBans(graph) && QuotaHolds(live, multiset(ends)) && live != [] && acc.Valid()
      modifies this`graph, this`live, this`used, this`destFlowCount, acc
      ensures Valid() && NoBans(graph) && QuotaHolds(live, multiset(ends)) && acc.Valid()
      ensures Turned(TheJob(), old(acc.hist), attempt, old(live), live)
      ensures acc.hist == old(acc.hist) + Appended(old(live), live)
    {
      hide Books, JobHolds, NoBans, Shifted, QuotaHolds, SameFlows, Reflow, Banned, Replaced;
      DropKeepsQuota(live, multiset(ends));
      var oldest := DropOldest();
      BookFacts();
      Ban(acc, oldest);
      Replace(acc, attempt);
      UnbanKeepsBooks();
      graph := UnbanAll(graph);
    }

    /** Try the destinations below their quota, in some order, until one gets a new path. */
    method Replace(acc: PathAccumulator, attempt: nat)
      requires Valid() && QuotaHolds(live, multiset(ends)) && acc.Valid()
      modifies this`graph, this`live, this`used, this`destFlowCount, acc
      ensures Valid() && QuotaHolds(live, multiset(ends)) && acc.Valid()
      ensures Replaced(TheJob(), old(graph), attempt, old(live), live)
      ensures if live == old(live) then acc.hist == old(acc.hist)
              else |live| == |old(live)| + 1 && acc.hist == old(acc.hist) + [live[|live| - 1]]
    {
      hide Books, JobHolds, Shifted, QuotaHolds, PathHolds, FoundIn, NewPath, GivenUp, CanServe, CanServeUnused, NoBans, DestBag, UsedOf, Key;
      BookFacts();
      var shuffledEnds := Permute(ends);
      var k := 0;
      while k < |shuffledEnds|
        invariant 0 <= k <= |shuffledEnds|
        invariant Valid() && QuotaHolds(live, multiset(ends)) && acc.Valid() && acc.hist == old(acc.hist)
        invariant live == old(live) && graph == old(graph) && used == old(used) && destFlowCount == old(destFlowCount)
        invariant forall j :: 0 <= j < k && Count(destFlowCount, shuffledEnds[j]) < FLOWS_PER_DEST ==>
                    GivenUp(TheJob(), graph, live, attempt, shuffledEnds[j])
      {
        var end := shuffledEnds[k];
        if Count(destFlowCount, end) < FLOWS_PER_DEST {
          var found := Find(end, attempt);
          if found.Some? {
            KeyIs(found.value);
            if PathNames.Join(found.value.path) !in used {
              AddKeepsQuota(destFlowCount, live, ends, found.value);
              Add(found.value);
              acc.AddPath(found.value);
              assert live[..|old(live)|] == old(live);
              return;
            }
          }
        }
        k := k + 1;
      }
      assert forall d :: d in ends ==> d in shuffledEnds;
    }

    /** The edges of the most frequent path and the first edge of the retired one are banned;
        no flow changes. */
    method Ban(acc: PathAccumulator, oldest: PathWithInfo)
      requires Valid() && NoBans(graph) && acc.Valid()
      modifies this`graph
      ensures Valid() && Banned(acc.hist, old(graph), oldest, graph)
    {
      hide UsedHolds, CountsHold, PathsHold, FlowHolds, OnHop, JobHolds, FlowsOf, MostFrequent, BanGraph;
      var g := graph;
      SameFlowsRefl(g);
      NoHops();
      ghost var hot := [];
      var freqPath := acc.GetMostFrequent();
      if freqPath.Some? {
        g := BanPathEdges(g, freqPath.value.path);
        hot := freqPath.value.path;
      }
      if |oldest.path| >= 2 {
        BanEdgeKeepsFlows(g, oldest.path[0], oldest.path[1]);
        SameFlowsTrans(graph, g, BanEdge(g, oldest.path[0], oldest.path[1]));
        g := BanEdge(g, oldest.path[0], oldest.path[1]);
      }
      SameFlowsKeep(idle, graph, g, live);
      BannedGraph(graph, g, hot, oldest.path);
      graph := g;
    }

    lemma UnbanKeepsBooks()
      requires Valid()
      ensures Books(TheJob(), UnbanAll(graph), live, used, destFlowCount) && NoBans(UnbanAll(graph))
    {
      SameFlowsKeep(idle, graph, UnbanAll(graph), live);
    }
  }

  lemma KeyIs(p: PathWithInfo)
    ensures Key(p) == PathNames.Join(p.path)
  {
  }

  lemma NoQuota()
    ensures forall s: seq<Node> :: QuotaHolds([], multiset(s[..0]))
  {
  }

  /** All attempts after the first are alike. */
  lemma LaterAttempts(job: Job, graph: FlowGraph, live: seq<PathWithInfo>, attempt: nat, d: Node)
    ensures attempt > 1 ==> (GivenUp(job, graph, live, attempt, d) <==> GivenUp(job, graph, live, 2, d))
  {
  }

  lemma LaterFinds(job: Job, graph: FlowGraph, live: seq<PathWithInfo>, attempt: nat, p: PathWithInfo)
    ensures attempt > 1 ==> (NewPath(job, graph, live, attempt, p) <==> NewPath(job, graph, live, 2, p))
  {
  }

  lemma SameFlowsRefl(g: FlowGraph)
    ensures SameFlows(g, g)
  {
  }

  lemma DropKeepsQuota(live: seq<PathWithInfo>, asked: multiset<Node>)
    requires QuotaHolds(live, asked) && live != []
    ensures QuotaHolds(live[1..], asked)
  {
    DestBagFront(live);
    forall d
      ensures DestBag(live[1..])[d] <= FLOWS_PER_DEST * asked[d]
    {
      assert DestBag(live)[d] <= FLOWS_PER_DEST * asked[d];
    }
  }

  /** A destination below two paths may take one more. */
  lemma AddKeepsQuota(counts: map<Node, int>, live: seq<PathWithInfo>, ends: seq<Node>, p: PathWithInfo)
    requires QuotaHolds(live, multiset(ends)) && CountsHold(counts, live) && p.dest in ends && Count(counts, p.dest) < FLOWS_PER_DEST
    ensures QuotaHolds(live + [p], multiset(ends))
  {
    DestBagBack(live, p);
    assert p.dest in multiset(ends);
    forall d
      ensures DestBag(live + [p])[d] <= FLOWS_PER_DEST * multiset(ends)[d]
    {
      assert DestBag(live)[d] <= FLOWS_PER_DEST * multiset(ends)[d];
      assert Count(counts, d) == DestBag(live)[d];
    }
  }

  /** Any order of the destinations. */
  method Permute(ends: seq<Node>) returns (r: seq<Node>)
    ensures multiset(r) == multiset(ends) && forall d :: d in r <==> d in ends
  {
    var todo := multiset(ends);
    r := [];
    while todo != multiset{}
      invariant multiset(r) + todo == multiset(ends)
      decreases |todo|
    {
      var d :| d in todo;
      todo := todo - multiset{d};
      r := r + [d];
    }
    assert forall d :: d in r <==> d in multiset(r);
  }

  // ---------- How often a path was chosen ----------

  /** How often a path written like this was chosen. */
  ghost function Freq(hist: seq<PathWithInfo>, k: string): nat {
    if hist == [] then 0 else Freq(hist[..|hist| - 1], k) + (if hist[|hist| - 1].pathStr == k then 1 else 0)
  }

  /** The last path chosen that is written like this one is this one. */
  ghost predicate Latest(hist: seq<PathWithInfo>, p: PathWithInfo) {
    exists i :: 0 <= i < |hist| && hist[i] == p && forall j :: i < j < |hist| ==> hist[j].pathStr != p.pathStr
  }

  /** No path was chosen more often. */
  ghost predicate MostFrequent(hist: seq<PathWithInfo>, p: PathWithInfo) {
    Latest(hist, p) && forall q :: q in hist ==> Freq(hist, q.pathStr) <= Freq(hist, p.pathStr)
  }

  /** The tables agree with the history. */
  ghost predicate Tallied(hist: seq<PathWithInfo>, paths: map<string, PathWithInfo>, freq: map<string, nat>) {
    && paths.Keys == freq.Keys && (forall q :: q in hist ==> q.pathStr in freq)
    && forall k :: k in freq ==> freq[k] == Freq(hist, k) > 0 && paths[k].pathStr == k && Latest(hist, paths[k])
  }

  lemma LatestStays(hist: seq<PathWithInfo>, q: PathWithInfo, p: PathWithInfo)
    requires Latest(hist, q) && q.pathStr != p.pathStr
    ensures Latest(hist + [p], q)
  {
    var i :| 0 <= i < |hist| && hist[i] == q && forall j :: i < j < |hist| ==> hist[j].pathStr != q.pathStr;
    assert (hist + [p])[i] == q;
  }

  lemma FreqSnoc(hist: seq<PathWithInfo>, p: PathWithInfo, k: string)
    ensures Freq(hist + [p], k) == Freq(hist, k) + (if p.pathStr == k then 1 else 0)
  {
    assert (hist + [p])[..|hist|] == hist;
  }

  lemma LatestIsLast(hist: seq<PathWithInfo>, p: PathWithInfo)
    ensures Latest(hist + [p], p)
  {
    assert (hist + [p])[|hist|] == p;
  }

  lemma AddTallied(hist: seq<PathWithInfo>, paths: map<string, PathWithInfo>, freq: map<string, nat>, p: PathWithInfo)
    requires Tallied(hist, paths, freq)
    ensures Tallied(hist + [p], paths[p.pathStr := p], freq[p.pathStr := (if p.pathStr in freq then freq[p.pathStr] else 0) + 1])
  {
    hide Freq, Latest;
    if p.pathStr !in freq {
      NeverChosen(hist, p.pathStr);
    }
    LatestIsLast(hist, p);
    FreqSnoc(hist, p, p.pathStr);
    forall k | k in freq && k != p.pathStr
      ensures Latest(hist + [p], paths[k]) && Freq(hist + [p], k) == Freq(hist, k)
    {
      LatestStays(hist, paths[k], p);
      FreqSnoc(hist, p, k);
    }
  }

  lemma {:induction false} NeverChosen(hist: seq<PathWithInfo>, k: string)
    requires forall q :: q in hist ==> q.pathStr != k
    ensures Freq(hist, k) == 0
  {
    if hist != [] {
      NeverChosen(hist[..|hist| - 1], k);
    }
  }

  // ---------- Counting by path ----------

  /** The paths chosen, with how often each was. */
  ghost function PathBag(hist: seq<PathWithInfo>): multiset<seq<Node>> {
    multiset(seq(|hist|, i requires 0 <= i < |hist| => hist[i].path))
  }

  lemma PathBagSnoc(hist: seq<PathWithInfo>)
    requires hist != []
    ensures PathBag(hist) == PathBag(hist[..|hist| - 1]) + multiset{hist[|hist| - 1].path}
  {
    var n := |hist| - 1;
    var a := seq(|hist|, i requires 0 <= i < |hist| => hist[i].path);
    assert a == seq(n, i requires 0 <= i < n => hist[..n][i].path) + [hist[n].path];
  }

  ghost predicate BarFree(path: seq<Node>) {
    forall h :: h in path ==> '|' !in h
  }

  /** The keys of these paths are written from their hops, of which none holds a bar. */
  ghost predicate Written(hist: seq<PathWithInfo>) {
    forall p :: p in hist ==> p.path != [] && BarFree(p.path) && p.pathStr == Piped(p.path)
  }

  /** A joined path starts with its first hop, and a bar follows exactly if there are more. */
  lemma PipedHead(path: seq<Node>)
    requires path != []
    ensures var s, n := Piped(path), |path[0]|;
            && n <= |s| && s[..n] == path[0] && (n < |s| <==> |path| > 1)
            && (n < |s| ==> s[n] == '|' && s[n + 1..] == Piped(path[1..]))
            && (BarFree(path) ==> forall k :: 0 <= k < n ==> s[k] != '|')
  {
    assert path[0] in path;
    assert forall k :: 0 <= k < |path[0]| ==> Piped(path)[k] == path[0][k] && path[0][k] in path[0];
  }

  /** The bars tell how long the first hop is. */
  lemma FirstHopAgrees(a: seq<Node>, b: seq<Node>)
    requires a != [] && b != [] && BarFree(a) && BarFree(b) && Piped(a) == Piped(b)
    ensures a[0] == b[0]
  {
    hide Piped;
    PipedHead(a);
    PipedHead(b);
    assert |a[0]| == |b[0]|;
  }

  /** Comparing the keys of paths is comparing the paths. */
  lemma {:induction false} PipedIsInjective(a: seq<Node>, b: seq<Node>)
    requires a != [] && b != [] && BarFree(a) && BarFree(b)
    ensures Piped(a) == Piped(b) <==> a == b
  {
    hide Piped;
    if Piped(a) == Piped(b) {
      PipedHead(a);
      PipedHead(b);
      FirstHopAgrees(a, b);
      if |a| > 1 {
        PipedIsInjective(a[1..], b[1..]);
        assert a == [a[0]] + a[1..] && b == [b[0]] + b[1..];
      }
    }
  }

  /** So the tally counts paths. */
  lemma {:induction false} FreqIsCount(hist: seq<PathWithInfo>, path: seq<Node>)
    requires Written(hist) && path != [] && BarFree(path)
    ensures Freq(hist, Piped(path)) == PathBag(hist)[path]
  {
    hide Piped;
    if hist != [] {
      var n := |hist| - 1;
      FreqIsCount(hist[..n], path);
      PathBagSnoc(hist);
      assert hist[n] in hist;
      PipedIsInjective(hist[n].path, path);
    }
  }

  /** No path was chosen more often than this one, which was chosen. */
  ghost predicate MostChosen(hist: seq<PathWithInfo>, path: seq<Node>) {
    path in PathBag(hist) && forall q :: PathBag(hist)[q] <= PathBag(hist)[path]
  }

  lemma InBag(hist: seq<PathWithInfo>, path: seq<Node>)
    ensures path in PathBag(hist) <==> exists p :: p in hist && p.path == path
  {
    var a := seq(|hist|, i requires 0 <= i < |hist| => hist[i].path);
    assert path in PathBag(hist) <==> path in a;
    if path in a {
      var i :| 0 <= i < |a| && a[i] == path;
      assert hist[i] in hist;
    }
    if p :| p in hist && p.path == path {
      var i :| 0 <= i < |hist| && hist[i] == p;
      assert a[i] == path;
    }
  }

  lemma MostFrequentIsMostChosen(hist: seq<PathWithInfo>, hot: PathWithInfo)
    requires Written(hist) && MostFrequent(hist, hot)
    ensures MostChosen(hist, hot.path)
  {
    hide Piped, Freq, Latest, PathBag;
    LatestIsThere(hist, hot);
    InBag(hist, hot.path);
    FreqIsCount(hist, hot.path);
    forall q
      ensures PathBag(hist)[q] <= PathBag(hist)[hot.path]
    {
      InBag(hist, q);
      if p :| p in hist && p.path == q {
        FreqIsCount(hist, q);
      }
    }
  }

  /** The bans of a turn lie on a path that was chosen as often as any. */
  lemma BannedIsMostChosen(hist: seq<PathWithInfo>, g: FlowGraph, retired: PathWithInfo, g': FlowGraph) returns (hot: seq<Node>)
    requires Written(hist) && hist != [] && Banned(hist, g, retired, g')
    ensures MostChosen(hist, hot) && g' == BanGraph(g, hot, retired.path)
  {
    hide MostFrequent, Written, BanGraph, MostChosen;
    var p :| MostFrequent(hist, p) && g' == BanGraph(g, p.path, retired.path);
    MostFrequentIsMostChosen(hist, p);
    hot := p.path;
  }

  /** No name in the network of this job holds a bar. */
  ghost predicate NamesBarFree(job: Job) {
    '|' !in job.start && forall u, v :: HasEdge(job.idle, u, v) ==> '|' !in u && '|' !in v
  }

  lemma PathIsBarFree(job: Job, p: PathWithInfo)
    requires PathHolds(job, p) && NamesBarFree(job)
    ensures p.path != [] && BarFree(p.path) && p.pathStr == Piped(p.path)
  {
    hide NoDup, Piped, WalkCost, ThetaL, Latency;
    var arcs: seq<Arc> :| Walked(job, p, arcs);
    forall h | h in p.path
      ensures '|' !in h
    {
      var i :| 0 <= i < |p.path| && p.path[i] == h;
      if i > 0 {
        assert Priced(job, Hops(job.start, arcs)[i - 1], arcs[i - 1]);
        assert Hops(job.start, arcs)[(i - 1) + 1] == arcs[i - 1].to;
      }
    }
  }

  class PathAccumulator {
    var paths: map<string, PathWithInfo>
    var freq: map<string, nat>
    ghost var hist: seq<PathWithInfo>

    ghost predicate Valid()
      reads this
    {
      Tallied(hist, paths, freq)
    }

    constructor ()
      ensures Valid() && hist == []
    {
      paths, freq, hist := map[], map[], [];
    }

    method AddPath(pi: PathWithInfo)
      requires Valid()
      modifies this
      ensures Valid() && hist == old(hist) + [pi]
    {
      hide Tallied;
      AddTallied(hist, paths, freq, pi);
      paths := paths[pi.pathStr := pi];
      freq := freq[pi.pathStr := (if pi.pathStr in freq then freq[pi.pathStr] else 0) + 1];
      hist := hist + [pi];
    }

    /** A path of greatest frequency, whatever order the map is read in. */
    method GetMostFrequent() returns (best: Option<PathWithInfo>)
      requires Valid()
      ensures best.None? <==> hist == []
      ensures best.Some? ==> MostFrequent(hist, best.value)
    {
      hide Freq, Latest;
      var maxCnt := 0;
      best := None;
      var todo := freq.Keys;
      while todo != {}
        invariant todo <= freq.Keys
        invariant best.None? ==> maxCnt == 0 && todo == freq.Keys
        invariant best.Some? ==> best.value.pathStr in freq && paths[best.value.pathStr] == best.value && freq[best.value.pathStr] == maxCnt
        invariant forall k :: k in freq && k !in todo ==> freq[k] <= maxCnt
        decreases todo
      {
        var pathStr :| pathStr in todo;
        todo := todo - {pathStr};
        if freq[pathStr] > maxCnt {
          maxCnt := freq[pathStr];
          best := Some(paths[pathStr]);
        }
      }
      if best.None? {
        assert freq.Keys == {};
        SomeChosen(hist);
      } else {
        LatestIsThere(hist, best.value);
      }
    }
  }

  lemma SomeChosen(hist: seq<PathWithInfo>)
    ensures hist != [] ==> exists q :: q in hist
  {
    if hist != [] {
      assert hist[0] in hist;
    }
  }

  lemma LatestIsThere(hist: seq<PathWithInfo>, p: PathWithInfo)
    requires Latest(hist, p)
    ensures p in hist
  {
  }
}
