/** `FlowOptimizationSolver.ComputingMulti` end to end: latency bounds from the k-shortest
    solver, the residual network, the carousel, and the best list it passed through. */
module CarouselSolver {
  import opened Optional
  import opened Overlay
  import opened ResidualSearch
  import opened CarouselState
  import opened CarouselScore
  import opened Carousel
  import EarlyCutDijkstra
  import PathNames
  import YenPaths

  const TU := 60.0
  const EPSILON := 0.001
  const KSP_K := 3

  // ---------- Capacity ----------

  function Spread(uhot: real): (d: real)
    ensures d > 0.0
  {
    if uhot - TU < EPSILON then EPSILON else uhot - TU
  }

  /** `computeThetaA`: the share of capacity left at a load; full up to the safe load, none
      from the hot load on. */
  function ThetaA(load: real, uhot: real): (r: real)
    ensures 0.0 <= r <= 1.0
    ensures r == 1.0 <==> load <= TU
    ensures r == 0.0 <==> load - TU >= Spread(uhot)
  {
    var numerator := if load - TU < 0.0 then 0.0 else load - TU;
    var u := numerator / Spread(uhot);
    Fraction(numerator, Spread(uhot));
    1.0 - (if u > 1.0 then 1.0 else u)
  }

  lemma Fraction(n: real, d: real)
    requires n >= 0.0 && d > 0.0
    ensures n / d >= 0.0 && (n / d == 0.0 <==> n == 0.0) && (n / d >= 1.0 <==> n >= d)
  {
    var q := n / d;
    assert q * d == n;
    assert q >= 1.0 ==> q * d >= d;
    assert q < 1.0 ==> q * d < d;
    assert q < 0.0 ==> q * d < 0.0;
  }

  /** More load never leaves more capacity. */
  lemma ThetaAFalls(load: real, load': real, uhot: real)
    requires load <= load'
    ensures ThetaA(load', uhot) <= ThetaA(load, uhot)
  {
    var d := Spread(uhot);
    var n, n' := if load - TU < 0.0 then 0.0 else load - TU, if load' - TU < 0.0 then 0.0 else load' - TU;
    assert n <= n';
    assert n / d <= n' / d by {
      Fraction(n' - n, d);
      assert n' / d == n / d + (n' - n) / d;
    }
  }

  /** Between the safe and the hot load equal steps of load take equal shares of capacity, and
      all of it on the way; a hot load hardly above the safe one, or below it, is a cliff. */
  lemma ThetaAIsLinear(load: real, step: real, uhot: real)
    ensures 60.0 <= load && step >= 0.0 && load + step <= uhot && 60.001 <= uhot ==>
              (ThetaA(load, uhot) - ThetaA(load + step, uhot)) * (uhot - 60.0) == step
    ensures ThetaA(load, uhot) == 0.0 <==> load >= uhot && load >= 60.001
  {
    hide ThetaA;
    if 60.0 <= load && step >= 0.0 && load + step <= uhot && 60.001 <= uhot {
      ThetaABetween(load, uhot);
      ThetaABetween(load + step, uhot);
      Difference(1.0 - ThetaA(load, uhot), 1.0 - ThetaA(load + step, uhot), uhot - 60.0);
    }
  }

  lemma Difference(x: real, y: real, d: real)
    ensures (y - x) * d == y * d - x * d
  {
  }

  lemma ThetaABetween(load: real, uhot: real)
    requires 60.0 <= load <= uhot && 60.001 <= uhot
    ensures (1.0 - ThetaA(load, uhot)) * (uhot - 60.0) == load - 60.0
  {
    var d := uhot - 60.0;
    var q := (load - 60.0) / d;
    assert q * d == load - 60.0;
    assert q > 1.0 ==> q * d > d;
  }

  // ---------- The network ----------

  /** The last edge listed from u to v is number i. */
  ghost predicate LastOf(edges: seq<Edge>, i: int, u: Node, v: Node) {
    && 0 <= i < |edges| && edges[i].source == u && edges[i].dest == v
    && forall j :: i < j < |edges| ==> !(edges[j].source == u && edges[j].dest == v)
  }

  function FreshFlow(e: Edge, uhot: real, cap: real): EdgeFlow {
    var thetaA := ThetaA(e.load, uhot);
    EdgeFlow(0.0, cap, thetaA, thetaA * cap, false, thetaA * cap)
  }

  /** The network has an edge for each pair of nodes listed, a fresh copy of the last one. */
  ghost predicate FreshEdges(edges: seq<Edge>, uhot: real, cap: real, g: FlowGraph) {
    && (forall e :: e in edges ==> HasEdge(g, e.source, e.dest))
    && (forall u :: u in g ==> g[u] != map[])
    && FreshCopies(edges, uhot, cap, g)
  }

  ghost predicate FreshCopies(edges: seq<Edge>, uhot: real, cap: real, g: FlowGraph) {
    forall u, v :: HasEdge(g, u, v) ==> exists i :: LastOf(edges, i, u, v) && g[u][v] == FreshFlow(edges[i], uhot, cap)
  }

  lemma FreshFlowHolds(e: Edge, uhot: real, cap: real)
    requires cap >= 0.0
    ensures EdgeHolds(FreshFlow(e, uhot, cap), 0, cap) && !FreshFlow(e, uhot, cap).banned
    ensures cap > 0.0 && e.load - TU < Spread(uhot) ==> FreshFlow(e, uhot, cap).residual > 0.0
  {
    var r := ThetaA(e.load, uhot);
    assert 0.0 <= r * cap <= 1.0 * cap;
    assert cap > 0.0 && r > 0.0 ==> r * cap > 0.0;
  }

  /** The capacity an edge starts with: all of it up to the safe load, none from the hot load
      on, and in between the share its load leaves. */
  lemma CapacityByLoad(e: Edge, e': Edge, uhot: real, cap: real)
    requires cap > 0.0
    ensures FreshFlow(e, uhot, cap).effCap == cap <==> e.load <= 60.0
    ensures FreshFlow(e, uhot, cap).effCap == 0.0 <==> e.load >= uhot && e.load >= 60.001
    ensures 60.0 <= e.load <= e'.load <= uhot && 60.001 <= uhot ==>
              (FreshFlow(e, uhot, cap).effCap - FreshFlow(e', uhot, cap).effCap) * (uhot - 60.0) == cap * (e'.load - e.load)
  {
    hide ThetaA;
    var r, r' := ThetaA(e.load, uhot), ThetaA(e'.load, uhot);
    ThetaAIsLinear(e.load, e'.load - e.load, uhot);
    assert r < 1.0 ==> r * cap < cap;
    assert r > 0.0 ==> r * cap > 0.0;
    assert (r * cap - r' * cap) * (uhot - 60.0) == cap * ((r - r') * (uhot - 60.0));
  }

  /** `buildResidualGraphWithCapacity`. */
  method BuildResidualGraph(edges: seq<Edge>, uhot: real, cap: real) returns (g: FlowGraph)
    requires cap >= 0.0
    ensures FreshEdges(edges, uhot, cap, g) && FlowHolds(g, [], cap) && NoBans(g)
  {
    hide FreshFlow, FreshCopies;
    g := map[];
    NoCopies(uhot, cap);
    for i := 0 to |edges|
      invariant FreshEdges(edges[..i], uhot, cap, g)
    {
      ghost var before := g;
      var e := edges[i];
      var row := if e.source in g then g[e.source] else map[];
      g := g[e.source := row[e.dest := FreshFlow(e, uhot, cap)]];
      assert edges[..i + 1] == edges[..i] + [e];
      EdgeAdded(edges[..i], e, uhot, cap, before, g);
    }
    assert edges[..|edges|] == edges;
    FreshGraphHolds(edges, uhot, cap, g);
  }

  lemma FreshGraphHolds(edges: seq<Edge>, uhot: real, cap: real, g: FlowGraph)
    requires FreshEdges(edges, uhot, cap, g) && cap >= 0.0
    ensures FlowHolds(g, [], cap) && NoBans(g)
  {
    hide FreshFlow;
    forall u, v | HasEdge(g, u, v)
      ensures EdgeHolds(g[u][v], Uses([], u, v), cap) && !g[u][v].banned
    {
      var i :| LastOf(edges, i, u, v) && g[u][v] == FreshFlow(edges[i], uhot, cap);
      FreshFlowHolds(edges[i], uhot, cap);
    }
  }

  lemma NoCopies(uhot: real, cap: real)
    ensures FreshCopies([], uhot, cap, map[])
  {
  }

  lemma EdgeAdded(edges: seq<Edge>, e: Edge, uhot: real, cap: real, g: FlowGraph, g': FlowGraph)
    requires FreshEdges(edges, uhot, cap, g)
    requires g' == g[e.source := (if e.source in g then g[e.source] else map[])[e.dest := FreshFlow(e, uhot, cap)]]
    ensures FreshEdges(edges + [e], uhot, cap, g')
  {
    hide FreshFlow, FreshCopies;
    CopyAdded(edges, e, uhot, cap, g, g');
    assert e.dest in g'[e.source];
  }

  lemma CopyAdded(edges: seq<Edge>, e: Edge, uhot: real, cap: real, g: FlowGraph, g': FlowGraph)
    requires FreshCopies(edges, uhot, cap, g)
    requires g' == g[e.source := (if e.source in g then g[e.source] else map[])[e.dest := FreshFlow(e, uhot, cap)]]
    ensures FreshCopies(edges + [e], uhot, cap, g')
  {
    hide FreshFlow;
    var all := edges + [e];
    forall u, v | HasEdge(g', u, v)
      ensures exists i :: LastOf(all, i, u, v) && g'[u][v] == FreshFlow(all[i], uhot, cap)
    {
      if u == e.source && v == e.dest {
        assert LastOf(all, |edges|, u, v);
      } else {
        assert HasEdge(g, u, v) && g'[u][v] == g[u][v];
        var i :| LastOf(edges, i, u, v) && g[u][v] == FreshFlow(edges[i], uhot, cap);
        LastStays(edges, e, i, u, v);
      }
    }
  }

  lemma LastStays(edges: seq<Edge>, e: Edge, i: int, u: Node, v: Node)
    requires LastOf(edges, i, u, v) && !(e.source == u && e.dest == v)
    ensures LastOf(edges + [e], i, u, v)
  {
  }

  /** The last edge listed under this key is number i. */
  ghost predicate LastUnder(edges: seq<Edge>, i: int, k: string) {
    && 0 <= i < |edges| && PathNames.EdgeKey(edges[i].source, edges[i].dest) == k
    && forall j :: i < j < |edges| ==> PathNames.EdgeKey(edges[j].source, edges[j].dest) != k
  }

  /** Under the key of each edge stands the latency of the last edge with that key. */
  ghost predicate LatenciesHold(edges: seq<Edge>, lat: map<string, real>) {
    && (forall e :: e in edges ==> PathNames.EdgeKey(e.source, e.dest) in lat)
    && (forall k :: k in lat ==> exists i :: LastUnder(edges, i, k) && edges[i].latency == lat[k])
  }

  method BuildLatencies(edges: seq<Edge>) returns (lat: map<string, real>)
    ensures LatenciesHold(edges, lat)
  {
    lat := map[];
    for i := 0 to |edges|
      invariant LatenciesHold(edges[..i], lat)
    {
      assert edges[..i + 1] == edges[..i] + [edges[i]];
      LatencyAdded(edges[..i], edges[i], lat);
      lat := lat[PathNames.EdgeKey(edges[i].source, edges[i].dest) := edges[i].latency];
    }
    assert edges[..|edges|] == edges;
  }

  lemma LatencyAdded(edges: seq<Edge>, e: Edge, lat: map<string, real>)
    requires LatenciesHold(edges, lat)
    ensures LatenciesHold(edges + [e], lat[PathNames.EdgeKey(e.source, e.dest) := e.latency])
  {
    hide PathNames.EdgeKey;
    var all, key := edges + [e], PathNames.EdgeKey(e.source, e.dest);
    var lat' := lat[key := e.latency];
    forall k | k in lat'
      ensures exists i :: LastUnder(all, i, k) && all[i].latency == lat'[k]
    {
      if k == key {
        assert LastUnder(all, |edges|, k);
      } else {
        var i :| LastUnder(edges, i, k) && edges[i].latency == lat[k];
        assert LastUnder(all, i, k);
      }
    }
  }

  // ---------- Latency bounds ----------

  ghost function CostSum(paths: seq<EarlyCutDijkstra.Path>): real {
    if paths == [] then 0.0 else CostSum(paths[..|paths| - 1]) + paths[|paths| - 1].cost
  }

  /** The bound for a destination is one and a half times the average cost of the paths the
      k-shortest solver found, or the default if it found none. */
  ghost predicate BoundVia(edges: seq<Edge>, start: Node, d: Node, b: real, paths: seq<EarlyCutDijkstra.Path>) {
    var g := YenPaths.AdjacencyOf(edges);
    && (paths == [] <==> !Reachable(g, {}, start, d))
    && (paths == [] ==> b == DEFAULT_THETA_L)
    && (paths != [] ==>
          && |paths| <= KSP_K && YenPaths.AllSound(g, true, start, d, paths) && YenPaths.SortedByCost(paths) && YenPaths.Distinct(paths)
          && (|paths| < KSP_K ==> YenPaths.Complete(g, start, d, paths))
          && (YenPaths.CutIsHarmless(g, true, start, d) ==> YenPaths.Cheapest(g, true, start, d, paths))
          && b == CostSum(paths) / |paths| as real * 1.5)
  }

  ghost predicate BoundHolds(edges: seq<Edge>, start: Node, d: Node, b: real) {
    exists paths :: BoundVia(edges, start, d, b, paths)
  }

  ghost predicate BoundsHold(edges: seq<Edge>, start: Node, ends: seq<Node>, bounds: map<Node, real>) {
    forall d :: d in ends ==> d in bounds && BoundHolds(edges, start, d, bounds[d])
  }

  /** One destination of `computeThetaLForDestinations`. */
  method ComputeBound(edges: seq<Edge>, start: Node, d: Node) returns (b: real)
    requires YenPaths.Usable(edges, true)
    requires start in YenPaths.Endpoints(edges) && d in YenPaths.Endpoints(edges)
    ensures BoundHolds(edges, start, d, b)
  {
    hide YenPaths.Usable, YenPaths.Endpoints, YenPaths.AdjacencyOf, YenPaths.AllSound, Reachable, YenPaths.SortedByCost,
         YenPaths.Distinct, YenPaths.Complete, YenPaths.CutIsHarmless, YenPaths.Cheapest;
    var r := YenPaths.ComputeKShortest(edges, KSP_K, true, start, d);
    if r.None? {
      b := DEFAULT_THETA_L;
      assert BoundVia(edges, start, d, b, []);
      return;
    }
    var paths := r.value;
    var total := 0.0;
    for i := 0 to |paths|
      invariant total == CostSum(paths[..i])
    {
      total := total + paths[i].cost;
      assert paths[..i + 1][..i] == paths[..i];
    }
    assert paths[..|paths|] == paths;
    b := total / |paths| as real * 1.5;
    assert BoundVia(edges, start, d, b, paths);
  }

  /** `computeThetaLForDestinations`. */
  method ComputeBounds(edges: seq<Edge>, start: Node, ends: seq<Node>) returns (bounds: map<Node, real>)
    requires YenPaths.Usable(edges, true)
    requires start in YenPaths.Endpoints(edges) && forall d :: d in ends ==> d in YenPaths.Endpoints(edges)
    ensures BoundsHold(edges, start, ends, bounds)
  {
    hide YenPaths.Usable, YenPaths.Endpoints, BoundHolds;
    bounds := map[];
    for i := 0 to |ends|
      invariant BoundsHold(edges, start, ends[..i], bounds)
    {
      var b := ComputeBound(edges, start, ends[i]);
      bounds := bounds[ends[i] := b];
      assert forall d :: d in ends[..i + 1] <==> d in ends[..i] || d == ends[i];
    }
    assert ends[..|ends|] == ends;
  }

  lemma {:induction false} SumAtLeastFirst(paths: seq<EarlyCutDijkstra.Path>)
    requires paths != [] && YenPaths.SortedByCost(paths)
    ensures CostSum(paths) >= |paths| as real * paths[0].cost
  {
    if |paths| == 1 {
      assert paths[..0] == [];
    } else {
      SumAtLeastFirst(paths[..|paths| - 1]);
    }
  }

  lemma AverageAtLeast(sum: real, n: nat, x: real)
    requires n > 0 && sum >= n as real * x && x >= 0.0
    ensures sum / n as real * 1.5 >= x
  {
    var q := sum / n as real;
    assert q * n as real == sum;
    assert q < x ==> q * n as real < x * n as real;
  }

  /** The trail as residual arcs. */
  ghost function ArcsOf(es: seq<Edge>): seq<Arc> {
    seq(|es|, i requires 0 <= i < |es| => Arc(es[i].dest, es[i].latency, false))
  }

  lemma {:induction false} ArcsCost(es: seq<Edge>)
    ensures WalkCost(ArcsOf(es)) == Cost(true, es)
  {
    if es != [] {
      var n := |es| - 1;
      ArcsCost(es[..n]);
      assert ArcsOf(es)[..n] == ArcsOf(es[..n]);
    }
  }

  lemma ArcsHops(t: Trail, g: Adjacency)
    requires IsTrail(g, {}, t)
    ensures Hops(t.hops[0], ArcsOf(t.edges)) == t.hops
  {
    var h := Hops(t.hops[0], ArcsOf(t.edges));
    forall i | 0 <= i < |h|
      ensures h[i] == t.hops[i]
    {
      if i > 0 {
        assert t.edges[i - 1].dest == t.hops[(i - 1) + 1];
        assert h[(i - 1) + 1] == ArcsOf(t.edges)[i - 1].to;
      }
    }
  }

  /** What a call works on: the graph's nodes, the latencies and idle network of its edges,
      the destinations it knows, room for all their flows, and a bound for each of them. */
  ghost predicate JobOf(edges: seq<Edge>, uhot: real, start: Node, ends: seq<Node>, job: Job) {
    && job.nodes == YenPaths.Endpoints(edges) && LatenciesHold(edges, job.latencies) && job.start == start
    && job.ends == ValidEnds(edges, ends) && job.cap == (FLOWS_PER_DEST * |job.ends|) as real
    && FreshEdges(edges, uhot, job.cap, job.idle)
    && (start in YenPaths.Endpoints(edges) ==> BoundsHold(edges, start, job.ends, job.bounds))
  }

  /** Whatever flows, no search goes forward along an edge at the hot load or above it. */
  lemma HotEdgeIsClosed(edges: seq<Edge>, uhot: real, start: Node, ends: seq<Node>, job: Job, i: nat, u: Node, v: Node,
                        live: seq<PathWithInfo>, graph: FlowGraph, a: Arc)
    requires JobOf(edges, uhot, start, ends, job) && job.cap > 0.0 && LastOf(edges, i, u, v)
    requires edges[i].load >= uhot && edges[i].load >= 60.001 && FlowsOf(job.idle, graph, live)
    ensures !a.isRev && a.to == v ==> !IsArc(NetOf(job, graph), u, a)
  {
    hide ThetaA, FreshFlow, LatenciesHold, BoundsHold, YenPaths.Endpoints, ValidEnds, Latency, Uses;
    assert edges[i] in edges && HasEdge(job.idle, u, v);
    var j :| LastOf(edges, j, u, v) && job.idle[u][v] == FreshFlow(edges[j], uhot, job.cap);
    assert j == i;
    CapacityByLoad(edges[i], edges[i], uhot, job.cap);
    assert graph[u][v].(banned := false) == WithFlow(job.idle[u][v], Uses(live, u, v) as real);
  }

  lemma SameEdge(edges: seq<Edge>, e: Edge, e': Edge)
    requires YenPaths.OneEdgePerPair(YenPaths.AdjacencyOf(edges))
    requires e in edges && e' in edges && e.source == e'.source && e.dest == e'.dest
    ensures e == e'
  {
    YenPaths.AdjacencyAdjoins(edges);
    hide YenPaths.AdjacencyOf;
    assert e in Out(YenPaths.AdjacencyOf(edges), e.source) && e' in Out(YenPaths.AdjacencyOf(edges), e.source);
  }

  /** An edge that is not overloaded is a residual arc at its own latency. */
  lemma EdgeIsArc(edges: seq<Edge>, uhot: real, start: Node, ends: seq<Node>, job: Job, e: Edge)
    requires JobOf(edges, uhot, start, ends, job) && YenPaths.OneEdgePerPair(YenPaths.AdjacencyOf(edges)) && YenPaths.Usable(edges, true)
    requires job.cap > 0.0 && e in edges && e.load - TU < Spread(uhot)
    ensures IsArc(NetOf(job, job.idle), e.source, Arc(e.dest, e.latency, false))
  {
    hide YenPaths.Usable, YenPaths.Endpoints, YenPaths.AdjacencyOf, YenPaths.OneEdgePerPair, LatenciesHold, BoundsHold, Latency, FreshEdges, FreshFlow, Spread;
    FreshResidual(edges, uhot, job.cap, job.idle, e);
    KeyedLatency(edges, job.latencies, e);
  }

  lemma FreshResidual(edges: seq<Edge>, uhot: real, cap: real, graph: FlowGraph, e: Edge)
    requires FreshEdges(edges, uhot, cap, graph) && YenPaths.OneEdgePerPair(YenPaths.AdjacencyOf(edges)) && cap > 0.0
    requires e in edges && e.load - TU < Spread(uhot)
    ensures HasEdge(graph, e.source, e.dest)
    ensures graph[e.source][e.dest].residual > 0.0 && !graph[e.source][e.dest].banned
  {
    hide Spread, YenPaths.AdjacencyOf, YenPaths.OneEdgePerPair, FreshFlow;
    var i :| LastOf(edges, i, e.source, e.dest) && graph[e.source][e.dest] == FreshFlow(edges[i], uhot, cap);
    SameEdge(edges, edges[i], e);
    FreshFlowHolds(e, uhot, cap);
  }

  lemma KeyedLatency(edges: seq<Edge>, latencies: map<string, real>, e: Edge)
    requires LatenciesHold(edges, latencies) && YenPaths.OneEdgePerPair(YenPaths.AdjacencyOf(edges)) && YenPaths.Usable(edges, true) && e in edges
    ensures Latency(latencies, e.source, e.dest) == e.latency
  {
    hide YenPaths.AdjacencyOf, YenPaths.OneEdgePerPair, YenPaths.Usable;
    var k := PathNames.EdgeKey(e.source, e.dest);
    var i :| LastUnder(edges, i, k) && edges[i].latency == latencies[k];
    SameKey(edges, edges[i], e);
    SameEdge(edges, edges[i], e);
  }

  /** Keys of usable edges tell their endpoints apart. */
  lemma SameKey(edges: seq<Edge>, d: Edge, e: Edge)
    requires YenPaths.Usable(edges, true) && d in edges && e in edges
    requires PathNames.EdgeKey(d.source, d.dest) == PathNames.EdgeKey(e.source, e.dest)
    ensures d.source == e.source && d.dest == e.dest
  {
    hide PathNames.EdgeKey, PathNames.Join, PathNames.ArrowFree;
    assert forall x :: x in edges ==> x.source in YenPaths.Endpoints(edges) && x.dest in YenPaths.Endpoints(edges);
    PathNames.KeyIsJoin(d.source, d.dest);
    PathNames.KeyIsJoin(e.source, e.dest);
    PathNames.JoinIsInjective([d.source, d.dest], [e.source, e.dest]);
    assert [d.source, d.dest][0] == [e.source, e.dest][0] && [d.source, d.dest][1] == [e.source, e.dest][1];
  }

  /** The bound never shuts out the cheapest path it was computed from: unless that path has
      more than 30 nodes or runs over an overloaded edge, the destination can be served on
      the idle network.  Only a start without edges of its own cannot even serve itself. */
  lemma BoundAdmitsCheapest(edges: seq<Edge>, uhot: real, start: Node, ends: seq<Node>, job: Job, d: Node, paths: seq<EarlyCutDijkstra.Path>)
    requires JobOf(edges, uhot, start, ends, job) && YenPaths.OneEdgePerPair(YenPaths.AdjacencyOf(edges)) && YenPaths.Usable(edges, true)
    requires d in job.ends && d in job.bounds && BoundVia(edges, start, d, job.bounds[d], paths) && paths != []
    requires |paths[0].hops| <= MAX_HOPS
    requires forall e :: e in edges && OnHop(paths[0].hops, e.source, e.dest) ==> e.load - TU < Spread(uhot)
    ensures CanServe(NetOf(job, job.idle), start, job.bounds, d) <==> start in job.idle
    ensures start != d ==> start in job.idle
  {
    hide YenPaths.Usable, YenPaths.AdjacencyOf, YenPaths.OneEdgePerPair, YenPaths.Endpoints, FreshEdges, LatenciesHold, BoundsHold, BoundVia, Spread, OnHop,
         Feasible, Cost, IsTrail, NoDup, Joins;
    var g, t := CheapestTrail(edges, start, d, job.bounds[d], paths);
    TrailIsFeasible(edges, uhot, start, ends, job, d, ThetaL(job.bounds, d), g, t);
  }

  /** The cheapest of the paths is a trail within the bound. */
  lemma CheapestTrail(edges: seq<Edge>, start: Node, d: Node, b: real, paths: seq<EarlyCutDijkstra.Path>) returns (g: Adjacency, t: Trail)
    requires YenPaths.Usable(edges, true) && BoundVia(edges, start, d, b, paths) && paths != []
    ensures YenPaths.Adjoins(edges, g) && IsTrail(g, {}, t) && Joins(t, start, d) && NoDup(t.hops)
    ensures t.hops == paths[0].hops && Cost(true, t.edges) <= b
  {
    hide YenPaths.Usable, YenPaths.SortedByCost, YenPaths.Adjoins, YenPaths.AdjacencyOf, YenPaths.Distinct, YenPaths.Complete,
         YenPaths.CutIsHarmless, YenPaths.Cheapest, Cost, IsTrail, NoDup, CostSum, Reachable;
    g := YenPaths.AdjacencyOf(edges);
    YenPaths.AdjacencyAdjoins(edges);
    var p := paths[0];
    assert YenPaths.Sound(g, true, start, d, p);
    t :| YenPaths.Witnesses(g, true, start, d, p, t);
    SumAtLeastFirst(paths);
    UsableCost(edges, g, t);
    AverageAtLeast(CostSum(paths), |paths|, p.cost);
  }

  /** A trail over edges that are not overloaded is a feasible residual path. */
  lemma TrailIsFeasible(edges: seq<Edge>, uhot: real, start: Node, ends: seq<Node>, job: Job, d: Node, thetaL: real, g: Adjacency, t: Trail)
    requires JobOf(edges, uhot, start, ends, job) && YenPaths.OneEdgePerPair(YenPaths.AdjacencyOf(edges)) && YenPaths.Usable(edges, true)
    requires job.cap > 0.0 && YenPaths.Adjoins(edges, g) && IsTrail(g, {}, t) && Joins(t, start, d) && NoDup(t.hops)
    requires |t.hops| <= MAX_HOPS && Cost(true, t.edges) <= thetaL
    requires forall e :: e in edges && OnHop(t.hops, e.source, e.dest) ==> e.load - TU < Spread(uhot)
    ensures Feasible(NetOf(job, job.idle), start, d, thetaL, ArcsOf(t.edges))
    ensures start != d ==> start in job.idle
  {
    hide YenPaths.Usable, YenPaths.AdjacencyOf, YenPaths.OneEdgePerPair, Cost, WalkCost, Spread, NoDup, JobOf;
    var arcs := ArcsOf(t.edges);
    ArcsHops(t, g);
    ArcsCost(t.edges);
    forall i {:trigger arcs[i]} | 0 <= i < |arcs|
      ensures IsArc(NetOf(job, job.idle), t.hops[i], arcs[i])
    {
      var e := t.edges[i];
      assert e in Out(g, t.hops[i]);
      assert t.hops[i] == e.source && t.hops[i + 1] == e.dest;
      EdgeIsArc(edges, uhot, start, ends, job, e);
    }
    if start != d {
      assert IsArc(NetOf(job, job.idle), start, arcs[0]);
    }
  }

  lemma UsableCost(edges: seq<Edge>, g: Adjacency, t: Trail)
    requires YenPaths.Usable(edges, true) && YenPaths.Adjoins(edges, g) && IsTrail(g, {}, t)
    ensures Cost(true, t.edges) >= 0.0
  {
    forall u, e | u in g && e in g[u]
      ensures EdgeCost(true, e) >= 0.0
    {
      assert e in Out(g, u);
    }
    CostNonNegative(g, true, {}, t);
  }

  // ---------- The solver ----------

  datatype PathInfo = PathInfo(hops: seq<Node>, rtt: real, rawRTT: real)

  ghost function Info(p: PathWithInfo): PathInfo {
    PathInfo(p.path, p.latency, p.latency)
  }

  /** The score of a list on the network it makes. */
  ghost function ListScore(job: Job, live: seq<PathWithInfo>): real {
    Score(live, Reflow(job.idle, live))
  }

  /** What every scored list satisfies: paths the optimiser may return, pairwise different,
      quotas kept, and no edge over its capacity. */
  ghost predicate ListHolds(job: Job, live: seq<PathWithInfo>) {
    && live != [] && |live| <= FLOWS_PER_DEST * |job.ends|
    && PathsHold(job, live) && QuotaHolds(live, multiset(job.ends))
    && (forall i, j :: 0 <= i < j < |live| ==> live[i].path != live[j].path)
    && (forall u, v :: HasEdge(job.idle, u, v) ==> 0.0 <= Reflow(job.idle, live)[u][v].flow <= job.cap)
  }

  lemma RunListHolds(run: Run)
    requires run.Valid() && NoBans(run.graph) && QuotaHolds(run.live, multiset(run.ends)) && run.live != []
    requires run.capacity == (FLOWS_PER_DEST * |run.ends|) as real
    ensures ListHolds(run.TheJob(), run.live) && run.graph == Reflow(run.idle, run.live)
  {
    hide PathsHold, QuotaHolds, FlowHolds, NoBans, CountsHold, PathNames.Join, Uses;
    QuotaBoundsPaths(run.live, run.ends);
    run.BookFacts();
    FlowsHold(run.idle, run.graph, run.live, run.capacity);
    forall u, v | HasEdge(run.idle, u, v)
      ensures 0.0 <= Reflow(run.idle, run.live)[u][v].flow <= run.capacity
    {
      FlowWithinCapacity(run.graph, run.live, run.capacity, u, v);
      CapacityStays(run.graph, run.live, run.capacity, u, v);
    }
    forall i, j | 0 <= i < j < |run.live|
      ensures run.live[i].path != run.live[j].path
    {
      assert Key(run.live[i]) != Key(run.live[j]);
    }
  }

  lemma CapacityStays(graph: FlowGraph, live: seq<PathWithInfo>, cap: real, u: Node, v: Node)
    requires FlowHolds(graph, live, cap) && HasEdge(graph, u, v)
    ensures graph[u][v].cap == cap
  {
  }

  // ---------- The turns ----------

  /** The list the i-th turn starts from: the younger half of the filled one, then the list
      the turn before has left. */
  ghost function Entering(scored: seq<seq<PathWithInfo>>, i: nat): seq<PathWithInfo>
    requires 1 <= i <= |scored|
  {
    if i == 1 then scored[0][|scored[0]| / 2..] else scored[i - 1]
  }

  /** All paths chosen up to the i-th turn. */
  ghost function History(scored: seq<seq<PathWithInfo>>, i: nat): seq<PathWithInfo>
    requires i < |scored|
  {
    if i == 0 then scored[0] else History(scored, i - 1) + Appended(Entering(scored, i), scored[i])
  }

  /** The i-th turn leaves list b. */
  ghost predicate TurnTo(job: Job, scored: seq<seq<PathWithInfo>>, i: nat, b: seq<PathWithInfo>)
    requires 1 <= i <= |scored|
  {
    Turned(job, History(scored, i - 1), i, Entering(scored, i), b)
  }

  /** The lists scored: the filled one, then one for each turn.  There are twice as many turns
      as paths in the filled list, unless one leaves nothing. */
  ghost predicate Carouseled(job: Job, scored: seq<seq<PathWithInfo>>) {
    && TurnsHold(job, scored)
    && (|scored| == 1 + 2 * |scored[0]| || TurnTo(job, scored, |scored|, []))
  }

  ghost predicate TurnsHold(job: Job, scored: seq<seq<PathWithInfo>>) {
    && scored != [] && |scored| <= 1 + 2 * |scored[0]|
    && forall i :: 1 <= i < |scored| ==> TurnTo(job, scored, i, scored[i])
  }

  /** The first best-scored list. */
  ghost predicate IsBest(job: Job, scored: seq<seq<PathWithInfo>>, b: int, best: seq<PathWithInfo>) {
    && 0 <= b < |scored| && scored[b] == best
    && (forall j :: 0 <= j < |scored| ==> ListScore(job, scored[j]) <= ListScore(job, scored[b]))
    && (forall j :: 0 <= j < b ==> ListScore(job, scored[j]) < ListScore(job, scored[b]))
  }

  ghost predicate ListsHold(job: Job, scored: seq<seq<PathWithInfo>>) {
    forall i :: 0 <= i < |scored| ==> ListHolds(job, scored[i])
  }

  /** Score the run and keep its list if it beats the best so far. */
  method Compare(run: Run, best: seq<PathWithInfo>, bestScore: real, ghost scored: seq<seq<PathWithInfo>>, ghost b: int)
    returns (best': seq<PathWithInfo>, bestScore': real, ghost b': int)
    requires run.graph == Reflow(run.idle, run.live)
    requires IsBest(run.TheJob(), scored, b, best) && bestScore == ListScore(run.TheJob(), scored[b])
    ensures IsBest(run.TheJob(), scored + [run.live], b', best') && bestScore' == ListScore(run.TheJob(), best')
  {
    hide Score, Reflow;
    best', bestScore', b' := best, bestScore, b;
    ghost var scored' := scored + [run.live];
    var currentScore := Objective(run.live, run.graph);
    assert ListScore(run.TheJob(), scored'[|scored|]) == currentScore;
    assert forall j :: 0 <= j < |scored| ==> scored'[j] == scored[j];
    if currentScore > bestScore {
      best', bestScore', b' := run.live, currentScore, |scored|;
    }
  }

  lemma {:induction false} HistoryStays(scored: seq<seq<PathWithInfo>>, s: seq<PathWithInfo>, i: nat)
    requires i < |scored|
    ensures History(scored + [s], i) == History(scored, i)
  {
    if i > 0 {
      HistoryStays(scored, s, i - 1);
    }
  }

  lemma TurnStays(job: Job, scored: seq<seq<PathWithInfo>>, s: seq<PathWithInfo>, i: nat, b: seq<PathWithInfo>)
    requires 1 <= i <= |scored|
    ensures TurnTo(job, scored + [s], i, b) <==> TurnTo(job, scored, i, b)
  {
    hide Turned;
    HistoryStays(scored, s, i - 1);
  }

  /** Where the run stands: about to make the next turn, or left with nothing by the last. */
  ghost predicate AtTurn(job: Job, live: seq<PathWithInfo>, hist: seq<PathWithInfo>, scored: seq<seq<PathWithInfo>>, i: int) {
    && scored != []
    && if live == [] then TurnTo(job, scored, |scored|, [])
       else |scored| == 1 + i && live == Entering(scored, |scored|) && hist == History(scored, |scored| - 1)
  }

  lemma FirstScored(job: Job, live: seq<PathWithInfo>)
    requires live != []
    ensures TurnsHold(job, [live]) && IsBest(job, [live], 0, live) && AtTurn(job, live[|live| / 2..], live, [live], 0)
  {
    hide ListScore;
  }

  /** A turn that leaves something is scored. */
  lemma NextTurn(job: Job, live: seq<PathWithInfo>, hist: seq<PathWithInfo>, scored: seq<seq<PathWithInfo>>, i: nat, live': seq<PathWithInfo>)
    requires TurnsHold(job, scored) && AtTurn(job, live, hist, scored, i) && live != [] && i < 2 * |scored[0]|
    requires Turned(job, hist, i + 1, live, live') && live' != []
    ensures TurnsHold(job, scored + [live']) && AtTurn(job, live', hist + Appended(live, live'), scored + [live'], i + 1)
  {
    hide Turned, TurnsHold, History, Entering, Appended;
    TurnsGrow(job, scored, live');
    NextEntering(scored, live');
  }

  lemma TurnsGrow(job: Job, scored: seq<seq<PathWithInfo>>, live': seq<PathWithInfo>)
    requires TurnsHold(job, scored) && scored != [] && |scored| <= 2 * |scored[0]| && TurnTo(job, scored, |scored|, live')
    ensures TurnsHold(job, scored + [live'])
  {
    hide TurnTo;
    var scored' := scored + [live'];
    forall k | 1 <= k < |scored'|
      ensures TurnTo(job, scored', k, scored'[k])
    {
      TurnStays(job, scored, live', k, scored'[k]);
      assert k < |scored| ==> TurnTo(job, scored, k, scored[k]);
    }
  }

  lemma NextEntering(scored: seq<seq<PathWithInfo>>, s: seq<PathWithInfo>)
    requires scored != []
    ensures Entering(scored + [s], |scored| + 1) == s
    ensures History(scored + [s], |scored|) == History(scored, |scored| - 1) + Appended(Entering(scored, |scored|), s)
  {
    HistoryStays(scored, s, |scored| - 1);
    assert Entering(scored + [s], |scored|) == Entering(scored, |scored|);
  }

  lemma LastTurn(job: Job, live: seq<PathWithInfo>, hist: seq<PathWithInfo>, scored: seq<seq<PathWithInfo>>, i: nat)
    requires AtTurn(job, live, hist, scored, i) && live != [] && Turned(job, hist, i + 1, live, [])
    ensures AtTurn(job, [], hist, scored, i + 1)
  {
    hide Turned;
  }

  lemma TurnsEnd(job: Job, live: seq<PathWithInfo>, hist: seq<PathWithInfo>, scored: seq<seq<PathWithInfo>>, i: nat)
    requires TurnsHold(job, scored) && AtTurn(job, live, hist, scored, i) && (live == [] || i == 2 * |scored[0]|)
    ensures Carouseled(job, scored)
  {
  }

  lemma {:induction false} HistoryHolds(job: Job, scored: seq<seq<PathWithInfo>>, i: nat)
    requires ListsHold(job, scored) && i < |scored|
    ensures History(scored, i) != [] && forall p :: p in History(scored, i) ==> PathHolds(job, p)
  {
    hide PathHolds, ListHolds, Entering;
    ListPaths(job, scored[i]);
    if i > 0 {
      HistoryHolds(job, scored, i - 1);
    }
  }

  lemma ListPaths(job: Job, live: seq<PathWithInfo>)
    requires ListHolds(job, live)
    ensures live != [] && forall p :: p in live ==> PathHolds(job, p)
  {
    hide PathHolds, QuotaHolds, Reflow;
  }

  /** Every path of a list scored was entered in the history. */
  lemma {:induction false} LiveWereChosen(job: Job, scored: seq<seq<PathWithInfo>>, i: nat)
    requires TurnsHold(job, scored) && i < |scored|
    ensures forall p :: p in scored[i] ==> p in History(scored, i)
  {
    hide Turned, Entering, Appended, TurnsHold;
    if i > 0 {
      LiveWereChosen(job, scored, i - 1);
      TurnAt(job, scored, i);
      EnteringLive(scored, i);
      TurnedFrom(job, History(scored, i - 1), i, Entering(scored, i), scored[i]);
    }
  }

  lemma TurnAt(job: Job, scored: seq<seq<PathWithInfo>>, i: nat)
    requires TurnsHold(job, scored) && 1 <= i < |scored|
    ensures Turned(job, History(scored, i - 1), i, Entering(scored, i), scored[i])
  {
    hide Turned, History, Entering;
    assert TurnTo(job, scored, i, scored[i]);
  }

  lemma EnteringLive(scored: seq<seq<PathWithInfo>>, i: nat)
    requires 1 <= i <= |scored|
    ensures forall p :: p in Entering(scored, i) ==> p in scored[i - 1]
  {
  }

  lemma TurnedFrom(job: Job, hist: seq<PathWithInfo>, attempt: nat, a: seq<PathWithInfo>, b: seq<PathWithInfo>)
    requires Turned(job, hist, attempt, a, b)
    ensures forall p :: p in b ==> p in a || p in Appended(a, b)
  {
    hide Banned, NewPath, GivenUp, Reflow;
    forall i | 0 <= i < |b|
      ensures b[i] in a || b[i] in Appended(a, b)
    {
      assert i < |a| - 1 ==> b[i] == a[1..][i] && a[1..][i] == a[i + 1];
    }
  }

  lemma JobNames(edges: seq<Edge>, uhot: real, start: Node, ends: seq<Node>, job: Job)
    requires JobOf(edges, uhot, start, ends, job) && start in YenPaths.Endpoints(edges)
    requires forall n :: n in YenPaths.Endpoints(edges) ==> '|' !in n
    ensures NamesBarFree(job)
  {
    hide BoundsHold, LatenciesHold, FreshFlow;
    forall u, v | HasEdge(job.idle, u, v)
      ensures u in YenPaths.Endpoints(edges) && v in YenPaths.Endpoints(edges)
    {
      var i :| LastOf(edges, i, u, v);
      assert edges[i] in edges;
    }
  }

  /** From list a to list b by a turn: on the network of the list without its oldest path exactly
      the edges of a path chosen as often as any are banned, and the first edge of the oldest;
      the replacement is looked for there. */
  ghost predicate BannedTurn(job: Job, hist: seq<PathWithInfo>, attempt: nat, a: seq<PathWithInfo>, b: seq<PathWithInfo>,
                             hot: seq<Node>, graph: FlowGraph) {
    && a != [] && MostChosen(hist, hot) && SameFlows(Reflow(job.idle, a[1..]), graph)
    && (forall u, v :: HasEdge(graph, u, v) ==> (graph[u][v].banned <==> OnHop(hot, u, v) || [u, v] <= a[0].path))
    && Replaced(job, graph, attempt, a[1..], b)
  }

  /** Where names hold no bar, every turn is such a one. */
  lemma TurnBansMostChosen(edges: seq<Edge>, uhot: real, start: Node, ends: seq<Node>, job: Job, scored: seq<seq<PathWithInfo>>, i: nat)
    returns (hot: seq<Node>, graph: FlowGraph)
    requires JobOf(edges, uhot, start, ends, job) && start in YenPaths.Endpoints(edges)
    requires forall n :: n in YenPaths.Endpoints(edges) ==> '|' !in n
    requires ListsHold(job, scored) && TurnsHold(job, scored) && 1 <= i < |scored|
    ensures BannedTurn(job, History(scored, i - 1), i, Entering(scored, i), scored[i], hot, graph)
  {
    hide JobOf, ListsHold, YenPaths.Endpoints, PathHolds, NamesBarFree, Replaced, Banned, BanGraph, Reflow, MostChosen, History, Entering, SameFlows;
    var hist, a := History(scored, i - 1), Entering(scored, i);
    JobNames(edges, uhot, start, ends, job);
    HistoryHolds(job, scored, i - 1);
    forall p | p in hist
      ensures p.path != [] && BarFree(p.path) && p.pathStr == Piped(p.path)
    {
      PathIsBarFree(job, p);
    }
    TurnAt(job, scored, i);
    graph :| Banned(hist, Reflow(job.idle, a[1..]), a[0], graph) && Replaced(job, graph, i, a[1..], scored[i]);
    hot := BannedIsMostChosen(hist, Reflow(job.idle, a[1..]), a[0], graph);
    BannedEdges(Reflow(job.idle, a[1..]), hot, a[0].path);
  }

  lemma BannedEdges(g: FlowGraph, hot: seq<Node>, retired: seq<Node>)
    ensures SameFlows(g, BanGraph(g, hot, retired))
    ensures forall u, v :: HasEdge(BanGraph(g, hot, retired), u, v) ==>
              (BanGraph(g, hot, retired)[u][v].banned <==> OnHop(hot, u, v) || [u, v] <= retired)
  {
    hide OnHop;
  }

  /** What holds between two turns. */
  ghost predicate Underway(run: Run, acc: PathAccumulator, best: seq<PathWithInfo>, bestScore: real,
                           scored: seq<seq<PathWithInfo>>, b: int, i: nat)
    reads run, acc
  {
    var job := run.TheJob();
    && run.Valid() && NoBans(run.graph) && QuotaHolds(run.live, multiset(run.ends)) && acc.Valid()
    && job.cap == (FLOWS_PER_DEST * |job.ends|) as real
    && ListsHold(job, scored) && TurnsHold(job, scored) && IsBest(job, scored, b, best) && bestScore == ListScore(job, best)
    && AtTurn(job, run.live, acc.hist, scored, i)
  }

  /** The history starts with the filled list. */
  method StartHistory(live: seq<PathWithInfo>) returns (acc: PathAccumulator)
    ensures fresh(acc) && acc.Valid() && acc.hist == live
  {
    acc := new PathAccumulator();
    for i := 0 to |live|
      invariant acc.Valid() && fresh(acc) && acc.hist == live[..i]
    {
      acc.AddPath(live[i]);
    }
    assert live[..|live|] == live;
  }

  /** One turn; what it leaves is scored. */
  method TurnAndScore(run: Run, acc: PathAccumulator, best: seq<PathWithInfo>, bestScore: real,
                      ghost scored: seq<seq<PathWithInfo>>, ghost b: int, i: nat)
    returns (best': seq<PathWithInfo>, bestScore': real, ghost scored': seq<seq<PathWithInfo>>, ghost b': int)
    requires Underway(run, acc, best, bestScore, scored, b, i) && run.live != [] && scored != [] && i < 2 * |scored[0]|
    modifies run`graph, run`live, run`used, run`destFlowCount, acc
    ensures Underway(run, acc, best', bestScore', scored', b', i + 1) && scored' != [] && scored'[0] == scored[0]
  {
    hide Books, JobHolds, QuotaHolds, NoBans, ListHolds, ListScore, Turned, TurnsHold, IsBest, AtTurn, Reflow, Tallied;
    best', bestScore', scored', b' := best, bestScore, scored, b;
    ghost var before, hist := run.live, acc.hist;
    run.Turn(acc, i + 1);
    if run.live != [] {
      RunListHolds(run);
      NextTurn(run.TheJob(), before, hist, scored, i, run.live);
      BestIsThere(run.TheJob(), scored, b, best);
      best', bestScore', b' := Compare(run, best, bestScore, scored, b);
      scored' := scored + [run.live];
    } else {
      LastTurn(run.TheJob(), before, hist, scored, i);
      assert hist + Appended(before, []) == hist;
    }
  }

  /** Everything after the quotas are filled. */
  method Optimise(run: Run) returns (best: seq<PathWithInfo>, ghost scored: seq<seq<PathWithInfo>>, ghost b: int)
    requires run.Valid() && NoBans(run.graph) && QuotaHolds(run.live, multiset(run.ends)) && run.live != []
    requires run.capacity == (FLOWS_PER_DEST * |run.ends|) as real
    modifies run`graph, run`live, run`used, run`destFlowCount
    ensures ListsHold(run.TheJob(), scored) && Carouseled(run.TheJob(), scored) && IsBest(run.TheJob(), scored, b, best)
    ensures scored[0] == old(run.live)
  {
    hide Books, JobHolds, QuotaHolds, NoBans, ListHolds, ListScore, Carouseled, TurnsHold, IsBest, AtTurn, Reflow, Tallied;
    var acc := StartHistory(run.live);
    best := run.live;
    RunListHolds(run);
    var bestScore := Objective(run.live, run.graph);
    ScoreIs(run.TheJob(), run.live);
    scored, b := [run.live], 0;
    var maxIter := 2 * |run.live|;
    FirstScored(run.TheJob(), run.live);
    run.RetireHalf();
    var i := 0;
    while i < maxIter
      invariant 0 <= i <= maxIter && fresh(acc) && scored != [] && scored[0] == old(run.live)
      invariant Underway(run, acc, best, bestScore, scored, b, i)
    {
      if run.live == [] {
        break;
      }
      best, bestScore, scored, b := TurnAndScore(run, acc, best, bestScore, scored, b, i);
      i := i + 1;
    }
    TurnsEnd(run.TheJob(), run.live, acc.hist, scored, i);
    BestIsThere(run.TheJob(), scored, b, best);
  }

  lemma ScoreIs(job: Job, live: seq<PathWithInfo>)
    ensures ListScore(job, live) == Score(live, Reflow(job.idle, live))
  {
  }

  /** The destinations the graph knows. */
  function ValidEnds(edges: seq<Edge>, ends: seq<Node>): (r: seq<Node>)
    ensures forall d :: d in r <==> d in ends && d in YenPaths.Endpoints(edges)
  {
    if ends == [] then []
    else (if ends[0] in YenPaths.Endpoints(edges) then [ends[0]] else []) + ValidEnds(edges, ends[1..])
  }

  /** These are the positions of the known destinations, in order. */
  ghost predicate KnownAt(edges: seq<Edge>, ends: seq<Node>, at: seq<nat>) {
    && (forall i, j :: 0 <= i < j < |at| ==> at[i] < at[j])
    && (forall i :: i in at <==> 0 <= i < |ends| && ends[i] in YenPaths.Endpoints(edges))
  }

  /** These are the entries at those positions. */
  ghost predicate TakenFrom(ends: seq<Node>, at: seq<nat>, r: seq<Node>) {
    |r| == |at| && forall i :: 0 <= i < |at| ==> at[i] < |ends| && r[i] == ends[at[i]]
  }

  /** The known destinations stand in the order of the request, one for each time they are
      asked for. */
  lemma {:induction false} ValidEndsAt(edges: seq<Edge>, ends: seq<Node>) returns (at: seq<nat>)
    ensures KnownAt(edges, ends, at) && TakenFrom(ends, at, ValidEnds(edges, ends))
  {
    hide YenPaths.Endpoints;
    if ends == [] {
      return [];
    }
    hide KnownAt, TakenFrom;
    var rest := ValidEndsAt(edges, ends[1..]);
    at := (if ends[0] in YenPaths.Endpoints(edges) then [0] else []) + Later(rest);
    KnownFromFirst(edges, ends, rest);
    TakenFromFirst(ends, rest, ValidEnds(edges, ends[1..]));
    assert [] + ValidEnds(edges, ends[1..]) == ValidEnds(edges, ends[1..]) && [] + Later(rest) == Later(rest);
  }

  lemma TakenFromFirst(ends: seq<Node>, rest: seq<nat>, r: seq<Node>)
    requires ends != [] && TakenFrom(ends[1..], rest, r)
    ensures TakenFrom(ends, Later(rest), r) && TakenFrom(ends, [0] + Later(rest), [ends[0]] + r)
  {
    assert forall i :: 0 <= i < |rest| ==> ends[1..][rest[i]] == ends[rest[i] + 1];
  }

  ghost function Later(at: seq<nat>): (later: seq<nat>)
    ensures |later| == |at| && forall i :: 0 <= i < |at| ==> later[i] == at[i] + 1
  {
    seq(|at|, i requires 0 <= i < |at| => at[i] + 1)
  }

  lemma LaterPositions(at: seq<nat>, x: int)
    ensures x in Later(at) <==> x > 0 && x - 1 in at
  {
    if x > 0 && x - 1 in at {
      var i :| 0 <= i < |at| && at[i] == x - 1;
      assert Later(at)[i] == x;
    }
  }

  lemma KnownFromFirst(edges: seq<Edge>, ends: seq<Node>, rest: seq<nat>)
    requires ends != [] && KnownAt(edges, ends[1..], rest)
    ensures KnownAt(edges, ends, (if ends[0] in YenPaths.Endpoints(edges) then [0] else []) + Later(rest))
  {
    hide YenPaths.Endpoints;
    var at := (if ends[0] in YenPaths.Endpoints(edges) then [0] else []) + Later(rest);
    forall i
      ensures i in at <==> 0 <= i < |ends| && ends[i] in YenPaths.Endpoints(edges)
    {
      LaterPositions(rest, i);
      assert i in at <==> i in Later(rest) || (i == 0 && ends[0] in YenPaths.Endpoints(edges));
      assert 0 < i < |ends| ==> ends[1..][i - 1] == ends[i];
    }
  }

  /** Each known destination is served as often as it is asked for, and no other is. */
  lemma {:induction false} ValidEndsCount(edges: seq<Edge>, ends: seq<Node>, d: Node)
    ensures multiset(ValidEnds(edges, ends))[d] == if d in YenPaths.Endpoints(edges) then multiset(ends)[d] else 0
  {
    hide YenPaths.Endpoints;
    if ends != [] {
      ValidEndsCount(edges, ends[1..], d);
      assert ends == [ends[0]] + ends[1..];
    }
  }

  /** Where the paths of an answer end. */
  ghost function EndBag(infos: seq<PathInfo>): multiset<Node> {
    multiset(seq(|infos|, i requires 0 <= i < |infos| => if infos[i].hops == [] then "" else infos[i].hops[|infos[i].hops| - 1]))
  }

  /** No destination gets more than two paths for each time it was asked for. */
  ghost predicate WithinRequest(ends: seq<Node>, infos: seq<PathInfo>) {
    forall d :: EndBag(infos)[d] <= 2 * multiset(ends)[d]
  }

  /** A path of an answer: simple, from the start to a destination asked for, of at most 30 nodes,
      with the cost of its steps for both latencies, which keeps the bound. */
  ghost predicate InfoHolds(job: Job, ends: seq<Node>, info: PathInfo) {
    && 1 <= |info.hops| <= 30 && NoDup(info.hops) && info.hops[0] == job.start && info.hops[|info.hops| - 1] in ends
    && 0.0 <= info.rtt <= ThetaL(job.bounds, info.hops[|info.hops| - 1]) && info.rawRTT == info.rtt
    && exists p: PathWithInfo, arcs: seq<Arc> :: p.path == info.hops && p.latency == info.rtt && Walked(job, p, arcs)
  }

  ghost predicate InfosHold(job: Job, ends: seq<Node>, infos: seq<PathInfo>) {
    forall info :: info in infos ==> InfoHolds(job, ends, info)
  }

  lemma AnswerInfosHold(edges: seq<Edge>, ends: seq<Node>, job: Job, live: seq<PathWithInfo>, infos: seq<PathInfo>)
    requires ListHolds(job, live) && job.ends == ValidEnds(edges, ends)
    requires |infos| == |live| && forall i :: 0 <= i < |infos| ==> infos[i] == Info(live[i])
    ensures InfosHold(job, ends, infos)
  {
    hide YenPaths.Endpoints, Reflow, NoDup, Walked, Piped, ThetaL, QuotaHolds;
    forall i | 0 <= i < |infos|
      ensures InfoHolds(job, ends, infos[i])
    {
      assert PathHolds(job, live[i]);
    }
  }

  lemma AnswerWithinRequest(edges: seq<Edge>, ends: seq<Node>, job: Job, live: seq<PathWithInfo>, infos: seq<PathInfo>)
    requires ListHolds(job, live) && job.ends == ValidEnds(edges, ends)
    requires |infos| == |live| && forall i :: 0 <= i < |infos| ==> infos[i] == Info(live[i])
    ensures WithinRequest(ends, infos)
  {
    hide YenPaths.Endpoints, ValidEnds, Reflow;
    EndsAreDests(job, live, infos);
    hide PathsHold, DestBag, EndBag;
    forall d
      ensures EndBag(infos)[d] <= 2 * multiset(ends)[d]
    {
      ValidEndsCount(edges, ends, d);
      assert DestBag(live)[d] <= FLOWS_PER_DEST * multiset(job.ends)[d];
    }
  }

  lemma EndsAreDests(job: Job, live: seq<PathWithInfo>, infos: seq<PathInfo>)
    requires PathsHold(job, live) && |infos| == |live| && forall i :: 0 <= i < |infos| ==> infos[i] == Info(live[i])
    ensures EndBag(infos) == DestBag(live)
  {
    hide Walked, NoDup, Piped, ThetaL;
    assert forall i :: 0 <= i < |live| ==> PathHolds(job, live[i]);
    assert seq(|infos|, i requires 0 <= i < |infos| => if infos[i].hops == [] then "" else infos[i].hops[|infos[i].hops| - 1])
        == seq(|live|, i requires 0 <= i < |live| => live[i].dest);
  }

  /** The call fails exactly when the start is unknown or no known destination can be served
      on the idle network. */
  ghost predicate Hopeless(edges: seq<Edge>, job: Job) {
    job.start !in YenPaths.Endpoints(edges) || forall d :: d in job.ends ==> !CanServe(NetOf(job, job.idle), job.start, job.bounds, d)
  }

  /** The answer: the quotas were filled, the carousel turned, and these are the paths of the
      first best list it passed through. */
  ghost predicate Answer(job: Job, filled: seq<seq<PathWithInfo>>, scored: seq<seq<PathWithInfo>>, b: nat, infos: seq<PathInfo>) {
    && Filled(job, filled) && scored != [] && scored[0] == filled[|job.ends|] && Carouseled(job, scored) && ListsHold(job, scored)
    && b < |scored| && IsBest(job, scored, b, scored[b])
    && |infos| == |scored[b]| && forall i :: 0 <= i < |infos| ==> infos[i] == Info(scored[b][i])
  }

  /** The outcome of a call: no answer exactly if nothing can be served. */
  ghost predicate Outcome(edges: seq<Edge>, uhot: real, start: Node, ends: seq<Node>, r: Option<seq<PathInfo>>, job: Job) {
    && JobOf(edges, uhot, start, ends, job)
    && (r.None? <==> Hopeless(edges, job))
    && (r.Some? ==> WithinRequest(ends, r.value) && InfosHold(job, ends, r.value) && exists filled, scored, b :: Answer(job, filled, scored, b, r.value))
  }

  /** `ComputingMulti`, for any hot load. */
  method ComputingMulti(edges: seq<Edge>, uhot: real, start: Node, ends: seq<Node>) returns (r: Option<seq<PathInfo>>)
    requires YenPaths.Usable(edges, true)
    ensures exists job :: Outcome(edges, uhot, start, ends, r, job)
  {
    hide YenPaths.Usable, YenPaths.Endpoints, FreshEdges, LatenciesHold, BoundsHold, FlowHolds, NoBans, ListHolds, ListsHold,
         Carouseled, CanServe, IsBest, Books, QuotaHolds, Filled, Reflow, WithinRequest, InfosHold;
    r := None;
    var validEnds := ValidEnds(edges, ends);
    var capacity := (FLOWS_PER_DEST * |validEnds|) as real;
    var latencies := BuildLatencies(edges);
    var nodes := YenPaths.Endpoints(edges);
    var graph := BuildResidualGraph(edges, uhot, capacity);
    if start !in nodes {
      assert Outcome(edges, uhot, start, ends, r, Job(nodes, latencies, graph, start, validEnds, map[], capacity));
      return;
    }
    var thetaL := ComputeBounds(edges, start, validEnds);
    ghost var job := Job(nodes, latencies, graph, start, validEnds, thetaL, capacity);
    if |validEnds| == 0 {
      assert Outcome(edges, uhot, start, ends, r, job);
      return;
    }
    LatenciesNonNegative(edges, latencies);
    var run := new Run(nodes, latencies, start, validEnds, thetaL, capacity, graph);
    var filled := run.Fill();
    FillServes(job, filled);
    if run.live == [] {
      assert Outcome(edges, uhot, start, ends, r, job);
      return;
    }
    var best, scored, b := Optimise(run);
    r := Some(ToInfos(best));
    BestIsThere(job, scored, b, best);
    assert Answer(job, filled, scored, b, r.value);
    BestHolds(job, scored, b);
    AnswerWithinRequest(edges, ends, job, best, r.value);
    AnswerInfosHold(edges, ends, job, best, r.value);
    assert Outcome(edges, uhot, start, ends, r, job);
  }

  /** The idle network is the network of no path. */
  lemma FillServes(job: Job, filled: seq<seq<PathWithInfo>>)
    requires JobHolds(job) && Filled(job, filled)
    ensures |filled| == |job.ends| + 1
    ensures filled[|job.ends|] == [] <==> forall d :: d in job.ends ==> !CanServe(NetOf(job, job.idle), job.start, job.bounds, d)
  {
    hide CanServe, FlowHolds, NoBans, FlowsOf, Reflow, Served;
    NothingFlows(job.idle, job.cap);
    GraphIsReflow(job.idle, job.idle, []);
    FilledNothing(job, filled, |job.ends|);
  }

  lemma BestHolds(job: Job, scored: seq<seq<PathWithInfo>>, b: int)
    requires ListsHold(job, scored) && 0 <= b < |scored|
    ensures ListHolds(job, scored[b])
  {
    hide ListHolds;
  }

  lemma BestIsThere(job: Job, scored: seq<seq<PathWithInfo>>, b: int, best: seq<PathWithInfo>)
    requires IsBest(job, scored, b, best)
    ensures 0 <= b < |scored| && scored[b] == best
  {
  }

  function ToInfos(live: seq<PathWithInfo>): (r: seq<PathInfo>)
    ensures |r| == |live| && forall i :: 0 <= i < |r| ==> r[i] == Info(live[i])
  {
    seq(|live|, i requires 0 <= i < |live| => PathInfo(live[i].path, live[i].latency, live[i].latency))
  }

  lemma LatenciesNonNegative(edges: seq<Edge>, latencies: map<string, real>)
    requires YenPaths.Usable(edges, true) && LatenciesHold(edges, latencies)
    ensures forall k :: k in latencies ==> latencies[k] >= 0.0
  {
    forall k | k in latencies
      ensures latencies[k] >= 0.0
    {
      var i :| LastUnder(edges, i, k) && edges[i].latency == latencies[k];
      assert EdgeCost(true, edges[i]) >= 0.0;
    }
  }
}
