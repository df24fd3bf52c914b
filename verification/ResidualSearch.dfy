/** `dfsPathSearch`: depth-first search over the residual network of the flow optimiser, with
    pruning by the latency bound and, when optimising, by the best path found so far. */
module ResidualSearch {
  import opened Optional
  import opened Overlay
  import PathNames
  import Ordering

  const MAX_HOPS: nat := 30
  const BANNED_PENALTY := 100.0
  /** 2^1024 - 2^971, the largest float64. */
  const MAX_FLOAT64 := 179769313486231570814527423731704356798070567525844996598917476803157260780028538760589558632766878171540458953514382464234321326889464182768467546703537516986049910576551282076245490090389328944075868508455133942304583236903222948165808559332123347747979262041447231687381771809192998812504040261841248583680.0

  /** Flow on one edge.  `residual` is kept as effCap - flow. */
  datatype EdgeFlow = EdgeFlow(flow: real, cap: real, thetaA: real, effCap: real, banned: bool, residual: real)

  type FlowGraph = map<Node, map<Node, EdgeFlow>>

  /** The residual network a search runs on; it does not change while searching. */
  datatype Network = Network(graph: FlowGraph, nodes: set<Node>, latencies: map<string, real>)

  /** A step of the search: along an edge with capacity left, or back along one with flow. */
  datatype Arc = Arc(to: Node, cost: real, isRev: bool)

  predicate HasEdge(graph: FlowGraph, u: Node, v: Node) {
    u in graph && v in graph[u]
  }

  function Latency(latencies: map<string, real>, u: Node, v: Node): real {
    if PathNames.EdgeKey(u, v) in latencies then latencies[PathNames.EdgeKey(u, v)] else MAX_FLOAT64
  }

  function Penalty(ef: EdgeFlow): real {
    if ef.banned then BANNED_PENALTY else 0.0
  }

  /** The residual arc a leaves u. */
  ghost predicate IsArc(net: Network, u: Node, a: Arc) {
    if a.isRev then
      && a.to in net.nodes && a.to != u && HasEdge(net.graph, a.to, u)
      && net.graph[a.to][u].flow > 0.0 && a.cost == Penalty(net.graph[a.to][u])
    else
      && HasEdge(net.graph, u, a.to) && net.graph[u][a.to].residual > 0.0
      && a.cost == Latency(net.latencies, u, a.to) + Penalty(net.graph[u][a.to])
  }

  ghost predicate NonNegativeLatencies(net: Network) {
    forall k :: k in net.latencies ==> net.latencies[k] >= 0.0
  }

  /** `getSortedEdges`: all residual arcs of u, cheapest first; map order is arbitrary. */
  method GetSortedEdges(net: Network, u: Node) returns (arcs: seq<Arc>)
    ensures forall a :: a in arcs <==> IsArc(net, u, a)
    ensures forall i, j :: 0 <= i < j < |arcs| ==> arcs[i].cost <= arcs[j].cost
  {
    var list: seq<Arc> := [];
    var todo := if u in net.graph then net.graph[u].Keys else {};
    ghost var all := todo;
    while todo != {}
      invariant todo <= all
      invariant forall a :: a in list <==> !a.isRev && IsArc(net, u, a) && a.to !in todo
      decreases todo
    {
      var v :| v in todo;
      todo := todo - {v};
      var ef := net.graph[u][v];
      if ef.residual > 0.0 {
        list := list + [Arc(v, Latency(net.latencies, u, v) + Penalty(ef), false)];
      }
    }
    todo := net.nodes;
    while todo != {}
      invariant todo <= net.nodes
      invariant forall a :: a in list <==> IsArc(net, u, a) && (a.isRev ==> a.to !in todo)
      decreases todo
    {
      var v :| v in todo;
      todo := todo - {v};
      if v != u && HasEdge(net.graph, v, u) && net.graph[v][u].flow > 0.0 {
        list := list + [Arc(v, Penalty(net.graph[v][u]), true)];
      }
    }
    arcs := Ordering.Sorted(list, (a: Arc) => a.cost);
    assert forall a :: a in arcs <==> a in multiset(arcs);
    assert forall a :: a in list <==> a in multiset(list);
  }

  // ---------- Residual paths ----------

  /** The nodes visited from s along arcs. */
  ghost function Hops(s: Node, arcs: seq<Arc>): (h: seq<Node>)
    ensures |h| == |arcs| + 1 && h[0] == s && forall i :: 0 <= i < |arcs| ==> h[i + 1] == arcs[i].to
  {
    [s] + seq(|arcs|, i requires 0 <= i < |arcs| => arcs[i].to)
  }

  ghost function WalkCost(arcs: seq<Arc>): real {
    if arcs == [] then 0.0 else WalkCost(arcs[..|arcs| - 1]) + arcs[|arcs| - 1].cost
  }

  ghost predicate IsWalk(net: Network, s: Node, arcs: seq<Arc>) {
    forall i {:trigger arcs[i]} :: 0 <= i < |arcs| ==> IsArc(net, Hops(s, arcs)[i], arcs[i])
  }

  /** A residual path from s to t the search may report: simple, of at most 30 nodes and
      within the latency bound. */
  ghost predicate Feasible(net: Network, s: Node, t: Node, thetaL: real, arcs: seq<Arc>) {
    && IsWalk(net, s, arcs) && NoDup(Hops(s, arcs)) && Hops(s, arcs)[|arcs|] == t
    && |arcs| + 1 <= MAX_HOPS && WalkCost(arcs) <= thetaL
  }

  ghost predicate Unused(used: set<string>, s: Node, arcs: seq<Arc>) {
    PathNames.Join(Hops(s, arcs)) !in used
  }

  lemma WalkCostSnoc(arcs: seq<Arc>, a: Arc)
    ensures WalkCost(arcs + [a]) == WalkCost(arcs) + a.cost
  {
    assert (arcs + [a])[..|arcs|] == arcs;
  }

  lemma HopsSnoc(s: Node, arcs: seq<Arc>, a: Arc)
    ensures Hops(s, arcs + [a]) == Hops(s, arcs) + [a.to]
  {
  }

  lemma HopsPrefix(s: Node, arcs: seq<Arc>, full: seq<Arc>)
    requires arcs <= full
    ensures Hops(s, arcs) <= Hops(s, full)
  {
  }

  lemma ArcCostNonNegative(net: Network, u: Node, a: Arc)
    requires NonNegativeLatencies(net) && IsArc(net, u, a)
    ensures a.cost >= 0.0
  {
  }

  /** A path costs at least as much as its beginning. */
  lemma {:induction false} PrefixIsCheaper(net: Network, s: Node, arcs: seq<Arc>, full: seq<Arc>)
    requires NonNegativeLatencies(net) && IsWalk(net, s, full) && arcs <= full
    ensures WalkCost(arcs) <= WalkCost(full)
    decreases |full|
  {
    if arcs != full {
      var n := |full| - 1;
      var p := full[..n];
      HopsPrefix(s, p, full);
      forall i {:trigger p[i]} | 0 <= i < |p|
        ensures IsArc(net, Hops(s, p)[i], p[i])
      {
        assert p[i] == full[i];
      }
      PrefixIsCheaper(net, s, arcs, p);
      ArcCostNonNegative(net, Hops(s, full)[n], full[n]);
    }
  }

  /** Fisher-Yates with arbitrary choices. */
  method Shuffle(arcs: seq<Arc>) returns (r: seq<Arc>)
    ensures multiset(r) == multiset(arcs)
  {
    r := arcs;
    var j := |arcs| - 1;
    while j > 0
      invariant |r| == |arcs| && multiset(r) == multiset(arcs) && j < |arcs|
    {
      var k :| 0 <= k <= j;
      Ordering.SwapKeepsMultiset(r, j, k);
      r := r[j := r[k]][k := r[j]];
      j := j - 1;
    }
  }

  // ---------- What has been ruled out ----------

  /** No unused feasible path beginning with arcs is cheaper than bound. */
  ghost predicate Bounded(net: Network, s: Node, t: Node, thetaL: real, used: set<string>, arcs: seq<Arc>, bound: real) {
    forall full :: Feasible(net, s, t, thetaL, full) && Unused(used, s, full) && arcs <= full ==> bound <= WalkCost(full)
  }

  /** No feasible path begins with arcs. */
  ghost predicate Ruled(net: Network, s: Node, t: Node, thetaL: real, arcs: seq<Arc>) {
    forall full :: Feasible(net, s, t, thetaL, full) ==> !(arcs <= full)
  }

  /** At the target the only path beginning with arcs is arcs. */
  lemma AtTarget(net: Network, s: Node, t: Node, thetaL: real, arcs: seq<Arc>, full: seq<Arc>)
    requires Hops(s, arcs)[|arcs|] == t && Feasible(net, s, t, thetaL, full) && arcs <= full
    ensures full == arcs
  {
    HopsPrefix(s, arcs, full);
  }

  /** A step to a node already on the path begins no feasible path. */
  lemma RevisitIsRuled(net: Network, s: Node, t: Node, thetaL: real, arcs: seq<Arc>, a: Arc)
    requires a.to in Hops(s, arcs)
    ensures Ruled(net, s, t, thetaL, arcs + [a])
  {
    forall full | Feasible(net, s, t, thetaL, full)
      ensures !(arcs + [a] <= full)
    {
      if arcs + [a] <= full {
        HopsSnoc(s, arcs, a);
        HopsPrefix(s, arcs + [a], full);
        RevisitRepeats(Hops(s, arcs), a.to, Hops(s, full));
      }
    }
  }

  /** A step over the latency bound begins no feasible path. */
  lemma OverBoundIsRuled(net: Network, s: Node, t: Node, thetaL: real, arcs: seq<Arc>)
    requires NonNegativeLatencies(net) && WalkCost(arcs) > thetaL
    ensures Ruled(net, s, t, thetaL, arcs)
  {
    forall full | Feasible(net, s, t, thetaL, full)
      ensures !(arcs <= full)
    {
      if arcs <= full {
        PrefixIsCheaper(net, s, arcs, full);
      }
    }
  }

  /** A step that is no cheaper than the best path cannot lead to a better one. */
  lemma NoBetterIsBounded(net: Network, s: Node, t: Node, thetaL: real, used: set<string>, arcs: seq<Arc>, bound: real)
    requires NonNegativeLatencies(net) && bound <= WalkCost(arcs)
    ensures Bounded(net, s, t, thetaL, used, arcs, bound)
  {
    forall full | Feasible(net, s, t, thetaL, full) && Unused(used, s, full) && arcs <= full
      ensures bound <= WalkCost(full)
    {
      PrefixIsCheaper(net, s, arcs, full);
    }
  }

  /** Before the target, a path beginning with arcs takes one of the arcs of the last node. */
  lemma NextStep(net: Network, s: Node, t: Node, thetaL: real, arcs: seq<Arc>, full: seq<Arc>)
    requires Hops(s, arcs)[|arcs|] != t && Feasible(net, s, t, thetaL, full) && arcs <= full
    ensures |arcs| < |full| && IsArc(net, Hops(s, arcs)[|arcs|], full[|arcs|]) && arcs + [full[|arcs|]] <= full
  {
    HopsPrefix(s, arcs, full);
    assert IsArc(net, Hops(s, full)[|arcs|], full[|arcs|]);
  }

  lemma AllStepsBounded(net: Network, s: Node, t: Node, thetaL: real, used: set<string>, arcs: seq<Arc>, steps: seq<Arc>, bound: real)
    requires Hops(s, arcs)[|arcs|] != t
    requires forall a :: IsArc(net, Hops(s, arcs)[|arcs|], a) ==> a in steps
    requires forall i :: 0 <= i < |steps| ==> Bounded(net, s, t, thetaL, used, arcs + [steps[i]], bound)
    ensures Bounded(net, s, t, thetaL, used, arcs, bound)
  {
    forall full | Feasible(net, s, t, thetaL, full) && Unused(used, s, full) && arcs <= full
      ensures bound <= WalkCost(full)
    {
      NextStep(net, s, t, thetaL, arcs, full);
      var i :| 0 <= i < |steps| && steps[i] == full[|arcs|];
      assert Bounded(net, s, t, thetaL, used, arcs + [steps[i]], bound);
    }
  }

  lemma AllStepsRuled(net: Network, s: Node, t: Node, thetaL: real, arcs: seq<Arc>, steps: seq<Arc>)
    requires Hops(s, arcs)[|arcs|] != t
    requires forall a :: IsArc(net, Hops(s, arcs)[|arcs|], a) ==> a in steps
    requires forall i :: 0 <= i < |steps| ==> Ruled(net, s, t, thetaL, arcs + [steps[i]])
    ensures Ruled(net, s, t, thetaL, arcs)
  {
    forall full | Feasible(net, s, t, thetaL, full)
      ensures !(arcs <= full)
    {
      if arcs <= full {
        NextStep(net, s, t, thetaL, arcs, full);
      }
    }
  }

  lemma RuledIsBounded(net: Network, s: Node, t: Node, thetaL: real, used: set<string>, arcs: seq<Arc>, bound: real)
    requires Ruled(net, s, t, thetaL, arcs)
    ensures Bounded(net, s, t, thetaL, used, arcs, bound)
  {
  }

  lemma LowerBound(net: Network, s: Node, t: Node, thetaL: real, used: set<string>, arcs: seq<Arc>, bound: real, bound': real)
    requires Bounded(net, s, t, thetaL, used, arcs, bound) && bound' <= bound
    ensures Bounded(net, s, t, thetaL, used, arcs, bound')
  {
  }

  lemma TooLongIsRuled(net: Network, s: Node, t: Node, thetaL: real, used: set<string>, arcs: seq<Arc>, bound: real)
    requires |arcs| >= MAX_HOPS
    ensures Ruled(net, s, t, thetaL, arcs) && Bounded(net, s, t, thetaL, used, arcs, bound)
  {
  }

  lemma AtTargetFacts(net: Network, s: Node, t: Node, thetaL: real, arcs: seq<Arc>)
    requires Hops(s, arcs)[|arcs|] == t
    ensures forall full :: Feasible(net, s, t, thetaL, full) && arcs <= full ==> full == arcs
  {
    forall full | Feasible(net, s, t, thetaL, full) && arcs <= full
      ensures full == arcs
    {
      AtTarget(net, s, t, thetaL, arcs, full);
    }
  }

  lemma LastIsNew(before: seq<Node>, u: Node)
    requires NoDup(before + [u])
    ensures u !in before
  {
    var s := before + [u];
    assert forall i :: 0 <= i < |before| ==> s[i] == before[i] && s[i] != s[|before|];
  }

  /** A step to a new node prolongs the walk. */
  lemma WalkSnoc(net: Network, s: Node, arcs: seq<Arc>, a: Arc, path: seq<Node>)
    requires IsWalk(net, s, arcs) && Hops(s, arcs) == path && NoDup(path) && a.to !in path && IsArc(net, path[|arcs|], a)
    ensures IsWalk(net, s, arcs + [a]) && Hops(s, arcs + [a]) == path + [a.to] && NoDup(path + [a.to])
  {
    hide IsArc;
    HopsSnoc(s, arcs, a);
    hide Hops;
    var all := arcs + [a];
    forall i {:trigger all[i]} | 0 <= i < |all|
      ensures IsArc(net, Hops(s, all)[i], all[i])
    {
      if i < |arcs| {
        assert IsArc(net, Hops(s, arcs)[i], arcs[i]);
      }
    }
  }

  // ---------- The search ----------

  /** The variables the recursive search shares: the nodes on the current path, and the
      best path so far. */
  class PathSearch {
    const net: Network
    const source: Node
    const target: Node
    const thetaL: real
    const used: set<string>
    const optimize: bool
    const randomize: bool
    var visited: set<Node>
    var path: seq<Node>
    var bestPath: Option<seq<Node>>
    var bestLatency: real
    ghost var bestArcs: seq<Arc>

    constructor (net: Network, source: Node, target: Node, thetaL: real, used: set<string>, optimize: bool, randomize: bool)
      ensures this.net == net && this.source == source && this.target == target && this.thetaL == thetaL
      ensures this.used == used && this.optimize == optimize && this.randomize == randomize
      ensures visited == {} && path == [] && bestPath == None && bestLatency == thetaL + 1.0
    {
      this.net, this.source, this.target, this.thetaL := net, source, target, thetaL;
      this.used, this.optimize, this.randomize := used, optimize, randomize;
      visited, path, bestPath, bestLatency, bestArcs := {}, [], None, thetaL + 1.0, [];
    }

    /** The best path is feasible, of exactly the best latency and, when optimising, unused. */
    ghost predicate BestHolds()
      reads this`bestPath, this`bestLatency, this`bestArcs
    {
      match bestPath
      case None => bestLatency == thetaL + 1.0
      case Some(hops) =>
        && Feasible(net, source, target, thetaL, bestArcs) && Hops(source, bestArcs) == hops && WalkCost(bestArcs) == bestLatency
        && (optimize ==> Unused(used, source, bestArcs))
    }

    /** The search stands at u, having walked arcs through the nodes before it. */
    ghost predicate At(before: seq<Node>, u: Node, latency: real, arcs: seq<Arc>)
      reads this
    {
      && IsWalk(net, source, arcs) && NoDup(Hops(source, arcs)) && Hops(source, arcs) == before + [u]
      && WalkCost(arcs) == latency && target !in before && (forall n :: n in visited <==> n in path)
    }

    /** Every continuation of arcs is accounted for. */
    ghost predicate Accounted(arcs: seq<Arc>, found: bool)
      reads this`bestLatency
    {
      if optimize then Bounded(net, source, target, thetaL, used, arcs, bestLatency)
      else found || Ruled(net, source, target, thetaL, arcs)
    }

    /** What a call leaves behind; `found` is raised only when exploring. */
    twostate predicate Kept(found: bool)
      reads this
    {
      && path == old(path) && visited == old(visited) && BestHolds()
      && (optimize ==> !found && bestLatency <= old(bestLatency))
      && (!optimize && found ==> bestPath.Some?)
      && (!optimize && !found ==> bestPath == old(bestPath) && bestLatency == old(bestLatency) && bestArcs == old(bestArcs))
    }

    /** The recursive search from u, reached along arcs at the given latency. */
    method Dfs(u: Node, latency: real, ghost arcs: seq<Arc>) returns (found: bool)
      requires NonNegativeLatencies(net) && BestHolds()
      requires At(path, u, latency, arcs) && |path| <= MAX_HOPS
      modifies this`visited, this`path, this`bestPath, this`bestLatency, this`bestArcs
      ensures Kept(found)
      ensures Accounted(arcs, found)
      decreases MAX_HOPS - |path|, 1
    {
      hide Feasible, IsWalk, WalkCost, Bounded, Ruled, IsArc, NonNegativeLatencies, Hops, Unused;
      if |path| >= MAX_HOPS {
        TooLongIsRuled(net, source, target, thetaL, used, arcs, bestLatency);
        return false;
      }
      if u == target {
        found := Arrive(u, latency, arcs);
        return;
      }
      found := Expand(u, latency, arcs);
    }

    /** The arcs of u, cheapest first or shuffled. */
    method ArcsToTry(u: Node) returns (arcs: seq<Arc>)
      ensures forall a :: a in arcs <==> IsArc(net, u, a)
    {
      hide IsArc;
      arcs := GetSortedEdges(net, u);
      if randomize {
        ghost var steps := arcs;
        arcs := Shuffle(arcs);
        Ordering.SameElements(steps, arcs);
      }
    }

    /** Put u on the path, try its arcs, and take it off again. */
    method Expand(u: Node, latency: real, ghost arcs: seq<Arc>) returns (found: bool)
      requires NonNegativeLatencies(net) && BestHolds()
      requires At(path, u, latency, arcs) && |path| < MAX_HOPS && u != target
      modifies this`visited, this`path, this`bestPath, this`bestLatency, this`bestArcs
      ensures Kept(found)
      ensures Accounted(arcs, found)
      decreases MAX_HOPS - |path|, 0
    {
      hide Feasible, IsWalk, WalkCost, Bounded, Ruled, IsArc, NonNegativeLatencies, Hops, Unused, NoDup, BestHolds;
      LastIsNew(path, u);
      visited := visited + {u};
      path := path + [u];
      var sortedEdges := ArcsToTry(u);
      found := TryAll(u, latency, arcs, sortedEdges);
      hide At;
      path := path[..|path| - 1];
      visited := visited - {u};
      assert path == old(path) && visited == old(visited);
      if optimize {
        AllStepsBounded(net, source, target, thetaL, used, arcs, sortedEdges, bestLatency);
      } else if !found {
        AllStepsRuled(net, source, target, thetaL, arcs, sortedEdges);
      }
    }

    /** The search stands at u, which is on the path. */
    ghost predicate On(u: Node, latency: real, arcs: seq<Arc>)
      reads this
    {
      path != [] && path[|path| - 1] == u && u != target && At(path[..|path| - 1], u, latency, arcs)
    }

    /** The loop over the arcs of u; exploring stops at the first path found. */
    method TryAll(u: Node, latency: real, ghost arcs: seq<Arc>, edges: seq<Arc>) returns (found: bool)
      requires NonNegativeLatencies(net) && BestHolds()
      requires On(u, latency, arcs) && |path| <= MAX_HOPS && forall a :: a in edges ==> IsArc(net, u, a)
      modifies this`visited, this`path, this`bestPath, this`bestLatency, this`bestArcs
      ensures Kept(found)
      ensures forall i :: 0 <= i < |edges| ==> Accounted(arcs + [edges[i]], found)
      decreases MAX_HOPS - |path|, 3
    {
      hide Feasible, IsWalk, NoDup, WalkCost, Bounded, Ruled, IsArc, NonNegativeLatencies;
      found := false;
      var k := 0;
      while k < |edges|
        invariant 0 <= k <= |edges| && !found
        invariant Kept(found)
        invariant forall i :: 0 <= i < k ==> Accounted(arcs + [edges[i]], false)
      {
        ghost var before := bestLatency;
        found := Try(u, latency, arcs, edges[k]);
        if found {
          break;
        }
        if optimize {
          forall i | 0 <= i < k
            ensures Bounded(net, source, target, thetaL, used, arcs + [edges[i]], bestLatency)
          {
            LowerBound(net, source, target, thetaL, used, arcs + [edges[i]], before, bestLatency);
          }
        }
        k := k + 1;
      }
    }

    /** One arc of the loop: skip it, prune it or follow it. */
    method Try(u: Node, latency: real, ghost arcs: seq<Arc>, ei: Arc) returns (found: bool)
      requires NonNegativeLatencies(net) && BestHolds()
      requires On(u, latency, arcs) && IsArc(net, u, ei)
      requires |path| <= MAX_HOPS
      modifies this`visited, this`path, this`bestPath, this`bestLatency, this`bestArcs
      ensures Kept(found)
      ensures Accounted(arcs + [ei], found)
      decreases MAX_HOPS - |path|, 2
    {
      hide Feasible, IsWalk, NoDup, WalkCost, Bounded, Ruled, IsArc, NonNegativeLatencies, Hops;
      WalkCostSnoc(arcs, ei);
      if ei.to in visited {
        RevisitIsRuled(net, source, target, thetaL, arcs, ei);
        RuledIsBounded(net, source, target, thetaL, used, arcs + [ei], bestLatency);
        return false;
      }
      if optimize && latency + ei.cost >= bestLatency {
        NoBetterIsBounded(net, source, target, thetaL, used, arcs + [ei], bestLatency);
        return false;
      }
      if latency + ei.cost > thetaL {
        OverBoundIsRuled(net, source, target, thetaL, arcs + [ei]);
        RuledIsBounded(net, source, target, thetaL, used, arcs + [ei], bestLatency);
        return false;
      }
      WalkSnoc(net, source, arcs, ei, path);
      found := Dfs(ei.to, latency + ei.cost, arcs + [ei]);
    }

    /** At the target the walk made is the only one to account for. */
    lemma ArriveFacts(u: Node, latency: real, arcs: seq<Arc>)
      requires u == target && At(path, u, latency, arcs) && |path| < MAX_HOPS
      ensures Hops(source, arcs) == path + [u] && WalkCost(arcs) == latency
      ensures Feasible(net, source, target, thetaL, arcs) <==> latency <= thetaL
      ensures forall full :: Feasible(net, source, target, thetaL, full) && arcs <= full ==> full == arcs
    {
      hide IsWalk, NoDup, WalkCost;
      AtTargetFacts(net, source, target, thetaL, arcs);
    }

    /** The target is reached. */
    method Arrive(u: Node, latency: real, ghost arcs: seq<Arc>) returns (found: bool)
      requires BestHolds() && u == target && At(path, u, latency, arcs) && |path| < MAX_HOPS
      modifies this`bestPath, this`bestLatency, this`bestArcs
      ensures Kept(found)
      ensures Accounted(arcs, found)
    {
      ArriveFacts(u, latency, arcs);
      hide Feasible, IsWalk, NoDup, WalkCost, Hops, At, PathNames.Join;
      found := false;
      if latency <= thetaL {
        var tempPath := path + [u];
        if optimize {
          if latency < bestLatency && PathNames.Join(tempPath) !in used {
            bestLatency, bestPath, bestArcs := latency, Some(tempPath), arcs;
          }
        } else {
          bestPath, bestLatency, bestArcs := Some(tempPath), latency, arcs;
          found := true;
        }
      }
    }
  }

  /** A feasible path the optimising search may report. */
  ghost predicate Eligible(net: Network, s: Node, t: Node, thetaL: real, used: set<string>, arcs: seq<Arc>) {
    Feasible(net, s, t, thetaL, arcs) && Unused(used, s, arcs)
  }

  datatype Hit = Hit(path: seq<Node>, latency: real)

  /** `dfsPathSearch`.  Optimising, it reports a least-latency unused feasible path, and none
      exactly when there is none; exploring, it reports a feasible path, used or not, and
      none exactly when there is none. */
  method DfsPathSearch(net: Network, s: Node, t: Node, thetaL: real, used: set<string>, optimize: bool, randomize: bool)
    returns (r: Option<Hit>, ghost arcs: seq<Arc>)
    requires NonNegativeLatencies(net)
    ensures r.Some? ==> Feasible(net, s, t, thetaL, arcs) && r.value == Hit(Hops(s, arcs), WalkCost(arcs))
    ensures optimize && r.Some? ==> Unused(used, s, arcs)
    ensures optimize && r.Some? ==> forall full :: Eligible(net, s, t, thetaL, used, full) ==> WalkCost(arcs) <= WalkCost(full)
    ensures optimize ==> (r.None? <==> !exists full :: Eligible(net, s, t, thetaL, used, full))
    ensures !optimize ==> (r.None? <==> !exists full :: Feasible(net, s, t, thetaL, full))
  {
    var search := new PathSearch(net, s, t, thetaL, used, optimize, randomize);
    assert Hops(s, []) == [s];
    assert search.At(search.path, s, 0.0, []);
    var found := search.Dfs(s, 0.0, []);
    arcs := search.bestArcs;
    if search.bestPath.Some? {
      r := Some(Hit(search.bestPath.value, search.bestLatency));
      assert optimize ==> Eligible(net, s, t, thetaL, used, arcs);
    } else {
      r := None;
    }
  }
}
