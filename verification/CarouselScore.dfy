/** `objective`: the score of a list of paths, higher for more and more diverse paths, lower
    for latency and for congestion on the edges used. */
module CarouselScore {
  import opened Overlay
  import opened ResidualSearch
  import opened CarouselState
  import PathNames

  const PATH_WEIGHT := 10.0
  const DIVERSITY_WEIGHT := 1.0
  const LATENCY_WEIGHT := 0.1
  const CONGESTION_WEIGHT := 1.0

  // ---------- What the score means ----------

  /** The edge keys of the first n hops. */
  ghost function HopKeys(path: seq<Node>, n: nat): multiset<string>
    requires n == 0 || n < |path|
  {
    if n == 0 then multiset{} else HopKeys(path, n - 1) + multiset{PathNames.EdgeKey(path[n - 1], path[n])}
  }

  ghost function Hopcount(path: seq<Node>): nat {
    if |path| == 0 then 0 else |path| - 1
  }

  ghost function Usage(live: seq<PathWithInfo>): multiset<string> {
    if live == [] then multiset{}
    else var p := live[|live| - 1].path; Usage(live[..|live| - 1]) + HopKeys(p, Hopcount(p))
  }

  /** One share for each edge in use, divided among the paths that use it. */
  ghost function Diversity(usage: multiset<string>): real
    decreases |usage|
  {
    if usage == multiset{} then 0.0
    else
      var k :| k in usage;
      1.0 / usage[k] as real + Diversity(usage[k := 0])
  }

  ghost function TotalLatency(live: seq<PathWithInfo>): real {
    if live == [] then 0.0 else TotalLatency(live[..|live| - 1]) + live[|live| - 1].latency
  }

  /** How full the edge of one hop is; nothing for a hop that is no edge or has no capacity. */
  function HopCongestion(graph: FlowGraph, u: Node, v: Node): real {
    if HasEdge(graph, u, v) && graph[u][v].effCap > 0.0 then 1.0 - graph[u][v].residual / graph[u][v].effCap else 0.0
  }

  ghost function PathCongestion(graph: FlowGraph, path: seq<Node>, n: nat): real
    requires n == 0 || n < |path|
  {
    if n == 0 then 0.0 else PathCongestion(graph, path, n - 1) + HopCongestion(graph, path[n - 1], path[n])
  }

  ghost function TotalCongestion(graph: FlowGraph, live: seq<PathWithInfo>): real {
    if live == [] then 0.0
    else var p := live[|live| - 1].path; TotalCongestion(graph, live[..|live| - 1]) + PathCongestion(graph, p, Hopcount(p))
  }

  ghost function Score(live: seq<PathWithInfo>, graph: FlowGraph): real {
    if live == [] then 0.0
    else |live| as real * PATH_WEIGHT + Diversity(Usage(live)) * DIVERSITY_WEIGHT
         - TotalLatency(live) * LATENCY_WEIGHT - TotalCongestion(graph, live) * CONGESTION_WEIGHT
  }

  /** The order in which edges are summed does not matter. */
  lemma {:induction false} DiversityOf(usage: multiset<string>, k: string)
    requires k in usage
    ensures Diversity(usage) == 1.0 / usage[k] as real + Diversity(usage[k := 0])
    decreases |usage|
  {
    var j :| j in usage && Diversity(usage) == 1.0 / usage[j] as real + Diversity(usage[j := 0]);
    if j != k {
      DiversityOf(usage[j := 0], k);
      DiversityOf(usage[k := 0], j);
      assert usage[j := 0][k := 0] == usage[k := 0][j := 0];
    }
  }

  /** With the books in order, a hop's congestion is the share of capacity its users take. */
  lemma CongestionIsLoad(graph: FlowGraph, live: seq<PathWithInfo>, cap: real, u: Node, v: Node)
    requires FlowHolds(graph, live, cap) && HasEdge(graph, u, v) && graph[u][v].effCap > 0.0
    ensures HopCongestion(graph, u, v) == Uses(live, u, v) as real / graph[u][v].effCap
  {
    var c, f := graph[u][v].effCap, Uses(live, u, v) as real;
    assert EdgeHolds(graph[u][v], Uses(live, u, v), cap);
    Complement(c, f);
  }

  lemma Complement(c: real, f: real)
    requires c > 0.0
    ensures 1.0 - (c - f) / c == f / c
  {
    var p, q := (c - f) / c, f / c;
    assert p * c == c - f && q * c == f;
    assert (p + q - 1.0) * c == 0.0;
    ZeroFactor(p + q - 1.0, c);
  }

  lemma ZeroFactor(x: real, c: real)
    requires c > 0.0 && x * c == 0.0
    ensures x == 0.0
  {
    assert x > 0.0 ==> x * c > 0.0;
    assert x < 0.0 ==> x * c < 0.0;
  }

  // ---------- What scores higher ----------

  ghost predicate SameHops(a: seq<PathWithInfo>, b: seq<PathWithInfo>) {
    |a| == |b| && forall i :: 0 <= i < |a| ==> a[i].path == b[i].path
  }

  lemma {:induction false} HopsDecide(a: seq<PathWithInfo>, b: seq<PathWithInfo>, graph: FlowGraph)
    requires SameHops(a, b)
    ensures Usage(a) == Usage(b) && TotalCongestion(graph, a) == TotalCongestion(graph, b)
  {
    hide HopKeys, PathCongestion;
    if a != [] {
      HopsDecide(a[..|a| - 1], b[..|b| - 1], graph);
    }
  }

  lemma {:induction false} SlowerIsMore(a: seq<PathWithInfo>, b: seq<PathWithInfo>)
    requires |a| == |b| && forall i :: 0 <= i < |a| ==> a[i].latency <= b[i].latency
    ensures TotalLatency(a) <= TotalLatency(b)
    ensures (exists i :: 0 <= i < |a| && a[i].latency < b[i].latency) ==> TotalLatency(a) < TotalLatency(b)
  {
    if a != [] {
      var n := |a| - 1;
      SlowerIsMore(a[..n], b[..n]);
      if i :| 0 <= i < n && a[i].latency < b[i].latency {
        assert a[..n][i].latency < b[..n][i].latency;
      }
    }
  }

  /** Of two lists with the same hops on the same network, the one with less summed latency
      scores higher, by a tenth of the difference; so does one whose paths are none slower
      and one faster. */
  lemma FasterScoresHigher(a: seq<PathWithInfo>, b: seq<PathWithInfo>, graph: FlowGraph)
    requires SameHops(a, b)
    ensures Score(a, graph) - Score(b, graph) == (TotalLatency(b) - TotalLatency(a)) / 10.0
    ensures (forall i :: 0 <= i < |a| ==> a[i].latency <= b[i].latency) && (exists i :: 0 <= i < |a| && a[i].latency < b[i].latency) ==>
              Score(a, graph) > Score(b, graph)
  {
    hide Usage, TotalCongestion, Diversity;
    HopsDecide(a, b, graph);
    if forall i :: 0 <= i < |a| ==> a[i].latency <= b[i].latency {
      SlowerIsMore(a, b);
    }
  }

  /** A path's latency enters the sum once. */
  lemma {:induction false} LatencyCountsOnce(live: seq<PathWithInfo>, i: nat, x: real)
    requires i < |live|
    ensures TotalLatency(live[i := live[i].(latency := x)]) == TotalLatency(live) + x - live[i].latency
  {
    var n := |live| - 1;
    var live' := live[i := live[i].(latency := x)];
    if i == n {
      assert live'[..n] == live[..n];
    } else {
      LatencyCountsOnce(live[..n], i, x);
      assert live'[..n] == live[..n][i := live[i].(latency := x)];
    }
  }

  // Congestion

  /** How many of the first n hops go from u to v. */
  ghost function HopTimes(path: seq<Node>, n: nat, u: Node, v: Node): nat
    requires n == 0 || n < |path|
  {
    if n == 0 then 0 else HopTimes(path, n - 1, u, v) + if path[n - 1] == u && path[n] == v then 1 else 0
  }

  lemma {:induction false} SimpleHopOnce(path: seq<Node>, n: nat, u: Node, v: Node)
    requires NoDup(path) && (n == 0 || n < |path|)
    ensures HopTimes(path, n, u, v) == if HopBefore(path, n, u, v) then 1 else 0
  {
    if n > 0 {
      SimpleHopOnce(path, n - 1, u, v);
      if path[n - 1] == u && path[n] == v {
        assert !HopBefore(path, n - 1, u, v);
      }
    }
  }

  lemma SimplePathOnce(path: seq<Node>, u: Node, v: Node)
    requires NoDup(path)
    ensures HopTimes(path, Hopcount(path), u, v) == if OnHop(path, u, v) then 1 else 0
  {
    SimpleHopOnce(path, Hopcount(path), u, v);
    assert HopBefore(path, Hopcount(path), u, v) <==> OnHop(path, u, v);
  }

  /** The network with another flow on one edge. */
  ghost function Reloaded(graph: FlowGraph, u: Node, v: Node, f: real): FlowGraph
    requires HasEdge(graph, u, v)
  {
    graph[u := graph[u][v := WithFlow(graph[u][v], f)]]
  }

  /** What that adds to the congestion of the edge. */
  ghost function Added(graph: FlowGraph, u: Node, v: Node, f: real): real
    requires HasEdge(graph, u, v) && graph[u][v].effCap > 0.0
  {
    (f - graph[u][v].flow) / graph[u][v].effCap
  }

  lemma ReloadedHop(graph: FlowGraph, u: Node, v: Node, f: real, x: Node, y: Node)
    requires HasEdge(graph, u, v) && graph[u][v].effCap > 0.0 && graph[u][v].residual == graph[u][v].effCap - graph[u][v].flow
    ensures HopCongestion(Reloaded(graph, u, v, f), x, y)
         == HopCongestion(graph, x, y) + if x == u && y == v then Added(graph, u, v, f) else 0.0
  {
    if x == u && y == v {
      var c := graph[u][v].effCap;
      Complement(c, f);
      Complement(c, graph[u][v].flow);
      assert (f - graph[u][v].flow) / c == f / c - graph[u][v].flow / c;
    }
  }

  lemma {:induction false} ReloadedPath(graph: FlowGraph, u: Node, v: Node, f: real, path: seq<Node>, n: nat)
    requires HasEdge(graph, u, v) && graph[u][v].effCap > 0.0 && graph[u][v].residual == graph[u][v].effCap - graph[u][v].flow
    requires n == 0 || n < |path|
    ensures PathCongestion(Reloaded(graph, u, v, f), path, n)
         == PathCongestion(graph, path, n) + HopTimes(path, n, u, v) as real * Added(graph, u, v, f)
  {
    hide HopCongestion, Reloaded, Added;
    if n > 0 {
      ReloadedPath(graph, u, v, f, path, n - 1);
      ReloadedHop(graph, u, v, f, path[n - 1], path[n]);
      OneMore(HopTimes(path, n - 1, u, v), Added(graph, u, v, f));
    }
  }

  lemma OneMore(n: nat, x: real)
    ensures (n + 1) as real * x == n as real * x + x
  {
  }

  lemma {:induction false} ReloadedList(graph: FlowGraph, u: Node, v: Node, f: real, live: seq<PathWithInfo>)
    requires HasEdge(graph, u, v) && graph[u][v].effCap > 0.0 && graph[u][v].residual == graph[u][v].effCap - graph[u][v].flow
    requires forall p :: p in live ==> NoDup(p.path)
    ensures TotalCongestion(Reloaded(graph, u, v, f), live)
         == TotalCongestion(graph, live) + Uses(live, u, v) as real * Added(graph, u, v, f)
  {
    hide PathCongestion, Reloaded, Added, OnHop, NoDup;
    if live != [] {
      var n := |live| - 1;
      ReloadedList(graph, u, v, f, live[..n]);
      ReloadedPath(graph, u, v, f, live[n].path, Hopcount(live[n].path));
      SimplePathOnce(live[n].path, u, v);
      OneMore(Uses(live[..n], u, v), Added(graph, u, v, f));
    }
  }

  /** More flow on an edge lowers the score of a list of simple paths by the share of capacity
      it takes, once for each path over the edge. */
  lemma MoreFlowScoresLower(graph: FlowGraph, u: Node, v: Node, f: real, live: seq<PathWithInfo>)
    requires HasEdge(graph, u, v) && graph[u][v].effCap > 0.0 && graph[u][v].residual == graph[u][v].effCap - graph[u][v].flow
    requires forall p :: p in live ==> NoDup(p.path)
    ensures Score(live, Reloaded(graph, u, v, f))
         == Score(live, graph) - Uses(live, u, v) as real * ((f - graph[u][v].flow) / graph[u][v].effCap)
    ensures f > graph[u][v].flow && Uses(live, u, v) > 0 ==> Score(live, Reloaded(graph, u, v, f)) < Score(live, graph)
  {
    hide TotalCongestion, Reloaded, Diversity, Usage, TotalLatency, NoDup, OnHop;
    ReloadedList(graph, u, v, f, live);
    var n, x := Uses(live, u, v), (f - graph[u][v].flow) / graph[u][v].effCap;
    if f > graph[u][v].flow && n > 0 {
      assert x > 0.0 by { assert x * graph[u][v].effCap == f - graph[u][v].flow; }
      assert n as real * x > 0.0;
    }
  }

  // Diversity

  /** One more path over an edge: a first one counts in full, later ones divide the share. */
  lemma OneMoreUser(usage: multiset<string>, k: string)
    ensures Diversity(usage + multiset{k}) - Diversity(usage)
         == if k in usage then 1.0 / (usage[k] + 1) as real - 1.0 / usage[k] as real else 1.0
  {
    hide Diversity;
    DiversityOf(usage + multiset{k}, k);
    if k in usage {
      DiversityOf(usage, k);
    }
    assert (usage + multiset{k})[k := 0] == usage[k := 0];
    assert k !in usage ==> usage[k := 0] == usage;
  }

  lemma {:induction false} InHopKeys(path: seq<Node>, n: nat, k: string)
    requires n == 0 || n < |path|
    ensures k in HopKeys(path, n) <==> exists i :: 0 <= i < n && PathNames.EdgeKey(path[i], path[i + 1]) == k
  {
    hide PathNames.EdgeKey;
    if n > 0 {
      InHopKeys(path, n - 1, k);
      if k == PathNames.EdgeKey(path[n - 1], path[n]) {
        assert path[(n - 1) + 1] == path[n];
      }
    }
  }

  lemma {:induction false} InUsage(live: seq<PathWithInfo>, k: string)
    requires k in Usage(live)
    ensures exists p, i :: p in live && 0 <= i < Hopcount(p.path) && PathNames.EdgeKey(p.path[i], p.path[i + 1]) == k
  {
    hide PathNames.EdgeKey, HopKeys;
    var n := |live| - 1;
    if k in Usage(live[..n]) {
      InUsage(live[..n], k);
    } else {
      InHopKeys(live[n].path, Hopcount(live[n].path), k);
    }
  }

  ghost predicate Plain(path: seq<Node>) {
    forall h :: h in path ==> PathNames.ArrowFree(h)
  }

  lemma SameHop(p: seq<Node>, i: nat, q: seq<Node>, j: nat)
    requires Plain(p) && Plain(q) && i + 1 < |p| && j + 1 < |q|
    requires PathNames.EdgeKey(p[i], p[i + 1]) == PathNames.EdgeKey(q[j], q[j + 1])
    ensures p[i] == q[j] && p[i + 1] == q[j + 1]
  {
    hide PathNames.EdgeKey, PathNames.Join, PathNames.ArrowFree;
    PathNames.KeyIsJoin(p[i], p[i + 1]);
    PathNames.KeyIsJoin(q[j], q[j + 1]);
    PathNames.JoinIsInjective([p[i], p[i + 1]], [q[j], q[j + 1]]);
    assert [p[i], p[i + 1]][0] == [q[j], q[j + 1]][0] && [p[i], p[i + 1]][1] == [q[j], q[j + 1]][1];
  }

  lemma {:induction false} NewHopsCount(usage: multiset<string>, path: seq<Node>, n: nat)
    requires Plain(path) && NoDup(path) && (n == 0 || n < |path|)
    requires forall i :: 0 <= i < n ==> PathNames.EdgeKey(path[i], path[i + 1]) !in usage
    ensures Diversity(usage + HopKeys(path, n)) == Diversity(usage) + n as real
  {
    hide PathNames.EdgeKey, Diversity, Plain, HopKeys, NoDup;
    if n == 0 {
      NothingCounted(path, map[], usage);
    } else {
      var m := n - 1;
      NewHopsCount(usage, path, m);
      NextKey(path, m, usage);
      NextKeyIsNew(path, m);
      OneMoreUser(usage + HopKeys(path, m), PathNames.EdgeKey(path[m], path[m + 1]));
    }
  }

  lemma NextKeyIsNew(path: seq<Node>, n: nat)
    requires Plain(path) && NoDup(path) && n + 1 < |path|
    ensures PathNames.EdgeKey(path[n], path[n + 1]) !in HopKeys(path, n)
  {
    hide PathNames.EdgeKey, Plain;
    var k := PathNames.EdgeKey(path[n], path[n + 1]);
    InHopKeys(path, n, k);
    forall i | 0 <= i < n
      ensures PathNames.EdgeKey(path[i], path[i + 1]) != k
    {
      assert path[i] != path[n];
      KeysDiffer(path, i, n);
    }
  }

  lemma KeysDiffer(path: seq<Node>, i: nat, j: nat)
    requires Plain(path) && i < j && j + 1 < |path| && path[i] != path[j]
    ensures PathNames.EdgeKey(path[i], path[i + 1]) != PathNames.EdgeKey(path[j], path[j + 1])
  {
    hide PathNames.EdgeKey, Plain;
    if PathNames.EdgeKey(path[i], path[i + 1]) == PathNames.EdgeKey(path[j], path[j + 1]) {
      SameHop(path, i, path, j);
    }
  }

  /** No live path takes a hop of this one. */
  ghost predicate Apart(live: seq<PathWithInfo>, path: seq<Node>) {
    forall q, u, v :: q in live && OnHop(path, u, v) ==> !OnHop(q.path, u, v)
  }

  lemma KeyIsOnHop(live: seq<PathWithInfo>, path: seq<Node>, i: nat)
    requires Plain(path) && (forall q :: q in live ==> Plain(q.path)) && i + 1 < |path|
    requires PathNames.EdgeKey(path[i], path[i + 1]) in Usage(live)
    ensures exists q :: q in live && OnHop(q.path, path[i], path[i + 1])
  {
    hide PathNames.EdgeKey, Plain, Usage;
    var k := PathNames.EdgeKey(path[i], path[i + 1]);
    InUsage(live, k);
    var q, j :| q in live && 0 <= j < Hopcount(q.path) && PathNames.EdgeKey(q.path[j], q.path[j + 1]) == k;
    SameHop(path, i, q.path, j);
    assert OnHop(q.path, path[i], path[i + 1]);
  }

  lemma NewKeys(live: seq<PathWithInfo>, path: seq<Node>, i: nat)
    requires Plain(path) && (forall q :: q in live ==> Plain(q.path)) && Apart(live, path) && i + 1 < |path|
    ensures PathNames.EdgeKey(path[i], path[i + 1]) !in Usage(live)
  {
    hide PathNames.EdgeKey, Plain, Usage;
    assert OnHop(path, path[i], path[i + 1]);
    if PathNames.EdgeKey(path[i], path[i + 1]) in Usage(live) {
      KeyIsOnHop(live, path, i);
    }
  }

  /** A simple path over edges no other path uses adds ten, its hop count, and takes off a tenth
      of its latency and the congestion along it. */
  lemma NewPathScores(live: seq<PathWithInfo>, p: PathWithInfo, graph: FlowGraph)
    requires Plain(p.path) && (forall q :: q in live ==> Plain(q.path)) && NoDup(p.path) && Apart(live, p.path)
    ensures Diversity(Usage(live + [p])) == Diversity(Usage(live)) + Hopcount(p.path) as real
    ensures Score(live + [p], graph)
         == Score(live, graph) + 10.0 + Hopcount(p.path) as real - p.latency / 10.0 - PathCongestion(graph, p.path, Hopcount(p.path))
  {
    hide PathCongestion, Diversity, HopKeys, NoDup, Plain, Apart, PathNames.EdgeKey;
    assert (live + [p])[..|live|] == live;
    forall i | 0 <= i < Hopcount(p.path)
      ensures PathNames.EdgeKey(p.path[i], p.path[i + 1]) !in Usage(live)
    {
      NewKeys(live, p.path, i);
    }
    NewHopsCount(Usage(live), p.path, Hopcount(p.path));
    NothingShared();
  }

  lemma NothingShared()
    ensures Diversity(multiset{}) == 0.0
  {
  }

  // ---------- The computation ----------

  lemma Reassociate(a: multiset<string>, b: multiset<string>, c: multiset<string>)
    ensures (a + b) + c == a + (b + c)
  {
  }

  lemma NextKey(path: seq<Node>, i: nat, usage: multiset<string>)
    requires i + 1 < |path|
    ensures usage + HopKeys(path, i + 1) == (usage + HopKeys(path, i)) + multiset{PathNames.EdgeKey(path[i], path[i + 1])}
  {
    Reassociate(usage, HopKeys(path, i), multiset{PathNames.EdgeKey(path[i], path[i + 1])});
  }

  lemma NothingCounted(path: seq<Node>, graph: FlowGraph, usage: multiset<string>)
    ensures usage + HopKeys(path, 0) == usage && PathCongestion(graph, path, 0) == 0.0
  {
  }

  /** The hops of one path. */
  method CountHops(path: seq<Node>, graph: FlowGraph, usage: multiset<string>, congestion: real)
    returns (usage': multiset<string>, congestion': real)
    ensures usage' == usage + HopKeys(path, Hopcount(path))
    ensures congestion' == congestion + PathCongestion(graph, path, Hopcount(path))
  {
    hide PathNames.EdgeKey, HopCongestion, HopKeys;
    usage', congestion' := usage, congestion;
    NothingCounted(path, graph, usage);
    var i, n := 0, if |path| == 0 then 0 else |path| - 1;
    while i < n
      invariant 0 <= i <= n
      invariant usage' == usage + HopKeys(path, i)
      invariant congestion' == congestion + PathCongestion(graph, path, i)
    {
      NextKey(path, i, usage);
      usage' := usage' + multiset{PathNames.EdgeKey(path[i], path[i + 1])};
      congestion' := congestion' + HopCongestion(graph, path[i], path[i + 1]);
      i := i + 1;
    }
  }

  method Objective(live: seq<PathWithInfo>, graph: FlowGraph) returns (score: real)
    ensures score == Score(live, graph)
  {
    hide HopKeys, PathCongestion, Diversity;
    if |live| == 0 {
      return 0.0;
    }
    var edgeUsage: multiset<string> := multiset{};
    var totalLatency, totalCongestion := 0.0, 0.0;
    for n := 0 to |live|
      invariant edgeUsage == Usage(live[..n])
      invariant totalLatency == TotalLatency(live[..n])
      invariant totalCongestion == TotalCongestion(graph, live[..n])
    {
      edgeUsage, totalCongestion := CountHops(live[n].path, graph, edgeUsage, totalCongestion);
      totalLatency := totalLatency + live[n].latency;
      assert live[..n + 1][..n] == live[..n];
    }
    assert live[..|live|] == live;
    var diversityScore := SumShares(edgeUsage);
    score := |live| as real * PATH_WEIGHT + diversityScore * DIVERSITY_WEIGHT
             - totalLatency * LATENCY_WEIGHT - totalCongestion * CONGESTION_WEIGHT;
  }

  /** The loop over the usage map, in any order. */
  method SumShares(usage: multiset<string>) returns (sum: real)
    ensures sum == Diversity(usage)
  {
    sum := 0.0;
    var todo := usage;
    while todo != multiset{}
      invariant sum + Diversity(todo) == Diversity(usage)
      decreases |todo|
    {
      var k :| k in todo;
      DiversityOf(todo, k);
      sum := sum + 1.0 / todo[k] as real;
      todo := todo[k := 0];
    }
  }
}
