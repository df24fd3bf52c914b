/** `findShortestPath`: a lazy Dijkstra that stops relaxing as soon as the end node has a
    label.  What it returns is a shortest trail to a nearest predecessor of the end node,
    prolonged by the cheapest edge into it. */
module EarlyCutDijkstra {
  import opened Optional
  import opened Overlay
  import Ordering

  datatype Path = Path(hops: seq<Node>, cost: real, rawRTT: real)

  /** A tentative distance; a node the search has not reached is at infinity. */
  datatype Dist = Inf | Fin(v: real)

  datatype PQNode = PQNode(node: Node, cost: real)

  /** The tables of one search.  `rtt` and `prev` hold entries for reached nodes only. */
  datatype Tables = Tables(dist: map<Node, Dist>, rtt: map<Node, real>, prev: map<Node, Node>, queue: multiset<PQNode>)

  /** A label read from the map: a key that was never written reads as zero. */
  function Label(dist: map<Node, Dist>, n: Node): Dist {
    if n in dist then dist[n] else Fin(0.0)
  }

  // ---------- What the search computes ----------

  ghost predicate Avoids(g: Adjacency, forbidden: set<Node>, start: Node, t: Trail) {
    IsTrail(g, forbidden, t) && t.hops[0] == start
  }

  ghost function LastHop(t: Trail): Node
    requires |t.hops| > 0
  {
    t.hops[|t.hops| - 1]
  }

  /** u is a nearest predecessor of end: no trail to any node with an edge into end is
      cheaper than d. */
  ghost predicate NearestPredecessor(g: Adjacency, useLatency: bool, forbidden: set<Node>, start: Node, end: Node, d: real) {
    forall q :: Avoids(g, forbidden, start, q) && HasArc(g, LastHop(q), end) ==> d <= Cost(useLatency, q.edges)
  }

  ghost predicate CheapestArc(g: Adjacency, useLatency: bool, u: Node, e: Edge) {
    forall e' :: e' in Out(g, u) && e'.dest == e.dest ==> EdgeCost(useLatency, e) <= EdgeCost(useLatency, e')
  }

  /** The trail found: duplicate-free, from start to end; unless it is trivial, its last
      edge is the cheapest one from a nearest predecessor of end, reached at least cost. */
  ghost predicate Found(g: Adjacency, useLatency: bool, forbidden: set<Node>, start: Node, end: Node, t: Trail) {
    && Avoids(g, forbidden, start, t)
    && LastHop(t) == end
    && NoDup(t.hops)
    && (start == end ==> t == Trail([start], []))
    && (start != end ==>
          var n := |t.edges| - 1;
          && n >= 0
          && NearestPredecessor(g, useLatency, forbidden, start, end, Cost(useLatency, t.edges[..n]))
          && CheapestArc(g, useLatency, t.hops[n], t.edges[n]))
  }

  lemma FoundIsSimple(g: Adjacency, useLatency: bool, forbidden: set<Node>, start: Node, end: Node, t: Trail)
    requires Found(g, useLatency, forbidden, start, end, t)
    ensures IsTrail(g, forbidden, t) && Joins(t, start, end) && NoDup(t.hops)
  {
    hide NearestPredecessor, CheapestArc;
  }

  /** The path record carries the hops of the trail and its exact sums. */
  ghost predicate Records(useLatency: bool, p: Path, t: Trail) {
    p.hops == t.hops && p.cost == Cost(useLatency, t.edges) && p.rawRTT == Cost(true, t.edges)
  }

  // ---------- Invariants ----------

  /** Every labelled node carries a trail: duplicate-free, of exactly the labelled cost,
      through settled nodes, and `prev` names its last but one hop. */
  ghost predicate LabelsHold(g: Adjacency, useLatency: bool, forbidden: set<Node>, start: Node,
                             t: Tables, trails: map<Node, Trail>, settled: set<Node>) {
    && Reached(t, trails, settled)
    && start in trails && trails[start] == Trail([start], []) && start !in t.prev
    && TrailsHold(g, useLatency, forbidden, start, t, trails, settled)
    && PrevsHold(t.prev, trails, settled, start)
  }

  ghost predicate Reached(t: Tables, trails: map<Node, Trail>, settled: set<Node>) {
    && (forall n :: n in trails <==> Labelled(t, n))
    && (forall n :: n in trails ==> n in t.rtt)
    && settled <= trails.Keys
  }

  ghost predicate TrailsHold(g: Adjacency, useLatency: bool, forbidden: set<Node>, start: Node,
                             t: Tables, trails: map<Node, Trail>, settled: set<Node>)
    requires Reached(t, trails, settled)
  {
    forall n :: n in trails ==> TrailHolds(g, useLatency, forbidden, start, trails[n], settled, n, t.dist[n].v, t.rtt[n])
  }

  ghost predicate PrevsHold(prev: map<Node, Node>, trails: map<Node, Trail>, settled: set<Node>, start: Node) {
    forall n :: n in trails && n != start ==> PrevHolds(prev, trails, settled, n)
  }

  ghost predicate TrailHolds(g: Adjacency, useLatency: bool, forbidden: set<Node>, start: Node,
                             tr: Trail, settled: set<Node>, n: Node, d: real, r: real) {
    && Avoids(g, forbidden, start, tr) && LastHop(tr) == n && NoDup(tr.hops)
    && Cost(useLatency, tr.edges) == d && Cost(true, tr.edges) == r
    && (forall i :: 0 <= i < |tr.hops| - 1 ==> tr.hops[i] in settled)
  }

  ghost predicate PrevHolds(prev: map<Node, Node>, trails: map<Node, Trail>, settled: set<Node>, n: Node)
    requires n in trails
  {
    && n in prev && prev[n] in settled && prev[n] in trails
    && trails[n].hops == trails[prev[n]].hops + [n]
  }

  ghost predicate Labelled(t: Tables, n: Node) {
    n in t.dist && t.dist[n].Fin?
  }

  /** Queue entries are labelled nodes, no entry occurs twice, none beats the label, and
      entries of settled nodes are stale. */
  ghost predicate QueueHolds(t: Tables, settled: set<Node>) {
    forall x :: x in t.queue ==>
      && t.queue[x] == 1 && Labelled(t, x.node) && t.dist[x.node].v <= x.cost
      && (x.node in settled ==> t.dist[x.node].v < x.cost)
  }

  /** Settled labels are at most cur; the others are at least cur and still queued. */
  ghost predicate FrontierHolds(t: Tables, settled: set<Node>, cur: real) {
    && (forall n :: n in settled ==> Labelled(t, n) && t.dist[n].v <= cur)
    && (forall n :: Labelled(t, n) && n !in settled ==> cur <= t.dist[n].v && PQNode(n, t.dist[n].v) in t.queue)
    && (forall x :: x in t.queue ==> cur <= x.cost)
  }

  ghost predicate RelaxedEdge(useLatency: bool, forbidden: set<Node>, t: Tables, s: Node, e: Edge)
    requires Labelled(t, s)
  {
    e.dest !in forbidden ==> Labelled(t, e.dest) && t.dist[e.dest].v <= t.dist[s].v + EdgeCost(useLatency, e)
  }

  ghost predicate Relaxed(g: Adjacency, useLatency: bool, forbidden: set<Node>, t: Tables, s: Node)
    requires Labelled(t, s)
  {
    forall e :: e in Out(g, s) ==> RelaxedEdge(useLatency, forbidden, t, s, e)
  }

  ghost predicate AllRelaxed(g: Adjacency, useLatency: bool, forbidden: set<Node>, t: Tables, settled: set<Node>) {
    forall s :: s in settled ==> Labelled(t, s) && Relaxed(g, useLatency, forbidden, t, s)
  }

  /** While the end node is unlabelled the search is an ordinary Dijkstra. */
  ghost predicate Searching(g: Adjacency, useLatency: bool, forbidden: set<Node>, start: Node,
                            t: Tables, trails: map<Node, Trail>, settled: set<Node>, cur: real) {
    && LabelsHold(g, useLatency, forbidden, start, t, trails, settled)
    && QueueHolds(t, settled)
    && FrontierHolds(t, settled, cur)
    && AllRelaxed(g, useLatency, forbidden, t, settled)
    && 0.0 <= cur
  }

  // ---------- Dijkstra's lower bound ----------

  /** Every trail either ends in a settled node, at no less than its label, or costs at
      least cur. */
  lemma {:induction false} LowerBound(g: Adjacency, useLatency: bool, forbidden: set<Node>, start: Node,
                                      t: Tables, trails: map<Node, Trail>, settled: set<Node>, cur: real, q: Trail)
    requires NonNegative(g, useLatency)
    requires LabelsHold(g, useLatency, forbidden, start, t, trails, settled)
    requires AllRelaxed(g, useLatency, forbidden, t, settled)
    requires forall n :: Labelled(t, n) && n !in settled ==> cur <= t.dist[n].v
    requires Avoids(g, forbidden, start, q)
    ensures (LastHop(q) in settled && t.dist[LastHop(q)].v <= Cost(useLatency, q.edges)) || cur <= Cost(useLatency, q.edges)
    decreases |q.edges|
  {
    if q.edges == [] {
      assert LastHop(q) == start && Labelled(t, start);
      assert Cost(useLatency, trails[start].edges) == 0.0;
    } else {
      var n := |q.edges| - 1;
      var e := q.edges[n];
      var p := Prefix(q, n);
      TrailPrefix(g, forbidden, q, n);
      LowerBound(g, useLatency, forbidden, start, t, trails, settled, cur, p);
      var s := LastHop(p);
      assert s == q.hops[n];
      assert e in Out(g, s) && e.dest == q.hops[n + 1];
      assert EdgeCost(useLatency, e) >= 0.0;
      if s in settled && t.dist[s].v <= Cost(useLatency, p.edges) {
        assert RelaxedEdge(useLatency, forbidden, t, s, e);
      }
    }
  }

  /** With nothing queued, the end node unlabelled and every settled node relaxed, no trail
      reaches the end node. */
  lemma {:induction false} ExhaustedMeansUnreachable(g: Adjacency, useLatency: bool, forbidden: set<Node>, start: Node,
                                                     t: Tables, trails: map<Node, Trail>, settled: set<Node>, cur: real, q: Trail)
    requires Searching(g, useLatency, forbidden, start, t, trails, settled, cur)
    requires t.queue == multiset{}
    requires Avoids(g, forbidden, start, q)
    ensures Labelled(t, LastHop(q))
    decreases |q.edges|
  {
    if q.edges != [] {
      var n := |q.edges| - 1;
      TrailPrefix(g, forbidden, q, n);
      ExhaustedMeansUnreachable(g, useLatency, forbidden, start, t, trails, settled, cur, Prefix(q, n));
      var s := LastHop(Prefix(q, n));
      assert s in settled;
      assert q.edges[n] in Out(g, s);
      assert RelaxedEdge(useLatency, forbidden, t, s, q.edges[n]);
    }
  }

  /** A trail ends where it starts or at the destination of an edge. */
  lemma TrailsEndAtKnownNodes(g: Adjacency, forbidden: set<Node>, start: Node, q: Trail)
    requires Avoids(g, forbidden, start, q)
    ensures LastHop(q) in AllNodes(g) + {start}
  {
    var n := |q.edges| - 1;
    if n >= 0 {
      assert q.edges[n] in Out(g, q.hops[n]);
      assert q.edges[n].dest in Dests(g);
    }
  }

  // ---------- The search ----------

  /** e leads from the settled node u to a node whose label it improves, and t' is t with
      that improvement made. */
  ghost predicate Improves(g: Adjacency, useLatency: bool, forbidden: set<Node>, u: Node, e: Edge, t: Tables, t': Tables) {
    && Labelled(t, u) && u in t.rtt && e in Out(g, u) && e.dest !in forbidden && e.dest in t.dist
    && var c := t.dist[u].v + EdgeCost(useLatency, e);
       && (Labelled(t, e.dest) ==> c < t.dist[e.dest].v)
       && t' == Tables(t.dist[e.dest := Fin(c)], t.rtt[e.dest := t.rtt[u] + e.latency],
                       t.prev[e.dest := u], t.queue + multiset{PQNode(e.dest, c)})
  }

  lemma ImprovedIsUnsettled(g: Adjacency, useLatency: bool, forbidden: set<Node>, start: Node, u: Node, e: Edge,
                            t: Tables, t': Tables, trails: map<Node, Trail>, settled: set<Node>)
    requires NonNegative(g, useLatency)
    requires LabelsHold(g, useLatency, forbidden, start, t, trails, settled)
    requires Improves(g, useLatency, forbidden, u, e, t, t')
    requires FrontierHolds(t, settled, t.dist[u].v)
    ensures e.dest !in settled && e.dest != start
  {
    assert EdgeCost(useLatency, e) >= 0.0;
    assert TrailHolds(g, useLatency, forbidden, start, trails[start], settled, start, t.dist[start].v, t.rtt[start]);
    assert Cost(useLatency, trails[start].edges) == 0.0;
    CostNonNegative(g, useLatency, forbidden, trails[u]);
  }

  lemma ImprovedTrail(g: Adjacency, useLatency: bool, forbidden: set<Node>, start: Node, u: Node, e: Edge,
                      t: Tables, t': Tables, tr: Trail, settled: set<Node>)
    requires Improves(g, useLatency, forbidden, u, e, t, t')
    requires TrailHolds(g, useLatency, forbidden, start, tr, settled, u, t.dist[u].v, t.rtt[u])
    requires u in settled && e.dest !in settled
    ensures TrailHolds(g, useLatency, forbidden, start, Extend(tr, e), settled, e.dest, t'.dist[e.dest].v, t'.rtt[e.dest])
  {
    TrailExtend(g, forbidden, tr, e);
    CostSnoc(useLatency, tr.edges, e);
    CostSnoc(true, tr.edges, e);
    var tr' := Extend(tr, e);
    forall i | 0 <= i < |tr'.hops| - 1
      ensures tr'.hops[i] in settled
    {
      assert tr'.hops[i] == tr.hops[i];
      assert i == |tr.hops| - 1 ==> tr.hops[i] == u;
    }
  }

  lemma ImproveKeepsTrails(g: Adjacency, useLatency: bool, forbidden: set<Node>, start: Node, u: Node, e: Edge,
                           t: Tables, t': Tables, trails: map<Node, Trail>, tr: Trail, settled: set<Node>)
    requires Reached(t, trails, settled) && TrailsHold(g, useLatency, forbidden, start, t, trails, settled)
    requires Improves(g, useLatency, forbidden, u, e, t, t')
    requires TrailHolds(g, useLatency, forbidden, start, tr, settled, e.dest, t'.dist[e.dest].v, t'.rtt[e.dest])
    ensures Reached(t', trails[e.dest := tr], settled)
    ensures TrailsHold(g, useLatency, forbidden, start, t', trails[e.dest := tr], settled)
  {
    hide TrailHolds;
    var trails' := trails[e.dest := tr];
    assert forall n :: Labelled(t', n) <==> Labelled(t, n) || n == e.dest;
    assert Reached(t', trails', settled);
    forall n | n in trails'
      ensures TrailHolds(g, useLatency, forbidden, start, trails'[n], settled, n, t'.dist[n].v, t'.rtt[n])
    {
      if n != e.dest {
        assert TrailHolds(g, useLatency, forbidden, start, trails[n], settled, n, t.dist[n].v, t.rtt[n]);
      }
    }
  }

  lemma ImproveKeepsPrevs(prev: map<Node, Node>, trails: map<Node, Trail>, settled: set<Node>, start: Node,
                          u: Node, v: Node, tr: Trail)
    requires PrevsHold(prev, trails, settled, start)
    requires u in settled && u in trails && v !in settled && tr.hops == trails[u].hops + [v]
    ensures PrevsHold(prev[v := u], trails[v := tr], settled, start)
  {
    forall n | n in trails && n != start && n != v
      ensures PrevHolds(prev[v := u], trails[v := tr], settled, n)
    {
      assert PrevHolds(prev, trails, settled, n);
    }
  }

  lemma TrailOf(g: Adjacency, useLatency: bool, forbidden: set<Node>, start: Node,
                t: Tables, trails: map<Node, Trail>, settled: set<Node>, u: Node)
    requires Reached(t, trails, settled) && TrailsHold(g, useLatency, forbidden, start, t, trails, settled) && u in trails
    ensures TrailHolds(g, useLatency, forbidden, start, trails[u], settled, u, t.dist[u].v, t.rtt[u])
  {
    hide TrailHolds;
  }

  lemma ImproveKeepsLabels(g: Adjacency, useLatency: bool, forbidden: set<Node>, start: Node, u: Node, e: Edge,
                           t: Tables, t': Tables, trails: map<Node, Trail>, settled: set<Node>)
    requires LabelsHold(g, useLatency, forbidden, start, t, trails, settled)
    requires Improves(g, useLatency, forbidden, u, e, t, t')
    requires u in settled && e.dest !in settled && e.dest != start
    ensures t'.dist.Keys == t.dist.Keys
    ensures LabelsHold(g, useLatency, forbidden, start, t', trails[e.dest := Extend(trails[u], e)], settled)
  {
    hide TrailsHold, PrevsHold, TrailHolds;
    TrailOf(g, useLatency, forbidden, start, t, trails, settled, u);
    ImprovedTrail(g, useLatency, forbidden, start, u, e, t, t', trails[u], settled);
    ImproveKeepsTrails(g, useLatency, forbidden, start, u, e, t, t', trails, Extend(trails[u], e), settled);
    ImproveKeepsPrevs(t.prev, trails, settled, start, u, e.dest, Extend(trails[u], e));
  }

  lemma ImproveKeepsQueue(g: Adjacency, useLatency: bool, forbidden: set<Node>, u: Node, e: Edge,
                          t: Tables, t': Tables, settled: set<Node>)
    requires NonNegative(g, useLatency)
    requires Improves(g, useLatency, forbidden, u, e, t, t')
    requires u in settled && e.dest !in settled
    requires QueueHolds(t, settled) && FrontierHolds(t, settled, t.dist[u].v)
    ensures QueueHolds(t', settled) && FrontierHolds(t', settled, t.dist[u].v)
  {
    var c := t.dist[u].v + EdgeCost(useLatency, e);
    assert c >= t.dist[u].v;
    var y := PQNode(e.dest, c);
    assert y !in t.queue;
    forall x | x in t'.queue
      ensures && t'.queue[x] == 1 && Labelled(t', x.node) && t'.dist[x.node].v <= x.cost
              && (x.node in settled ==> t'.dist[x.node].v < x.cost)
    {
      assert x == y || x in t.queue;
    }
    forall n | Labelled(t', n) && n !in settled
      ensures t.dist[u].v <= t'.dist[n].v && PQNode(n, t'.dist[n].v) in t'.queue
    {
      assert n == e.dest || Labelled(t, n);
    }
  }

  /** Labels only shrink, and those of settled nodes stay. */
  ghost predicate Shrinks(t: Tables, t': Tables, settled: set<Node>) {
    && (forall n :: Labelled(t, n) ==> Labelled(t', n) && t'.dist[n].v <= t.dist[n].v)
    && (forall n :: n in settled && Labelled(t, n) ==> t'.dist[n] == t.dist[n])
  }

  lemma ShrinkKeepsRelaxed(g: Adjacency, useLatency: bool, forbidden: set<Node>, t: Tables, t': Tables,
                           settled: set<Node>, s: Node, e: Edge)
    requires Shrinks(t, t', settled) && s in settled && Labelled(t, s)
    requires RelaxedEdge(useLatency, forbidden, t, s, e)
    ensures Labelled(t', s) && RelaxedEdge(useLatency, forbidden, t', s, e)
  {
  }

  /** What one pass over the edges of the settled node u keeps, from t0 to t. */
  ghost predicate Relaxing(g: Adjacency, useLatency: bool, forbidden: set<Node>, start: Node, u: Node, settled: set<Node>,
                           t0: Tables, trails0: map<Node, Trail>, t: Tables, trails: map<Node, Trail>) {
    && u in settled && Labelled(t0, u) && Labelled(t, u)
    && LabelsHold(g, useLatency, forbidden, start, t, trails, settled)
    && QueueHolds(t, settled) && FrontierHolds(t, settled, t0.dist[u].v)
    && t.dist.Keys == t0.dist.Keys && Shrinks(t0, t, settled)
    && (forall n :: n in settled ==> n in trails0 && trails[n] == trails0[n])
    && (forall n :: n in trails && n !in trails0 ==> ViaEdge(g, u, trails[u], trails[n]))
  }

  /** tr is the trail to u prolonged by an edge of u. */
  ghost predicate ViaEdge(g: Adjacency, u: Node, toU: Trail, tr: Trail) {
    var n := |tr.edges| - 1;
    n >= 0 && tr.edges[n] in Out(g, u) && tr == Extend(toU, tr.edges[n])
  }

  lemma ImproveKeepsRelaxing(g: Adjacency, useLatency: bool, forbidden: set<Node>, start: Node, u: Node, e: Edge, t: Tables, t': Tables,
                             trails: map<Node, Trail>, settled: set<Node>, t0: Tables, trails0: map<Node, Trail>)
    requires NonNegative(g, useLatency) && Improves(g, useLatency, forbidden, u, e, t, t')
    requires Relaxing(g, useLatency, forbidden, start, u, settled, t0, trails0, t, trails)
    ensures Relaxing(g, useLatency, forbidden, start, u, settled, t0, trails0, t', trails[e.dest := Extend(trails[u], e)])
    ensures Shrinks(t, t', settled)
  {
    hide TrailsHold, PrevsHold, TrailHolds, PrevHolds, QueueHolds, FrontierHolds, NonNegative;
    ImprovedIsUnsettled(g, useLatency, forbidden, start, u, e, t, t', trails, settled);
    ImproveKeepsLabels(g, useLatency, forbidden, start, u, e, t, t', trails, settled);
    ImproveKeepsQueue(g, useLatency, forbidden, u, e, t, t', settled);
    assert Shrinks(t, t', settled);
    assert ViaEdge(g, u, trails[u], Extend(trails[u], e));
  }

  method RelaxEdge(g: Adjacency, useLatency: bool, forbidden: set<Node>, start: Node, u: Node, e: Edge, t: Tables,
                   ghost trails: map<Node, Trail>, ghost settled: set<Node>, ghost t0: Tables, ghost trails0: map<Node, Trail>)
    returns (t': Tables, ghost trails': map<Node, Trail>)
    requires NonNegative(g, useLatency) && e in Out(g, u) && e.dest in t.dist
    requires Relaxing(g, useLatency, forbidden, start, u, settled, t0, trails0, t, trails)
    ensures Relaxing(g, useLatency, forbidden, start, u, settled, t0, trails0, t', trails')
    ensures RelaxedEdge(useLatency, forbidden, t', u, e) && Shrinks(t, t', settled)
  {
    hide TrailsHold, PrevsHold, QueueHolds, FrontierHolds, NonNegative;
    t', trails' := t, trails;
    if e.dest !in forbidden {
      var newCost := t.dist[u].v + EdgeCost(useLatency, e);
      var newRTT := t.rtt[u] + e.latency;
      if t.dist[e.dest].Inf? || newCost < t.dist[e.dest].v {
        t' := Tables(t.dist[e.dest := Fin(newCost)], t.rtt[e.dest := newRTT],
                     t.prev[e.dest := u], t.queue + multiset{PQNode(e.dest, newCost)});
        trails' := trails[e.dest := Extend(trails[u], e)];
        ImproveKeepsRelaxing(g, useLatency, forbidden, start, u, e, t, t', trails, settled, t0, trails0);
      }
    }
  }

  /** The inner loop: relax every edge leaving the node u just settled. */
  method RelaxEdges(g: Adjacency, useLatency: bool, forbidden: set<Node>, start: Node, u: Node,
                    t0: Tables, ghost trails0: map<Node, Trail>, ghost settled: set<Node>)
    returns (t: Tables, ghost trails: map<Node, Trail>)
    requires NonNegative(g, useLatency)
    requires Relaxing(g, useLatency, forbidden, start, u, settled, t0, trails0, t0, trails0)
    requires AllRelaxed(g, useLatency, forbidden, t0, settled - {u})
    requires forall e :: e in Out(g, u) ==> e.dest in t0.dist
    ensures Relaxing(g, useLatency, forbidden, start, u, settled, t0, trails0, t, trails)
    ensures AllRelaxed(g, useLatency, forbidden, t, settled)
  {
    hide LabelsHold, QueueHolds, FrontierHolds;
    t, trails := t0, trails0;
    var edges := Out(g, u);
    for i := 0 to |edges|
      invariant Relaxing(g, useLatency, forbidden, start, u, settled, t0, trails0, t, trails)
      invariant forall j :: 0 <= j < i ==> RelaxedEdge(useLatency, forbidden, t, u, edges[j])
    {
      ghost var before := t;
      t, trails := RelaxEdge(g, useLatency, forbidden, start, u, edges[i], t, trails, settled, t0, trails0);
      forall j | 0 <= j < i
        ensures RelaxedEdge(useLatency, forbidden, t, u, edges[j])
      {
        ShrinkKeepsRelaxed(g, useLatency, forbidden, before, t, settled, u, edges[j]);
      }
    }
    RelaxedAgain(g, useLatency, forbidden, t0, t, settled, u);
  }

  lemma RelaxedAgain(g: Adjacency, useLatency: bool, forbidden: set<Node>, t: Tables, t': Tables, settled: set<Node>, u: Node)
    requires u in settled && AllRelaxed(g, useLatency, forbidden, t, settled - {u}) && Labelled(t, u)
    requires Shrinks(t, t', settled)
    requires Relaxed(g, useLatency, forbidden, t', u)
    ensures AllRelaxed(g, useLatency, forbidden, t', settled)
  {
    forall s | s in settled
      ensures Labelled(t', s) && Relaxed(g, useLatency, forbidden, t', s)
    {
      if s != u {
        assert s in settled - {u};
        forall e | e in Out(g, s)
          ensures RelaxedEdge(useLatency, forbidden, t', s, e)
        {
          ShrinkKeepsRelaxed(g, useLatency, forbidden, t, t', settled, s, e);
        }
      }
    }
  }

  // ---------- Settling a node ----------

  /** A fresh entry of least cost names an unsettled node, which may now be settled. */
  lemma SettleHolds(g: Adjacency, useLatency: bool, forbidden: set<Node>, start: Node,
                    t: Tables, t': Tables, trails: map<Node, Trail>, settled: set<Node>, cur: real, x: PQNode)
    requires Searching(g, useLatency, forbidden, start, t, trails, settled, cur)
    requires x in t.queue && (forall y :: y in t.queue ==> x.cost <= y.cost)
    requires Labelled(t, x.node) && x.cost <= t.dist[x.node].v
    requires t' == t.(queue := t.queue - multiset{x})
    ensures x.node !in settled && 0.0 <= t'.dist[x.node].v
    ensures AllRelaxed(g, useLatency, forbidden, t', settled)
    ensures Relaxing(g, useLatency, forbidden, start, x.node, settled + {x.node}, t', trails, t', trails)
  {
    hide AllRelaxed, QueueHolds, FrontierHolds, TrailsHold, PrevsHold;
    SettleKeepsQueue(t, t', settled, cur, x);
    SettleKeepsRelaxed(g, useLatency, forbidden, t, t', settled);
    SettleKeepsLabels(g, useLatency, forbidden, start, t, t', trails, settled, x.node);
  }

  lemma SettleKeepsRelaxed(g: Adjacency, useLatency: bool, forbidden: set<Node>, t: Tables, t': Tables, settled: set<Node>)
    requires AllRelaxed(g, useLatency, forbidden, t, settled) && t'.dist == t.dist
    ensures AllRelaxed(g, useLatency, forbidden, t', settled)
  {
    forall s | s in settled
      ensures Labelled(t', s) && Relaxed(g, useLatency, forbidden, t', s)
    {
      forall e | e in Out(g, s)
        ensures RelaxedEdge(useLatency, forbidden, t', s, e)
      {
        assert RelaxedEdge(useLatency, forbidden, t, s, e);
      }
    }
  }

  lemma SettleKeepsQueue(t: Tables, t': Tables, settled: set<Node>, cur: real, x: PQNode)
    requires QueueHolds(t, settled) && FrontierHolds(t, settled, cur)
    requires x in t.queue && (forall y :: y in t.queue ==> x.cost <= y.cost)
    requires Labelled(t, x.node) && x.cost <= t.dist[x.node].v
    requires t' == t.(queue := t.queue - multiset{x})
    ensures x.node !in settled && x.cost == t.dist[x.node].v && cur <= x.cost
    ensures QueueHolds(t', settled + {x.node}) && FrontierHolds(t', settled + {x.node}, x.cost)
  {
    assert t.queue[x] == 1;
    assert forall y :: y in t'.queue <==> y in t.queue && y != x;
    assert forall y :: y in t'.queue ==> t'.queue[y] == t.queue[y];
    assert forall n :: Labelled(t', n) <==> Labelled(t, n);
  }

  lemma SettleKeepsLabels(g: Adjacency, useLatency: bool, forbidden: set<Node>, start: Node,
                          t: Tables, t': Tables, trails: map<Node, Trail>, settled: set<Node>, u: Node)
    requires LabelsHold(g, useLatency, forbidden, start, t, trails, settled)
    requires t'.dist == t.dist && t'.rtt == t.rtt && t'.prev == t.prev && Labelled(t, u)
    ensures LabelsHold(g, useLatency, forbidden, start, t', trails, settled + {u})
  {
    hide IsTrail, NoDup, Cost, Avoids;
    assert forall n :: Labelled(t', n) == Labelled(t, n);
    forall n | n in trails
      ensures TrailHolds(g, useLatency, forbidden, start, trails[n], settled + {u}, n, t'.dist[n].v, t'.rtt[n])
    {
      assert TrailHolds(g, useLatency, forbidden, start, trails[n], settled, n, t.dist[n].v, t.rtt[n]);
    }
    forall n | n in trails && n != start
      ensures PrevHolds(t'.prev, trails, settled + {u}, n)
    {
      assert PrevHolds(t.prev, trails, settled, n);
    }
  }

  /** The end node gets its label while u is relaxed, and no earlier: u is a nearest
      predecessor of it. */
  lemma FirstLabelIsNearest(g: Adjacency, useLatency: bool, forbidden: set<Node>, start: Node, end: Node, u: Node, settled: set<Node>,
                            t0: Tables, t: Tables, trails: map<Node, Trail>, q: Trail)
    requires NonNegative(g, useLatency) && u in settled && Labelled(t, u)
    requires LabelsHold(g, useLatency, forbidden, start, t, trails, settled)
    requires FrontierHolds(t, settled, t.dist[u].v)
    requires AllRelaxed(g, useLatency, forbidden, t0, settled - {u}) && AllRelaxed(g, useLatency, forbidden, t, settled)
    requires !Labelled(t0, end) && end !in forbidden
    requires Avoids(g, forbidden, start, q) && HasArc(g, LastHop(q), end)
    ensures t.dist[u].v <= Cost(useLatency, q.edges)
  {
    hide LabelsHold;
    LowerBound(g, useLatency, forbidden, start, t, trails, settled, t.dist[u].v, q);
    assert LastHop(q) !in settled - {u};
  }

  lemma FirstLabelTrail(g: Adjacency, useLatency: bool, forbidden: set<Node>, start: Node, end: Node, u: Node, settled: set<Node>,
                        t: Tables, trails: map<Node, Trail>)
    requires LabelsHold(g, useLatency, forbidden, start, t, trails, settled)
    requires AllRelaxed(g, useLatency, forbidden, t, settled)
    requires u in settled && Labelled(t, u) && Labelled(t, end) && end in trails && ViaEdge(g, u, trails[u], trails[end])
    ensures var tr := trails[end];
            var n := |tr.edges| - 1;
            && Avoids(g, forbidden, start, tr) && LastHop(tr) == end && NoDup(tr.hops) && end !in forbidden
            && tr.hops[n] == u && Cost(useLatency, tr.edges[..n]) == t.dist[u].v
            && CheapestArc(g, useLatency, u, tr.edges[n])
  {
    hide PrevsHold;
    var tr := trails[end];
    var n := |tr.edges| - 1;
    var e := tr.edges[n];
    assert TrailHolds(g, useLatency, forbidden, start, tr, settled, end, t.dist[end].v, t.rtt[end]);
    assert TrailHolds(g, useLatency, forbidden, start, trails[u], settled, u, t.dist[u].v, t.rtt[u]);
    assert tr.edges[..n] == trails[u].edges;
    assert tr.hops[n] == LastHop(trails[u]);
    forall e' | e' in Out(g, u) && e'.dest == end
      ensures EdgeCost(useLatency, e) <= EdgeCost(useLatency, e')
    {
      assert RelaxedEdge(useLatency, forbidden, t, u, e');
    }
  }

  lemma FirstLabelIsFound(g: Adjacency, useLatency: bool, forbidden: set<Node>, start: Node, end: Node, u: Node, settled: set<Node>,
                          t0: Tables, trails0: map<Node, Trail>, t: Tables, trails: map<Node, Trail>)
    requires NonNegative(g, useLatency) && start != end
    requires Relaxing(g, useLatency, forbidden, start, u, settled, t0, trails0, t, trails)
    requires AllRelaxed(g, useLatency, forbidden, t0, settled - {u}) && AllRelaxed(g, useLatency, forbidden, t, settled)
    requires end !in trails0 && !Labelled(t0, end) && Labelled(t, end)
    ensures end in trails && Found(g, useLatency, forbidden, start, end, trails[end])
  {
    hide QueueHolds, PrevsHold, TrailsHold, AllRelaxed, FrontierHolds, ViaEdge, NoDup, CheapestArc;
    FirstLabelTrail(g, useLatency, forbidden, start, end, u, settled, t, trails);
    assert t.dist[u] == t0.dist[u];
    forall q | Avoids(g, forbidden, start, q) && HasArc(g, LastHop(q), end)
      ensures t.dist[u].v <= Cost(useLatency, q.edges)
    {
      FirstLabelIsNearest(g, useLatency, forbidden, start, end, u, settled, t0, t, trails, q);
    }
  }

  // ---------- Reading the path back ----------

  /** Follow `prev` from end until the empty name, which a missing key reads as. */
  method RebuildPath(prev: map<Node, Node>, start: Node, end: Node, ghost trails: map<Node, Trail>, ghost settled: set<Node>)
    returns (path: seq<Node>)
    requires PrevsHold(prev, trails, settled, start) && start !in prev
    requires start in trails && trails[start].hops == [start] && end in trails
    requires forall n :: n in trails ==> n != ""
    ensures path == trails[end].hops
  {
    path := [];
    var node := end;
    while node != ""
      invariant node == "" ==> path == trails[end].hops
      invariant node != "" ==> node in trails && trails[end].hops == trails[node].hops + path
      decreases if node == "" then 0 else 1 + |trails[node].hops|
    {
      assert node == start || PrevHolds(prev, trails, settled, node);
      path := [node] + path;
      node := if node in prev then prev[node] else "";
    }
  }

  ghost predicate AdjacentDistinct(s: seq<Node>) {
    forall i :: 0 <= i < |s| - 1 ==> s[i] != s[i + 1]
  }

  /** Drops hops equal to the one before; a path without such hops is left as it is. */
  method RemoveConsecutiveDuplicates(hops: seq<Node>) returns (r: seq<Node>)
    ensures AdjacentDistinct(hops) ==> r == hops
    ensures AdjacentDistinct(r)
    ensures forall n :: n in r <==> n in hops
    ensures |hops| > 0 ==> |r| > 0 && r[0] == hops[0] && r[|r| - 1] == hops[|hops| - 1]
  {
    if |hops| <= 1 {
      return hops;
    }
    r := [hops[0]];
    for i := 1 to |hops|
      invariant AdjacentDistinct(hops) ==> r == hops[..i]
      invariant AdjacentDistinct(r)
      invariant forall n :: n in r <==> n in hops[..i]
      invariant |r| > 0 && r[0] == hops[0] && r[|r| - 1] == hops[i - 1]
    {
      if hops[i] != hops[i - 1] {
        r := r + [hops[i]];
      }
      assert hops[..i + 1] == hops[..i] + [hops[i]];
    }
    assert hops[..|hops|] == hops;
  }

  // ---------- The whole search ----------

  /** Node names that the walk back through `prev` cannot mistake for the end of the chain. */
  ghost predicate Named(g: Adjacency, start: Node) {
    "" !in AllNodes(g) && start != ""
  }

  /** Before the end node is labelled the search is Dijkstra's; from then on only the queue
      changes, and it still holds the end node.  An end node the graph does not mention
      reads as labelled from the start, so nothing is ever relaxed. */
  ghost predicate Progress(g: Adjacency, useLatency: bool, forbidden: set<Node>, start: Node, end: Node,
                           t: Tables, trails: map<Node, Trail>, settled: set<Node>, cur: real) {
    && t.dist.Keys == AllNodes(g) + {start}
    && LabelsHold(g, useLatency, forbidden, start, t, trails, settled)
    && QueueHolds(t, settled)
    && (Label(t.dist, end).Inf? ==> Searching(g, useLatency, forbidden, start, t, trails, settled, cur))
    && (end in trails ==>
          && Found(g, useLatency, forbidden, start, end, trails[end])
          && Labelled(t, end) && PQNode(end, t.dist[end].v) in t.queue)
  }

  lemma NoneMeansUnreachable(g: Adjacency, useLatency: bool, forbidden: set<Node>, start: Node, end: Node,
                             t: Tables, trails: map<Node, Trail>, settled: set<Node>, cur: real)
    requires Progress(g, useLatency, forbidden, start, end, t, trails, settled, cur)
    requires t.queue == multiset{}
    ensures !Reachable(g, forbidden, start, end)
  {
    forall q | Avoids(g, forbidden, start, q)
      ensures LastHop(q) != end
    {
      TrailsEndAtKnownNodes(g, forbidden, start, q);
      if end in t.dist {
        ExhaustedMeansUnreachable(g, useLatency, forbidden, start, t, trails, settled, cur, q);
      }
    }
    forall q | IsTrail(g, forbidden, q)
      ensures !Joins(q, start, end)
    {
      assert Avoids(g, forbidden, start, q) ==> LastHop(q) != end;
    }
  }

  /** `findShortestPath`.  It fails exactly when no trail that enters no forbidden node leads
      from start to end; otherwise it reports the trail `Found` describes and its sums. */
  method FindShortestPath(useLatency: bool, start: Node, end: Node, g: Adjacency, forbidden: set<Node>)
    returns (r: Option<Path>, ghost trail: Trail)
    requires NonNegative(g, useLatency) && Named(g, start)
    ensures r.None? <==> !Reachable(g, forbidden, start, end)
    ensures r.Some? ==> Found(g, useLatency, forbidden, start, end, trail) && Records(useLatency, r.value, trail)
  {
    hide Searching, LabelsHold, QueueHolds, NearestPredecessor, Found, IsTrail;
    var dist := map n | n in AllNodes(g) :: Inf;
    dist := dist[start := Fin(0.0)];
    var t := Tables(dist, map[start := 0.0], map[], multiset{PQNode(start, 0.0)});
    ghost var trails := map[start := Trail([start], [])];
    ghost var settled: set<Node> := {};
    ghost var cur := 0.0;
    InitialProgress(g, useLatency, forbidden, start, end, t, trails);
    trail := trails[start];

    while t.queue != multiset{}
      invariant Progress(g, useLatency, forbidden, start, end, t, trails, settled, cur)
      decreases t.dist.Keys - settled, |t.queue|
    {
      ghost var before := t;
      var u, rest := Ordering.PopLeast(t.queue, (x: PQNode) => x.cost);
      assert forall y :: y in t.queue ==> u.cost <= y.cost;
      t := t.(queue := rest);
      EntryIsLabelled(g, useLatency, forbidden, start, end, before, trails, settled, cur, u);
      if u.cost <= t.dist[u.node].v {
        if u.node == end {
          EndIsRecorded(g, useLatency, forbidden, start, end, before, trails, settled, cur, u);
          trail := trails[end];
          var path := RebuildPath(t.prev, start, end, trails, settled);
          path := RemoveConsecutiveDuplicates(path);
          return Some(Path(path, u.cost, t.rtt[end])), trail;
        }
        if Label(t.dist, end).Inf? {
          t, trails, settled, cur := Expand(g, useLatency, forbidden, start, end, before, t, trails, settled, cur, u);
        } else {
          PopKeepsProgress(g, useLatency, forbidden, start, end, before, t, trails, settled, cur, u);
        }
      } else {
        PopKeepsProgress(g, useLatency, forbidden, start, end, before, t, trails, settled, cur, u);
      }
    }
    NoneMeansUnreachable(g, useLatency, forbidden, start, end, t, trails, settled, cur);
    r := None;
  }

  lemma EntryIsLabelled(g: Adjacency, useLatency: bool, forbidden: set<Node>, start: Node, end: Node,
                        t: Tables, trails: map<Node, Trail>, settled: set<Node>, cur: real, u: PQNode)
    requires Progress(g, useLatency, forbidden, start, end, t, trails, settled, cur)
    requires u in t.queue
    ensures Labelled(t, u.node) && u.node in trails && t.dist[u.node].v <= u.cost
  {
    hide TrailsHold, PrevsHold, Searching, Found;
  }

  /** When the end node comes off the queue its tables describe the trail found. */
  lemma EndIsRecorded(g: Adjacency, useLatency: bool, forbidden: set<Node>, start: Node, end: Node,
                      t: Tables, trails: map<Node, Trail>, settled: set<Node>, cur: real, u: PQNode)
    requires Progress(g, useLatency, forbidden, start, end, t, trails, settled, cur) && Named(g, start)
    requires u in t.queue && u.node == end && Labelled(t, end) && u.cost <= t.dist[end].v
    ensures start in trails && trails[start].hops == [start] && start !in t.prev && PrevsHold(t.prev, trails, settled, start)
    ensures end in trails && end in t.rtt && (forall n :: n in trails ==> n != "")
    ensures Found(g, useLatency, forbidden, start, end, trails[end])
    ensures AdjacentDistinct(trails[end].hops)
    ensures Records(useLatency, Path(trails[end].hops, u.cost, t.rtt[end]), trails[end])
    ensures Reachable(g, forbidden, start, end)
  {
    hide PrevsHold, Searching;
    assert TrailHolds(g, useLatency, forbidden, start, trails[end], settled, end, t.dist[end].v, t.rtt[end]);
    assert Joins(trails[end], start, end);
  }

  /** Settle the node just popped and relax its edges. */
  method Expand(g: Adjacency, useLatency: bool, forbidden: set<Node>, start: Node, end: Node, ghost before: Tables, t: Tables,
                ghost trails: map<Node, Trail>, ghost settled: set<Node>, ghost cur: real, u: PQNode)
    returns (t': Tables, ghost trails': map<Node, Trail>, ghost settled': set<Node>, ghost cur': real)
    requires NonNegative(g, useLatency)
    requires Progress(g, useLatency, forbidden, start, end, before, trails, settled, cur)
    requires u in before.queue && (forall y :: y in before.queue ==> u.cost <= y.cost)
    requires t == before.(queue := before.queue - multiset{u})
    requires Labelled(t, u.node) && u.cost <= t.dist[u.node].v
    requires u.node != end && Label(t.dist, end).Inf?
    ensures Progress(g, useLatency, forbidden, start, end, t', trails', settled', cur')
    ensures settled' == settled + {u.node} && u.node !in settled && t'.dist.Keys == t.dist.Keys
  {
    hide TrailsHold, PrevsHold, QueueHolds, FrontierHolds, AllRelaxed, NonNegative;
    SettleHolds(g, useLatency, forbidden, start, before, t, trails, settled, cur, u);
    settled', cur' := settled + {u.node}, t.dist[u.node].v;
    assert settled' - {u.node} == settled;
    t', trails' := RelaxEdges(g, useLatency, forbidden, start, u.node, t, trails, settled');
    RelaxKeepsProgress(g, useLatency, forbidden, start, end, u.node, settled', t, trails, t', trails');
  }

  /** Dropping a stale entry, or any entry but the end node's once relaxing is over. */
  lemma PopKeepsProgress(g: Adjacency, useLatency: bool, forbidden: set<Node>, start: Node, end: Node,
                         t: Tables, t': Tables, trails: map<Node, Trail>, settled: set<Node>, cur: real, u: PQNode)
    requires Progress(g, useLatency, forbidden, start, end, t, trails, settled, cur)
    requires u in t.queue && t' == t.(queue := t.queue - multiset{u})
    requires t.dist[u.node].v < u.cost || (!Label(t.dist, end).Inf? && u.node != end)
    ensures Progress(g, useLatency, forbidden, start, end, t', trails, settled, cur)
  {
    hide LabelsHold, QueueHolds, FrontierHolds, AllRelaxed, Found;
    EntryIsLabelled(g, useLatency, forbidden, start, end, t, trails, settled, cur, u);
    PopKeepsQueue(t, t', settled, u);
    SameLabels(g, useLatency, forbidden, start, t, t', trails, settled);
    if Label(t.dist, end).Inf? {
      PopKeepsFrontier(t, t', settled, cur, u);
      SettleKeepsRelaxed(g, useLatency, forbidden, t, t', settled);
    }
  }

  lemma PopKeepsQueue(t: Tables, t': Tables, settled: set<Node>, u: PQNode)
    requires QueueHolds(t, settled) && u in t.queue && t' == t.(queue := t.queue - multiset{u})
    ensures QueueHolds(t', settled) && t.queue[u] == 1
    ensures forall y :: y in t'.queue <==> y in t.queue && y != u
  {
    assert forall y :: y in t'.queue <==> y in t.queue && y != u;
    assert forall y :: y in t'.queue ==> t'.queue[y] == t.queue[y];
  }

  lemma PopKeepsFrontier(t: Tables, t': Tables, settled: set<Node>, cur: real, u: PQNode)
    requires FrontierHolds(t, settled, cur) && t'.dist == t.dist
    requires Labelled(t, u.node) && t.dist[u.node].v < u.cost
    requires forall y :: y in t'.queue <==> y in t.queue && y != u
    ensures FrontierHolds(t', settled, cur)
  {
    assert forall n :: Labelled(t', n) <==> Labelled(t, n);
  }

  lemma SameLabels(g: Adjacency, useLatency: bool, forbidden: set<Node>, start: Node,
                   t: Tables, t': Tables, trails: map<Node, Trail>, settled: set<Node>)
    requires LabelsHold(g, useLatency, forbidden, start, t, trails, settled)
    requires t'.dist == t.dist && t'.rtt == t.rtt && t'.prev == t.prev
    ensures LabelsHold(g, useLatency, forbidden, start, t', trails, settled)
  {
    hide TrailHolds, PrevHolds;
    assert forall n :: Labelled(t', n) <==> Labelled(t, n);
  }

  lemma RelaxKeepsProgress(g: Adjacency, useLatency: bool, forbidden: set<Node>, start: Node, end: Node, u: Node, settled: set<Node>,
                           t0: Tables, trails0: map<Node, Trail>, t: Tables, trails: map<Node, Trail>)
    requires NonNegative(g, useLatency) && start != end
    requires t0.dist.Keys == AllNodes(g) + {start}
    requires Relaxing(g, useLatency, forbidden, start, u, settled, t0, trails0, t, trails)
    requires AllRelaxed(g, useLatency, forbidden, t0, settled - {u}) && AllRelaxed(g, useLatency, forbidden, t, settled)
    requires end !in trails0 && !Labelled(t0, end) && u != end && 0.0 <= t0.dist[u].v
    requires forall n :: n in settled - {u} ==> n in trails0
    ensures Progress(g, useLatency, forbidden, start, end, t, trails, settled, t0.dist[u].v)
  {
    hide TrailsHold, PrevsHold, AllRelaxed, Found;
    if end in trails {
      FirstLabelIsFound(g, useLatency, forbidden, start, end, u, settled, t0, trails0, t, trails);
      assert end !in settled;
    }
  }

  lemma InitialProgress(g: Adjacency, useLatency: bool, forbidden: set<Node>, start: Node, end: Node, t: Tables, trails: map<Node, Trail>)
    requires t.dist == (map n | n in AllNodes(g) :: Inf)[start := Fin(0.0)]
    requires t.rtt == map[start := 0.0] && t.prev == map[] && t.queue == multiset{PQNode(start, 0.0)}
    requires trails == map[start := Trail([start], [])]
    ensures Progress(g, useLatency, forbidden, start, end, t, trails, {}, 0.0)
  {
    assert forall n :: Labelled(t, n) <==> n == start;
  }

  // ---------- How far from optimal ----------

  /** The reported cost exceeds that of any other trail by at most the last edge. */
  lemma CostWithinLastEdge(g: Adjacency, useLatency: bool, forbidden: set<Node>, start: Node, end: Node, t: Trail, q: Trail)
    requires NonNegative(g, useLatency) && start != end
    requires Found(g, useLatency, forbidden, start, end, t)
    requires IsTrail(g, forbidden, q) && Joins(q, start, end)
    ensures Cost(useLatency, t.edges) <= Cost(useLatency, q.edges) + EdgeCost(useLatency, t.edges[|t.edges| - 1])
  {
    LastStep(g, useLatency, forbidden, start, end, q);
  }

  /** Every trail the search may report is a shortest one. */
  ghost predicate AlwaysShortest(g: Adjacency, useLatency: bool, forbidden: set<Node>, start: Node, end: Node) {
    forall t, p :: Found(g, useLatency, forbidden, start, end, t) && IsTrail(g, forbidden, p) && Joins(p, start, end) ==>
                     Cost(useLatency, t.edges) <= Cost(useLatency, p.edges)
  }

  /** The trail q stops one edge e short of end, which it has not met before. */
  ghost predicate Approach(g: Adjacency, forbidden: set<Node>, start: Node, end: Node, q: Trail, e: Edge) {
    Avoids(g, forbidden, start, q) && end !in q.hops && e in Out(g, LastHop(q)) && e.dest == end
  }

  /** The cheapest edge from a nearest predecessor of end, reached at least cost. */
  ghost predicate NearestApproach(g: Adjacency, useLatency: bool, forbidden: set<Node>, start: Node, end: Node, q: Trail, e: Edge) {
    && Approach(g, forbidden, start, end, q, e)
    && NearestPredecessor(g, useLatency, forbidden, start, end, Cost(useLatency, q.edges)) && CheapestArc(g, useLatency, LastHop(q), e)
  }

  ghost predicate LeadsTo(g: Adjacency, forbidden: set<Node>, start: Node, end: Node, u: Node, q: Trail) {
    |q.hops| == |q.edges| + 1 && Avoids(g, forbidden, start, q) && end !in q.hops && LastHop(q) == u
  }

  /** d is the least cost of a way to u that does not pass end. */
  ghost predicate Distance(g: Adjacency, useLatency: bool, forbidden: set<Node>, start: Node, end: Node, u: Node, d: real) {
    && (exists q :: LeadsTo(g, forbidden, start, end, u, q) && Cost(useLatency, q.edges) == d)
    && (forall q :: LeadsTo(g, forbidden, start, end, u, q) ==> d <= Cost(useLatency, q.edges))
  }

  /** u is at distance d, and no predecessor of end is nearer. */
  ghost predicate Nearest(g: Adjacency, useLatency: bool, forbidden: set<Node>, start: Node, end: Node, u: Node, d: real) {
    && Distance(g, useLatency, forbidden, start, end, u, d)
    && forall v, d' :: HasArc(g, v, end) && Distance(g, useLatency, forbidden, start, end, v, d') ==> d <= d'
  }

  /** For the distances of the predecessors of end: the cheapest edge from a nearest one costs
      more than an edge from any other by at most what the other is farther away. */
  ghost predicate NoCheaperLastEdge(g: Adjacency, useLatency: bool, forbidden: set<Node>, start: Node, end: Node) {
    forall u, d, e, v, d', e' ::
      && Nearest(g, useLatency, forbidden, start, end, u, d) && e in Out(g, u) && e.dest == end && CheapestArc(g, useLatency, u, e)
      && Distance(g, useLatency, forbidden, start, end, v, d') && e' in Out(g, v) && e'.dest == end
      ==> EdgeCost(useLatency, e) - EdgeCost(useLatency, e') <= d' - d
  }

  /** Exactly when the early cut does no harm. */
  lemma ShortestIff(g: Adjacency, useLatency: bool, forbidden: set<Node>, start: Node, end: Node)
    requires NonNegative(g, useLatency) && start != end && end !in forbidden
    ensures AlwaysShortest(g, useLatency, forbidden, start, end) <==> NoCheaperLastEdge(g, useLatency, forbidden, start, end)
  {
    hide Found, NearestApproach, Approach, NonNegative, IsTrail, Cost, Nearest, Distance, CheapestArc;
    if NoCheaperLastEdge(g, useLatency, forbidden, start, end) {
      forall t, p | Found(g, useLatency, forbidden, start, end, t) && IsTrail(g, forbidden, p) && Joins(p, start, end)
        ensures Cost(useLatency, t.edges) <= Cost(useLatency, p.edges)
      {
        var q, e := FoundApproaches(g, useLatency, forbidden, start, end, t);
        var u := ApproachIsNearest(g, useLatency, forbidden, start, end, q, e);
        var q', e' := FirstArrival(g, useLatency, forbidden, start, end, p);
        var v, d' := ApproachHasDistance(g, useLatency, forbidden, start, end, q', e');
      }
    }
    if AlwaysShortest(g, useLatency, forbidden, start, end) {
      forall u, d, e, v, d', e' | && Nearest(g, useLatency, forbidden, start, end, u, d) && e in Out(g, u) && e.dest == end
                                  && CheapestArc(g, useLatency, u, e)
                                  && Distance(g, useLatency, forbidden, start, end, v, d') && e' in Out(g, v) && e'.dest == end
        ensures EdgeCost(useLatency, e) - EdgeCost(useLatency, e') <= d' - d
      {
        var q := NearestIsApproached(g, useLatency, forbidden, start, end, u, d, e);
        var t := ApproachIsFound(g, useLatency, forbidden, start, end, q, e);
        var q' := DistanceIsApproached(g, useLatency, forbidden, start, end, v, d', e');
        ApproachArrives(g, useLatency, forbidden, start, end, q', e');
      }
    }
  }

  // ---------- Distances exist ----------

  /** best is no dearer than any way to u of at most n edges, nor than one of n + 1 edges whose
      last step leaves a node of ws. */
  ghost predicate LeastSoFar(g: Adjacency, useLatency: bool, forbidden: set<Node>, start: Node, end: Node, u: Node, n: nat, ws: set<Node>,
                             best: Option<Trail>) {
    && (best.Some? ==> LeadsTo(g, forbidden, start, end, u, best.value))
    && (forall q :: LeadsTo(g, forbidden, start, end, u, q) && (|q.edges| <= n || (|q.edges| == n + 1 && q.hops[n] in ws)) ==>
          best.Some? && Cost(useLatency, best.value.edges) <= Cost(useLatency, q.edges))
  }

  /** One more node to step from: the way on from it that is least in all. */
  lemma ViaNode(g: Adjacency, useLatency: bool, forbidden: set<Node>, start: Node, end: Node, u: Node, n: nat, ws: set<Node>, best: Option<Trail>,
                w: Node, toW: Option<Trail>) returns (best': Option<Trail>)
    requires LeastSoFar(g, useLatency, forbidden, start, end, u, n, ws, best) && LeastSoFar(g, useLatency, forbidden, start, end, w, n, {}, toW)
    requires u !in forbidden && u != end
    ensures LeastSoFar(g, useLatency, forbidden, start, end, u, n, ws + {w}, best')
  {
    hide Avoids, Cost, CheapestArc;
    best' := best;
    if toW.Some? && HasArc(g, w, u) {
      var via := ViaEdgeTo(g, useLatency, forbidden, start, end, u, n, w, toW.value);
      if best.None? || Cost(useLatency, via.edges) < Cost(useLatency, best.value.edges) {
        best' := Some(via);
      }
    } else {
      forall q | LeadsTo(g, forbidden, start, end, u, q) && |q.edges| == n + 1
        ensures q.hops[n] != w
      {
        LastButOne(g, useLatency, forbidden, start, end, u, n, q);
      }
    }
  }

  lemma ViaEdgeTo(g: Adjacency, useLatency: bool, forbidden: set<Node>, start: Node, end: Node, u: Node, n: nat, w: Node, toW: Trail) returns (via: Trail)
    requires LeastSoFar(g, useLatency, forbidden, start, end, w, n, {}, Some(toW)) && HasArc(g, w, u) && u !in forbidden && u != end
    ensures LeadsTo(g, forbidden, start, end, u, via)
    ensures forall q :: LeadsTo(g, forbidden, start, end, u, q) && |q.edges| == n + 1 && q.hops[n] == w ==> Cost(useLatency, via.edges) <= Cost(useLatency, q.edges)
  {
    hide IsTrail, Cost;
    var e :| e in Out(g, w) && e.dest == u;
    var f := SomeCheapestArc(g, useLatency, w, e);
    via := Extend(toW, f);
    TrailExtend(g, forbidden, toW, f);
    CostSnoc(useLatency, toW.edges, f);
    forall q | LeadsTo(g, forbidden, start, end, u, q) && |q.edges| == n + 1 && q.hops[n] == w
      ensures Cost(useLatency, via.edges) <= Cost(useLatency, q.edges)
    {
      LastButOne(g, useLatency, forbidden, start, end, u, n, q);
    }
  }

  lemma LastButOne(g: Adjacency, useLatency: bool, forbidden: set<Node>, start: Node, end: Node, u: Node, n: nat, q: Trail)
    requires LeadsTo(g, forbidden, start, end, u, q) && |q.edges| == n + 1
    ensures LeadsTo(g, forbidden, start, end, q.hops[n], Prefix(q, n)) && |Prefix(q, n).edges| == n
    ensures q.edges[n] in Out(g, q.hops[n]) && q.edges[n].dest == u && u !in forbidden && u != end && q.hops[n] in g
    ensures Cost(useLatency, q.edges) == Cost(useLatency, Prefix(q, n).edges) + EdgeCost(useLatency, q.edges[n])
  {
    TrailPrefix(g, forbidden, q, n);
    assert q.edges[n] in Out(g, q.hops[n]) && q.edges[n].dest == q.hops[n + 1];
    assert q.hops[n + 1] in q.hops;
  }

  lemma NoSteps(g: Adjacency, useLatency: bool, forbidden: set<Node>, start: Node, end: Node, u: Node)
    requires start != end
    ensures LeastSoFar(g, useLatency, forbidden, start, end, u, 0, {}, if u == start then Some(Trail([start], [])) else None)
  {
  }

  lemma {:induction false} LeastWithin(g: Adjacency, useLatency: bool, forbidden: set<Node>, start: Node, end: Node, u: Node, n: nat)
    returns (best: Option<Trail>)
    requires start != end
    ensures LeastSoFar(g, useLatency, forbidden, start, end, u, n, {}, best)
    decreases n
  {
    hide LeastSoFar;
    if n == 0 {
      best := if u == start then Some(Trail([start], [])) else None;
      NoSteps(g, useLatency, forbidden, start, end, u);
    } else {
      best := LeastWithin(g, useLatency, forbidden, start, end, u, n - 1);
      if u !in forbidden && u != end {
        var todo, done := g.Keys, {};
        while todo != {}
          invariant done + todo == g.Keys && LeastSoFar(g, useLatency, forbidden, start, end, u, n - 1, done, best)
          decreases todo
        {
          var w :| w in todo;
          var toW := LeastWithin(g, useLatency, forbidden, start, end, w, n - 1);
          best := ViaNode(g, useLatency, forbidden, start, end, u, n - 1, done, best, w, toW);
          todo, done := todo - {w}, done + {w};
        }
        AllNodesDone(g, useLatency, forbidden, start, end, u, n - 1, done, best);
      } else {
        AllNodesDone(g, useLatency, forbidden, start, end, u, n - 1, {}, best);
      }
    }
  }

  lemma AllNodesDone(g: Adjacency, useLatency: bool, forbidden: set<Node>, start: Node, end: Node, u: Node, n: nat, ws: set<Node>, best: Option<Trail>)
    requires LeastSoFar(g, useLatency, forbidden, start, end, u, n, ws, best) && (ws == g.Keys || u in forbidden || u == end)
    ensures LeastSoFar(g, useLatency, forbidden, start, end, u, n + 1, {}, best)
  {
    forall q | LeadsTo(g, forbidden, start, end, u, q) && |q.edges| <= n + 1
      ensures best.Some? && Cost(useLatency, best.value.edges) <= Cost(useLatency, q.edges)
    {
      if |q.edges| == n + 1 {
        LastButOne(g, useLatency, forbidden, start, end, u, n, q);
      }
    }
  }

  lemma {:induction false} NoDupIsShort(s: seq<Node>, all: set<Node>)
    requires NoDup(s) && forall x :: x in s ==> x in all
    ensures |s| <= |all|
  {
    if s != [] {
      var n := |s| - 1;
      assert forall x :: x in s[..n] ==> x in s && x != s[n];
      NoDupIsShort(s[..n], all - {s[n]});
    }
  }

  lemma TrailHopsKnown(g: Adjacency, forbidden: set<Node>, start: Node, q: Trail, x: Node)
    requires Avoids(g, forbidden, start, q) && x in q.hops
    ensures x in AllNodes(g) + {start}
  {
    var i :| 0 <= i < |q.hops| && q.hops[i] == x;
    if i > 0 {
      assert q.edges[i - 1] in Out(g, q.hops[i - 1]) && q.edges[i - 1].dest == q.hops[(i - 1) + 1];
      assert q.edges[i - 1].dest in Dests(g);
    }
  }

  /** A node that can be reached without passing end has a distance. */
  lemma DistanceExists(g: Adjacency, useLatency: bool, forbidden: set<Node>, start: Node, end: Node, u: Node, q: Trail) returns (d: real)
    requires NonNegative(g, useLatency) && start != end && LeadsTo(g, forbidden, start, end, u, q)
    ensures Distance(g, useLatency, forbidden, start, end, u, d) && d <= Cost(useLatency, q.edges)
  {
    var n := |AllNodes(g) + {start}|;
    var best := LeastWithin(g, useLatency, forbidden, start, end, u, n);
    forall x | LeadsTo(g, forbidden, start, end, u, x)
      ensures best.Some? && Cost(useLatency, best.value.edges) <= Cost(useLatency, x.edges)
    {
      var r := ShortWay(g, useLatency, forbidden, start, end, u, x);
    }
    d := Cost(useLatency, best.value.edges);
  }

  lemma ShortWay(g: Adjacency, useLatency: bool, forbidden: set<Node>, start: Node, end: Node, u: Node, q: Trail) returns (r: Trail)
    requires NonNegative(g, useLatency) && LeadsTo(g, forbidden, start, end, u, q)
    ensures LeadsTo(g, forbidden, start, end, u, r) && |r.edges| <= |AllNodes(g) + {start}| && Cost(useLatency, r.edges) <= Cost(useLatency, q.edges)
  {
    r := CutLoops(g, useLatency, forbidden, q);
    forall x | x in r.hops
      ensures x in AllNodes(g) + {start}
    {
      TrailHopsKnown(g, forbidden, start, r, x);
    }
    NoDupIsShort(r.hops, AllNodes(g) + {start});
  }

  // ---------- Approaches and distances ----------

  lemma ApproachIsNearest(g: Adjacency, useLatency: bool, forbidden: set<Node>, start: Node, end: Node, q: Trail, e: Edge) returns (u: Node)
    requires NearestApproach(g, useLatency, forbidden, start, end, q, e)
    ensures Nearest(g, useLatency, forbidden, start, end, u, Cost(useLatency, q.edges))
    ensures e in Out(g, u) && e.dest == end && CheapestArc(g, useLatency, u, e)
  {
    hide Cost, CheapestArc;
    u := LastHop(q);
    assert LeadsTo(g, forbidden, start, end, u, q) && HasArc(g, u, end);
    forall v, d' | HasArc(g, v, end) && Distance(g, useLatency, forbidden, start, end, v, d')
      ensures Cost(useLatency, q.edges) <= d'
    {
      var x :| LeadsTo(g, forbidden, start, end, v, x) && Cost(useLatency, x.edges) == d';
    }
  }

  lemma ApproachHasDistance(g: Adjacency, useLatency: bool, forbidden: set<Node>, start: Node, end: Node, q: Trail, e: Edge)
    returns (v: Node, d: real)
    requires NonNegative(g, useLatency) && start != end && Approach(g, forbidden, start, end, q, e)
    ensures Distance(g, useLatency, forbidden, start, end, v, d) && d <= Cost(useLatency, q.edges) && e in Out(g, v) && e.dest == end
  {
    hide Distance, NonNegative, Cost;
    v := LastHop(q);
    d := DistanceExists(g, useLatency, forbidden, start, end, v, q);
  }

  lemma DistanceIsApproached(g: Adjacency, useLatency: bool, forbidden: set<Node>, start: Node, end: Node, u: Node, d: real, e: Edge) returns (q: Trail)
    requires Distance(g, useLatency, forbidden, start, end, u, d) && e in Out(g, u) && e.dest == end
    ensures Approach(g, forbidden, start, end, q, e) && Cost(useLatency, q.edges) == d && |q.hops| > 0 && LastHop(q) == u
  {
    hide Cost;
    q :| LeadsTo(g, forbidden, start, end, u, q) && Cost(useLatency, q.edges) == d;
  }

  lemma NearestIsApproached(g: Adjacency, useLatency: bool, forbidden: set<Node>, start: Node, end: Node, u: Node, d: real, e: Edge) returns (q: Trail)
    requires NonNegative(g, useLatency) && start != end && Nearest(g, useLatency, forbidden, start, end, u, d)
    requires e in Out(g, u) && e.dest == end && CheapestArc(g, useLatency, u, e)
    ensures NearestApproach(g, useLatency, forbidden, start, end, q, e) && Cost(useLatency, q.edges) == d
  {
    hide Cost, CheapestArc, Distance, NonNegative;
    q := DistanceIsApproached(g, useLatency, forbidden, start, end, u, d, e);
    forall x | Avoids(g, forbidden, start, x) && HasArc(g, LastHop(x), end)
      ensures d <= Cost(useLatency, x.edges)
    {
      var y := BeforeEnd(g, useLatency, forbidden, start, end, x);
      var d' := DistanceExists(g, useLatency, forbidden, start, end, LastHop(y), y);
    }
  }

  /** A trail to a predecessor of end contains one that has not passed end. */
  lemma BeforeEnd(g: Adjacency, useLatency: bool, forbidden: set<Node>, start: Node, end: Node, x: Trail) returns (y: Trail)
    requires NonNegative(g, useLatency) && start != end && Avoids(g, forbidden, start, x) && HasArc(g, LastHop(x), end)
    ensures |y.hops| > 0 && LeadsTo(g, forbidden, start, end, LastHop(y), y) && HasArc(g, LastHop(y), end)
    ensures Cost(useLatency, y.edges) <= Cost(useLatency, x.edges)
  {
    if end !in x.hops {
      y := x;
    } else {
      var m := FirstIndex(x.hops, end);
      TrailPrefix(g, forbidden, x, m - 1);
      PrefixCostsLess(g, useLatency, forbidden, x, m - 1);
      y := Prefix(x, m - 1);
      assert x.edges[m - 1] in Out(g, x.hops[m - 1]) && x.edges[m - 1].dest == x.hops[(m - 1) + 1];
    }
  }

  /** The reported trail is a nearest approach and its cheapest edge. */
  lemma FoundApproaches(g: Adjacency, useLatency: bool, forbidden: set<Node>, start: Node, end: Node, t: Trail) returns (q: Trail, e: Edge)
    requires Found(g, useLatency, forbidden, start, end, t) && start != end
    ensures NearestApproach(g, useLatency, forbidden, start, end, q, e)
    ensures Cost(useLatency, t.edges) == Cost(useLatency, q.edges) + EdgeCost(useLatency, e)
  {
    hide NearestPredecessor, CheapestArc;
    var n := |t.edges| - 1;
    q, e := Prefix(t, n), t.edges[n];
    TrailPrefix(g, forbidden, t, n);
    assert LastHop(q) == t.hops[n] && e.dest == t.hops[n + 1];
    forall i | 0 <= i < |q.hops|
      ensures q.hops[i] != end
    {
      assert t.hops[i] != t.hops[n + 1];
    }
  }

  /** A trail costs at least as much as its beginning. */
  lemma {:induction false} PrefixCostsLess(g: Adjacency, useLatency: bool, forbidden: set<Node>, t: Trail, n: nat)
    requires NonNegative(g, useLatency) && IsTrail(g, forbidden, t) && n <= |t.edges|
    ensures Cost(useLatency, t.edges[..n]) <= Cost(useLatency, t.edges)
    decreases |t.edges|
  {
    var m := |t.edges|;
    if n == m {
      assert t.edges[..n] == t.edges;
    } else {
      TrailPrefix(g, forbidden, t, m - 1);
      PrefixCostsLess(g, useLatency, forbidden, Prefix(t, m - 1), n);
      assert t.edges[..m - 1][..n] == t.edges[..n];
      assert t.edges[m - 1] in Out(g, t.hops[m - 1]);
    }
  }

  /** A trail to end goes through an approach. */
  lemma FirstArrival(g: Adjacency, useLatency: bool, forbidden: set<Node>, start: Node, end: Node, p: Trail) returns (q: Trail, e: Edge)
    requires NonNegative(g, useLatency) && start != end && IsTrail(g, forbidden, p) && Joins(p, start, end)
    ensures Approach(g, forbidden, start, end, q, e) && Cost(useLatency, q.edges) + EdgeCost(useLatency, e) <= Cost(useLatency, p.edges)
  {
    var m := FirstIndex(p.hops, end);
    q, e := Prefix(p, m - 1), p.edges[m - 1];
    TrailPrefix(g, forbidden, p, m - 1);
    PrefixCostsLess(g, useLatency, forbidden, p, m);
    assert p.edges[..m] == q.edges + [e];
    CostSnoc(useLatency, q.edges, e);
    assert e.dest == p.hops[(m - 1) + 1];
  }

  lemma {:induction false} FirstIndex(s: seq<Node>, x: Node) returns (m: nat)
    requires x in s
    ensures m < |s| && s[m] == x && x !in s[..m]
  {
    if s[0] == x {
      m := 0;
    } else {
      var k := FirstIndex(s[1..], x);
      m := k + 1;
      assert s[..m] == [s[0]] + s[1..][..k];
    }
  }

  /** A trail with its loops cut out: no dearer, and through no other nodes. */
  lemma {:induction false} CutLoops(g: Adjacency, useLatency: bool, forbidden: set<Node>, q: Trail) returns (r: Trail)
    requires NonNegative(g, useLatency) && IsTrail(g, forbidden, q)
    ensures IsTrail(g, forbidden, r) && |r.hops| > 0 && NoDup(r.hops) && r.hops[0] == q.hops[0] && LastHop(r) == LastHop(q)
    ensures Cost(useLatency, r.edges) <= Cost(useLatency, q.edges) && forall h :: h in r.hops ==> h in q.hops
    decreases |q.edges|
  {
    r := q;
    if q.edges != [] {
      var n := |q.edges| - 1;
      TrailPrefix(g, forbidden, q, n);
      var p := CutLoops(g, useLatency, forbidden, Prefix(q, n));
      assert q.edges[n] in Out(g, q.hops[n]) && q.edges[n].dest == q.hops[n + 1] && q.edges[n].dest !in forbidden;
      hide IsTrail, NoDup, NonNegative;
      r := GoOn(g, useLatency, forbidden, p, q.edges[n]);
      forall h | h in r.hops
        ensures h in q.hops
      {
        assert h == q.hops[n + 1] || h in q.hops[..n + 1];
      }
    }
  }

  /** One edge more: the trail is prolonged, or cut back to where it met that node. */
  lemma GoOn(g: Adjacency, useLatency: bool, forbidden: set<Node>, p: Trail, e: Edge) returns (r: Trail)
    requires NonNegative(g, useLatency) && IsTrail(g, forbidden, p) && NoDup(p.hops)
    requires e in Out(g, LastHop(p)) && e.dest !in forbidden
    ensures IsTrail(g, forbidden, r) && |r.hops| > 0 && NoDup(r.hops) && r.hops[0] == p.hops[0] && LastHop(r) == e.dest
    ensures Cost(useLatency, r.edges) <= Cost(useLatency, p.edges) + EdgeCost(useLatency, e)
    ensures forall h :: h in r.hops ==> h in p.hops || h == e.dest
  {
    assert EdgeCost(useLatency, e) >= 0.0;
    assert |p.hops| == |p.edges| + 1;
    hide IsTrail, NoDup, NonNegative, Cost;
    if e.dest in p.hops {
      var i :| 0 <= i < |p.hops| && p.hops[i] == e.dest;
      r := Prefix(p, i);
      TrailPrefix(g, forbidden, p, i);
      PrefixCostsLess(g, useLatency, forbidden, p, i);
      NoDupParts(p.hops, i + 1, e.dest);
    } else {
      r := Extend(p, e);
      TrailExtend(g, forbidden, p, e);
      CostSnoc(useLatency, p.edges, e);
      NoDupParts(p.hops, 0, e.dest);
    }
  }

  lemma NoDupParts(s: seq<Node>, n: nat, x: Node)
    requires NoDup(s) && n <= |s|
    ensures NoDup(s[..n]) && (x !in s ==> NoDup(s + [x]))
  {
  }

  /** An approach to a nearest predecessor, loops cut out, is a trail the search may report. */
  lemma ApproachIsFound(g: Adjacency, useLatency: bool, forbidden: set<Node>, start: Node, end: Node, q: Trail, e: Edge) returns (t: Trail)
    requires NonNegative(g, useLatency) && start != end && end !in forbidden && NearestApproach(g, useLatency, forbidden, start, end, q, e)
    ensures Found(g, useLatency, forbidden, start, end, t) && Cost(useLatency, t.edges) == Cost(useLatency, q.edges) + EdgeCost(useLatency, e)
  {
    hide NonNegative, IsTrail, CheapestArc, Cost;
    var r := CutLoops(g, useLatency, forbidden, q);
    assert Avoids(g, forbidden, start, r) && HasArc(g, LastHop(r), end);
    assert Cost(useLatency, r.edges) == Cost(useLatency, q.edges);
    t := Extend(r, e);
    ApproachArrives(g, useLatency, forbidden, start, end, r, e);
    assert t.edges[..|t.edges| - 1] == r.edges && t.hops[|t.edges| - 1] == LastHop(r);
  }

  lemma ApproachArrives(g: Adjacency, useLatency: bool, forbidden: set<Node>, start: Node, end: Node, q: Trail, e: Edge)
    requires end !in forbidden && Approach(g, forbidden, start, end, q, e)
    ensures IsTrail(g, forbidden, Extend(q, e)) && Joins(Extend(q, e), start, end)
    ensures Cost(useLatency, Extend(q, e).edges) == Cost(useLatency, q.edges) + EdgeCost(useLatency, e)
  {
    TrailExtend(g, forbidden, q, e);
    CostSnoc(useLatency, q.edges, e);
  }

  /** The cheapest edges into end, one from each of its predecessors, cost the same. */
  ghost predicate UniformLastEdge(g: Adjacency, useLatency: bool, end: Node) {
    forall u, v, e, e' :: && e in Out(g, u) && e' in Out(g, v) && e.dest == end && e'.dest == end
                          && CheapestArc(g, useLatency, u, e) && CheapestArc(g, useLatency, v, e')
                          ==> EdgeCost(useLatency, e) == EdgeCost(useLatency, e')
  }

  lemma UniformLastEdgeIsOptimal(g: Adjacency, useLatency: bool, forbidden: set<Node>, start: Node, end: Node)
    requires NonNegative(g, useLatency) && start != end && end !in forbidden && UniformLastEdge(g, useLatency, end)
    ensures NoCheaperLastEdge(g, useLatency, forbidden, start, end) && AlwaysShortest(g, useLatency, forbidden, start, end)
  {
    hide AlwaysShortest, CheapestArc, NonNegative, Distance;
    forall u, d, e, v, d', e' | && Nearest(g, useLatency, forbidden, start, end, u, d) && e in Out(g, u) && e.dest == end
                                && CheapestArc(g, useLatency, u, e)
                                && Distance(g, useLatency, forbidden, start, end, v, d') && e' in Out(g, v) && e'.dest == end
      ensures EdgeCost(useLatency, e) - EdgeCost(useLatency, e') <= d' - d
    {
      var f := SomeCheapestArc(g, useLatency, v, e');
      assert HasArc(g, v, end);
    }
    ShortestIff(g, useLatency, forbidden, start, end);
  }

  lemma SomeCheapestArc(g: Adjacency, useLatency: bool, u: Node, e: Edge) returns (f: Edge)
    requires e in Out(g, u)
    ensures f in Out(g, u) && f.dest == e.dest && CheapestArc(g, useLatency, u, f) && EdgeCost(useLatency, f) <= EdgeCost(useLatency, e)
  {
    var es := Out(g, u);
    f := e;
    for i := 0 to |es|
      invariant f in es && f.dest == e.dest && EdgeCost(useLatency, f) <= EdgeCost(useLatency, e)
      invariant forall j :: 0 <= j < i && es[j].dest == e.dest ==> EdgeCost(useLatency, f) <= EdgeCost(useLatency, es[j])
    {
      if es[i].dest == e.dest && EdgeCost(useLatency, es[i]) < EdgeCost(useLatency, f) {
        f := es[i];
      }
    }
  }

  /** A trail into end is a trail to a predecessor of end and one more edge. */
  lemma LastStep(g: Adjacency, useLatency: bool, forbidden: set<Node>, start: Node, end: Node, q: Trail)
    requires NonNegative(g, useLatency) && start != end && IsTrail(g, forbidden, q) && Joins(q, start, end)
    ensures var n := |q.edges| - 1;
            && n >= 0 && Avoids(g, forbidden, start, Prefix(q, n)) && HasArc(g, LastHop(Prefix(q, n)), end)
            && q.edges[n] in Out(g, q.hops[n]) && q.edges[n].dest == end && EdgeCost(useLatency, q.edges[n]) >= 0.0
            && Cost(useLatency, q.edges) == Cost(useLatency, Prefix(q, n).edges) + EdgeCost(useLatency, q.edges[n])
  {
    var n := |q.edges| - 1;
    TrailPrefix(g, forbidden, q, n);
    assert q.edges[n] in Out(g, q.hops[n]);
    assert LastHop(Prefix(q, n)) == q.hops[n];
  }

  const AB := Edge("A", "B", 1.0, 0.0, 1.0)
  const BC := Edge("B", "C", 1.0, 0.0, 1.0)
  const AC := Edge("A", "C", 5.0, 0.0, 5.0)

  function Triangle(): Adjacency {
    map["A" := [AB, AC], "B" := [BC]]
  }

  /** The early cut is not optimal: on A->B->C at 1 + 1 against A->C at 5 the search can only
      report the direct edge. */
  lemma EarlyCutIsNotOptimal(t: Trail)
    requires Found(Triangle(), false, {}, "A", "C", t)
    ensures t == Trail(["A", "C"], [AC])
    ensures IsTrail(Triangle(), {}, Trail(["A", "B", "C"], [AB, BC])) && Cost(false, [AB, BC]) < Cost(false, t.edges)
  {
    OnlyDirect(t);
    assert [AB, BC][..1] == [AB] && [AB][..0] == [] && [AC][..0] == [];
    assert Cost(false, [AB]) == 1.0;
  }

  lemma OnlyDirect(t: Trail)
    requires Found(Triangle(), false, {}, "A", "C", t)
    ensures t == Trail(["A", "C"], [AC])
  {
    hide CheapestArc, NoDup;
    var g := Triangle();
    var n := |t.edges| - 1;
    var here := Trail(["A"], []);
    assert AC in Out(g, "A") && Avoids(g, {}, "A", here) && Cost(false, here.edges) == 0.0;
    assert HasArc(g, LastHop(here), "C");
    TrailPrefix(g, {}, t, n);
    CostCountsEdges(g, Prefix(t, n));
    assert |t.edges| == 1;
    assert t.edges[0] in Out(g, t.hops[0]) && t.edges[0].dest == t.hops[1];
    assert t.edges == [t.edges[0]] && t.hops == ["A", "C"];
  }

  lemma {:induction false} CostCountsEdges(g: Adjacency, t: Trail)
    requires IsTrail(g, {}, t) && (forall u, e :: u in g && e in g[u] ==> e.weight >= 1.0)
    ensures Cost(false, t.edges) >= |t.edges| as real
    decreases |t.edges|
  {
    if t.edges != [] {
      var n := |t.edges| - 1;
      TrailPrefix(g, {}, t, n);
      CostCountsEdges(g, Prefix(t, n));
      assert t.edges[n] in Out(g, t.hops[n]);
    }
  }
}
