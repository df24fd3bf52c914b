/** The overlay graph as the path solvers see it: an adjacency map from a node to the
    edges leaving it, and trails through it.  A trail keeps its edges beside its hops,
    so two parallel edges between the same nodes give two different trails. */
module Overlay {

  type Node = string

  datatype Edge = Edge(source: Node, dest: Node, weight: real, load: real, latency: real)

  type Adjacency = map<Node, seq<Edge>>

  /** The edges leaving u; a missing key reads as the empty list. */
  function Out(g: Adjacency, u: Node): seq<Edge> {
    if u in g then g[u] else []
  }

  /** What an edge adds to the cost of a path: its latency or its weight. */
  function EdgeCost(useLatency: bool, e: Edge): real {
    if useLatency then e.latency else e.weight
  }

  ghost predicate NonNegative(g: Adjacency, useLatency: bool) {
    forall u, e :: u in g && e in g[u] ==> EdgeCost(useLatency, e) >= 0.0
  }

  ghost predicate HasArc(g: Adjacency, u: Node, v: Node) {
    exists e :: e in Out(g, u) && e.dest == v
  }

  function Dests(g: Adjacency): set<Node> {
    set u, e | u in g && e in g[u] :: e.dest
  }

  function AllNodes(g: Adjacency): set<Node> {
    g.Keys + Dests(g)
  }

  // ---------- Trails ----------

  datatype Trail = Trail(hops: seq<Node>, edges: seq<Edge>)

  ghost predicate NoDup(s: seq<Node>) {
    forall i, j :: 0 <= i < j < |s| ==> s[i] != s[j]
  }

  /** A trail through g that enters no forbidden node (where it starts does not matter). */
  ghost predicate IsTrail(g: Adjacency, forbidden: set<Node>, t: Trail) {
    && |t.hops| == |t.edges| + 1
    && (forall i {:trigger t.edges[i]} :: 0 <= i < |t.edges| ==>
          && t.edges[i] in Out(g, t.hops[i])
          && t.edges[i].dest == t.hops[i + 1]
          && t.hops[i + 1] !in forbidden)
  }

  ghost predicate Joins(t: Trail, from: Node, to: Node) {
    |t.hops| > 0 && t.hops[0] == from && t.hops[|t.hops| - 1] == to
  }

  ghost predicate Reachable(g: Adjacency, forbidden: set<Node>, from: Node, to: Node) {
    exists t :: IsTrail(g, forbidden, t) && Joins(t, from, to)
  }

  ghost function Cost(useLatency: bool, es: seq<Edge>): real {
    if es == [] then 0.0
    else Cost(useLatency, es[..|es| - 1]) + EdgeCost(useLatency, es[|es| - 1])
  }

  /** The cost of a trail follows the weights of its edges one for one, or their latencies,
      depending on the mode, and nothing else. */
  lemma {:induction false} CostFollowsEdges(es: seq<Edge>, i: nat, e: Edge)
    requires i < |es|
    ensures Cost(false, es[i := e]) == Cost(false, es) + e.weight - es[i].weight
    ensures Cost(true, es[i := e]) == Cost(true, es) + e.latency - es[i].latency
  {
    var n := |es| - 1;
    if i == n {
      assert es[i := e][..n] == es[..n];
    } else {
      CostFollowsEdges(es[..n], i, e);
      assert es[i := e][..n] == es[..n][i := e];
    }
  }

  /** The trail prolonged by one edge. */
  ghost function Extend(t: Trail, e: Edge): Trail {
    Trail(t.hops + [e.dest], t.edges + [e])
  }

  lemma CostSnoc(useLatency: bool, es: seq<Edge>, e: Edge)
    ensures Cost(useLatency, es + [e]) == Cost(useLatency, es) + EdgeCost(useLatency, e)
  {
    assert (es + [e])[..|es|] == es;
  }

  lemma {:induction false} CostConcat(useLatency: bool, a: seq<Edge>, b: seq<Edge>)
    ensures Cost(useLatency, a + b) == Cost(useLatency, a) + Cost(useLatency, b)
  {
    if b == [] {
      assert a + b == a;
    } else {
      var n := |b| - 1;
      CostConcat(useLatency, a, b[..n]);
      assert a + b == (a + b[..n]) + [b[n]];
      CostSnoc(useLatency, a + b[..n], b[n]);
    }
  }

  lemma {:induction false} CostNonNegative(g: Adjacency, useLatency: bool, forbidden: set<Node>, t: Trail)
    requires NonNegative(g, useLatency) && IsTrail(g, forbidden, t)
    ensures Cost(useLatency, t.edges) >= 0.0
    decreases |t.edges|
  {
    if t.edges != [] {
      var n := |t.edges| - 1;
      TrailPrefix(g, forbidden, t, n);
      CostNonNegative(g, useLatency, forbidden, Prefix(t, n));
      assert t.edges[n] in Out(g, t.hops[n]);
    }
  }

  /** The first n edges of a trail. */
  ghost function Prefix(t: Trail, n: nat): Trail
    requires n <= |t.edges| && |t.hops| == |t.edges| + 1
  {
    Trail(t.hops[..n + 1], t.edges[..n])
  }

  lemma TrailPrefix(g: Adjacency, forbidden: set<Node>, t: Trail, n: nat)
    requires IsTrail(g, forbidden, t) && n <= |t.edges|
    ensures IsTrail(g, forbidden, Prefix(t, n))
  {
    PrefixIsTrail(g, forbidden, t, Prefix(t, n));
  }

  lemma PrefixIsTrail(g: Adjacency, forbidden: set<Node>, t: Trail, p: Trail)
    requires IsTrail(g, forbidden, t) && |p.hops| == |p.edges| + 1 && p.edges <= t.edges && p.hops <= t.hops
    ensures IsTrail(g, forbidden, p)
  {
    forall i {:trigger p.edges[i]} | 0 <= i < |p.edges|
      ensures p.edges[i] in Out(g, p.hops[i]) && p.edges[i].dest == p.hops[i + 1] && p.hops[i + 1] !in forbidden
    {
      assert p.edges[i] == t.edges[i] && p.hops[i] == t.hops[i] && p.hops[i + 1] == t.hops[i + 1];
    }
  }

  lemma TrailExtend(g: Adjacency, forbidden: set<Node>, t: Trail, e: Edge)
    requires IsTrail(g, forbidden, t)
    requires e in Out(g, t.hops[|t.hops| - 1]) && e.dest !in forbidden
    ensures IsTrail(g, forbidden, Extend(t, e))
  {
    var p := Extend(t, e);
    forall i {:trigger p.edges[i]} | 0 <= i < |p.edges|
      ensures p.edges[i] in Out(g, p.hops[i]) && p.edges[i].dest == p.hops[i + 1] && p.hops[i + 1] !in forbidden
    {
      if i < |t.edges| {
        assert p.edges[i] == t.edges[i];
      }
    }
  }

  /** A path that goes on to a node it has visited repeats it. */
  lemma RevisitRepeats(hops: seq<Node>, n: Node, q: seq<Node>)
    requires n in hops && hops + [n] <= q
    ensures !NoDup(q)
  {
    var i :| 0 <= i < |hops| && hops[i] == n;
    assert q[i] == (hops + [n])[i] && q[|hops|] == (hops + [n])[|hops|];
  }

  lemma TrailAvoids(g: Adjacency, t: Trail, forbidden: set<Node>)
    requires IsTrail(g, {}, t) && forall i :: 1 <= i < |t.hops| ==> t.hops[i] !in forbidden
    ensures IsTrail(g, forbidden, t)
  {
  }
}
