/** `yensAlgorithm`: up to k paths from start to end.  Every path found so far is cut at each
    of its hops; from there the search looks for a way to the end that leaves the path, in a
    graph edited for that one search and restored after it. */
module YenPaths {
  import opened Optional
  import opened Overlay
  import opened EarlyCutDijkstra
  import opened PathNames
  import Ordering

  /** An entry of the candidate queue: a path written as a string, with its sums. */
  datatype Candidate = Candidate(node: string, cost: real, rawRTT: real)

  // ---------- Paths ----------

  /** A duplicate-free path from start to end along edges of g. */
  ghost predicate SimplePath(g: Adjacency, start: Node, end: Node, hops: seq<Node>) {
    && |hops| > 0 && hops[0] == start && hops[|hops| - 1] == end && NoDup(hops)
    && forall i :: 0 <= i < |hops| - 1 ==> HasArc(g, hops[i], hops[i + 1])
  }

  /** p is a simple path and t a trail along it with exactly the recorded sums. */
  ghost predicate Witnesses(g: Adjacency, useLatency: bool, start: Node, end: Node, p: Path, t: Trail) {
    IsTrail(g, {}, t) && Joins(t, start, end) && NoDup(t.hops) && Records(useLatency, p, t)
  }

  ghost predicate Sound(g: Adjacency, useLatency: bool, start: Node, end: Node, p: Path) {
    exists t :: Witnesses(g, useLatency, start, end, p, t)
  }

  lemma SoundIsSimple(g: Adjacency, useLatency: bool, start: Node, end: Node, p: Path)
    requires Sound(g, useLatency, start, end, p)
    ensures SimplePath(g, start, end, p.hops)
  {
    var t :| Witnesses(g, useLatency, start, end, p, t);
    forall i | 0 <= i < |p.hops| - 1
      ensures HasArc(g, p.hops[i], p.hops[i + 1])
    {
      assert t.edges[i] in Out(g, t.hops[i]);
    }
  }

  /** Names that neither end a chain of predecessors nor hold the separator. */
  ghost predicate WellNamed(g: Adjacency, start: Node) {
    Named(g, start) && forall n :: n in AllNodes(g) + {start} ==> ArrowFree(n)
  }

  lemma SimpleHopsAreNamed(g: Adjacency, start: Node, end: Node, hops: seq<Node>)
    requires WellNamed(g, start) && SimplePath(g, start, end, hops)
    ensures forall h :: h in hops ==> ArrowFree(h)
  {
    forall i | 0 <= i < |hops|
      ensures hops[i] in AllNodes(g) + {start}
    {
      if i > 0 {
        assert HasArc(g, hops[i - 1], hops[(i - 1) + 1]);
        var e :| e in Out(g, hops[i - 1]) && e.dest == hops[i];
        assert e.dest in Dests(g);
      }
    }
  }

  // ---------- Sums along a root path ----------

  function FirstEdge(es: seq<Edge>, v: Node): Option<Edge> {
    if es == [] then None else if es[0].dest == v then Some(es[0]) else FirstEdge(es[1..], v)
  }

  lemma {:induction false} FirstEdgeIsFound(es: seq<Edge>, e: Edge)
    requires e in es
    ensures var f := FirstEdge(es, e.dest); f.Some? && f.value in es && f.value.dest == e.dest
  {
    if es[0].dest != e.dest {
      assert e in es[1..];
      FirstEdgeIsFound(es[1..], e);
    }
  }

  lemma FirstArc(g: Adjacency, u: Node, v: Node) returns (f: Edge)
    requires HasArc(g, u, v)
    ensures FirstEdge(Out(g, u), v) == Some(f) && f in Out(g, u) && f.dest == v
  {
    var e :| e in Out(g, u) && e.dest == v;
    FirstEdgeIsFound(Out(g, u), e);
    f := FirstEdge(Out(g, u), v).value;
  }

  /** Sum over the hops of the first edge found between them; a missing edge adds nothing. */
  function HopSum(useLatency: bool, path: seq<Node>, g: Adjacency): real {
    if |path| <= 1 then 0.0
    else
      var n := |path| - 1;
      HopSum(useLatency, path[..n], g) +
      (match FirstEdge(Out(g, path[n - 1]), path[n])
       case Some(e) => EdgeCost(useLatency, e)
       case None => 0.0)
  }

  /** `calculatePathCost`, and with useLatency `calculatePathRTT`. */
  method CalculatePathSum(useLatency: bool, path: seq<Node>, g: Adjacency) returns (sum: real)
    ensures sum == HopSum(useLatency, path, g)
  {
    sum := 0.0;
    var i := 0;
    while i < |path| - 1
      invariant |path| == 0 ==> i == 0 && sum == 0.0
      invariant |path| > 0 ==> 0 <= i < |path| && sum == HopSum(useLatency, path[..i + 1], g)
    {
      var edges := Out(g, path[i]);
      var k := 0;
      while k < |edges| && edges[k].dest != path[i + 1]
        invariant 0 <= k <= |edges|
        invariant FirstEdge(edges, path[i + 1]) == FirstEdge(edges[k..], path[i + 1])
      {
        k := k + 1;
      }
      assert path[..i + 2][..i + 1] == path[..i + 1];
      if k < |edges| {
        sum := sum + EdgeCost(useLatency, edges[k]);
      }
      i := i + 1;
    }
    assert |path| > 0 ==> path[..i + 1] == path;
  }

  /** Along existing edges the sum is that of a trail, for cost and latency alike. */
  lemma {:induction false} HopSumIsTrailCost(useLatency: bool, path: seq<Node>, g: Adjacency) returns (t: Trail)
    requires |path| > 0 && forall i :: 0 <= i < |path| - 1 ==> HasArc(g, path[i], path[i + 1])
    ensures t.hops == path && IsTrail(g, {}, t)
    ensures Cost(useLatency, t.edges) == HopSum(useLatency, path, g) && Cost(true, t.edges) == HopSum(true, path, g)
    decreases |path|
  {
    if |path| == 1 {
      t := Trail(path, []);
    } else {
      hide IsTrail, Cost;
      var n := |path| - 1;
      var p := HopSumIsTrailCost(useLatency, path[..n], g);
      var f := FirstArc(g, path[n - 1], path[(n - 1) + 1]);
      TrailExtend(g, {}, p, f);
      CostSnoc(useLatency, p.edges, f);
      CostSnoc(true, p.edges, f);
      t := Extend(p, f);
      assert t.hops == path;
    }
  }

  /** The root sums do not see the edges of the spur node, the last hop of the path. */
  lemma {:induction false} HopSumIgnoresLast(useLatency: bool, path: seq<Node>, g: Adjacency, h: Adjacency)
    requires forall i :: 0 <= i < |path| - 1 ==> Out(g, path[i]) == Out(h, path[i])
    ensures HopSum(useLatency, path, g) == HopSum(useLatency, path, h)
    decreases |path|
  {
    if |path| > 1 {
      HopSumIgnoresLast(useLatency, path[..|path| - 1], g, h);
    }
  }

  // ---------- The spur graph ----------

  /** q starts with root and leaves it by a hop that no path of A takes there. */
  ghost predicate Deviates(A: seq<Path>, root: seq<Node>, q: seq<Node>) {
    root < q && forall p :: p in A && root < p.hops ==> p.hops[|root|] != q[|root|]
  }

  /** An edge the spur node keeps: not back into the root, nor along a path of A. */
  ghost predicate SpurEdge(A: seq<Path>, root: seq<Node>, e: Edge) {
    e.dest !in root && forall p :: p in A && root < p.hops ==> p.hops[|root|] != e.dest
  }

  ghost predicate KeepsSpurEdges(A: seq<Path>, root: seq<Node>, edges: seq<Edge>, kept: seq<Edge>) {
    forall e :: e in kept <==> e in edges && SpurEdge(A, root, e)
  }

  /** h is g with the edges of the last root node cut down to spur edges. */
  ghost predicate SpurGraph(g: Adjacency, A: seq<Path>, root: seq<Node>, h: Adjacency) {
    && |root| > 0
    && (forall u :: u != root[|root| - 1] ==> Out(h, u) == Out(g, u))
    && KeepsSpurEdges(A, root, Out(g, root[|root| - 1]), Out(h, root[|root| - 1]))
  }

  /** `pathsSharePrefix`. */
  predicate SharePrefix(a: seq<Node>, b: seq<Node>) {
    if |a| < |b| then a <= b else b <= a
  }

  /** The two filters over the edges of the spur node. */
  method SpurEdges(edges: seq<Edge>, A: seq<Path>, root: seq<Node>) returns (r: seq<Edge>)
    requires |root| > 0
    ensures KeepsSpurEdges(A, root, edges, r)
  {
    r := [];
    for i := 0 to |edges|
      invariant forall e :: e in r <==> e in edges[..i] && e.dest !in root
    {
      if edges[i].dest !in root {
        r := r + [edges[i]];
      }
    }
    var j := |root| - 1;
    for i := 0 to |A|
      invariant forall e :: e in r <==> e in edges && SpurEdge(A[..i], root, e)
    {
      var path := A[i].hops;
      assert forall p :: p in A[..i + 1] <==> p in A[..i] || p == A[i];
      if |path| > j && SharePrefix(path, root) && j + 1 < |path| {
        var target := path[j + 1];
        assert root < path;
        r := DropTarget(r, target);
      }
    }
    assert A[..|A|] == A;
  }

  method DropTarget(edges: seq<Edge>, target: Node) returns (r: seq<Edge>)
    ensures forall e :: e in r <==> e in edges && e.dest != target
  {
    r := [];
    for k := 0 to |edges|
      invariant forall e :: e in r <==> e in edges[..k] && e.dest != target
    {
      if edges[k].dest != target {
        r := r + [edges[k]];
      }
    }
  }

  /** Hops of the root before the spur node. */
  function Behind(root: seq<Node>): set<Node>
    requires |root| > 0
  {
    set i | 0 <= i < |root| - 1 :: root[i]
  }

  lemma SpurSubgraph(g: Adjacency, A: seq<Path>, root: seq<Node>, h: Adjacency)
    requires SpurGraph(g, A, root, h)
    ensures forall u, e :: e in Out(h, u) ==> e in Out(g, u)
    ensures forall e :: e in Out(h, root[|root| - 1]) ==> SpurEdge(A, root, e)
  {
    var spur := root[|root| - 1];
    assert forall e :: e in Out(h, spur) ==> e in Out(g, spur);
    forall u, e | e in Out(h, u)
      ensures e in Out(g, u)
    {
      if u == spur {
        assert e in Out(g, spur);
      } else {
        assert Out(h, u) == Out(g, u);
        assert e in Out(g, u);
      }
    }
  }

  lemma DeviationArc(g: Adjacency, h: Adjacency, A: seq<Path>, root: seq<Node>, start: Node, end: Node, q: seq<Node>, i: nat)
    requires SpurGraph(g, A, root, h)
    requires SimplePath(g, start, end, q) && Deviates(A, root, q)
    requires |root| - 1 <= i < |q| - 1
    ensures HasArc(h, q[i], q[i + 1])
    ensures q[i + 1] !in Behind(root)
  {
    assert HasArc(g, q[i], q[i + 1]);
    var e :| e in Out(g, q[i]) && e.dest == q[i + 1];
    assert forall k :: 0 <= k < |root| ==> root[k] == q[k];
    if i == |root| - 1 {
      assert SpurEdge(A, root, e);
    } else {
      assert q[i] != root[|root| - 1];
    }
    assert e in Out(h, q[i]);
  }

  lemma DeviationTail(g: Adjacency, h: Adjacency, A: seq<Path>, root: seq<Node>, start: Node, end: Node, q: seq<Node>, tail: seq<Node>)
    requires SpurGraph(g, A, root, h)
    requires SimplePath(g, start, end, q) && Deviates(A, root, q) && tail == q[|root| - 1..]
    ensures |tail| > 0 && tail[0] == root[|root| - 1] && tail[|tail| - 1] == end
    ensures forall i :: 0 <= i < |tail| - 1 ==> HasArc(h, tail[i], tail[i + 1])
    ensures forall i :: 1 <= i < |tail| ==> tail[i] !in Behind(root)
  {
    hide HasArc, NoDup, Behind, KeepsSpurEdges;
    var j := |root| - 1;
    forall i | 0 <= i < |tail| - 1
      ensures HasArc(h, tail[i], tail[i + 1])
    {
      DeviationArc(g, h, A, root, start, end, q, j + i);
    }
    forall i | 1 <= i < |tail|
      ensures tail[i] !in Behind(root)
    {
      DeviationArc(g, h, A, root, start, end, q, j + i - 1);
    }
  }

  /** A path that leaves the root by an unused hop survives in the spur graph. */
  lemma DeviationIsReachable(g: Adjacency, h: Adjacency, A: seq<Path>, root: seq<Node>, start: Node, end: Node, q: seq<Node>)
    requires SpurGraph(g, A, root, h)
    requires SimplePath(g, start, end, q) && Deviates(A, root, q)
    ensures Reachable(h, Behind(root), root[|root| - 1], end)
  {
    var tail := q[|root| - 1..];
    DeviationTail(g, h, A, root, start, end, q, tail);
    hide SpurGraph, SimplePath, Deviates, HasArc, Behind, IsTrail, HopSum, Cost;
    var t := HopSumIsTrailCost(true, tail, h);
    TrailAvoids(h, t, Behind(root));
    assert Joins(t, root[|root| - 1], end);
  }

  /** Root and spur trail joined. */
  ghost function Splice(a: Trail, b: Trail): Trail
    requires |a.hops| > 0
  {
    Trail(a.hops[..|a.hops| - 1] + b.hops, a.edges + b.edges)
  }

  lemma SpliceIsTrail(g: Adjacency, h: Adjacency, forbidden: set<Node>, a: Trail, b: Trail)
    requires IsTrail(g, {}, a) && IsTrail(h, forbidden, b)
    requires a.hops[|a.hops| - 1] == b.hops[0]
    requires forall u, e :: e in Out(h, u) ==> e in Out(g, u)
    ensures IsTrail(g, {}, Splice(a, b))
  {
    var t := Splice(a, b);
    forall i {:trigger t.edges[i]} | 0 <= i < |t.edges|
      ensures t.edges[i] in Out(g, t.hops[i]) && t.edges[i].dest == t.hops[i + 1] && t.hops[i + 1] !in {}
    {
      if i < |a.edges| {
        assert t.edges[i] == a.edges[i];
      } else {
        assert t.edges[i] == b.edges[i - |a.edges|];
      }
    }
  }

  lemma SpliceHasNoDup(root: seq<Node>, hops: seq<Node>)
    requires |root| > 0 && |hops| > 0 && NoDup(root) && NoDup(hops) && hops[0] == root[|root| - 1]
    requires forall i :: 1 <= i < |hops| ==> hops[i] !in Behind(root)
    ensures NoDup(root[..|root| - 1] + hops)
  {
    var m := |root| - 1;
    var all := root[..m] + hops;
    forall i, j | 0 <= i < j < |all|
      ensures all[i] != all[j]
    {
      if i < m <= j {
        assert all[i] in Behind(root) && all[j] == hops[j - m];
        assert j == m ==> all[j] == root[m];
      }
    }
  }

  /** The hops of a spur trail after the first avoid the root, and the second one is new. */
  lemma SpurTrailLeaves(h: Adjacency, A: seq<Path>, root: seq<Node>, end: Node, t: Trail)
    requires |root| > 0 && end !in root
    requires forall e :: e in Out(h, root[|root| - 1]) ==> SpurEdge(A, root, e)
    requires IsTrail(h, Behind(root), t) && Joins(t, root[|root| - 1], end)
    ensures forall i :: 1 <= i < |t.hops| ==> t.hops[i] !in Behind(root)
    ensures Deviates(A, root, root[..|root| - 1] + t.hops)
  {
    forall i | 1 <= i < |t.hops|
      ensures t.hops[i] !in Behind(root)
    {
      assert t.edges[i - 1] in Out(h, t.hops[i - 1]);
    }
    var all := root[..|root| - 1] + t.hops;
    assert |t.hops| > 1;
    assert t.edges[0] in Out(h, root[|root| - 1]);
    assert SpurEdge(A, root, t.edges[0]) && all[|root|] == t.edges[0].dest;
    assert all[..|root|] == root;
  }

  /** What the spur search finds completes the root to a sound path that deviates from A. */
  lemma SpurPathIsSound(g: Adjacency, useLatency: bool, h: Adjacency, A: seq<Path>, root: seq<Node>, start: Node, end: Node,
                        spur: Path, t: Trail)
    requires SpurGraph(g, A, root, h) && NoDup(root) && root[0] == start && end !in root
    requires forall i :: 0 <= i < |root| - 1 ==> HasArc(g, root[i], root[i + 1])
    requires IsTrail(h, Behind(root), t) && Joins(t, root[|root| - 1], end) && NoDup(t.hops) && Records(useLatency, spur, t)
    ensures var p := Path(root[..|root| - 1] + spur.hops, HopSum(useLatency, root, g) + spur.cost, HopSum(true, root, g) + spur.rawRTT);
            Sound(g, useLatency, start, end, p) && Deviates(A, root, p.hops)
  {
    hide HopSum, NoDup, HasArc, Cost;
    SpurSubgraph(g, A, root, h);
    SpurTrailLeaves(h, A, root, end, t);
    var a := HopSumIsTrailCost(useLatency, root, g);
    SpliceIsTrail(g, h, Behind(root), a, t);
    SpliceHasNoDup(root, t.hops);
    SpliceIsSound(g, useLatency, start, end, a, t, spur);
  }

  lemma SpliceIsSound(g: Adjacency, useLatency: bool, start: Node, end: Node, a: Trail, t: Trail, spur: Path)
    requires |a.hops| > 0 && Joins(a, start, a.hops[|a.hops| - 1]) && Joins(t, a.hops[|a.hops| - 1], end)
    requires Records(useLatency, spur, t)
    requires IsTrail(g, {}, Splice(a, t)) && NoDup(a.hops[..|a.hops| - 1] + t.hops)
    ensures Sound(g, useLatency, start, end,
                  Path(a.hops[..|a.hops| - 1] + spur.hops, Cost(useLatency, a.edges) + spur.cost, Cost(true, a.edges) + spur.rawRTT))
  {
    hide IsTrail, NoDup, Cost;
    CostConcat(useLatency, a.edges, t.edges);
    CostConcat(true, a.edges, t.edges);
    var p := Path(a.hops[..|a.hops| - 1] + spur.hops, Cost(useLatency, a.edges) + spur.cost, Cost(true, a.edges) + spur.rawRTT);
    assert Witnesses(g, useLatency, start, end, p, Splice(a, t));
  }

  // ---------- Candidates ----------

  function AsPath(c: Candidate): Path {
    Path(Split(c.node), c.cost, c.rawRTT)
  }

  /** No path of A has these hops. */
  ghost predicate NotIn(A: seq<Path>, hops: seq<Node>) {
    forall p :: p in A ==> p.hops != hops
  }

  ghost predicate AllSound(g: Adjacency, useLatency: bool, start: Node, end: Node, A: seq<Path>) {
    forall p :: p in A ==> Sound(g, useLatency, start, end, p)
  }

  /** Candidates are sound paths, pairwise different and none of them in A. */
  ghost predicate CandidatesHold(g: Adjacency, useLatency: bool, start: Node, end: Node, A: seq<Path>, B: multiset<Candidate>) {
    && (forall c :: c in B ==>
          B[c] == 1 && Sound(g, useLatency, start, end, AsPath(c)) && Join(Split(c.node)) == c.node && NotIn(A, Split(c.node)))
    && (forall c, d :: c in B && d in B && c.node == d.node ==> c == d)
  }

  /** `isPathInList`, on joined paths. */
  predicate InList(p: Path, A: seq<Path>) {
    exists q :: q in A && Join(q.hops) == Join(p.hops)
  }

  /** `isPathInQueue`. */
  predicate InQueue(p: Path, B: multiset<Candidate>) {
    exists c :: c in B && c.node == Join(p.hops)
  }

  lemma InListIsEquality(g: Adjacency, useLatency: bool, start: Node, end: Node, p: Path, A: seq<Path>)
    requires WellNamed(g, start) && AllSound(g, useLatency, start, end, A) && Sound(g, useLatency, start, end, p)
    ensures InList(p, A) <==> !NotIn(A, p.hops)
  {
    SoundIsSimple(g, useLatency, start, end, p);
    SimpleHopsAreNamed(g, start, end, p.hops);
    forall q | q in A
      ensures Join(q.hops) == Join(p.hops) <==> q.hops == p.hops
    {
      SoundIsSimple(g, useLatency, start, end, q);
      SimpleHopsAreNamed(g, start, end, q.hops);
      JoinIsInjective(q.hops, p.hops);
    }
  }

  method HasDuplicateNodes(hops: seq<Node>) returns (dup: bool)
    ensures dup <==> !NoDup(hops)
  {
    var seen: set<Node> := {};
    for i := 0 to |hops|
      invariant forall n :: n in seen <==> n in hops[..i]
      invariant NoDup(hops[..i])
    {
      if hops[i] in seen {
        assert exists k :: 0 <= k < i && hops[k] == hops[i];
        return true;
      }
      seen := seen + {hops[i]};
    }
    assert hops[..|hops|] == hops;
    return false;
  }

  lemma PushHolds(g: Adjacency, useLatency: bool, start: Node, end: Node, A: seq<Path>, B: multiset<Candidate>, c: Candidate)
    requires CandidatesHold(g, useLatency, start, end, A, B)
    requires Sound(g, useLatency, start, end, AsPath(c)) && Join(Split(c.node)) == c.node && NotIn(A, Split(c.node))
    requires forall d :: d in B ==> d.node != c.node
    ensures CandidatesHold(g, useLatency, start, end, A, B + multiset{c})
  {
    hide Sound, NotIn, Join, Split, AsPath;
    var B' := B + multiset{c};
    assert c !in B;
    assert forall d :: d in B' <==> d in B || d == c;
    assert forall d :: d in B ==> B'[d] == B[d];
  }

  /** A sound path survives being written as a string and read back. */
  lemma WrittenPath(g: Adjacency, useLatency: bool, start: Node, end: Node, p: Path)
    requires WellNamed(g, start) && Sound(g, useLatency, start, end, p)
    ensures Split(Join(p.hops)) == p.hops
  {
    SoundIsSimple(g, useLatency, start, end, p);
    SimpleHopsAreNamed(g, start, end, p.hops);
    SplitUndoesJoin(p.hops);
  }

  /** Queue a completed path unless it is known already. */
  method Offer(p: Path, A: seq<Path>, B: multiset<Candidate>, ghost g: Adjacency, ghost useLatency: bool, ghost start: Node, ghost end: Node)
    returns (B': multiset<Candidate>)
    requires WellNamed(g, start) && AllSound(g, useLatency, start, end, A)
    requires CandidatesHold(g, useLatency, start, end, A, B)
    requires Sound(g, useLatency, start, end, p) && NotIn(A, p.hops)
    ensures CandidatesHold(g, useLatency, start, end, A, B') && B <= B' && InQueue(p, B')
  {
    hide CandidatesHold, Sound, NotIn, AllSound, WellNamed, Join, Split;
    B' := B;
    WrittenPath(g, useLatency, start, end, p);
    InListIsEquality(g, useLatency, start, end, p, A);
    if !InList(p, A) && !InQueue(p, B) {
      var c := Candidate(Join(p.hops), p.cost, p.rawRTT);
      B' := B + multiset{c};
      assert AsPath(c) == p && c in B';
      PushHolds(g, useLatency, start, end, A, B, c);
    }
  }

  // ---------- One spur step ----------

  lemma SpurGraphIsFit(g: Adjacency, useLatency: bool, A: seq<Path>, root: seq<Node>, h: Adjacency, start: Node)
    requires NonNegative(g, useLatency) && WellNamed(g, start) && SpurGraph(g, A, root, h) && h.Keys == g.Keys
    ensures NonNegative(h, useLatency) && "" !in AllNodes(h)
  {
    SpurSubgraph(g, A, root, h);
    forall u, e | u in h && e in h[u]
      ensures EdgeCost(useLatency, e) >= 0.0 && e.dest in Dests(g)
    {
      assert e in Out(h, u);
      assert e in Out(g, u);
    }
    assert Dests(h) <= Dests(g);
  }

  ghost predicate Deviation(g: Adjacency, start: Node, end: Node, A: seq<Path>, root: seq<Node>, q: seq<Node>) {
    SimplePath(g, start, end, q) && Deviates(A, root, q)
  }

  /** Some simple path leaves the root by a hop that no path of A takes there. */
  ghost predicate CanDeviate(g: Adjacency, start: Node, end: Node, A: seq<Path>, root: seq<Node>) {
    exists q :: Deviation(g, start, end, A, root, q)
  }

  /** A proper prefix of a simple path, up to its spur node. */
  ghost predicate IsRoot(g: Adjacency, start: Node, end: Node, root: seq<Node>) {
    && |root| > 0 && root[0] == start && NoDup(root) && end !in root && "" !in root
    && forall i :: 0 <= i < |root| - 1 ==> HasArc(g, root[i], root[i + 1])
  }

  lemma CutIsRoot(g: Adjacency, start: Node, end: Node, prev: seq<Node>, j: nat)
    requires WellNamed(g, start) && SimplePath(g, start, end, prev) && j < |prev| - 1
    ensures IsRoot(g, start, end, prev[..j + 1]) && prev[j] in g
  {
    var root := prev[..j + 1];
    assert HasArc(g, prev[j], prev[j + 1]);
    forall i | 0 <= i < |root|
      ensures root[i] in AllNodes(g) && root[i] != end
    {
      assert HasArc(g, prev[i], prev[i + 1]);
    }
  }

  lemma RestoredGraph(g: Adjacency, u: Node, kept: seq<Edge>)
    requires u in g
    ensures g[u := kept][u := g[u]] == g
  {
  }

  /** The loop body for one cut of one known path.  The graph comes back as it was, the
      candidates stay sound and different, and if any simple path leaves the root by an
      unused hop then a candidate is waiting. */
  method SpurStep(useLatency: bool, start: Node, end: Node, g: Adjacency, A: seq<Path>, B: multiset<Candidate>, prev: seq<Node>, j: nat)
    returns (g': Adjacency, B': multiset<Candidate>)
    requires NonNegative(g, useLatency) && WellNamed(g, start)
    requires AllSound(g, useLatency, start, end, A) && CandidatesHold(g, useLatency, start, end, A, B)
    requires SimplePath(g, start, end, prev) && j < |prev| - 1 && exists p :: p in A && p.hops == prev
    ensures g' == g
    ensures CandidatesHold(g, useLatency, start, end, A, B') && B <= B'
    ensures CanDeviate(g, start, end, A, prev[..j + 1]) ==> B' != multiset{}
    ensures CutIsHarmless(g, useLatency, start, end) ==> RootCovered(g, useLatency, start, end, A, B', prev[..j + 1])
  {
    hide CutIsHarmless, Within, CandidatesHold, Sound, AllSound, NotIn, NonNegative, WellNamed, KeepsSpurEdges, NearestPredecessor, CheapestArc,
         Behind, Reachable, Deviates, HopSum, SimplePath, IsTrail, NoDup, HasArc, Dests;
    g', B' := g, B;
    var spurNode, root := prev[j], prev[..j + 1];
    CutIsRoot(g, start, end, prev, j);
    if spurNode in g' {
      var originalEdges := g'[spurNode];
      var kept := SpurEdges(originalEdges, A, root);
      RestoredGraph(g, spurNode, kept);
      g' := g'[spurNode := kept];
      assert SpurGraph(g, A, root, g') && root < prev;
      if spurNode == end {
        g' := g'[spurNode := originalEdges];
      } else if end in root {
        g' := g'[spurNode := originalEdges];
      } else {
        SpurGraphIsFit(g, useLatency, A, root, g', start);
        var spurPath, t := FindShortestPath(useLatency, spurNode, end, g', Behind(root));
        forall q | Deviation(g, start, end, A, root, q)
          ensures spurPath.Some?
        {
          DeviationIsReachable(g, g', A, root, start, end, q);
        }
        var dup := false;
        if spurPath.Some? {
          dup := HasDuplicateNodes(spurPath.value.hops);
        }
        // With a duplicate the source goes on to the next cut without restoring the graph.
        if !dup {
          if spurPath.Some? {
            B' := OfferCompleted(useLatency, start, end, g, g', A, B, root, spurPath.value, t);
          }
          g' := g'[spurNode := originalEdges];
        }
      }
    }
  }

  /** Root and spur path, put together with their sums, are offered to the queue. */
  method OfferCompleted(useLatency: bool, start: Node, end: Node, ghost g: Adjacency, h: Adjacency, A: seq<Path>, B: multiset<Candidate>,
                        root: seq<Node>, spur: Path, ghost t: Trail)
    returns (B': multiset<Candidate>)
    requires WellNamed(g, start) && AllSound(g, useLatency, start, end, A) && CandidatesHold(g, useLatency, start, end, A, B)
    requires |root| > 0 && SpurSearch(g, useLatency, start, end, A, root, h)
    requires Found(h, useLatency, Behind(root), root[|root| - 1], end, t) && Records(useLatency, spur, t) && NonNegative(h, useLatency)
    ensures CandidatesHold(g, useLatency, start, end, A, B') && B <= B' && B' != multiset{}
    ensures CutIsHarmless(g, useLatency, start, end) ==> RootCovered(g, useLatency, start, end, A, B', root)
  {
    hide *;
    var rootCost := CalculatePathSum(useLatency, root, h);
    var rootRTT := CalculatePathSum(true, root, h);
    var mergedHops := root[..|root| - 1] + spur.hops;
    var cleanHops := RemoveConsecutiveDuplicates(mergedHops);
    var completePath := Path(cleanHops, rootCost + spur.cost, rootRTT + spur.rawRTT);
    CompletedIsSound(g, useLatency, h, A, root, start, end, spur, t);
    B' := B;
    var dup := HasDuplicateNodes(completePath.hops);
    if !dup {
      B' := Offer(completePath, A, B, g, useLatency, start, end);
      QueueNotEmpty(completePath, B');
      if CutIsHarmless(g, useLatency, start, end) {
        CompletedCovers(g, useLatency, h, A, B', root, start, end, completePath, spur, t);
      }
    }
  }

  lemma CompletedCovers(g: Adjacency, useLatency: bool, h: Adjacency, A: seq<Path>, B: multiset<Candidate>, root: seq<Node>, start: Node, end: Node,
                        p: Path, spur: Path, t: Trail)
    requires WellNamed(g, start) && CandidatesHold(g, useLatency, start, end, A, B)
    requires |root| > 0 && SpurSearch(g, useLatency, start, end, A, root, h) && NonNegative(h, useLatency)
    requires CutIsHarmless(g, useLatency, start, end)
    requires Found(h, useLatency, Behind(root), root[|root| - 1], end, t) && Records(useLatency, spur, t)
    requires Sound(g, useLatency, start, end, p) && InQueue(p, B) && p.cost == HopSum(useLatency, root, h) + spur.cost
    ensures RootCovered(g, useLatency, start, end, A, B, root)
  {
    hide WellNamed, CandidatesHold, Found, NonNegative, Sound, InQueue, HopSum, Cost, Deviation, SpurSearch, OneEdgePerPair, NoCheaperLastEdge;
    QueuedWithin(g, useLatency, start, end, A, B, p);
    forall q | Deviation(g, start, end, A, root, q)
      ensures Within(B, HopSum(useLatency, q, g))
    {
      CompletedIsCheapest(g, useLatency, h, A, root, start, end, t, q);
    }
  }

  lemma QueueNotEmpty(p: Path, B: multiset<Candidate>)
    requires InQueue(p, B)
    ensures B != multiset{}
  {
  }

  lemma CompletedIsSound(g: Adjacency, useLatency: bool, h: Adjacency, A: seq<Path>, root: seq<Node>, start: Node, end: Node,
                         spur: Path, t: Trail)
    requires |root| > 0 && SpurSearch(g, useLatency, start, end, A, root, h)
    requires Found(h, useLatency, Behind(root), root[|root| - 1], end, t) && Records(useLatency, spur, t)
    ensures var hops := root[..|root| - 1] + spur.hops;
            && AdjacentDistinct(hops) && NoDup(hops) && NotIn(A, hops)
            && Sound(g, useLatency, start, end, Path(hops, HopSum(useLatency, root, h) + spur.cost, HopSum(true, root, h) + spur.rawRTT))
  {
    hide Found, IsTrail, Joins, Behind, Sound, HopSum, HasArc;
    FoundIsSimple(h, useLatency, Behind(root), root[|root| - 1], end, t);
    RootEdgesUntouched(g, A, root, h);
    HopSumIgnoresLast(useLatency, root, g, h);
    HopSumIgnoresLast(true, root, g, h);
    SpurPathIsSound(g, useLatency, h, A, root, start, end, spur, t);
    NewPathFacts(g, useLatency, start, end, A, root,
                 Path(root[..|root| - 1] + spur.hops, HopSum(useLatency, root, g) + spur.cost, HopSum(true, root, g) + spur.rawRTT));
  }

  lemma RootEdgesUntouched(g: Adjacency, A: seq<Path>, root: seq<Node>, h: Adjacency)
    requires SpurGraph(g, A, root, h) && NoDup(root)
    ensures forall i :: 0 <= i < |root| - 1 ==> Out(g, root[i]) == Out(h, root[i])
  {
  }

  lemma NewPathFacts(g: Adjacency, useLatency: bool, start: Node, end: Node, A: seq<Path>, root: seq<Node>, p: Path)
    requires Sound(g, useLatency, start, end, p) && Deviates(A, root, p.hops)
    ensures AdjacentDistinct(p.hops) && NoDup(p.hops) && NotIn(A, p.hops)
  {
  }

  // ---------- Nothing is missed ----------

  /** The number of leading hops two paths share. */
  ghost function Shared(a: seq<Node>, b: seq<Node>): nat {
    if a == [] || b == [] || a[0] != b[0] then 0 else 1 + Shared(a[1..], b[1..])
  }

  lemma {:induction false} SharedIsLongest(a: seq<Node>, b: seq<Node>)
    ensures var n := Shared(a, b); n <= |a| && n <= |b| && a[..n] == b[..n] && (n < |a| && n < |b| ==> a[n] != b[n])
  {
    if !(a == [] || b == [] || a[0] != b[0]) {
      SharedIsLongest(a[1..], b[1..]);
      var n := Shared(a[1..], b[1..]);
      assert a[..n + 1] == [a[0]] + a[1..][..n] && b[..n + 1] == [b[0]] + b[1..][..n];
    }
  }

  /** A path of A that shares most with q. */
  lemma {:induction false} ClosestPath(A: seq<Path>, q: seq<Node>) returns (p: Path)
    requires A != []
    ensures p in A && forall p' :: p' in A ==> Shared(p'.hops, q) <= Shared(p.hops, q)
  {
    if |A| == 1 {
      p := A[0];
    } else {
      p := ClosestPath(A[1..], q);
      if Shared(p.hops, q) < Shared(A[0].hops, q) {
        p := A[0];
      }
    }
  }

  /** Two paths that share at most n hops part there. */
  lemma PartAt(a: seq<Node>, b: seq<Node>, n: nat)
    requires n < |a| && n < |b| && a[..n] == b[..n] && Shared(a, b) <= n
    ensures a[n] != b[n]
  {
    if a[n] == b[n] {
      assert a[..n + 1] == a[..n] + [a[n]] && b[..n + 1] == b[..n] + [b[n]];
      SharedAtLeast(a, b, n + 1);
    }
  }

  /** A simple path outside A leaves some path of A by a hop nothing in A takes there. */
  lemma MissingPathDeviates(g: Adjacency, useLatency: bool, start: Node, end: Node, A: seq<Path>, q: seq<Node>) returns (p: Path, j: nat)
    requires A != [] && AllSound(g, useLatency, start, end, A)
    requires SimplePath(g, start, end, q) && NotIn(A, q)
    ensures p in A && j < |p.hops| - 1 && Deviation(g, start, end, A, p.hops[..j + 1], q)
    ensures p.hops[..j + 1] < p.hops && CanDeviate(g, start, end, A, p.hops[..j + 1])
  {
    hide Sound, HasArc;
    p := ClosestPath(A, q);
    SoundIsSimple(g, useLatency, start, end, p);
    var n := Shared(p.hops, q);
    SharedIsLongest(p.hops, q);
    SimplePathsDoNotNest(g, start, end, p.hops, q);
    SimplePathsDoNotNest(g, start, end, q, p.hops);
    assert 0 < n < |p.hops| && n < |q|;
    j := n - 1;
    forall p' | p' in A && p.hops[..n] < p'.hops
      ensures p'.hops[n] != q[n]
    {
      PartAt(p'.hops, q, n);
    }
    assert p.hops[..n] < q;
  }

  lemma {:induction false} SharedAtLeast(a: seq<Node>, b: seq<Node>, n: nat)
    requires n <= |a| && n <= |b| && a[..n] == b[..n]
    ensures n <= Shared(a, b)
  {
    if n > 0 {
      assert a[0] == a[..n][0] && b[0] == b[..n][0];
      assert a[1..][..n - 1] == a[..n][1..] && b[1..][..n - 1] == b[..n][1..];
      SharedAtLeast(a[1..], b[1..], n - 1);
    }
  }

  /** A simple path that begins another one to the same end is that other one. */
  lemma SimplePathsDoNotNest(g: Adjacency, start: Node, end: Node, a: seq<Node>, b: seq<Node>)
    requires SimplePath(g, start, end, a) && SimplePath(g, start, end, b)
    ensures a <= b ==> a == b
  {
    if a <= b {
      assert b[|a| - 1] == end;
    }
  }

  /** Every simple path is in A. */
  ghost predicate Complete(g: Adjacency, start: Node, end: Node, A: seq<Path>) {
    forall q :: SimplePath(g, start, end, q) ==> !NotIn(A, q)
  }

  ghost predicate NoCutDeviates(g: Adjacency, start: Node, end: Node, A: seq<Path>, p: Path, n: int) {
    forall root :: 0 < |root| <= n && root < p.hops ==> !CanDeviate(g, start, end, A, root)
  }

  lemma NoDeviationIsComplete(g: Adjacency, useLatency: bool, start: Node, end: Node, A: seq<Path>)
    requires A != [] && AllSound(g, useLatency, start, end, A)
    requires forall p :: p in A ==> NoCutDeviates(g, start, end, A, p, |p.hops|)
    ensures Complete(g, start, end, A)
  {
    forall q | SimplePath(g, start, end, q)
      ensures !NotIn(A, q)
    {
      if NotIn(A, q) {
        var p, j := MissingPathDeviates(g, useLatency, start, end, A, q);
        assert false;
      }
    }
  }

  // ---------- The cheapest paths ----------

  /** A search the algorithm may make: from a cut of a path in A, on the graph edited for it. */
  ghost predicate SpurSearch(g: Adjacency, useLatency: bool, start: Node, end: Node, A: seq<Path>, root: seq<Node>, h: Adjacency) {
    && AllSound(g, useLatency, start, end, A) && IsRoot(g, start, end, root) && (exists p :: p in A && root < p.hops)
    && SpurGraph(g, A, root, h)
  }

  /** There are no parallel edges, and no search made is cut too early. */
  ghost predicate CutIsHarmless(g: Adjacency, useLatency: bool, start: Node, end: Node) {
    && OneEdgePerPair(g) && (start != end ==> NoCheaperLastEdge(g, useLatency, {}, start, end))
    && forall A, root, h :: SpurSearch(g, useLatency, start, end, A, root, h) ==>
                              NoCheaperLastEdge(h, useLatency, Behind(root), root[|root| - 1], end)
  }

  /** In particular if all edges into end have one cost. */
  lemma UniformIsHarmless(g: Adjacency, useLatency: bool, start: Node, end: Node)
    requires NonNegative(g, useLatency) && OneEdgePerPair(g) && UniformLastEdge(g, useLatency, end)
    ensures CutIsHarmless(g, useLatency, start, end)
  {
    hide NonNegative, UniformLastEdge, NoCheaperLastEdge, AlwaysShortest, AllSound, HasArc;
    if start != end {
      UniformLastEdgeIsOptimal(g, useLatency, {}, start, end);
    }
    forall A, root, h | SpurSearch(g, useLatency, start, end, A, root, h)
      ensures NoCheaperLastEdge(h, useLatency, Behind(root), root[|root| - 1], end)
    {
      SpurGraphIsUniform(g, useLatency, end, A, root, h);
      UniformLastEdgeIsOptimal(h, useLatency, Behind(root), root[|root| - 1], end);
    }
  }

  /** No path outside A is cheaper than one in A. */
  ghost predicate Cheapest(g: Adjacency, useLatency: bool, start: Node, end: Node, A: seq<Path>) {
    forall p, q :: p in A && SimplePath(g, start, end, q) && NotIn(A, q) ==> p.cost <= HopSum(useLatency, q, g)
  }

  /** Some candidate costs at most x. */
  ghost predicate Within(B: multiset<Candidate>, x: real) {
    exists c :: c in B && c.cost <= x
  }

  /** For every way to leave this root a candidate waits that is no dearer. */
  ghost predicate RootCovered(g: Adjacency, useLatency: bool, start: Node, end: Node, A: seq<Path>, B: multiset<Candidate>, root: seq<Node>) {
    forall q :: Deviation(g, start, end, A, root, q) ==> Within(B, HopSum(useLatency, q, g))
  }

  ghost predicate CutsCovered(g: Adjacency, useLatency: bool, start: Node, end: Node, A: seq<Path>, B: multiset<Candidate>, p: Path, n: int) {
    forall root :: 0 < |root| <= n && root < p.hops ==> RootCovered(g, useLatency, start, end, A, B, root)
  }

  /** For every path not found yet a candidate waits that is no dearer. */
  ghost predicate MissingCovered(g: Adjacency, useLatency: bool, start: Node, end: Node, A: seq<Path>, B: multiset<Candidate>) {
    forall q :: SimplePath(g, start, end, q) && NotIn(A, q) ==> Within(B, HopSum(useLatency, q, g))
  }

  lemma CoverGrows(g: Adjacency, useLatency: bool, start: Node, end: Node, A: seq<Path>, B: multiset<Candidate>, B': multiset<Candidate>, root: seq<Node>)
    requires RootCovered(g, useLatency, start, end, A, B, root) && B <= B'
    ensures RootCovered(g, useLatency, start, end, A, B', root)
  {
    hide Deviation, HopSum;
    forall q | Deviation(g, start, end, A, root, q)
      ensures Within(B', HopSum(useLatency, q, g))
    {
      var c :| c in B && c.cost <= HopSum(useLatency, q, g);
      assert c in B';
    }
  }

  lemma AllCutsCovered(g: Adjacency, useLatency: bool, start: Node, end: Node, A: seq<Path>, B: multiset<Candidate>)
    requires A != [] && AllSound(g, useLatency, start, end, A)
    requires forall p :: p in A ==> CutsCovered(g, useLatency, start, end, A, B, p, |p.hops|)
    ensures MissingCovered(g, useLatency, start, end, A, B)
  {
    hide Sound, SimplePath, NotIn, Within, HopSum, Deviation;
    forall q | SimplePath(g, start, end, q) && NotIn(A, q)
      ensures Within(B, HopSum(useLatency, q, g))
    {
      var p, j := MissingPathDeviates(g, useLatency, start, end, A, q);
      assert RootCovered(g, useLatency, start, end, A, B, p.hops[..j + 1]);
    }
  }

  lemma {:induction false} HopSumSplits(useLatency: bool, path: seq<Node>, m: nat, g: Adjacency)
    requires m < |path|
    ensures HopSum(useLatency, path, g) == HopSum(useLatency, path[..m + 1], g) + HopSum(useLatency, path[m..], g)
    decreases |path|
  {
    if m == |path| - 1 {
      assert path[..m + 1] == path;
    } else {
      var n := |path| - 1;
      HopSumSplits(useLatency, path[..n], m, g);
      assert path[..n][..m + 1] == path[..m + 1] && path[..n][m..] == path[m..][..n - m];
      assert path[m..][n - m - 1] == path[n - 1] && path[m..][n - m] == path[n];
    }
  }

  lemma SpurGraphIsUniform(g: Adjacency, useLatency: bool, end: Node, A: seq<Path>, root: seq<Node>, h: Adjacency)
    requires NonNegative(g, useLatency) && OneEdgePerPair(g) && UniformLastEdge(g, useLatency, end) && SpurGraph(g, A, root, h)
    ensures NonNegative(h, useLatency) && UniformLastEdge(h, useLatency, end)
  {
    SpurSubgraph(g, A, root, h);
    hide SpurGraph;
    forall u, e | u in h && e in h[u]
      ensures EdgeCost(useLatency, e) >= 0.0
    {
      assert e in Out(h, u);
      assert e in Out(g, u);
    }
    forall u, e | e in Out(h, u)
      ensures e in Out(g, u) && CheapestArc(g, useLatency, u, e)
    {
    }
  }

  /** The tail of a deviation is a trail of the spur graph that costs what its hops say in g. */
  lemma DeviationTrail(g: Adjacency, useLatency: bool, h: Adjacency, A: seq<Path>, root: seq<Node>, start: Node, end: Node, q: seq<Node>)
    returns (t: Trail)
    requires |root| > 0 && root < q && SpurGraph(g, A, root, h) && OneEdgePerPair(g)
    requires SimplePath(g, start, end, q) && Deviates(A, root, q)
    ensures IsTrail(h, Behind(root), t) && Joins(t, root[|root| - 1], end)
    ensures HopSum(useLatency, q, g) == HopSum(useLatency, root, g) + Cost(useLatency, t.edges)
  {
    hide SpurGraph, SimplePath, Deviates, Behind, HopSum, Cost, HasArc, IsTrail, OneEdgePerPair;
    var tail := q[|root| - 1..];
    DeviationTail(g, h, A, root, start, end, q, tail);
    SpurSubgraph(g, A, root, h);
    t := SubgraphTrail(g, useLatency, h, tail);
    TrailAvoids(h, t, Behind(root));
    HopSumSplits(useLatency, q, |root| - 1, g);
    assert q[..|root|] == root;
  }

  /** Without parallel edges a path costs the same in a subgraph. */
  lemma SubgraphTrail(g: Adjacency, useLatency: bool, h: Adjacency, path: seq<Node>) returns (t: Trail)
    requires OneEdgePerPair(g) && (forall u, e :: e in Out(h, u) ==> e in Out(g, u))
    requires |path| > 0 && forall i :: 0 <= i < |path| - 1 ==> HasArc(h, path[i], path[i + 1])
    ensures t.hops == path && IsTrail(h, {}, t) && Cost(useLatency, t.edges) == HopSum(useLatency, path, g)
  {
    hide HopSum, Cost;
    t := HopSumIsTrailCost(useLatency, path, h);
    forall i | 0 <= i < |path| - 1
      ensures HasArc(g, path[i], path[i + 1])
    {
      assert t.edges[i] in Out(h, t.hops[i]) && t.edges[i].dest == t.hops[i + 1];
    }
    var s := HopSumIsTrailCost(useLatency, path, g);
    assert IsTrail(g, {}, t);
    SameTrail(g, t, s);
  }

  lemma DeviatesFromRoot(A: seq<Path>, root: seq<Node>, q: seq<Node>)
    requires Deviates(A, root, q)
    ensures root < q
  {
  }

  /** What the spur search completes is no dearer than any other deviation. */
  lemma CompletedIsCheapest(g: Adjacency, useLatency: bool, h: Adjacency, A: seq<Path>, root: seq<Node>, start: Node, end: Node, t: Trail, q: seq<Node>)
    requires |root| > 0 && SpurSearch(g, useLatency, start, end, A, root, h) && NonNegative(h, useLatency)
    requires CutIsHarmless(g, useLatency, start, end)
    requires Found(h, useLatency, Behind(root), root[|root| - 1], end, t) && Deviation(g, start, end, A, root, q)
    ensures HopSum(useLatency, root, h) + Cost(useLatency, t.edges) <= HopSum(useLatency, q, g)
  {
    hide HopSum, Cost, Found, NonNegative, NoCheaperLastEdge, HasArc, IsTrail, SimplePath, Deviates, KeepsSpurEdges, AllSound;
    RootEdgesUntouched(g, A, root, h);
    HopSumIgnoresLast(useLatency, root, g, h);
    DeviatesFromRoot(A, root, q);
    var s := DeviationTrail(g, useLatency, h, A, root, start, end, q);
    ShortestIff(h, useLatency, Behind(root), root[|root| - 1], end);
  }

  /** A queued path has the cost its hops say. */
  lemma QueuedWithin(g: Adjacency, useLatency: bool, start: Node, end: Node, A: seq<Path>, B: multiset<Candidate>, p: Path)
    requires WellNamed(g, start) && OneEdgePerPair(g) && CandidatesHold(g, useLatency, start, end, A, B)
    requires Sound(g, useLatency, start, end, p) && InQueue(p, B)
    ensures Within(B, p.cost)
  {
    hide Sound, HopSum, OneEdgePerPair, WellNamed, Join, Split;
    var c :| c in B && c.node == Join(p.hops);
    WrittenPath(g, useLatency, start, end, p);
    SumsFollowHops(g, useLatency, start, end, p);
    SumsFollowHops(g, useLatency, start, end, AsPath(c));
    assert AsPath(c).hops == p.hops;
  }

  lemma FirstIsCheapest(g: Adjacency, useLatency: bool, start: Node, end: Node, p: Path, t: Trail)
    requires NonNegative(g, useLatency) && CutIsHarmless(g, useLatency, start, end)
    requires Found(g, useLatency, {}, start, end, t) && Records(useLatency, p, t)
    ensures Cheapest(g, useLatency, start, end, [p])
  {
    hide HopSum, Cost, NonNegative, NoCheaperLastEdge, SpurSearch, IsTrail;
    forall q | SimplePath(g, start, end, q) && NotIn([p], q)
      ensures p.cost <= HopSum(useLatency, q, g)
    {
      if start != end {
        var s := HopSumIsTrailCost(useLatency, q, g);
        assert Joins(s, start, end);
        ShortestIff(g, useLatency, {}, start, end);
      }
    }
  }

  /** The candidate of least cost is a cheapest path not found yet. */
  lemma TakenIsCheapest(g: Adjacency, useLatency: bool, start: Node, end: Node, A: seq<Path>, B: multiset<Candidate>, p: Path)
    requires Cheapest(g, useLatency, start, end, A) && MissingCovered(g, useLatency, start, end, A, B)
    requires forall c :: c in B ==> p.cost <= c.cost
    ensures Cheapest(g, useLatency, start, end, A + [p])
  {
    hide SimplePath, HopSum;
    forall x, q | x in A + [p] && SimplePath(g, start, end, q) && NotIn(A + [p], q)
      ensures x.cost <= HopSum(useLatency, q, g)
    {
      assert NotIn(A, q) by {
        assert forall y :: y in A ==> y in A + [p];
      }
      assert Within(B, HopSum(useLatency, q, g));
    }
  }

  // ---------- The algorithm ----------

  /** All cuts of one known path. */
  method SpurPaths(useLatency: bool, start: Node, end: Node, g: Adjacency, A: seq<Path>, B: multiset<Candidate>, prev: Path)
    returns (g': Adjacency, B': multiset<Candidate>)
    requires NonNegative(g, useLatency) && WellNamed(g, start)
    requires AllSound(g, useLatency, start, end, A) && CandidatesHold(g, useLatency, start, end, A, B)
    requires SimplePath(g, start, end, prev.hops) && prev in A
    ensures g' == g
    ensures CandidatesHold(g, useLatency, start, end, A, B') && B <= B'
    ensures B' == multiset{} ==> NoCutDeviates(g, start, end, A, prev, |prev.hops|)
    ensures CutIsHarmless(g, useLatency, start, end) ==> CutsCovered(g, useLatency, start, end, A, B', prev, |prev.hops|)
  {
    hide CutIsHarmless, RootCovered, CandidatesHold, AllSound, NonNegative, WellNamed, SimplePath, CanDeviate;
    g', B' := g, B;
    var j := 0;
    while j < |prev.hops| - 1
      invariant 0 <= j
      invariant g' == g
      invariant CandidatesHold(g, useLatency, start, end, A, B') && B <= B'
      invariant B' == multiset{} ==> NoCutDeviates(g, start, end, A, prev, j)
      invariant CutIsHarmless(g, useLatency, start, end) ==> CutsCovered(g, useLatency, start, end, A, B', prev, j)
    {
      ghost var before := B';
      g', B' := SpurStep(useLatency, start, end, g', A, B', prev.hops, j);
      CutsStayCovered(g, useLatency, start, end, A, before, B', prev, j);
      j := j + 1;
      assert forall root :: root < prev.hops && |root| == j ==> root == prev.hops[..j];
    }
  }

  lemma CutsStayCovered(g: Adjacency, useLatency: bool, start: Node, end: Node, A: seq<Path>, B: multiset<Candidate>, B': multiset<Candidate>, p: Path, n: int)
    requires B <= B'
    ensures CutsCovered(g, useLatency, start, end, A, B, p, n) ==> CutsCovered(g, useLatency, start, end, A, B', p, n)
  {
    hide RootCovered;
    if CutsCovered(g, useLatency, start, end, A, B, p, n) {
      forall root | 0 < |root| <= n && root < p.hops
        ensures RootCovered(g, useLatency, start, end, A, B', root)
      {
        CoverGrows(g, useLatency, start, end, A, B, B', root);
      }
    }
  }

  /** One round: every cut of every path found so far. */
  method SpurRound(useLatency: bool, start: Node, end: Node, g: Adjacency, A: seq<Path>, B: multiset<Candidate>)
    returns (g': Adjacency, B': multiset<Candidate>)
    requires NonNegative(g, useLatency) && WellNamed(g, start) && A != []
    requires AllSound(g, useLatency, start, end, A) && CandidatesHold(g, useLatency, start, end, A, B)
    ensures g' == g
    ensures CandidatesHold(g, useLatency, start, end, A, B') && B <= B'
    ensures B' == multiset{} ==> Complete(g, start, end, A)
    ensures CutIsHarmless(g, useLatency, start, end) ==> MissingCovered(g, useLatency, start, end, A, B')
  {
    hide CandidatesHold, Sound, NonNegative, WellNamed, SimplePath, NoCutDeviates, Complete, CutIsHarmless, CutsCovered, MissingCovered;
    g', B' := g, B;
    for i := 0 to |A|
      invariant g' == g
      invariant CandidatesHold(g, useLatency, start, end, A, B') && B <= B'
      invariant B' == multiset{} ==> forall k :: 0 <= k < i ==> NoCutDeviates(g, start, end, A, A[k], |A[k].hops|)
      invariant CutIsHarmless(g, useLatency, start, end) ==> forall k :: 0 <= k < i ==> CutsCovered(g, useLatency, start, end, A, B', A[k], |A[k].hops|)
    {
      SoundIsSimple(g, useLatency, start, end, A[i]);
      ghost var before := B';
      g', B' := SpurPaths(useLatency, start, end, g', A, B', A[i]);
      forall k | 0 <= k < i
        ensures CutsCovered(g, useLatency, start, end, A, before, A[k], |A[k].hops|) ==>
                  CutsCovered(g, useLatency, start, end, A, B', A[k], |A[k].hops|)
      {
        CutsStayCovered(g, useLatency, start, end, A, before, B', A[k], |A[k].hops|);
      }
    }
    if CutIsHarmless(g, useLatency, start, end) {
      AllCutsCovered(g, useLatency, start, end, A, B');
    }
    if B' == multiset{} {
      NoDeviationIsComplete(g, useLatency, start, end, A);
    }
  }

  ghost predicate Distinct(A: seq<Path>) {
    forall i, j :: 0 <= i < j < |A| ==> A[i].hops != A[j].hops
  }

  /** Taking a candidate: it is new to A, and the others stay new to the longer A. */
  lemma PopHolds(g: Adjacency, useLatency: bool, start: Node, end: Node, A: seq<Path>, B: multiset<Candidate>, c: Candidate)
    requires CandidatesHold(g, useLatency, start, end, A, B) && c in B
    ensures Sound(g, useLatency, start, end, AsPath(c)) && NotIn(A, AsPath(c).hops)
    ensures CandidatesHold(g, useLatency, start, end, A + [AsPath(c)], B - multiset{c})
  {
    hide Sound, Join, Split;
    var B', A' := B - multiset{c}, A + [AsPath(c)];
    assert forall d :: d in B' ==> d in B && d != c && B'[d] == B[d];
    forall d | d in B'
      ensures NotIn(A', Split(d.node))
    {
      assert d.node == Join(Split(d.node)) && c.node == Join(Split(c.node));
      assert NotIn(A, Split(d.node));
    }
  }

  ghost predicate Holds(g: Adjacency, useLatency: bool, start: Node, end: Node, A: seq<Path>, B: multiset<Candidate>) {
    && A != [] && Distinct(A) && AllSound(g, useLatency, start, end, A)
    && CandidatesHold(g, useLatency, start, end, A, B)
  }

  /** The candidate of least cost moves to A.  It is never there already, so A grows. */
  method TakeCandidate(useLatency: bool, start: Node, end: Node, A: seq<Path>, B: multiset<Candidate>, ghost g: Adjacency)
    returns (A': seq<Path>, B': multiset<Candidate>)
    requires WellNamed(g, start) && Holds(g, useLatency, start, end, A, B) && B != multiset{}
    ensures Holds(g, useLatency, start, end, A', B')
    ensures |A'| == |A| + 1 && A < A' && forall c :: c in B ==> A'[|A|].cost <= c.cost
  {
    hide CandidatesHold, Sound, WellNamed, Split;
    var shortest;
    shortest, B' := Ordering.PopLeast(B, (c: Candidate) => c.cost);
    PopHolds(g, useLatency, start, end, A, B, shortest);
    SoundIsSimple(g, useLatency, start, end, AsPath(shortest));
    InListIsEquality(g, useLatency, start, end, AsPath(shortest), A);
    var rawHops := Split(shortest.node);
    var hops := RemoveConsecutiveDuplicates(rawHops);
    var newPath := Path(hops, shortest.cost, shortest.rawRTT);
    assert newPath == AsPath(shortest);
    A' := A;
    if !InList(newPath, A) {
      A' := A + [newPath];
    }
  }

  ghost predicate SortedByCost(A: seq<Path>) {
    forall i, j :: 0 <= i < j < |A| ==> A[i].cost <= A[j].cost
  }

  /** Rearranging keeps soundness, distinctness, completeness and being cheapest. */
  lemma RearrangedHolds(g: Adjacency, useLatency: bool, start: Node, end: Node, A: seq<Path>, A': seq<Path>)
    requires Distinct(A) && AllSound(g, useLatency, start, end, A) && multiset(A') == multiset(A)
    ensures |A'| == |A| && Distinct(A') && AllSound(g, useLatency, start, end, A')
    ensures Complete(g, start, end, A) ==> Complete(g, start, end, A')
    ensures Cheapest(g, useLatency, start, end, A) ==> Cheapest(g, useLatency, start, end, A')
  {
    hide Sound, SimplePath;
    assert |A'| == |multiset(A')| == |A|;
    assert forall p :: p in A' <==> p in multiset(A');
    assert forall p :: p in A <==> p in multiset(A);
    forall i, j | 0 <= i < j < |A'|
      ensures A'[i].hops != A'[j].hops
    {
      RearrangedDistinct(A, A', i, j);
    }
    forall q
      ensures NotIn(A, q) <==> NotIn(A', q)
    {
    }
  }

  lemma RearrangedDistinct(A: seq<Path>, A': seq<Path>, i: nat, j: nat)
    requires Distinct(A) && multiset(A') == multiset(A) && i < j < |A'|
    ensures A'[i].hops != A'[j].hops
  {
    var p, q := A'[i], A'[j];
    assert p in multiset(A') && q in multiset(A');
    if p == q {
      assert A' == A'[..i] + [p] + A'[i + 1..j] + [q] + A'[j + 1..];
      assert multiset(A')[p] >= 2;
      OccursOnce(A, p);
    } else {
      assert p in A && q in A;
    }
  }

  lemma {:induction false} OccursOnce(A: seq<Path>, p: Path)
    requires Distinct(A)
    ensures multiset(A)[p] <= 1
  {
    if A != [] {
      assert A == [A[0]] + A[1..];
      OccursOnce(A[1..], p);
      if p == A[0] {
        assert p !in A[1..];
      }
    }
  }

  /** `yensAlgorithm`.  It fails exactly when end is out of reach.  Otherwise it returns one
      to k different simple paths, each with the sums of a trail along it, cheapest first;
      fewer than k only if they are all there are.  They are k cheapest ones if the early
      cut of the searches does no harm. */
  method Yen(useLatency: bool, k: nat, start: Node, end: Node, graph: Adjacency) returns (r: Option<seq<Path>>)
    requires NonNegative(graph, useLatency) && WellNamed(graph, start) && k >= 1
    ensures r.None? <==> !Reachable(graph, {}, start, end)
    ensures r.Some? ==>
              && 1 <= |r.value| <= k && Distinct(r.value) && SortedByCost(r.value)
              && AllSound(graph, useLatency, start, end, r.value)
              && (|r.value| < k ==> Complete(graph, start, end, r.value))
              && (CutIsHarmless(graph, useLatency, start, end) ==> Cheapest(graph, useLatency, start, end, r.value))
  {
    hide CutIsHarmless, Cheapest, MissingCovered, CandidatesHold, Sound, NonNegative, Complete, Reachable, Found;
    var graphCopy := graph;
    var first, t := FindShortestPath(useLatency, start, end, graphCopy, {});
    if first.None? {
      return None;
    }
    FoundIsSimple(graph, useLatency, {}, start, end, t);
    var hops := RemoveConsecutiveDuplicates(first.value.hops);
    var A := [Path(hops, first.value.cost, first.value.rawRTT)];
    var B: multiset<Candidate> := multiset{};
    FirstHolds(graph, useLatency, start, end, first.value, t);
    if CutIsHarmless(graph, useLatency, start, end) {
      FirstIsCheapest(graph, useLatency, start, end, first.value, t);
    }
    while |A| < k
      invariant 1 <= |A| <= k && graphCopy == graph
      invariant Holds(graph, useLatency, start, end, A, B)
      invariant CutIsHarmless(graph, useLatency, start, end) ==> Cheapest(graph, useLatency, start, end, A)
      decreases k - |A|
    {
      graphCopy, B := SpurRound(useLatency, start, end, graphCopy, A, B);
      if B == multiset{} {
        break;
      }
      ghost var known, waiting := A, B;
      A, B := TakeCandidate(useLatency, start, end, A, B, graph);
      if CutIsHarmless(graph, useLatency, start, end) {
        assert A == known + [A[|known|]];
        TakenIsCheapest(graph, useLatency, start, end, known, waiting, A[|known|]);
      }
    }
    var sorted := Ordering.Sorted(A, (p: Path) => p.cost);
    RearrangedHolds(graph, useLatency, start, end, A, sorted);
    var result := DedupAll(sorted, graph, useLatency, start, end);
    return Some(result);
  }

  lemma FirstHolds(g: Adjacency, useLatency: bool, start: Node, end: Node, p: Path, t: Trail)
    requires IsTrail(g, {}, t) && Joins(t, start, end) && NoDup(t.hops) && Records(useLatency, p, t)
    ensures Holds(g, useLatency, start, end, [p], multiset{}) && AdjacentDistinct(p.hops)
  {
    assert Witnesses(g, useLatency, start, end, p, t);
  }

  /** The last pass over the result drops nothing. */
  method DedupAll(A: seq<Path>, ghost g: Adjacency, ghost useLatency: bool, ghost start: Node, ghost end: Node) returns (r: seq<Path>)
    requires AllSound(g, useLatency, start, end, A)
    ensures r == A
  {
    hide Sound;
    r := [];
    for i := 0 to |A|
      invariant r == A[..i]
    {
      SoundIsSimple(g, useLatency, start, end, A[i]);
      var hops := RemoveConsecutiveDuplicates(A[i].hops);
      r := r + [Path(hops, A[i].cost, A[i].rawRTT)];
    }
  }

  // ---------- The solver ----------

  /** At most one edge for each ordered pair of nodes. */
  ghost predicate OneEdgePerPair(g: Adjacency) {
    forall u, e, e' :: e in Out(g, u) && e' in Out(g, u) && e.dest == e'.dest ==> e == e'
  }

  /** Without parallel edges the recorded sums are the sums over the hops. */
  lemma SumsFollowHops(g: Adjacency, useLatency: bool, start: Node, end: Node, p: Path)
    requires OneEdgePerPair(g) && Sound(g, useLatency, start, end, p)
    ensures p.cost == HopSum(useLatency, p.hops, g) && p.rawRTT == HopSum(true, p.hops, g)
  {
    var t :| Witnesses(g, useLatency, start, end, p, t);
    SoundIsSimple(g, useLatency, start, end, p);
    hide HopSum, Cost, HasArc;
    var s := HopSumIsTrailCost(useLatency, p.hops, g);
    SameTrail(g, t, s);
  }

  lemma SameTrail(g: Adjacency, t: Trail, s: Trail)
    requires OneEdgePerPair(g) && IsTrail(g, {}, t) && IsTrail(g, {}, s) && t.hops == s.hops
    ensures t.edges == s.edges
  {
    forall i | 0 <= i < |t.edges|
      ensures t.edges[i] == s.edges[i]
    {
      assert t.edges[i] in Out(g, t.hops[i]) && s.edges[i] in Out(g, t.hops[i]);
    }
  }

  /** The adjacency map lists the edges of each source. */
  ghost predicate Adjoins(edges: seq<Edge>, g: Adjacency) {
    && (forall u, e :: e in Out(g, u) <==> e in edges && e.source == u)
    && (forall u :: u in g ==> g[u] != [])
  }

  /** `Computing` files each edge under its source, in order. */
  function AdjacencyOf(edges: seq<Edge>): Adjacency {
    if edges == [] then map[]
    else
      var g, e := AdjacencyOf(edges[..|edges| - 1]), edges[|edges| - 1];
      g[e.source := Out(g, e.source) + [e]]
  }

  lemma {:induction false} AdjacencyAdjoins(edges: seq<Edge>)
    ensures Adjoins(edges, AdjacencyOf(edges))
  {
    if edges != [] {
      var n := |edges| - 1;
      AdjacencyAdjoins(edges[..n]);
      AdjoinsStep(edges, AdjacencyOf(edges[..n]), AdjacencyOf(edges));
    }
  }

  lemma AdjoinsStep(edges: seq<Edge>, g: Adjacency, g': Adjacency)
    requires edges != [] && Adjoins(edges[..|edges| - 1], g)
    requires var e := edges[|edges| - 1]; g' == g[e.source := Out(g, e.source) + [e]]
    ensures Adjoins(edges, g')
  {
    var n := |edges| - 1;
    var e := edges[n];
    assert edges == edges[..n] + [e];
    assert forall d :: d in edges <==> d in edges[..n] || d == e;
    forall u, d
      ensures d in Out(g', u) <==> d in edges && d.source == u
    {
      assert d in Out(g, u) <==> d in edges[..n] && d.source == u;
      if u == e.source {
        assert Out(g', u) == Out(g, u) + [e];
      } else {
        assert Out(g', u) == Out(g, u);
      }
    }
  }

  method BuildAdjacency(edges: seq<Edge>) returns (g: Adjacency)
    ensures g == AdjacencyOf(edges)
  {
    g := map[];
    for i := 0 to |edges|
      invariant g == AdjacencyOf(edges[..i])
    {
      var e := edges[i];
      g := g[e.source := Out(g, e.source) + [e]];
      assert edges[..i + 1][..i] == edges[..i];
    }
    assert edges[..|edges|] == edges;
  }

  function Endpoints(edges: seq<Edge>): set<Node> {
    (set e | e in edges :: e.source) + (set e | e in edges :: e.dest)
  }

  /** Inputs the solver is meant for: non-negative costs and usable node names. */
  ghost predicate Usable(edges: seq<Edge>, useLatency: bool) {
    && (forall e :: e in edges ==> EdgeCost(useLatency, e) >= 0.0)
    && (forall n :: n in Endpoints(edges) ==> n != "" && ArrowFree(n))
  }

  lemma UsableGraph(edges: seq<Edge>, useLatency: bool, g: Adjacency, start: Node)
    requires Usable(edges, useLatency) && Adjoins(edges, g) && start in Endpoints(edges)
    ensures NonNegative(g, useLatency) && WellNamed(g, start)
  {
    forall u, e | u in g && e in g[u]
      ensures e in edges && e.source == u
    {
      assert e in Out(g, u);
    }
    forall u | u in g
      ensures u in Endpoints(edges)
    {
      var e := g[u][0];
      assert e in Out(g, u);
      assert e in edges && e.source == u;
    }
    assert AllNodes(g) <= Endpoints(edges);
  }

  /** `NewKShortestSolver` and `Computing`: k defaults to 5, unknown endpoints are errors. */
  method ComputeKShortest(edges: seq<Edge>, k: int, useLatency: bool, start: Node, end: Node) returns (r: Option<seq<Path>>)
    requires Usable(edges, useLatency)
    ensures r.None? <==> start !in Endpoints(edges) || end !in Endpoints(edges) || !Reachable(AdjacencyOf(edges), {}, start, end)
    ensures r.Some? ==>
              var g, limit := AdjacencyOf(edges), if k <= 0 then 5 else k;
              && 1 <= |r.value| <= limit && Distinct(r.value) && SortedByCost(r.value)
              && AllSound(g, useLatency, start, end, r.value)
              && (|r.value| < limit ==> Complete(g, start, end, r.value))
              && (CutIsHarmless(g, useLatency, start, end) ==> Cheapest(g, useLatency, start, end, r.value))
  {
    hide Usable, Adjoins, Reachable, NonNegative, WellNamed, AllSound, Complete, AdjacencyOf, CutIsHarmless, Cheapest;
    var limit := if k <= 0 then 5 else k;
    var graph := BuildAdjacency(edges);
    if start !in Endpoints(edges) {
      return None;
    }
    if end !in Endpoints(edges) {
      return None;
    }
    AdjacencyAdjoins(edges);
    UsableGraph(edges, useLatency, graph, start);
    r := Yen(useLatency, limit, start, end, graph);
  }
}
