/** `dfsRandomPath`: one depth-first search that takes the edges of each node in an arbitrary
    order and stops at the first way to the target. */
module RandomDfs {
  import opened Optional
  import opened Overlay
  import opened EarlyCutDijkstra
  import YenPaths
  import PathNames
  import Ordering

  const MAX_ATTEMPTS: nat := 100
  const HOP_LIMIT: nat := 15

  /** A simple path to the target of at most limit edges. */
  ghost predicate Within(g: Adjacency, start: Node, target: Node, limit: nat, q: seq<Node>) {
    YenPaths.SimplePath(g, start, target, q) && |q| <= limit + 1
  }

  ghost predicate PathExists(g: Adjacency, start: Node, target: Node, limit: nat) {
    exists q :: Within(g, start, target, limit, q)
  }

  /** No such path begins with these hops. */
  ghost predicate Blocked(g: Adjacency, start: Node, target: Node, limit: nat, hops: seq<Node>) {
    forall q :: Within(g, start, target, limit, q) ==> !(hops <= q)
  }

  /** A path beginning with hops, short of the target, goes on along an edge of the last one. */
  lemma NextHop(g: Adjacency, start: Node, target: Node, limit: nat, hops: seq<Node>, q: seq<Node>)
    requires hops != [] && hops[|hops| - 1] != target && Within(g, start, target, limit, q) && hops <= q
    ensures |hops| < |q| && HasArc(g, hops[|hops| - 1], q[|hops|]) && hops + [q[|hops|]] <= q
  {
    var n := |hops| - 1;
    assert q[n] == hops[n];
    assert HasArc(g, q[n], q[n + 1]);
  }

  lemma EveryEdgeBlocked(g: Adjacency, start: Node, target: Node, limit: nat, hops: seq<Node>)
    requires hops != [] && hops[|hops| - 1] != target
    requires forall e :: e in Out(g, hops[|hops| - 1]) ==> Blocked(g, start, target, limit, hops + [e.dest])
    ensures Blocked(g, start, target, limit, hops)
  {
    forall q | Within(g, start, target, limit, q)
      ensures !(hops <= q)
    {
      if hops <= q {
        NextHop(g, start, target, limit, hops, q);
      }
    }
  }

  lemma RevisitBlocked(g: Adjacency, start: Node, target: Node, limit: nat, hops: seq<Node>, n: Node)
    requires n in hops
    ensures Blocked(g, start, target, limit, hops + [n])
  {
    forall q | Within(g, start, target, limit, q)
      ensures !(hops + [n] <= q)
    {
      if hops + [n] <= q {
        RevisitRepeats(hops, n, q);
      }
    }
  }

  /** The variables the recursive search shares. */
  class Walker {
    const g: Adjacency
    const start: Node
    const target: Node
    const limit: nat
    var visited: set<Node>
    var hops: seq<Node>
    var totalLatency: real

    constructor (g: Adjacency, start: Node, target: Node, limit: nat)
      ensures this.g == g && this.start == start && this.target == target && this.limit == limit
      ensures visited == {} && hops == [] && totalLatency == 0.0
    {
      this.g, this.start, this.target, this.limit := g, start, target, limit;
      visited, hops, totalLatency := {}, [], 0.0;
    }

    ghost predicate Valid()
      reads this
    {
      NoDup(hops) && target !in hops && forall n :: n in visited <==> n in hops
    }

    /** The way found from node on: the hops appended, and their latency added. */
    twostate predicate Arrived(node: Node, tail: Trail)
      reads this
    {
      && IsTrail(g, {}, tail) && Joins(tail, node, target)
      && hops == old(hops) + tail.hops && NoDup(hops) && |hops| <= limit + 1
      && totalLatency == old(totalLatency) + Cost(true, tail.edges)
    }

    twostate predicate Untouched()
      reads this
    {
      hops == old(hops) && visited == old(visited) && totalLatency == old(totalLatency)
    }

    method Dfs(node: Node, depth: nat) returns (found: bool, ghost tail: Trail)
      requires Valid() && depth == |hops| && node !in visited && depth <= limit + 1
      modifies this
      ensures found ==> Arrived(node, tail)
      ensures !found ==> Untouched() && Blocked(g, start, target, limit, old(hops) + [node])
      decreases limit + 1 - depth, 1
    {
      hide Within, IsTrail;
      tail := Trail([node], []);
      if depth > limit {
        TooDeep(g, start, target, limit, hops + [node]);
        return false, tail;
      }
      visited := visited + {node};
      hops := hops + [node];
      if node == target {
        HereTrail(g, node);
        return true, tail;
      }
      var neighbors := Out(g, node);
      if |neighbors| == 0 {
        EveryEdgeBlocked(g, start, target, limit, hops);
        hops := hops[..|hops| - 1];
        visited := visited - {node};
        return false, tail;
      }
      found, tail := TryNeighbors(node, depth, neighbors);
      if !found {
        EveryEdgeBlocked(g, start, target, limit, hops);
        hops := hops[..|hops| - 1];
        visited := visited - {node};
      }
    }

    /** The loop over the edges of node, in any order. */
    method TryNeighbors(node: Node, depth: nat, neighbors: seq<Edge>) returns (found: bool, ghost tail: Trail)
      requires Valid() && depth <= limit && |hops| == depth + 1 && hops[depth] == node && neighbors == Out(g, node)
      modifies this
      ensures found ==> IsTrail(g, {}, tail) && Joins(tail, node, target)
      ensures found ==> hops == old(hops)[..depth] + tail.hops && NoDup(hops) && |hops| <= limit + 1
      ensures found ==> totalLatency == old(totalLatency) + Cost(true, tail.edges)
      ensures !found ==> Untouched() && forall e :: e in neighbors ==> Blocked(g, start, target, limit, hops + [e.dest])
      decreases limit + 1 - depth, 0
    {
      hide Within, Blocked, IsTrail, Cost;
      tail := Trail([node], []);
      var todo := multiset(neighbors);
      while todo != multiset{}
        invariant todo <= multiset(neighbors)
        invariant Untouched()
        invariant forall e :: e in neighbors && e !in todo ==> Blocked(g, start, target, limit, hops + [e.dest])
        decreases |todo|
      {
        var edge :| edge in todo;
        todo := todo - multiset{edge};
        assert edge in multiset(neighbors);
        if edge.dest in visited {
          RevisitBlocked(g, start, target, limit, hops, edge.dest);
        } else {
          ghost var rest;
          found, rest := Dfs(edge.dest, depth + 1);
          if found {
            ConsTrail(g, node, edge, rest);
            tail := Trail([node] + rest.hops, [edge] + rest.edges);
            totalLatency := totalLatency + edge.latency;
            assert hops == old(hops)[..depth] + tail.hops;
            return true, tail;
          }
        }
      }
      return false, tail;
    }
  }

  lemma TooDeep(g: Adjacency, start: Node, target: Node, limit: nat, hops: seq<Node>)
    requires |hops| > limit + 1
    ensures Blocked(g, start, target, limit, hops)
  {
  }

  lemma HereTrail(g: Adjacency, node: Node)
    ensures IsTrail(g, {}, Trail([node], []))
  {
  }

  lemma ConsTrail(g: Adjacency, node: Node, e: Edge, t: Trail)
    requires e in Out(g, node) && IsTrail(g, {}, t) && t.hops[0] == e.dest
    ensures IsTrail(g, {}, Trail([node] + t.hops, [e] + t.edges))
    ensures Cost(true, [e] + t.edges) == e.latency + Cost(true, t.edges)
  {
    var c := Trail([node] + t.hops, [e] + t.edges);
    forall i {:trigger c.edges[i]} | 0 <= i < |c.edges|
      ensures c.edges[i] in Out(g, c.hops[i]) && c.edges[i].dest == c.hops[i + 1] && c.hops[i + 1] !in {}
    {
      if i > 0 {
        assert c.edges[i] == t.edges[i - 1];
      }
    }
    CostConcat(true, [e], t.edges);
    assert [e][..0] == [];
  }

  /** `dfsRandomPath`: a simple path of at most limit edges with the latency of its edges,
      whatever the order of the edges; nothing exactly when there is no such path. */
  method DfsRandomPath(g: Adjacency, start: Node, target: Node, limit: nat) returns (r: Option<Path>)
    ensures r.Some? ==> YenPaths.Sound(g, true, start, target, r.value) && |r.value.hops| <= limit + 1 && r.value.cost == r.value.rawRTT
    ensures r.None? <==> !PathExists(g, start, target, limit)
  {
    var w := new Walker(g, start, target, limit);
    var found, tail := w.Dfs(start, 0);
    if found {
      assert w.hops == tail.hops;
      r := Some(Path(w.hops, w.totalLatency, w.totalLatency));
      assert YenPaths.Witnesses(g, true, start, target, r.value, tail);
      YenPaths.SoundIsSimple(g, true, start, target, r.value);
      assert Within(g, start, target, limit, r.value.hops);
    } else {
      r := None;
      assert Blocked(g, start, target, limit, [start]);
      forall q
        ensures !Within(g, start, target, limit, q)
      {
        assert Within(g, start, target, limit, q) ==> [start] <= q;
      }
    }
  }

  /** `randomDFSPaths`: up to maxPaths different paths of at most 15 edges, cheapest first,
      and at least one whenever one exists. */
  method RandomDfsPaths(start: Node, end: Node, g: Adjacency, maxPaths: nat) returns (paths: seq<Path>)
    ensures |paths| <= maxPaths && YenPaths.Distinct(paths) && YenPaths.SortedByCost(paths)
    ensures forall p :: p in paths ==> YenPaths.Sound(g, true, start, end, p) && |p.hops| <= HOP_LIMIT + 1
    ensures maxPaths > 0 ==> (paths == [] <==> !PathExists(g, start, end, HOP_LIMIT))
  {
    hide YenPaths.Sound, PathExists;
    var found: seq<Path> := [];
    var used: set<string> := {};
    var attempt := 0;
    while attempt < MAX_ATTEMPTS && |found| < maxPaths
      invariant attempt <= MAX_ATTEMPTS && |found| <= maxPaths && YenPaths.Distinct(found)
      invariant forall p :: p in found ==> PathNames.Join(p.hops) in used
      invariant forall p :: p in found ==> YenPaths.Sound(g, true, start, end, p) && |p.hops| <= HOP_LIMIT + 1
      invariant found == [] ==> used == {}
      invariant attempt == 0 ==> found == []
      invariant attempt > 0 ==> (found == [] <==> !PathExists(g, start, end, HOP_LIMIT))
    {
      var path := DfsRandomPath(g, start, end, HOP_LIMIT);
      if path.Some? {
        var pathStr := PathNames.Join(path.value.hops);
        if pathStr !in used {
          used := used + {pathStr};
          found := found + [path.value];
        }
      }
      attempt := attempt + 1;
    }
    paths := Ordering.Sorted(found, (p: Path) => p.cost);
    Ordering.SameElements(paths, found);
    forall i, j | 0 <= i < j < |paths|
      ensures paths[i].hops != paths[j].hops
    {
      YenPaths.RearrangedDistinct(found, paths, i, j);
    }
  }
}
