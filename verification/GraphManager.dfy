/** The overlay graph the control plane maintains from telemetry: what it holds after any
    sequence of reports and removals, and why the path solvers may run on it. */
module GraphManager {
  import opened Optional
  import opened Overlay
  import PathNames
  import YenPaths

  /** A probed link: to an origin address, or to another node. */
  datatype Link = Link(toOrigin: bool, target: string, loss: real, latency: real)

  /** A node's report; its links in the order their map is read. */
  datatype Telemetry = Telemetry(publicIP: Node, cpuPressure: real, links: seq<Link>)

  datatype Event = Add(node: Telemetry) | Remove(id: Node)

  /** The library functions a risk is computed with. */
  datatype Math = Math(pow: (real, real) -> real, exp: real -> real)

  ghost predicate MathHolds(m: Math) {
    && (forall x, p :: x >= 0.0 ==> m.pow(x, p) >= 0.0) && (forall x :: m.exp(x) > 0.0)
    && (forall x, y, p :: 0.0 <= x < y && p > 0.0 ==> m.pow(x, p) < m.pow(y, p))
  }

  /** `EdgeRisk`. */
  function EdgeRisk(m: Math, cpuPressure: real, loss: real, latency: real): (r: real)
    requires MathHolds(m)
    ensures r >= 0.0
  {
    var cpuRisk := if cpuPressure < 50.0 then 0.0 else m.pow(cpuPressure / 60.0, 2.0);
    var lossRisk := if loss >= 1.0 then 1.0 else if loss <= 0.0 then 0.0 else 1.0 / (1.0 + m.exp(-40.0 * (loss - 0.05)));
    var latRatio := if latency / 150.0 < 0.0 then 0.0 else latency / 150.0;
    0.5 * cpuRisk + 0.0 * lossRisk + 0.5 * m.pow(latRatio, 1.5)
  }

  /** Loss has no influence on a weight. */
  lemma LossIsIgnored(m: Math, cpuPressure: real, loss: real, loss': real, latency: real)
    requires MathHolds(m)
    ensures EdgeRisk(m, cpuPressure, loss, latency) == EdgeRisk(m, cpuPressure, loss', latency)
  {
  }

  /** Of two latencies the longer has the greater weight; a negative one weighs like none. */
  lemma LatencyRaisesRisk(m: Math, cpuPressure: real, loss: real, latency: real, latency': real)
    requires MathHolds(m) && latency < latency'
    ensures latency' > 0.0 ==> EdgeRisk(m, cpuPressure, loss, latency) < EdgeRisk(m, cpuPressure, loss, latency')
    ensures latency' <= 0.0 ==> EdgeRisk(m, cpuPressure, loss, latency) == EdgeRisk(m, cpuPressure, loss, latency')
  {
    var r, r' := if latency / 150.0 < 0.0 then 0.0 else latency / 150.0, if latency' / 150.0 < 0.0 then 0.0 else latency' / 150.0;
    assert latency' > 0.0 ==> r < r' && m.pow(r, 1.5) < m.pow(r', 1.5);
  }

  /** Of two pressures the higher has the greater weight from 50 on; below that none weighs. */
  lemma PressureRaisesRisk(m: Math, cpuPressure: real, cpuPressure': real, loss: real, latency: real)
    requires MathHolds(m) && cpuPressure < cpuPressure'
    ensures cpuPressure' >= 50.0 ==> EdgeRisk(m, cpuPressure, loss, latency) < EdgeRisk(m, cpuPressure', loss, latency)
    ensures cpuPressure' < 50.0 ==> EdgeRisk(m, cpuPressure, loss, latency) == EdgeRisk(m, cpuPressure', loss, latency)
  {
    var r' := cpuPressure' / 60.0;
    if cpuPressure' >= 50.0 {
      assert m.pow(if cpuPressure < 50.0 then 0.0 else cpuPressure / 60.0, 2.0) < m.pow(r', 2.0);
    }
  }

  /** In units of 60 for pressure and 150 for latency, the square of one and the power 3/2 of the
      other weigh half each. */
  lemma RiskInUnits(m: Math, x: real, loss: real, y: real)
    requires MathHolds(m) && y >= 0.0
    ensures 60.0 * x >= 50.0 ==> EdgeRisk(m, 60.0 * x, loss, 150.0 * y) == (m.pow(x, 2.0) + m.pow(y, 1.5)) / 2.0
    ensures 60.0 * x < 50.0 ==> EdgeRisk(m, 60.0 * x, loss, 150.0 * y) == m.pow(y, 1.5) / 2.0
  {
    assert 60.0 * x / 60.0 == x && 150.0 * y / 150.0 == y;
  }

  // ---------- What the graph should hold ----------

  /** What one link says about an edge. */
  datatype Report = Report(from: Node, to: Node, risk: real, load: real, latency: real)

  ghost function NodesAfter(events: seq<Event>): map<Node, Telemetry> {
    if events == [] then map[]
    else
      match events[|events| - 1]
      case Add(node) => NodesAfter(events[..|events| - 1])[node.publicIP := node]
      case Remove(id) => NodesAfter(events[..|events| - 1]) - {id}
  }

  /** A link counts if it leads to an origin or to a node known by then. */
  predicate Usable(nodes: map<Node, Telemetry>, v: Link) {
    v.toOrigin || v.target in nodes
  }

  ghost function ReportOf(m: Math, nodes: map<Node, Telemetry>, from: Node, v: Link): Report
    requires MathHolds(m) && Usable(nodes, v)
  {
    var load := if v.toOrigin then 0.0 else nodes[v.target].cpuPressure;
    Report(from, v.target, EdgeRisk(m, load, v.loss, v.latency), load, v.latency)
  }

  /** What these links say about the edge with this key. */
  ghost function ReportsOf(m: Math, nodes: map<Node, Telemetry>, from: Node, links: seq<Link>, k: string): seq<Report>
    requires MathHolds(m)
  {
    if links == [] then []
    else
      var v := links[|links| - 1];
      ReportsOf(m, nodes, from, links[..|links| - 1], k) +
      (if Usable(nodes, v) && PathNames.EdgeKey(from, v.target) == k then [ReportOf(m, nodes, from, v)] else [])
  }

  /** All reports on the edge with this key since it last came into being; the removal of one
      of its endpoints ends it. */
  ghost function Reports(m: Math, events: seq<Event>, k: string): seq<Report>
    requires MathHolds(m)
  {
    if events == [] then []
    else
      var before := Reports(m, events[..|events| - 1], k);
      match events[|events| - 1]
      case Add(node) => before + ReportsOf(m, NodesAfter(events), node.publicIP, node.links, k)
      case Remove(id) => if before != [] && (before[0].from == id || before[0].to == id) then [] else before
  }

  /** An edge has the load and latency of its first report and the weight of its newest. */
  ghost function EdgeOf(rs: seq<Report>): Edge
    requires rs != []
  {
    Edge(rs[0].from, rs[0].to, rs[|rs| - 1].risk, rs[0].load, rs[0].latency)
  }

  ghost predicate EdgeFollows(edges: map<string, Edge>, k: string, rs: seq<Report>) {
    (k in edges <==> rs != []) && (k in edges ==> edges[k] == EdgeOf(rs))
  }

  /** The graph is what the events have reported. */
  ghost predicate Follows(m: Math, events: seq<Event>, nodes: map<Node, Telemetry>, edges: map<string, Edge>)
    requires MathHolds(m)
  {
    nodes == NodesAfter(events) && forall k :: EdgeFollows(edges, k, Reports(m, events, k))
  }

  // ---------- Where a weight comes from ----------

  /** The event adds or removes this node. */
  ghost predicate Concerns(e: Event, n: Node) {
    match e
    case Add(node) => node.publicIP == n
    case Remove(id) => id == n
  }

  /** Up to event i the last one about n is number h, and adds it. */
  ghost predicate LastAdded(events: seq<Event>, i: int, n: Node, h: int) {
    && 0 <= h <= i < |events| && events[h].Add? && Concerns(events[h], n)
    && forall j :: h < j <= i ==> !Concerns(events[j], n)
  }

  /** After event i the node is known. */
  ghost predicate Known(events: seq<Event>, i: int, n: Node) {
    exists h :: LastAdded(events, i, n, h)
  }

  /** A node is known exactly if the last event about it adds it, and then as that event
      reports it. */
  lemma {:induction false} KnownIff(events: seq<Event>, n: Node, i: int)
    requires i == |events| - 1
    ensures n in NodesAfter(events) <==> Known(events, i, n)
    ensures forall h :: LastAdded(events, i, n, h) ==> n in NodesAfter(events) && NodesAfter(events)[n] == events[h].node
  {
    if events != [] {
      KnownIff(events[..i], n, i - 1);
      if Concerns(events[i], n) {
        assert events[i].Add? ==> LastAdded(events, i, n, i);
      } else {
        KnownStill(events, events[..i], n, i, i - 1);
      }
    }
  }

  lemma KnownStill(events: seq<Event>, before: seq<Event>, n: Node, i: int, i': int)
    requires i == i' + 1 == |events| - 1 >= 0 && before == events[..i] && !Concerns(events[i], n)
    ensures Known(events, i, n) <==> Known(before, i', n)
    ensures forall h :: LastAdded(events, i, n, h) ==> LastAdded(before, i', n, h)
  {
    forall h
      ensures LastAdded(events, i, n, h) <==> LastAdded(before, i', n, h)
    {
      assert forall j :: 0 <= j <= i' ==> events[j] == before[j];
      if LastAdded(events, i, n, h) {
        assert forall j :: h < j <= i' ==> !Concerns(events[j], n);
      }
    }
  }

  /** Link j of event i leads to an origin, or to a node known by then, and is about the edge
      with this key. */
  ghost predicate Speaks(events: seq<Event>, i: int, j: int, k: string) {
    && 0 <= i < |events| && events[i].Add? && 0 <= j < |events[i].node.links|
    && PathNames.EdgeKey(events[i].node.publicIP, events[i].node.links[j].target) == k
    && (events[i].node.links[j].toOrigin || Known(events, i, events[i].node.links[j].target))
  }

  /** The pressure such a link is weighed with: that of the target as it last reported it, none
      for an origin. */
  ghost predicate WeighedWith(events: seq<Event>, i: int, j: int, pressure: real)
    requires 0 <= i < |events| && events[i].Add? && 0 <= j < |events[i].node.links|
  {
    var v := events[i].node.links[j];
    if v.toOrigin then pressure == 0.0 else exists h :: LastAdded(events, i, v.target, h) && pressure == events[h].node.cpuPressure
  }

  /** This is the last link of all that is about the edge. */
  ghost predicate SpeaksLast(events: seq<Event>, i: int, j: int, k: string) {
    Speaks(events, i, j, k) && forall i', j' :: (i < i' || (i == i' && j < j')) ==> !Speaks(events, i', j', k)
  }

  /** The risk a link is worth. */
  ghost predicate Worth(m: Math, events: seq<Event>, i: int, j: int, risk: real)
    requires MathHolds(m) && 0 <= i < |events| && events[i].Add? && 0 <= j < |events[i].node.links|
  {
    var v := events[i].node.links[j];
    exists pressure :: WeighedWith(events, i, j, pressure) && risk == EdgeRisk(m, pressure, v.loss, v.latency)
  }

  /** What the first n links of the newest event say last. */
  lemma {:induction false} LastOfLinks(m: Math, events: seq<Event>, k: string, n: nat) returns (j: nat)
    requires MathHolds(m) && events != [] && events[|events| - 1].Add? && n <= |events[|events| - 1].node.links|
    ensures var e, i := events[|events| - 1].node, |events| - 1;
            var rs := ReportsOf(m, NodesAfter(events), e.publicIP, e.links[..n], k);
            && (rs == [] ==> forall j' :: 0 <= j' < n ==> !Speaks(events, i, j', k))
            && (rs != [] ==> j < n && Speaks(events, i, j, k) && Worth(m, events, i, j, rs[|rs| - 1].risk)
                             && forall j' :: j < j' < n ==> !Speaks(events, i, j', k))
  {
    hide MathHolds, EdgeRisk, NodesAfter, PathNames.EdgeKey;
    j := 0;
    if n > 0 {
      var i, e := |events| - 1, events[|events| - 1].node;
      var v := e.links[n - 1];
      assert e.links[..n][..n - 1] == e.links[..n - 1];
      j := LastOfLinks(m, events, k, n - 1);
      LinkSpeaks(m, events, k, n - 1);
      if Speaks(events, i, n - 1, k) {
        j := n - 1;
      }
    }
  }

  lemma LinkSpeaks(m: Math, events: seq<Event>, k: string, j: nat)
    requires MathHolds(m) && events != [] && events[|events| - 1].Add? && j < |events[|events| - 1].node.links|
    ensures var e, i := events[|events| - 1].node, |events| - 1;
            var v := e.links[j];
            && (Speaks(events, i, j, k) <==> Usable(NodesAfter(events), v) && PathNames.EdgeKey(e.publicIP, v.target) == k)
            && (Usable(NodesAfter(events), v) ==> Worth(m, events, i, j, ReportOf(m, NodesAfter(events), e.publicIP, v).risk))
  {
    hide MathHolds, EdgeRisk, NodesAfter, PathNames.EdgeKey;
    var e, i := events[|events| - 1].node, |events| - 1;
    var v := e.links[j];
    KnownIff(events, v.target, i);
    if Usable(NodesAfter(events), v) {
      var load := if v.toOrigin then 0.0 else NodesAfter(events)[v.target].cpuPressure;
      assert WeighedWith(events, i, j, load);
    }
  }

  /** The newest report on an edge is the last link about it. */
  lemma {:induction false} NewestReport(m: Math, events: seq<Event>, k: string) returns (i: nat, j: nat)
    requires MathHolds(m) && Reports(m, events, k) != []
    ensures SpeaksLast(events, i, j, k) && Worth(m, events, i, j, Reports(m, events, k)[|Reports(m, events, k)| - 1].risk)
  {
    hide MathHolds, EdgeRisk, NodesAfter, PathNames.EdgeKey, Worth, Speaks;
    var n := |events| - 1;
    var said := 0;
    if events[n].Add? {
      said := LastOfLinks(m, events, k, |events[n].node.links|);
      var links := events[n].node.links;
      assert links[..|links|] == links;
    }
    if events[n].Add? && ReportsOf(m, NodesAfter(events), events[n].node.publicIP, events[n].node.links, k) != [] {
      i, j := n, said;
      NothingLater(events, n, j, k);
    } else {
      i, j := NewestReport(m, events[..n], k);
      NothingSaid(events, n, k);
      StillLast(m, events, i, j, k, Reports(m, events[..n], k)[|Reports(m, events[..n], k)| - 1].risk);
    }
  }

  /** No link of event i is about the edge. */
  ghost predicate Silent(events: seq<Event>, i: int, k: string) {
    forall j :: !Speaks(events, i, j, k)
  }

  lemma NothingLater(events: seq<Event>, n: nat, j: nat, k: string)
    requires |events| == n + 1 && Speaks(events, n, j, k) && forall j' :: j < j' < |events[n].node.links| ==> !Speaks(events, n, j', k)
    ensures SpeaksLast(events, n, j, k)
  {
    hide PathNames.EdgeKey;
  }

  lemma NothingSaid(events: seq<Event>, n: nat, k: string)
    requires |events| == n + 1 && (events[n].Add? ==> forall j :: 0 <= j < |events[n].node.links| ==> !Speaks(events, n, j, k))
    ensures Silent(events, n, k)
  {
    hide PathNames.EdgeKey, Known;
  }

  lemma SamePrefix(events: seq<Event>, i: int, n: Node, h: int)
    requires events != [] && i < |events| - 1
    ensures LastAdded(events, i, n, h) <==> LastAdded(events[..|events| - 1], i, n, h)
  {
  }

  lemma KnownBefore(events: seq<Event>, i: int, n: Node)
    requires events != [] && i < |events| - 1
    ensures Known(events, i, n) <==> Known(events[..|events| - 1], i, n)
  {
    hide LastAdded;
    var before := events[..|events| - 1];
    if h :| LastAdded(events, i, n, h) {
      SamePrefix(events, i, n, h);
    }
    if h :| LastAdded(before, i, n, h) {
      SamePrefix(events, i, n, h);
    }
  }

  lemma SpokeBefore(events: seq<Event>, i: int, j: int, k: string)
    requires events != [] && i < |events| - 1
    ensures Speaks(events, i, j, k) <==> Speaks(events[..|events| - 1], i, j, k)
  {
    hide PathNames.EdgeKey, Known;
    if 0 <= i && events[i].Add? && 0 <= j < |events[i].node.links| {
      KnownBefore(events, i, events[i].node.links[j].target);
    }
  }

  lemma StillLast(m: Math, events: seq<Event>, i: nat, j: nat, k: string, risk: real)
    requires MathHolds(m) && events != [] && SpeaksLast(events[..|events| - 1], i, j, k) && Worth(m, events[..|events| - 1], i, j, risk)
    requires Silent(events, |events| - 1, k)
    ensures SpeaksLast(events, i, j, k) && Worth(m, events, i, j, risk)
  {
    hide MathHolds, EdgeRisk, Known;
    forall i', j' | i' < |events| - 1
      ensures Speaks(events, i', j', k) <==> Speaks(events[..|events| - 1], i', j', k)
    {
      SpokeBefore(events, i', j', k);
    }
    WorthBefore(m, events, i, j, risk);
  }

  lemma WorthBefore(m: Math, events: seq<Event>, i: nat, j: nat, risk: real)
    requires MathHolds(m) && i < |events| - 1 && events[i].Add? && j < |events[i].node.links|
    requires Worth(m, events[..|events| - 1], i, j, risk)
    ensures Worth(m, events, i, j, risk)
  {
    hide MathHolds, EdgeRisk;
    var before, v := events[..|events| - 1], events[i].node.links[j];
    var pressure :| WeighedWith(before, i, j, pressure) && risk == EdgeRisk(m, pressure, v.loss, v.latency);
    if !v.toOrigin {
      var h :| LastAdded(before, i, v.target, h) && pressure == before[h].node.cpuPressure;
      SamePrefix(events, i, v.target, h);
    }
    assert WeighedWith(events, i, j, pressure);
  }

  /** The weight of an edge is the risk of the last link about it, weighed with the pressure its
      target had last reported by then. */
  lemma WeightIsNewest(m: Math, events: seq<Event>, nodes: map<Node, Telemetry>, edges: map<string, Edge>, k: string) returns (i: nat, j: nat)
    requires MathHolds(m) && Follows(m, events, nodes, edges) && k in edges
    ensures SpeaksLast(events, i, j, k) && Worth(m, events, i, j, edges[k].weight)
  {
    hide MathHolds, Reports, SpeaksLast, Worth;
    assert EdgeFollows(edges, k, Reports(m, events, k));
    i, j := NewestReport(m, events, k);
  }

  // ---------- The graph manager ----------

  /** What a link makes of the edge under its key. */
  ghost predicate Refreshed(edges: map<string, Edge>, edges': map<string, Edge>, r: Report) {
    var k := PathNames.EdgeKey(r.from, r.to);
    edges' == edges[k := if k in edges then edges[k].(weight := r.risk) else EdgeOf([r])]
  }

  class Manager {
    const math: Math
    var nodes: map<Node, Telemetry>
    var edges: map<string, Edge>
    ghost var log: seq<Event>

    constructor (math: Math)
      requires MathHolds(math)
      ensures Valid() && this.math == math && log == []
    {
      this.math := math;
      nodes, edges, log := map[], map[], [];
    }

    ghost predicate Valid()
      reads this
    {
      MathHolds(math) && Follows(math, log, nodes, edges)
    }

    /** One link of a node: a node target must be known; an edge that exists keeps all but
        its weight. */
    method AddLink(node: Telemetry, v: Link)
      requires MathHolds(math)
      modifies this`edges
      ensures !Usable(nodes, v) ==> edges == old(edges)
      ensures Usable(nodes, v) ==> Refreshed(old(edges), edges, ReportOf(math, nodes, node.publicIP, v))
    {
      hide EdgeRisk, MathHolds, PathNames.EdgeKey;
      var r, load := 0.0, 0.0;
      if v.toOrigin {
        r := EdgeRisk(math, 0.0, v.loss, v.latency);
      } else {
        if v.target !in nodes {
          return;
        }
        load := nodes[v.target].cpuPressure;
        r := EdgeRisk(math, load, v.loss, v.latency);
      }
      var newLine := PathNames.EdgeKey(node.publicIP, v.target);
      if newLine in edges {
        edges := edges[newLine := edges[newLine].(weight := r)];
      } else {
        edges := edges[newLine := Edge(node.publicIP, v.target, r, load, v.latency)];
      }
    }

    /** `AddNode`.  No edge disappears, and an edge that was there keeps its load and latency. */
    method AddNode(node: Telemetry)
      requires Valid()
      modifies this
      ensures Valid() && log == old(log) + [Add(node)]
      ensures nodes == old(nodes)[node.publicIP := node] && old(edges).Keys <= edges.Keys
      ensures forall k :: k in old(edges) ==> edges[k] == old(edges)[k].(weight := edges[k].weight)
    {
      hide MathHolds, PathNames.EdgeKey, EdgeRisk, EdgeFollows, ReportsOf, Reports, NodesAfter, Usable;
      nodes := nodes[node.publicIP := node];
      NothingReported(math, old(log), nodes, edges, node.publicIP);
      for i := 0 to |node.links|
        invariant nodes == old(nodes)[node.publicIP := node] && log == old(log)
        invariant old(edges).Keys <= edges.Keys
        invariant forall k :: k in old(edges) ==> edges[k] == old(edges)[k].(weight := edges[k].weight)
        invariant forall k :: EdgeFollows(edges, k, Reports(math, log, k) + ReportsOf(math, nodes, node.publicIP, node.links[..i], k))
      {
        ghost var before := edges;
        AddLink(node, node.links[i]);
        LinkFollows(math, log, nodes, node.publicIP, node.links, i, before, edges);
      }
      assert node.links[..|node.links|] == node.links;
      AddFollows(math, log, nodes, edges, node);
      log := log + [Add(node)];
    }

    /** `RemoveNode`: the node and exactly the edges at it go. */
    method RemoveNode(id: Node)
      requires Valid()
      modifies this
      ensures Valid() && log == old(log) + [Remove(id)]
      ensures nodes == old(nodes) - {id}
      ensures forall k :: k in edges <==> k in old(edges) && old(edges)[k].source != id && old(edges)[k].dest != id
      ensures forall k :: k in edges ==> edges[k] == old(edges)[k]
    {
      hide Follows, MathHolds;
      nodes := nodes - {id};
      var todo := edges.Keys;
      while todo != {}
        invariant todo <= old(edges).Keys && nodes == old(nodes) - {id} && log == old(log)
        invariant forall k :: k in edges <==> k in old(edges) && (k in todo || (old(edges)[k].source != id && old(edges)[k].dest != id))
        invariant forall k :: k in edges ==> edges[k] == old(edges)[k]
        decreases todo
      {
        var key :| key in todo;
        todo := todo - {key};
        if edges[key].source == id || edges[key].dest == id {
          edges := edges - {key};
        }
      }
      RemoveFollows(math, log, old(nodes), old(edges), edges, id);
      log := log + [Remove(id)];
    }

    /** `GetEdges`, in any order. */
    method GetEdges() returns (list: seq<Edge>)
      ensures |list| == |edges| && Lists(edges, list)
    {
      list := [];
      var todo := edges.Keys;
      while todo != {}
        invariant todo <= edges.Keys && |list| + |todo| == |edges|
        invariant forall e :: e in list <==> exists k :: k in edges && k !in todo && edges[k] == e
        decreases todo
      {
        var key :| key in todo;
        todo := todo - {key};
        list := list + [edges[key]];
      }
    }
  }

  lemma NothingReported(m: Math, log: seq<Event>, nodes: map<Node, Telemetry>, edges: map<string, Edge>, from: Node)
    requires MathHolds(m) && forall k :: EdgeFollows(edges, k, Reports(m, log, k))
    ensures forall links: seq<Link>, k :: EdgeFollows(edges, k, Reports(m, log, k) + ReportsOf(m, nodes, from, links[..0], k))
  {
    hide EdgeFollows, Reports;
    forall links: seq<Link>, k
      ensures Reports(m, log, k) + ReportsOf(m, nodes, from, links[..0], k) == Reports(m, log, k)
    {
    }
  }

  /** One more link is one more report under its key. */
  lemma LinkFollows(m: Math, log: seq<Event>, nodes: map<Node, Telemetry>, from: Node, links: seq<Link>, i: nat,
                    edges: map<string, Edge>, edges': map<string, Edge>)
    requires MathHolds(m) && i < |links|
    requires forall k :: EdgeFollows(edges, k, Reports(m, log, k) + ReportsOf(m, nodes, from, links[..i], k))
    requires if Usable(nodes, links[i]) then Refreshed(edges, edges', ReportOf(m, nodes, from, links[i])) else edges' == edges
    ensures forall k :: EdgeFollows(edges', k, Reports(m, log, k) + ReportsOf(m, nodes, from, links[..i + 1], k))
  {
    hide PathNames.EdgeKey, EdgeRisk, Reports, Usable, MathHolds, EdgeFollows;
    assert links[..i + 1][..i] == links[..i];
    forall k
      ensures EdgeFollows(edges', k, Reports(m, log, k) + ReportsOf(m, nodes, from, links[..i + 1], k))
    {
      var before, rs := Reports(m, log, k), ReportsOf(m, nodes, from, links[..i], k);
      if Usable(nodes, links[i]) && PathNames.EdgeKey(from, links[i].target) == k {
        var r := ReportOf(m, nodes, from, links[i]);
        OneMore(edges, edges', k, before + rs, r);
        assert (before + rs) + [r] == before + (rs + [r]);
      } else {
        assert before + (rs + []) == before + rs;
        Untouched(edges, edges', k, before + rs);
      }
    }
  }

  lemma OneMore(edges: map<string, Edge>, edges': map<string, Edge>, k: string, rs: seq<Report>, r: Report)
    requires EdgeFollows(edges, k, rs) && Refreshed(edges, edges', r) && PathNames.EdgeKey(r.from, r.to) == k
    ensures EdgeFollows(edges', k, rs + [r])
  {
    hide PathNames.EdgeKey;
  }

  lemma Untouched(edges: map<string, Edge>, edges': map<string, Edge>, k: string, rs: seq<Report>)
    requires EdgeFollows(edges, k, rs) && (k in edges <==> k in edges') && (k in edges ==> edges'[k] == edges[k])
    ensures EdgeFollows(edges', k, rs)
  {
  }

  lemma AddFollows(m: Math, log: seq<Event>, nodes: map<Node, Telemetry>, edges: map<string, Edge>, node: Telemetry)
    requires MathHolds(m) && nodes == NodesAfter(log)[node.publicIP := node]
    requires forall k :: EdgeFollows(edges, k, Reports(m, log, k) + ReportsOf(m, nodes, node.publicIP, node.links, k))
    ensures Follows(m, log + [Add(node)], nodes, edges)
  {
    hide EdgeFollows, ReportsOf;
    var log' := log + [Add(node)];
    assert log'[..|log|] == log && log'[|log|] == Add(node);
    assert NodesAfter(log') == nodes;
    forall k
      ensures EdgeFollows(edges, k, Reports(m, log', k))
    {
      assert Reports(m, log', k) == Reports(m, log, k) + ReportsOf(m, nodes, node.publicIP, node.links, k);
    }
  }

  lemma RemoveFollows(m: Math, log: seq<Event>, nodes: map<Node, Telemetry>, edges: map<string, Edge>, edges': map<string, Edge>, id: Node)
    requires MathHolds(m) && Follows(m, log, nodes, edges)
    requires forall k :: k in edges' <==> k in edges && edges[k].source != id && edges[k].dest != id
    requires forall k :: k in edges' ==> edges'[k] == edges[k]
    ensures Follows(m, log + [Remove(id)], nodes - {id}, edges')
  {
    hide ReportsOf;
    var log' := log + [Remove(id)];
    assert log'[..|log|] == log && log'[|log|] == Remove(id);
    forall k
      ensures EdgeFollows(edges', k, Reports(m, log', k))
    {
      assert EdgeFollows(edges, k, Reports(m, log, k));
    }
  }

  // ---------- What holds of every graph ----------

  /** The origin addresses reported. */
  ghost function OriginsOf(events: seq<Event>): set<string> {
    set e, v | e in events && e.Add? && v in e.node.links && v.toOrigin :: v.target
  }

  ghost predicate ReportHolds(events: seq<Event>, k: string, r: Report) {
    && PathNames.EdgeKey(r.from, r.to) == k && r.risk >= 0.0
    && r.from in NodesAfter(events) && (r.to in NodesAfter(events) || r.to in OriginsOf(events))
  }

  /** Every report under a key is about an edge with that key.  The first one, which names the
      endpoints, starts at a known node and ends at a known node or a reported origin. */
  lemma {:induction false} ReportsHold(m: Math, events: seq<Event>, k: string)
    requires MathHolds(m)
    ensures forall r :: r in Reports(m, events, k) ==> PathNames.EdgeKey(r.from, r.to) == k && r.risk >= 0.0
    ensures Reports(m, events, k) != [] ==> ReportHolds(events, k, Reports(m, events, k)[0])
  {
    if events != [] {
      hide EdgeRisk, PathNames.EdgeKey, MathHolds, ReportsOf;
      var n := |events| - 1;
      var before := Reports(m, events[..n], k);
      ReportsHold(m, events[..n], k);
      assert forall e :: e in events[..n] ==> e in events;
      assert OriginsOf(events[..n]) <= OriginsOf(events);
      match events[n] {
        case Add(node) =>
          LinkReportsHold(m, events, node, node.links, k);
        case Remove(id) =>
      }
    }
  }

  lemma {:induction false} LinkReportsHold(m: Math, events: seq<Event>, node: Telemetry, links: seq<Link>, k: string)
    requires MathHolds(m) && events != [] && events[|events| - 1] == Add(node) && links <= node.links
    ensures forall r :: r in ReportsOf(m, NodesAfter(events), node.publicIP, links, k) ==> ReportHolds(events, k, r)
  {
    hide EdgeRisk, PathNames.EdgeKey, MathHolds;
    if links != [] {
      var n := |links| - 1;
      LinkReportsHold(m, events, node, links[..n], k);
      assert links[n] in node.links && events[|events| - 1] in events;
      hide NodesAfter;
      assert node.publicIP in NodesAfter(events) by { OwnNode(events, node); }
    }
  }

  lemma OwnNode(events: seq<Event>, node: Telemetry)
    requires events != [] && events[|events| - 1] == Add(node)
    ensures node.publicIP in NodesAfter(events)
  {
  }

  /** Every edge is keyed by its own endpoints, starts at a known node, ends at a known node
      or a reported origin address, and has a non-negative weight. */
  ghost predicate Closed(events: seq<Event>, edges: map<string, Edge>) {
    forall k :: k in edges ==>
      && k == PathNames.EdgeKey(edges[k].source, edges[k].dest)
      && edges[k].source in NodesAfter(events)
      && (edges[k].dest in NodesAfter(events) || edges[k].dest in OriginsOf(events))
      && edges[k].weight >= 0.0
  }

  lemma GraphIsClosed(m: Math, events: seq<Event>, nodes: map<Node, Telemetry>, edges: map<string, Edge>)
    requires MathHolds(m) && Follows(m, events, nodes, edges)
    ensures Closed(events, edges)
  {
    hide NodesAfter, Reports, PathNames.EdgeKey, MathHolds, OriginsOf;
    forall k | k in edges
      ensures && k == PathNames.EdgeKey(edges[k].source, edges[k].dest) && edges[k].source in NodesAfter(events)
              && (edges[k].dest in NodesAfter(events) || edges[k].dest in OriginsOf(events)) && edges[k].weight >= 0.0
    {
      assert EdgeFollows(edges, k, Reports(m, events, k));
      ReportsHold(m, events, k);
    }
  }

  ghost predicate GoodName(n: string) {
    n != "" && PathNames.ArrowFree(n)
  }

  /** Names the path solvers can use. */
  ghost predicate Named(events: seq<Event>) {
    forall e :: e in events && e.Add? ==> GoodName(e.node.publicIP) && forall v :: v in e.node.links ==> GoodName(v.target)
  }

  lemma {:induction false} NodesAreNamed(events: seq<Event>, n: Node)
    requires Named(events) && n in NodesAfter(events)
    ensures GoodName(n)
  {
    hide GoodName;
    var last := events[|events| - 1];
    assert last in events;
    if !(last.Add? && last.node.publicIP == n) {
      NodesAreNamed(events[..|events| - 1], n);
    }
  }

  lemma UsableEdges(events: seq<Event>, edges: map<string, Edge>, list: seq<Edge>)
    requires Named(events) && Closed(events, edges) && Lists(edges, list)
    ensures YenPaths.Usable(list, false)
  {
    hide PathNames.EdgeKey, PathNames.ArrowFree, NodesAfter;
    forall e | e in list
      ensures GoodName(e.source) && GoodName(e.dest)
    {
      var k :| k in edges && edges[k] == e;
      NodesAreNamed(events, e.source);
      if e.dest in NodesAfter(events) {
        NodesAreNamed(events, e.dest);
      }
    }
  }

  /** At most one edge for each ordered pair of nodes. */
  lemma ListIsOnePerPair(events: seq<Event>, edges: map<string, Edge>, list: seq<Edge>, g: Adjacency)
    requires Closed(events, edges) && Lists(edges, list) && YenPaths.Adjoins(list, g)
    ensures YenPaths.OneEdgePerPair(g)
  {
    hide PathNames.EdgeKey, NodesAfter, OriginsOf;
    forall u, e, e' | e in Out(g, u) && e' in Out(g, u) && e.dest == e'.dest
      ensures e == e'
    {
      assert e in list && e' in list && e.source == e'.source;
      var k :| k in edges && edges[k] == e;
      var k' :| k' in edges && edges[k'] == e';
      assert k == PathNames.EdgeKey(e.source, e.dest) && k' == PathNames.EdgeKey(e'.source, e'.dest);
    }
  }

  // ---------- Which edges there are ----------

  /** Link j of event i is about the edge, and neither of its ends has been removed since. */
  ghost predicate Stands(events: seq<Event>, i: int, j: int, k: string) {
    && Speaks(events, i, j, k)
    && forall h :: i < h < |events| && events[h].Remove? ==>
         events[h].id != events[i].node.publicIP && events[h].id != events[i].node.links[j].target
  }

  ghost predicate Standing(events: seq<Event>, k: string) {
    exists i, j :: Stands(events, i, j, k)
  }

  lemma StoodBefore(events: seq<Event>, i: int, j: int, k: string)
    requires events != [] && i < |events| - 1
    ensures Stands(events, i, j, k) <==>
            && Stands(events[..|events| - 1], i, j, k)
            && (events[|events| - 1].Remove? ==> events[|events| - 1].id != events[i].node.publicIP
                                                 && events[|events| - 1].id != events[i].node.links[j].target)
  {
    hide Speaks;
    SpokeBefore(events, i, j, k);
    SpeaksAt(events, i, j, k);
  }

  lemma SpeaksAt(events: seq<Event>, i: int, j: int, k: string)
    ensures Speaks(events, i, j, k) ==> 0 <= i < |events| && events[i].Add? && 0 <= j < |events[i].node.links|
  {
  }

  /** Names without separators: all that is said under one key is about one pair of ends. */
  lemma SameEnds(events: seq<Event>, i: int, j: int, k: string, r: Report)
    requires Named(events) && Speaks(events, i, j, k) && PathNames.EdgeKey(r.from, r.to) == k && GoodName(r.from) && GoodName(r.to)
    ensures r.from == events[i].node.publicIP && r.to == events[i].node.links[j].target
  {
    hide PathNames.EdgeKey, PathNames.Join, PathNames.ArrowFree, Known;
    assert events[i] in events && events[i].node.links[j] in events[i].node.links;
    var u, v := events[i].node.publicIP, events[i].node.links[j].target;
    PathNames.KeyIsJoin(r.from, r.to);
    PathNames.KeyIsJoin(u, v);
    PathNames.JoinIsInjective([r.from, r.to], [u, v]);
    assert [r.from, r.to][0] == [u, v][0] && [r.from, r.to][1] == [u, v][1];
  }

  lemma FirstIsNamed(m: Math, events: seq<Event>, k: string)
    requires MathHolds(m) && Named(events) && Reports(m, events, k) != []
    ensures var r := Reports(m, events, k)[0]; PathNames.EdgeKey(r.from, r.to) == k && GoodName(r.from) && GoodName(r.to)
  {
    hide MathHolds, Reports, NodesAfter, GoodName, PathNames.EdgeKey;
    ReportsHold(m, events, k);
    var r := Reports(m, events, k)[0];
    NodesAreNamed(events, r.from);
    if r.to in NodesAfter(events) {
      NodesAreNamed(events, r.to);
    }
  }

  lemma AddStands(m: Math, events: seq<Event>, k: string)
    requires MathHolds(m) && events != [] && events[|events| - 1].Add?
    ensures var e := events[|events| - 1].node;
            Standing(events, k) <==> Standing(events[..|events| - 1], k) || ReportsOf(m, NodesAfter(events), e.publicIP, e.links, k) != []
  {
    hide MathHolds, Speaks, ReportsOf, NodesAfter;
    var n, e := |events| - 1, events[|events| - 1].node;
    var said := LastOfLinks(m, events, k, |e.links|);
    assert e.links[..|e.links|] == e.links;
    if i, j :| Stands(events, i, j, k) {
      SpeaksAt(events, i, j, k);
      if i < n {
        StoodBefore(events, i, j, k);
      }
    }
    if i, j :| Stands(events[..n], i, j, k) {
      SpeaksAt(events[..n], i, j, k);
      StoodBefore(events, i, j, k);
    }
    if ReportsOf(m, NodesAfter(events), e.publicIP, e.links, k) != [] {
      assert Stands(events, n, said, k);
    }
  }

  lemma RemoveStands(m: Math, events: seq<Event>, k: string)
    requires MathHolds(m) && Named(events) && events != [] && events[|events| - 1].Remove?
    requires Standing(events[..|events| - 1], k) <==> Reports(m, events[..|events| - 1], k) != []
    ensures Standing(events, k) <==> Reports(m, events, k) != []
  {
    hide MathHolds, Speaks, NodesAfter, Named, GoodName, PathNames.EdgeKey;
    var n := |events| - 1;
    var before := events[..n];
    NamedBefore(events, n);
    if i, j :| Stands(events, i, j, k) {
      SpeaksAt(events, i, j, k);
      StoodBefore(events, i, j, k);
      FirstIsNamed(m, before, k);
      SameEnds(before, i, j, k, Reports(m, before, k)[0]);
    }
    if i, j :| Stands(before, i, j, k) {
      SpeaksAt(before, i, j, k);
      StoodBefore(events, i, j, k);
      FirstIsNamed(m, before, k);
      SameEnds(before, i, j, k, Reports(m, before, k)[0]);
    }
  }

  lemma NamedBefore(events: seq<Event>, n: nat)
    requires Named(events) && n <= |events|
    ensures Named(events[..n])
  {
    hide GoodName;
    assert forall e :: e in events[..n] ==> e in events;
  }

  lemma {:induction false} StandingIff(m: Math, events: seq<Event>, k: string)
    requires MathHolds(m) && Named(events)
    ensures Standing(events, k) <==> Reports(m, events, k) != []
  {
    hide MathHolds, Named, NodesAfter, ReportsOf;
    if events == [] {
      hide Speaks;
      forall i, j
        ensures !Stands(events, i, j, k)
      {
        SpeaksAt(events, i, j, k);
      }
    } else {
      var n := |events| - 1;
      NamedBefore(events, n);
      StandingIff(m, events[..n], k);
      hide Standing;
      if events[n].Add? {
        AddStands(m, events, k);
      } else {
        RemoveStands(m, events, k);
      }
    }
  }

  /** There is an edge exactly if some link told of it that led somewhere then, and neither end
      has been removed since. */
  lemma EdgeStandsIff(m: Math, events: seq<Event>, nodes: map<Node, Telemetry>, edges: map<string, Edge>, k: string)
    requires MathHolds(m) && Named(events) && Follows(m, events, nodes, edges)
    ensures k in edges <==> exists i, j :: Stands(events, i, j, k)
  {
    hide MathHolds, Named, Reports, Stands;
    assert EdgeFollows(edges, k, Reports(m, events, k));
    StandingIff(m, events, k);
  }

  // ---------- From telemetry to routes ----------

  /** Every sequence of reports and removals leaves what it has reported. */
  method Maintain(math: Math, events: seq<Event>) returns (m: Manager)
    requires MathHolds(math)
    ensures fresh(m) && m.Valid() && m.math == math && m.log == events
    ensures Follows(math, events, m.nodes, m.edges) && Closed(events, m.edges)
  {
    hide MathHolds, Follows;
    m := new Manager(math);
    for i := 0 to |events|
      invariant fresh(m) && m.Valid() && m.math == math && m.log == events[..i]
    {
      match events[i] {
        case Add(node) => m.AddNode(node);
        case Remove(id) => m.RemoveNode(id);
      }
      assert events[..i + 1] == events[..i] + [events[i]];
    }
    assert events[..|events|] == events;
    GraphIsClosed(math, events, m.nodes, m.edges);
  }

  /** The list holds exactly the edges of the graph. */
  ghost predicate Lists(edges: map<string, Edge>, list: seq<Edge>) {
    forall e :: e in list <==> exists k :: k in edges && edges[k] == e
  }

  /** What a query may answer on the edges listed in this order. */
  ghost predicate Answers(list: seq<Edge>, k: int, start: Node, end: Node, r: Option<seq<YenPaths.EarlyCutDijkstra.Path>>) {
    var g, limit := YenPaths.AdjacencyOf(list), if k <= 0 then 5 else k;
    && (r.None? <==> start !in YenPaths.Endpoints(list) || end !in YenPaths.Endpoints(list) || !Reachable(g, {}, start, end))
    && (r.Some? ==>
          && 1 <= |r.value| <= limit && YenPaths.Distinct(r.value) && YenPaths.SortedByCost(r.value)
          && (forall p :: p in r.value ==>
                && YenPaths.SimplePath(g, start, end, p.hops)
                && p.cost == YenPaths.HopSum(false, p.hops, g) && p.rawRTT == YenPaths.HopSum(true, p.hops, g))
          && (|r.value| < limit ==> YenPaths.Complete(g, start, end, r.value))
          && (YenPaths.CutIsHarmless(g, false, start, end) ==> YenPaths.Cheapest(g, false, start, end, r.value)))
  }

  /** A route query on the maintained graph, in weight mode: distinct simple paths, cheapest
      first, with sums that follow the hops, and all of them if fewer than asked for. */
  method Route(m: Manager, k: int, start: Node, end: Node) returns (r: Option<seq<YenPaths.EarlyCutDijkstra.Path>>)
    requires m.Valid() && Named(m.log)
    ensures exists list :: Lists(m.edges, list) && YenPaths.OneEdgePerPair(YenPaths.AdjacencyOf(list)) && Answers(list, k, start, end, r)
  {
    hide YenPaths.Usable, YenPaths.Endpoints, YenPaths.Sound, YenPaths.HopSum, YenPaths.SimplePath, Reachable, Named, Follows, MathHolds,
         YenPaths.Complete, YenPaths.AdjacencyOf, YenPaths.OneEdgePerPair, YenPaths.Cheapest, YenPaths.CutIsHarmless,
         Lists, Closed;
    var edges := m.GetEdges();
    ghost var g := YenPaths.AdjacencyOf(edges);
    GraphIsClosed(m.math, m.log, m.nodes, m.edges);
    UsableEdges(m.log, m.edges, edges);
    r := YenPaths.ComputeKShortest(edges, k, false, start, end);
    YenPaths.AdjacencyAdjoins(edges);
    ListIsOnePerPair(m.log, m.edges, edges, g);
    if r.Some? {
      forall p | p in r.value
        ensures YenPaths.SimplePath(g, start, end, p.hops)
        ensures p.cost == YenPaths.HopSum(false, p.hops, g) && p.rawRTT == YenPaths.HopSum(true, p.hops, g)
      {
        YenPaths.SoundIsSimple(g, false, start, end, p);
        YenPaths.SumsFollowHops(g, false, start, end, p);
      }
    }
    assert Answers(edges, k, start, end, r);
  }

  /** The list holds exactly the edges the events have reported. */
  ghost predicate ListsReported(m: Math, events: seq<Event>, list: seq<Edge>)
    requires MathHolds(m)
  {
    forall e :: e in list <==> exists k :: Reports(m, events, k) != [] && EdgeOf(Reports(m, events, k)) == e
  }

  /** From telemetry to routes: after any reports and removals with ordinary names, a query is
      answered on exactly the edges reported. */
  method RouteAfter(math: Math, events: seq<Event>, k: int, start: Node, end: Node) returns (r: Option<seq<YenPaths.EarlyCutDijkstra.Path>>)
    requires MathHolds(math) && Named(events)
    ensures exists list :: ListsReported(math, events, list) && Answers(list, k, start, end, r)
  {
    hide MathHolds, Named, Follows, Lists, Answers, Closed, ListsReported, YenPaths.OneEdgePerPair, YenPaths.AdjacencyOf;
    var m := Maintain(math, events);
    r := Route(m, k, start, end);
    ghost var list :| Lists(m.edges, list) && YenPaths.OneEdgePerPair(YenPaths.AdjacencyOf(list)) && Answers(list, k, start, end, r);
    ListedIsReported(math, events, m.nodes, m.edges, list);
  }

  lemma ListedIsReported(m: Math, events: seq<Event>, nodes: map<Node, Telemetry>, edges: map<string, Edge>, list: seq<Edge>)
    requires MathHolds(m) && Follows(m, events, nodes, edges) && Lists(edges, list)
    ensures ListsReported(m, events, list)
  {
    hide Reports, NodesAfter, MathHolds;
    forall e
      ensures e in list <==> exists k :: Reports(m, events, k) != [] && EdgeOf(Reports(m, events, k)) == e
    {
      if e in list {
        var k :| k in edges && edges[k] == e;
        assert EdgeFollows(edges, k, Reports(m, events, k));
      }
      if k :| Reports(m, events, k) != [] && EdgeOf(Reports(m, events, k)) == e {
        assert EdgeFollows(edges, k, Reports(m, events, k));
        assert k in edges && edges[k] == e;
      }
    }
  }
}
