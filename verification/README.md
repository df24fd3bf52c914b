# SkyAccel: path search, batching and forwarding, verified

A Dafny model of the parts of SkyAccel that decide where traffic goes and whether it
arrives.  `dafny verify dfyconfig.toml` checks everything.

Control plane:

- `Overlay`, `EarlyCutDijkstra`, `YenPaths`: the k-path solver.  Trails carry their edges, so
  parallel edges are allowed; `Sound` says a reported path has the exact sums of a trail along
  its hops.  The inner search is not optimal; `ShortestIff` says exactly when it is.
- `ResidualSearch`, `CarouselState`, `CarouselScore`, `Carousel`, `CarouselSolver`: the flow
  optimiser.  `Valid` of a `Run` is the invariant of every state: flow on each edge is the number
  of live paths over it, the used-path set is the set of live paths, counters match.  So a state
  is determined by its list of paths, and `Served`, `Replaced` and `Turned` say from which list a
  step may lead to which, for any map order and any random choice.
- `RandomDfs`: the randomised search of the ONE-WAN solver.
- `GraphManager`: the graph kept from telemetry, as a function of all events so far, and the
  queries answered on it.

Data proxy:

- `TunnelPacket`: the packet writer and parser on bytes.  A `Frame` is a packet under construction
  as a value; the methods of `Packet` do to their buffer what the functions on frames say.
- `Forwarding`: what one proxy does with a packet, and a packet's whole way.
- `DeadlineHeap`, `Batches`, `Aggregator`, `BatchRuns`: the batching worker and its deadline
  queue.  `Stepped` says what each event does to the state of a worker; `BatchRuns` says what
  follows for whole runs.
- `Delivery`: from the worker's packets to the origins.
- `Waiters`: request ids and the table of waiting channels.

Conventions.  `float64` is `real`; an unreached distance is `Inf`.  Map order, shuffles, heap ties
and random choices are arbitrary choices, and everything is proved for all of them.  A slice or
index out of range is either an outcome (`Panic`) or a precondition.  Each method of the worker
and of the table of waiters is one atomic step.  The path solvers need edge costs that are not
negative and node names that are not empty and do not contain `->`, which holds for the IP
addresses in use; `PathNames.RoundTripIff` shows that the string encoding needs exactly this.
The tally of chosen paths joins names with `|`; what is said of it by hops is for names without.
Hops are 32-bit addresses: parsing and printing of dotted addresses is left to the library.

Where code and comments disagree, the model follows the code: the optimiser allows two flows per
destination, retires half of the list from its oldest end and uses a factor of 1.5 and three paths
for the latency bound; a packet length over 65535 wraps; a parsed payload loses an empty last
sub-packet; `findShortestPath` is not a shortest path; a routing key does not tell ports apart, so
a message may be sent under the port of another one, and a stale key is not one without messages.

## Model

| member | source | states |
|---|---|---|
| EarlyCutDijkstra.FindShortestPath | control-plane/routing/core-domain/k-shortest.go:309-418 | no path is reported exactly when no trail that enters no forbidden node leads from start to end; otherwise the trail is simple, reaches a nearest predecessor of end at least cost and goes on over its cheapest edge, and the record holds its hops and exact sums |
| EarlyCutDijkstra.LowerBound | control-plane/routing/core-domain/k-shortest.go:342-414 | at every point of the search a trail either ends in a settled node at no less than its label or costs at least the current distance |
| EarlyCutDijkstra.FirstLabelIsFound | control-plane/routing/core-domain/k-shortest.go:379-414 | the end node is first labelled from a nearest predecessor, so stopping there fixes the answer |
| EarlyCutDijkstra.NoneMeansUnreachable | control-plane/routing/core-domain/k-shortest.go:342-417 | an empty queue means the end is out of reach, also when the graph does not mention it |
| EarlyCutDijkstra.RebuildPath | control-plane/routing/core-domain/k-shortest.go:352-356 | the predecessor chain has no cycle and reads back the trail of the end node |
| EarlyCutDijkstra.CostWithinLastEdge | control-plane/routing/core-domain/k-shortest.go:379-382 | the reported cost exceeds that of any other trail by at most the last edge |
| EarlyCutDijkstra.ShortestIff | control-plane/routing/core-domain/k-shortest.go:379-382 | every trail the search may report is a shortest one exactly if, for the distances of the predecessors of end, the cheapest edge from a nearest one costs more than an edge from any other by at most what the other is farther away |
| EarlyCutDijkstra.DistanceExists | control-plane/routing/core-domain/k-shortest.go:342-414 | every node that can be reached without passing end has such a distance |
| EarlyCutDijkstra.ApproachIsFound | control-plane/routing/core-domain/k-shortest.go:342-414 | each such nearest approach, with its loops cut out, is a trail the search may report, so the condition cannot be weakened |
| EarlyCutDijkstra.UniformLastEdgeIsOptimal | control-plane/routing/core-domain/k-shortest.go:379-382 | in particular if the cheapest edges into end, one from each predecessor, cost the same |
| EarlyCutDijkstra.EarlyCutIsNotOptimal | control-plane/routing/core-domain/k-shortest.go:379-382 | on A->B->C at 1 + 1 against A->C at 5 the only possible answer is the direct edge |
| EarlyCutDijkstra.RemoveConsecutiveDuplicates | control-plane/routing/core-domain/k-shortest.go:295-307 | the result has no equal neighbours, the same nodes and ends, and is the input if that had none |
| PathNames.RoundTripIff | control-plane/routing/core-domain/k-shortest.go:233-258 | splitting a joined path gives the path exactly when it has a hop and no name holds the arrow |
| PathNames.JoinIsInjective | control-plane/routing/core-domain/k-shortest.go:441-459 | for such paths comparing strings is comparing paths |
| Overlay.CostFollowsEdges | control-plane/routing/core-domain/k-shortest.go:395-402 | the cost of a trail follows the weights of its edges one for one, or their latencies, by mode, and nothing else |
| YenPaths.Yen | control-plane/routing/core-domain/k-shortest.go:124-281 | fails exactly when end is out of reach; otherwise one to k distinct sound paths, cheapest first, and fewer than k only if every simple path is among them; without parallel edges and if no search it may make is cut too early, no path left out is cheaper than one returned |
| YenPaths.UniformIsHarmless | control-plane/routing/core-domain/k-shortest.go:379-382 | in particular no search is cut too early if all edges into end have one cost |
| YenPaths.SpurStep | control-plane/routing/core-domain/k-shortest.go:149-243 | after a cut the graph is what it was, candidates stay sound, distinct and new, and if some simple path leaves the root by an unused hop a candidate is waiting, no dearer than any such path if the early cut is harmless |
| YenPaths.SpurRound | control-plane/routing/core-domain/k-shortest.go:147-249 | if a round leaves no candidate, every simple path has been found; if the early cut is harmless, for every path not found a candidate waits that is no dearer |
| YenPaths.TakeCandidate | control-plane/routing/core-domain/k-shortest.go:251-264 | the candidate taken is of least cost and never in the result already, so each round adds exactly one path |
| YenPaths.CompletedIsCheapest | control-plane/routing/core-domain/k-shortest.go:205-226 | where the early cut is harmless, root and spur path together are no dearer than any other path that leaves the root there |
| YenPaths.SpurPathIsSound | control-plane/routing/core-domain/k-shortest.go:205-226 | root and spur path together are a simple path of the unedited graph with the sums recorded, and leave every known path at the cut |
| YenPaths.DeviationIsReachable | control-plane/routing/core-domain/k-shortest.go:159-191 | removing edges and forbidding nodes for one cut keeps every path that leaves the root by a new hop |
| YenPaths.MissingPathDeviates | control-plane/routing/core-domain/k-shortest.go:146-244 | a simple path not yet found leaves a found one at some cut by a hop no found path takes there |
| YenPaths.HopSumIsTrailCost | control-plane/routing/core-domain/k-shortest.go:520-552 | summing the first edge of each hop gives the cost and latency of a trail along the path |
| YenPaths.CalculatePathSum | control-plane/routing/core-domain/k-shortest.go:520-552 | the nested loops compute that sum |
| YenPaths.SumsFollowHops | control-plane/routing/core-domain/k-shortest.go:83-87 | with one edge per pair, cost and raw latency of a path are the sums over its hops |
| YenPaths.HasDuplicateNodes | control-plane/routing/core-domain/k-shortest.go:283-292 | true exactly when some node occurs twice |
| YenPaths.SpurEdges | control-plane/routing/core-domain/k-shortest.go:165-191 | the edges kept at the spur node are exactly those not into the root and not along a known path with that root |
| YenPaths.ComputeKShortest | control-plane/routing/core-domain/k-shortest.go:20-81 | the whole solver from an edge list: k defaults to 5, an unknown endpoint is an error, and Yen's guarantees on the adjacency built |
| YenPaths.AdjacencyAdjoins | control-plane/routing/core-domain/k-shortest.go:42-50 | every node's list of the adjacency built holds exactly the edges of the edge list that leave it |
| Ordering.Sorted | control-plane/routing/core-domain/k-shortest.go:267-274 | the exchange sort returns a sorted permutation |
| ResidualSearch.DfsPathSearch | control-plane/routing/core-domain/carousel-greed.go:600-688 | optimising: a least-latency unused residual path among all simple ones of at most 30 nodes within the bound, none exactly when there is none; exploring: a feasible path, none exactly when there is none, for every shuffle |
| ResidualSearch.PathSearch.Dfs | control-plane/routing/core-domain/carousel-greed.go:608-680 | one level of the search accounts for every continuation of the current path and restores visited set and path |
| ResidualSearch.GetSortedEdges | control-plane/routing/core-domain/carousel-greed.go:553-592 | exactly the residual arcs of a node, forward and backward with ban penalty, cheapest first |
| ResidualSearch.NoBetterIsBounded | control-plane/routing/core-domain/carousel-greed.go:661-663 | cutting a branch that is no cheaper than the best path loses no better path |
| ResidualSearch.OverBoundIsRuled | control-plane/routing/core-domain/carousel-greed.go:665-667 | cutting a branch over the latency bound loses no feasible path |
| CarouselState.MoveFlow | control-plane/routing/core-domain/carousel-greed.go:742-777 | one pass over a simple path moves one unit on each of its edges and nothing else |
| CarouselState.ReleaseHolds | control-plane/routing/core-domain/carousel-greed.go:759-777 | releasing the oldest path keeps flow equal to the number of paths on each edge, and the clamp at zero never takes effect |
| CarouselState.AllocationHolds | control-plane/routing/core-domain/carousel-greed.go:742-757 | allocating a path keeps flow equal to the number of paths on each edge and residual equal to effCap - flow |
| CarouselState.FlowWithinCapacity | control-plane/routing/core-domain/carousel-greed.go:264-264 | with no more paths than capacity, every edge's flow is between zero and its capacity |
| CarouselScore.Objective | control-plane/routing/core-domain/carousel-greed.go:807-866 | the score is the weighted sum of path count, diversity, latency and congestion, whatever order the usage map is read in; what it prefers is said by the next rows |
| CarouselScore.FasterScoresHigher | control-plane/routing/core-domain/carousel-greed.go:856-865 | of two lists with the same hops on the same network the one with less summed latency scores higher, by a tenth of the difference |
| CarouselScore.LatencyCountsOnce | control-plane/routing/core-domain/carousel-greed.go:828-829 | a change of one path's latency changes the sum by as much |
| CarouselScore.MoreFlowScoresLower | control-plane/routing/core-domain/carousel-greed.go:838-846 | more flow on an edge lowers the score by the share of capacity it takes, once for each path over the edge |
| CarouselScore.OneMoreUser | control-plane/routing/core-domain/carousel-greed.go:850-855 | a first path over an edge adds 1 to the diversity, one more after c others changes it from 1/c to 1/(c+1) |
| CarouselScore.NewPathScores | control-plane/routing/core-domain/carousel-greed.go:807-866 | a simple path over edges no other path uses adds 10 and its hop count, less a tenth of its latency and the congestion along it |
| CarouselScore.DiversityOf | control-plane/routing/core-domain/carousel-greed.go:850-855 | the diversity sum does not depend on the order of the edges |
| CarouselScore.CongestionIsLoad | control-plane/routing/core-domain/carousel-greed.go:838-846 | with the books in order the congestion of a hop is the number of paths on it over its capacity |
| Carousel.QuotaBoundsPaths | control-plane/routing/core-domain/carousel-greed.go:264-264 | quotas kept means no more live paths than the capacity, also if a destination was asked for twice |
| Carousel.FoundPathHolds | control-plane/routing/core-domain/carousel-greed.go:690-732 | what the search finds is simple, of at most 30 nodes, within the destination's bound, and its latency is the sum over its steps: an edge's latency forwards, nothing backwards, and the penalty where banned |
| Carousel.EdgesWithinBound | control-plane/routing/core-domain/carousel-greed.go:665-667 | where no hop has an edge in the other direction, the latencies of the edges of a kept path add up to at most the destination's bound |
| Carousel.UsedIsLive | control-plane/routing/core-domain/carousel-greed.go:293-333 | a path counts as used exactly if a live one has its hops, for names without -> |
| Carousel.GraphIsReflow | control-plane/routing/core-domain/carousel-greed.go:742-777 | without bans the network is determined by the live paths: the idle one with a unit for each path over an edge |
| Carousel.Run.Find | control-plane/routing/core-domain/carousel-greed.go:690-732 | the path returned is a feasible walk of the present network at its exact cost; the first attempt gives a fastest unused one, none exactly if none exists; later attempts any feasible one, none exactly if none exists |
| Carousel.Run.Add | control-plane/routing/core-domain/carousel-greed.go:329-333 | the list grows by the path, its unit of flow is allocated, and flow, used paths, counters and paths still agree |
| Carousel.Run.DropOldest | control-plane/routing/core-domain/carousel-greed.go:395-402 | the oldest path leaves, its unit is released, and the books still agree |
| Carousel.Run.FillDestination | control-plane/routing/core-domain/carousel-greed.go:297-335 | up to two new paths: the first a fastest unused one, missing exactly if none exists; the second any unused feasible one on the network with the first, missing only if nothing is feasible or a path in use is |
| Carousel.Run.Fill | control-plane/routing/core-domain/carousel-greed.go:286-346 | every destination in turn is served that way from the list before it, and quotas are kept |
| Carousel.FilledNothing | control-plane/routing/core-domain/carousel-greed.go:340-346 | this leaves no path exactly when no destination can be served on the idle network |
| Carousel.Run.RetireHalf | control-plane/routing/core-domain/carousel-greed.go:362-378 | exactly the older half of the list is retired |
| Carousel.Run.Ban | control-plane/routing/core-domain/carousel-greed.go:404-416 | exactly the edges of a path with a key chosen most often so far and the retired path's first edge are banned, and no flow changes |
| Carousel.PipedIsInjective | control-plane/routing/core-domain/carousel-greed.go:723-723 | paths of names without bars have equal keys exactly if they are equal |
| Carousel.BannedIsMostChosen | control-plane/routing/core-domain/carousel-greed.go:199-216 | so the path whose edges are banned occurs in the history, counted by its hops, as often as any |
| Carousel.BansAreCharged | control-plane/routing/core-domain/carousel-greed.go:553-583 | a walk costs 100 more for each of its steps over a banned edge than without the bans |
| Carousel.BansShutOut | control-plane/routing/core-domain/carousel-greed.go:553-583 | with a latency bound below 100 no feasible path takes a banned edge |
| Carousel.Run.Replace | control-plane/routing/core-domain/carousel-greed.go:418-459 | one new path, feasible on the banned network and a fastest one on the first turn, to a destination below its quota; none only if every such destination is given up: nothing unused on the first turn, later nothing feasible or a path in use met |
| Carousel.Run.Turn | control-plane/routing/core-domain/carousel-greed.go:386-462 | one turn drops the oldest path and replaces it that way, on the network with the bans; books and quotas hold, no ban is left, and the history grows by the new path |
| Carousel.PathAccumulator.GetMostFrequent | control-plane/routing/core-domain/carousel-greed.go:199-216 | a path chosen most often, as it was chosen last, none exactly when nothing was, for every map order |
| Carousel.UnbanAll | control-plane/routing/core-domain/carousel-greed.go:796-804 | all bans are lifted and no flow changes |
| CarouselSolver.ThetaA | control-plane/routing/core-domain/carousel-greed.go:91-105 | between 0 and 1; 1 exactly up to the safe load, 0 exactly from the hot load on |
| CarouselSolver.ThetaAFalls | control-plane/routing/core-domain/carousel-greed.go:91-105 | more load never leaves more capacity |
| CarouselSolver.ThetaAIsLinear | control-plane/routing/core-domain/carousel-greed.go:91-105 | between safe and hot load equal steps of load take equal shares of capacity; nothing is left exactly from the hot load on, or from 60.001 if that is more |
| CarouselSolver.CapacityByLoad | control-plane/routing/core-domain/carousel-greed.go:507-536 | an edge starts with full capacity exactly up to load 60, with none exactly from the hot load on, and linearly less in between |
| CarouselSolver.HotEdgeIsClosed | control-plane/routing/core-domain/carousel-greed.go:553-567 | whatever flows, no search goes forward along an edge at the hot load or above |
| CarouselSolver.BuildResidualGraph | control-plane/routing/core-domain/carousel-greed.go:507-536 | one idle, unbanned edge per ordered pair, with the capacities of the last edge listed for it, effCap within capacity |
| CarouselSolver.ComputeBound | control-plane/routing/core-domain/carousel-greed.go:108-139 | one and a half times the average cost of the up to three distinct paths the k-shortest solver finds, fewer only if they are all there are, or 100 exactly if the destination is out of reach |
| CarouselSolver.BoundAdmitsCheapest | control-plane/routing/core-domain/carousel-greed.go:107-139 | the bound never shuts out the cheapest path it came from: unless that has more than 30 nodes or an overloaded edge, the destination can be served exactly if the start has an edge, which it has unless it is the destination |
| CarouselSolver.Compare | control-plane/routing/core-domain/carousel-greed.go:464-476 | the kept list is always the first best-scored one |
| CarouselSolver.Optimise | control-plane/routing/core-domain/carousel-greed.go:348-477 | there are twice as many turns as paths filled, unless one leaves nothing; each starts from the list before it, the first from the younger half; every scored list keeps bounds, quotas and capacities; the result is the first of greatest score |
| CarouselSolver.TurnBansMostChosen | control-plane/routing/core-domain/carousel-greed.go:386-462 | over every run, for names without bars, each turn looks for its replacement on the network where exactly the edges of a path chosen as often as any and the retired path's first edge are banned |
| CarouselSolver.LiveWereChosen | control-plane/routing/core-domain/carousel-greed.go:348-353 | every path of every list scored was entered in the history |
| CarouselSolver.ValidEndsAt | control-plane/routing/core-domain/carousel-greed.go:247-255 | the known destinations are served in the order of the request, one entry for each time they are asked for |
| CarouselSolver.ValidEndsCount | control-plane/routing/core-domain/carousel-greed.go:247-255 | a known destination is kept as often as it is asked for, an unknown one never |
| CarouselSolver.ComputingMulti | control-plane/routing/core-domain/carousel-greed.go:222-505 | end to end: an error exactly when the start is unknown or no known destination can be served on the idle network; otherwise the quotas were filled, the carousel turned, and the answer is the first best-scored list with the latencies of its walks; no destination gets more than two paths for each time the caller asked for it, and each path is simple, of at most 30 nodes, ends at a requested destination and has the cost of its steps as latency, within the bound |
| RandomDfs.DfsRandomPath | control-plane/routing/core-domain/onewan-multi.go:353-406 | for every edge order a simple path within the hop limit whose latency is the sum over its edges; nil exactly when there is none |
| RandomDfs.Walker.Dfs | control-plane/routing/core-domain/onewan-multi.go:358-396 | a failed call restores hops and visited set and rules out every continuation |
| RandomDfs.RandomDfsPaths | control-plane/routing/core-domain/onewan-multi.go:316-350 | at most maxPaths distinct paths of at most 15 edges, cheapest first, and at least one whenever one exists |
| GraphManager.EdgeRisk | control-plane/routing/graph/update-graph.go:174-226 | the edge weight is never negative; what it grows with is said by the next rows |
| GraphManager.LatencyRaisesRisk | control-plane/routing/graph/update-graph.go:211-217 | of two latencies the longer has the greater weight, unless neither is above zero, when both weigh the same |
| GraphManager.PressureRaisesRisk | control-plane/routing/graph/update-graph.go:194-200 | of two pressures the higher has the greater weight, unless both are below 50, when both weigh the same |
| GraphManager.RiskInUnits | control-plane/routing/graph/update-graph.go:181-217 | in units of 60 and 150 the square of the pressure and the power 3/2 of the latency weigh half each |
| GraphManager.LossIsIgnored | control-plane/routing/graph/update-graph.go:190-218 | packet loss has no influence on it |
| GraphManager.Manager.AddLink | control-plane/routing/graph/update-graph.go:109-148 | an unknown node target changes nothing; a known edge changes only its weight; a new edge gets its endpoints, weight, load and latency |
| GraphManager.Manager.AddNode | control-plane/routing/graph/update-graph.go:101-151 | the graph is again what the events have reported; no edge disappears, old edges keep load and latency |
| GraphManager.Manager.RemoveNode | control-plane/routing/graph/update-graph.go:68-79 | exactly the node and the edges at it go, and the graph is again what the events have reported |
| GraphManager.Manager.GetEdges | control-plane/routing/graph/update-graph.go:81-89 | every edge once, in any order |
| GraphManager.ListIsOnePerPair | control-plane/routing/graph/update-graph.go:136-147 | at most one edge for each ordered pair |
| GraphManager.GraphIsClosed | control-plane/routing/graph/update-graph.go:68-151 | every edge is keyed by its endpoints, starts at a known node, ends at a known node or a reported origin, and has a weight that is not negative |
| GraphManager.KnownIff | control-plane/routing/graph/update-graph.go:101-107 | a node is known exactly if the last event about it adds it, and as that event reports it |
| GraphManager.EdgeStandsIff | control-plane/routing/graph/update-graph.go:68-148 | there is an edge exactly if some link told of it that led to an origin or to a node known then, and neither end has been removed since |
| GraphManager.WeightIsNewest | control-plane/routing/graph/update-graph.go:109-148 | its weight is the risk of the last such link of all, with the pressure its target had last reported by then, none for an origin |
| GraphManager.Maintain | control-plane/routing/graph/update-graph.go:33-151 | after every sequence of reports and removals: the nodes reported and not removed since; an edge exactly if it was reported and neither endpoint removed since, with load and latency of its first report and the weight of its newest |
| GraphManager.Route | control-plane/routing/routing.go:37-67 | a weight-mode query on a maintained graph returns distinct simple paths with sums over their hops, all of them if fewer than k, k cheapest ones if no search is cut too early |
| GraphManager.RouteAfter | control-plane/routing/routing.go:37-67 | from telemetry to routes: after any events with ordinary names a query is answered that way on exactly the edges reported |
| TunnelPacket.RoundTripIff | data-proxy/tunnel-packet/tunnel-packet.go:86-201 | what was packed is parsed back exactly when the payload fits its 16-bit length and does not end in an empty sub-packet; the header always is |
| TunnelPacket.DecodeEncode | data-proxy/tunnel-packet/tunnel-packet.go:178-198 | a payload of at most 65535 bytes is read back but for an empty last sub-packet |
| TunnelPacket.CutPayloadDiffers | data-proxy/tunnel-packet/tunnel-packet.go:104-104 | a payload whose length wrapped never reads back as it was |
| TunnelPacket.HeadRoundTrip | data-proxy/tunnel-packet/tunnel-packet.go:108-147 | header fields written are header fields read |
| TunnelPacket.NetworkOrder | data-proxy/tunnel-packet/tunnel-packet.go:95-120 | numbers are written highest byte first |
| TunnelPacket.WireExample | data-proxy/tunnel-packet/tunnel-packet.go:12-120 | the bytes of one packet, written out |
| TunnelPacket.Packet.AppendUserPacket | data-proxy/tunnel-packet/tunnel-packet.go:86-106 | succeeds exactly when the sub-packet fits; then the payload is the old one followed by it and the length field its length modulo 65536, otherwise nothing changes |
| TunnelPacket.Packet.SerializeHead | data-proxy/tunnel-packet/tunnel-packet.go:108-120 | the 22 header bytes are written and the rest of the buffer is untouched |
| TunnelPacket.Packet.Address | data-proxy/aggregator/aggregator.go:208-214 | hops go to the first four slots, position 1, port and protocol |
| TunnelPacket.Packet.Reset | data-proxy/aggregator/aggregator.go:358-358 | the payload is gone and everything else stays, the length field too |
| TunnelPacket.Packet.Emit | data-proxy/aggregator/aggregator.go:352-354 | the bytes cut for sending are header, padding and as much of the payload as the length field says |
| TunnelPacket.Rounds | data-proxy/aggregator/aggregator.go:350-361 | one packet used for any number of rounds of appending, sending and resetting: each round sends the wire form of its own sub-packets, as far as they fit, and a round without any sends the bytes before once more |
| TunnelPacket.RoundIsRead | data-proxy/aggregator/aggregator.go:350-361 | each such round is parsed back if the buffer is at most 65559 bytes, but for an empty last sub-packet |
| TunnelPacket.Parse | data-proxy/tunnel-packet/tunnel-packet.go:150-201 | computes the parse the round trip is stated about, with its error cases |
| TunnelPacket.AdvanceRawHop | data-proxy/tunnel-packet/tunnel-packet.go:68-72 | raises the position byte below 3 and changes nothing else |
| Forwarding.HandleQUICPacket | data-proxy/tunnel-handler.go:16-113 | drop, forward, submit to origin or deliver, as a function of the bytes; only a forwarded packet is changed |
| Forwarding.RequestRoutedIff | data-proxy/tunnel-handler.go:36-83 | a request of nonzero hops visits exactly the middle hops and submits every sub-packet for the last hop exactly when it has 3 or 4 hops and a port |
| Forwarding.ResponseRouted | data-proxy/tunnel-handler.go:84-112 | the response retraces the hops to the ingress, which delivers every sub-packet |
| Forwarding.RequestAndResponse | data-proxy/tunnel-handler.go:36-112 | both ways together, from the bytes sent, the response addressed from what the request's tasks carry |
| Forwarding.ResponseRoute | data-proxy/backsourcer/backsourcer.go:127-150 | the hops of the response are the nonzero hops backwards without the origin; a missing second hop is out of range |
| Forwarding.ResponseHopsOfRoute | data-proxy/backsourcer/backsourcer.go:127-137 | for a route of 3 or 4 hops that is the route reversed without its origin |
| Forwarding.DropZerosKeepsRest | data-proxy/backsourcer/backsourcer.go:127-137 | of any hop slots exactly the empty ones are dropped |
| Forwarding.ForwardRaises | data-proxy/tunnel-handler.go:78-79 | forwarding raises the position by one, except at 255, where the packet goes on unchanged |
| Forwarding.PanicIff | data-proxy/tunnel-handler.go:43-106 | exactly which packets index a hop out of range |
| DeadlineHeap.MinHeap.Push | data-proxy/aggregator/aggregator.go:60-65 | the item is added, everything in heap order and at its recorded place |
| DeadlineHeap.MinHeap.Pop | data-proxy/aggregator/aggregator.go:67-75 | the first item is taken off and the rest stays in order and in place |
| DeadlineHeap.MinHeap.Remove | data-proxy/aggregator/aggregator.go:415-419 | exactly the item at the given place is taken out |
| DeadlineHeap.MinHeap.Swap | data-proxy/aggregator/aggregator.go:54-58 | two items change places and their records with them |
| DeadlineHeap.MinHeap.FirstIsLeast | data-proxy/aggregator/aggregator.go:338-342 | the first item has the least deadline |
| Aggregator.Worker.HandleMsg | data-proxy/aggregator/aggregator.go:193-330 | a small message and one that must not wait goes out alone under its own header; any other goes last into the batch its request id falls on among those of its key, or into a new one if that has no room, and a batch without a deadline gets one a full wait from now; one too large is lost; nothing else changes and the books balance |
| Aggregator.Worker.PickBatch | data-proxy/aggregator/aggregator.go:227-307 | which batch that is: a known key keeps its list, a new one gets the configured number of batches addressed like this message, and a batch joins the list exactly if the one chosen has no room |
| Aggregator.Worker.SelectBatch | data-proxy/aggregator/aggregator.go:227-283 | the batch chosen by request id among those of the key; a new key gets its configured number, addressed like the message |
| Aggregator.Worker.Enqueue | data-proxy/aggregator/aggregator.go:285-324 | the message is last in its batch and in its packet; the batch keeps its deadline, or gets one a full wait from now exactly if it had none |
| Aggregator.Worker.StartIdle | data-proxy/aggregator/aggregator.go:310-323 | a message too large leaves an empty batch with a deadline a full wait from now |
| Aggregator.Worker.PopDue | data-proxy/aggregator/aggregator.go:334-346 | exactly the due items are taken off, in order of deadline, none twice |
| Aggregator.Worker.CheckTimeout | data-proxy/aggregator/aggregator.go:332-367 | each batch due by now is sent exactly once, in order of deadline, with its messages in order, and emptied; every other batch and its deadline is untouched |
| Aggregator.Worker.Unschedule | data-proxy/aggregator/aggregator.go:415-419 | removal by recorded place removes exactly the items of the evicted batches |
| Aggregator.Worker.EvictKey | data-proxy/aggregator/aggregator.go:413-421 | the key goes with its batches and their items, and what waited is booked as evicted |
| Aggregator.Worker.EvictStaleBatches | data-proxy/aggregator/aggregator.go:391-425 | exactly the keys with a batch neither made nor flushed in the last minute go, with all their batches, deadlines and whatever waits in them |
| Batches.DueIsSynced | data-proxy/aggregator/aggregator.go:316-361 | a batch with a deadline has a packet whose payload and length field are those of what waits in it, also after earlier packets in the same buffer |
| Batches.SentIsRead | data-proxy/aggregator/aggregator.go:352-356 | the bytes sent give back the header of the packet's route, and the messages exactly if they fit the length field and the last is not empty |
| Aggregator.RunWorker | data-proxy/aggregator/aggregator.go:193-425 | over every run each event has the effect above; arrived = sent + waiting + evicted + too large as multisets; every packet sent and every batch holds messages of one key in order of arrival, and every packet reads back; if all messages fit, a batch has a deadline exactly when it holds data; without eviction nothing is evicted |
| BatchRuns.OnTime | data-proxy/aggregator/aggregator.go:332-361 | over every run whose clock does not run backwards, what still waits arrived less than the configured wait before any timeout pass made so far |
| BatchRuns.DeadlinesOfRun | data-proxy/aggregator/aggregator.go:310-361 | over every run of messages that fit, a batch is due exactly if its first message has waited as long as configured |
| BatchRuns.SentAtOnceIff | data-proxy/aggregator/aggregator.go:200-225 | a message leaves at once exactly if it has fewer than 128 bytes, the wait is at most 20 ms, or it must not wait and fits; it is lost exactly if it is none of the first two and does not fit |
| BatchRuns.BatchesOfKey | data-proxy/aggregator/aggregator.go:227-309 | a new key gets the number of batches configured for its port, or one; in a known key a message goes to the batch its request id falls on, or to one more if that has no room |
| BatchRuns.AgeOfBatch | data-proxy/aggregator/aggregator.go:245-361 | over every run the time kept in a batch is that of the message that made it or of the timeout pass that last sent it |
| BatchRuns.DueIsSent | data-proxy/aggregator/aggregator.go:346-366 | the messages of a batch due at a pass are among the packets it sends, and leave the batch |
| BatchRuns.KeySurvivesIff | data-proxy/aggregator/aggregator.go:391-425 | over every run a key survives an eviction pass, with all that waits under it, exactly if each of its batches was made or sent at most 60 seconds before |
| BatchRuns.EvictedWereStale | data-proxy/aggregator/aggregator.go:391-425 | over every run, a message thrown away waited at some eviction pass under a key with a batch that an event over 60 seconds before made or last sent |
| BatchRuns.EvictedOnArrivalIff | data-proxy/aggregator/aggregator.go:391-425 | a key whose batch was sent before is thrown away with a message that has arrived since exactly if that was over 60 seconds ago |
| BatchRuns.JustArrivedIsEvicted | data-proxy/aggregator/aggregator.go:391-425 | such a message may have come in a millisecond before |
| BatchRuns.InUseIsKept | data-proxy/aggregator/aggregator.go:359-405 | a key sent 59.96 seconds ago stays, with its new message |
| BatchRuns.OwnHeaderIff | data-proxy/aggregator/aggregator.go:285-309 | a message that waits gets its own header and next hop exactly if its batch is new or has its address and next hop already |
| BatchRuns.SentUnderTheFirst | data-proxy/server/tcp-server.go:317-333 | two messages with one key that fit one packet leave together under the header and to the next hop of the first, whatever port the second is for |
| BatchRuns.SentToAnotherPort | data-proxy/server/tcp-server.go:317-333 | with a key made of the hops alone a message for port 443 is sent to port 80 |
| BatchRuns.OwnRoute | data-proxy/aggregator/aggregator.go:193-367 | over every run in which equal keys come with equal routes and next hops, every packet carries the route and next hop of each message in it |
| Delivery.SentArrives | data-proxy/tunnel-handler.go:36-83 | a packet the worker sends for a route of 3 or 4 nonzero hops with a port visits the middle hops and is submitted for the last |
| Delivery.MessageReachesOrigin | data-proxy/tunnel-handler.go:36-83 | over every such run each message sent, if its packet can be read, is submitted unchanged to its own origin and port over its own hops |
| Waiters.SameIDIff | data-proxy/util/req-id.go:10-22 | two ids are equal exactly when the address bytes agree and the counters are a multiple of 2^24 apart |
| Waiters.NearIDsDiffer | data-proxy/util/req-id.go:10-22 | ids of requests less than 2^24 apart differ |
| Waiters.Disaggregator.Register | data-proxy/disaggregator/disaggregator.go:22-36 | the new channel waits under the id and nothing else changes |
| Waiters.Disaggregator.Cleanup | data-proxy/disaggregator/disaggregator.go:29-34 | whatever waits under the id is removed, this channel is closed, and no closed channel waits |
| Waiters.Disaggregator.Deliver | data-proxy/disaggregator/disaggregator.go:39-47 | the data goes to the open channel under the id, or nowhere |
| Waiters.Serve | data-proxy/disaggregator/disaggregator.go:22-47 | over every run, whatever ids collide: who waits under an id is the last request started with it unless one with that id was cleaned up since, and each channel is sent what came in while its request waited |
| Waiters.WaiterIsLast | data-proxy/disaggregator/disaggregator.go:22-37 | whoever waits under an id has that id and is the last request to have it |
| Waiters.OwnAnswers | data-proxy/disaggregator/disaggregator.go:22-47 | a request is sent exactly the answers to it until its cleanup, and waits under its id until then, if responses and cleanups under its own id come before 2^24 later requests; other ids do not matter |
| Waiters.OwnAnswersOnly | data-proxy/disaggregator/disaggregator.go:39-47 | an answer in a request's channel answers that request |

## Left out

- `computePercentile`: the hot load is an arbitrary parameter of `ComputingMulti`; every result holds for any value of it.
- `beamSearchSelection` and `generateCandidatePaths` of the ONE-WAN solver: random selection and filters over the paths `RandomDfsPaths` returns.
- `selectTopPaths` of both solvers: a filter and a sort.
- EdgeRisk: power and exponential are parameters, of which only their signs are used, and that the power grows with its base.
- Origin addresses: the text `ip:port` of an origin is one string, without the decimal printing of the port.
- Batches and heap items of the aggregator are values in maps under their addresses, not heap objects; the packet of a batch is a `Frame`.  A worker with a buffer below 24 bytes, whose packets cannot be serialised, is excluded.
- Interleavings inside one worker or table method: the code releases its locks between reading and updating.
- Waiters.Disaggregator.Deliver: a channel holds one response and a second delivery waits for room; the model queues it, so it does not say when a delivery is delayed.
- The counter of request ids is unbounded: it wraps at 2^64, a multiple of 2^24, so ids are the same.
- Floating-point rounding and infinities as data.
- Sockets, QUIC, etcd, HTTP handlers, configuration, logging, telemetry collection and the edge-domain scorers.
- `aggregator_v2.go` and `tcp_pool.go`: not started by the programs.
