/** From the batching worker to the origin: what a run sends takes the way its messages ask
    for. */
module Delivery {
  import opened TunnelPacket
  import opened Batches
  import opened Aggregator
  import opened Forwarding
  import BatchRuns

  /** A packet sent for a route of three or four hops with a port arrives. */
  lemma SentArrives(s: Sent)
    requires SentHolds(s) && Fits(Subs(s.recs)) && Nonzero(s.route.hops) && 3 <= |s.route.hops| <= 4 && s.route.port != 0
    ensures RequestArrives(s.route.hops, HeadFor(s.route, LengthField(Subs(s.recs))), Subs(s.recs), Travel(s.bytes, s.route.hops[1]))
  {
    hide Travel, Encode, Wire, Carries, Padded, Subs;
    WireCarries(HeadFor(s.route, LengthField(Subs(s.recs))), Subs(s.recs), s.bytes);
    RequestRoutedIff(s.route.hops, HeadFor(s.route, LengthField(Subs(s.recs))), Subs(s.recs), s.bytes);
  }

  /** The packet visits exactly the hops the message asks for, and the last of them submits
      the message, unchanged, to the message's own origin and port. */
  ghost predicate Reaches(bytes: seq<Byte>, m: Msg)
    requires |m.route.hops| >= 3
  {
    var hops, way := m.route.hops, Travel(bytes, m.nextHop);
    && way.nodes == hops[1..|hops| - 1] && way.end.ToOrigin? && way.end.udp == !m.route.tcp
    && Task(Padded(hops), m.route.port, m.sub.userID, hops[|hops| - 1], m.sub.data) in way.end.tasks
  }

  /** Where keys tell routes apart, every message sent in a run reaches its own origin. */
  lemma MessageReachesOrigin(cfg: Config, events: seq<Event>, trace: seq<State>, n: nat, i: nat, j: nat)
    requires Trace(cfg, events, trace) && BatchRuns.KeyedByRoute(events) && n <= |events|
    requires i < |trace[n].sent| && j < |trace[n].sent[i].recs| && Fits(Subs(trace[n].sent[i].recs))
    requires var m := trace[n].sent[i].recs[j].msg;
             Nonzero(m.route.hops) && 3 <= |m.route.hops| <= 4 && m.route.port != 0 && m.nextHop == m.route.hops[1]
    ensures Reaches(trace[n].sent[i].bytes, trace[n].sent[i].recs[j].msg)
  {
    hide Stepped, Travel, Fits, BatchRuns.KeyedByRoute, Padded;
    BatchRuns.OwnRoute(cfg, events, trace, n, i, j);
    var p := trace[n].sent[i];
    SentState(trace[n], i);
    SentArrives(p);
    var h := HeadFor(p.route, LengthField(Subs(p.recs)));
    assert TasksOf(h, p.route.hops[|p.route.hops| - 1], Subs(p.recs))[j].data == p.recs[j].msg.sub.data;
  }

  lemma SentState(s: State, i: nat)
    requires StateHolds(s) && i < |s.sent|
    ensures SentHolds(s.sent[i])
  {
    hide SentHolds;
  }
}
