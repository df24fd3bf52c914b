/** Responses find their requesters: short request ids from a wrapping counter, and the table
    of channels waiting under those ids. */
module Waiters {
  import opened Optional
  import opened TunnelPacket

  const SEQ_RANGE: nat := 0x100_0000

  // ---------- Request ids ----------

  /** `GenShortReqID` for the n-th request of this process: the last byte of the client's
      address above the low 24 bits of the counter. */
  function ReqID(seg: Byte, n: nat): U32 {
    seg as int * SEQ_RANGE + n % SEQ_RANGE
  }

  /** Two ids are equal exactly when the clients share their last byte and the counters are a
      multiple of 2^24 apart. */
  lemma SameIDIff(s: Byte, m: nat, t: Byte, n: nat)
    requires m <= n
    ensures ReqID(s, m) == ReqID(t, n) <==> s == t && (n - m) % SEQ_RANGE == 0
  {
    Digits(s, m % SEQ_RANGE, t, n % SEQ_RANGE);
    SameRemainderIff(m, n);
  }

  lemma Digits(s: Byte, x: nat, t: Byte, y: nat)
    requires x < SEQ_RANGE && y < SEQ_RANGE
    ensures s as int * SEQ_RANGE + x == t as int * SEQ_RANGE + y <==> s == t && x == y
  {
  }

  lemma SameRemainderIff(m: nat, n: nat)
    requires m <= n
    ensures m % SEQ_RANGE == n % SEQ_RANGE <==> (n - m) % SEQ_RANGE == 0
  {
  }

  /** Ids of requests less than 2^24 apart differ. */
  lemma NearIDsDiffer(s: Byte, m: nat, t: Byte, n: nat)
    requires m != n && m < n + SEQ_RANGE && n < m + SEQ_RANGE
    ensures ReqID(s, m) != ReqID(t, n)
  {
    if m < n {
      SameIDIff(s, m, t, n);
    } else {
      SameIDIff(t, n, s, m);
    }
  }

  // ---------- The table ----------

  /** What a channel was sent, each piece with the request it answers, and whether it is closed. */
  datatype Channel = Channel(received: seq<Answer>, closed: bool)

  datatype Answer = Answer(request: nat, data: seq<Byte>)

  class Disaggregator {
    var waiters: map<U32, nat>
    var channels: map<nat, Channel>

    constructor ()
      ensures waiters == map[] && channels == map[]
    {
      waiters, channels := map[], map[];
    }

    /** No channel waits after it was closed, so a delivery never sends on a closed one. */
    ghost predicate Valid()
      reads this
    {
      forall id :: id in waiters ==> waiters[id] in channels && !channels[waiters[id]].closed
    }

    method Register(userID: U32, ch: nat)
      requires Valid() && ch !in channels
      modifies this
      ensures Valid()
      ensures channels == old(channels)[ch := Channel([], false)] && waiters == old(waiters)[userID := ch]
    {
      channels := channels[ch := Channel([], false)];
      waiters := waiters[userID := ch];
    }

    /** The cleanup handed out with channel ch.  It removes whatever waits under the id. */
    method Cleanup(userID: U32, ch: nat)
      requires Valid() && ch in channels && forall id :: id in waiters && waiters[id] == ch ==> id == userID
      modifies this
      ensures Valid()
      ensures waiters == old(waiters) - {userID}
      ensures channels == old(channels)[ch := old(channels)[ch].(closed := true)]
    {
      waiters := waiters - {userID};
      channels := channels[ch := channels[ch].(closed := true)];
    }

    method Deliver(userID: U32, a: Answer)
      requires Valid()
      modifies this
      ensures Valid() && waiters == old(waiters)
      ensures channels == if userID !in waiters then old(channels)
                          else var ch := waiters[userID];
                               old(channels)[ch := old(channels)[ch].(received := old(channels)[ch].received + [a])]
    {
      if userID in waiters {
        var ch := waiters[userID];
        channels := channels[ch := channels[ch].(received := channels[ch].received + [a])];
      }
    }
  }

  // ---------- Runs ----------

  /** A request starts, a response to request m comes in, request m is cleaned up. */
  datatype Event = Start(seg: Byte) | Response(m: nat, data: seq<Byte>) | Finish(m: nat)

  /** Requests started by these events, as the address bytes of their clients. */
  function Started(events: seq<Event>): seq<Byte> {
    if events == [] then []
    else
      var e := events[|events| - 1];
      Started(events[..|events| - 1]) + (if e.Start? then [e.seg] else [])
  }

  /** The id of request m; the counter is raised before it is read. */
  function IdOf(segs: seq<Byte>, m: nat): U32
    requires m < |segs|
  {
    ReqID(segs[m], m + 1)
  }

  ghost predicate Finished(events: seq<Event>, m: nat) {
    exists i :: 0 <= i < |events| && events[i] == Finish(m)
  }

  /** An event is about a request that has started, and a request is cleaned up once. */
  ghost predicate OrderlyStep(before: seq<Event>, e: Event) {
    match e
    case Start(_) => true
    case Response(m, _) => m < |Started(before)|
    case Finish(m) => m < |Started(before)| && !Finished(before, m)
  }

  ghost predicate Orderly(events: seq<Event>) {
    forall i :: 0 <= i < |events| ==> OrderlyStep(events[..i], events[i])
  }

  /** The event is a response to request m or its cleanup. */
  ghost predicate Concerns(e: Event, m: nat) {
    (e.Response? && e.m == m) || e == Finish(m)
  }

  // ---------- What a run does ----------

  /** Who waits under an id: the last request that started with it, unless some request with
      that id was cleaned up since. */
  ghost function Waiting(events: seq<Event>, id: U32): Option<nat> {
    if events == [] then None
    else
      var before, e := events[..|events| - 1], events[|events| - 1];
      var segs := Started(before);
      match e
      case Start(seg) => if ReqID(seg, |segs| + 1) == id then Some(|segs|) else Waiting(before, id)
      case Response(_, _) => Waiting(before, id)
      case Finish(m) => if m < |segs| && IdOf(segs, m) == id then None else Waiting(before, id)
  }

  /** What the channel of request c is sent: the responses that come in while it waits under
      their id. */
  ghost function Received(events: seq<Event>, c: nat): seq<Answer> {
    if events == [] then []
    else
      var before, e := events[..|events| - 1], events[|events| - 1];
      var segs := Started(before);
      Received(before, c) +
      (if e.Response? && e.m < |segs| && Waiting(before, IdOf(segs, e.m)) == Some(c) then [Answer(e.m, e.data)] else [])
  }

  ghost predicate TableHolds(waiters: map<U32, nat>, events: seq<Event>) {
    forall id :: Waiting(events, id) == if id in waiters then Some(waiters[id]) else None
  }

  ghost predicate ChannelsHold(channels: map<nat, Channel>, events: seq<Event>) {
    && (forall m :: m in channels <==> 0 <= m < |Started(events)|)
    && (forall m :: m in channels ==> channels[m] == Channel(Received(events, m), Finished(events, m)))
  }

  ghost predicate Served(d: Disaggregator, events: seq<Event>)
    reads d
  {
    d.Valid() && TableHolds(d.waiters, events) && ChannelsHold(d.channels, events)
  }

  lemma Unfold(events: seq<Event>, e: Event)
    ensures Started(events + [e]) == Started(events) + (if e.Start? then [e.seg] else [])
    ensures forall m :: Finished(events + [e], m) <==> Finished(events, m) || e == Finish(m)
  {
    var all := events + [e];
    assert all[..|events|] == events;
    forall m
      ensures Finished(all, m) <==> Finished(events, m) || e == Finish(m)
    {
      if Finished(events, m) {
        var i :| 0 <= i < |events| && events[i] == Finish(m);
        assert all[i] == Finish(m);
      }
      if e == Finish(m) {
        assert all[|events|] == Finish(m);
      }
    }
  }

  lemma {:induction false} StrangersReceiveNothing(events: seq<Event>, c: nat)
    requires Orderly(events) && c >= |Started(events)|
    ensures Received(events, c) == [] && !Finished(events, c) && forall id :: Waiting(events, id) != Some(c)
  {
    if events != [] {
      var n := |events| - 1;
      OrderlyPrefix(events);
      Unfold(events[..n], events[n]);
      assert events == events[..n] + [events[n]] && OrderlyStep(events[..n], events[n]);
      StrangersReceiveNothing(events[..n], c);
    }
  }

  lemma OrderlyPrefix(events: seq<Event>)
    requires Orderly(events) && events != []
    ensures Orderly(events[..|events| - 1])
  {
    var p := events[..|events| - 1];
    forall i | 0 <= i < |p|
      ensures OrderlyStep(p[..i], p[i])
    {
      assert p[..i] == events[..i] && OrderlyStep(events[..i], events[i]);
    }
  }

  /** Whoever waits under an id has that id and is the last one to have it. */
  lemma {:induction false} WaiterIsLast(events: seq<Event>, id: U32)
    ensures var segs := Started(events);
            match Waiting(events, id)
            case None => true
            case Some(c) => c < |segs| && IdOf(segs, c) == id && forall r :: c < r < |segs| ==> IdOf(segs, r) != id
  {
    if events != [] {
      hide IdOf, ReqID;
      var n := |events| - 1;
      WaiterIsLast(events[..n], id);
      if events[n].Start? {
        var segs, seg := Started(events[..n]), events[n].seg;
        SameIds(segs, seg);
        assert Started(events) == segs + [seg];
        assert Waiting(events, id) == if ReqID(seg, |segs| + 1) == id then Some(|segs|) else Waiting(events[..n], id);
      } else {
        assert Started(events) == Started(events[..n]);
      }
    }
  }

  lemma SameIds(segs: seq<Byte>, seg: Byte)
    ensures forall m :: 0 <= m < |segs| ==> IdOf(segs + [seg], m) == IdOf(segs, m)
    ensures IdOf(segs + [seg], |segs|) == ReqID(seg, |segs| + 1)
  {
  }

  // ---------- A run ----------

  /** Every orderly run, whatever ids collide: the table holds whoever waits, and each channel
      what it was sent. */
  method Serve(events: seq<Event>) returns (d: Disaggregator)
    requires Orderly(events)
    ensures fresh(d) && Served(d, events)
  {
    hide TableHolds, ChannelsHold, OrderlyStep, Started;
    d := new Disaggregator();
    var segs: seq<Byte> := [];
    NothingYet();
    assert events[..0] == [];
    for i := 0 to |events|
      invariant fresh(d) && Served(d, events[..i]) && segs == Started(events[..i])
    {
      var e := events[i];
      assert events[..i + 1] == events[..i] + [e] && OrderlyStep(events[..i], events[i]);
      OrderlyUpTo(events, i);
      segs := ServeOne(d, events[..i], segs, e);
    }
    assert events[..|events|] == events;
  }

  lemma OrderlyUpTo(events: seq<Event>, n: nat)
    requires Orderly(events) && n <= |events|
    ensures Orderly(events[..n])
  {
    forall i | 0 <= i < n
      ensures OrderlyStep(events[..n][..i], events[..n][i])
    {
      assert events[..n][..i] == events[..i] && OrderlyStep(events[..i], events[i]);
    }
  }

  lemma NothingYet()
    ensures Started([]) == [] && TableHolds(map[], []) && ChannelsHold(map[], [])
  {
  }

  method ServeOne(d: Disaggregator, ghost events: seq<Event>, segs: seq<Byte>, e: Event) returns (segs': seq<Byte>)
    requires Served(d, events) && segs == Started(events) && Orderly(events) && OrderlyStep(events, e)
    modifies d
    ensures Served(d, events + [e]) && segs' == Started(events + [e])
  {
    hide Started, IdOf, Finished, Waiting, Received, Orderly;
    segs' := segs;
    Unfold(events, e);
    StepTable(events, e);
    StepChannels(events, e);
    match e {
      case Start(seg) =>
        StrangersReceiveNothing(events, |segs|);
        SameIds(segs, seg);
        segs' := segs + [seg];
        d.Register(IdOf(segs', |segs|), |segs|);
      case Response(m, data) =>
        d.Deliver(IdOf(segs, m), Answer(m, data));
      case Finish(m) =>
        forall id | id in d.waiters && d.waiters[id] == m
          ensures id == IdOf(segs, m)
        {
          WaiterIsLast(events, id);
        }
        d.Cleanup(IdOf(segs, m), m);
    }
  }

  lemma StepTable(events: seq<Event>, e: Event)
    ensures forall id ::
              Waiting(events + [e], id) ==
              var segs := Started(events);
              match e
              case Start(seg) => if ReqID(seg, |segs| + 1) == id then Some(|segs|) else Waiting(events, id)
              case Response(_, _) => Waiting(events, id)
              case Finish(m) => if m < |segs| && IdOf(segs, m) == id then None else Waiting(events, id)
  {
    assert (events + [e])[..|events|] == events;
  }

  lemma StepChannels(events: seq<Event>, e: Event)
    ensures forall c: nat ::
              Received(events + [e], c) ==
              var segs := Started(events);
              Received(events, c) +
              (if e.Response? && e.m < |segs| && Waiting(events, IdOf(segs, e.m)) == Some(c) then [Answer(e.m, e.data)] else [])
  {
    assert (events + [e])[..|events|] == events;
  }

  // ---------- Every request gets its own answers ----------

  /** The answers to request m among the events, until it was cleaned up. */
  ghost function Answers(events: seq<Event>, m: nat): seq<Answer> {
    if events == [] then []
    else
      var n := |events| - 1;
      var e := events[n];
      Answers(events[..n], m) +
      (if e.Response? && e.m == m && !Finished(events[..n], m) then [Answer(m, e.data)] else [])
  }

  /** Responses to requests with this id, and their cleanups, come before 2^24 more requests
      have started. */
  ghost predicate TimelyUnder(events: seq<Event>, id: U32) {
    forall i :: 0 <= i < |events| ==> TimelyStep(events[..i], events[i], id)
  }

  ghost predicate TimelyStep(before: seq<Event>, e: Event, id: U32) {
    var segs := Started(before);
    forall m: nat :: Concerns(e, m) && m < |segs| && IdOf(segs, m) == id ==> |segs| <= m + SEQ_RANGE
  }

  lemma TimelyPrefix(events: seq<Event>, id: U32)
    requires TimelyUnder(events, id) && events != []
    ensures TimelyUnder(events[..|events| - 1], id)
  {
    hide TimelyStep;
    var p := events[..|events| - 1];
    forall i | 0 <= i < |p|
      ensures TimelyStep(p[..i], p[i], id)
    {
      assert p[..i] == events[..i] && TimelyStep(events[..i], events[i], id);
    }
  }

  /** Recent requests have ids of their own. */
  lemma RecentIsLast(segs: seq<Byte>, m: nat, r: nat)
    requires m < r < |segs| <= m + SEQ_RANGE
    ensures IdOf(segs, m) != IdOf(segs, r)
  {
    NearIDsDiffer(segs[m], m + 1, segs[r], r + 1);
  }

  /** Where request m, of this id, stands after these events. */
  ghost predicate Stands(events: seq<Event>, id: U32, m: nat) {
    var n := |Started(events)|;
    && Received(events, m) == Answers(events, m)
    && (m < n <= m + SEQ_RANGE && !Finished(events, m) ==> Waiting(events, id) == Some(m))
    && (Finished(events, m) ==> forall k :: Waiting(events, k) != Some(m))
  }

  /** A request is sent exactly its own answers, as long as the events that share its id are
      timely; what happens under other ids does not matter. */
  lemma {:induction false} OwnAnswers(events: seq<Event>, id: U32, m: nat)
    requires Orderly(events) && TimelyUnder(events, id)
    requires m < |Started(events)| ==> IdOf(Started(events), m) == id
    ensures Stands(events, id, m)
  {
    if events != [] {
      var n := |events| - 1;
      var before, e := events[..n], events[n];
      assert events == before + [e] && OrderlyStep(events[..n], events[n]) && TimelyStep(events[..n], events[n], id);
      OrderlyPrefix(events);
      TimelyPrefix(events, id);
      Unfold(before, e);
      if e.Start? {
        SameIds(Started(before), e.seg);
      }
      hide Orderly, TimelyUnder;
      OwnAnswers(before, id, m);
      StepStands(before, e, id, m);
    }
  }

  lemma StepStands(events: seq<Event>, e: Event, id: U32, m: nat)
    requires Orderly(events) && OrderlyStep(events, e) && TimelyStep(events, e, id) && Stands(events, id, m)
    requires m < |Started(events + [e])| ==> IdOf(Started(events + [e]), m) == id
    ensures Stands(events + [e], id, m)
  {
    hide Started, Waiting, Received, Finished, Orderly, Answers, IdOf;
    Unfold(events, e);
    StepTable(events, e);
    StepChannels(events, e);
    StepAnswers(events, e, m);
    WaiterIsLast(events, id);
    var segs := Started(events);
    assert !e.Start? ==> Started(events + [e]) == segs && Concerns(e, e.m);
    match e {
      case Start(seg) =>
        SameIds(segs, seg);
        StrangersReceiveNothing(events, |segs|);
        if m < |segs| < m + SEQ_RANGE {
          RecentIsLast(segs + [seg], m, |segs|);
        }
      case Response(r, data) =>
        if m < |segs| {
          MeetsOnly(segs, id, m, r);
          OwnId(events, segs, m);
        } else {
          StrangersReceiveNothing(events, m);
        }
      case Finish(r) =>
        if m < |segs| {
          MeetsOnly(segs, id, m, r);
          OwnId(events, segs, m);
        } else {
          StrangersReceiveNothing(events, m);
        }
    }
  }

  /** A recent request and any other one with its id: the other is older by 2^24 or more. */
  lemma MeetsOnly(segs: seq<Byte>, id: U32, m: nat, r: nat)
    requires m < |segs| && r < |segs| && IdOf(segs, m) == id
    ensures r != m && IdOf(segs, r) == id && |segs| <= r + SEQ_RANGE ==> m < r && |segs| > m + SEQ_RANGE
  {
    if r != m && IdOf(segs, r) == id && |segs| <= r + SEQ_RANGE {
      if r < m {
        RecentIsLast(segs, r, m);
      } else if |segs| <= m + SEQ_RANGE {
        RecentIsLast(segs, m, r);
      }
    }
  }

  /** A request waits under no id but its own. */
  lemma OwnId(events: seq<Event>, segs: seq<Byte>, m: nat)
    requires segs == Started(events) && m < |segs|
    ensures forall k :: Waiting(events, k) == Some(m) ==> k == IdOf(segs, m)
  {
    forall k | Waiting(events, k) == Some(m)
      ensures k == IdOf(segs, m)
    {
      WaiterIsLast(events, k);
    }
  }

  lemma StepAnswers(events: seq<Event>, e: Event, m: nat)
    ensures Answers(events + [e], m) == Answers(events, m) + (if e.Response? && e.m == m && !Finished(events, m) then [Answer(m, e.data)] else [])
  {
    assert (events + [e])[..|events|] == events;
  }

  /** An answer in a request's channel answers that request. */
  lemma {:induction false} OwnAnswersOnly(events: seq<Event>, m: nat, i: nat)
    requires i < |Answers(events, m)|
    ensures Answers(events, m)[i].request == m
    ensures Response(m, Answers(events, m)[i].data) in events
  {
    var n := |events| - 1;
    if i < |Answers(events[..n], m)| {
      OwnAnswersOnly(events[..n], m, i);
    }
  }
}
