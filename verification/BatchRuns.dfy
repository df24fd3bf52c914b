/** What the steps of the batching worker add up to over a whole run: messages leave in time,
    what is thrown away belonged to a stale key, and a message goes out under its own header
    exactly as far as its key tells routes apart. */
module BatchRuns {
  import opened Optional
  import opened TunnelPacket
  import opened DeadlineHeap
  import opened Batches
  import opened Aggregator

  // ---------- Where a message goes ----------

  /** The batch a message is put in, as it was before. */
  ghost function Base(store: map<nat, Batch>, r: Record, a: nat): Batch {
    if a in store then store[a] else FreshBatch(r.msg, r.at)
  }

  /** Only that batch changes; others may have been made beside it. */
  lemma PutInFacts(cfg: Config, s: State, r: Record, s': State, a: nat)
    requires PutIn(cfg, s, r, s', a)
    ensures a in s'.store && Base(s.store, r, a).key == r.msg.key
    ensures s'.store[a] == (if Misfit(cfg, r.msg) then Base(s.store, r, a) else Held(Base(s.store, r, a), r)).(item := s'.store[a].item)
    ensures Scheduled(s.entries, s'.entries, Base(s.store, r, a).item, s'.store[a].item, a, r.at + cfg.batchTimeout)
    ensures forall x :: x in s.store ==> x in s'.store
    ensures forall x :: x in s'.store && x != a ==> s'.store[x] == Base(s.store, r, x)
    ensures s'.sent == s.sent && s'.evicted == s.evicted
  {
    hide Chosen, Misfit, Scheduled, Held;
  }

  /** A message leaves at once exactly if it has fewer than 128 bytes, the configured wait is at
      most 20 ms, or it must not wait and fits the buffer. */
  lemma SentAtOnceIff(cfg: Config, s: State, r: Record, s': State)
    requires MessageStep(cfg, s, r, s')
    ensures s'.sent != s.sent <==>
            |r.msg.sub.data| < 128 || cfg.batchTimeout <= 20 || (r.msg.emerge && 30 + |r.msg.sub.data| <= cfg.bufferSize)
    ensures s'.rejected != s.rejected <==>
            |r.msg.sub.data| >= 128 && cfg.batchTimeout > 20 && 30 + |r.msg.sub.data| > cfg.bufferSize
  {
    hide Chosen, Filed, Wire;
    OneMoreDiffers(s.rejected, r);
  }

  lemma OneMoreDiffers(b: multiset<Record>, r: Record)
    ensures b + multiset{r} != b
  {
    assert (b + multiset{r})[r] == b[r] + 1;
  }

  ghost predicate ByRequestId(cfg: Config, s: State, r: Record, list: seq<nat>, a: nat)
    requires r.msg.key in s.batches
  {
    var before := s.batches[r.msg.key];
    && before != []
    && var c := before[r.msg.sub.userID % |before|];
       if c in s.store && |s.store[c].frame.payload| + 30 + |r.msg.sub.data| <= cfg.bufferSize then a == c && list == before
       else c in s.store ==> list == before + [a] && a !in s.store
  }

  /** A key seen for the first time gets as many batches as are configured for the port, or one;
      a known key keeps its batches, and a message goes to the one its request id falls on, or
      to one more if that has no room. */
  lemma BatchesOfKey(cfg: Config, s: State, r: Record, s': State, a: nat)
    requires PutIn(cfg, s, r, s', a) && !Small(cfg, r.msg)
    ensures r.msg.key in s'.batches
    ensures var n, p := |s'.batches[r.msg.key]|, r.msg.route.port;
            && (r.msg.key in s.batches ==> ByRequestId(cfg, s, r, s'.batches[r.msg.key], a))
            && (r.msg.key !in s.batches && !Misfit(cfg, r.msg) && p in cfg.batchNum && cfg.batchNum[p] >= 1 ==> n == cfg.batchNum[p])
            && (r.msg.key !in s.batches && !Misfit(cfg, r.msg) && (p !in cfg.batchNum || cfg.batchNum[p] <= 0) ==> n == 1)
  {
    hide Filed;
    if r.msg.key in s.batches {
      var list, before := s'.batches[r.msg.key], s.batches[r.msg.key];
      assert |list| == |before| ==> list == list[..|before|];
      assert |list| == |before| + 1 ==> list == list[..|before|] + [list[|before|]];
      assert list[..|before|][r.msg.sub.userID % |before|] == list[r.msg.sub.userID % |before|];
    } else {
      var c := s'.batches[r.msg.key][r.msg.sub.userID % Configured(cfg, r.msg.route.port)];
      RoomFacts(cfg, r.msg, FrameAt(s.store, c, r.msg), r.at);
    }
  }

  // ---------- In time ----------

  ghost predicate Nondecreasing(events: seq<Event>) {
    forall i, j :: 0 <= i < j < |events| ==> events[i].now <= events[j].now
  }

  /** Messages of a batch are in order of time; no deadline is later than a full wait from
      its first message, nor from the time t of the last event. */
  ghost predicate TimesHold(cfg: Config, s: State, t: int) {
    && (forall a, i :: a in s.store && 0 <= i < |s.store[a].recs| ==> s.store[a].recs[0].at <= s.store[a].recs[i].at <= t)
    && (forall it :: it in s.entries ==> s.entries[it].deadline <= t + cfg.batchTimeout)
    && (forall it :: it in s.entries ==> FirstInTime(cfg, s.store, s.entries[it]))
  }

  ghost predicate FirstInTime(cfg: Config, store: map<nat, Batch>, e: Entry) {
    e.batch in store && store[e.batch].recs != [] ==> e.deadline <= store[e.batch].recs[0].at + cfg.batchTimeout
  }

  lemma StepKeepsTimes(cfg: Config, s: State, e: Event, s': State, t: int)
    requires Linked(s.store, s.entries) && DataHolds(s.store) && TimesHold(cfg, s, t) && Stepped(cfg, s, e, s') && t <= e.now
    ensures TimesHold(cfg, s', e.now)
  {
    hide Linked, DataHolds, TimesHold, MessageStep, TimeoutStep, EvictStep;
    match e {
      case Message(msg, now) => MessageKeepsTimes(cfg, s, Record(msg, now), s', t);
      case Timeout(now) => TimeoutKeepsTimes(cfg, s, now, s', t);
      case Evict(now) => EvictKeepsTimes(cfg, s, now, s', t);
    }
  }

  lemma MessageKeepsTimes(cfg: Config, s: State, r: Record, s': State, t: int)
    requires Linked(s.store, s.entries) && DataHolds(s.store) && TimesHold(cfg, s, t) && MessageStep(cfg, s, r, s') && t <= r.at
    ensures TimesHold(cfg, s', r.at)
  {
    hide Linked, DataHolds, PutIn, SentAlso, Misfit;
    if !Small(cfg, r.msg) && !r.msg.emerge {
      var a :| PutIn(cfg, s, r, s', a);
      PutInKeepsTimes(cfg, s, r, s', t, a);
    }
  }

  lemma PutInKeepsTimes(cfg: Config, s: State, r: Record, s': State, t: int, a: nat)
    requires Linked(s.store, s.entries) && DataHolds(s.store) && TimesHold(cfg, s, t) && PutIn(cfg, s, r, s', a) && t <= r.at
    ensures TimesHold(cfg, s', r.at)
  {
    hide PutIn, Misfit, Linked;
    PutInFacts(cfg, s, r, s', a);
    var b, b' := Base(s.store, r, a), s'.store[a];
    assert b'.recs == b.recs || b'.recs == b.recs + [r];
    forall it | it in s'.entries
      ensures s'.entries[it].deadline <= r.at + cfg.batchTimeout && FirstInTime(cfg, s'.store, s'.entries[it])
    {
      if it in s.entries {
        assert s'.entries[it] == s.entries[it] && FirstInTime(cfg, s.store, s.entries[it]);
        InStore(s.store, s.entries, it);
        assert s.entries[it].batch == a && b.recs != [] ==> b'.recs[0] == b.recs[0];
      } else {
        assert s'.entries[it] == Entry(a, r.at + cfg.batchTimeout) && b.recs == [];
      }
    }
  }

  lemma InStore(store: map<nat, Batch>, entries: map<nat, Entry>, it: nat)
    requires Linked(store, entries) && it in entries
    ensures entries[it].batch in store && store[entries[it].batch].item == Some(it)
  {
  }

  lemma TimeoutKeepsTimes(cfg: Config, s: State, now: int, s': State, t: int)
    requires TimesHold(cfg, s, t) && TimeoutStep(s, now, s') && t <= now
    ensures TimesHold(cfg, s', now)
  {
    hide Flushes;
    var expired :| Expired(s, now, expired) && s' == AfterTimeout(s, now, expired);
    hide Expired;
    forall it | it in s'.entries
      ensures s'.entries[it].deadline <= now + cfg.batchTimeout && FirstInTime(cfg, s'.store, s'.entries[it])
    {
      assert FirstInTime(cfg, s.store, s.entries[it]);
    }
  }

  lemma EvictKeepsTimes(cfg: Config, s: State, now: int, s': State, t: int)
    requires TimesHold(cfg, s, t) && EvictStep(s, now, s') && t <= now
    ensures TimesHold(cfg, s', now)
  {
    hide Pending, StaleKeys;
    forall it | it in s'.entries
      ensures s'.entries[it].deadline <= now + cfg.batchTimeout && FirstInTime(cfg, s'.store, s'.entries[it])
    {
      assert FirstInTime(cfg, s.store, s.entries[it]);
    }
  }

  lemma {:induction false} TimesOfRun(cfg: Config, events: seq<Event>, trace: seq<State>, n: nat, t: int)
    requires Trace(cfg, events, trace) && Nondecreasing(events) && n <= |events| && (n > 0 ==> events[n - 1].now <= t)
    ensures TimesHold(cfg, trace[n], t)
  {
    hide Stepped, StateHolds;
    if n > 0 {
      TimesOfRun(cfg, events, trace, n - 1, events[n - 1].now);
      assert Stepped(cfg, trace[n - 1], events[n - 1], trace[(n - 1) + 1]);
      LinkedState(trace[n - 1]);
      hide TimesHold;
      StepKeepsTimes(cfg, trace[n - 1], events[n - 1], trace[n], events[n - 1].now);
      TimesLater(cfg, trace[n], events[n - 1].now, t);
    }
  }

  lemma TimesLater(cfg: Config, s: State, t: int, t': int)
    requires TimesHold(cfg, s, t) && t <= t'
    ensures TimesHold(cfg, s, t')
  {
  }

  lemma LinkedState(s: State)
    requires StateHolds(s)
    ensures Linked(s.store, s.entries) && DataHolds(s.store)
  {
  }

  /** Everything that waits arrived after t. */
  ghost predicate ArrivedAfter(store: map<nat, Batch>, t: int) {
    forall a, i :: a in store && 0 <= i < |store[a].recs| ==> store[a].recs[i].at > t
  }

  /** A timeout pass leaves only messages younger than a full wait. */
  lemma TimeoutIsPunctual(cfg: Config, s: State, now: int, s': State, t: int)
    requires Linked(s.store, s.entries) && DataHolds(s.store) && TimesHold(cfg, s, t) && TimeoutStep(s, now, s')
    ensures ArrivedAfter(s'.store, now - cfg.batchTimeout)
  {
    hide Flushes, Later;
    var expired :| Expired(s, now, expired) && s' == AfterTimeout(s, now, expired);
    forall a, i | a in s'.store && 0 <= i < |s'.store[a].recs|
      ensures s'.store[a].recs[i].at > now - cfg.batchTimeout
    {
      assert a !in expired && s'.store[a] == s.store[a];
      assert !Due(s.store, s.entries, now, a);
      assert FirstInTime(cfg, s.store, s.entries[s.store[a].item.value]);
    }
  }

  lemma StepKeepsAfter(cfg: Config, s: State, e: Event, s': State, t: int)
    requires Stepped(cfg, s, e, s') && ArrivedAfter(s.store, t - cfg.batchTimeout) && t <= e.now
    ensures ArrivedAfter(s'.store, t - cfg.batchTimeout)
  {
    hide Pending, StaleKeys, Chosen, Scheduled, SentAlso, Flushes, Later;
  }

  /** Over every run whose clock does not run backwards: what still waits arrived less than the
      configured wait before any timeout pass made so far. */
  lemma {:induction false} OnTime(cfg: Config, events: seq<Event>, trace: seq<State>, i: nat, n: nat)
    requires Trace(cfg, events, trace) && Nondecreasing(events) && i < n <= |events| && events[i].Timeout?
    ensures ArrivedAfter(trace[n].store, events[i].now - cfg.batchTimeout)
    decreases n
  {
    hide StateHolds, ArrivedAfter, TimesHold, TimeoutStep, MessageStep, EvictStep;
    assert Stepped(cfg, trace[n - 1], events[n - 1], trace[(n - 1) + 1]);
    if i == n - 1 {
      LinkedState(trace[i]);
      TimesOfRun(cfg, events, trace, i, events[i].now);
      TimeoutIsPunctual(cfg, trace[i], events[i].now, trace[n], events[i].now);
    } else {
      OnTime(cfg, events, trace, i, n - 1);
      StepKeepsAfter(cfg, trace[n - 1], events[n - 1], trace[n], events[i].now);
    }
  }

  // ---------- Not too early ----------

  /** Every deadline is a full wait from the first message of its batch. */
  ghost predicate DeadlinesExact(cfg: Config, s: State) {
    forall it :: it in s.entries ==> ExactFor(cfg, s.store, s.entries[it])
  }

  ghost predicate ExactFor(cfg: Config, store: map<nat, Batch>, e: Entry) {
    e.batch in store && store[e.batch].recs != [] && e.deadline == store[e.batch].recs[0].at + cfg.batchTimeout
  }

  lemma MessageKeepsExact(cfg: Config, s: State, r: Record, s': State)
    requires Linked(s.store, s.entries) && DataHolds(s.store) && DeadlinesExact(cfg, s) && MessageStep(cfg, s, r, s')
    requires FitsAlone(cfg.bufferSize, r.msg.sub)
    ensures DeadlinesExact(cfg, s')
  {
    hide Linked, DataHolds, PutIn, SentAlso;
    if !Small(cfg, r.msg) && !r.msg.emerge {
      var a :| PutIn(cfg, s, r, s', a);
      PutInKeepsExact(cfg, s, r, s', a);
    }
  }

  lemma PutInKeepsExact(cfg: Config, s: State, r: Record, s': State, a: nat)
    requires Linked(s.store, s.entries) && DataHolds(s.store) && DeadlinesExact(cfg, s) && PutIn(cfg, s, r, s', a)
    requires !Misfit(cfg, r.msg)
    ensures DeadlinesExact(cfg, s')
  {
    hide PutIn, Misfit, Linked;
    PutInFacts(cfg, s, r, s', a);
    var b := Base(s.store, r, a);
    assert b.item.None? ==> b.recs == [];
    forall it | it in s'.entries
      ensures ExactFor(cfg, s'.store, s'.entries[it])
    {
      if it in s.entries {
        assert s'.entries[it] == s.entries[it] && ExactFor(cfg, s.store, s.entries[it]);
      } else {
        assert s'.entries[it] == Entry(a, r.at + cfg.batchTimeout) && s'.store[a].recs == [r];
      }
    }
  }

  lemma TimeoutKeepsExact(cfg: Config, s: State, now: int, s': State)
    requires Linked(s.store, s.entries) && DeadlinesExact(cfg, s) && TimeoutStep(s, now, s')
    ensures DeadlinesExact(cfg, s')
  {
    hide Flushes;
    var expired :| Expired(s, now, expired) && s' == AfterTimeout(s, now, expired);
    forall it | it in s'.entries
      ensures ExactFor(cfg, s'.store, s'.entries[it])
    {
      assert ExactFor(cfg, s.store, s.entries[it]);
      InStore(s.store, s.entries, it);
      assert s.entries[it].batch !in expired;
    }
  }

  lemma EvictKeepsExact(cfg: Config, s: State, now: int, s': State)
    requires DeadlinesExact(cfg, s) && EvictStep(s, now, s')
    ensures DeadlinesExact(cfg, s')
  {
    hide Pending, StaleKeys;
    forall it | it in s'.entries
      ensures ExactFor(cfg, s'.store, s'.entries[it])
    {
      assert ExactFor(cfg, s.store, s.entries[it]);
    }
  }

  /** Over every run of messages that fit, whatever the clock does, a deadline is a full wait
      from the first message of its batch; so a timeout pass sends a batch exactly if its first
      message has waited that long. */
  lemma {:induction false} DeadlinesOfRun(cfg: Config, events: seq<Event>, trace: seq<State>, n: nat)
    requires Trace(cfg, events, trace) && n <= |events|
    requires forall i :: 0 <= i < n && events[i].Message? ==> FitsAlone(cfg.bufferSize, events[i].msg.sub)
    ensures DeadlinesExact(cfg, trace[n])
    ensures forall a, now :: a in trace[n].store ==>
              (Due(trace[n].store, trace[n].entries, now, a) <==>
               trace[n].store[a].recs != [] && trace[n].store[a].recs[0].at + cfg.batchTimeout <= now)
  {
    hide StateHolds, MessageStep, TimeoutStep, EvictStep, FitsAlone, DeadlinesExact;
    if n == 0 {
      NoDeadlines(cfg);
    } else {
      var m := n - 1;
      DeadlinesOfRun(cfg, events, trace, m);
      LinkedState(trace[m]);
      assert Stepped(cfg, trace[m], events[m], trace[m + 1]);
      match events[m] {
        case Message(msg, now) => MessageKeepsExact(cfg, trace[m], Record(msg, now), trace[n]);
        case Timeout(now) => TimeoutKeepsExact(cfg, trace[m], now, trace[n]);
        case Evict(now) => EvictKeepsExact(cfg, trace[m], now, trace[n]);
      }
    }
    LinkedState(trace[n]);
    forall a, now | a in trace[n].store
      ensures Due(trace[n].store, trace[n].entries, now, a) <==>
              trace[n].store[a].recs != [] && trace[n].store[a].recs[0].at + cfg.batchTimeout <= now
    {
      DueWhen(cfg, trace[n], a, now);
    }
  }

  lemma NoDeadlines(cfg: Config)
    ensures DeadlinesExact(cfg, EMPTY)
  {
  }

  lemma DueWhen(cfg: Config, s: State, a: nat, now: int)
    requires Linked(s.store, s.entries) && DataHolds(s.store) && DeadlinesExact(cfg, s) && a in s.store
    ensures Due(s.store, s.entries, now, a) <==> s.store[a].recs != [] && s.store[a].recs[0].at + cfg.batchTimeout <= now
  {
    if s.store[a].item.Some? {
      assert ExactFor(cfg, s.store, s.entries[s.store[a].item.value]);
    }
  }

  // ---------- How old a batch is ----------

  /** Event i makes batch a, or is a timeout pass that sends it. */
  ghost predicate Touches(events: seq<Event>, trace: seq<State>, i: int, a: nat) {
    && 0 <= i < |events| && |trace| == |events| + 1
    && ((events[i].Message? && a !in trace[i].store && a in trace[i + 1].store)
        || (events[i].Timeout? && Due(trace[i].store, trace[i].entries, events[i].now, a)))
  }

  /** Of the first n events number i is the last to make or send batch a, which has been there
      ever since. */
  ghost predicate LastTouch(events: seq<Event>, trace: seq<State>, n: int, a: nat, i: int) {
    && i < n <= |events| && Touches(events, trace, i, a)
    && forall j :: i < j < n ==> a in trace[j].store && !Touches(events, trace, j, a)
  }

  /** A batch that is due is sent: its messages are among the packets of the pass, and leave it. */
  lemma DueIsSent(s: State, now: int, s': State, a: nat)
    requires TimeoutStep(s, now, s') && Due(s.store, s.entries, now, a)
    ensures a in s'.store && s'.store[a] == Emptied(s.store[a], now)
    ensures s.sent <= s'.sent && exists x :: |s.sent| <= x < |s'.sent| && s'.sent[x] == SentOf(s.store[a])
  {
    hide Later;
    var expired :| Expired(s, now, expired) && s' == AfterTimeout(s, now, expired);
    assert a in expired;
    var i :| 0 <= i < |expired| && expired[i] == a;
    assert s'.sent[|s.sent| + i] == SentOf(s.store[a]);
  }

  lemma MessageAges(cfg: Config, s: State, r: Record, s': State, a: nat)
    requires MessageStep(cfg, s, r, s') && a in s'.store
    ensures s'.store[a].createTime == if a in s.store then s.store[a].createTime else r.at
  {
    hide PutIn, SentAlso, Misfit;
    if !Small(cfg, r.msg) && !r.msg.emerge {
      var x :| PutIn(cfg, s, r, s', x);
      PutInFacts(cfg, s, r, s', x);
    }
  }

  lemma TimeoutAges(s: State, now: int, s': State, a: nat)
    requires TimeoutStep(s, now, s') && a in s'.store
    ensures a in s.store && s'.store[a].createTime == if Due(s.store, s.entries, now, a) then now else s.store[a].createTime
  {
    hide Later, Flushes;
    var expired :| Expired(s, now, expired) && s' == AfterTimeout(s, now, expired);
    assert a in expired <==> Due(s.store, s.entries, now, a);
  }

  lemma EvictAges(s: State, now: int, s': State, a: nat)
    requires EvictStep(s, now, s') && a in s'.store
    ensures a in s.store && s'.store[a] == s.store[a]
  {
    hide Pending, StaleKeys, StillScheduled;
  }

  /** The time of a batch after an event: that of the event if it made or sent the batch. */
  lemma StepAges(cfg: Config, events: seq<Event>, trace: seq<State>, i: nat, a: nat)
    requires Trace(cfg, events, trace) && i < |events| && a in trace[i + 1].store
    ensures Touches(events, trace, i, a) ==> trace[i + 1].store[a].createTime == events[i].now
    ensures !Touches(events, trace, i, a) ==> a in trace[i].store && trace[i + 1].store[a].createTime == trace[i].store[a].createTime
  {
    hide StateHolds, MessageStep, TimeoutStep, EvictStep, Due;
    assert Stepped(cfg, trace[i], events[i], trace[i + 1]);
    match events[i] {
      case Message(msg, now) => MessageAges(cfg, trace[i], Record(msg, now), trace[i + 1], a);
      case Timeout(now) => TimeoutAges(trace[i], now, trace[i + 1], a);
      case Evict(now) => EvictAges(trace[i], now, trace[i + 1], a);
    }
  }

  /** Over every run the time of a batch is that of the event that made it or of the timeout
      pass that last sent it. */
  lemma {:induction false} AgeOfBatch(cfg: Config, events: seq<Event>, trace: seq<State>, n: nat, a: nat) returns (i: nat)
    requires Trace(cfg, events, trace) && n <= |events| && a in trace[n].store
    ensures i < n && LastTouch(events, trace, n, a, i) && trace[n].store[a].createTime == events[i].now
  {
    hide Stepped, StateHolds, Touches;
    var m := n - 1;
    StepAges(cfg, events, trace, m, a);
    if Touches(events, trace, m, a) {
      i := m;
    } else {
      i := AgeOfBatch(cfg, events, trace, m, a);
    }
  }

  /** There is only one such event. */
  lemma OneLastTouch(events: seq<Event>, trace: seq<State>, n: int, a: nat, i: int, j: int)
    requires LastTouch(events, trace, n, a, i) && LastTouch(events, trace, n, a, j)
    ensures i == j
  {
    hide Touches;
  }

  lemma TouchedBefore(events: seq<Event>, trace: seq<State>, n: int, a: nat, i: int)
    requires LastTouch(events, trace, n, a, i)
    ensures 0 <= i < n
  {
  }

  /** At event i, some batch of the key was made or last sent over a minute ago. */
  ghost predicate Aged(events: seq<Event>, trace: seq<State>, i: int, key: string) {
    && 0 <= i < |events| && |trace| == |events| + 1 && key in trace[i].batches
    && exists a, j :: a in trace[i].batches[key] && 0 <= j < i && LastTouch(events, trace, i, a, j) && events[i].now - events[j].now > 60_000
  }

  lemma BatchesAreThere(s: State, key: string, a: nat)
    requires StateHolds(s) && key in s.batches && a in s.batches[key]
    ensures a in s.store && s.store[a].key == key
  {
    hide Linked, DataHolds, FramesHold, KeysHold, SentsHold;
    assert ListHolds(key, s.batches[key], s.store);
  }

  lemma StaleIsAged(cfg: Config, events: seq<Event>, trace: seq<State>, i: nat, key: string)
    requires Trace(cfg, events, trace) && i < |events|
    ensures key in StaleKeys(trace[i], events[i].now) <==> Aged(events, trace, i, key)
  {
    hide Stepped, StateHolds, LastTouch;
    var s := trace[i];
    if key in StaleKeys(s, events[i].now) {
      var x :| 0 <= x < |s.batches[key]| && s.batches[key][x] in s.store && events[i].now - s.store[s.batches[key][x]].createTime > BATCH_MAX_AGE;
      var a := s.batches[key][x];
      var j := AgeOfBatch(cfg, events, trace, i, a);
      assert a in s.batches[key];
    }
    if Aged(events, trace, i, key) {
      var a, j :| a in s.batches[key] && 0 <= j < i && LastTouch(events, trace, i, a, j) && events[i].now - events[j].now > 60_000;
      BatchesAreThere(s, key, a);
      var j' := AgeOfBatch(cfg, events, trace, i, a);
      OneLastTouch(events, trace, i, a, j, j');
      var x :| 0 <= x < |s.batches[key]| && s.batches[key][x] == a;
    }
  }

  /** Over every run a key survives an eviction pass, with all its batches and all that waits in
      them, exactly if each of its batches was made or sent in the minute before. */
  lemma KeySurvivesIff(cfg: Config, events: seq<Event>, trace: seq<State>, i: nat, key: string)
    requires Trace(cfg, events, trace) && i < |events| && events[i].Evict? && key in trace[i].batches
    ensures key in trace[i + 1].batches <==>
            forall a, j :: a in trace[i].batches[key] && LastTouch(events, trace, i, a, j) ==> events[i].now - events[j].now <= 60_000
    ensures key in trace[i + 1].batches ==>
              && trace[i + 1].batches[key] == trace[i].batches[key]
              && forall a :: a in trace[i].batches[key] ==> a in trace[i].store && a in trace[i + 1].store && trace[i + 1].store[a] == trace[i].store[a]
  {
    hide StateHolds, LastTouch, Pending, StillScheduled, StaleKeys;
    assert Stepped(cfg, trace[i], events[i], trace[i + 1]);
    StaleIsAged(cfg, events, trace, i, key);
    forall a, j | LastTouch(events, trace, i, a, j)
      ensures 0 <= j < i
    {
      TouchedBefore(events, trace, i, a, j);
    }
    forall a | a in trace[i].batches[key]
      ensures a in trace[i].store && trace[i].store[a].key == key
    {
      BatchesAreThere(trace[i], key, a);
    }
  }

  // ---------- What is thrown away ----------

  /** The message waits in a batch of its key, and some batch of that key is stale. */
  ghost predicate WithStaleKey(s: State, now: int, r: Record) {
    r.msg.key in StaleKeys(s, now) && exists a :: a in s.store && s.store[a].key == r.msg.key && r in s.store[a].recs
  }

  lemma {:induction false} PendingElsewhere(s: map<nat, Batch>, s': map<nat, Batch>, gone: set<string>, r: Record)
    requires OnlyGone(s, s', gone) && forall a :: a in s && r in s[a].recs ==> s[a].key !in gone
    ensures Pending(s)[r] == Pending(s')[r]
    decreases |s|
  {
    hide Pending;
    if a :| a in s && s[a].key in gone {
      PendingOf(s, a);
      assert (s - {a}).Keys == s.Keys - {a};
      PendingElsewhere(s - {a}, s', gone, r);
      assert r !in s[a].recs;
    } else {
      assert s == s';
    }
  }

  lemma EvictTakesStale(s: State, now: int, s': State, r: Record)
    requires StateHolds(s) && EvictStep(s, now, s') && r !in s.evicted && r in s'.evicted
    ensures WithStaleKey(s, now, r)
  {
    hide Pending, StaleKeys, StillScheduled;
    var gone := StaleKeys(s, now);
    assert (Pending(s.store) + s.evicted)[r] == (Pending(s'.store) + s'.evicted)[r];
    if forall a :: a in s.store && r in s.store[a].recs ==> s.store[a].key !in gone {
      PendingElsewhere(s.store, s'.store, gone, r);
      assert false;
    }
    var a :| a in s.store && r in s.store[a].recs && s.store[a].key in gone;
    assert r.msg.key == s.store[a].key;
  }

  /** Over every run: a message thrown away had waited, at some eviction pass, under a key with
      a batch that was made or last sent over a minute before. */
  lemma {:induction false} EvictedWereStale(cfg: Config, events: seq<Event>, trace: seq<State>, n: nat, r: Record) returns (i: nat)
    requires Trace(cfg, events, trace) && n <= |events| && r in trace[n].evicted
    ensures i < n && events[i].Evict? && Aged(events, trace, i, r.msg.key)
    ensures exists a :: a in trace[i].store && trace[i].store[a].key == r.msg.key && r in trace[i].store[a].recs
  {
    hide StateHolds, MessageStep, TimeoutStep, EvictStep, Aged, StaleKeys;
    var m := n - 1;
    assert Stepped(cfg, trace[m], events[m], trace[m + 1]);
    if r in trace[m].evicted {
      i := EvictedWereStale(cfg, events, trace, m, r);
    } else {
      OnlyEvictTakes(cfg, trace[m], events[m], trace[n]);
      EvictTakesStale(trace[m], events[m].now, trace[n], r);
      StaleIsAged(cfg, events, trace, m, r.msg.key);
      i := m;
    }
  }

  lemma OnlyEvictTakes(cfg: Config, s: State, e: Event, s': State)
    requires Stepped(cfg, s, e, s')
    ensures !e.Evict? ==> s'.evicted == s.evicted
  {
    hide Chosen, Filed, SentAlso, Flushes, Expired, EvictStep;
  }

  // ---------- Whose header ----------

  /** Two routes are written to the same header. */
  ghost predicate SameAddress(r: Route, r': Route) {
    Padded(r.hops) == Padded(r'.hops) && r.port == r'.port && r.tcp == r'.tcp
  }

  /** A message that waits gets its own header and next hop exactly if the batch it is put in
      is new or has its address and next hop already. */
  lemma OwnHeaderIff(cfg: Config, s: State, r: Record, s': State, a: nat)
    requires FramesHold(s.store) && PutIn(cfg, s, r, s', a)
    ensures a in s'.store
    ensures var b := s'.store[a];
            b.frame.head == HeadFor(r.msg.route, b.frame.head.payloadLen) && b.nextHop == r.msg.nextHop <==>
            a !in s.store || (SameAddress(s.store[a].route, r.msg.route) && s.store[a].nextHop == r.msg.nextHop)
  {
    hide PutIn, Scheduled, Encode, EncodeSub, Padded, Misfit, Subs;
    PutInFacts(cfg, s, r, s', a);
    assert a in s.store ==> FrameHolds(s.store[a]);
  }

  /** One of the first n events is a message with this key, route and next hop. */
  ghost predicate Asked(events: seq<Event>, n: int, key: string, route: Route, nextHop: U32) {
    exists j :: 0 <= j < n && j < |events| && events[j].Message? && events[j].msg.key == key && events[j].msg.route == route && events[j].msg.nextHop == nextHop
  }

  /** The packet is addressed like a message of its key, and holds messages of that key. */
  ghost predicate FromMessages(events: seq<Event>, n: int, key: string, route: Route, nextHop: U32, recs: seq<Record>) {
    && Asked(events, n, key, route, nextHop)
    && forall i :: 0 <= i < |recs| ==> recs[i].msg.key == key && Asked(events, n, key, recs[i].msg.route, recs[i].msg.nextHop)
  }

  ghost predicate AddressesHold(events: seq<Event>, n: int, s: State) {
    && (forall a :: a in s.store ==>
          FromMessages(events, n, s.store[a].key, s.store[a].route, s.store[a].nextHop, s.store[a].recs))
    && (forall i :: 0 <= i < |s.sent| ==>
          FromMessages(events, n, s.sent[i].key, s.sent[i].route, s.sent[i].nextHop, s.sent[i].recs))
  }

  lemma AskedBefore(events: seq<Event>, n: int, key: string, route: Route, nextHop: U32, recs: seq<Record>)
    requires FromMessages(events, n, key, route, nextHop, recs)
    ensures FromMessages(events, n + 1, key, route, nextHop, recs)
  {
    hide Asked;
    forall r: Route, h: U32 | Asked(events, n, key, r, h)
      ensures Asked(events, n + 1, key, r, h)
    {
      StillAsked(events, n, key, r, h);
    }
  }

  lemma StillAsked(events: seq<Event>, n: int, key: string, route: Route, nextHop: U32)
    requires Asked(events, n, key, route, nextHop)
    ensures Asked(events, n + 1, key, route, nextHop)
  {
  }

  lemma {:induction false} AddressesOfRun(cfg: Config, events: seq<Event>, trace: seq<State>, n: nat)
    requires Trace(cfg, events, trace) && n <= |events|
    ensures AddressesHold(events, n, trace[n])
  {
    hide StateHolds, MessageStep, TimeoutStep, EvictStep, FromMessages;
    if n > 0 {
      AddressesOfRun(cfg, events, trace, n - 1);
      assert Stepped(cfg, trace[n - 1], events[n - 1], trace[(n - 1) + 1]);
      hide AddressesHold;
      AddressesAgain(events, n - 1, trace[n - 1]);
      match events[n - 1] {
        case Message(msg, now) => MessageKeepsAddresses(cfg, events, n, trace[n - 1], Record(msg, now), trace[n]);
        case Timeout(now) => TimeoutKeepsAddresses(events, n, trace[n - 1], now, trace[n]);
        case Evict(now) => EvictKeepsAddresses(events, n, trace[n - 1], now, trace[n]);
      }
    }
  }

  lemma AddressesAgain(events: seq<Event>, n: int, s: State)
    requires AddressesHold(events, n, s)
    ensures AddressesHold(events, n + 1, s)
  {
    hide FromMessages;
    forall key, route, nextHop, recs | FromMessages(events, n, key, route, nextHop, recs)
      ensures FromMessages(events, n + 1, key, route, nextHop, recs)
    {
      AskedBefore(events, n, key, route, nextHop, recs);
    }
  }

  lemma MessageKeepsAddresses(cfg: Config, events: seq<Event>, n: nat, s: State, r: Record, s': State)
    requires AddressesHold(events, n, s) && MessageStep(cfg, s, r, s') && 0 < n <= |events| && events[n - 1] == Message(r.msg, r.at)
    ensures AddressesHold(events, n, s')
  {
    hide PutIn, Misfit, Wire;
    assert Asked(events, n, r.msg.key, r.msg.route, r.msg.nextHop);
    hide Asked;
    if !Small(cfg, r.msg) && !r.msg.emerge {
      var a :| PutIn(cfg, s, r, s', a);
      PutInFacts(cfg, s, r, s', a);
    }
  }

  lemma TimeoutKeepsAddresses(events: seq<Event>, n: nat, s: State, now: int, s': State)
    requires AddressesHold(events, n, s) && TimeoutStep(s, now, s')
    ensures AddressesHold(events, n, s')
  {
    hide Asked, Later;
    var expired :| Expired(s, now, expired) && s' == AfterTimeout(s, now, expired);
    hide Due;
    forall i | 0 <= i < |s'.sent|
      ensures FromMessages(events, n, s'.sent[i].key, s'.sent[i].route, s'.sent[i].nextHop, s'.sent[i].recs)
    {
      if i >= |s.sent| {
        assert s'.sent[i] == SentOf(s.store[expired[i - |s.sent|]]);
      }
    }
  }

  lemma EvictKeepsAddresses(events: seq<Event>, n: nat, s: State, now: int, s': State)
    requires AddressesHold(events, n, s) && EvictStep(s, now, s')
    ensures AddressesHold(events, n, s')
  {
    hide Pending, StaleKeys, FromMessages;
  }

  /** Messages with equal keys have equal routes and next hops. */
  ghost predicate KeyedByRoute(events: seq<Event>) {
    forall i, j :: 0 <= i < |events| && 0 <= j < |events| && events[i].Message? && events[j].Message? && events[i].msg.key == events[j].msg.key ==>
      events[i].msg.route == events[j].msg.route && events[i].msg.nextHop == events[j].msg.nextHop
  }

  /** Where keys tell routes apart, every packet of a run carries the route and next hop of
      each message in it. */
  lemma OwnRoute(cfg: Config, events: seq<Event>, trace: seq<State>, n: nat, i: nat, j: nat)
    requires Trace(cfg, events, trace) && KeyedByRoute(events) && n <= |events| && i < |trace[n].sent| && j < |trace[n].sent[i].recs|
    ensures var p := trace[n].sent[i]; p.route == p.recs[j].msg.route && p.nextHop == p.recs[j].msg.nextHop
  {
    hide Stepped, StateHolds, KeyedByRoute;
    AddressesOfRun(cfg, events, trace, n);
    var p := trace[n].sent[i];
    assert FromMessages(events, n, p.key, p.route, p.nextHop, p.recs);
    SameRoute(events, n, p.key, p.route, p.nextHop, p.recs[j].msg.route, p.recs[j].msg.nextHop);
  }

  lemma SameRoute(events: seq<Event>, n: int, key: string, r: Route, h: U32, r': Route, h': U32)
    requires KeyedByRoute(events) && Asked(events, n, key, r, h) && Asked(events, n, key, r', h')
    ensures r == r' && h == h'
  {
  }

  // ---------- Two runs ----------

  /** A state with one batch, of the only key. */
  ghost predicate OneBatch(s: State, key: string, a: nat) {
    s.batches == map[key := [a]] && s.store.Keys == {a} && s.store[a].key == key
  }

  /** A message for a worker without batches. */
  lemma FirstMessage(cfg: Config, s: State, r: Record, s': State) returns (a: nat)
    requires s.batches == map[] && s.store == map[] && s.entries == map[] && MessageStep(cfg, s, r, s')
    requires !Small(cfg, r.msg) && !Misfit(cfg, r.msg) && !r.msg.emerge && Configured(cfg, r.msg.route.port) == 1
    ensures OneBatch(s', r.msg.key, a) && s'.store[a] == Held(FreshBatch(r.msg, r.at), r).(item := s'.store[a].item) && s'.store[a].item.Some?
    ensures s'.entries == map[s'.store[a].item.value := Entry(a, r.at + cfg.batchTimeout)]
    ensures s'.sent == s.sent && s'.evicted == s.evicted
  {
    hide Grown, PutIn;
    a :| PutIn(cfg, s, r, s', a);
    PutInFacts(cfg, s, r, s', a);
    FirstChosen(cfg, s, r, s', a);
  }

  lemma FirstChosen(cfg: Config, s: State, r: Record, s': State, a: nat)
    requires s.batches == map[] && s.store == map[] && PutIn(cfg, s, r, s', a)
    requires !Small(cfg, r.msg) && !Misfit(cfg, r.msg) && Configured(cfg, r.msg.route.port) == 1
    ensures s'.batches == map[r.msg.key := [a]] && s'.store.Keys == {a}
  {
    hide Held, Scheduled, Configured;
    var list := s'.batches[r.msg.key];
    assert r.msg.sub.userID % 1 == 0;
    assert Room(FrameAt(s.store, list[0], r.msg), cfg.bufferSize, r.msg.sub.data);
    assert list == [a];
    assert s'.store.Keys == Stocked(s.store, list, FreshBatch(r.msg, r.at)).Keys;
  }

  /** A message that has room in the only batch of its key. */
  lemma NextMessage(cfg: Config, s: State, r: Record, s': State, a: nat)
    requires OneBatch(s, r.msg.key, a) && MessageStep(cfg, s, r, s')
    requires !Small(cfg, r.msg) && !Misfit(cfg, r.msg) && !r.msg.emerge && Room(s.store[a].frame, cfg.bufferSize, r.msg.sub.data)
    ensures OneBatch(s', r.msg.key, a) && s'.store[a] == Held(s.store[a], r).(item := s'.store[a].item)
    ensures Scheduled(s.entries, s'.entries, s.store[a].item, s'.store[a].item, a, r.at + cfg.batchTimeout)
    ensures s'.sent == s.sent && s'.evicted == s.evicted
  {
    hide Grown, PutIn, Room;
    var x :| PutIn(cfg, s, r, s', x);
    PutInFacts(cfg, s, r, s', x);
    NextChosen(cfg, s, r, s', a, x);
  }

  lemma NextChosen(cfg: Config, s: State, r: Record, s': State, a: nat, x: nat)
    requires OneBatch(s, r.msg.key, a) && PutIn(cfg, s, r, s', x) && Room(s.store[a].frame, cfg.bufferSize, r.msg.sub.data)
    ensures x == a && s'.batches == s.batches && s'.store.Keys == {a}
  {
    hide Held, Scheduled, Configured, Room;
    var list := s'.batches[r.msg.key];
    assert r.msg.sub.userID % 1 == 0 && list[..1] == [a];
    assert list == [a];
    assert s'.store.Keys == Stocked(s.store, list, FreshBatch(r.msg, r.at)).Keys;
  }

  /** A pass at which the only batch is due. */
  lemma OnlyBatchDue(s: State, now: int, s': State, a: nat)
    requires s.store.Keys == {a} && Due(s.store, s.entries, now, a) && TimeoutStep(s, now, s')
    ensures s'.batches == s.batches && s'.store == map[a := Emptied(s.store[a], now)] && s'.sent == s.sent + [SentOf(s.store[a])]
    ensures s'.entries == Later(s.entries, now) && s'.evicted == s.evicted
  {
    hide Later;
    var expired :| Expired(s, now, expired) && s' == AfterTimeout(s, now, expired);
    assert a in expired && forall x :: x in expired ==> x == a;
    assert |expired| >= 1 && expired[0] == a;
    if |expired| >= 2 {
      TwoDiffer(expired, a);
    }
    assert expired == [a];
  }

  lemma TwoDiffer(list: seq<nat>, a: nat)
    requires NoRepeat(list) && |list| >= 2
    ensures exists x :: x in list && x != a
  {
    assert list[0] != list[1] && list[0] in list && list[1] in list;
  }

  /** Two messages with one key that fit one packet leave together, under the header and to
      the next hop of the first. */
  lemma SentUnderTheFirst(cfg: Config, m: Msg, m': Msg, t: int, t': int, now: int, trace: seq<State>)
    requires Trace(cfg, [Message(m, t), Message(m', t'), Timeout(now)], trace) && m.key == m'.key && Configured(cfg, m.route.port) == 1
    requires !Small(cfg, m) && !Small(cfg, m') && !m.emerge && !m'.emerge && now >= t + cfg.batchTimeout
    requires HEADER_SIZE + 6 + |m.sub.data| + 6 + |m'.sub.data| <= cfg.bufferSize
    ensures |trace[3].sent| == 1
    ensures var p := trace[3].sent[0]; p.recs == [Record(m, t), Record(m', t')] && p.route == m.route && p.nextHop == m.nextHop
  {
    var events := [Message(m, t), Message(m', t'), Timeout(now)];
    hide StateHolds, MessageStep, TimeoutStep, EvictStep, FrameBytes;
    assert Stepped(cfg, trace[0], events[0], trace[0 + 1]);
    var a := FirstMessage(cfg, trace[0], Record(m, t), trace[1]);
    assert Stepped(cfg, trace[1], events[1], trace[1 + 1]);
    NextMessage(cfg, trace[1], Record(m', t'), trace[2], a);
    assert Stepped(cfg, trace[2], events[2], trace[2 + 1]);
    OnlyBatchDue(trace[2], now, trace[3], a);
    assert [] + [Record(m, t)] + [Record(m', t')] == [Record(m, t), Record(m', t')];
  }

  const DATA: seq<Byte> := Zeros(200)
  const KEY_123 := "0.0.0.1,0.0.0.2,0.0.0.3"
  const TO_80 := Msg(false, KEY_123, Route([1, 2, 3], 80, true), 2, SubPacket(1, DATA))
  const TO_443 := Msg(false, KEY_123, Route([1, 2, 3], 443, true), 2, SubPacket(2, DATA))

  /** The key is made of the hops alone, so a message for port 443 of an origin is sent to
      port 80 of it if one for that port waits. */
  lemma SentToAnotherPort(trace: seq<State>)
    requires Trace(Config(1000, 100, map[]), [Message(TO_80, 0), Message(TO_443, 1), Timeout(100)], trace)
    ensures |trace[3].sent| == 1 && Record(TO_443, 1) in trace[3].sent[0].recs && trace[3].sent[0].route.port == 80
  {
    hide Trace;
    SentUnderTheFirst(Config(1000, 100, map[]), TO_80, TO_443, 0, 1, 100, trace);
  }

  /** A key whose only batch was sent before is thrown away, with a message that has arrived
      since, exactly if that was over a minute ago. */
  lemma EvictedOnArrivalIff(cfg: Config, m: Msg, m': Msg, t: int, flush: int, t': int, now: int, trace: seq<State>)
    requires Trace(cfg, [Message(m, t), Timeout(flush), Message(m', t'), Evict(now)], trace) && m.key == m'.key
    requires !Small(cfg, m) && !Misfit(cfg, m) && !m.emerge && !Small(cfg, m') && !Misfit(cfg, m') && !m'.emerge
    requires Configured(cfg, m.route.port) == 1 && t + cfg.batchTimeout <= flush
    ensures Record(m', t') in trace[4].evicted <==> now - flush > 60_000
  {
    var events := [Message(m, t), Timeout(flush), Message(m', t'), Evict(now)];
    hide StateHolds, MessageStep, TimeoutStep, EvictStep, FrameBytes, Small;
    assert Stepped(cfg, trace[0], events[0], trace[0 + 1]);
    var a := FirstMessage(cfg, trace[0], Record(m, t), trace[1]);
    assert Stepped(cfg, trace[1], events[1], trace[1 + 1]);
    OnlyBatchDue(trace[1], flush, trace[2], a);
    assert Stepped(cfg, trace[2], events[2], trace[2 + 1]);
    NextMessage(cfg, trace[2], Record(m', t'), trace[3], a);
    assert Stepped(cfg, trace[3], events[3], trace[3 + 1]);
    assert trace[3].store[a].recs == [Record(m', t')] && trace[3].store[a].createTime == flush;
    if now - flush > 60_000 {
      OnlyBatchStale(trace[3], now, trace[4], a, m.key);
    } else {
      OnlyBatchStays(trace[3], now, trace[4], a, m.key);
    }
  }

  /** So it goes with a message that came in a millisecond before the pass. */
  lemma JustArrivedIsEvicted(trace: seq<State>)
    requires Trace(Config(1000, 100, map[]), [Message(TO_80, 0), Timeout(100), Message(TO_80, 70_000), Evict(70_001)], trace)
    ensures Record(TO_80, 70_000) in trace[4].evicted
  {
    hide Trace;
    EvictedOnArrivalIff(Config(1000, 100, map[]), TO_80, TO_80, 0, 100, 70_000, 70_001, trace);
  }

  /** A key in steady use stays. */
  lemma InUseIsKept(trace: seq<State>)
    requires Trace(Config(1000, 100, map[]), [Message(TO_80, 0), Timeout(100), Message(TO_80, 60_050), Evict(60_060)], trace)
    ensures Record(TO_80, 60_050) !in trace[4].evicted
  {
    hide Trace;
    EvictedOnArrivalIff(Config(1000, 100, map[]), TO_80, TO_80, 0, 100, 60_050, 60_060, trace);
  }

  lemma OnlyBatchStays(s: State, now: int, s': State, a: nat, key: string)
    requires OneBatch(s, key, a) && now - s.store[a].createTime <= BATCH_MAX_AGE && EvictStep(s, now, s')
    ensures s'.evicted == s.evicted
  {
    hide Pending;
    assert StaleKeys(s, now) == {};
    assert s'.store == s.store;
    EqualRest(Pending(s.store), s.evicted, s'.evicted);
  }

  lemma EqualRest(p: multiset<Record>, e: multiset<Record>, e': multiset<Record>)
    requires p + e == p + e'
    ensures e == e'
  {
    forall r
      ensures e[r] == e'[r]
    {
      assert (p + e)[r] == (p + e')[r];
    }
  }

  lemma OnlyBatchStale(s: State, now: int, s': State, a: nat, key: string)
    requires OneBatch(s, key, a) && now - s.store[a].createTime > BATCH_MAX_AGE && EvictStep(s, now, s')
    ensures s'.store == map[] && forall r :: r in s.store[a].recs ==> r in s'.evicted
  {
    assert s.batches[key][0] == a;
    assert key in StaleKeys(s, now);
    assert s'.store == map[];
    PendingOf(s.store, a);
    NothingPending();
    hide Pending;
    forall r | r in s.store[a].recs
      ensures r in s'.evicted
    {
      assert r in Contents(s.store[a]);
      assert (Pending(s.store) + s.evicted)[r] == (Pending(s'.store) + s'.evicted)[r];
    }
  }

  lemma NothingPending()
    ensures Pending(map[]) == multiset{}
  {
  }
}
