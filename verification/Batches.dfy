/** The batches of the aggregator as values: what waits under a key, the packet it fills and
    its deadline; what one message, one timeout pass and one eviction pass do to them.
    Batches and heap items are objects of the source; here they live in maps under their
    addresses. */
module Batches {
  import opened Optional
  import opened TunnelPacket
  import opened DeadlineHeap

  const SMALL: nat := 128
  const TICK := 20
  const BATCH_MAX_AGE := 60_000

  /** Where a packet goes: the hops and port written to its header. */
  datatype Route = Route(hops: seq<U32>, port: U16, tcp: bool)

  datatype Msg = Msg(emerge: bool, key: string, route: Route, nextHop: U32, sub: SubPacket)

  /** A message and when it arrived. */
  datatype Record = Record(msg: Msg, at: int)

  /** A batch: the packet it fills, as a value, with the messages that packet holds. */
  datatype Batch = Batch(key: string, nextHop: U32, route: Route, recs: seq<Record>, frame: Frame, item: Option<nat>, createTime: int)

  /** The bytes handed to the tunnel, with the messages they are made of. */
  datatype Sent = Sent(key: string, nextHop: U32, route: Route, recs: seq<Record>, bytes: seq<Byte>)

  function Subs(recs: seq<Record>): (subs: seq<SubPacket>)
    ensures |subs| == |recs| && forall i :: 0 <= i < |recs| ==> subs[i] == recs[i].msg.sub
  {
    seq(|recs|, i requires 0 <= i < |recs| => recs[i].msg.sub)
  }

  lemma SubsSnoc(recs: seq<Record>, r: Record)
    ensures Subs(recs + [r]) == Subs(recs) + [r.msg.sub]
  {
  }

  // ---------- Configuration ----------

  datatype Config = Config(bufferSize: nat, batchTimeout: int, batchNum: map<U16, int>)

  predicate FitsAlone(buffSize: nat, s: SubPacket) {
    HEADER_SIZE + 6 + |s.data| <= buffSize
  }

  /** Sent at once in a packet of its own size, whatever the caller asked. */
  predicate Small(cfg: Config, msg: Msg) {
    |msg.sub.data| < SMALL || cfg.batchTimeout <= TICK
  }

  /** Too large for the configured buffer. */
  predicate Misfit(cfg: Config, msg: Msg) {
    !Small(cfg, msg) && !FitsAlone(cfg.bufferSize, msg.sub)
  }

  /** How many batches a new key gets. */
  function Configured(cfg: Config, port: U16): (n: nat)
    ensures n >= 1
  {
    if port in cfg.batchNum && cfg.batchNum[port] > 0 then cfg.batchNum[port] else 1
  }

  // ---------- Books ----------

  ghost function Contents(b: Batch): multiset<Record> {
    multiset(b.recs)
  }

  /** Everything waiting in a batch. */
  ghost function Pending(store: map<nat, Batch>): multiset<Record>
    decreases |store|
  {
    if store == map[] then multiset{}
    else
      var a :| a in store;
      assert |store - {a}| < |store| by { assert (store - {a}).Keys == store.Keys - {a}; }
      Contents(store[a]) + Pending(store - {a})
  }

  lemma PendingSome(store: map<nat, Batch>)
    requires store != map[]
    ensures exists b :: b in store && Pending(store) == Contents(store[b]) + Pending(store - {b})
  {
    hide Contents;
  }

  lemma {:induction false} PendingOf(store: map<nat, Batch>, a: nat)
    requires a in store
    ensures Pending(store) == Contents(store[a]) + Pending(store - {a})
    decreases |store|
  {
    hide Pending, Contents;
    PendingSome(store);
    var b :| b in store && Pending(store) == Contents(store[b]) + Pending(store - {b});
    if a != b {
      assert (store - {b}).Keys == store.Keys - {b} && (store - {a}).Keys == store.Keys - {a};
      PendingOf(store - {b}, a);
      PendingOf(store - {a}, b);
      assert store - {b} - {a} == store - {a} - {b};
      Exchange(Contents(store[a]), Contents(store[b]), Pending(store - {a} - {b}));
    }
  }

  lemma Exchange(x: multiset<Record>, y: multiset<Record>, p: multiset<Record>)
    ensures y + (x + p) == x + (y + p)
  {
  }

  lemma PendingUpdate(store: map<nat, Batch>, a: nat, b: Batch)
    requires a in store
    ensures Pending(store[a := b]) + Contents(store[a]) == Pending(store) + Contents(b)
  {
    hide Pending, Contents;
    PendingOf(store, a);
    PendingOf(store[a := b], a);
    assert store[a := b] - {a} == store - {a};
  }

  lemma PendingAdd(store: map<nat, Batch>, a: nat, b: Batch)
    requires a !in store
    ensures Pending(store[a := b]) == Pending(store) + Contents(b)
  {
    hide Pending, Contents;
    PendingOf(store[a := b], a);
    assert store[a := b] - {a} == store;
  }

  ghost function SentBag(sent: seq<Sent>): multiset<Record> {
    if sent == [] then multiset{}
    else var s := sent[|sent| - 1]; SentBag(sent[..|sent| - 1]) + multiset(s.recs)
  }

  lemma SentBagSnoc(sent: seq<Sent>, s: Sent)
    ensures SentBag(sent + [s]) == SentBag(sent) + multiset(s.recs)
  {
    assert (sent + [s])[..|sent|] == sent;
  }

  // ---------- Packets ----------

  /** The header a packet for this route is given. */
  function HeadFor(r: Route, payloadLen: U16): Header {
    Header(1, Padded(r.hops), payloadLen, r.port, if r.tcp then 6 else 17)
  }

  function NewFrame(r: Route): Frame {
    Frame(HeadFor(r, 0), [])
  }

  /** The batch made for a message: empty, and addressed like that message. */
  function FreshBatch(msg: Msg, now: int): Batch {
    Batch(msg.key, msg.nextHop, msg.route, [], NewFrame(msg.route), None, now)
  }

  /** The batch with one more message in its packet. */
  function Held(b: Batch, r: Record): Batch {
    b.(recs := b.recs + [r], frame := Grown(b.frame, r.msg.sub))
  }

  /** The packet holds the messages of the batch; with a deadline set its length field agrees,
      without one the field may be left over from the last packet. */
  ghost predicate FrameHolds(b: Batch) {
    && b.frame.payload == Encode(Subs(b.recs)) && b.frame.head == HeadFor(b.route, b.frame.head.payloadLen)
    && (b.item.Some? ==> b.frame.head.payloadLen == LengthField(Subs(b.recs)))
  }

  ghost predicate FramesHold(store: map<nat, Batch>) {
    forall a :: a in store ==> FrameHolds(store[a])
  }

  lemma NewFrameHolds(b: Batch)
    requires b.recs == [] && b.frame == NewFrame(b.route)
    ensures FrameHolds(b)
  {
  }

  lemma HeldHolds(b: Batch, r: Record, item: Option<nat>)
    requires FrameHolds(b)
    ensures FrameHolds(Held(b, r).(item := item))
  {
    hide Encode, EncodeSub, Subs;
    SubsSnoc(b.recs, r);
    EncodeSnoc(Subs(b.recs), r.msg.sub);
  }

  lemma EmptiedHolds(b: Batch, now: int)
    requires FrameHolds(b)
    ensures FrameHolds(Emptied(b, now))
  {
  }

  /** What is sent is the wire form of the messages, under the header of the packet's route. */
  ghost predicate SentHolds(s: Sent) {
    Wire(HeadFor(s.route, LengthField(Subs(s.recs))), Subs(s.recs), s.bytes)
  }

  ghost predicate SentsHold(sent: seq<Sent>) {
    forall i :: 0 <= i < |sent| ==> SentHolds(sent[i])
  }

  lemma SentOfHolds(b: Batch)
    requires FrameHolds(b) && b.item.Some?
    ensures SentHolds(SentOf(b))
  {
    hide Encode, Wire, FrameBytes, Subs;
    FrameIsWire(b.frame, Subs(b.recs));
  }

  /** How what was sent reads at the other end: the header always; the messages exactly if
      they fit the length field and the last is not empty. */
  ghost predicate ReadsBack(s: Sent) {
    var r, subs := Parsed(s.bytes, |s.bytes|), Subs(s.recs);
    && r.Some? && r.value.0 == HeadFor(s.route, LengthField(subs))
    && (r.value.1 == subs <==> |Encode(subs)| <= 0xFFFF && (subs == [] || subs[|subs| - 1].data != []))
    && (|Encode(subs)| <= 0xFFFF ==> r.value.1 == Survivors(subs))
  }

  lemma SentIsRead(s: Sent)
    requires SentHolds(s)
    ensures ReadsBack(s)
  {
    hide Encode, Wire, Parsed, Subs;
    RoundTripIff(HeadFor(s.route, LengthField(Subs(s.recs))), Subs(s.recs), s.bytes);
  }

  /** A message alone in its packet. */
  lemma GrownOnce(r: Record)
    ensures var f := Grown(NewFrame(r.msg.route), r.msg.sub);
            f.payload == Encode(Subs([r])) && f.head == HeadFor(r.msg.route, LengthField(Subs([r])))
  {
    EncodeSnoc([], r.msg.sub);
    assert [] + [r.msg.sub] == Subs([r]);
  }

  // ---------- Order ----------

  /** These messages arrived in this order. */
  ghost predicate Subsequence(recs: seq<Record>, arrivals: seq<Record>) {
    if recs == [] then true
    else if arrivals == [] then false
    else
      var n, m := |arrivals| - 1, |recs| - 1;
      (arrivals[n] == recs[m] && Subsequence(recs[..m], arrivals[..n])) || Subsequence(recs, arrivals[..n])
  }

  lemma OneMoreArrives(recs: seq<Record>, arrivals: seq<Record>, r: Record)
    requires Subsequence(recs, arrivals)
    ensures Subsequence(recs, arrivals + [r]) && Subsequence(recs + [r], arrivals + [r])
  {
    assert (arrivals + [r])[..|arrivals|] == arrivals && (recs + [r])[..|recs|] == recs;
  }

  /** These messages arrived for this key, in this order. */
  ghost predicate Kept(arrivals: seq<Record>, key: string, recs: seq<Record>) {
    Subsequence(recs, arrivals) && forall i :: 0 <= i < |recs| ==> recs[i].msg.key == key
  }

  lemma KeptOn(arrivals: seq<Record>, key: string, recs: seq<Record>, r: Record)
    requires Kept(arrivals, key, recs)
    ensures Kept(arrivals + [r], key, recs) && (r.msg.key == key ==> Kept(arrivals + [r], key, recs + [r]))
  {
    hide Subsequence;
    OneMoreArrives(recs, arrivals, r);
  }

  lemma NothingKept(arrivals: seq<Record>, key: string)
    ensures Kept(arrivals, key, [])
  {
  }

  /** What waits and what was sent is in order of arrival, each under its own key. */
  ghost predicate OrderHolds(arrivals: seq<Record>, store: map<nat, Batch>, sent: seq<Sent>) {
    && (forall a :: a in store ==> Kept(arrivals, store[a].key, store[a].recs))
    && (forall i :: 0 <= i < |sent| ==> Kept(arrivals, sent[i].key, sent[i].recs))
  }

  lemma FlushKeepsOrder(arrivals: seq<Record>, store: map<nat, Batch>, sent: seq<Sent>, list: seq<nat>, now: int)
    requires OrderHolds(arrivals, store, sent) && forall i :: 0 <= i < |list| ==> list[i] in store
    ensures OrderHolds(arrivals, AfterFlush(store, list, now), sent + Flushes(store, list))
  {
    hide Kept;
    forall key
      ensures Kept(arrivals, key, [])
    {
      NothingKept(arrivals, key);
    }
  }

  lemma EvictKeepsOrder(arrivals: seq<Record>, store: map<nat, Batch>, sent: seq<Sent>, list: seq<nat>)
    requires OrderHolds(arrivals, store, sent)
    ensures OrderHolds(arrivals, Discard(store, list), sent)
  {
    hide Kept;
  }

  // ---------- Structure ----------

  /** The list of a key holds its batches, each once, and every batch is in the list of its key. */
  ghost predicate ListsHold(batches: map<string, seq<nat>>, store: map<nat, Batch>) {
    && (forall k :: k in batches ==> batches[k] != [] && ListHolds(k, batches[k], store))
    && (forall a :: a in store ==> store[a].key in batches && a in batches[store[a].key])
  }

  ghost predicate ListHolds(k: string, list: seq<nat>, store: map<nat, Batch>) {
    && (forall i :: 0 <= i < |list| ==> list[i] in store && store[list[i]].key == k)
    && (forall i, j :: 0 <= i < j < |list| ==> list[i] != list[j])
  }

  /** Items and batches point at each other, one to one. */
  ghost predicate Linked(store: map<nat, Batch>, entries: map<nat, Entry>) {
    && (forall it :: it in entries ==> entries[it].batch in store && store[entries[it].batch].item == Some(it))
    && (forall a :: a in store && store[a].item.Some? ==> store[a].item.value in entries && entries[store[a].item.value].batch == a)
  }

  /** A batch that holds data has a deadline. */
  ghost predicate DataHolds(store: map<nat, Batch>) {
    forall a :: a in store && store[a].recs != [] ==> store[a].item.Some?
  }

  /** A batch that has a deadline holds data. */
  ghost predicate NoIdle(store: map<nat, Batch>) {
    forall a :: a in store && store[a].item.Some? ==> store[a].recs != []
  }

  ghost predicate Below(store: map<nat, Batch>, entries: map<nat, Entry>, next: nat) {
    (forall a :: a in store ==> a < next) && (forall it :: it in entries ==> it < next)
  }

  /** What waits fits the buffer and does not end in an empty message. */
  ghost predicate SizeHolds(subs: seq<SubPacket>, bufferSize: nat) {
    subs != [] ==> HEADER_SIZE + |Encode(subs)| <= bufferSize && subs[|subs| - 1].data != []
  }

  ghost predicate SizesHold(store: map<nat, Batch>, bufferSize: nat) {
    forall a :: a in store ==> SizeHolds(Subs(store[a].recs), bufferSize)
  }

  /** Lists, links, addresses, sizes and deadlines; strictly, no deadline without data. */
  ghost predicate Structure(batches: map<string, seq<nat>>, store: map<nat, Batch>, entries: map<nat, Entry>, next: nat,
                            bufferSize: nat, strict: bool) {
    && ListsHold(batches, store) && Linked(store, entries) && Below(store, entries, next)
    && DataHolds(store) && SizesHold(store, bufferSize) && FramesHold(store) && (strict ==> NoIdle(store))
  }

  // ---------- What a step does ----------

  /** All that a worker holds, with the messages thrown away and those too large. */
  datatype State = State(batches: map<string, seq<nat>>, store: map<nat, Batch>, entries: map<nat, Entry>, sent: seq<Sent>,
                         evicted: multiset<Record>, rejected: multiset<Record>)

  /** The store with a copy of b under every address of the list that it does not have. */
  ghost function Stocked(store: map<nat, Batch>, list: seq<nat>, b: Batch): map<nat, Batch> {
    map x | x in store.Keys + (set i | 0 <= i < |list| :: list[i]) :: if x in store then store[x] else b
  }

  /** Which batch a message goes to: among those of its key, or as many new ones as are
      configured if there is none, the one its request id falls on; if that has no room, one
      more, which joins the list. */
  ghost predicate Chosen(cfg: Config, batches: map<string, seq<nat>>, store: map<nat, Batch>, batches': map<string, seq<nat>>, msg: Msg, a: nat) {
    && msg.key in batches' && batches' == batches[msg.key := batches'[msg.key]]
    && var list, m := batches'[msg.key], if msg.key in batches then |batches[msg.key]| else Configured(cfg, msg.route.port);
       && 1 <= m <= |list|
       && (if msg.key in batches then list[..m] == batches[msg.key] else forall i :: 0 <= i < m ==> list[i] !in store)
       && var c := list[msg.sub.userID % m];
          if Room(FrameAt(store, c, msg), cfg.bufferSize, msg.sub.data) then a == c && |list| == m
          else |list| == m + 1 && a == list[m] && a !in store
  }

  ghost function FrameAt(store: map<nat, Batch>, c: nat, msg: Msg): Frame {
    if c in store then store[c].frame else NewFrame(msg.route)
  }

  /** A batch with a deadline keeps it; one without gets this one, under a new item. */
  ghost predicate Scheduled(entries: map<nat, Entry>, entries': map<nat, Entry>, item: Option<nat>, item': Option<nat>, a: nat, deadline: int) {
    if item.Some? then item' == item && entries' == entries
    else item'.Some? && item'.value !in entries && entries' == entries[item'.value := Entry(a, deadline)]
  }

  /** Batch a, which is of the message's key, holds it last, unless it is too large; it has a
      deadline, and no other batch changes. */
  ghost predicate Filed(cfg: Config, store: map<nat, Batch>, entries: map<nat, Entry>, r: Record,
                        store': map<nat, Batch>, entries': map<nat, Entry>, a: nat) {
    && a in store && a in store' && store[a].key == r.msg.key
    && store' == store[a := (if Misfit(cfg, r.msg) then store[a] else Held(store[a], r)).(item := store'[a].item)]
    && Scheduled(entries, entries', store[a].item, store'[a].item, a, r.at + cfg.batchTimeout)
  }

  /** The message is last in batch a, or lost if it is too large for any; the batch has a
      deadline.  Nothing else changes. */
  ghost predicate PutIn(cfg: Config, s: State, r: Record, s': State, a: nat) {
    && Chosen(cfg, s.batches, s.store, s'.batches, r.msg, a)
    && Filed(cfg, Stocked(s.store, s'.batches[r.msg.key], FreshBatch(r.msg, r.at)), s.entries, r, s'.store, s'.entries, a)
    && s' == s.(batches := s'.batches, store := s'.store, entries := s'.entries,
                rejected := if Misfit(cfg, r.msg) then s.rejected + multiset{r} else s.rejected)
  }

  /** The message goes out alone, under its own header. */
  ghost predicate SentAlso(sent: seq<Sent>, sent': seq<Sent>, r: Record) {
    exists buf :: sent' == sent + [Sent(r.msg.key, r.msg.nextHop, r.msg.route, [r], buf)]
                  && Wire(HeadFor(r.msg.route, LengthField(Subs([r]))), Subs([r]), buf)
  }

  /** One message: a small one and one that must not wait go out alone, the others wait. */
  ghost predicate MessageStep(cfg: Config, s: State, r: Record, s': State) {
    if !Small(cfg, r.msg) && !r.msg.emerge then exists a :: PutIn(cfg, s, r, s', a)
    else if Misfit(cfg, r.msg) then s' == s.(rejected := s.rejected + multiset{r})
    else s' == s.(sent := s'.sent) && SentAlso(s.sent, s'.sent, r)
  }

  /** One timeout pass: every batch due by now is sent exactly once, in order of deadline, and
      emptied; the others keep their deadlines, which are later. */
  ghost predicate TimeoutStep(s: State, now: int, s': State) {
    exists expired :: Expired(s, now, expired) && s' == AfterTimeout(s, now, expired)
  }

  ghost predicate Expired(s: State, now: int, expired: seq<nat>) {
    && NoRepeat(expired) && (forall a :: a in expired <==> Due(s.store, s.entries, now, a))
    && (forall i :: 0 <= i < |expired| ==> Due(s.store, s.entries, now, expired[i]))
    && (forall i, j :: 0 <= i < j < |expired| ==> Deadline(s, expired[i]) <= Deadline(s, expired[j]))
  }

  ghost function Deadline(s: State, a: nat): int
    requires a in s.store && s.store[a].item.Some? && s.store[a].item.value in s.entries
  {
    s.entries[s.store[a].item.value].deadline
  }

  ghost function Later(entries: map<nat, Entry>, now: int): map<nat, Entry> {
    map it | it in entries && entries[it].deadline > now :: entries[it]
  }

  ghost function AfterTimeout(s: State, now: int, expired: seq<nat>): State
    requires forall i :: 0 <= i < |expired| ==> expired[i] in s.store
  {
    s.(store := AfterFlush(s.store, expired, now), sent := s.sent + Flushes(s.store, expired), entries := Later(s.entries, now))
  }

  /** One eviction pass: exactly the keys with a stale batch go, with all their batches and
      whatever waits in them. */
  ghost predicate EvictStep(s: State, now: int, s': State) {
    var gone := StaleKeys(s, now);
    && s' == s.(batches := s.batches - gone, store := s'.store, entries := StillScheduled(s.entries, s.store, gone), evicted := s'.evicted)
    && OnlyGone(s.store, s'.store, gone)
    && Pending(s.store) + s.evicted == Pending(s'.store) + s'.evicted
  }

  ghost function StaleKeys(s: State, now: int): set<string> {
    set k | k in s.batches && Stale(s.store, s.batches[k], now)
  }

  /** The items of batches whose key is not gone. */
  ghost function StillScheduled(entries: map<nat, Entry>, store: map<nat, Batch>, gone: set<string>): map<nat, Entry> {
    map it | it in entries && entries[it].batch in store && store[entries[it].batch].key !in gone :: entries[it]
  }

  datatype Event = Message(msg: Msg, now: int) | Timeout(now: int) | Evict(now: int)

  ghost predicate Stepped(cfg: Config, s: State, e: Event, s': State) {
    match e
    case Message(msg, now) => MessageStep(cfg, s, Record(msg, now), s')
    case Timeout(now) => TimeoutStep(s, now, s')
    case Evict(now) => EvictStep(s, now, s')
  }

  lemma StockedHere(store: map<nat, Batch>, list: seq<nat>, b: Batch)
    requires forall i :: 0 <= i < |list| ==> list[i] in store
    ensures Stocked(store, list, b) == store
  {
  }

  lemma StockedMore(store: map<nat, Batch>, list: seq<nat>, b: Batch, a: nat)
    requires a !in store
    ensures Stocked(store, list + [a], b) == Stocked(store, list, b)[a := b]
  {
    var all := list + [a];
    assert (set i | 0 <= i < |all| :: all[i]) == (set i | 0 <= i < |list| :: list[i]) + {a} by {
      assert all[|list|] == a && forall i :: 0 <= i < |list| ==> all[i] == list[i];
    }
  }

  /** A step with a message keeps order and what was sent readable. */
  lemma MessageKeepsFaith(cfg: Config, arrivals: seq<Record>, s: State, r: Record, s': State)
    requires OrderHolds(arrivals, s.store, s.sent) && SentsHold(s.sent) && MessageStep(cfg, s, r, s')
    ensures OrderHolds(arrivals + [r], s'.store, s'.sent) && SentsHold(s'.sent)
  {
    hide OrderHolds, PutIn, Wire;
    if !Small(cfg, r.msg) && !r.msg.emerge {
      var a :| PutIn(cfg, s, r, s', a);
      PutInKeepsOrder(cfg, arrivals, s, r, s', a);
    } else if Misfit(cfg, r.msg) {
      ArrivalKeepsOrder(arrivals, s.store, s.sent, r);
    } else {
      ArrivalKeepsOrder(arrivals, s.store, s.sent, r);
      SentKeepsOrder(arrivals, s.store, s.sent, s'.sent, r);
    }
  }

  lemma ArrivalKeepsOrder(arrivals: seq<Record>, store: map<nat, Batch>, sent: seq<Sent>, r: Record)
    requires OrderHolds(arrivals, store, sent)
    ensures OrderHolds(arrivals + [r], store, sent)
  {
    hide Kept;
    forall a | a in store
      ensures Kept(arrivals + [r], store[a].key, store[a].recs)
    {
      KeptOn(arrivals, store[a].key, store[a].recs, r);
    }
    forall i | 0 <= i < |sent|
      ensures Kept(arrivals + [r], sent[i].key, sent[i].recs)
    {
      KeptOn(arrivals, sent[i].key, sent[i].recs, r);
    }
  }

  lemma SentKeepsOrder(arrivals: seq<Record>, store: map<nat, Batch>, sent: seq<Sent>, sent': seq<Sent>, r: Record)
    requires OrderHolds(arrivals + [r], store, sent) && SentAlso(sent, sent', r)
    ensures OrderHolds(arrivals + [r], store, sent')
  {
    hide Kept, Wire;
    NothingKept(arrivals, r.msg.key);
    KeptOn(arrivals, r.msg.key, [], r);
    assert [] + [r] == [r];
  }

  lemma PutInKeepsOrder(cfg: Config, arrivals: seq<Record>, s: State, r: Record, s': State, a: nat)
    requires OrderHolds(arrivals, s.store, s.sent) && PutIn(cfg, s, r, s', a)
    ensures OrderHolds(arrivals + [r], s'.store, s'.sent) && s'.sent == s.sent
  {
    hide Kept, Chosen, Scheduled, Misfit;
    ArrivalKeepsOrder(arrivals, s.store, s.sent, r);
    forall x | x in s'.store
      ensures Kept(arrivals + [r], s'.store[x].key, s'.store[x].recs)
    {
      NothingKept(arrivals + [r], s'.store[x].key);
      NothingKept(arrivals, r.msg.key);
      KeptOn(arrivals, r.msg.key, if a in s.store then s.store[a].recs else [], r);
    }
  }

  lemma NothingEncodes()
    ensures Encode(Subs([])) == []
  {
  }

  lemma NothingStocked(store: map<nat, Batch>, b: Batch)
    ensures Stocked(store, [], b) == store
  {
  }

  lemma NotStocked(store: map<nat, Batch>, list: seq<nat>, b: Batch, a: nat)
    requires a !in Stocked(store, list, b)
    ensures a !in store && a !in list
  {
  }

  lemma StockedAt(store: map<nat, Batch>, list: seq<nat>, msg: Msg, now: int, a: nat)
    requires a in Stocked(store, list, FreshBatch(msg, now))
    ensures var b := Stocked(store, list, FreshBatch(msg, now))[a];
            b.frame == FrameAt(store, a, msg) && (a !in store ==> b == FreshBatch(msg, now))
  {
  }

  /** A message that fits no packet finds no room anywhere; any other fits a new one. */
  lemma RoomFacts(cfg: Config, msg: Msg, f: Frame, now: int)
    requires !Small(cfg, msg)
    ensures Misfit(cfg, msg) ==> !Room(f, cfg.bufferSize, msg.sub.data)
    ensures Misfit(cfg, msg) <==> !Room(FreshBatch(msg, now).frame, cfg.bufferSize, msg.sub.data)
  {
  }

  /** The batches popped are those a timeout pass sends. */
  lemma PoppedExpired(s: State, now: int, left: map<nat, Entry>, its: seq<nat>, expired: seq<nat>)
    requires Linked(s.store, s.entries) && Popped(s.entries, left, now, its, expired) && NoRepeat(expired) && |expired| == |its|
    requires (forall a :: a in expired <==> Due(s.store, s.entries, now, a)) && forall it :: it in left ==> left[it].deadline > now
    ensures Expired(s, now, expired) && left == Later(s.entries, now)
  {
    hide NoRepeat;
    LeftIsLater(s.entries, left, now, its, expired);
    hide Later, Due;
    forall i | 0 <= i < |expired|
      ensures Due(s.store, s.entries, now, expired[i]) && s.store[expired[i]].item == Some(its[i])
    {
      assert expired[i] in expired && s.entries[its[i]].batch == expired[i];
    }
  }

  lemma LeftIsLater(entries: map<nat, Entry>, left: map<nat, Entry>, now: int, its: seq<nat>, expired: seq<nat>)
    requires Popped(entries, left, now, its, expired) && forall it :: it in left ==> left[it].deadline > now
    ensures left == Later(entries, now)
  {
    assert forall it :: it in its ==> entries[it].deadline <= now;
  }

  lemma NoneGone(batches: map<string, seq<nat>>, store: map<nat, Batch>, entries: map<nat, Entry>, next: nat, bufferSize: nat, strict: bool)
    requires Structure(batches, store, entries, next, bufferSize, strict)
    ensures batches - {} == batches && OnlyGone(store, store, {}) && StillScheduled(entries, store, {}) == entries
  {
  }

  /** Without the items of the batches of a key. */
  lemma UnscheduledKey(batches: map<string, seq<nat>>, store: map<nat, Batch>, entries: map<nat, Entry>, next: nat, bufferSize: nat,
                       strict: bool, k: string)
    requires Structure(batches, store, entries, next, bufferSize, strict) && k in batches
    ensures Unscheduled(entries, batches[k]) == StillScheduled(entries, store, {k})
  {
    assert ListHolds(k, batches[k], store);
    assert forall a :: a in store ==> (a in batches[k] <==> store[a].key == k);
  }

  lemma ScheduledToo(entries: map<nat, Entry>, s: map<nat, Batch>, t: map<nat, Batch>, gone: set<string>, k: string)
    requires OnlyGone(s, t, gone)
    ensures StillScheduled(StillScheduled(entries, s, gone), t, {k}) == StillScheduled(entries, s, gone + {k})
  {
  }

  // ---------- Stale keys ----------

  /** Some batch of the list was neither made nor flushed in the last minute. */
  predicate Stale(store: map<nat, Batch>, list: seq<nat>, now: int) {
    exists i :: 0 <= i < |list| && list[i] in store && now - store[list[i]].createTime > BATCH_MAX_AGE
  }

  /** The heap without the items of these batches. */
  ghost function Unscheduled(entries: map<nat, Entry>, list: seq<nat>): map<nat, Entry> {
    map it | it in entries && entries[it].batch !in list :: entries[it]
  }

  ghost function ListBag(store: map<nat, Batch>, list: seq<nat>): multiset<Record>
    requires forall i :: 0 <= i < |list| ==> list[i] in store
  {
    if list == [] then multiset{}
    else var b := store[list[|list| - 1]]; ListBag(store, list[..|list| - 1]) + Contents(b)
  }

  function Discard(store: map<nat, Batch>, list: seq<nat>): map<nat, Batch> {
    map a | a in store && a !in list :: store[a]
  }

  lemma UnscheduleStep(store: map<nat, Batch>, entries: map<nat, Entry>, list: seq<nat>, i: nat)
    requires Linked(store, entries) && NoRepeat(list) && i < |list| && list[i] in store
    ensures var item := store[list[i]].item;
            && (item.Some? ==> item.value in Unscheduled(entries, list[..i])
                               && Unscheduled(entries, list[..i + 1]) == Unscheduled(entries, list[..i]) - {item.value})
            && (item.None? ==> Unscheduled(entries, list[..i + 1]) == Unscheduled(entries, list[..i]))
  {
    assert list[..i + 1] == list[..i] + [list[i]];
    assert list[i] !in list[..i];
    var e, e' := Unscheduled(entries, list[..i]), Unscheduled(entries, list[..i + 1]);
    assert forall it :: it in e' <==> it in e && entries[it].batch != list[i];
    assert forall it :: it in e && entries[it].batch == list[i] ==> store[list[i]].item == Some(it);
  }

  lemma {:induction false} DiscardPending(store: map<nat, Batch>, list: seq<nat>)
    requires NoRepeat(list) && forall i :: 0 <= i < |list| ==> list[i] in store
    ensures Pending(store) == Pending(Discard(store, list)) + ListBag(store, list)
  {
    hide Pending;
    if list == [] {
      assert Discard(store, list) == store;
    } else {
      var n := |list| - 1;
      var a, rest := list[n], Discard(store, list[..n]);
      DiscardPending(store, list[..n]);
      DiscardLast(store, list);
      PendingOf(rest, a);
      hide Discard;
      assert Pending(Discard(store, list)) + (ListBag(store, list[..n]) + Contents(store[a]))
          == (Contents(store[a]) + Pending(Discard(store, list))) + ListBag(store, list[..n]);
    }
  }

  lemma DiscardLast(store: map<nat, Batch>, list: seq<nat>)
    requires NoRepeat(list) && list != [] && list[|list| - 1] in store
    ensures var a, rest := list[|list| - 1], Discard(store, list[..|list| - 1]);
            a in rest && rest[a] == store[a] && rest - {a} == Discard(store, list)
  {
    var n := |list| - 1;
    assert list == list[..n] + [list[n]] && list[n] !in list[..n];
  }

  lemma KeyFacts(batches: map<string, seq<nat>>, store: map<nat, Batch>, entries: map<nat, Entry>, next: nat, bufferSize: nat,
                 strict: bool, k: string)
    requires Structure(batches, store, entries, next, bufferSize, strict) && k in batches
    ensures NoRepeat(batches[k]) && Linked(store, entries) && forall i :: 0 <= i < |batches[k]| ==> batches[k][i] in store
  {
    assert ListHolds(k, batches[k], store);
  }

  /** A key is dropped with all its batches and their deadlines. */
  lemma EvictKeeps(batches: map<string, seq<nat>>, store: map<nat, Batch>, entries: map<nat, Entry>, next: nat, bufferSize: nat,
                   strict: bool, k: string)
    requires Structure(batches, store, entries, next, bufferSize, strict) && k in batches
    ensures Structure(batches - {k}, Discard(store, batches[k]), Unscheduled(entries, batches[k]), next, bufferSize, strict)
    ensures OnlyGone(store, Discard(store, batches[k]), {k})
  {
    EvictKeepsLists(batches, store, k);
    EvictKeepsLinks(store, entries, batches[k]);
    hide ListsHold, Linked, Encode, FrameHolds;
  }

  lemma EvictKeepsLists(batches: map<string, seq<nat>>, store: map<nat, Batch>, k: string)
    requires ListsHold(batches, store) && k in batches
    ensures ListsHold(batches - {k}, Discard(store, batches[k]))
    ensures forall a :: a in Discard(store, batches[k]) <==> a in store && store[a].key != k
  {
    var store' := Discard(store, batches[k]);
    assert ListHolds(k, batches[k], store);
    forall j | j in batches && j != k
      ensures ListHolds(j, batches[j], store')
    {
      assert ListHolds(j, batches[j], store);
    }
  }

  lemma EvictKeepsLinks(store: map<nat, Batch>, entries: map<nat, Entry>, list: seq<nat>)
    requires Linked(store, entries)
    ensures Linked(Discard(store, list), Unscheduled(entries, list))
  {
  }

  // ---------- Deadlines ----------

  /** Batch a has a deadline of now or earlier. */
  ghost predicate Due(store: map<nat, Batch>, entries: map<nat, Entry>, now: int, a: nat) {
    a in store && store[a].item.Some? && store[a].item.value in entries && entries[store[a].item.value].deadline <= now
  }

  function Emptied(b: Batch, now: int): Batch {
    b.(recs := [], frame := Cleared(b.frame), item := None, createTime := now)
  }

  function SentOf(b: Batch): Sent {
    Sent(b.key, b.nextHop, b.route, b.recs, FrameBytes(b.frame))
  }

  ghost predicate NoRepeat(s: seq<nat>) {
    forall i, j :: 0 <= i < j < |s| ==> s[i] != s[j]
  }

  /** The items popped so far: all due, in order of deadline, none twice, and the rest of the
      heap no earlier than them. */
  ghost predicate Popped(entries: map<nat, Entry>, left: map<nat, Entry>, now: int, its: seq<nat>, expired: seq<nat>) {
    && NoRepeat(its) && |expired| == |its|
    && (forall i :: 0 <= i < |its| ==> its[i] in entries && entries[its[i]].batch == expired[i] && entries[its[i]].deadline <= now)
    && (forall i, j :: 0 <= i < j < |its| ==> entries[its[i]].deadline <= entries[its[j]].deadline)
    && (forall it :: it in left <==> it in entries && it !in its)
    && (forall it :: it in left ==> left[it] == entries[it])
    && (forall i, it :: 0 <= i < |its| && it in left ==> entries[its[i]].deadline <= left[it].deadline)
  }

  lemma PoppedNone(entries: map<nat, Entry>, now: int)
    ensures Popped(entries, entries, now, [], [])
  {
  }

  lemma PoppedStep(entries: map<nat, Entry>, left: map<nat, Entry>, now: int, its: seq<nat>, expired: seq<nat>, it: nat)
    requires Popped(entries, left, now, its, expired)
    requires it in left && left[it].deadline <= now && forall o :: o in left ==> left[it].deadline <= left[o].deadline
    ensures Popped(entries, left - {it}, now, its + [it], expired + [left[it].batch])
  {
  }

  /** Each due batch was popped exactly once and nothing due is left. */
  lemma PoppedAll(store: map<nat, Batch>, entries: map<nat, Entry>, left: map<nat, Entry>, now: int, its: seq<nat>, expired: seq<nat>)
    requires Linked(store, entries) && Popped(entries, left, now, its, expired)
    requires forall it :: it in left ==> left[it].deadline > now
    ensures NoRepeat(expired) && |expired| == |its| && forall a :: a in expired <==> Due(store, entries, now, a)
    ensures forall i :: 0 <= i < |expired| ==> expired[i] in store
  {
    forall i, j | 0 <= i < j < |expired|
      ensures expired[i] != expired[j]
    {
      assert store[entries[its[i]].batch].item == Some(its[i]) && store[entries[its[j]].batch].item == Some(its[j]);
    }
    forall a
      ensures a in expired <==> Due(store, entries, now, a)
    {
      if a in expired {
        var i :| 0 <= i < |expired| && expired[i] == a;
        assert store[entries[its[i]].batch].item == Some(its[i]);
      }
      if Due(store, entries, now, a) {
        var it := store[a].item.value;
        assert it !in left;
        var i :| 0 <= i < |its| && its[i] == it;
        assert expired[i] == a;
      }
    }
  }

  ghost function Flushes(store: map<nat, Batch>, list: seq<nat>): seq<Sent>
    requires forall i :: 0 <= i < |list| ==> list[i] in store
  {
    seq(|list|, i requires 0 <= i < |list| => SentOf(store[list[i]]))
  }

  ghost function AfterFlush(store: map<nat, Batch>, list: seq<nat>, now: int): map<nat, Batch> {
    map a | a in store :: if a in list then Emptied(store[a], now) else store[a]
  }

  ghost function Remaining(entries: map<nat, Entry>, its: seq<nat>): map<nat, Entry> {
    map it | it in entries && it !in its :: entries[it]
  }

  lemma NothingFlushed(store: map<nat, Batch>, entries: map<nat, Entry>, now: int)
    ensures AfterFlush(store, [], now) == store && Remaining(entries, []) == entries
  {
  }

  lemma NextFlushed(store: map<nat, Batch>, list: seq<nat>, i: nat, now: int)
    requires NoRepeat(list) && i < |list| && list[i] in store
    ensures var s := AfterFlush(store, list[..i], now);
            list[i] in s && s[list[i]] == store[list[i]] && AfterFlush(store, list[..i + 1], now) == s[list[i] := Emptied(store[list[i]], now)]
  {
    assert list[..i + 1] == list[..i] + [list[i]];
    assert list[i] !in list[..i];
  }

  lemma NextPopped(entries: map<nat, Entry>, left: map<nat, Entry>, now: int, its: seq<nat>, expired: seq<nat>, i: nat)
    requires Popped(entries, left, now, its, expired) && i < |its|
    ensures var r := Remaining(entries, its[..i]);
            its[i] in r && r[its[i]].batch == expired[i] && Remaining(entries, its[..i + 1]) == r - {its[i]}
  {
    assert its[..i + 1] == its[..i] + [its[i]];
    assert its[i] in entries && entries[its[i]].batch == expired[i];
    NotEarlier(its, i);
    RemainingStep(entries, its[..i], its[i]);
  }

  lemma NotEarlier(s: seq<nat>, i: nat)
    requires NoRepeat(s) && i < |s|
    ensures s[i] !in s[..i]
  {
  }

  lemma RemainingStep(entries: map<nat, Entry>, its: seq<nat>, it: nat)
    requires it in entries && it !in its
    ensures it in Remaining(entries, its) && Remaining(entries, its)[it] == entries[it]
    ensures Remaining(entries, its + [it]) == Remaining(entries, its) - {it}
  {
  }

  lemma AllPopped(entries: map<nat, Entry>, left: map<nat, Entry>, now: int, its: seq<nat>, expired: seq<nat>)
    requires Popped(entries, left, now, its, expired)
    ensures Remaining(entries, its) == left
  {
  }

  lemma Rebalance(sub: multiset<Record>, s: multiset<Record>, p: multiset<Record>, s': multiset<Record>, p': multiset<Record>,
                  e: multiset<Record>, r: multiset<Record>)
    requires sub == s + p + e + r && s' + p' == s + p
    ensures sub == s' + p' + e + r
  {
  }

  /** A batch is sent and emptied, and its item is gone. */
  lemma FlushKeeps(batches: map<string, seq<nat>>, store: map<nat, Batch>, entries: map<nat, Entry>, next: nat, bufferSize: nat,
                   strict: bool, it: nat, now: int)
    requires Structure(batches, store, entries, next, bufferSize, strict) && it in entries
    ensures var a := entries[it].batch;
            a in store && Structure(batches, store[a := Emptied(store[a], now)], entries - {it}, next, bufferSize, strict)
  {
    var a := entries[it].batch;
    ChangeKeepsLists(batches, store, a, Emptied(store[a], now));
    FlushKeepsLinks(store, entries, it, now);
    EmptiedHolds(store[a], now);
    hide ListsHold, Linked, Encode, FrameHolds;
  }

  lemma FlushKeepsLinks(store: map<nat, Batch>, entries: map<nat, Entry>, it: nat, now: int)
    requires Linked(store, entries) && it in entries
    ensures var a := entries[it].batch; a in store && Linked(store[a := Emptied(store[a], now)], entries - {it})
  {
  }

  /** A batch with a deadline has a packet in order. */
  lemma DueIsSynced(batches: map<string, seq<nat>>, store: map<nat, Batch>, entries: map<nat, Entry>, next: nat, bufferSize: nat,
                    strict: bool, it: nat)
    requires Structure(batches, store, entries, next, bufferSize, strict) && it in entries
    ensures var a := entries[it].batch; a in store && FrameHolds(store[a]) && store[a].item.Some?
  {
    hide FrameHolds, ListsHold, Below, DataHolds, SizesHold, NoIdle;
  }

  /** What leaves the batch is what is sent. */
  lemma FlushConserves(store: map<nat, Batch>, sent: seq<Sent>, a: nat, now: int)
    requires a in store
    ensures SentBag(sent + [SentOf(store[a])]) + Pending(store[a := Emptied(store[a], now)]) == SentBag(sent) + Pending(store)
  {
    var b := store[a];
    SentBagSnoc(sent, SentOf(b));
    PendingUpdate(store, a, Emptied(b, now));
    hide Pending, SentBag;
    var p, p', x := Pending(store), Pending(store[a := Emptied(b, now)]), Contents(b);
    assert p' + x == p;
    assert (SentBag(sent) + x) + p' == SentBag(sent) + (p' + x);
  }

  /** The batches of these keys are gone; all others are as they were. */
  ghost predicate OnlyGone(s: map<nat, Batch>, s': map<nat, Batch>, gone: set<string>) {
    && (forall a :: a in s' <==> a in s && s[a].key !in gone)
    && (forall a :: a in s' ==> s'[a] == s[a])
  }

  lemma GoneToo(s: map<nat, Batch>, t: map<nat, Batch>, u: map<nat, Batch>, gone: set<string>, k: string)
    requires OnlyGone(s, t, gone) && OnlyGone(t, u, {k})
    ensures OnlyGone(s, u, gone + {k})
  {
  }

  lemma StaleUnchanged(s: map<nat, Batch>, s': map<nat, Batch>, gone: set<string>, list: seq<nat>, now: int)
    requires OnlyGone(s, s', gone) && forall i :: 0 <= i < |list| ==> list[i] in s'
    ensures Stale(s, list, now) <==> Stale(s', list, now)
  {
  }

  lemma NoneUnscheduled(entries: map<nat, Entry>)
    ensures Unscheduled(entries, []) == entries
  {
  }

  lemma Evicted(sub: multiset<Record>, s: multiset<Record>, p: multiset<Record>, p': multiset<Record>, x: multiset<Record>,
                e: multiset<Record>, r: multiset<Record>)
    requires sub == s + p + e + r && p == p' + x
    ensures sub == s + p' + (e + x) + r && p + e == p' + (e + x)
  {
  }

  lemma ListIsUsable(batches: map<string, seq<nat>>, store: map<nat, Batch>, entries: map<nat, Entry>, next: nat, bufferSize: nat,
                     strict: bool, k: string)
    requires Structure(batches, store, entries, next, bufferSize, strict) && k in batches
    ensures batches[k] != [] && forall i :: 0 <= i < |batches[k]| ==> batches[k][i] in store && store[batches[k][i]].key == k
  {
    assert ListHolds(k, batches[k], store);
  }

  lemma SamePending(store: map<nat, Batch>, a: nat, b': Batch)
    requires a in store && b'.key == store[a].key && b'.recs == store[a].recs
    ensures Pending(store[a := b']) == Pending(store)
  {
    hide Pending;
    PendingUpdate(store, a, b');
    Cancel(Pending(store[a := b']), Contents(b'), Pending(store), multiset{});
    assert Contents(b') + multiset{} == Contents(b') && Pending(store) + multiset{} == Pending(store);
  }

  lemma IdleKeeps(batches: map<string, seq<nat>>, store: map<nat, Batch>, entries: map<nat, Entry>, entries': map<nat, Entry>,
                  next: nat, bufferSize: nat, strict: bool, a: nat)
    requires Structure(batches, store, entries, next, bufferSize, strict) && a in store && store[a].item.None?
    requires store[a].recs == [] && store[a].frame == NewFrame(store[a].route)
    requires exists d :: entries' == entries[next := Entry(a, d)]
    ensures var store' := store[a := store[a].(item := Some(next))];
            Structure(batches, store', entries', next + 1, bufferSize, false) && Pending(store') == Pending(store)
  {
    hide ListsHold, Linked, SizeHolds, Pending, FrameHolds;
    var b' := store[a].(item := Some(next));
    NewFrameHolds(b');
    ChangeKeepsLists(batches, store, a, b');
    EnqueueKeepsLinks(store, entries, entries', next, a, b');
    SamePending(store, a, b');
  }

  /** One more message is booked wherever it went. */
  lemma Booked(sub: multiset<Record>, s: multiset<Record>, p: multiset<Record>, e: multiset<Record>, r: multiset<Record>,
               s': multiset<Record>, p': multiset<Record>, r': multiset<Record>, x: multiset<Record>)
    requires sub == s + p + e + r && s' + p' + r' == s + p + r + x
    ensures sub + x == s' + p' + e + r'
  {
    assert s' + p' + e + r' == (s' + p' + r') + e;
    assert (s + p + r + x) + e == (s + p + e + r) + x;
  }

  lemma SentAlone(sent: seq<Sent>, r: Record, buf: seq<Byte>)
    ensures SentBag(sent + [Sent(r.msg.key, r.msg.nextHop, r.msg.route, [r], buf)]) == SentBag(sent) + multiset{r}
  {
    SentBagSnoc(sent, Sent(r.msg.key, r.msg.nextHop, r.msg.route, [r], buf));
  }

  lemma NextIsFree(batches: map<string, seq<nat>>, store: map<nat, Batch>, entries: map<nat, Entry>, next: nat, bufferSize: nat, strict: bool)
    requires Structure(batches, store, entries, next, bufferSize, strict)
    ensures next !in store && next !in entries
  {
  }

  lemma HeldPending(store: map<nat, Batch>, a: nat, r: Record, item: Option<nat>)
    requires a in store
    ensures var b' := Held(store[a], r).(item := item);
            && Pending(store[a := b']) == Pending(store) + multiset{r}
            && |Encode(Subs(b'.recs))| == |Encode(Subs(store[a].recs))| + 6 + |r.msg.sub.data|
  {
    hide Pending, Encode, Subs;
    var b := store[a];
    var b' := Held(b, r).(item := item);
    PendingUpdate(store, a, b');
    SubsSnoc(b.recs, r);
    EncodeSnoc(Subs(b.recs), r.msg.sub);
    assert Contents(b') == Contents(b) + multiset{r};
    Cancel(Pending(store[a := b']), Contents(b), Pending(store), multiset{r});
  }

  lemma Cancel(p': multiset<Record>, b: multiset<Record>, p: multiset<Record>, x: multiset<Record>)
    requires p' + b == p + (b + x)
    ensures p' == p + x
  {
    forall r
      ensures p'[r] == (p + x)[r]
    {
      assert (p' + b)[r] == (p + (b + x))[r];
    }
  }

  lemma AddKeepsLists(batches: map<string, seq<nat>>, store: map<nat, Batch>, a: nat, b: Batch)
    requires ListsHold(batches, store) && a !in store
    ensures ListsHold(batches[b.key := (if b.key in batches then batches[b.key] else []) + [a]], store[a := b])
  {
    var list := (if b.key in batches then batches[b.key] else []) + [a];
    var batches', store' := batches[b.key := list], store[a := b];
    forall k | k in batches'
      ensures batches'[k] != [] && ListHolds(k, batches'[k], store')
    {
      if k in batches {
        assert ListHolds(k, batches[k], store);
      }
    }
    forall c | c in store'
      ensures store'[c].key in batches' && c in batches'[store'[c].key]
    {
      if c == a {
        assert list[|list| - 1] == a;
      } else {
        assert c in batches[store[c].key];
      }
    }
  }

  lemma AddKeeps(batches: map<string, seq<nat>>, store: map<nat, Batch>, entries: map<nat, Entry>, next: nat, bufferSize: nat,
                 strict: bool, b: Batch)
    requires Structure(batches, store, entries, next, bufferSize, strict) && b.recs == [] && b.item.None? && FrameHolds(b)
    ensures next !in store && Pending(store[next := b]) == Pending(store)
    ensures Structure(batches[b.key := (if b.key in batches then batches[b.key] else []) + [next]], store[next := b],
                      entries, next + 1, bufferSize, strict)
  {
    hide ListsHold, Linked, Encode, FrameHolds, Subs, Pending;
    NextIsFree(batches, store, entries, next, bufferSize, strict);
    AddKeepsLists(batches, store, next, b);
    AddKeepsLinks(store, entries, next, b);
    PendingAdd(store, next, b);
    assert Contents(b) == multiset{};
  }

  lemma AddKeepsLinks(store: map<nat, Batch>, entries: map<nat, Entry>, a: nat, b: Batch)
    requires Linked(store, entries) && a !in store && b.item.None?
    ensures Linked(store[a := b], entries)
  {
  }

  /** The structure after batch a has become b', with its deadline as it was or newly set. */
  lemma EnqueueKeeps(batches: map<string, seq<nat>>, store: map<nat, Batch>, entries: map<nat, Entry>, entries': map<nat, Entry>,
                     next: nat, next': nat, bufferSize: nat, strict: bool, a: nat, b': Batch)
    requires Structure(batches, store, entries, next, bufferSize, strict)
    requires a in store && b'.key == store[a].key && b'.recs != [] && SizeHolds(Subs(b'.recs), bufferSize) && FrameHolds(b')
    requires if store[a].item.Some? then b'.item == store[a].item && entries' == entries && next' == next
             else b'.item == Some(next) && next' == next + 1 && exists d :: entries' == entries[next := Entry(a, d)]
    ensures Structure(batches, store[a := b'], entries', next', bufferSize, strict)
  {
    hide ListsHold, Linked, SizeHolds, FrameHolds, DataHolds, SizesHold, FramesHold, NoIdle;
    ChangeKeepsLists(batches, store, a, b');
    EnqueueKeepsLinks(store, entries, entries', next, a, b');
    EnqueueKeepsData(store, bufferSize, a, b');
  }

  lemma EnqueueKeepsData(store: map<nat, Batch>, bufferSize: nat, a: nat, b': Batch)
    requires DataHolds(store) && SizesHold(store, bufferSize) && FramesHold(store) && a in store
    requires b'.item.Some? && b'.recs != [] && SizeHolds(Subs(b'.recs), bufferSize) && FrameHolds(b')
    ensures DataHolds(store[a := b']) && SizesHold(store[a := b'], bufferSize) && FramesHold(store[a := b'])
    ensures NoIdle(store) ==> NoIdle(store[a := b'])
  {
    hide SizeHolds, FrameHolds;
  }

  lemma ChangeKeepsLists(batches: map<string, seq<nat>>, store: map<nat, Batch>, a: nat, b': Batch)
    requires ListsHold(batches, store) && a in store && b'.key == store[a].key
    ensures ListsHold(batches, store[a := b'])
  {
    var store' := store[a := b'];
    forall k | k in batches
      ensures ListHolds(k, batches[k], store')
    {
      assert ListHolds(k, batches[k], store);
    }
  }

  lemma EnqueueKeepsLinks(store: map<nat, Batch>, entries: map<nat, Entry>, entries': map<nat, Entry>, next: nat, a: nat, b': Batch)
    requires Linked(store, entries) && a in store && next !in entries
    requires if store[a].item.Some? then b'.item == store[a].item && entries' == entries
             else b'.item == Some(next) && exists d :: entries' == entries[next := Entry(a, d)]
    ensures Linked(store[a := b'], entries')
  {
  }
}
