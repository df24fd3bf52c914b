/** The batching worker: messages wait in batches under their routing key until a deadline or
    are sent at once if small; the batches of a key with a stale one are thrown away. */
module Aggregator {
  import opened Optional
  import opened TunnelPacket
  import opened DeadlineHeap
  import opened Batches

  const EMPTY := State(map[], map[], map[], [], multiset{}, multiset{})

  class Worker {
    const cfg: Config
    const heap: MinHeap
    var batches: map<string, seq<nat>>
    var store: map<nat, Batch>
    var next: nat
    var sent: seq<Sent>
    ghost var arrivals: seq<Record>
    ghost var evicted: multiset<Record>
    ghost var rejected: multiset<Record>

    /** A buffer that cannot hold a header would make serialising it fail. */
    constructor (cfg: Config)
      requires cfg.bufferSize >= HEADER_SIZE
      ensures Valid() && fresh(heap) && this.cfg == cfg && arrivals == [] && View() == EMPTY
    {
      this.cfg := cfg;
      heap := new MinHeap();
      batches, store, next, sent := map[], map[], 0, [];
      arrivals, evicted, rejected := [], multiset{}, multiset{};
    }

    ghost function View(): State
      reads this, heap
    {
      State(batches, store, if heap.Valid() then heap.Entries() else map[], sent, evicted, rejected)
    }

    /** The heap is in order and agrees with the batches; unless a message was too large for
        a packet, a batch has a deadline exactly when it holds data. */
    ghost predicate Sane()
      reads this`batches, this`store, this`next, this`rejected, heap
    {
      heap.Valid() && Structure(batches, store, heap.Entries(), next, cfg.bufferSize, rejected == multiset{})
    }

    /** Nothing is lost or doubled: every message that arrived has been sent, still waits, was
        thrown away with a stale key, or did not fit a packet. */
    ghost predicate Conserved()
      reads this
    {
      multiset(arrivals) == SentBag(sent) + Pending(store) + evicted + rejected
    }

    /** Messages keep their order, and what was sent can be read back. */
    ghost predicate Faithful()
      reads this
    {
      OrderHolds(arrivals, store, sent) && SentsHold(sent)
    }

    ghost predicate Valid()
      reads this, heap
    {
      Sane() && Conserved() && Faithful()
    }

    // ---------- Messages ----------

    /** A new, empty batch joins the list of its key. */
    method NewBatch(msg: Msg, now: int) returns (a: nat)
      requires Sane()
      modifies this`batches, this`store, this`next
      ensures Sane() && a == old(next) && a !in old(store)
      ensures store == old(store)[a := FreshBatch(msg, now)]
      ensures Pending(store) == Pending(old(store))
      ensures msg.key in batches && batches == old(batches)[msg.key := (if msg.key in old(batches) then old(batches)[msg.key] else []) + [a]]
    {
      hide Structure, Pending;
      a := next;
      var b := FreshBatch(msg, now);
      NewFrameHolds(b);
      AddKeeps(batches, store, heap.Entries(), next, cfg.bufferSize, rejected == multiset{}, b);
      next := next + 1;
      store := store[a := b];
      batches := batches[msg.key := (if msg.key in batches then batches[msg.key] else []) + [a]];
    }

    /** A message goes to the end of a batch, which gets a deadline if it has none. */
    method Enqueue(a: nat, msg: Msg, now: int)
      requires Sane() && a in store && Room(store[a].frame, cfg.bufferSize, msg.sub.data) && msg.sub.data != []
      modifies this`store, this`next, heap
      ensures Sane() && a in store && store == old(store)[a := Held(old(store)[a], Record(msg, now)).(item := store[a].item)]
      ensures Scheduled(old(heap.Entries()), heap.Entries(), old(store)[a].item, store[a].item, a, now + cfg.batchTimeout)
      ensures Pending(store) == Pending(old(store)) + multiset{Record(msg, now)}
    {
      hide Structure, Pending, Encode, FrameHolds, Grown, Subs;
      var b := store[a];
      PacketFacts(a);
      var item := b.item;
      ghost var entries := heap.Entries();
      if b.item.None? {
        item := Some(next);
        NextIsFree(batches, store, entries, next, cfg.bufferSize, rejected == multiset{});
        heap.Push(next, a, now + cfg.batchTimeout);
        next := next + 1;
      }
      var b' := Held(b, Record(msg, now)).(item := item);
      HeldHolds(b, Record(msg, now), item);
      HeldPending(store, a, Record(msg, now), item);
      EnqueueKeeps(batches, store, entries, heap.Entries(), old(next), next, cfg.bufferSize, rejected == multiset{}, a, b');
      store := store[a := b'];
    }

    /** The packet of a batch holds what waits in it. */
    lemma PacketFacts(a: nat)
      requires Sane() && a in store
      ensures FrameHolds(store[a]) && store[a].frame.payload == Encode(Subs(store[a].recs))
      ensures store[a].item.None? ==> store[a].frame.payload == []
    {
      hide Encode, Subs;
      NothingEncodes();
      assert store[a].item.None? ==> store[a].recs == [];
    }

    lemma RejectKeeps()
      requires Sane()
      ensures Structure(batches, store, heap.Entries(), next, cfg.bufferSize, false)
    {
    }

    /** An empty batch gets a deadline. */
    method StartIdle(a: nat, now: int)
      requires Sane() && a in store && store[a].item.None? && store[a].recs == [] && store[a].frame == NewFrame(store[a].route)
      modifies this`store, this`next, heap
      ensures heap.Valid() && Structure(batches, store, heap.Entries(), next, cfg.bufferSize, false)
      ensures a in store && store == old(store)[a := old(store)[a].(item := store[a].item)]
      ensures Scheduled(old(heap.Entries()), heap.Entries(), None, store[a].item, a, now + cfg.batchTimeout)
      ensures Pending(store) == Pending(old(store))
    {
      hide Structure, Pending;
      ghost var entries := heap.Entries();
      NextIsFree(batches, store, entries, next, cfg.bufferSize, rejected == multiset{});
      heap.Push(next, a, now + cfg.batchTimeout);
      IdleKeeps(batches, store, entries, heap.Entries(), next, cfg.bufferSize, rejected == multiset{}, a);
      store := store[a := store[a].(item := Some(next))];
      next := next + 1;
    }

    /** A batch of the key for this message: the only one, or one chosen by request id; a key
        without batches gets its configured number of them first. */
    method SelectBatch(msg: Msg, now: int) returns (a: nat)
      requires Sane()
      modifies this`batches, this`store, this`next
      ensures Sane() && Pending(store) == Pending(old(store))
      ensures msg.key in batches && batches == old(batches)[msg.key := batches[msg.key]]
      ensures batches[msg.key] != [] && a == batches[msg.key][msg.sub.userID % |batches[msg.key]|]
      ensures msg.key in old(batches) ==> batches[msg.key] == old(batches)[msg.key]
      ensures msg.key !in old(batches) ==>
                |batches[msg.key]| == Configured(cfg, msg.route.port) && forall i :: 0 <= i < |batches[msg.key]| ==> batches[msg.key][i] !in old(store)
      ensures store == Stocked(old(store), batches[msg.key], FreshBatch(msg, now)) && a in store && store[a].key == msg.key
    {
      hide Structure, Pending, Stocked;
      if msg.key !in batches {
        var num := if msg.route.port in cfg.batchNum then cfg.batchNum[msg.route.port] else 0;
        if num <= 0 {
          num := 1;
        }
        NothingStocked(store, FreshBatch(msg, now));
        var first := NewBatch(msg, now);
        StockedMore(old(store), [], FreshBatch(msg, now), first);
        for i := 1 to num
          invariant Sane() && Pending(store) == Pending(old(store))
          invariant msg.key in batches && batches == old(batches)[msg.key := batches[msg.key]] && |batches[msg.key]| == i
          invariant forall j :: 0 <= j < i ==> batches[msg.key][j] !in old(store)
          invariant store == Stocked(old(store), batches[msg.key], FreshBatch(msg, now))
        {
          ghost var list := batches[msg.key];
          var a' := NewBatch(msg, now);
          NotStocked(old(store), list, FreshBatch(msg, now), a');
          StockedMore(old(store), list, FreshBatch(msg, now), a');
        }
      } else {
        ListIsUsable(batches, store, heap.Entries(), next, cfg.bufferSize, rejected == multiset{}, msg.key);
        StockedHere(store, batches[msg.key], FreshBatch(msg, now));
      }
      ListIsUsable(batches, store, heap.Entries(), next, cfg.bufferSize, rejected == multiset{}, msg.key);
      var list := batches[msg.key];
      a := if |list| <= 1 then list[0] else list[msg.sub.userID % |list|];
    }

    /** The batch chosen for a message, or a new one if that has no room. */
    method PickBatch(msg: Msg, now: int) returns (a: nat)
      requires Sane() && !Small(cfg, msg)
      modifies this`batches, this`store, this`next
      ensures Sane() && Pending(store) == Pending(old(store))
      ensures Chosen(cfg, old(batches), old(store), batches, msg, a)
      ensures store == Stocked(old(store), batches[msg.key], FreshBatch(msg, now)) && a in store && store[a].key == msg.key
      ensures Misfit(cfg, msg) <==> !Room(store[a].frame, cfg.bufferSize, msg.sub.data)
      ensures Misfit(cfg, msg) ==> store[a] == FreshBatch(msg, now)
    {
      hide Structure, Pending, Stocked, Room;
      a := SelectBatch(msg, now);
      var b := store[a];
      StockedAt(old(store), batches[msg.key], msg, now, a);
      PacketFacts(a);
      RoomFacts(cfg, msg, b.frame, now);
      if (b.item.None? && b.frame.payload != []) || !Room(b.frame, cfg.bufferSize, msg.sub.data) {
        ghost var list := batches[msg.key];
        a := NewBatch(msg, now);
        NotStocked(old(store), list, FreshBatch(msg, now), a);
        StockedMore(old(store), list, FreshBatch(msg, now), a);
        assert batches[msg.key][..|list|] == list;
      }
    }

    /** The message waits in a batch; if the one chosen has no room, in a new one. */
    method HandleBatched(msg: Msg, now: int)
      requires Sane() && !Small(cfg, msg)
      modifies this`batches, this`store, this`next, this`rejected, heap
      ensures Sane() && exists a :: PutIn(cfg, old(View()), Record(msg, now), View(), a)
      ensures rejected == if Misfit(cfg, msg) then old(rejected) + multiset{Record(msg, now)} else old(rejected)
      ensures Pending(store) == if Misfit(cfg, msg) then Pending(old(store)) else Pending(old(store)) + multiset{Record(msg, now)}
    {
      hide Structure, Pending, Room, Chosen, Stocked, Held;
      var a := PickBatch(msg, now);
      if Room(store[a].frame, cfg.bufferSize, msg.sub.data) {
        Enqueue(a, msg, now);
      } else {
        // The append fails silently, and the empty batch still gets a deadline.
        StartIdle(a, now);
        rejected := rejected + multiset{Record(msg, now)};
      }
      assert PutIn(cfg, old(View()), Record(msg, now), View(), a);
    }

    /** One message. */
    method HandleMsg(msg: Msg, now: int)
      requires Valid()
      modifies this`batches, this`store, this`next, this`sent, this`arrivals, this`rejected, heap
      ensures Valid() && arrivals == old(arrivals) + [Record(msg, now)]
      ensures MessageStep(cfg, old(View()), Record(msg, now), View())
    {
      hide Pending, SentBag, Sane, Small, Misfit, OrderHolds, SentsHold, MessageStep;
      Dispatch(msg, now);
      Booked(multiset(arrivals), SentBag(old(sent)), Pending(old(store)), evicted, old(rejected),
             SentBag(sent), Pending(store), rejected, multiset{Record(msg, now)});
      MessageKeepsFaith(cfg, arrivals, old(View()), Record(msg, now), View());
      arrivals := arrivals + [Record(msg, now)];
    }

    /** Small messages and those that must not wait go out alone, the others wait. */
    method Dispatch(msg: Msg, now: int)
      requires Sane()
      modifies this`batches, this`store, this`next, this`sent, this`rejected, heap
      ensures Sane() && MessageStep(cfg, old(View()), Record(msg, now), View())
      ensures rejected == if Misfit(cfg, msg) then old(rejected) + multiset{Record(msg, now)} else old(rejected)
      ensures SentBag(sent) + Pending(store) + rejected ==
              SentBag(old(sent)) + Pending(old(store)) + old(rejected) + multiset{Record(msg, now)}
    {
      hide Pending, SentBag, Encode, Sane, SentAlso, PutIn;
      var emerge, buffSize := msg.emerge, cfg.bufferSize;
      if |msg.sub.data| < SMALL || cfg.batchTimeout <= TICK {
        emerge := true;
        buffSize := HEADER_SIZE + 4 + 2 + |msg.sub.data|;
      }
      if emerge {
        SendAlone(msg, now, buffSize);
      } else {
        HandleBatched(msg, now);
      }
    }

    /** Takes every item that is due off the heap. */
    method PopDue(now: int) returns (expired: seq<nat>, ghost its: seq<nat>)
      requires heap.Valid()
      modifies heap
      ensures heap.Valid() && Popped(old(heap.Entries()), heap.Entries(), now, its, expired)
      ensures forall it :: it in heap.Entries() ==> heap.Entries()[it].deadline > now
    {
      hide Popped;
      expired, its := [], [];
      PoppedNone(heap.Entries(), now);
      while |heap.h| > 0
        invariant heap.Valid() && Popped(old(heap.Entries()), heap.Entries(), now, its, expired)
        decreases |heap.Entries()|
      {
        var b := heap.h[0];
        forall o | o in heap.Entries()
          ensures heap.Entries()[b].deadline <= heap.Entries()[o].deadline
        {
          heap.FirstIsLeast(o);
        }
        if heap.items[b].deadline > now {
          break;
        }
        var batch := heap.items[b].batch;
        PoppedStep(old(heap.Entries()), heap.Entries(), now, its, expired, b);
        ghost var before := heap.Entries();
        var popItem := heap.Pop();
        assert heap.Entries().Keys == before.Keys - {b};
        expired, its := expired + [batch], its + [b];
      }
    }

    /** One timeout pass. */
    method CheckTimeout(now: int)
      requires Valid()
      modifies this`store, this`sent, heap
      ensures Valid() && TimeoutStep(old(View()), now, View())
    {
      hide Pending, SentBag, Popped, ListsHold, Below, DataHolds, SizesHold, FramesHold, NoIdle, Flushes, AfterFlush, Later, OrderHolds, SentsHold;
      ghost var entries := heap.Entries();
      var expired, its := PopDue(now);
      PoppedAll(store, entries, heap.Entries(), now, its, expired);
      PoppedExpired(View().(entries := entries), now, heap.Entries(), its, expired);
      FlushAll(expired, its, entries, now);
      assert Expired(old(View()), now, expired) && View() == AfterTimeout(old(View()), now, expired);
    }

    /** Serialises one batch for sending and empties it. */
    method FlushOne(a: nat, ghost it: nat, ghost left: map<nat, Entry>, toSend: seq<Sent>, now: int) returns (toSend': seq<Sent>)
      requires Structure(batches, store, left, next, cfg.bufferSize, rejected == multiset{}) && it in left && left[it].batch == a && a in store
      modifies this`store
      ensures Structure(batches, store, left - {it}, next, cfg.bufferSize, rejected == multiset{})
      ensures toSend' == toSend + [SentOf(old(store)[a])] && store == old(store)[a := Emptied(old(store)[a], now)]
      ensures SentHolds(SentOf(old(store)[a]))
      ensures SentBag(sent + toSend') + Pending(store) == SentBag(sent + toSend) + Pending(old(store))
    {
      hide Structure, Pending, SentBag, Emptied;
      FlushKeeps(batches, store, left, next, cfg.bufferSize, rejected == multiset{}, it, now);
      DueIsSynced(batches, store, left, next, cfg.bufferSize, rejected == multiset{}, it);
      SentOfHolds(store[a]);
      FlushConserves(store, sent + toSend, a, now);
      toSend' := toSend + [SentOf(store[a])];
      assert sent + toSend' == (sent + toSend) + [SentOf(store[a])];
      store := store[a := Emptied(store[a], now)];
    }

    /** Serialises and empties the batches just popped. */
    method FlushLoop(items: seq<nat>, ghost its: seq<nat>, ghost entries: map<nat, Entry>, now: int) returns (toSend: seq<Sent>)
      requires Structure(batches, store, entries, next, cfg.bufferSize, rejected == multiset{})
      requires Popped(entries, heap.Entries(), now, its, items) && NoRepeat(items) && |items| == |its|
      requires forall i :: 0 <= i < |items| ==> items[i] in store
      modifies this`store
      ensures Structure(batches, store, Remaining(entries, its), next, cfg.bufferSize, rejected == multiset{})
      ensures toSend == Flushes(old(store), items) && store == AfterFlush(old(store), items, now) && SentsHold(toSend)
      ensures SentBag(sent + toSend) + Pending(store) == SentBag(sent) + Pending(old(store))
    {
      hide Structure, Pending, SentBag, Popped, AfterFlush, Remaining, NoRepeat, Emptied;
      ghost var left := entries;
      toSend := [];
      assert sent + [] == sent && items[..0] == [] && its[..0] == [];
      NothingFlushed(store, entries, now);
      for i := 0 to |items|
        invariant Structure(batches, store, left, next, cfg.bufferSize, rejected == multiset{})
        invariant left == Remaining(entries, its[..i])
        invariant toSend == Flushes(old(store), items)[..i] && store == AfterFlush(old(store), items[..i], now) && SentsHold(toSend)
        invariant SentBag(sent + toSend) + Pending(store) == SentBag(sent) + Pending(old(store))
      {
        NextPopped(entries, heap.Entries(), now, its, items, i);
        NextFlushed(old(store), items, i, now);
        toSend := FlushOne(items[i], its[i], left, toSend, now);
        left := left - {its[i]};
      }
      assert items[..|items|] == items && its[..|its|] == its;
      assert Flushes(old(store), items)[..|items|] == Flushes(old(store), items);
    }

    /** Sends the batches just popped. */
    method FlushAll(items: seq<nat>, ghost its: seq<nat>, ghost entries: map<nat, Entry>, now: int)
      requires heap.Valid() && Structure(batches, store, entries, next, cfg.bufferSize, rejected == multiset{}) && Conserved() && Faithful()
      requires Popped(entries, heap.Entries(), now, its, items) && NoRepeat(items) && |items| == |its|
      requires forall i :: 0 <= i < |items| ==> items[i] in store
      modifies this`store, this`sent
      ensures Valid()
      ensures sent == old(sent) + Flushes(old(store), items)
      ensures store == AfterFlush(old(store), items, now)
    {
      hide Structure, Pending, SentBag, Popped, AfterFlush, Remaining, NoRepeat, Flushes;
      AllPopped(entries, heap.Entries(), now, its, items);
      var toSend := FlushLoop(items, its, entries, now);
      FlushKeepsOrder(arrivals, old(store), sent, items, now);
      Rebalance(multiset(arrivals), SentBag(sent), Pending(old(store)), SentBag(sent + toSend), Pending(store), evicted, rejected);
      sent := sent + toSend;
    }

    /** A stale key goes, with whatever still waits for it. */
    method EvictKey(k: string)
      requires Valid() && k in batches
      modifies this`batches, this`store, this`evicted, heap
      ensures Valid() && batches == old(batches) - {k} && store == Discard(old(store), old(batches)[k])
      ensures heap.Entries() == Unscheduled(old(heap.Entries()), old(batches)[k])
      ensures OnlyGone(old(store), store, {k})
      ensures Pending(old(store)) + old(evicted) == Pending(store) + evicted
    {
      hide Structure, Pending, SentBag, Discard, Unscheduled, ListBag, NoRepeat, Linked, OnlyGone;
      var list := batches[k];
      ghost var entries := heap.Entries();
      KeyFacts(batches, store, entries, next, cfg.bufferSize, rejected == multiset{}, k);
      ghost var bag := ListBag(store, list);
      DiscardPending(store, list);
      EvictKeeps(batches, store, entries, next, cfg.bufferSize, rejected == multiset{}, k);
      EvictKeepsOrder(arrivals, store, sent, list);
      Unschedule(list, entries);
      Evicted(multiset(arrivals), SentBag(sent), Pending(store), Pending(Discard(store, list)), bag, evicted, rejected);
      store := Discard(store, list);
      batches := batches - {k};
      evicted := evicted + bag;
    }

    /** Each item is removed at the place it records. */
    method Unschedule(list: seq<nat>, ghost entries: map<nat, Entry>)
      requires heap.Valid() && entries == heap.Entries() && Linked(store, entries) && NoRepeat(list)
      requires forall i :: 0 <= i < |list| ==> list[i] in store
      modifies heap
      ensures heap.Valid() && heap.Entries() == Unscheduled(entries, list)
    {
      hide Linked, NoRepeat, Unscheduled;
      NoneUnscheduled(entries);
      assert list[..0] == [];
      for i := 0 to |list|
        invariant heap.Valid() && heap.Entries() == Unscheduled(entries, list[..i])
      {
        UnscheduleStep(store, entries, list, i);
        var item := store[list[i]].item;
        if item.Some? {
          var removed := heap.Remove(heap.items[item.value].index);
          assert removed == item.value;
        }
      }
      assert list[..|list|] == list;
    }

    /** `evictStaleBatches`. */
    method EvictStaleBatches(now: int)
      requires Valid()
      modifies this`batches, this`store, this`evicted, heap
      ensures Valid() && EvictStep(old(View()), now, View())
    {
      hide Structure, Pending, SentBag, Discard, Unscheduled, Stale, StillScheduled, OrderHolds, SentsHold;
      ghost var gone: set<string> := {};
      var todo := batches.Keys;
      NoneGone(batches, store, heap.Entries(), next, cfg.bufferSize, rejected == multiset{});
      while todo != {}
        invariant Valid() && todo <= batches.Keys && todo !! gone && batches == old(batches) - gone && sent == old(sent) && rejected == old(rejected)
        invariant forall k :: k in old(batches) && k !in todo ==> (k in gone <==> Stale(old(store), old(batches)[k], now))
        invariant gone <= old(batches).Keys && OnlyGone(old(store), store, gone)
        invariant heap.Entries() == StillScheduled(old(heap.Entries()), old(store), gone)
        invariant Pending(old(store)) + old(evicted) == Pending(store) + evicted
        decreases todo
      {
        var k :| k in todo;
        todo := todo - {k};
        ListIsUsable(batches, store, heap.Entries(), next, cfg.bufferSize, rejected == multiset{}, k);
        StaleUnchanged(old(store), store, gone, batches[k], now);
        if Stale(store, batches[k], now) {
          ghost var before := store;
          UnscheduledKey(batches, store, heap.Entries(), next, cfg.bufferSize, rejected == multiset{}, k);
          ScheduledToo(old(heap.Entries()), old(store), before, gone, k);
          EvictKey(k);
          GoneToo(old(store), before, store, gone, k);
          gone := gone + {k};
        }
      }
      assert gone == StaleKeys(old(View()), now);
    }

    /** A packet for this one message. */
    method SendAlone(msg: Msg, now: int, buffSize: nat)
      requires Sane()
      modifies this`sent, this`rejected
      ensures Sane()
      ensures FitsAlone(buffSize, msg.sub) ==>
                SentAlso(old(sent), sent, Record(msg, now)) && rejected == old(rejected)
                && SentBag(sent) == SentBag(old(sent)) + multiset{Record(msg, now)}
      ensures !FitsAlone(buffSize, msg.sub) ==> sent == old(sent) && rejected == old(rejected) + multiset{Record(msg, now)}
    {
      hide Structure, SentBag, Encode, EncodeSub, FrameBytes, Wire, Subs;
      var pkt := new Packet(buffSize);
      pkt.Address(msg.route.hops, msg.route.port, msg.route.tcp);
      var ok := pkt.AppendUserPacket(msg.sub.userID, msg.sub.data);
      if !ok {
        RejectKeeps();
        rejected := rejected + multiset{Record(msg, now)};
        return;
      }
      GrownOnce(Record(msg, now));
      var buf := pkt.Emit();
      FrameIsWire(pkt.View(), Subs([Record(msg, now)]));
      SentAlone(sent, Record(msg, now), buf);
      sent := sent + [Sent(msg.key, msg.nextHop, msg.route, [Record(msg, now)], buf)];
    }
  }

  // ---------- Runs ----------

  /** The messages of a run, in the order they arrive. */
  ghost function Arrived(events: seq<Event>): seq<Record> {
    if events == [] then []
    else
      var e := events[|events| - 1];
      Arrived(events[..|events| - 1]) + (if e.Message? then [Record(e.msg, e.now)] else [])
  }

  /** A batch holds messages of its own key. */
  ghost predicate KeysHold(store: map<nat, Batch>) {
    forall a, i :: a in store && 0 <= i < |store[a].recs| ==> store[a].recs[i].msg.key == store[a].key
  }

  /** In a state of a run lists, batches, items and packets agree, and what waits has a
      deadline. */
  ghost predicate StateHolds(s: State) {
    && ListsHold(s.batches, s.store) && Linked(s.store, s.entries) && DataHolds(s.store) && FramesHold(s.store)
    && KeysHold(s.store) && SentsHold(s.sent)
  }

  /** The states a run goes through, one step for each event. */
  ghost predicate Trace(cfg: Config, events: seq<Event>, trace: seq<State>) {
    && |trace| == |events| + 1 && trace[0] == EMPTY
    && (forall i :: 0 <= i < |events| ==> Stepped(cfg, trace[i], events[i], trace[i + 1]))
    && forall i :: 0 <= i < |trace| ==> StateHolds(trace[i])
  }

  /** Over every run from the start: each event has its effect; the books balance; every
      packet sent and every batch holds messages of one key in the order they arrived, and
      every packet reads back at the other end; and if every message fits a packet, nothing
      is rejected and a batch has a deadline exactly when it holds data. */
  method RunWorker(cfg: Config, events: seq<Event>) returns (w: Worker)
    requires cfg.bufferSize >= HEADER_SIZE
    ensures fresh(w) && w.Valid() && w.arrivals == Arrived(events)
    ensures exists trace :: Trace(cfg, events, trace) && trace[|events|] == w.View()
    ensures multiset(Arrived(events)) == SentBag(w.sent) + Pending(w.store) + w.evicted + w.rejected
    ensures forall i :: 0 <= i < |w.sent| ==> Kept(Arrived(events), w.sent[i].key, w.sent[i].recs) && ReadsBack(w.sent[i])
    ensures forall a :: a in w.store ==> Kept(Arrived(events), w.store[a].key, w.store[a].recs)
    ensures (forall e :: e in events && e.Message? ==> FitsAlone(cfg.bufferSize, e.msg.sub)) ==>
              w.rejected == multiset{} && DataHolds(w.store) && NoIdle(w.store)
    ensures (forall e :: e in events ==> !e.Evict?) ==> w.evicted == multiset{}
  {
    hide Pending, SentBag, FitsAlone, Kept, ReadsBack, Trace, Arrived, DataHolds, NoIdle;
    w := new Worker(cfg);
    hide Worker.Sane, Worker.Conserved, Worker.Faithful;
    ghost var trace := [w.View()];
    ViewHolds(w);
    NoEvents(cfg);
    assert events[..0] == [];
    for i := 0 to |events|
      invariant fresh(w) && fresh(w.heap) && w.Valid() && w.arrivals == Arrived(events[..i]) && w.cfg == cfg
      invariant |trace| == i + 1 && Trace(cfg, events[..i], trace) && trace[i] == w.View()
      invariant (forall e :: e in events && e.Message? ==> FitsAlone(cfg.bufferSize, e.msg.sub)) ==> w.rejected == multiset{}
      invariant (forall e :: e in events ==> !e.Evict?) ==> w.evicted == multiset{}
    {
      assert events[..i + 1] == events[..i] + [events[i]] && events[i] in events;
      Step(w, events[i]);
      ViewHolds(w);
      OneMoreEvent(cfg, events[..i], events[i], trace, w.View());
      trace := trace + [w.View()];
    }
    assert events[..|events|] == events;
    WorkerFacts(w);
  }

  lemma NoEvents(cfg: Config)
    ensures Arrived([]) == [] && (StateHolds(EMPTY) ==> Trace(cfg, [], [EMPTY]))
  {
  }

  lemma OneMoreEvent(cfg: Config, events: seq<Event>, e: Event, trace: seq<State>, s: State)
    requires Trace(cfg, events, trace) && |trace| == |events| + 1 && Stepped(cfg, trace[|events|], e, s) && StateHolds(s)
    ensures Trace(cfg, events + [e], trace + [s])
    ensures Arrived(events + [e]) == Arrived(events) + (if e.Message? then [Record(e.msg, e.now)] else [])
  {
    hide Stepped, StateHolds;
    var events', trace' := events + [e], trace + [s];
    assert events'[..|events|] == events;
    forall i | 0 <= i < |events'|
      ensures Stepped(cfg, trace'[i], events'[i], trace'[i + 1])
    {
      assert i < |events| ==> Stepped(cfg, trace[i], events[i], trace[i + 1]);
    }
  }

  /** What a valid worker has kept. */
  lemma WorkerFacts(w: Worker)
    requires w.Valid()
    ensures multiset(w.arrivals) == SentBag(w.sent) + Pending(w.store) + w.evicted + w.rejected
    ensures forall i :: 0 <= i < |w.sent| ==> Kept(w.arrivals, w.sent[i].key, w.sent[i].recs) && ReadsBack(w.sent[i])
    ensures forall a :: a in w.store ==> Kept(w.arrivals, w.store[a].key, w.store[a].recs)
    ensures w.rejected == multiset{} ==> DataHolds(w.store) && NoIdle(w.store)
  {
    hide Pending, SentBag, Kept, ReadsBack, SentHolds;
    forall i | 0 <= i < |w.sent|
      ensures ReadsBack(w.sent[i])
    {
      SentIsRead(w.sent[i]);
    }
  }

  lemma ViewHolds(w: Worker)
    requires w.Valid()
    ensures StateHolds(w.View())
  {
    hide ListsHold, Linked, DataHolds, FramesHold, SizesHold, Below, NoIdle, Subsequence, SentHolds;
    forall a, i | a in w.store && 0 <= i < |w.store[a].recs|
      ensures w.store[a].recs[i].msg.key == w.store[a].key
    {
      assert Kept(w.arrivals, w.store[a].key, w.store[a].recs);
    }
  }

  /** One event of a run. */
  method Step(w: Worker, e: Event)
    requires w.Valid()
    modifies w, w.heap
    ensures w.Valid() && Stepped(w.cfg, old(w.View()), e, w.View())
    ensures w.arrivals == old(w.arrivals) + (if e.Message? then [Record(e.msg, e.now)] else [])
    ensures e.Message? && FitsAlone(w.cfg.bufferSize, e.msg.sub) ==> w.rejected == old(w.rejected)
    ensures !e.Message? ==> w.rejected == old(w.rejected)
    ensures !e.Evict? ==> w.evicted == old(w.evicted)
  {
    hide Pending, SentBag, Structure, OrderHolds, SentsHold, MessageStep, TimeoutStep, EvictStep;
    match e {
      case Message(msg, now) =>
        w.HandleMsg(msg, now);
        MessageBooks(w.cfg, old(w.View()), Record(msg, now), w.View());
      case Timeout(now) =>
        w.CheckTimeout(now);
      case Evict(now) =>
        w.EvictStaleBatches(now);
    }
  }

  lemma MessageBooks(cfg: Config, s: State, r: Record, s': State)
    requires MessageStep(cfg, s, r, s')
    ensures s'.evicted == s.evicted && (FitsAlone(cfg.bufferSize, r.msg.sub) ==> s'.rejected == s.rejected)
  {
  }
}
