/**
 When a transaction expires in a run of the server, and what becomes of its offer: the polled
 timers of the cache keep the time of the whole protocol.
 */
module Expiry {
  import opened Words
  import opened Messages
  import opened Timers
  import opened Pools
  import opened Transactions
  import opened Protocol
  import opened Growth
  import opened LeaseSafety
  import opened SafetyLimits

  // ---------------------------------------------------------------- one timer

  /** The running timer of a transaction that began at `base`; it has not been found due so far. */
  ghost predicate Counting(t: TimerState, base: uint32) {
    && t.running && t.rtime <= t.dtime && (t.rtime > 0 || t.dtime == 0)
    && Sub32(t.ltime, base) == t.dtime - t.rtime
  }

  /** The time is up, by the clock alone. */
  predicate TimeUp(base: uint32, d: uint32, now: uint32) {
    Sub32(now, base) >= Max1(d)
  }

  lemma Elapsed(base: uint32, last: uint32, now: uint32)
    requires Sub32(last, base) <= Sub32(now, base)
    ensures Sub32(now, last) == Sub32(now, base) - Sub32(last, base)
  {
  }

  /** Polled at a later time, the timer is due exactly when the time is up, and goes on counting otherwise. */
  lemma PollCounting(t: TimerState, base: uint32, now: uint32)
    requires Counting(t, base) && Sub32(t.ltime, base) <= Sub32(now, base)
    ensures Poll(t, now).1 <==> TimeUp(base, t.dtime, now)
    ensures var t' := Poll(t, now).0;
            !Poll(t, now).1 ==> Counting(t', base) && t'.dtime == t.dtime && Sub32(t'.ltime, base) <= Sub32(now, base)
  {
    Elapsed(base, t.ltime, now);
  }

  /** A slot that is opened counts from the moment it is opened. */
  lemma OpenedCounts(cache: seq<Slot>, m: Message, now: uint32)
    requires ValidCache(cache) && Target(cache, m.xid) < |cache| && cache[Target(cache, m.xid)].messages == []
    ensures var c, t := AddMessage(cache, m, now), Target(cache, m.xid);
            c.Some? && t < |c.value| && c.value[t].begin == now && Counting(c.value[t].timer, now)
  {
    AddMessageEffect(cache, m, now);
    assert ValidSlot(cache[Target(cache, m.xid)]);
  }

  /**
   A later message leaves the timer alone, except the one that finds the 8 bit counter at 0, after 256
   messages: it starts the timer anew without charging the time since the last poll. The transaction
   then counts on from `base` exactly if no time had passed.
   */
  lemma MessageCountsIff(slot: Slot, m: Message, now: uint32, base: uint32)
    requires ValidSlot(slot) && Counting(slot.timer, base) && slot.xid == m.xid
    ensures var r := TransAdd(slot, m, now);
            r.Some? && (Counting(r.value.timer, base) <==> |slot.messages| % 256 != 0 || now == slot.timer.ltime)
  {
    if |slot.messages| % 256 == 0 && Counting(TransAdd(slot, m, now).value.timer, base) {
      SameElapsed(now, slot.timer.ltime, base);
    }
  }

  lemma SameElapsed(a: uint32, b: uint32, base: uint32)
    requires Sub32(a, base) == Sub32(b, base)
    ensures a == b
  {
  }

  // ---------------------------------------------------------------- one slot through one event

  /** The transaction of `slot0`, still running and with perhaps more messages. */
  ghost predicate Continues(slot0: Slot, slot: Slot, base: uint32, last: uint32) {
    && ValidSlot(slot) && Counting(slot.timer, base) && Sub32(slot.timer.ltime, base) <= last
    && slot.xid == slot0.xid && slot.begin == slot0.begin && slot.timer.dtime == slot0.timer.dtime
    && slot0.messages <= slot.messages
  }

  /** Slots of a cache that grows stay valid, and none loses a message. */
  lemma GrowsEffect(cache: seq<Slot>, cache': seq<Slot>, m: Message, now: uint32, i: nat)
    requires ValidCache(cache) && Grows(cache, cache', m, now) && i < |cache|
    ensures ValidCache(cache') && |cache'| == |cache| && cache[i].messages <= cache'[i].messages
  {
    if cache' != cache {
      var r :| Answers(r, m) && AddMessage(cache, r, now) == Some(cache');
      AddMessageEffect(cache, r, now);
    }
  }

  /** Up to its 256th message a transaction goes on counting, whatever the cache receives. */
  lemma GrowsContinues(slot0: Slot, cache: seq<Slot>, cache': seq<Slot>, m: Message, now: uint32,
                       i: nat, base: uint32, last: uint32)
    requires ValidCache(cache) && Grows(cache, cache', m, now) && i < |cache| == |cache'|
    requires Continues(slot0, cache[i], base, last) && |cache'[i].messages| <= 256
    ensures Continues(slot0, cache'[i], base, last)
  {
    if cache' != cache {
      var r :| Answers(r, m) && AddMessage(cache, r, now) == Some(cache');
      AddMessageEffect(cache, r, now);
      if Target(cache, r.xid) == i {
        JoinContinues(slot0, cache[i], r.(time := now), now, base, last);
      }
    }
  }

  lemma JoinContinues(slot0: Slot, slot: Slot, m: Message, now: uint32, base: uint32, last: uint32)
    requires Continues(slot0, slot, base, last) && slot.xid == m.xid && |slot.messages| < 256
    ensures TransAdd(slot, m, now).Some? && Continues(slot0, TransAdd(slot, m, now).value, base, last)
  {
    TransAddEffect(slot, m, now);
  }

  // ---------------------------------------------------------------- timer updates

  /** What update_timers makes of one slot. */
  function Ticked(slot: Slot, now: uint32): Slot {
    var (timer, due) := Poll(slot.timer, now);
    if due then Clear(slot.(timer := timer), now) else slot.(timer := timer)
  }

  lemma TickSlotAt(s: State, i: nat, now: uint32)
    requires i < |s.cache|
    ensures TickSlot(s, i, now).cache == s.cache[i := Ticked(s.cache[i], now)]
  {
  }

  lemma {:induction false} TickSlotsAt(s: State, i: nat, now: uint32, k: nat)
    requires k < |s.cache|
    ensures var c := TickSlots(s, i, now).cache;
            |c| == |s.cache| && c[k] == if i <= k then Ticked(s.cache[k], now) else s.cache[k]
    decreases |s.cache| - i
  {
    if i < |s.cache| {
      TickSlotAt(s, i, now);
      TickSlotsAt(TickSlot(s, i, now), i + 1, now, k);
    }
  }

  lemma TickKeepsCache(s: State, now: uint32)
    requires ValidCache(s.cache)
    ensures |Tick(s, now).cache| == |s.cache| && ValidCache(Tick(s, now).cache)
  {
    if s.cache != [] {
      TickSlotsAt(s, 0, now, 0);
    }
    forall k | 0 <= k < |Tick(s, now).cache| ensures ValidSlot(Tick(s, now).cache[k]) {
      TickSlotsAt(s, 0, now, k);
      assert ValidSlot(s.cache[k]);
    }
  }

  lemma TickedContinues(slot0: Slot, slot: Slot, base: uint32, last: uint32, now: uint32)
    requires Continues(slot0, slot, base, last) && last <= Sub32(now, base)
    ensures TimeUp(base, slot.timer.dtime, now) ==> Ticked(slot, now).messages == [] && Poll(slot.timer, now).1
    ensures !TimeUp(base, slot.timer.dtime, now) ==> Continues(slot0, Ticked(slot, now), base, Sub32(now, base))
  {
    PollCounting(slot.timer, base, now);
  }

  // ---------------------------------------------------------------- the pools stay valid

  lemma MarkValid(pools: seq<Pool>, a: uint32)
    requires ValidPools(pools)
    ensures ValidPools(Mark(pools, a))
  {
    var i := FindPool(pools, a);
    if i < |pools| {
      ReplaceUsed(pools, i, pools[i].used + {a});
    }
  }

  lemma DiscoverKeepsPools(s: State, now: uint32, m: Message, sent: bool)
    requires ValidPools(s.store.pools)
    ensures ValidPools(Discover(s, now, m, sent).store.pools)
  {
    AllocateForEffect(s.store.pools, m);
    MarkValid(s.store.pools, AllocateFor(s.store.pools, m).1);
  }

  lemma DeclineKeepsPools(s: State, m: Message)
    requires ValidPools(s.store.pools)
    ensures ValidPools(Decline(s, m).store.pools)
  {
    MarkValid(s.store.pools, DeclinedAddress(s, m));
  }

  lemma ReleaseKeepsPools(s: State, m: Message)
    requires ValidPools(s.store.pools)
    ensures ValidPools(ReleaseLease(s, m).store.pools)
  {
    ReleaseEffect(s.store.pools, m.ciaddr);
  }

  lemma RequestKeepsPools(s: State, now: uint32, m: Message, sent: bool)
    ensures Request(s, now, m, sent).store.pools == s.store.pools
  {
  }

  lemma HandleKeepsPools(s: State, now: uint32, m: Message, sent: bool)
    requires ValidPools(s.store.pools)
    ensures ValidPools(Handle(s, now, m, sent).store.pools)
  {
    if m.kind == DISCOVER {
      DiscoverKeepsPools(s, now, m, sent);
    } else if m.kind == REQUEST {
      RequestKeepsPools(s, now, m, sent);
    } else if m.kind == DECLINE {
      DeclineKeepsPools(s, m);
    } else if m.kind == RELEASE {
      ReleaseKeepsPools(s, m);
    }
  }

  /** The address is not marked. */
  ghost predicate Free(st: Store, a: uint32) {
    ValidPools(st.pools) && !Allocated(st.pools, a)
  }

  /** A property of the pools that every release keeps. */
  ghost predicate Steady(keeps: Store -> bool) {
    forall st: Store, files, a: uint32 :: keeps(st) ==> keeps(Store(Release(st.pools, a), files)) && keeps(st.(files := files))
  }

  lemma FreeIsSteady(a: uint32)
    ensures Steady((st: Store) => Free(st, a)) && Steady((st: Store) => ValidPools(st.pools))
  {
    forall st: Store, b: uint32 | ValidPools(st.pools) ensures ValidPools(Release(st.pools, b)) {
      ReleaseEffect(st.pools, b);
    }
    forall st: Store, b: uint32 | Free(st, a) ensures !Allocated(Release(st.pools, b), a) {
      ReleaseEffect(st.pools, b);
    }
  }

  lemma TickSlotSteady(keeps: Store -> bool, s: State, i: nat, now: uint32)
    requires Steady(keeps) && keeps(s.store) && i < |s.cache|
    ensures keeps(TickSlot(s, i, now).store)
  {
    assert s.store.(files := s.store.files) == s.store;
    assert keeps(Store(Release(s.store.pools, ExpiryReleases(s.cache[i])), s.store.files));
  }

  lemma TickSlotsSteady(keeps: Store -> bool, s: State, i: nat, now: uint32)
    requires Steady(keeps) && keeps(s.store)
    ensures keeps(TickSlots(s, i, now).store)
  {
    forall t: State, j: nat | j < |t.cache| && keeps(t.store) ensures keeps(TickSlot(t, j, now).store) {
      TickSlotSteady(keeps, t, j, now);
    }
    TickSlotsKeep((t: State) => keeps(t.store), s, i, now);
  }

  lemma {:induction false} SweepSteady(keeps: Store -> bool, st: Store, pools: seq<Pool>, now: uint32, n: nat)
    requires Steady(keeps) && keeps(st)
    ensures keeps(SweepPools(st, pools, now, n).0)
    decreases pools
  {
    if pools != [] {
      var p := pools[0];
      forall t: Store, b: uint32 | keeps(t) ensures keeps(SweepAddress(t, p.name, b, now).0) {
      }
      RangeKeeps(keeps, st, p.name, p.start, p.end, now, n);
      var (st', n') := SweepRange(st, p.name, p.start, p.end, now, n);
      SweepSteady(keeps, st', pools[1..], now, n');
    }
  }

  lemma TickSteady(keeps: Store -> bool, s: State, now: uint32)
    requires Steady(keeps) && keeps(s.store)
    ensures keeps(Tick(s, now).store)
  {
    TickSlotsSteady(keeps, s, 0, now);
    var st := TickSlots(s, 0, now).store;
    SweepSteady(keeps, st, st.pools, now, 0);
  }

  /** What a due slot gives back is free after the whole timer update. */
  lemma {:induction false} DueSlotFrees(s: State, i: nat, t: nat, now: uint32)
    requires ValidPools(s.store.pools) && i <= t < |s.cache|
    requires Poll(s.cache[t].timer, now).1 && ExpiryReleases(s.cache[t]) != 0
    ensures Free(TickSlots(s, i, now).store, ExpiryReleases(s.cache[t]))
    decreases t - i
  {
    var s1, a := TickSlot(s, i, now), ExpiryReleases(s.cache[t]);
    FreeIsSteady(a);
    if i == t {
      ReleaseEffect(s.store.pools, a);
      TickSlotsSteady((st: Store) => Free(st, a), s1, i + 1, now);
    } else {
      TickSlotSteady((st: Store) => ValidPools(st.pools), s, i, now);
      DueSlotFrees(s1, i + 1, t, now);
    }
  }

  // ---------------------------------------------------------------- whole runs

  /** Events without restart, in the order of the clock, whose timer updates all come before the time is up. */
  ghost predicate Before(base: uint32, d: uint32, last: uint32, events: seq<Event>)
    decreases events
  {
    events != [] ==>
      var e := events[0];
      && !e.Restarted? && last <= Sub32(e.now, base)
      && (e.Timers? ==> !TimeUp(base, d, e.now))
      && Before(base, d, Sub32(e.now, base), events[1..])
  }

  /** The clock after the events. */
  function LastTime(base: uint32, last: uint32, events: seq<Event>): uint32
    decreases events
  {
    if events == [] then last else LastTime(base, Sub32(events[0].now, base), events[1..])
  }

  ghost predicate Sound(s: State) {
    ValidPools(s.store.pools) && ValidCache(s.cache)
  }

  lemma StepSound(s: State, e: Event, i: nat)
    requires Sound(s) && !e.Restarted? && i < |s.cache|
    ensures Sound(Step(s, e)) && |Step(s, e).cache| == |s.cache|
    ensures e.Received? ==> s.cache[i].messages <= Step(s, e).cache[i].messages
  {
    match e
    case Received(now, m, sent) =>
      var c := ReceiveGrows(s, now, m, sent);
      GrowsEffect(s.cache, c, m, now, i);
      GrowsEffect(c, Receive(s, now, m, sent).cache, m, now, i);
      HandleKeepsPools(Admit(s, now, m).0, now, m, sent);
    case Timers(now) =>
      TickKeepsCache(s, now);
      FreeIsSteady(0);
      TickSteady((st: Store) => ValidPools(st.pools), s, now);
  }

  /** A transaction with at most 256 messages after the event goes on through it, unless its time is up. */
  lemma StepContinues(slot0: Slot, s: State, e: Event, i: nat, base: uint32, last: uint32)
    requires Sound(s) && !e.Restarted? && i < |s.cache| && Continues(slot0, s.cache[i], base, last)
    requires last <= Sub32(e.now, base) && (e.Timers? ==> !TimeUp(base, slot0.timer.dtime, e.now))
    requires i < |Step(s, e).cache| && |Step(s, e).cache[i].messages| <= 256
    ensures Continues(slot0, Step(s, e).cache[i], base, Sub32(e.now, base))
  {
    match e
    case Received(now, m, sent) =>
      var c := ReceiveGrows(s, now, m, sent);
      GrowsEffect(s.cache, c, m, now, i);
      GrowsEffect(c, Receive(s, now, m, sent).cache, m, now, i);
      GrowsContinues(slot0, s.cache, c, m, now, i, base, last);
      GrowsContinues(slot0, c, Receive(s, now, m, sent).cache, m, now, i, base, last);
    case Timers(now) =>
      TickSlotsAt(s, 0, now, i);
      TickedContinues(slot0, s.cache[i], base, last, now);
  }

  /** The slot never holds more than 256 messages on the way. */
  ghost predicate Few(s: State, events: seq<Event>, i: nat)
    decreases events
  {
    && i < |s.cache| && |s.cache[i].messages| <= 256
    && (events != [] ==> Few(Step(s, events[0]), events[1..], i))
  }

  /** Through all events before its time is up a transaction goes on and counts from its beginning. */
  lemma {:induction false} RunContinues(slot0: Slot, s: State, events: seq<Event>, i: nat, base: uint32, last: uint32)
    requires Sound(s) && Few(s, events, i) && Continues(slot0, s.cache[i], base, last)
    requires Before(base, slot0.timer.dtime, last, events)
    ensures Sound(Run(s, events)) && |Run(s, events).cache| == |s.cache|
    ensures Continues(slot0, Run(s, events).cache[i], base, LastTime(base, last, events))
    decreases events
  {
    if events != [] {
      var e := events[0];
      StepSound(s, e, i);
      StepContinues(slot0, s, e, i, base, last);
      RunContinues(slot0, Step(s, e), events[1..], i, base, Sub32(e.now, base));
    }
  }

  /** What a transaction that goes on gives back at expiry: its first offer, unless it holds an ACK. */
  lemma {:induction false} FirstOfPrefix(ms: seq<Message>, more: seq<Message>, kind: uint32)
    requires ms <= more && First(ms, kind).Some?
    ensures First(more, kind) == First(ms, kind)
  {
    if ms[0].kind != kind {
      FirstOfPrefix(ms[1..], more[1..], kind);
    }
  }

  /** The timer update that finds the time up. */
  lemma ExpiryFrees(slot0: Slot, s: State, i: nat, base: uint32, last: uint32, now: uint32)
    requires Sound(s) && i < |s.cache| && Continues(slot0, s.cache[i], base, last)
    requires last <= Sub32(now, base) && TimeUp(base, slot0.timer.dtime, now)
    ensures |Tick(s, now).cache| == |s.cache| && Tick(s, now).cache[i].messages == []
    ensures ExpiryReleases(s.cache[i]) != 0 ==> !Allocated(Tick(s, now).store.pools, ExpiryReleases(s.cache[i]))
  {
    TickSlotsAt(s, 0, now, i);
    TickedContinues(slot0, s.cache[i], base, last, now);
    var a := ExpiryReleases(s.cache[i]);
    if a != 0 {
      DueSlotFrees(s, 0, i, now);
      FreeIsSteady(a);
      var st := TickSlots(s, 0, now).store;
      SweepSteady((st: Store) => Free(st, a), st, st.pools, now, 0);
    }
  }

  /**
   A transaction that began at `base` runs until the first timer update at or after `base` plus its
   duration, whatever is received meanwhile, and that update ends it: its first offer, if no ACK has
   been cached by then, is free again. No more than 256 messages may have been cached in it
   (`MessageCountsIff`); neither honest clients nor a typed ACK are assumed.
   */
  lemma OfferReturns(s: State, i: nat, base: uint32, events: seq<Event>, now: uint32, offer: Message)
    requires Sound(s) && Few(s, events, i) && Counting(s.cache[i].timer, base)
    requires var last := Sub32(s.cache[i].timer.ltime, base);
             && Before(base, s.cache[i].timer.dtime, last, events)
             && LastTime(base, last, events) <= Sub32(now, base) && TimeUp(base, s.cache[i].timer.dtime, now)
    requires First(s.cache[i].messages, OFFER) == Some(offer)
    ensures var s1, s2 := Run(s, events), Step(Run(s, events), Timers(now));
            && |s2.cache| == |s1.cache| == |s.cache|
            && s.cache[i].messages <= s1.cache[i].messages && s2.cache[i].messages == []
            && (First(s1.cache[i].messages, ACK).None? && offer.yiaddr != 0 ==> !Allocated(s2.store.pools, offer.yiaddr))
  {
    var slot0 := s.cache[i];
    var last := Sub32(slot0.timer.ltime, base);
    RunContinues(slot0, s, events, i, base, last);
    var s1 := Run(s, events);
    FirstOfPrefix(slot0.messages, s1.cache[i].messages, OFFER);
    ExpiryFrees(slot0, s1, i, base, LastTime(base, last, events), now);
  }
}
