/** Exactly which events break lease safety, for any `ackKind` and any client behaviour. */
module SafetyLimits {
  import opened Words
  import opened DhcpOptions
  import opened Messages
  import opened Timers
  import opened Pools
  import opened Leases
  import opened Transactions
  import opened Protocol
  import opened LeaseSafety
  import opened Recovery

  // ---------------------------------------------------------------- messages

  /** The REQUEST commits an address that already has a lease. */
  predicate LeasesAgain(s: State, m: Message) {
    var o54 := Retrieve(m.options, SERVER_ID);
    && m.kind == REQUEST && o54.Some? && Judge(s, m, o54.value).Commit?
    && Leased(s.store, Judge(s, m, o54.value).ip)
  }

  lemma SelectingSafeIff(s: State, now: uint32, m: Message, sent: bool, o54: DhcpOption)
    requires ValidPools(s.store.pools) && LeaseSafe(s.store) && m.kind == REQUEST
    requires Retrieve(m.options, SERVER_ID) == Some(o54)
    ensures SelectingRequest(s, now, m, sent, o54).store.pools == s.store.pools
    ensures LeaseSafe(SelectingRequest(s, now, m, sent, o54).store) <==> !LeasesAgain(s, m)
  {
    match Judge(s, m, o54)
    case Commit(ip) => CommitSafeIff(s, now, m, ip);
    case _ =>
  }

  lemma RequestSafeIff(s: State, now: uint32, m: Message, sent: bool)
    requires ValidPools(s.store.pools) && LeaseSafe(s.store) && m.kind == REQUEST
    ensures Request(s, now, m, sent).store.pools == s.store.pools
    ensures LeaseSafe(Request(s, now, m, sent).store) <==> !LeasesAgain(s, m)
  {
    var o54 := Retrieve(m.options, SERVER_ID);
    if o54.None? {
      RenewKeepsLeases(s, now, m);
    } else {
      SelectingSafeIff(s, now, m, sent, o54.value);
    }
  }

  lemma HandleSafeIff(s: State, now: uint32, m: Message, sent: bool)
    requires ValidPools(s.store.pools) && LeaseSafe(s.store)
    ensures ValidPools(Handle(s, now, m, sent).store.pools)
    ensures LeaseSafe(Handle(s, now, m, sent).store) <==> !LeasesAgain(s, m)
  {
    if m.kind == DISCOVER {
      AllocateForEffect(s.store.pools, m);
      var a := AllocateFor(s.store.pools, m).1;
      if a != 0 {
        MarkKeepsLeases(s.store, a);
      }
    } else if m.kind == REQUEST {
      RequestSafeIff(s, now, m, sent);
    } else if m.kind == DECLINE {
      var a := DeclinedAddress(s, m);
      if a != 0 {
        MarkKeepsLeases(s.store, a);
      }
    } else if m.kind == RELEASE && ReleaseLease(s, m) != s {
      DropKeepsLeases(s.store, FindPool(s.store.pools, m.ciaddr), m.ciaddr);
    }
  }

  // ---------------------------------------------------------------- timers

  /** A leased address whose bit is clear: it can be offered to somebody else. */
  predicate Orphan(st: Store, x: uint32) {
    Leased(st, x) && !Allocated(st.pools, x)
  }

  lemma OrphanIsUnsafe(st: Store, x: uint32)
    requires Orphan(st, x)
    ensures !LeaseSafe(st)
  {
    if LeaseSafe(st) {
      LeasedIsAllocated(st, x);
    }
  }

  /** The slot expires now and gives back an address that has a lease. */
  predicate Strikes(st: Store, slot: Slot, now: uint32) {
    Poll(slot.timer, now).1 && ExpiryReleases(slot) != 0 && Leased(st, ExpiryReleases(slot))
  }

  /** Valid pools in which `x` is an orphan. */
  ghost predicate Lost(st: Store, x: uint32) {
    ValidPools(st.pools) && Orphan(st, x)
  }

  lemma LostAfterRelease(st: Store, x: uint32, a: uint32)
    requires ValidPools(st.pools) && Leased(st, x) && (x == a || Orphan(st, x))
    ensures Lost(st.(pools := Release(st.pools, a)), x)
  {
    ReleaseEffect(st.pools, a);
    ShapeFind(st.pools, Release(st.pools, a), x);
  }

  lemma LostAfterSlot(s: State, i: nat, now: uint32, x: uint32)
    requires Lost(s.store, x) && i < |s.cache|
    ensures Lost(TickSlot(s, i, now).store, x)
  {
    LostAfterRelease(s.store, x, ExpiryReleases(s.cache[i]));
  }

  lemma LostAfterSlots(s: State, i: nat, now: uint32, x: uint32)
    requires Lost(s.store, x)
    ensures Lost(TickSlots(s, i, now).store, x)
  {
    forall t: State, j: nat | j < |t.cache| && Lost(t.store, x) ensures Lost(TickSlot(t, j, now).store, x) {
      LostAfterSlot(t, j, now, x);
    }
    TickSlotsKeep((t: State) => Lost(t.store, x), s, i, now);
  }

  /** Some slot from `i` on strikes. */
  ghost predicate Struck(s: State, i: nat, now: uint32) {
    exists j :: i <= j < |s.cache| && Strikes(s.store, s.cache[j], now)
  }

  /** A slot that does not strike leaves the leases safe, and who is leased unchanged. */
  lemma QuietSlot(s: State, i: nat, now: uint32)
    requires ValidPools(s.store.pools) && LeaseSafe(s.store) && i < |s.cache|
    requires !Strikes(s.store, s.cache[i], now)
    ensures var st := TickSlot(s, i, now).store;
            ValidPools(st.pools) && LeaseSafe(st) && forall b :: Leased(st, b) <==> Leased(s.store, b)
  {
    ReleaseSafeIff(s.store, ExpiryReleases(s.cache[i]));
  }

  /** Later slots are as dangerous as they were. */
  lemma StruckLater(s: State, s1: State, i: nat, now: uint32)
    requires |s1.cache| == |s.cache| && forall j :: i < j < |s.cache| ==> s1.cache[j] == s.cache[j]
    requires forall b :: Leased(s1.store, b) <==> Leased(s.store, b)
    requires i < |s.cache| && !Strikes(s.store, s.cache[i], now)
    ensures Struck(s1, i + 1, now) <==> Struck(s, i, now)
  {
    assert forall j :: i < j < |s.cache| ==>
             (Strikes(s1.store, s1.cache[j], now) <==> Strikes(s.store, s.cache[j], now));
  }

  lemma StrikeLoses(s: State, i: nat, now: uint32)
    requires ValidPools(s.store.pools) && i < |s.cache| && Strikes(s.store, s.cache[i], now)
    ensures Struck(s, i, now) && Lost(TickSlot(s, i, now).store, ExpiryReleases(s.cache[i]))
  {
    LostAfterRelease(s.store, ExpiryReleases(s.cache[i]), ExpiryReleases(s.cache[i]));
  }

  /** A striking slot leaves an orphan, whatever the later slots do. */
  lemma StrikeStep(s: State, i: nat, now: uint32)
    requires ValidPools(s.store.pools) && i < |s.cache| && Strikes(s.store, s.cache[i], now)
    ensures Struck(s, i, now) && exists x :: Lost(TickSlots(s, i, now).store, x)
  {
    StrikeLoses(s, i, now);
    LostAfterSlots(TickSlot(s, i, now), i + 1, now, ExpiryReleases(s.cache[i]));
    assert Lost(TickSlots(s, i, now).store, ExpiryReleases(s.cache[i]));
  }

  /** The state after a slot that does not strike: as safe, and in the same danger from the later ones. */
  lemma QuietStep(s: State, i: nat, now: uint32) returns (s1: State)
    requires ValidPools(s.store.pools) && LeaseSafe(s.store) && i < |s.cache|
    requires !Strikes(s.store, s.cache[i], now)
    ensures ValidPools(s1.store.pools) && LeaseSafe(s1.store) && |s1.cache| == |s.cache|
    ensures Struck(s1, i + 1, now) <==> Struck(s, i, now)
    ensures TickSlots(s, i, now) == TickSlots(s1, i + 1, now)
  {
    s1 := TickSlot(s, i, now);
    QuietSlot(s, i, now);
    StruckLater(s, s1, i, now);
  }

  /** The transaction loop of update_timers: a striking slot leaves an orphan, otherwise the leases stay safe. */
  lemma {:induction false} SlotsSafeIff(s: State, i: nat, now: uint32)
    requires ValidPools(s.store.pools) && LeaseSafe(s.store)
    ensures var st := TickSlots(s, i, now).store;
            if Struck(s, i, now) then exists x :: Lost(st, x) else ValidPools(st.pools) && LeaseSafe(st)
    decreases |s.cache| - i
  {
    if i < |s.cache| {
      if Strikes(s.store, s.cache[i], now) {
        StrikeStep(s, i, now);
      } else {
        var s1 := QuietStep(s, i, now);
        SlotsSafeIff(s1, i + 1, now);
      }
    }
  }

  lemma StaysLeased(f: seq<Lease>, a: uint32, x: uint32)
    requires HasLease(f, x) && a != x
    ensures HasLease(RemoveLease(f, a), x)
  {
    var i, k := FindLease(f, a), FindLease(f, x);
    if i < |f| {
      TakenOut(f, i);
      assert RemoveLease(f, a)[if k < i then k else k - 1].address == x;
    }
  }

  lemma LostAfterSweepAddress(st: Store, name: string, a: uint32, now: uint32, x: uint32)
    requires Lost(st, x)
    ensures Lost(SweepAddress(st, name, a, now).0, x)
  {
    if SweepAddress(st, name, a, now).1 {
      LostAfterRelease(st, x, a);
      ReleaseEffect(st.pools, a);
      ShapeFind(st.pools, Release(st.pools, a), x);
      if HasLease(File(st.files, name), x) {
        StaysLeased(File(st.files, name), a, x);
      }
    }
  }

  lemma {:induction false} RangeKeeps(keeps: Store -> bool, st: Store, name: string, a: nat, end: uint32, now: uint32, n: nat)
    requires keeps(st)
    requires forall t: Store, b: uint32 :: keeps(t) ==> keeps(SweepAddress(t, name, b, now).0)
    ensures keeps(SweepRange(st, name, a, end, now, n).0)
    decreases end - a
  {
    if a < end {
      var (st', freed) := SweepAddress(st, name, a, now);
      RangeKeeps(keeps, st', name, a + 1, end, now, if freed then n + 1 else n);
    }
  }

  lemma {:induction false} LostAfterSweep(st: Store, pools: seq<Pool>, now: uint32, n: nat, x: uint32)
    requires Lost(st, x)
    ensures Lost(SweepPools(st, pools, now, n).0, x)
    decreases pools
  {
    if pools != [] {
      var p := pools[0];
      forall t: Store, b: uint32 | Lost(t, x) ensures Lost(SweepAddress(t, p.name, b, now).0, x) {
        LostAfterSweepAddress(t, p.name, b, now, x);
      }
      RangeKeeps(t => Lost(t, x), st, p.name, p.start, p.end, now, n);
      var (st', n') := SweepRange(st, p.name, p.start, p.end, now, n);
      LostAfterSweep(st', pools[1..], now, n', x);
    }
  }

  lemma TickSafeIff(s: State, now: uint32)
    requires ValidPools(s.store.pools) && LeaseSafe(s.store)
    ensures ValidPools(Tick(s, now).store.pools)
    ensures LeaseSafe(Tick(s, now).store) <==> !Struck(s, 0, now)
  {
    SlotsSafeIff(s, 0, now);
    var st := TickSlots(s, 0, now).store;
    if Struck(s, 0, now) {
      var x :| Lost(st, x);
      LostAfterSweep(st, st.pools, now, 0, x);
      OrphanIsUnsafe(Tick(s, now).store, x);
    } else {
      assert st.pools[0..] == st.pools;
      SweepPoolsTrims(st, 0, now, 0, st.pools);
    }
  }

  // ---------------------------------------------------------------- every event

  ghost predicate Breaks(s: State, e: Event) {
    match e
    case Received(now, m, sent) => Admit(s, now, m).1 && LeasesAgain(Admit(s, now, m).0, m)
    case Timers(now) => Struck(s, 0, now)
    case Restarted(now) => false
  }

  /**
   A step of the server keeps lease safety if and only if it is not a REQUEST committing an
   address twice or the expiry of a transaction whose first offer is leased but not acknowledged.
   */
  lemma StepSafeIff(s: State, e: Event)
    requires ValidPools(s.store.pools) && LeaseSafe(s.store)
    ensures ValidPools(Step(s, e).store.pools)
    ensures LeaseSafe(Step(s, e).store) <==> !Breaks(s, e)
  {
    match e
    case Received(now, m, sent) =>
      HandleSafeIff(Admit(s, now, m).0, now, m, sent);
    case Timers(now) =>
      TickSafeIff(s, now);
    case Restarted(now) =>
      SafeIsRecoverable(s.store);
      RestartEstablishesInv(s, now);
  }

  // ---------------------------------------------------------------- whole runs

  ghost predicate NeverBreaks(s: State, events: seq<Event>)
    decreases events
  {
    events != [] ==> !Breaks(s, events[0]) && NeverBreaks(Step(s, events[0]), events[1..])
  }

  /** The leases are safe after this prefix of a run. */
  ghost predicate SafeAfter(s: State, events: seq<Event>, k: nat)
    requires k <= |events|
  {
    LeaseSafe(Run(s, events[..k]).store)
  }

  /** Over a whole run of any clients, with any type in the cached ACK: safe throughout if and only if no event breaks. */
  lemma {:induction false} RunsSafeIff(s: State, events: seq<Event>)
    requires ValidPools(s.store.pools) && LeaseSafe(s.store)
    ensures (forall k: nat :: k <= |events| ==> SafeAfter(s, events, k)) <==> NeverBreaks(s, events)
    decreases events
  {
    assert events[..0] == [] && SafeAfter(s, events, 0);
    if events != [] {
      var s1, rest := Step(s, events[0]), events[1..];
      StepSafeIff(s, events[0]);
      forall k: nat | 0 < k <= |events| ensures SafeAfter(s, events, k) <==> SafeAfter(s1, rest, k - 1) {
        RunPrefix(s, events, k);
      }
      assert rest[..0] == [] && (SafeAfter(s, events, 1) <==> SafeAfter(s1, rest, 0));
      if !Breaks(s, events[0]) {
        RunsSafeIff(s1, rest);
        assert forall k: nat :: k <= |rest| ==> (SafeAfter(s1, rest, k) <==> SafeAfter(s, events, k + 1));
      }
    }
  }
}
