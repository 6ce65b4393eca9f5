/** What a timer update and a restart do, and how long a lease lasts, said without the functions that compute it. */
module EventLaws {
  import opened Words
  import opened Messages
  import opened Timers
  import opened Pools
  import opened Leases
  import opened Transactions
  import opened Lookups
  import opened Protocol
  import opened LeaseSafety
  import opened Sweep
  import opened RequestLaws

  // ---------------------------------------------------------------- expiry

  /** An idle slot with the full time on its timer. */
  predicate Idle(slot: Slot, duration: uint32) {
    && slot.messages == [] && slot.xid == 0 && slot.begin == 0 && slot.count == 0
    && !slot.timer.running && !slot.timer.repeat && slot.timer.dtime == slot.timer.rtime == duration
  }

  /** The expiry of a transaction frees the address of its first OFFER, unless it holds an ACK, and empties the slot. */
  lemma ExpiryLaw(s: State, i: nat, now: uint32)
    requires ValidPools(s.store.pools) && i < |s.cache| && ValidSlot(s.cache[i]) && Poll(s.cache[i].timer, now).1
    ensures var s', ms := TickSlot(s, i, now), s.cache[i].messages;
            && |s'.cache| == |s.cache| && s' == s.(store := s.store.(pools := s'.store.pools), cache := s.cache[i := s'.cache[i]])
            && Idle(s'.cache[i], s.cache[i].timer.dtime)
            && (NoneOf(ms, OFFER) || !NoneOf(ms, ACK) ==> s'.store.pools == s.store.pools)
            && (forall offer :: FirstOf(ms, OFFER, offer) && NoneOf(ms, ACK) ==>
                  && (InNoPool(s.store.pools, offer.yiaddr) ==> s'.store.pools == s.store.pools)
                  && forall j: nat :: InPool(s.store.pools, offer.yiaddr, j) ==>
                       s'.store.pools ==
                       s.store.pools[j := s.store.pools[j].(used := s.store.pools[j].used - {offer.yiaddr})])
  {
    var ms := s.cache[i].messages;
    FirstIs(ms, OFFER);
    FirstIs(ms, ACK);
    var offer := First(ms, OFFER);
    if offer.Some? {
      InPoolIs(s.store.pools, offer.value.yiaddr);
      var j := FindPool(s.store.pools, offer.value.yiaddr);
      assert j < |s.store.pools| ==> s.store.pools[j].Valid();
    }
  }

  /** A transaction that is not due keeps its messages, and no address is given back. */
  lemma NotDueLaw(s: State, i: nat, now: uint32)
    requires i < |s.cache| && !Poll(s.cache[i].timer, now).1
    ensures var s' := TickSlot(s, i, now);
            && s'.store == s.store && |s'.cache| == |s.cache|
            && s'.cache == s.cache[i := s.cache[i].(timer := s'.cache[i].timer)]
  {
  }

  // ---------------------------------------------------------------- the sweep

  lemma SlotsKeepFiles(s: State, i: nat, now: uint32)
    ensures TickSlots(s, i, now).store.files == s.store.files && TickSlots(s, i, now).sweep == s.sweep
  {
    TickSlotsKeep((t: State) => t.store.files == s.store.files && t.sweep == s.sweep, s, i, now);
  }

  /** A timer update filters the lease files if the sweep is due, by the time of the update, and leaves them alone if not. */
  lemma TickFilesLaw(s: State, now: uint32, i: nat)
    requires Inv(s) && i < |s.store.pools|
    ensures var p, files' := s.store.pools[i], Step(s, Timers(now)).store.files;
            var f := File(s.store.files, p.name);
            File(files', p.name) == if Poll(s.sweep, now).1 then Kept(f, p.start, p.end, now) else f
    ensures Step(s, Timers(now)).sweep == Poll(s.sweep, now).0
  {
    SlotsKeepFiles(s, 0, now);
    TickSlotsKeepsInv(s, 0, now);
    var s1 := TickSlots(s, 0, now);
    SlotsKeepShape(s, now);
    assert s1.store.pools[i] == s.store.pools[i].(used := s1.store.pools[i].used);
    SweepIsFilter(s1.store, now);
    if Poll(s.sweep, now).1 {
      assert Swept(s1.store, Tick(s, now).store, i, s1.store.pools[i].start, s1.store.pools[i].end, now);
    }
  }

  lemma SlotsKeepShape(s: State, now: uint32)
    requires ValidPools(s.store.pools)
    ensures SameShape(s.store.pools, TickSlots(s, 0, now).store.pools)
  {
    forall t: State, j: nat | j < |t.cache| && ValidPools(t.store.pools) && SameShape(s.store.pools, t.store.pools)
      ensures ValidPools(TickSlot(t, j, now).store.pools) && SameShape(s.store.pools, TickSlot(t, j, now).store.pools)
    {
      ReleaseEffect(t.store.pools, ExpiryReleases(t.cache[j]));
      ShapeTwice(s.store.pools, t.store.pools, Release(t.store.pools, ExpiryReleases(t.cache[j])));
    }
    TickSlotsKeep((t: State) => ValidPools(t.store.pools) && SameShape(s.store.pools, t.store.pools), s, 0, now);
  }

  // ---------------------------------------------------------------- how long a lease lasts

  lemma {:induction false} KeptAre(f: seq<Lease>, lo: int, hi: int, now: uint32, l: Lease)
    ensures l in Kept(f, lo, hi, now) <==> l in f && !Due(l, lo, hi, now)
  {
    if f != [] {
      KeptAre(f[1..], lo, hi, now, l);
      assert f == [f[0]] + f[1..];
    }
  }

  /** The only record of an address is found as long as it is kept. */
  lemma KeptLookup(f: seq<Lease>, l: Lease, lo: int, hi: int, now: uint32)
    requires Unique(f) && l in f
    ensures Lookup(Kept(f, lo, hi, now), l.address) == if Due(l, lo, hi, now) then None else Some(l)
  {
    var g := Kept(f, lo, hi, now);
    var k := FindLease(g, l.address);
    KeptAre(f, lo, hi, now, l);
    if k < |g| {
      KeptAre(f, lo, hi, now, g[k]);
      assert g[k] == l;
    }
    if !Due(l, lo, hi, now) {
      var j :| 0 <= j < |g| && g[j] == l;
    }
  }

  lemma RecordLasts(st: Store, i: nat, l: Lease, later: uint32)
    requires ValidPools(st.pools) && LeaseSafe(st) && i < |st.pools| && l in File(st.files, st.pools[i].name)
    ensures var p := st.pools[i];
            Lookup(File(SweepLeases(st, later).0.files, p.name), l.address) ==
            if Due(l, p.start, p.end, later) then None else Some(l)
  {
    var p := st.pools[i];
    assert FileSafe(p, File(st.files, p.name));
    SweepIsFilter(st, later);
    assert Swept(st, SweepLeases(st, later).0, i, p.start, p.end, later);
    KeptLookup(File(st.files, p.name), l, p.start, p.end, later);
  }

  lemma CommitRecords(s: State, now: uint32, m: Message, sent: bool, t: nat, i: nat, a: uint32, time: uint32)
    requires m.kind == REQUEST && Granted(s, m, t, i, a, time) && ValidCache(s.cache)
    ensures var st, p := Handle(s, now, m, sent).store, s.store.pools[i];
            && st.pools == s.store.pools && p.Contains(a)
            && Record(m, now, a, p.mask, time) in File(st.files, p.name)
  {
    CommitLaw(s, now, m, sent, t, i, a, time);
    var f, l := File(s.store.files, s.store.pools[i].name), Record(m, now, a, s.store.pools[i].mask, time);
    assert (f + [l])[|f|] == l;
  }

  lemma GrantLasts(st: Store, i: nat, m: Message, now: uint32, a: uint32, time: uint32, later: uint32)
    requires ValidPools(st.pools) && LeaseSafe(st) && i < |st.pools| && st.pools[i].Contains(a) && now + time < TWO32
    requires Record(m, now, a, st.pools[i].mask, time) in File(st.files, st.pools[i].name)
    ensures Lookup(File(SweepLeases(st, later).0.files, st.pools[i].name), a) ==
            if later >= now + time && a < st.pools[i].end then None
            else Some(Lease(a, st.pools[i].mask, now, now + time, m.xid, 0, m.chaddr))
  {
    var l := Record(m, now, a, st.pools[i].mask, time);
    assert l.expire == now + time;
    RecordLasts(st, i, l, later);
  }

  /**
   The lease of a granted REQUEST is found, with what was recorded, until the first sweep at or after
   the end of its period, and for good if its address is the last of the pool.
   */
  lemma LeaseLasts(s: State, now: uint32, m: Message, sent: bool, t: nat, i: nat, a: uint32, time: uint32, later: uint32)
    requires m.kind == REQUEST && Granted(s, m, t, i, a, time) && ValidCache(s.cache) && now + time < TWO32
    requires ValidPools(s.store.pools) && LeaseSafe(Handle(s, now, m, sent).store)
    ensures var st, p := SweepLeases(Handle(s, now, m, sent).store, later).0, s.store.pools[i];
            Lookup(File(st.files, p.name), a) ==
            if later >= now + time && a < p.end then None
            else Some(Lease(a, p.mask, now, now + time, m.xid, 0, m.chaddr))
  {
    CommitRecords(s, now, m, sent, t, i, a, time);
    GrantLasts(Handle(s, now, m, sent).store, i, m, now, a, time, later);
  }

  // ---------------------------------------------------------------- restart

  /** A restart empties the cache and the dynamic list and starts the sweep timer; the static list stays. */
  lemma RestartLaw(s: State, now: uint32)
    ensures var s' := Step(s, Restarted(now));
            && |s'.cache| == |s.cache| && (forall i :: 0 <= i < |s.cache| ==> Idle(s'.cache[i], s.cache[i].timer.dtime))
            && s'.dacl.entries == [] && s'.dacl.enabled == s.dacl.enabled && s'.dacl.isBlacklist == s.dacl.isBlacklist
            && s'.sweep.running && s'.sweep.repeat && s'.sweep.rtime == s'.sweep.dtime == s.sweep.dtime
            && s'.sweep.ltime == now && s'.acl == s.acl && s'.cfg == s.cfg
  {
  }
}
