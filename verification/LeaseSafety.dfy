/**
 Lease safety: the pool bitmaps, the lease files and the outstanding offers agree in every
 state of every run.
 */
module LeaseSafety {
  import opened Words
  import opened DhcpOptions
  import opened Messages
  import opened Timers
  import opened Pools
  import opened Leases
  import opened Transactions
  import opened Protocol

  // ---------------------------------------------------------------- the invariant

  /** Every record's address is marked in the pool, and no two records share one. */
  ghost predicate FileSafe(p: Pool, f: seq<Lease>) {
    && Unique(f)
    && forall k :: 0 <= k < |f| ==> f[k].address in p.used
  }

  ghost predicate LeaseSafe(st: Store) {
    forall i :: 0 <= i < |st.pools| ==> FileSafe(st.pools[i], File(st.files, st.pools[i].name))
  }

  predicate Leased(st: Store, a: uint32) {
    var i := FindPool(st.pools, a);
    i < |st.pools| && HasLease(File(st.files, st.pools[i].name), a)
  }

  predicate Acked(slot: Slot) {
    First(slot.messages, ACK).Some?
  }

  /** Addresses offered in a transaction that has no ACK yet. */
  function Offered(slot: Slot): set<uint32> {
    if Acked(slot) then {}
    else set k | 0 <= k < |slot.messages| && slot.messages[k].kind == OFFER :: slot.messages[k].yiaddr
  }

  ghost predicate SlotSafe(st: Store, slot: Slot) {
    forall a :: a in Offered(slot) ==> Allocated(st.pools, a) && !Leased(st, a)
  }

  ghost predicate Apart(cache: seq<Slot>) {
    forall i, j :: 0 <= i < j < |cache| ==> Offered(cache[i]) !! Offered(cache[j])
  }

  ghost predicate OffersSafe(st: Store, cache: seq<Slot>) {
    && (forall i :: 0 <= i < |cache| ==> SlotSafe(st, cache[i]))
    && Apart(cache)
  }

  ghost predicate Inv(s: State) {
    && ValidPools(s.store.pools)
    && LeaseSafe(s.store)
    && ValidCache(s.cache)
    && OffersSafe(s.store, s.cache)
  }

  /** What the invariant means for clients: one record per address over all files. */
  lemma NoAddressLeasedTwice(st: Store, i: nat, k: nat, j: nat, l: nat)
    requires ValidPools(st.pools) && LeaseSafe(st)
    requires i < |st.pools| && k < |File(st.files, st.pools[i].name)|
    requires j < |st.pools| && l < |File(st.files, st.pools[j].name)|
    requires File(st.files, st.pools[i].name)[k].address == File(st.files, st.pools[j].name)[l].address
    ensures i == j && k == l
  {
    OnlyPool(st.pools, i, File(st.files, st.pools[i].name)[k].address);
    OnlyPool(st.pools, j, File(st.files, st.pools[j].name)[l].address);
  }

  // ---------------------------------------------------------------- changes to one pool and its file

  /** `st'` differs from `st` at most in the bitmap and the file of pool `i`. */
  ghost predicate Touches(st: Store, st': Store, i: nat) {
    && SameShape(st.pools, st'.pools)
    && i < |st.pools|
    && (forall a :: a in st'.pools[i].used ==> st.pools[i].Contains(a))
    && forall j :: 0 <= j < |st.pools| && j != i ==>
         st'.pools[j] == st.pools[j] && File(st'.files, st.pools[j].name) == File(st.files, st.pools[j].name)
  }

  lemma TouchEffect(st: Store, st': Store, i: nat)
    requires ValidPools(st.pools) && Touches(st, st', i)
    ensures ValidPools(st'.pools)
    ensures forall b :: Allocated(st'.pools, b) <==>
              if FindPool(st.pools, b) == i then b in st'.pools[i].used else Allocated(st.pools, b)
    ensures forall b :: Leased(st', b) <==>
              if FindPool(st.pools, b) == i then HasLease(File(st'.files, st.pools[i].name), b) else Leased(st, b)
    ensures LeaseSafe(st) ==>
              (LeaseSafe(st') <==> FileSafe(st'.pools[i], File(st'.files, st.pools[i].name)))
  {
    ReplaceUsed(st.pools, i, st'.pools[i].used);
    assert st'.pools == st.pools[i := st.pools[i].(used := st'.pools[i].used)];
    forall b ensures FindPool(st'.pools, b) == FindPool(st.pools, b) {
      ShapeFind(st.pools, st'.pools, b);
    }
    assert st'.pools[i].name == st.pools[i].name;
  }

  /** New contents for the bitmap and the file of one pool. */
  function Put(st: Store, i: nat, used: set<uint32>, f: seq<Lease>): Store
    requires i < |st.pools|
  {
    Store(st.pools[i := st.pools[i].(used := used)], st.files[st.pools[i].name := f])
  }

  lemma PutTouches(st: Store, i: nat, used: set<uint32>, f: seq<Lease>)
    requires ValidPools(st.pools) && i < |st.pools| && forall a :: a in used ==> st.pools[i].Contains(a)
    ensures Touches(st, Put(st, i, used, f), i)
    ensures Touches(st, st.(pools := st.pools[i := st.pools[i].(used := used)]), i)
  {
  }

  /** Under lease safety a leased address is a marked one. */
  lemma LeasedIsAllocated(st: Store, a: uint32)
    requires LeaseSafe(st) && Leased(st, a)
    ensures Allocated(st.pools, a)
  {
    var i := FindPool(st.pools, a);
    assert FileSafe(st.pools[i], File(st.files, st.pools[i].name));
  }

  lemma MarkKeepsLeases(st: Store, a: uint32)
    requires ValidPools(st.pools) && LeaseSafe(st) && FindPool(st.pools, a) < |st.pools|
    ensures var st' := st.(pools := Mark(st.pools, a));
            && ValidPools(st'.pools) && LeaseSafe(st')
            && (forall b :: Leased(st', b) <==> Leased(st, b))
            && (forall b :: Allocated(st'.pools, b) <==> Allocated(st.pools, b) || b == a)
  {
    var i := FindPool(st.pools, a);
    assert FileSafe(st.pools[i], File(st.files, st.pools[i].name));
    PutTouches(st, i, st.pools[i].used + {a}, []);
    TouchEffect(st, st.(pools := Mark(st.pools, a)), i);
  }

  /** Clearing a bit keeps lease safety exactly when no record holds the address. */
  lemma ReleaseSafeIff(st: Store, a: uint32)
    requires ValidPools(st.pools) && LeaseSafe(st)
    ensures var st' := st.(pools := Release(st.pools, a));
            && ValidPools(st'.pools)
            && (LeaseSafe(st') <==> !Leased(st, a))
            && (forall b :: Leased(st', b) <==> Leased(st, b))
            && (forall b :: Allocated(st'.pools, b) <==> Allocated(st.pools, b) && b != a)
  {
    var i := FindPool(st.pools, a);
    if i < |st.pools| {
      assert FileSafe(st.pools[i], File(st.files, st.pools[i].name));
      PutTouches(st, i, st.pools[i].used - {a}, []);
      TouchEffect(st, st.(pools := Release(st.pools, a)), i);
    }
  }

  /** Appending a record keeps lease safety exactly when its marked address has none yet. */
  lemma CommitSafeIff(s: State, now: uint32, m: Message, ip: uint32)
    requires ValidPools(s.store.pools) && LeaseSafe(s.store) && Allocated(s.store.pools, ip)
    ensures var s' := CommitLease(s, now, m, ip);
            && (LeaseSafe(s'.store) <==> !Leased(s.store, ip))
            && (forall b :: Leased(s'.store, b) <==> Leased(s.store, b) || b == ip)
  {
    var i, st := FindPool(s.store.pools, ip), s.store;
    var f := File(st.files, st.pools[i].name);
    var f' := File(CommitLease(s, now, m, ip).store.files, st.pools[i].name);
    var st' := CommitLease(s, now, m, ip).store;
    assert FileSafe(st.pools[i], f);
    AppendEffect(f, f'[|f|]);
    assert Touches(st, st', i) by {
      assert st' == Put(st, i, st.pools[i].used, f');
      PutTouches(st, i, st.pools[i].used, f');
    }
    TouchEffect(st, st', i);
  }

  /** Moving the record of an address to the end, with another period. */
  lemma ReplaceRecord(p: Pool, f: seq<Lease>, l: Lease)
    requires FileSafe(p, f) && HasLease(f, l.address)
    ensures var g := RemoveLease(f, l.address) + [l];
            FileSafe(p, g) && forall b :: HasLease(g, b) <==> HasLease(f, b)
  {
    RemoveEffect(f, l.address);
    AppendEffect(RemoveLease(f, l.address), l);
  }

  lemma RenewKeepsLeases(s: State, now: uint32, m: Message)
    requires ValidPools(s.store.pools) && LeaseSafe(s.store)
    ensures var s' := RenewLease(s, now, m);
            && LeaseSafe(s'.store) && s' == s.(store := s.store.(files := s'.store.files))
            && (forall b :: Leased(s'.store, b) <==> Leased(s.store, b))
  {
    var i, st := FindPool(s.store.pools, m.ciaddr), s.store;
    if RenewLease(s, now, m) != s {
      var f := File(st.files, st.pools[i].name);
      var l := f[FindLease(f, m.ciaddr)].(start := now, expire := Add32(now, LeaseTime(s, i)));
      var g := RemoveLease(f, m.ciaddr) + [l];
      assert FileSafe(st.pools[i], f);
      ReplaceRecord(st.pools[i], f, l);
      assert RenewLease(s, now, m).store == Put(st, i, st.pools[i].used, g);
      PutTouches(st, i, st.pools[i].used, g);
      TouchEffect(st, Put(st, i, st.pools[i].used, g), i);
    }
  }

  /** Removing the record and clearing the bit of one address. */
  lemma DropKeepsLeases(st: Store, i: nat, a: uint32)
    requires ValidPools(st.pools) && LeaseSafe(st) && i < |st.pools| && st.pools[i].Contains(a)
    ensures var st' := Drop(st, st.pools[i].name, a);
            && ValidPools(st'.pools) && SameShape(st.pools, st'.pools) && LeaseSafe(st')
            && (forall b :: Leased(st', b) <==> Leased(st, b) && b != a)
            && (forall b :: Allocated(st'.pools, b) <==> Allocated(st.pools, b) && b != a)
  {
    OnlyPool(st.pools, i, a);
    var f := File(st.files, st.pools[i].name);
    var st' := Put(st, i, st.pools[i].used - {a}, RemoveLease(f, a));
    assert Drop(st, st.pools[i].name, a) == st';
    assert FileSafe(st.pools[i], f);
    RemoveEffect(f, a);
    assert FileSafe(st'.pools[i], RemoveLease(f, a));
    PutTouches(st, i, st.pools[i].used - {a}, RemoveLease(f, a));
    TouchEffect(st, st', i);
  }

  // ---------------------------------------------------------------- changes to one slot

  /** How one more message changes what a transaction has on offer. */
  lemma OfferedAfterAppend(slot: Slot, slot': Slot, m: Message)
    requires slot'.messages == slot.messages + [m]
    ensures Offered(slot') ==
            if m.kind == ACK then {}
            else if m.kind == OFFER && !Acked(slot) then Offered(slot) + {m.yiaddr}
            else Offered(slot)
  {
    FirstOfAppend(slot.messages, m, ACK);
    var ms := slot'.messages;
    assert forall k :: 0 <= k < |slot.messages| ==> ms[k] == slot.messages[k];
    assert ms[|slot.messages|] == m;
  }

  /** Replacing one slot by a safe one that stays apart from the others. */
  lemma ReplaceSlot(st: Store, cache: seq<Slot>, t: nat, slot: Slot)
    requires OffersSafe(st, cache) && t < |cache| && SlotSafe(st, slot)
    requires forall i :: 0 <= i < |cache| && i != t ==> Offered(slot) !! Offered(cache[i])
    ensures OffersSafe(st, cache[t := slot])
  {
  }

  /** An address that may be offered: marked, without a record, and not on offer elsewhere. */
  ghost predicate Offerable(s: State, a: uint32) {
    && Allocated(s.store.pools, a) && !Leased(s.store, a)
    && forall i :: 0 <= i < |s.cache| ==> a !in Offered(s.cache[i])
  }

  lemma CachingKeepsInv(s: State, m: Message, now: uint32)
    requires Inv(s)
    requires m.kind == OFFER ==> Offerable(s, m.yiaddr)
    ensures AddMessage(s.cache, m, now).Some? ==> Inv(s.(cache := AddMessage(s.cache, m, now).value))
  {
    AddMessageEffect(s.cache, m, now);
    if AddMessage(s.cache, m, now).Some? {
      var t, c := Target(s.cache, m.xid), AddMessage(s.cache, m, now).value;
      OfferedAfterAppend(s.cache[t], c[t], m.(time := now));
      assert SlotSafe(s.store, s.cache[t]);
      ReplaceSlot(s.store, s.cache, t, c[t]);
    }
  }

  lemma DeliverKeepsInv(s: State, now: uint32, sent: bool, m: Message, options: Option<seq<DhcpOption>>)
    requires Inv(s)
    requires m.kind == OFFER ==> Offerable(s, m.yiaddr)
    ensures Inv(Deliver(s, now, sent, m, options))
  {
    if options.Some? {
      CachingKeepsInv(s, m.(options := options.value), now);
    }
  }

  /** A store that keeps every offered address marked and free of records keeps the offers safe. */
  lemma StoreKeepsOffers(s: State, st: Store)
    requires Inv(s) && ValidPools(st.pools) && LeaseSafe(st)
    requires forall a, i :: 0 <= i < |s.cache| && a in Offered(s.cache[i]) ==> Allocated(st.pools, a) && !Leased(st, a)
    ensures Inv(s.(store := st))
  {
  }

  // ---------------------------------------------------------------- every handler

  lemma AdmitKeepsInv(s: State, now: uint32, m: Message)
    requires Inv(s)
    ensures Inv(Admit(s, now, m).0)
    ensures Admit(s, now, m).1 ==> History(Admit(s, now, m).0.cache, m.xid) != []
  {
    if m.kind != OFFER {
      CachingKeepsInv(s, m, now);
    }
    AddMessageEffect(s.cache, m, now);
  }

  /** Allocation hands out an address that nobody holds and marks just that one. */
  lemma AllocateForEffect(pools: seq<Pool>, m: Message)
    requires ValidPools(pools)
    ensures var (q, a) := AllocateFor(pools, m);
            if a == 0 then q == pools else Available(pools, a) && q == Mark(pools, a)
  {
    RequestAnyIsMark(pools);
  }

  /** No DISCOVER is ever offered an address that is leased or on offer to somebody. */
  lemma OffersAreFresh(s: State, m: Message)
    requires Inv(s) && AllocateFor(s.store.pools, m).1 != 0
    ensures var a := AllocateFor(s.store.pools, m).1;
            !Leased(s.store, a) && forall i :: 0 <= i < |s.cache| ==> a !in Offered(s.cache[i])
  {
    AllocateForEffect(s.store.pools, m);
    var a := AllocateFor(s.store.pools, m).1;
    if Leased(s.store, a) {
      LeasedIsAllocated(s.store, a);
      assert false;
    }
    assert forall i :: 0 <= i < |s.cache| ==> SlotSafe(s.store, s.cache[i]);
  }

  lemma DiscoverKeepsInv(s: State, now: uint32, m: Message, sent: bool)
    requires Inv(s)
    ensures Inv(Discover(s, now, m, sent))
  {
    AllocateForEffect(s.store.pools, m);
    var (pools, a) := AllocateFor(s.store.pools, m);
    var s1 := s.(store := s.store.(pools := pools));
    if a != 0 {
      OffersAreFresh(s, m);
      MarkKeepsLeases(s.store, a);
      assert forall i :: 0 <= i < |s.cache| ==> SlotSafe(s.store, s.cache[i]);
      StoreKeepsOffers(s, s1.store);
      assert Offerable(s1, a);
      DeliverKeepsInv(s1, now, sent, Reply(m, OFFER, 0, a), OfferOptions(s1, m, a));
    }
  }

  /** The reply goes through: it is built, fits and is sent. */
  predicate Delivered(sent: bool, options: Option<seq<DhcpOption>>) {
    sent && options.Some? && ReplyOptions.Size(options.value) <= OPTIONS_SIZE
  }

  /**
   A selecting REQUEST that reaches the commit names an address that its own, not yet
   acknowledged transaction has on offer, and its ACK goes through.
   */
  ghost predicate Honest(s: State, now: uint32, m: Message, sent: bool) {
    var o54, o50 := Retrieve(m.options, SERVER_ID), Retrieve(m.options, REQUESTED_IP);
    o54.Some? && Judge(s, m, o54.value).Commit? ==>
      && var ip := Judge(s, m, o54.value).ip;
         var t := FindXid(s.cache, m.xid);
         && t < |s.cache| && ip in Offered(s.cache[t])
         && o50.Some?
         && Delivered(sent, AckOptions(CommitLease(s, now, m, ip), m, ip))
  }

  /** A record for an offered address, once its transaction has nothing on offer any more. */
  lemma AcceptedOffer(st: Store, st': Store, cache: seq<Slot>, t: nat, slot: Slot, ip: uint32)
    requires OffersSafe(st, cache) && t < |cache| && ip in Offered(cache[t]) && Offered(slot) == {}
    requires st'.pools == st.pools && forall b :: Leased(st', b) <==> Leased(st, b) || b == ip
    ensures OffersSafe(st', cache[t := slot])
  {
    forall i | 0 <= i < |cache| && i != t ensures SlotSafe(st', cache[i]) {
      assert SlotSafe(st, cache[i]);
      assert ip !in Offered(cache[i]);
    }
  }

  lemma CommitKeepsInv(s: State, now: uint32, m: Message, ip: uint32, ack: Message)
    requires Inv(s) && Allocated(s.store.pools, ip)
    requires ack.kind == ACK && ack.xid == m.xid
    requires var t := FindXid(s.cache, m.xid); t < |s.cache| && ip in Offered(s.cache[t])
    ensures var c := AddMessage(s.cache, ack, now);
            c.Some? && Inv(CommitLease(s, now, m, ip).(cache := c.value))
  {
    var t := FindXid(s.cache, m.xid);
    assert SlotSafe(s.store, s.cache[t]);
    CommitSafeIff(s, now, m, ip);
    AddMessageEffect(s.cache, ack, now);
    var c := AddMessage(s.cache, ack, now).value;
    OfferedAfterAppend(s.cache[t], c[t], ack.(time := now));
    AcceptedOffer(s.store, CommitLease(s, now, m, ip).store, s.cache, t, c[t], ip);
  }

  /** The ACK an honest selecting REQUEST caches. */
  function AckFor(s: State, now: uint32, m: Message, ip: uint32): Message
    requires FindPool(s.store.pools, ip) < |s.store.pools| && AckOptions(CommitLease(s, now, m, ip), m, ip).Some?
  {
    Reply(m, s.cfg.ackKind, m.ciaddr, ip).(options := AckOptions(CommitLease(s, now, m, ip), m, ip).value)
  }

  lemma AcceptWithAck(s: State, now: uint32, m: Message, sent: bool, ip: uint32)
    requires ValidCache(s.cache) && FindPool(s.store.pools, ip) < |s.store.pools|
    requires FindXid(s.cache, m.xid) < |s.cache|
    requires Retrieve(m.options, REQUESTED_IP).Some? && Retrieve(m.options, REQUESTED_IP).value.Number() == ip
    requires Delivered(sent, AckOptions(CommitLease(s, now, m, ip), m, ip))
    ensures var c := AddMessage(s.cache, AckFor(s, now, m, ip), now);
            c.Some? && Accept(s, now, m, sent, ip) == CommitLease(s, now, m, ip).(cache := c.value)
  {
    AddMessageEffect(s.cache, AckFor(s, now, m, ip), now);
  }

  lemma RequestKeepsInv(s: State, now: uint32, m: Message, sent: bool)
    requires Inv(s) && s.cfg.ackKind == ACK && Honest(s, now, m, sent)
    ensures Inv(Request(s, now, m, sent))
  {
    var o54 := Retrieve(m.options, SERVER_ID);
    if o54.None? {
      if m.ciaddr != 0 {
        var s1 := RenewLease(s, now, m);
        RenewKeepsLeases(s, now, m);
        assert forall i :: 0 <= i < |s.cache| ==> SlotSafe(s.store, s.cache[i]);
        StoreKeepsOffers(s, s1.store);
        DeliverKeepsInv(s1, now, sent, Reply(m, s.cfg.ackKind, m.ciaddr, m.ciaddr), AckOptions(s1, m, m.ciaddr));
      }
    } else if Judge(s, m, o54.value).Commit? {
      var ip := Judge(s, m, o54.value).ip;
      AcceptWithAck(s, now, m, sent, ip);
      CommitKeepsInv(s, now, m, ip, AckFor(s, now, m, ip));
    } else {
      DeliverKeepsInv(s, now, sent, Reply(m, NAK, 0, 0), NakOptions(s));
    }
  }

  lemma ReleaseLeaseKeepsInv(s: State, m: Message)
    requires Inv(s)
    ensures Inv(ReleaseLease(s, m))
  {
    var s' := ReleaseLease(s, m);
    if s' != s {
      assert Leased(s.store, m.ciaddr);
      DropKeepsLeases(s.store, FindPool(s.store.pools, m.ciaddr), m.ciaddr);
      assert forall i :: 0 <= i < |s.cache| ==> SlotSafe(s.store, s.cache[i]);
      StoreKeepsOffers(s, s'.store);
    }
  }

  lemma DeclineKeepsInv(s: State, m: Message)
    requires Inv(s)
    ensures Inv(Decline(s, m))
  {
    var a := DeclinedAddress(s, m);
    if a != 0 {
      MarkKeepsLeases(s.store, a);
      assert forall i :: 0 <= i < |s.cache| ==> SlotSafe(s.store, s.cache[i]);
      StoreKeepsOffers(s, Decline(s, m).store);
    }
  }

  /** Receiving any message, from an honest selecting client or any other. */
  lemma ReceiveKeepsInv(s: State, now: uint32, m: Message, sent: bool)
    requires Inv(s) && s.cfg.ackKind == ACK
    requires m.kind == REQUEST && Admit(s, now, m).1 ==> Honest(Admit(s, now, m).0, now, m, sent)
    ensures Inv(Receive(s, now, m, sent))
  {
    AdmitKeepsInv(s, now, m);
    var (s1, admitted) := Admit(s, now, m);
    if admitted {
      if m.kind == DISCOVER {
        DiscoverKeepsInv(s1, now, m, sent);
      } else if m.kind == REQUEST {
        RequestKeepsInv(s1, now, m, sent);
      } else if m.kind == DECLINE {
        DeclineKeepsInv(s1, m);
      } else if m.kind == INFORM {
        DeliverKeepsInv(s1, now, sent, Reply(m, ACK, m.ciaddr, 0),
                        PoolReply(s1, m, m.ciaddr, [54, 0], [50, 51, 55, 61, 57, 0], 5));
      } else if m.kind == RELEASE {
        ReleaseLeaseKeepsInv(s1, m);
      }
    }
  }

  // ---------------------------------------------------------------- timers

  lemma TickSlotKeepsInv(s: State, i: nat, now: uint32)
    requires Inv(s) && i < |s.cache|
    ensures Inv(TickSlot(s, i, now))
  {
    var slot := s.cache[i].(timer := Poll(s.cache[i].timer, now).0);
    var a := ExpiryReleases(slot);
    assert ValidSlot(s.cache[i]) && SlotSafe(s.store, s.cache[i]);
    assert Offered(slot) == Offered(s.cache[i]);
    if Poll(s.cache[i].timer, now).1 {
      ReplaceSlot(s.store, s.cache, i, Clear(slot, now));
      if a != 0 {
        assert a in Offered(slot);
        ReleaseSafeIff(s.store, a);
        var s1 := s.(cache := s.cache[i := Clear(slot, now)]);
        forall j | 0 <= j < |s1.cache| ensures a !in Offered(s1.cache[j]) && SlotSafe(s1.store, s1.cache[j]) {
        }
        StoreKeepsOffers(s1, s.store.(pools := Release(s.store.pools, a)));
      }
    } else {
      ReplaceSlot(s.store, s.cache, i, slot);
    }
  }

  lemma TickSlotsKeepsInv(s: State, i: nat, now: uint32)
    requires Inv(s)
    ensures Inv(TickSlots(s, i, now))
  {
    forall t: State, j: nat | j < |t.cache| && Inv(t) ensures Inv(TickSlot(t, j, now)) {
      TickSlotKeepsInv(t, j, now);
    }
    TickSlotsKeep((t: State) => Inv(t), s, i, now);
  }

  /** Leases may go, with their bits; marked addresses without a lease are the same as before. */
  ghost predicate Trims(st: Store, st': Store) {
    && ValidPools(st'.pools) && SameShape(st.pools, st'.pools) && LeaseSafe(st')
    && (forall b :: Leased(st', b) ==> Leased(st, b))
    && (forall b :: Allocated(st'.pools, b) && !Leased(st', b) <==> Allocated(st.pools, b) && !Leased(st, b))
  }

  lemma SweepAddressTrims(st: Store, i: nat, a: uint32, now: uint32)
    requires ValidPools(st.pools) && LeaseSafe(st) && i < |st.pools| && st.pools[i].Contains(a)
    ensures var st' := SweepAddress(st, st.pools[i].name, a, now).0;
            Trims(st, st') && st'.pools[i] == st.pools[i].(used := st'.pools[i].used)
  {
    if SweepAddress(st, st.pools[i].name, a, now).1 {
      OnlyPool(st.pools, i, a);
      DropKeepsLeases(st, i, a);
    }
  }

  lemma TrimsTwice(st: Store, st1: Store, st2: Store)
    requires Trims(st, st1) && Trims(st1, st2)
    ensures Trims(st, st2)
  {
    forall i | 0 <= i < |st.pools| ensures st2.pools[i] == st.pools[i].(used := st2.pools[i].used) {
      assert st1.pools[i] == st.pools[i].(used := st1.pools[i].used);
    }
  }

  lemma VisitTrims(st: Store, i: nat, a: uint32, end: uint32, now: uint32, n: nat) returns (st1: Store, n1: nat)
    requires ValidPools(st.pools) && LeaseSafe(st) && i < |st.pools| && st.pools[i].start <= a < end <= st.pools[i].end
    ensures Trims(st, st1) && st1.pools[i] == st.pools[i].(used := st1.pools[i].used)
    ensures SweepRange(st, st.pools[i].name, a, end, now, n) == SweepRange(st1, st1.pools[i].name, a + 1, end, now, n1)
  {
    var r := SweepAddress(st, st.pools[i].name, a, now);
    st1, n1 := r.0, if r.1 then n + 1 else n;
    SweepAddressTrims(st, i, a, now);
    SweepRangeUnfold(st, st.pools[i].name, a, end, now, n);
  }

  lemma {:induction false} SweepRangeTrims(st: Store, i: nat, a: nat, end: uint32, now: uint32, n: nat)
    requires ValidPools(st.pools) && LeaseSafe(st) && i < |st.pools|
    requires st.pools[i].start <= a && end <= st.pools[i].end
    ensures Trims(st, SweepRange(st, st.pools[i].name, a, end, now, n).0)
    decreases end - a
  {
    if a < end {
      var st1, n1 := VisitTrims(st, i, a, end, now, n);
      SweepRangeTrims(st1, i, a + 1, end, now, n1);
      TrimsTwice(st, st1, SweepRange(st, st.pools[i].name, a, end, now, n).0);
    } else {
      SweepRangeDone(st, st.pools[i].name, a, end, now, n);
    }
  }

  lemma {:induction false} SweepPoolsTrims(st: Store, i: nat, now: uint32, n: nat, all: seq<Pool>)
    requires ValidPools(st.pools) && LeaseSafe(st) && SameShape(all, st.pools) && i <= |all|
    ensures Trims(st, SweepPools(st, all[i..], now, n).0)
    decreases |all| - i
  {
    if i < |all| {
      var p := all[i];
      assert st.pools[i] == p.(used := st.pools[i].used);
      SweepRangeTrims(st, i, p.start, p.end, now, n);
      var (st', n') := SweepRange(st, p.name, p.start, p.end, now, n);
      assert all[i..][1..] == all[i + 1..];
      SweepPoolsTrims(st', i + 1, now, n', all);
    }
  }

  lemma TickKeepsInv(s: State, now: uint32)
    requires Inv(s)
    ensures Inv(Tick(s, now))
  {
    TickSlotsKeepsInv(s, 0, now);
    var s1 := TickSlots(s, 0, now);
    assert s1.store.pools[0..] == s1.store.pools;
    SweepPoolsTrims(s1.store, 0, now, 0, s1.store.pools);
    assert forall i :: 0 <= i < |s1.cache| ==> SlotSafe(s1.store, s1.cache[i]);
    StoreKeepsOffers(s1, Tick(s, now).store);
  }
}
