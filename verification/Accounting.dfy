/**
 No leak and no double counting: every marked address is leased, on offer in a live
 transaction, or quarantined by a DECLINE, and only one of these.
 */
module Accounting {
  import opened Words
  import opened DhcpOptions
  import opened Messages
  import opened Timers
  import opened Pools
  import opened Transactions
  import opened Protocol
  import opened LeaseSafety
  import opened Recovery

  ghost predicate Outstanding(cache: seq<Slot>, a: uint32) {
    exists i :: 0 <= i < |cache| && a in Offered(cache[i])
  }

  /** At most one address on offer per transaction: the one its expiry gives back. */
  ghost predicate SingleOffer(slot: Slot) {
    Offered(slot) <= {ExpiryReleases(slot)}
  }

  ghost predicate Accounted(s: State, q: set<uint32>) {
    && Inv(s)
    && (forall i :: 0 <= i < |s.cache| ==> SingleOffer(s.cache[i]))
    && (forall a :: Allocated(s.store.pools, a) <==> Leased(s.store, a) || Outstanding(s.cache, a) || a in q)
    && (forall a :: a in q ==> !Leased(s.store, a) && !Outstanding(s.cache, a))
  }

  /** The quarantined addresses after an event. */
  function Quarantine(s: State, q: set<uint32>, e: Event): set<uint32> {
    match e
    case Timers(_) => q
    case Restarted(_) => {}
    case Received(now, m, _) =>
      var (s1, admitted) := Admit(s, now, m);
      if admitted && m.kind == DECLINE && DeclinedAddress(s1, m) != 0 then q + {DeclinedAddress(s1, m)} else q
  }

  // ---------------------------------------------------------------- one more cached message

  /** On offer in another transaction than the one in slot `t`. */
  ghost predicate Elsewhere(cache: seq<Slot>, t: nat, a: uint32) {
    exists i :: 0 <= i < |cache| && i != t && a in Offered(cache[i])
  }

  lemma OutstandingAfter(cache: seq<Slot>, t: nat, slot: Slot)
    requires t < |cache|
    ensures forall a :: Outstanding(cache, a) <==> a in Offered(cache[t]) || Elsewhere(cache, t, a)
    ensures forall a :: Outstanding(cache[t := slot], a) <==> a in Offered(slot) || Elsewhere(cache, t, a)
  {
    var c := cache[t := slot];
    forall a ensures Outstanding(c, a) <==> a in Offered(slot) || Elsewhere(cache, t, a) {
      if Outstanding(c, a) {
        var i :| 0 <= i < |c| && a in Offered(c[i]);
        assert i == t || a in Offered(cache[i]);
      }
      if a in Offered(slot) {
        assert a in Offered(c[t]);
      } else if Elsewhere(cache, t, a) {
        var i :| 0 <= i < |cache| && i != t && a in Offered(cache[i]);
        assert a in Offered(c[i]);
      }
    }
  }

  lemma ApartFromRest(cache: seq<Slot>, t: nat)
    requires Apart(cache) && t < |cache|
    ensures forall a :: a in Offered(cache[t]) ==> !Elsewhere(cache, t, a)
  {
  }

  /** A message that neither offers nor acknowledges changes no account. */
  lemma PlainMessage(s: State, q: set<uint32>, m: Message, now: uint32)
    requires Accounted(s, q) && m.kind != OFFER && m.kind != ACK
    ensures AddMessage(s.cache, m, now).Some? ==> Accounted(s.(cache := AddMessage(s.cache, m, now).value), q)
  {
    CachingKeepsInv(s, m, now);
    AddMessageEffect(s.cache, m, now);
    if AddMessage(s.cache, m, now).Some? {
      var t, c := Target(s.cache, m.xid), AddMessage(s.cache, m, now).value;
      OfferedAfterAppend(s.cache[t], c[t], m.(time := now));
      FirstOfAppend(s.cache[t].messages, m.(time := now), ACK);
      FirstOfAppend(s.cache[t].messages, m.(time := now), OFFER);
      assert SingleOffer(s.cache[t]);
      OutstandingAfter(s.cache, t, c[t]);
    }
  }

  /** A slot that gives up its offers: the accounts balance exactly if there were none. */
  lemma OffersGivenUp(s: State, q: set<uint32>, t: nat, slot: Slot)
    requires Accounted(s, q) && t < |s.cache| && Offered(slot) == {} && Inv(s.(cache := s.cache[t := slot]))
    ensures Accounted(s.(cache := s.cache[t := slot]), q) <==> Offered(s.cache[t]) == {}
  {
    OutstandingAfter(s.cache, t, slot);
    ApartFromRest(s.cache, t);
    if Offered(s.cache[t]) != {} {
      var a :| a in Offered(s.cache[t]);
      assert SlotSafe(s.store, s.cache[t]);
      assert Outstanding(s.cache, a) && !Outstanding(s.cache[t := slot], a);
    }
  }

  /** An ACK keeps the accounts exactly when its transaction has nothing on offer. */
  lemma AckAccountedIff(s: State, q: set<uint32>, m: Message, now: uint32, t: nat)
    requires Accounted(s, q) && m.kind == ACK && t == FindXid(s.cache, m.xid) < |s.cache|
    ensures AddMessage(s.cache, m, now).Some?
    ensures Accounted(s.(cache := AddMessage(s.cache, m, now).value), q) <==> Offered(s.cache[t]) == {}
  {
    CachingKeepsInv(s, m, now);
    AddMessageEffect(s.cache, m, now);
    var c := AddMessage(s.cache, m, now).value;
    OfferedAfterAppend(s.cache[t], c[t], m.(time := now));
    OffersGivenUp(s, q, t, c[t]);
  }

  /** Accounted except for one freshly marked address. */
  ghost predicate Dangling(s: State, q: set<uint32>, a: uint32) {
    && Inv(s) && Offerable(s, a) && a !in q
    && (forall i :: 0 <= i < |s.cache| ==> SingleOffer(s.cache[i]))
    && (forall b :: Allocated(s.store.pools, b) <==> Leased(s.store, b) || Outstanding(s.cache, b) || b in q || b == a)
    && (forall b :: b in q ==> !Leased(s.store, b) && !Outstanding(s.cache, b))
  }

  lemma DanglingIsLeak(s: State, q: set<uint32>, a: uint32)
    requires Dangling(s, q, a)
    ensures !Accounted(s, q)
  {
    assert !Outstanding(s.cache, a);
  }

  /** A transaction that has seen neither OFFER nor ACK. */
  predicate Untouched(slot: Slot) {
    First(slot.messages, OFFER).None? && !Acked(slot)
  }

  /** The slot after `slot0` has been offered `a`. */
  ghost predicate TakesUp(slot0: Slot, slot: Slot, a: uint32) {
    && Offered(slot) == (if Acked(slot0) then {} else Offered(slot0) + {a})
    && First(slot.messages, OFFER).Some? && Acked(slot) == Acked(slot0)
    && ExpiryReleases(slot) == if Untouched(slot0) then a else ExpiryReleases(slot0)
  }

  /** In a transaction with an offer or an ACK, the new offer is lost sight of. */
  lemma OfferMisplaced(s: State, q: set<uint32>, a: uint32, t: nat, slot: Slot)
    requires Dangling(s, q, a) && t < |s.cache| && TakesUp(s.cache[t], slot, a) && !Untouched(s.cache[t])
    ensures !Accounted(s.(cache := s.cache[t := slot]), q)
  {
    OutstandingAfter(s.cache, t, slot);
    assert !Outstanding(s.cache, a);
    if Acked(s.cache[t]) {
      assert !Outstanding(s.cache[t := slot], a);
    } else {
      assert ExpiryReleases(slot) in Offered(s.cache[t]);
      assert !SingleOffer(s.cache[t := slot][t]);
    }
  }

  lemma PlaceOffer(s: State, q: set<uint32>, a: uint32, t: nat, slot: Slot)
    requires Dangling(s, q, a) && t < |s.cache| && Inv(s.(cache := s.cache[t := slot]))
    requires TakesUp(s.cache[t], slot, a)
    ensures Accounted(s.(cache := s.cache[t := slot]), q) <==> Untouched(s.cache[t])
  {
    if Untouched(s.cache[t]) {
      OutstandingAfter(s.cache, t, slot);
    } else {
      OfferMisplaced(s, q, a, t, slot);
    }
  }

  /** Caching the offer accounts for the marked address exactly in an untouched transaction. */
  lemma OfferAccountedIff(s: State, q: set<uint32>, m: Message, now: uint32, t: nat)
    requires Dangling(s, q, m.yiaddr) && m.kind == OFFER && t == FindXid(s.cache, m.xid) < |s.cache|
    ensures AddMessage(s.cache, m, now).Some?
    ensures Accounted(s.(cache := AddMessage(s.cache, m, now).value), q) <==> Untouched(s.cache[t])
  {
    CachingKeepsInv(s, m, now);
    AddMessageEffect(s.cache, m, now);
    var c := AddMessage(s.cache, m, now).value;
    OfferedAfterAppend(s.cache[t], c[t], m.(time := now));
    FirstOfAppend(s.cache[t].messages, m.(time := now), ACK);
    FirstOfAppend(s.cache[t].messages, m.(time := now), OFFER);
    PlaceOffer(s, q, m.yiaddr, t, c[t]);
  }

  /** The offer a DISCOVER leads to goes through. */
  predicate OfferGoesThrough(s: State, m: Message, sent: bool, a: uint32) {
    && LeaseDuration(s.cfg.defaults, m) != 0
    && Delivered(sent, OfferOptions(s.(store := s.store.(pools := AllocateFor(s.store.pools, m).0)), m, a))
  }

  /** A DISCOVER leaks nothing: no address is left to hand out, or the first offer of the transaction goes through. */
  predicate TidyDiscover(s: State, m: Message, sent: bool)
    requires FindXid(s.cache, m.xid) < |s.cache|
  {
    var a := AllocateFor(s.store.pools, m).1;
    a == 0 || (OfferGoesThrough(s, m, sent, a) && Untouched(s.cache[FindXid(s.cache, m.xid)]))
  }

  lemma DiscoverDangles(s: State, q: set<uint32>, m: Message)
    requires Accounted(s, q) && AllocateFor(s.store.pools, m).1 != 0
    ensures var (pools, a) := AllocateFor(s.store.pools, m);
            Dangling(s.(store := s.store.(pools := pools)), q, a)
  {
    AllocateForEffect(s.store.pools, m);
    var (pools, a) := AllocateFor(s.store.pools, m);
    var s1 := s.(store := s.store.(pools := pools));
    assert !Allocated(s.store.pools, a);
    MarkKeepsLeases(s.store, a);
    assert forall i :: 0 <= i < |s.cache| ==> SlotSafe(s.store, s.cache[i]);
    StoreKeepsOffers(s, s1.store);
  }

  lemma DiscoverAccountedIff(s: State, q: set<uint32>, now: uint32, m: Message, sent: bool)
    requires Accounted(s, q) && FindXid(s.cache, m.xid) < |s.cache|
    ensures Accounted(Discover(s, now, m, sent), q) <==> TidyDiscover(s, m, sent)
  {
    AllocateForEffect(s.store.pools, m);
    var (pools, a) := AllocateFor(s.store.pools, m);
    var s1 := s.(store := s.store.(pools := pools));
    if a != 0 {
      DiscoverDangles(s, q, m);
      if OfferGoesThrough(s, m, sent, a) {
        var offer := Reply(m, OFFER, 0, a).(options := OfferOptions(s1, m, a).value);
        OfferAccountedIff(s1, q, offer, now, FindXid(s.cache, m.xid));
      } else {
        assert Discover(s, now, m, sent) == s1;
        DanglingIsLeak(s1, q, a);
      }
    }
  }

  // ---------------------------------------------------------------- the other handlers

  lemma DeliverPlain(s: State, q: set<uint32>, now: uint32, sent: bool, m: Message, options: Option<seq<DhcpOption>>)
    requires Accounted(s, q) && m.kind != OFFER && m.kind != ACK
    ensures Accounted(Deliver(s, now, sent, m, options), q)
  {
    if options.Some? {
      PlainMessage(s, q, m.(options := options.value), now);
    }
  }

  lemma DeliverAckIff(s: State, q: set<uint32>, now: uint32, sent: bool, m: Message, options: Option<seq<DhcpOption>>)
    requires Accounted(s, q) && m.kind == ACK && FindXid(s.cache, m.xid) < |s.cache|
    ensures Accounted(Deliver(s, now, sent, m, options), q) <==>
            !Delivered(sent, options) || Offered(s.cache[FindXid(s.cache, m.xid)]) == {}
  {
    if options.Some? {
      AckAccountedIff(s, q, m.(options := options.value), now, FindXid(s.cache, m.xid));
    }
  }

  /** An accepted offer moves from the offers to the leases. */
  lemma CommitAccounted(s: State, q: set<uint32>, now: uint32, m: Message, ip: uint32, ack: Message)
    requires Accounted(s, q) && Allocated(s.store.pools, ip)
    requires ack.kind == ACK && ack.xid == m.xid
    requires var t := FindXid(s.cache, m.xid); t < |s.cache| && ip in Offered(s.cache[t])
    ensures var c := AddMessage(s.cache, ack, now);
            c.Some? && Accounted(CommitLease(s, now, m, ip).(cache := c.value), q)
  {
    var t := FindXid(s.cache, m.xid);
    CommitKeepsInv(s, now, m, ip, ack);
    CommitSafeIff(s, now, m, ip);
    AddMessageEffect(s.cache, ack, now);
    var c := AddMessage(s.cache, ack, now).value;
    OfferedAfterAppend(s.cache[t], c[t], ack.(time := now));
    OutstandingAfter(s.cache, t, c[t]);
    ApartFromRest(s.cache, t);
    assert SingleOffer(s.cache[t]) && SlotSafe(s.store, s.cache[t]);
  }

  lemma RenewAccounted(s: State, q: set<uint32>, now: uint32, m: Message)
    requires Accounted(s, q)
    ensures Accounted(RenewLease(s, now, m), q)
  {
    RenewKeepsLeases(s, now, m);
    assert forall i :: 0 <= i < |s.cache| ==> SlotSafe(s.store, s.cache[i]);
    StoreKeepsOffers(s, RenewLease(s, now, m).store);
  }

  /** A renewal hides no outstanding offer behind its ACK. */
  predicate TidyRequest(s: State, now: uint32, m: Message, sent: bool)
    requires FindXid(s.cache, m.xid) < |s.cache|
  {
    Retrieve(m.options, SERVER_ID).None? && m.ciaddr != 0 && s.cfg.ackKind == ACK
    && Delivered(sent, AckOptions(RenewLease(s, now, m), m, m.ciaddr)) ==>
      Offered(s.cache[FindXid(s.cache, m.xid)]) == {}
  }

  lemma RenewingAccountedIff(s: State, q: set<uint32>, now: uint32, m: Message, sent: bool)
    requires Accounted(s, q) && s.cfg.ackKind != OFFER && Retrieve(m.options, SERVER_ID).None?
    requires FindXid(s.cache, m.xid) < |s.cache|
    ensures Accounted(RenewingRequest(s, now, m, sent), q) <==> TidyRequest(s, now, m, sent)
  {
    if m.ciaddr != 0 {
      var s1 := RenewLease(s, now, m);
      RenewKeepsLeases(s, now, m);
      RenewAccounted(s, q, now, m);
      var reply, options := Reply(m, s.cfg.ackKind, m.ciaddr, m.ciaddr), AckOptions(s1, m, m.ciaddr);
      if s.cfg.ackKind == ACK {
        DeliverAckIff(s1, q, now, sent, reply, options);
      } else {
        DeliverPlain(s1, q, now, sent, reply, options);
      }
    }
  }

  lemma AcceptAccounted(s: State, q: set<uint32>, now: uint32, m: Message, sent: bool, ip: uint32)
    requires Accounted(s, q) && s.cfg.ackKind == ACK && Allocated(s.store.pools, ip)
    requires var t := FindXid(s.cache, m.xid); t < |s.cache| && ip in Offered(s.cache[t])
    requires Retrieve(m.options, REQUESTED_IP).Some? && Retrieve(m.options, REQUESTED_IP).value.Number() == ip
    requires Delivered(sent, AckOptions(CommitLease(s, now, m, ip), m, ip))
    ensures Accounted(Accept(s, now, m, sent, ip), q)
  {
    AcceptWithAck(s, now, m, sent, ip);
    CommitAccounted(s, q, now, m, ip, AckFor(s, now, m, ip));
  }

  /** If the accounts balance after a commit, the address was on offer and is no longer. */
  lemma CommitTookOffer(s: State, q: set<uint32>, now: uint32, m: Message, sent: bool, ip: uint32)
    requires Accounted(s, q) && Allocated(s.store.pools, ip) && Accounted(Accept(s, now, m, sent, ip), q)
    ensures Outstanding(s.cache, ip) && !Outstanding(Accept(s, now, m, sent, ip).cache, ip)
  {
    var s' := Accept(s, now, m, sent, ip);
    CommitSafeIff(s, now, m, ip);
    assert Leased(s'.store, ip) && !Leased(s.store, ip);
    LeasedIsNotOffered(s', ip);
  }

  /** A commit that leaves the accounts balanced moved an offer of its own transaction to the leases. */
  lemma CommitAccountedIsHonest(s: State, q: set<uint32>, now: uint32, m: Message, sent: bool, ip: uint32)
    requires Accounted(s, q) && Allocated(s.store.pools, ip) && FindXid(s.cache, m.xid) < |s.cache|
    requires var o50 := Retrieve(m.options, REQUESTED_IP); o50.Some? ==> o50.value.Number() == ip
    requires Accounted(Accept(s, now, m, sent, ip), q)
    ensures ip in Offered(s.cache[FindXid(s.cache, m.xid)]) && Retrieve(m.options, REQUESTED_IP).Some?
    ensures Delivered(sent, AckOptions(CommitLease(s, now, m, ip), m, ip))
  {
    var t, s' := FindXid(s.cache, m.xid), Accept(s, now, m, sent, ip);
    assert s'.cache != s.cache && Outstanding(s.cache, ip) && !Outstanding(s'.cache, ip) by {
      CommitTookOffer(s, q, now, m, sent, ip);
    }
    AcceptWithAck(s, now, m, sent, ip);
    AddMessageEffect(s.cache, AckFor(s, now, m, ip), now);
    OutstandingAfter(s.cache, t, s'.cache[t]);
  }

  lemma LeasedIsNotOffered(s: State, a: uint32)
    requires Inv(s) && Leased(s.store, a)
    ensures !Outstanding(s.cache, a)
  {
    assert forall i :: 0 <= i < |s.cache| ==> SlotSafe(s.store, s.cache[i]);
  }

  /** A message that neither offers nor acknowledges leaves the outstanding offers alone. */
  lemma PlainKeepsOffers(cache: seq<Slot>, m: Message, now: uint32, a: uint32)
    requires ValidCache(cache) && m.kind != OFFER && m.kind != ACK && AddMessage(cache, m, now).Some?
    ensures Outstanding(AddMessage(cache, m, now).value, a) <==> Outstanding(cache, a)
  {
    AddMessageEffect(cache, m, now);
    var t, c := Target(cache, m.xid), AddMessage(cache, m, now).value;
    OfferedAfterAppend(cache[t], c[t], m.(time := now));
    OutstandingAfter(cache, t, c[t]);
  }

  /** Without a typed ACK every commit unbalances the accounts. */
  lemma UntypedCommit(s: State, q: set<uint32>, now: uint32, m: Message, sent: bool, ip: uint32)
    requires Accounted(s, q) && s.cfg.ackKind != OFFER && s.cfg.ackKind != ACK
    requires Allocated(s.store.pools, ip) && FindXid(s.cache, m.xid) < |s.cache|
    requires var o50 := Retrieve(m.options, REQUESTED_IP); o50.Some? ==> o50.value.Number() == ip
    ensures !Accounted(Accept(s, now, m, sent, ip), q)
  {
    if Accounted(Accept(s, now, m, sent, ip), q) {
      CommitTookOffer(s, q, now, m, sent, ip);
      CommitAccountedIsHonest(s, q, now, m, sent, ip);
      AcceptWithAck(s, now, m, sent, ip);
      PlainKeepsOffers(s.cache, AckFor(s, now, m, ip), now, ip);
    }
  }

  /** A REQUEST that commits is honest, and its ACK is cached with its type. */
  ghost predicate Settled(s: State, now: uint32, m: Message, sent: bool) {
    var o54 := Retrieve(m.options, SERVER_ID);
    o54.Some? && Judge(s, m, o54.value).Commit? ==> s.cfg.ackKind == ACK && Honest(s, now, m, sent)
  }

  /** A selecting REQUEST leaks nothing if and only if it is settled. */
  lemma SelectingAccountedIff(s: State, q: set<uint32>, now: uint32, m: Message, sent: bool, o54: DhcpOption)
    requires Accounted(s, q) && s.cfg.ackKind != OFFER && FindXid(s.cache, m.xid) < |s.cache|
    requires Retrieve(m.options, SERVER_ID) == Some(o54)
    ensures Accounted(SelectingRequest(s, now, m, sent, o54), q) <==> Settled(s, now, m, sent)
  {
    match Judge(s, m, o54)
    case Commit(ip) =>
      if s.cfg.ackKind != ACK {
        UntypedCommit(s, q, now, m, sent, ip);
      } else if Honest(s, now, m, sent) {
        AcceptAccounted(s, q, now, m, sent, ip);
      } else if Accounted(Accept(s, now, m, sent, ip), q) {
        CommitAccountedIsHonest(s, q, now, m, sent, ip);
      }
    case _ => DeliverPlain(s, q, now, sent, Reply(m, NAK, 0, 0), NakOptions(s));
  }

  lemma RequestAccountedIff(s: State, q: set<uint32>, now: uint32, m: Message, sent: bool)
    requires Accounted(s, q) && s.cfg.ackKind != OFFER && FindXid(s.cache, m.xid) < |s.cache|
    ensures Accounted(Request(s, now, m, sent), q) <==> Settled(s, now, m, sent) && TidyRequest(s, now, m, sent)
  {
    var o54 := Retrieve(m.options, SERVER_ID);
    if o54.None? {
      RenewingAccountedIff(s, q, now, m, sent);
    } else {
      SelectingAccountedIff(s, q, now, m, sent, o54.value);
    }
  }

  /** RELEASE takes its address, if leased, out of the leases and out of the marked ones, and no other. */
  lemma ReleaseAccounted(s: State, q: set<uint32>, m: Message)
    requires Accounted(s, q)
    ensures var s' := ReleaseLease(s, m);
            && Accounted(s', q)
            && (forall b :: Leased(s'.store, b) <==> Leased(s.store, b) && b != m.ciaddr)
            && (forall b :: Allocated(s'.store.pools, b) <==>
                  Allocated(s.store.pools, b) && !(b == m.ciaddr && Leased(s.store, b)))
  {
    ReleaseLeaseKeepsInv(s, m);
    if ReleaseLease(s, m) != s {
      assert Leased(s.store, m.ciaddr);
      DropKeepsLeases(s.store, FindPool(s.store.pools, m.ciaddr), m.ciaddr);
      assert forall i :: 0 <= i < |s.cache| ==> SlotSafe(s.store, s.cache[i]);
    }
  }

  lemma QuarantineAccounted(s: State, q: set<uint32>, a: uint32)
    requires Accounted(s, q) && Available(s.store.pools, a)
    ensures Accounted(s.(store := s.store.(pools := Mark(s.store.pools, a))), q + {a})
  {
    assert !Allocated(s.store.pools, a);
    MarkKeepsLeases(s.store, a);
    assert forall i :: 0 <= i < |s.cache| ==> SlotSafe(s.store, s.cache[i]);
    StoreKeepsOffers(s, s.store.(pools := Mark(s.store.pools, a)));
  }

  lemma DeclineAccounted(s: State, q: set<uint32>, m: Message)
    requires Accounted(s, q)
    ensures var a := DeclinedAddress(s, m); Accounted(Decline(s, m), if a != 0 then q + {a} else q)
  {
    var a := DeclinedAddress(s, m);
    if a != 0 {
      QuarantineAccounted(s, q, a);
    }
  }

  /** The exact condition on one event, readable off the state before it. */
  ghost predicate Tidy(s: State, e: Event) {
    e.Received? && Admit(s, e.now, e.m).1 ==>
      var s1 := Admit(s, e.now, e.m).0;
      var t := FindXid(s1.cache, e.m.xid);
      && t < |s1.cache|
      && (e.m.kind == DISCOVER ==> TidyDiscover(s1, e.m, e.sent))
      && (e.m.kind == REQUEST ==> Settled(s1, e.now, e.m, e.sent) && TidyRequest(s1, e.now, e.m, e.sent))
      && (e.m.kind == INFORM && e.m.ciaddr != 0
          && Delivered(e.sent, PoolReply(s1, e.m, e.m.ciaddr, [54, 0], [50, 51, 55, 61, 57, 0], 5)) ==>
            Offered(s1.cache[t]) == {})
  }

  lemma AdmitAccounted(s: State, q: set<uint32>, now: uint32, m: Message)
    requires Accounted(s, q)
    ensures var (s1, admitted) := Admit(s, now, m);
            Accounted(s1, q) && (admitted ==> FindXid(s1.cache, m.xid) < |s1.cache|)
  {
    if m.kind != OFFER && m.kind != ACK {
      PlainMessage(s, q, m, now);
    }
    AddMessageEffect(s.cache, m, now);
  }

  lemma ReceiveAccountedIff(s: State, q: set<uint32>, e: Event)
    requires Accounted(s, q) && s.cfg.ackKind != OFFER && e.Received?
    ensures Accounted(Step(s, e), Quarantine(s, q, e)) <==> Tidy(s, e)
  {
    var (s1, admitted) := Admit(s, e.now, e.m);
    AdmitAccounted(s, q, e.now, e.m);
    if admitted {
      if e.m.kind == DISCOVER {
        DiscoverAccountedIff(s1, q, e.now, e.m, e.sent);
      } else if e.m.kind == REQUEST {
        RequestAccountedIff(s1, q, e.now, e.m, e.sent);
      } else if e.m.kind == DECLINE {
        DeclineAccounted(s1, q, e.m);
      } else if e.m.kind == RELEASE {
        ReleaseAccounted(s1, q, e.m);
      } else if e.m.kind == INFORM {
        DeliverAckIff(s1, q, e.now, e.sent, Reply(e.m, ACK, e.m.ciaddr, 0),
                      PoolReply(s1, e.m, e.m.ciaddr, [54, 0], [50, 51, 55, 61, 57, 0], 5));
      }
    }
  }

  // ---------------------------------------------------------------- timers and restart

  /** Expiry of a transaction gives back exactly the address it still had on offer. */
  lemma TickSlotAccounted(s: State, q: set<uint32>, i: nat, now: uint32)
    requires Accounted(s, q) && i < |s.cache|
    ensures Accounted(TickSlot(s, i, now), q)
    ensures forall a :: Allocated(TickSlot(s, i, now).store.pools, a) <==>
              Allocated(s.store.pools, a) && !(Poll(s.cache[i].timer, now).1 && a in Offered(s.cache[i]))
  {
    TickSlotKeepsInv(s, i, now);
    var s' := TickSlot(s, i, now);
    var a := ExpiryReleases(s.cache[i]);
    assert SingleOffer(s.cache[i]) && SlotSafe(s.store, s.cache[i]);
    OutstandingAfter(s.cache, i, s'.cache[i]);
    ApartFromRest(s.cache, i);
    if Poll(s.cache[i].timer, now).1 {
      assert Offered(s'.cache[i]) == {};
      if a != 0 {
        ReleaseSafeIff(s.store, a);
      }
      forall b | b in Offered(s.cache[i]) ensures b == a != 0 {
        assert Allocated(s.store.pools, b);
        assert s.store.pools[FindPool(s.store.pools, b)].Valid();
      }
    } else {
      assert Offered(s'.cache[i]) == Offered(s.cache[i]);
    }
  }

  lemma TickSlotsAccounted(s: State, q: set<uint32>, i: nat, now: uint32)
    requires Accounted(s, q)
    ensures Accounted(TickSlots(s, i, now), q)
  {
    forall t: State, j: nat | j < |t.cache| && Accounted(t, q) ensures Accounted(TickSlot(t, j, now), q) {
      TickSlotAccounted(t, q, j, now);
    }
    TickSlotsKeep((t: State) => Accounted(t, q), s, i, now);
  }

  lemma TickAccounted(s: State, q: set<uint32>, now: uint32)
    requires Accounted(s, q)
    ensures Accounted(Tick(s, now), q)
  {
    TickKeepsInv(s, now);
    TickSlotsAccounted(s, q, 0, now);
    var s1 := TickSlots(s, 0, now);
    assert s1.store.pools[0..] == s1.store.pools;
    SweepPoolsTrims(s1.store, 0, now, 0, s1.store.pools);
    assert forall i :: 0 <= i < |s1.cache| ==> SlotSafe(s1.store, s1.cache[i]);
  }

  lemma RestartAccounted(s: State, now: uint32)
    requires Recoverable(s.store)
    ensures Accounted(Restart(s, now), {})
  {
    RestartEstablishesInv(s, now);
    RestartRecovers(s, now);
    var s' := Restart(s, now);
    forall a ensures Allocated(s'.store.pools, a) <==> Leased(s'.store, a) {
      var i := FindPool(s'.store.pools, a);
      if i < |s'.store.pools| {
        assert Reloaded(s.store, s'.store, i, now);
      }
    }
  }

  // ---------------------------------------------------------------- whole runs

  /** The exact condition, for every event. */
  lemma StepAccountedIff(s: State, q: set<uint32>, e: Event)
    requires Accounted(s, q) && s.cfg.ackKind != OFFER
    ensures Accounted(Step(s, e), Quarantine(s, q, e)) <==> Tidy(s, e)
  {
    match e
    case Received(now, m, sent) =>
      ReceiveAccountedIff(s, q, e);
    case Timers(now) =>
      TickAccounted(s, q, now);
    case Restarted(now) =>
      SafeIsRecoverable(s.store);
      RestartAccounted(s, now);
  }

  /** Every event of the run is tidy where it happens. */
  ghost predicate TidyRun(s: State, events: seq<Event>)
    decreases events
  {
    events != [] ==> Tidy(s, events[0]) && TidyRun(Step(s, events[0]), events[1..])
  }

  function RunQuarantine(s: State, q: set<uint32>, events: seq<Event>): set<uint32>
    decreases events
  {
    if events == [] then q
    else RunQuarantine(Step(s, events[0]), Quarantine(s, q, events[0]), events[1..])
  }

  lemma QuarantinePrefix(s: State, q: set<uint32>, events: seq<Event>, k: nat)
    requires 0 < k <= |events|
    ensures RunQuarantine(s, q, events[..k]) ==
            RunQuarantine(Step(s, events[0]), Quarantine(s, q, events[0]), events[1..][..k - 1])
  {
    assert events[..k][1..] == events[1..][..k - 1];
  }

  /** The accounts balance after this prefix of a run. */
  ghost predicate AccountedAfter(s: State, q: set<uint32>, events: seq<Event>, k: nat)
    requires k <= |events|
  {
    Accounted(Run(s, events[..k]), RunQuarantine(s, q, events[..k]))
  }

  /** Over a whole run of any clients the accounts balance after every prefix if and only if the run is tidy. */
  lemma {:induction false} RunsAccountedIff(s: State, q: set<uint32>, events: seq<Event>)
    requires Accounted(s, q) && s.cfg.ackKind != OFFER
    ensures (forall k: nat :: k <= |events| ==> AccountedAfter(s, q, events, k)) <==> TidyRun(s, events)
    decreases events
  {
    assert events[..0] == [] && AccountedAfter(s, q, events, 0);
    if events != [] {
      var s1, q1, rest := Step(s, events[0]), Quarantine(s, q, events[0]), events[1..];
      StepAccountedIff(s, q, events[0]);
      forall k: nat | 0 < k <= |events| ensures AccountedAfter(s, q, events, k) <==> AccountedAfter(s1, q1, rest, k - 1) {
        RunPrefix(s, events, k);
        QuarantinePrefix(s, q, events, k);
      }
      assert rest[..0] == [] && (AccountedAfter(s, q, events, 1) <==> AccountedAfter(s1, q1, rest, 0));
      if Accounted(s1, q1) {
        RunsAccountedIff(s1, q1, rest);
        assert forall k: nat :: k <= |rest| ==> (AccountedAfter(s1, q1, rest, k) <==> AccountedAfter(s, q, events, k + 1));
      }
    }
  }
}
