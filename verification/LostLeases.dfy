/**
 The two ways the server loses hold of a lease it has granted: a REQUEST that is sent again is
 committed again, and a transaction without a typed ACK gives its leased address back.
 */
module LostLeases {
  import opened Words
  import opened DhcpOptions
  import opened Messages
  import opened Timers
  import opened Pools
  import opened Leases
  import opened Transactions
  import opened Protocol
  import opened LeaseSafety
  import opened SafetyLimits

  lemma TwoEvents(s: State, e0: Event, e1: Event)
    ensures Run(s, [e0, e1]) == Step(Step(s, e0), e1)
  {
    assert [e0, e1][1..] == [e1] && [e1][1..] == [];
    assert Run(Step(s, e0), [e1]) == Step(Step(s, e0), e1);
  }

  lemma AdmitsRequest(s: State, now: uint32, m: Message, sent: bool)
    requires m.kind == REQUEST && Admit(s, now, m).1
    ensures Step(s, Received(now, m, sent)) == Request(Admit(s, now, m).0, now, m, sent)
  {
  }

  // ---------------------------------------------------------------- a REQUEST sent twice

  lemma LeasesAgainBreaks(s: State, now: uint32, m: Message, sent: bool)
    requires LeasesAgain(s, m)
    ensures !LeaseSafe(Request(s, now, m, sent).store)
  {
    var ip := Judge(s, m, Retrieve(m.options, SERVER_ID).value).ip;
    var i, st' := FindPool(s.store.pools, ip), CommitLease(s, now, m, ip).store;
    var f, f' := File(s.store.files, s.store.pools[i].name), File(st'.files, st'.pools[i].name);
    assert Request(s, now, m, sent).store == st';
    AppendEffect(f, f'[|f|]);
    assert !FileSafe(st'.pools[i], f');
  }

  /** One more message in a running transaction. */
  lemma HistoryAfter(cache: seq<Slot>, m: Message, now: uint32)
    requires ValidCache(cache) && FindXid(cache, m.xid) < |cache|
    ensures var c := AddMessage(cache, m, now);
            && c.Some? && ValidCache(c.value) && FindXid(c.value, m.xid) < |c.value|
            && History(c.value, m.xid) == History(cache, m.xid) + [m.(time := now)]
  {
    AddMessageEffect(cache, m, now);
  }

  /** Without access lists every client message that finds a slot reaches its handler. */
  lemma OpenDoor(s: State, now: uint32, m: Message)
    requires !s.acl.enabled && !s.dacl.enabled && m.kind !in {OFFER, ACK, NAK} && AddMessage(s.cache, m, now).Some?
    ensures Admit(s, now, m) == (s.(cache := AddMessage(s.cache, m, now).value), true)
  {
  }

  /** The checks of a REQUEST with option 50 depend on the transaction through its first DISCOVER only. */
  lemma JudgeStable(s: State, s': State, m: Message, o54: DhcpOption, more: Message)
    requires s'.cfg == s.cfg && s'.store.pools == s.store.pools && Retrieve(m.options, REQUESTED_IP).Some?
    requires History(s'.cache, m.xid) in {History(s.cache, m.xid), History(s.cache, m.xid) + [more]}
    requires Judge(s, m, o54).Commit?
    ensures Judge(s', m, o54) == Judge(s, m, o54)
  {
    FirstOfAppend(History(s.cache, m.xid), more, DISCOVER);
  }

  /** What a committed REQUEST leaves behind: its lease, and checks that it passes again. */
  lemma CommitsAgain(s: State, now: uint32, m: Message, sent: bool)
    requires ValidCache(s.cache) && m.kind == REQUEST && Retrieve(m.options, SERVER_ID).Some?
    requires Retrieve(m.options, REQUESTED_IP).Some? && Judge(s, m, Retrieve(m.options, SERVER_ID).value).Commit?
    ensures ValidCache(Request(s, now, m, sent).cache) && LeasesAgain(Request(s, now, m, sent), m)
  {
    var o54 := Retrieve(m.options, SERVER_ID).value;
    var ip := Judge(s, m, o54).ip;
    var s', s1 := Request(s, now, m, sent), CommitLease(s, now, m, ip);
    var i := FindPool(s.store.pools, ip);
    var f := File(s.store.files, s.store.pools[i].name);
    AppendEffect(f, File(s1.store.files, s.store.pools[i].name)[|f|]);
    var options := AckOptions(s1, m, ip);
    var ack := Reply(m, s.cfg.ackKind, m.ciaddr, ip).(options := if options.Some? then options.value else []);
    HistoryAfter(s.cache, ack, now);
    JudgeStable(s, s', m, o54, ack.(time := now));
  }

  /** Without access lists a repeated REQUEST is admitted: its transaction is there. */
  lemma RepeatIsAdmitted(s: State, now: uint32, m: Message)
    requires ValidCache(s.cache) && LeasesAgain(s, m) && !s.acl.enabled && !s.dacl.enabled
    ensures Admit(s, now, m).1
  {
    HistoryAfter(s.cache, m, now);
    OpenDoor(s, now, m);
  }

  lemma RepeatBreaks(s: State, now: uint32, m: Message, sent: bool)
    requires ValidCache(s.cache) && LeasesAgain(s, m) && Retrieve(m.options, REQUESTED_IP).Some? && Admit(s, now, m).1
    ensures !LeaseSafe(Request(Admit(s, now, m).0, now, m, sent).store)
  {
    var s1 := Admit(s, now, m).0;
    HistoryAfter(s.cache, m, now);
    JudgeStable(s, s1, m, Retrieve(m.options, SERVER_ID).value, m.(time := now));
    LeasesAgainBreaks(s1, now, m, sent);
  }

  /** A client that repeats its accepted REQUEST, having missed the ACK, gets its address recorded twice. */
  lemma RetransmissionBreaks(s: State, now: uint32, m: Message, sent: bool, later: uint32, sent': bool)
    requires ValidCache(s.cache) && m.kind == REQUEST && Retrieve(m.options, SERVER_ID).Some?
    requires Retrieve(m.options, REQUESTED_IP).Some? && Admit(s, now, m).1
    requires Judge(Admit(s, now, m).0, m, Retrieve(m.options, SERVER_ID).value).Commit?
    requires Admit(Step(s, Received(now, m, sent)), later, m).1
    ensures !LeaseSafe(Run(s, [Received(now, m, sent), Received(later, m, sent')]).store)
  {
    var s1 := Admit(s, now, m).0;
    AddMessageEffect(s.cache, m, now);
    CommitsAgain(s1, now, m, sent);
    var s2 := Request(s1, now, m, sent);
    AdmitsRequest(s, now, m, sent);
    AdmitsRequest(s2, later, m, sent');
    RepeatBreaks(s2, later, m, sent');
    TwoEvents(s, Received(now, m, sent), Received(later, m, sent'));
  }

  // ---------------------------------------------------------------- a lease without ACK in its transaction

  /** The expiry of a transaction whose first offer is leased leaves that address an orphan. */
  lemma {:induction false} StruckSlotLoses(s: State, i: nat, t: nat, now: uint32)
    requires ValidPools(s.store.pools) && i <= t < |s.cache| && Strikes(s.store, s.cache[t], now)
    ensures Lost(TickSlots(s, i, now).store, ExpiryReleases(s.cache[t]))
    decreases t - i
  {
    var s1 := TickSlot(s, i, now);
    assert TickSlots(s, i, now) == TickSlots(s1, i + 1, now);
    if i == t {
      StrikeLoses(s, i, now);
      LostAfterSlots(s1, i + 1, now, ExpiryReleases(s.cache[t]));
    } else {
      ReleaseEffect(s.store.pools, ExpiryReleases(s.cache[i]));
      ShapeFind(s.store.pools, Release(s.store.pools, ExpiryReleases(s.cache[i])), ExpiryReleases(s.cache[t]));
      StruckSlotLoses(s1, i + 1, t, now);
    }
  }

  lemma StruckTickLoses(s: State, t: nat, now: uint32)
    requires ValidPools(s.store.pools) && t < |s.cache| && Strikes(s.store, s.cache[t], now)
    ensures Orphan(Tick(s, now).store, ExpiryReleases(s.cache[t]))
  {
    StruckSlotLoses(s, 0, t, now);
    var st := TickSlots(s, 0, now).store;
    LostAfterSweep(st, st.pools, now, 0, ExpiryReleases(s.cache[t]));
  }

  /** The REQUEST reaches the commit of its transaction's first offer. */
  ghost predicate TakesOffer(s: State, m: Message, ip: uint32) {
    var o54, t := Retrieve(m.options, SERVER_ID), FindXid(s.cache, m.xid);
    && m.kind == REQUEST && o54.Some? && Retrieve(m.options, REQUESTED_IP).Some?
    && Judge(s, m, o54.value) == Commit(ip)
    && t < |s.cache| && ip == ExpiryReleases(s.cache[t])
  }

  /** The commit caches no reply typed ACK. */
  predicate Unacked(s: State, now: uint32, m: Message, sent: bool, ip: uint32)
    requires FindPool(s.store.pools, ip) < |s.store.pools|
  {
    s.cfg.ackKind != ACK || !Delivered(sent, AckOptions(CommitLease(s, now, m, ip), m, ip))
  }

  /** A reply of another type than OFFER or ACK does not change what expiry gives back; nor does a second OFFER. */
  lemma UntypedJoins(cache: seq<Slot>, m: Message, now: uint32)
    requires ValidCache(cache) && FindXid(cache, m.xid) < |cache| && m.kind != ACK
    requires ExpiryReleases(cache[FindXid(cache, m.xid)]) != 0
    ensures var c, t := AddMessage(cache, m, now), FindXid(cache, m.xid);
            c.Some? && |c.value| == |cache| && ExpiryReleases(c.value[t]) == ExpiryReleases(cache[t])
  {
    var t := FindXid(cache, m.xid);
    AddMessageEffect(cache, m, now);
    FirstOfAppend(cache[t].messages, m.(time := now), ACK);
    FirstOfAppend(cache[t].messages, m.(time := now), OFFER);
  }

  /** Committing the offer without caching an ACK leaves it the address that expiry gives back. */
  lemma UnackedOffer(s: State, now: uint32, m: Message, sent: bool, ip: uint32)
    requires Inv(s) && TakesOffer(s, m, ip)
    requires Unacked(s, now, m, sent, ip)
    ensures var s', t := Request(s, now, m, sent), FindXid(s.cache, m.xid);
            && ValidPools(s'.store.pools) && LeaseSafe(s'.store) && Leased(s'.store, ip)
            && |s'.cache| == |s.cache| && ExpiryReleases(s'.cache[t]) == ip != 0
  {
    var t := FindXid(s.cache, m.xid);
    assert Request(s, now, m, sent) == Accept(s, now, m, sent, ip);
    assert !Leased(s.store, ip) && ip != 0 by {
      assert SlotSafe(s.store, s.cache[t]) && ip in Offered(s.cache[t]);
    }
    CommitSafeIff(s, now, m, ip);
    if Delivered(sent, AckOptions(CommitLease(s, now, m, ip), m, ip)) {
      AcceptWithAck(s, now, m, sent, ip);
      UntypedJoins(s.cache, AckFor(s, now, m, ip), now);
    }
  }

  /**
   With any other type than ACK in the cached reply, or an ACK that is not sent, every accepted
   first offer is lost: when its transaction expires, the address returns to the pool while the
   lease is still recorded.
   */
  lemma UntypedAckLoses(s: State, now: uint32, m: Message, sent: bool, ip: uint32, t: nat, later: uint32)
    requires Inv(s) && Admit(s, now, m).1 && TakesOffer(Admit(s, now, m).0, m, ip)
    requires Unacked(Admit(s, now, m).0, now, m, sent, ip)
    requires t == FindXid(Admit(s, now, m).0.cache, m.xid) < |Step(s, Received(now, m, sent)).cache|
    requires Poll(Step(s, Received(now, m, sent)).cache[t].timer, later).1
    ensures LeaseSafe(Step(s, Received(now, m, sent)).store)
    ensures Orphan(Run(s, [Received(now, m, sent), Timers(later)]).store, ip)
  {
    var s1 := Admit(s, now, m).0;
    AdmitKeepsInv(s, now, m);
    AdmitsRequest(s, now, m, sent);
    UnackedOffer(s1, now, m, sent, ip);
    var s2 := Request(s1, now, m, sent);
    assert Strikes(s2.store, s2.cache[t], later);
    StruckTickLoses(s2, t, later);
    TwoEvents(s, Received(now, m, sent), Timers(later));
  }
}
