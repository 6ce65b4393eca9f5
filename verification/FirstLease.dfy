/**
 A client takes its first lease from a fresh server: what the protocol makes of DISCOVER and
 REQUEST, and of what may come next. `k` is the type left in the cached ACK.
 */
module FirstLease {
  import opened Words
  import opened DhcpOptions
  import opened ReplyOptions
  import opened Messages
  import opened Timers
  import opened Pools
  import opened Leases
  import opened Transactions
  import opened AccessControl
  import opened Protocol
  import opened LeaseSafety
  import opened Runs
  import opened Replies
  import opened Accounting
  import opened SafetyLimits
  import opened LostLeases

  function Opt(tag: byte, octets: seq<byte>): DhcpOption
    requires |octets| <= 4
  {
    DhcpOption(tag, TagToType(tag), |octets|, ZeroPadded(octets))
  }

  const MASK: DhcpOption := SubnetMaskOption(0)
  const DEFAULTS: seq<DhcpOption> := [Opt(51, [120, 0, 0, 0]), Opt(54, [9, 0, 0, 0])]
  const POOL: Pool := Pool("p", 10, 12, 0, [MASK], {})
  const MARKED: seq<Pool> := [POOL.(used := {10})]
  const CLIENT: Mac := [1, 2, 3, 4, 5, 6]
  const OFF: Acl := Acl([], false, true)

  const ASK: Message := Message(DISCOVER, 7, 0, 0, CLIENT, [Opt(55, [1])], 5)
  const TAKE: Message := Message(REQUEST, 7, 0, 0, CLIENT, [Opt(54, [9, 0, 0, 0]), Opt(50, [10, 0, 0, 0]), Opt(55, [1])], 5)

  /** One pool of three addresses, one slot, transactions of 60 seconds. */
  function Boot(k: uint32): State {
    State(Config(9, DEFAULTS, k), Store([POOL], map[]), [FreshSlot(60, 5)], OFF, OFF, TimerState(true, 100, 100, true, 5))
  }

  // ---------------------------------------------------------------- options

  lemma Defaults()
    ensures Configured(51, DEFAULTS, [MASK]) == Some(DEFAULTS[0]) && DEFAULTS[0].Number() == 120
    ensures Configured(54, DEFAULTS, [MASK]) == Some(DEFAULTS[1])
    ensures Configured(1, DEFAULTS, [MASK]) == Some(MASK)
  {
    assert DEFAULTS[1..] == [DEFAULTS[1]];
    assert Retrieve(DEFAULTS[1..], 54) == Some(DEFAULTS[1]);
  }

  lemma TagLists()
    ensures UpToNul([51, 54, 0]) == [51, 54] && UpToNul([1, 0]) == [1]
    ensures UpToNul([50, 55, 61, 57, 0]) == [50, 55, 61, 57]
  {
    TagArrays();
    assert [1, 0][1..] == [0];
  }

  function Mandatory(kind: byte): seq<DhcpOption> {
    [MessageTypeOption(kind), CopyOption(DEFAULTS[0]), CopyOption(DEFAULTS[1])]
  }

  function ReplyList(kind: byte): seq<DhcpOption> {
    Mandatory(kind) + [CopyOption(MASK)]
  }

  lemma RequiredPart(kind: byte, black: seq<byte>)
    requires black == [50, 55, 61, 57]
    ensures AddRequired([MessageTypeOption(kind)], [51, 54], black, DEFAULTS, [MASK]) == Some(Mandatory(kind))
  {
    Defaults();
    var d0 := [MessageTypeOption(kind)];
    var d1 := d0 + [CopyOption(DEFAULTS[0])];
    assert AddOption(d0, CopyOption(DEFAULTS[0])) == d1;
    assert AddOption(d1, CopyOption(DEFAULTS[1])) == Mandatory(kind);
    assert [51, 54][1..] == [54] && [54][1..] == [];
    assert AddRequired(Mandatory(kind), [], black, DEFAULTS, [MASK]) == Some(Mandatory(kind));
    assert AddRequired(d1, [54], black, DEFAULTS, [MASK]) == Some(Mandatory(kind));
  }

  lemma RequestedPart(kind: byte, black: seq<byte>)
    requires black == [50, 55, 61, 57]
    ensures AddRequested(Mandatory(kind), [1], black, DEFAULTS, [MASK]) == ReplyList(kind)
  {
    Defaults();
    assert [1][1..] == [];
    assert Retrieve(Mandatory(kind), 1) == None;
  }

  lemma BuiltReply(kind: byte)
    ensures Build([1, 0], [51, 54, 0], [50, 55, 61, 57, 0], DEFAULTS, [MASK], kind) == Some(ReplyList(kind))
  {
    TagLists();
    RequiredPart(kind, [50, 55, 61, 57]);
    RequestedPart(kind, [50, 55, 61, 57]);
  }

  lemma ReplySize(kind: byte)
    ensures Size(ReplyList(kind)) == 21
  {
    var l := ReplyList(kind);
    assert l[1..] == [l[1], l[2], l[3]] && l[1..][1..] == [l[2], l[3]];
    assert [l[2], l[3]][1..] == [l[3]] && [l[3]][1..] == [];
    assert Size([l[3]]) == 6;
    assert Size([l[2], l[3]]) == 12;
    assert Size([l[1], l[2], l[3]]) == 18;
  }

  /** The options of OFFER and ACK about address 10, to a client that asks for the subnet mask. */
  lemma ReplyOptionsAre(s: State, m: Message, kind: byte)
    requires s.cfg.defaults == DEFAULTS && s.store.pools == MARKED
    requires Retrieve(m.options, PARAMETER_LIST) == Some(Opt(55, [1]))
    ensures PoolReply(s, m, 10, [51, 54, 0], [50, 55, 61, 57, 0], kind) == Some(ReplyList(kind))
  {
    BuiltReply(kind);
    assert FindPool(MARKED, 10) == 0;
    assert Covered(Opt(55, [1])) + [0] == [1, 0];
  }

  lemma TakeOptions()
    ensures var o := TAKE.options;
            && Retrieve(o, SERVER_ID) == Some(o[0]) && o[0].Number() == 9
            && Retrieve(o, REQUESTED_IP) == Some(o[1]) && o[1].Number() == 10
            && Retrieve(o, PARAMETER_LIST) == Some(o[2])
            && Retrieve(o, CLIENT_ID) == None
  {
    var o := TAKE.options;
    assert o[1..] == [o[1], o[2]] && o[1..][1..] == [o[2]];
    assert Retrieve(o[1..][1..], PARAMETER_LIST) == Some(o[2]);
    assert Retrieve(o[1..], PARAMETER_LIST) == Some(o[2]);
    assert Retrieve(o[1..], REQUESTED_IP) == Some(o[1]);
  }

  // ---------------------------------------------------------------- DISCOVER

  const OFFERING: Event := Received(5, ASK, true)
  const LEASING: Event := Received(5, TAKE, true)
  const BUSY: TimerState := TimerState(false, 60, 60, true, 5)
  const OFFERED: Message := Message(OFFER, 7, 0, 10, CLIENT, ReplyList(2), 5)

  /** Address 10 is marked and on offer. */
  function AfterDiscover(k: uint32): State {
    Boot(k).(store := Store(MARKED, map[]), cache := [Slot(7, 5, 2, [ASK, OFFERED], BUSY)])
  }

  /** In a cache of one slot the message joins the running transaction. */
  lemma JoinSlot(slot: Slot, m: Message)
    requires slot.xid == m.xid && 0 < slot.count < 255
    ensures AddMessage([slot], m, 5) == Some([slot.(count := slot.count + 1, messages := slot.messages + [m.(time := 5)])])
  {
    var slot' := slot.(count := slot.count + 1, messages := slot.messages + [m.(time := 5)]);
    assert TransAdd(slot, m.(time := 5), 5) == Some(slot');
    assert [slot][0 := slot'] == [slot'];
  }

  lemma OpenSlot(m: Message)
    requires m.xid != 0
    ensures AddMessage([FreshSlot(60, 5)], m, 5) == Some([Slot(m.xid, 5, 1, [m.(time := 5)], BUSY)])
  {
    var slot, slot' := FreshSlot(60, 5), Slot(m.xid, 5, 1, [m.(time := 5)], BUSY);
    assert [] + [m.(time := 5)] == [m.(time := 5)];
    assert TransAdd(Clear(slot, 5), m.(time := 5), 5) == Some(slot');
    assert [slot][0 := slot'] == [slot'];
  }

  lemma AdmitAsk(k: uint32)
    ensures Admit(Boot(k), 5, ASK) == (Boot(k).(cache := [Slot(7, 5, 1, [ASK], BUSY)]), true)
  {
    OpenSlot(ASK);
    OpenDoor(Boot(k), 5, ASK);
  }

  lemma Allocation()
    ensures AllocateFor([POOL], ASK) == (MARKED, 10)
  {
    assert FirstFree(POOL) == 10;
    assert {} + {10} == {10};
    assert [POOL][0 := POOL.(used := {10})] == MARKED;
  }

  lemma OptionsOfOffer(s: State)
    requires s.cfg.defaults == DEFAULTS && s.store.pools == MARKED
    ensures OfferOptions(s, ASK, 10) == Some(ReplyList(2))
  {
    ReplyOptionsAre(s, ASK, 2);
  }

  lemma DeliverOffer(s: State, k: uint32)
    requires s == Boot(k).(cache := [Slot(7, 5, 1, [ASK], BUSY)], store := Store(MARKED, map[]))
    ensures Deliver(s, 5, true, Reply(ASK, OFFER, 0, 10), OfferOptions(s, ASK, 10)) == AfterDiscover(k)
  {
    OptionsOfOffer(s);
    ReplySize(2);
    JoinSlot(s.cache[0], OFFERED);
    assert [ASK] + [OFFERED] == [ASK, OFFERED];
  }

  lemma DiscoverStep(k: uint32)
    ensures Inv(Boot(k)) && Inv(AfterDiscover(k))
    ensures Step(Boot(k), Received(5, ASK, true)) == AfterDiscover(k)
  {
    var s := Boot(k);
    var s1 := s.(cache := [Slot(7, 5, 1, [ASK], BUSY)]);
    BootSafe(k);
    AdmitAsk(k);
    AdmitKeepsInv(s, 5, ASK);
    DiscoverKeepsInv(s1, 5, ASK, true);
    assert Discover(s1, 5, ASK, true) == AfterDiscover(k) by {
      Allocation();
      Defaults();
      DeliverOffer(s1.(store := Store(MARKED, map[])), k);
    }
  }

  lemma BootSafe(k: uint32)
    ensures Inv(Boot(k))
  {
    var s := Boot(k);
    assert POOL.Valid() && File(s.store.files, "p") == [];
    assert ValidSlot(s.cache[0]) && Offered(s.cache[0]) == {};
  }

  // ---------------------------------------------------------------- REQUEST

  /** The REQUEST is in the cache and on its way to the handler. */
  function Requested(k: uint32): State {
    AfterDiscover(k).(cache := [Slot(7, 5, 3, [ASK, OFFERED, TAKE], BUSY)])
  }

  lemma AdmitTake(k: uint32)
    ensures Admit(AfterDiscover(k), 5, TAKE) == (Requested(k), true)
  {
    JoinSlot(AfterDiscover(k).cache[0], TAKE);
    assert [ASK, OFFERED] + [TAKE] == [ASK, OFFERED, TAKE];
    OpenDoor(AfterDiscover(k), 5, TAKE);
  }

  lemma FirstMessages()
    ensures First([ASK, OFFERED, TAKE], DISCOVER) == Some(ASK)
    ensures First([ASK, OFFERED, TAKE], OFFER) == Some(OFFERED)
    ensures First([ASK, OFFERED, TAKE], ACK) == None
  {
    assert [ASK, OFFERED, TAKE][1..] == [OFFERED, TAKE];
  }

  lemma TakeIsValid()
    ensures ValidParams([ASK, OFFERED, TAKE], TAKE) && ClientAddress([ASK, OFFERED, TAKE], TAKE) == 10
  {
    TakeOptions();
    FirstMessages();
    assert Retrieve(ASK.options, PARAMETER_LIST) == Some(TAKE.options[2]);
  }

  lemma TakeIsJudged(s: State)
    requires s.cfg.boundIp == 9 && s.cfg.defaults == DEFAULTS && s.store.pools == MARKED
    requires History(s.cache, 7) == [ASK, OFFERED, TAKE]
    ensures Judge(s, TAKE, TAKE.options[0]) == Commit(10)
  {
    TakeOptions();
    TakeIsValid();
    assert FindPool(MARKED, 10) == 0;
    assert LeaseTime(s, 0) == 120 by {
      Defaults();
    }
  }

  lemma TakeCommits(k: uint32)
    ensures Retrieve(TAKE.options, SERVER_ID).Some?
    ensures Judge(Requested(k), TAKE, Retrieve(TAKE.options, SERVER_ID).value) == Commit(10)
    ensures TakesOffer(Requested(k), TAKE, 10) && FindXid(Requested(k).cache, 7) == 0
  {
    TakeIsJudged(Requested(k));
    TakeOptions();
    FirstMessages();
  }

  lemma AckGoesOut(k: uint32)
    ensures FindPool(MARKED, 10) == 0
    ensures Delivered(true, AckOptions(CommitLease(Requested(k), 5, TAKE, 10), TAKE, 10))
  {
    TakeOptions();
    ReplyOptionsAre(CommitLease(Requested(k), 5, TAKE, 10), TAKE, 5);
    ReplySize(5);
  }

  lemma AcceptTake(k: uint32)
    ensures Step(AfterDiscover(k), LEASING) == Accept(Requested(k), 5, TAKE, true, 10)
  {
    AdmitTake(k);
    AdmitsRequest(AfterDiscover(k), 5, TAKE, true);
    TakeCommits(k);
  }

  /** The lease is recorded. */
  lemma TakeAccepted(k: uint32)
    ensures var s := Step(AfterDiscover(k), LEASING);
            ValidPools(s.store.pools) && LeaseSafe(s.store) && Leased(s.store, 10)
  {
    AcceptTake(k);
    RequestedSafe(k);
    AcceptRecords(Requested(k), TAKE, 10);
  }

  lemma AcceptRecords(s: State, m: Message, ip: uint32)
    requires Inv(s) && Allocated(s.store.pools, ip) && !Leased(s.store, ip)
    ensures var s' := Accept(s, 5, m, true, ip);
            ValidPools(s'.store.pools) && LeaseSafe(s'.store) && Leased(s'.store, ip)
  {
    CommitSafeIff(s, 5, m, ip);
  }

  /** The cached ACK leaves the timer of the only slot alone. */
  lemma AcceptKeepsTimer(s: State, m: Message, ip: uint32)
    requires ValidCache(s.cache) && FindPool(s.store.pools, ip) < |s.store.pools|
    requires |s.cache| == 1 && s.cache[0].xid == m.xid && 0 < s.cache[0].count < 255
    requires Retrieve(m.options, REQUESTED_IP).Some? && Retrieve(m.options, REQUESTED_IP).value.Number() == ip
    requires Delivered(true, AckOptions(CommitLease(s, 5, m, ip), m, ip))
    ensures var s' := Accept(s, 5, m, true, ip); |s'.cache| == 1 && s'.cache[0].timer == s.cache[0].timer
  {
    assert s.cache == [s.cache[0]];
    AcceptWithAck(s, 5, m, true, ip);
    JoinSlot(s.cache[0], AckFor(s, 5, m, ip));
  }

  lemma TimerRuns(k: uint32)
    ensures FindPool(MARKED, 10) == 0
    ensures var s := Accept(Requested(k), 5, TAKE, true, 10); |s.cache| == 1 && s.cache[0].timer == BUSY
  {
    TakeOptions();
    AckGoesOut(k);
    RequestedSafe(k);
    AcceptKeepsTimer(Requested(k), TAKE, 10);
  }

  lemma BusyExpires()
    ensures Poll(BUSY, 65).1
  {
  }

  /** The transaction expires after 60 seconds. */
  lemma TakeExpires(k: uint32)
    ensures var s := Step(AfterDiscover(k), LEASING); |s.cache| == 1 && Poll(s.cache[0].timer, 65).1
  {
    AcceptTake(k);
    TimerRuns(k);
    BusyExpires();
  }

  lemma RequestedSafe(k: uint32)
    ensures Inv(Requested(k)) && 10 in Offered(Requested(k).cache[0]) && !Leased(Requested(k).store, 10)
  {
    DiscoverStep(k);
    AdmitTake(k);
    AdmitKeepsInv(AfterDiscover(k), 5, TAKE);
    FirstMessages();
    assert Requested(k).cache[0].messages[1] == OFFERED;
    assert SlotSafe(Requested(k).store, Requested(k).cache[0]);
  }

  // ---------------------------------------------------------------- runs

  lemma RunFrom(s: State, e: Event, s1: State, events: seq<Event>)
    requires Step(s, e) == s1
    ensures Run(s, [e] + events) == Run(s1, events)
    ensures HonestRun(s, [e] + events) <==> HonestEvent(s, e) && HonestRun(s1, events)
  {
    assert ([e] + events)[1..] == events;
  }

  lemma LeaseStep(k: uint32)
    ensures var s := Run(AfterDiscover(k), [LEASING]); LeaseSafe(s.store) && Leased(s.store, 10)
  {
    TakeAccepted(k);
    RunFrom(AfterDiscover(k), LEASING, Step(AfterDiscover(k), LEASING), []);
    assert [LEASING] + [] == [LEASING];
  }

  lemma LeaseIsHonest(k: uint32)
    ensures HonestRun(AfterDiscover(k), [LEASING])
  {
    assert HonestEvent(AfterDiscover(k), LEASING) by {
      AdmitTake(k);
      TakeOptions();
      TakeCommits(k);
      AckGoesOut(k);
      RequestedSafe(k);
    }
    RunFrom(AfterDiscover(k), LEASING, Step(AfterDiscover(k), LEASING), []);
    assert [LEASING] + [] == [LEASING];
  }

  lemma ExpiryStep(k: uint32)
    requires k != ACK
    ensures Orphan(Run(AfterDiscover(k), [LEASING, Timers(65)]).store, 10)
  {
    DiscoverStep(k);
    AdmitTake(k);
    TakeCommits(k);
    TakeExpires(k);
    UntypedAckLoses(AfterDiscover(k), 5, TAKE, true, 10, 0, 65);
  }

  lemma AdmitAgain(k: uint32)
    ensures Admit(Step(AfterDiscover(k), LEASING), 5, TAKE).1
  {
    AdmitTake(k);
    AdmitsRequest(AfterDiscover(k), 5, TAKE, true);
    assert LeasesAgain(Request(Requested(k), 5, TAKE, true), TAKE) && ValidCache(Request(Requested(k), 5, TAKE, true).cache) by {
      TakeCommits(k);
      TakeOptions();
      RequestedSafe(k);
      CommitsAgain(Requested(k), 5, TAKE, true);
    }
    RepeatIsAdmitted(Request(Requested(k), 5, TAKE, true), 5, TAKE);
  }

  lemma RepeatStep(k: uint32)
    ensures !LeaseSafe(Run(AfterDiscover(k), [LEASING, LEASING]).store)
  {
    DiscoverStep(k);
    AdmitTake(k);
    TakeCommits(k);
    TakeOptions();
    AdmitAgain(k);
    RetransmissionBreaks(AfterDiscover(k), 5, TAKE, true, 5, true);
  }

  /**
   The run is honest and records the lease. With any other type than ACK, as with the type 0 that
   the program leaves, the bit of the leased address is cleared a minute later. Whatever the type,
   repeating the REQUEST records the address twice.
   */
  lemma FirstLeaseRuns(k: uint32)
    ensures Inv(Boot(k)) && HonestRun(Boot(k), [OFFERING] + [LEASING])
    ensures LeaseSafe(Run(Boot(k), [OFFERING] + [LEASING]).store)
    ensures Leased(Run(Boot(k), [OFFERING] + [LEASING]).store, 10)
    ensures k != ACK ==> Orphan(Run(Boot(k), [OFFERING] + [LEASING, Timers(65)]).store, 10)
    ensures !LeaseSafe(Run(Boot(k), [OFFERING] + [LEASING, LEASING]).store)
  {
    var s := AfterDiscover(k);
    DiscoverStep(k);
    LeaseStep(k);
    LeaseIsHonest(k);
    RunFrom(Boot(k), OFFERING, s, [LEASING]);
    RunFrom(Boot(k), OFFERING, s, [LEASING, Timers(65)]);
    RunFrom(Boot(k), OFFERING, s, [LEASING, LEASING]);
    RepeatStep(k);
    if k != ACK {
      ExpiryStep(k);
    }
  }

  // ---------------------------------------------------------------- a leak

  const ZERO: DhcpOption := Opt(51, [0, 0, 0, 0])
  const HURRY: Message := Message(DISCOVER, 7, 0, 0, CLIENT, [ZERO], 5)

  lemma BootAccounted(k: uint32)
    ensures Accounted(Boot(k), {})
  {
    BootSafe(k);
    assert Offered(Boot(k).cache[0]) == {} && File(Boot(k).store.files, "p") == [];
  }

  lemma AdmitHurry(k: uint32)
    ensures Admit(Boot(k), 5, HURRY) == (Boot(k).(cache := [Slot(7, 5, 1, [HURRY], BUSY)]), true)
  {
    OpenSlot(HURRY);
    OpenDoor(Boot(k), 5, HURRY);
  }

  lemma HurryIsRefused(k: uint32)
    ensures LeaseDuration(DEFAULTS, HURRY) == 0 && AllocateFor([POOL], HURRY).1 == 10
  {
    Defaults();
    assert ZERO.value[..4] == [0, 0, 0, 0] && ZERO.Number() == 0;
    assert Retrieve(DEFAULTS, 51) == Some(DEFAULTS[0]);
    assert FirstFree(POOL) == 10;
  }

  /**
   The first DISCOVER a fresh server receives asks for a lease time of 0: address 10 leaves the pool
   and is never offered.
   */
  lemma ZeroTimeLeaks(k: uint32)
    requires k != OFFER
    ensures Accounted(Boot(k), {}) && !Accounted(Step(Boot(k), Received(5, HURRY, true)), {})
  {
    var e := Received(5, HURRY, true);
    BootAccounted(k);
    AdmitHurry(k);
    HurryIsRefused(k);
    assert !Tidy(Boot(k), e);
    StepAccountedIff(Boot(k), {}, e);
  }
}
