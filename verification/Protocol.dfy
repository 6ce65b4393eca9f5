/**
 The server as a state machine: one step per received message, per timer update of the
 main loop and per restart. Handlers mirror the files under server/src/messages.
 */
module Protocol {
  import opened Words
  import opened DhcpOptions
  import opened ReplyOptions
  import opened Messages
  import opened Timers
  import opened Pools
  import opened Leases
  import opened Transactions
  import opened AccessControl
  import opened AddressText

  /**
   `ackKind` is the `type` value that the new-lease and renewal ACK builders leave in the
   message they cache. The builders never assign it, so it is 0; the expiry callback and the
   DECLINE handler look for ACK.
   */
  datatype Config = Config(boundIp: uint32, defaults: seq<DhcpOption>, ackKind: uint32)

  /** The pool bitmaps and the lease files. */
  datatype Store = Store(pools: seq<Pool>, files: Files)

  datatype State = State(cfg: Config, store: Store, cache: seq<Slot>, acl: Acl, dacl: Acl, sweep: TimerState)

  // ---------------------------------------------------------------- replies

  /** Options of a reply about address `a`; None if they cannot be built. */
  function PoolReply(s: State, m: Message, a: uint32, required: seq<byte>, blacklist: seq<byte>, kind: byte)
    : Option<seq<DhcpOption>>
  {
    var o55 := Retrieve(m.options, PARAMETER_LIST);
    var i := FindPool(s.store.pools, a);
    if o55.None? || i == |s.store.pools| then None
    else Build(Covered(o55.value) + [0], required, blacklist, s.cfg.defaults, s.store.pools[i].options, kind)
  }

  /** Build the packet, send it and cache the message; `sent` is what sendto reports. */
  function Deliver(s: State, now: uint32, sent: bool, m: Message, options: Option<seq<DhcpOption>>): (s': State)
    ensures s'.store == s.store
    ensures |s'.cache| == |s.cache|
    ensures s'.cfg == s.cfg && s'.acl == s.acl && s'.dacl == s.dacl
  {
    if !sent || options.None? || Size(options.value) > OPTIONS_SIZE then s
    else
      match AddMessage(s.cache, m.(options := options.value), now)
      case None => s
      case Some(cache) => s.(cache := cache)
  }

  function Reply(m: Message, kind: uint32, ciaddr: uint32, yiaddr: uint32): Message {
    Message(kind, m.xid, ciaddr, yiaddr, m.chaddr, [], 0)
  }

  // ---------------------------------------------------------------- DISCOVER

  /** The requested address if it is free, else any; 0 if there is none. */
  function AllocateFor(pools: seq<Pool>, m: Message): (seq<Pool>, uint32) {
    var o50 := Retrieve(m.options, REQUESTED_IP);
    var (q, a) := if o50.Some? then RequestThis(pools, o50.value.Number()) else (pools, 0);
    if a != 0 then (q, a) else RequestAny(pools)
  }

  /** The smaller of the requested and the configured lease time. */
  function LeaseDuration(defaults: seq<DhcpOption>, m: Message): uint32 {
    var global, wanted := Retrieve(defaults, LEASE_TIME), Retrieve(m.options, LEASE_TIME);
    if global.None? then 0
    else if wanted.Some? && wanted.value.Number() <= global.value.Number() then wanted.value.Number()
    else global.value.Number()
  }

  function OfferOptions(s: State, m: Message, a: uint32): Option<seq<DhcpOption>> {
    var built := PoolReply(s, m, a, [51, 54, 0], [50, 55, 61, 57, 0], 2);
    var o61 := Retrieve(m.options, CLIENT_ID);
    if built.None? || o61.None? then built else Some(AddOption(built.value, CopyOption(o61.value)))
  }

  function Discover(s: State, now: uint32, m: Message, sent: bool): (s': State)
    ensures s'.cfg == s.cfg && s'.acl == s.acl && s'.dacl == s.dacl
  {
    var (pools, a) := AllocateFor(s.store.pools, m);
    var s1 := s.(store := s.store.(pools := pools));
    if a == 0 || LeaseDuration(s.cfg.defaults, m) == 0 then s1
    else Deliver(s1, now, sent, Reply(m, OFFER, 0, a), OfferOptions(s1, m, a))
  }

  // ---------------------------------------------------------------- REQUEST

  /** memcmp over the octets covered by the request's option. */
  predicate SameOctets(a: DhcpOption, b: DhcpOption) {
    Covered(a) <= b.value
  }

  /** validate_client_id_and_requested_params against the transaction's DISCOVER. */
  predicate ValidParams(history: seq<Message>, m: Message) {
    var discover := First(history, DISCOVER);
    && discover.Some?
    && var d := discover.value.options;
       var id, id0 := Retrieve(m.options, CLIENT_ID), Retrieve(d, CLIENT_ID);
       var pl, pl0 := Retrieve(m.options, PARAMETER_LIST), Retrieve(d, PARAMETER_LIST);
       && (id.Some? && id0.Some? ==> SameOctets(id.value, id0.value))
       && pl.Some? && pl0.Some? && SameOctets(pl.value, pl0.value)
  }

  /** retrieve_client_address: option 50 of the request, else of the cached offer; 0 on error. */
  function ClientAddress(history: seq<Message>, m: Message): uint32 {
    var o50 := Retrieve(m.options, REQUESTED_IP);
    if o50.Some? then o50.value.Number()
    else
      var offer := First(history, OFFER);
      if offer.None? then 0
      else
        var offered := Retrieve(offer.value.options, REQUESTED_IP);
        if offered.None? then 0 else offered.value.Number()
  }

  /** retrieve_lease_time, given the options of the pool; 0 if no lease time is configured. */
  function TimeIn(cfg: Config, options: seq<DhcpOption>): uint32 {
    var o := Configured(LEASE_TIME, cfg.defaults, options);
    if o.None? then 0 else o.value.Number()
  }

  function LeaseTime(s: State, i: nat): uint32
    requires i < |s.store.pools|
  {
    TimeIn(s.cfg, s.store.pools[i].options)
  }

  datatype Judgement = OtherServer | Refused | Stopped | Commit(ip: uint32)

  /** The checks of dhcp_request_response_to_offer, up to the commit. */
  function Judge(s: State, m: Message, o54: DhcpOption): (j: Judgement)
    ensures j.Commit? ==> var i := FindPool(s.store.pools, j.ip);
                          i < |s.store.pools| && j.ip in s.store.pools[i].used
    ensures j.Commit? && Retrieve(m.options, REQUESTED_IP).Some? ==>
              j.ip == Retrieve(m.options, REQUESTED_IP).value.Number()
  {
    var history := History(s.cache, m.xid);
    var ip := ClientAddress(history, m);
    var i := FindPool(s.store.pools, ip);
    if o54.Number() != s.cfg.boundIp then OtherServer
    else if m.ciaddr != 0 || m.yiaddr != 0 || !ValidParams(history, m) then Refused
    else if ip == 0 || Available(s.store.pools, ip) then Refused
    else if i == |s.store.pools| then Stopped
    else if LeaseTime(s, i) == 0 then Refused
    else Commit(ip)
  }

  /** dhcp_requst_commit_lease. */
  function CommitLease(s: State, now: uint32, m: Message, ip: uint32): (s': State)
    requires FindPool(s.store.pools, ip) < |s.store.pools|
    ensures s'.cfg == s.cfg && s'.acl == s.acl && s'.dacl == s.dacl
  {
    var i := FindPool(s.store.pools, ip);
    var p := s.store.pools[i];
    var lease := Lease(ip, p.mask, now, Add32(now, LeaseTime(s, i)), m.xid, 0, m.chaddr);
    s.(store := s.store.(files := s.store.files[p.name := File(s.store.files, p.name) + [lease]]))
  }

  function AckOptions(s: State, m: Message, a: uint32): Option<seq<DhcpOption>> {
    PoolReply(s, m, a, [51, 54, 0], [50, 55, 61, 57, 0], 5)
  }

  function NakOptions(s: State): Option<seq<DhcpOption>> {
    Build([0], [54, 0], [0], s.cfg.defaults, s.cfg.defaults, 6)
  }

  /** Commit the lease and answer with an ACK for the address in option 50. */
  function Accept(s: State, now: uint32, m: Message, sent: bool, ip: uint32): (s': State)
    requires FindPool(s.store.pools, ip) < |s.store.pools|
    ensures |s'.cache| == |s.cache|
    ensures s'.cfg == s.cfg && s'.acl == s.acl && s'.dacl == s.dacl
  {
    var s1 := CommitLease(s, now, m, ip);
    var o50 := Retrieve(m.options, REQUESTED_IP);
    if o50.None? then s1
    else
      var a := o50.value.Number();
      Deliver(s1, now, sent, Reply(m, s.cfg.ackKind, m.ciaddr, a), AckOptions(s1, m, a))
  }

  function SelectingRequest(s: State, now: uint32, m: Message, sent: bool, o54: DhcpOption): (s': State)
    ensures s'.cfg == s.cfg && s'.acl == s.acl && s'.dacl == s.dacl
  {
    match Judge(s, m, o54)
    case OtherServer => s
    case Stopped => s
    case Refused => Deliver(s, now, sent, Reply(m, NAK, 0, 0), NakOptions(s))
    case Commit(ip) => Accept(s, now, m, sent, ip)
  }

  /** dhcp_request_renew_lease: replace the client's own record by one with a new period. */
  function RenewedFiles(cfg: Config, st: Store, now: uint32, m: Message): Files {
    var i := FindPool(st.pools, m.ciaddr);
    if i == |st.pools| then st.files
    else
      var name := st.pools[i].name;
      var f := File(st.files, name);
      var lease := Lookup(f, m.ciaddr);
      if lease.None? || lease.value.mac != m.chaddr then st.files
      else
        var renewed := lease.value.(start := now, expire := Add32(now, TimeIn(cfg, st.pools[i].options)));
        st.files[name := RemoveLease(f, m.ciaddr) + [renewed]]
  }

  /** Renewal in terms of the lease found. */
  lemma RenewFound(cfg: Config, st: Store, now: uint32, m: Message, lease: Option<Lease>, name: string, options: seq<DhcpOption>)
    requires var i := FindPool(st.pools, m.ciaddr);
             if i == |st.pools| then lease == None
             else && name == st.pools[i].name && options == st.pools[i].options
                  && lease == Lookup(File(st.files, name), m.ciaddr)
    ensures RenewedFiles(cfg, st, now, m) ==
            if lease.None? || lease.value.mac != m.chaddr then st.files
            else
              var renewed := lease.value.(start := now, expire := Add32(now, TimeIn(cfg, options)));
              st.files[name := RemoveLease(File(st.files, name), renewed.address) + [renewed]]
  {
  }

  function RenewLease(s: State, now: uint32, m: Message): (s': State)
    ensures s'.cfg == s.cfg && s'.acl == s.acl && s'.dacl == s.dacl
  {
    s.(store := s.store.(files := RenewedFiles(s.cfg, s.store, now, m)))
  }

  function RenewingRequest(s: State, now: uint32, m: Message, sent: bool): (s': State)
    ensures s'.cfg == s.cfg && s'.acl == s.acl && s'.dacl == s.dacl
  {
    if m.ciaddr == 0 then s
    else
      var s1 := RenewLease(s, now, m);
      Deliver(s1, now, sent, Reply(m, s.cfg.ackKind, m.ciaddr, m.ciaddr), AckOptions(s1, m, m.ciaddr))
  }

  function Request(s: State, now: uint32, m: Message, sent: bool): (s': State)
    ensures s'.cfg == s.cfg && s'.acl == s.acl && s'.dacl == s.dacl
  {
    var o54 := Retrieve(m.options, SERVER_ID);
    if o54.Some? then SelectingRequest(s, now, m, sent, o54.value) else RenewingRequest(s, now, m, sent)
  }

  /** lease_remove on the named file, then allocator_release_address. */
  function Drop(st: Store, name: string, a: uint32): Store {
    Store(Release(st.pools, a), st.files[name := RemoveLease(File(st.files, name), a)])
  }

  // ---------------------------------------------------------------- RELEASE, DECLINE, INFORM

  /** Drop the lease of an address, if it has one. */
  function ReleaseFrom(st: Store, a: uint32): Store {
    var i := FindPool(st.pools, a);
    if i < |st.pools| && Lookup(File(st.files, st.pools[i].name), a).Some? then Drop(st, st.pools[i].name, a) else st
  }

  function ReleaseLease(s: State, m: Message): (s': State)
    ensures s'.cfg == s.cfg && s'.acl == s.acl && s'.dacl == s.dacl
  {
    if m.ciaddr == 0 then s else s.(store := ReleaseFrom(s.store, m.ciaddr))
  }

  /** The address a DECLINE would quarantine, 0 if none. */
  function DeclinedAddress(s: State, m: Message): uint32 {
    var ack := Last(History(s.cache, m.xid), ACK);
    if ack.Some? && ack.value.yiaddr != 0 && Available(s.store.pools, ack.value.yiaddr) then ack.value.yiaddr else 0
  }

  function Decline(s: State, m: Message): (s': State)
    ensures s'.cfg == s.cfg && s'.acl == s.acl && s'.dacl == s.dacl
  {
    var a := DeclinedAddress(s, m);
    if a == 0 then s else s.(store := s.store.(pools := Mark(s.store.pools, a)))
  }

  function Inform(s: State, now: uint32, m: Message, sent: bool): (s': State)
    ensures s'.cfg == s.cfg && s'.acl == s.acl && s'.dacl == s.dacl
  {
    if m.ciaddr == 0 then s
    else Deliver(s, now, sent, Reply(m, ACK, m.ciaddr, 0),
                 PoolReply(s, m, m.ciaddr, [54, 0], [50, 51, 55, 61, 57, 0], 5))
  }

  // ---------------------------------------------------------------- receiving a message

  function Handle(s: State, now: uint32, m: Message, sent: bool): (s': State)
    ensures s'.cfg == s.cfg && s'.acl == s.acl && s'.dacl == s.dacl
  {
    if m.kind == DISCOVER then Discover(s, now, m, sent)
    else if m.kind == REQUEST then Request(s, now, m, sent)
    else if m.kind == DECLINE then Decline(s, m)
    else if m.kind == INFORM then Inform(s, now, m, sent)
    else if m.kind == RELEASE then ReleaseLease(s, m)
    else s
  }

  /** The checks before a message reaches its handler, and whether it does. */
  function Admit(s: State, now: uint32, m: Message): (r: (State, bool))
    ensures r.0.cfg == s.cfg && r.0.acl == s.acl && r.0.store == s.store
  {
    if Check(s.acl, PrintMac(m.chaddr)) != Allow then (s, false)
    else
      var (dacl, verdict) := DynamicCheck(s.dacl, m.chaddr, s.cache);
      var s1 := s.(dacl := dacl);
      if verdict != Allow || m.kind == OFFER || m.kind == ACK || m.kind == NAK then (s1, false)
      else
        match AddMessage(s.cache, m, now)
        case None => (s1, false)
        case Some(cache) => (s1.(cache := cache), true)
  }

  function Receive(s: State, now: uint32, m: Message, sent: bool): (s': State)
    ensures s'.cfg == s.cfg && s'.acl == s.acl
  {
    var (s1, admitted) := Admit(s, now, m);
    if admitted then Handle(s1, now, m, sent) else s1
  }

  // ---------------------------------------------------------------- timers

  /** The address trans_timer_cb_clear gives back: the first offer of a transaction without ACK; 0 if none. */
  function ExpiryReleases(slot: Slot): uint32 {
    var offer := First(slot.messages, OFFER);
    if offer.Some? && First(slot.messages, ACK).None? then offer.value.yiaddr else 0
  }

  /** trans_timer_cb_clear. */
  function Expire(pools: seq<Pool>, slot: Slot, now: uint32): (seq<Pool>, Slot) {
    var a := ExpiryReleases(slot);
    (if a != 0 then Release(pools, a) else pools, Clear(slot, now))
  }

  lemma ExpireGives(pools: seq<Pool>, slot: Slot, now: uint32, a: uint32)
    requires a == ExpiryReleases(slot)
    ensures Expire(pools, slot, now) == (if a != 0 then Release(pools, a) else pools, Clear(slot, now))
  {
  }

  /** One round of the transaction loop of update_timers. */
  function TickSlot(s: State, i: nat, now: uint32): (s': State)
    requires i < |s.cache|
    ensures s'.cfg == s.cfg && s'.acl == s.acl && s'.dacl == s.dacl
  {
    var (timer, due) := Poll(s.cache[i].timer, now);
    var slot := s.cache[i].(timer := timer);
    if !due then s.(cache := s.cache[i := slot])
    else
      var (pools, slot') := Expire(s.store.pools, slot, now);
      s.(store := s.store.(pools := pools), cache := s.cache[i := slot'])
  }

  function TickSlots(s: State, i: nat, now: uint32): (s': State)
    ensures s'.cfg == s.cfg && s'.acl == s.acl && s'.dacl == s.dacl
    decreases |s.cache| - i
  {
    if i >= |s.cache| then s else TickSlots(TickSlot(s, i, now), i + 1, now)
  }

  /** A property that every slot update keeps holds after all of them. */
  lemma {:induction false} TickSlotsKeep(keeps: State -> bool, s: State, i: nat, now: uint32)
    requires keeps(s)
    requires forall t: State, j: nat :: j < |t.cache| && keeps(t) ==> keeps(TickSlot(t, j, now))
    ensures keeps(TickSlots(s, i, now))
    decreases |s.cache| - i
  {
    if i < |s.cache| {
      TickSlotsKeep(keeps, TickSlot(s, i, now), i + 1, now);
    }
  }

  /** One round of check_lease: the store and whether a lease was released. */
  function SweepAddress(st: Store, name: string, a: uint32, now: uint32): (Store, bool) {
    var lease := Lookup(File(st.files, name), a);
    if Available(st.pools, a) || lease.None? || lease.value.expire > now then (st, false)
    else (Drop(st, name, a), true)
  }

  /** check_lease: visits start, .., end - 1. */
  function SweepRange(st: Store, name: string, a: nat, end: uint32, now: uint32, n: nat): (Store, nat)
    decreases end - a
  {
    if a >= end then (st, n)
    else
      var (st', freed) := SweepAddress(st, name, a, now);
      SweepRange(st', name, a + 1, end, now, if freed then n + 1 else n)
  }

  lemma SweepRangeDone(st: Store, name: string, a: nat, end: uint32, now: uint32, n: nat)
    requires a >= end
    ensures SweepRange(st, name, a, end, now, n) == (st, n)
  {
  }

  lemma SweepRangeUnfold(st: Store, name: string, a: uint32, end: uint32, now: uint32, n: nat)
    requires a < end
    ensures var (st', freed) := SweepAddress(st, name, a, now);
            SweepRange(st, name, a, end, now, n) == SweepRange(st', name, a + 1, end, now, if freed then n + 1 else n)
  {
  }

  /** check_lease_expirations from pool `i` on. */
  function SweepPools(st: Store, pools: seq<Pool>, now: uint32, n: nat): (Store, nat)
    decreases pools
  {
    if pools == [] then (st, n)
    else
      var (st', n') := SweepRange(st, pools[0].name, pools[0].start, pools[0].end, now, n);
      SweepPools(st', pools[1..], now, n')
  }

  function SweepLeases(st: Store, now: uint32): (Store, nat) {
    SweepPools(st, st.pools, now, 0)
  }

  /** update_timers. */
  function Tick(s: State, now: uint32): (s': State)
    ensures s'.cfg == s.cfg && s'.acl == s.acl && s'.dacl == s.dacl
  {
    var s1 := TickSlots(s, 0, now);
    var (sweep, due) := Poll(s1.sweep, now);
    s1.(sweep := sweep, store := if due then SweepLeases(s1.store, now).0 else s1.store)
  }

  // ---------------------------------------------------------------- restart

  /** One record at start-up: an expired one is removed from the file, a live one marks its address. */
  function LoadOne(p: Pool, f: seq<Lease>, l: Lease, now: uint32): (Pool, seq<Lease>) {
    if l.expire <= now then (p, RemoveLease(f, l.address))
    else (if p.Contains(l.address) then p.(used := p.used + {l.address}) else p, f)
  }

  /** load_pool_leases: walk the records read at the start, editing the file and the bitmap. */
  function LoadRecords(p: Pool, f: seq<Lease>, records: seq<Lease>, now: uint32): (Pool, seq<Lease>)
    decreases records
  {
    if records == [] then (p, f)
    else
      var (p', f') := LoadOne(p, f, records[0], now);
      LoadRecords(p', f', records[1..], now)
  }

  lemma {:induction false} LoadOneMore(p: Pool, f: seq<Lease>, records: seq<Lease>, l: Lease, now: uint32)
    ensures var (p', f') := LoadRecords(p, f, records, now);
            LoadRecords(p, f, records + [l], now) == LoadOne(p', f', l, now)
    decreases records
  {
    if records == [] {
      assert records + [l] == [l] && [l][1..] == [];
    } else {
      assert (records + [l])[1..] == records[1..] + [l];
      var (p', f') := LoadOne(p, f, records[0], now);
      LoadOneMore(p', f', records[1..], l, now);
    }
  }

  /** load_pool_leases on pool `i`. */
  function LoadPool(st: Store, i: nat, now: uint32): (r: Store)
    requires i < |st.pools|
    ensures |r.pools| == |st.pools|
  {
    var p := st.pools[i];
    var (p', f') := LoadRecords(p, File(st.files, p.name), File(st.files, p.name), now);
    Store(st.pools[i := p'], st.files[p.name := f'])
  }

  /** init_load_persisten_leases over the pools from `i` on. */
  function LoadPools(st: Store, i: nat, now: uint32): Store
    decreases |st.pools| - i
  {
    if i >= |st.pools| then st else LoadPools(LoadPool(st, i, now), i + 1, now)
  }

  /** A new process over the same configuration and lease files. */
  function Restart(s: State, now: uint32): (s': State)
    ensures s'.cfg == s.cfg && s'.acl == s.acl
  {
    State(s.cfg, LoadPools(Store(EmptyPools(s.store.pools), s.store.files), 0, now),
          FreshCache(s.cache, now),
          s.acl, s.dacl.(entries := []), TimerState(true, s.sweep.dtime, s.sweep.dtime, true, now))
  }

  // ---------------------------------------------------------------- runs

  datatype Event =
    | Received(now: uint32, m: Message, sent: bool)
    | Timers(now: uint32)
    | Restarted(now: uint32)

  function Step(s: State, e: Event): (s': State)
    ensures s'.cfg == s.cfg && s'.acl == s.acl
  {
    match e
    case Received(now, m, sent) => Receive(s, now, m, sent)
    case Timers(now) => Tick(s, now)
    case Restarted(now) => Restart(s, now)
  }

  function Run(s: State, events: seq<Event>): (s': State)
    ensures s'.cfg == s.cfg && s'.acl == s.acl
    decreases events
  {
    if events == [] then s else Run(Step(s, events[0]), events[1..])
  }

  lemma RunPrefix(s: State, events: seq<Event>, k: nat)
    requires 0 < k <= |events|
    ensures Run(s, events[..k]) == Run(Step(s, events[0]), events[1..][..k - 1])
  {
    assert events[..k][1..] == events[1..][..k - 1];
  }
}
