/**
 The server object. Every method is proved to take the step that the protocol's state machine
 prescribes on the value of the server's parts.
 */
module DhcpServers {
  import opened Words
  import opened DhcpOptions
  import opened ReplyOptions
  import opened Messages
  import opened Timers
  import opened Pools
  import opened Leases
  import opened Transactions
  import opened AccessControl
  import opened AddressText
  import opened Protocol
  import LeaseSafety
  import Runs
  import CacheShare
  import opened AddressPools
  import opened Allocators
  import opened TransactionCaches
  import opened LeaseStores
  import opened AccessLists

  /** Same names and ranges: what a sweep leaves alone. */
  ghost predicate SameRanges(p: seq<Pool>, q: seq<Pool>) {
    && |p| == |q|
    && forall i :: 0 <= i < |p| ==> p[i].name == q[i].name && p[i].start == q[i].start && p[i].end == q[i].end
  }

  lemma Overwrite(files: Files, name: string, f: seq<Lease>, g: seq<Lease>)
    ensures files[name := f][name] == f && files[name := f][name := g] == files[name := g]
  {
  }

  /** What the theorems about runs say of a whole run. */
  lemma RunKeeps(s: State, events: seq<Event>)
    ensures LeaseSafety.Inv(s) && s.cfg.ackKind == ACK && Runs.HonestRun(s, events) ==> LeaseSafety.Inv(Run(s, events))
    ensures CacheShare.Bounded(s) ==> CacheShare.Bounded(Run(s, events))
  {
    assert events[..|events|] == events;
    if LeaseSafety.Inv(s) && s.cfg.ackKind == ACK && Runs.HonestRun(s, events) {
      Runs.RunsAreSafe(s, events, |events|);
    }
    if CacheShare.Bounded(s) {
      CacheShare.RunsAreBounded(s, events, |events|);
    }
  }

  class DhcpServer {
    const cfg: Config
    const allocator: Allocator
    const cache: TransactionCache
    const leases: LeaseStore
    const acl: AccessList
    const dacl: AccessList
    const sweep: Timer

    ghost const Repr: set<object>

    /** The parts of the server share no objects. */
    ghost predicate Apart() {
      && allocator.Repr !! cache.Repr
      && allocator.Repr + cache.Repr !! {leases, acl, dacl, sweep}
      && acl != dacl
      && Repr == allocator.Repr + cache.Repr + {leases, acl, dacl, sweep}
    }

    ghost predicate Valid()
      reads this, Repr, allocator, allocator.Repr, cache, cache.Repr, leases
    {
      && Apart() && allocator.Valid() && cache.Valid() && leases.Valid()
      && allocator.defaults == cfg.defaults
    }

    ghost function View(): State
      reads this, allocator, cache, leases, acl, dacl, sweep
    {
      State(cfg, Store(allocator.model, leases.model), cache.model, acl.View(), dacl.View(), sweep.View())
    }

    /** What the store operations need: the pools and the lease files. */
    ghost predicate StoreValid()
      reads this, allocator, allocator.Repr, leases
    {
      leases !in allocator.Repr && allocator.Valid() && leases.Valid()
    }

    ghost function Stored(): Store
      reads this, allocator, leases
    {
      Store(allocator.model, leases.model)
    }

    constructor (cfg: Config, allocator: Allocator, cache: TransactionCache, leases: LeaseStore,
                 acl: AccessList, dacl: AccessList, sweep: Timer)
      requires allocator.Valid() && cache.Valid() && leases.Valid() && allocator.defaults == cfg.defaults
      requires allocator.Repr !! cache.Repr && allocator.Repr + cache.Repr !! {leases, acl, dacl, sweep} && acl != dacl
      ensures Valid() && this.allocator == allocator && this.leases == leases && this.dacl == dacl && this.sweep == sweep
      ensures Repr == allocator.Repr + cache.Repr + {leases, acl, dacl, sweep}
      ensures View() == State(cfg, Store(allocator.model, leases.model), cache.model,
                              acl.View(), dacl.View(), sweep.View())
    {
      this.cfg, this.allocator, this.cache, this.leases := cfg, allocator, cache, leases;
      this.acl, this.dacl, this.sweep := acl, dacl, sweep;
      Repr := allocator.Repr + cache.Repr + {leases, acl, dacl, sweep};
    }

    // -------------------------------------------------------------- replies

    /** The option lists of replies about an address. */
    method ReplyOptionsFor(m: Message, a: uint32, required: seq<byte>, blacklist: seq<byte>, kind: byte)
      returns (r: Option<seq<DhcpOption>>)
      requires Valid() && 0 in required && 0 in blacklist
      ensures r == PoolReply(View(), m, a, required, blacklist, kind)
    {
      var o55 := Retrieve(m.options, PARAMETER_LIST);
      var i, name, mask, options := allocator.Locate(a);
      if o55.None? || i == |allocator.pools| {
        return None;
      }
      var tags := Covered(o55.value) + [0];
      assert tags[|tags| - 1] == 0;
      r := BuildOptions(tags, required, blacklist, cfg.defaults, options, kind);
    }

    /** Build, send and cache a reply. */
    method DeliverReply(now: uint32, sent: bool, m: Message, options: Option<seq<DhcpOption>>)
      requires Valid()
      modifies cache.Repr
      ensures Valid() && View() == Deliver(old(View()), now, sent, m, options)
    {
      if sent && options.Some? && Size(options.value) <= OPTIONS_SIZE {
        var ok := cache.AddMessage(m.(options := options.value), now);
      }
    }

    // -------------------------------------------------------------- DISCOVER

    /** allocate_particular_address: the address of option 50 if it is free, else 0. */
    method AllocateParticular(m: Message) returns (a: uint32)
      requires Valid()
      modifies allocator.Repr
      ensures Valid()
      ensures var o50 := Retrieve(m.options, REQUESTED_IP);
              (allocator.model, a) == if o50.Some? then RequestThis(old(allocator.model), o50.value.Number())
                                      else (old(allocator.model), 0)
      ensures a == 0 ==> allocator.model == old(allocator.model)
    {
      a := 0;
      var o50 := Retrieve(m.options, REQUESTED_IP);
      if o50.Some? {
        var s, out := allocator.RequestThis(o50.value.Number(), 0);
        a := out;
      }
    }

    /** allocate_particular_address, then allocate_random_address. */
    method Allocate(m: Message) returns (a: uint32)
      requires Valid()
      modifies allocator.Repr
      ensures Valid()
      ensures (allocator.model, a) == AllocateFor(old(allocator.model), m)
    {
      a := AllocateParticular(m);
      if a == 0 {
        var s, out := allocator.RequestAny(0);
        a := out;
      }
    }

    /** get_requested_dhcp_options of dhcpoffer.c. */
    method OptionsForOffer(m: Message, a: uint32) returns (options: Option<seq<DhcpOption>>)
      requires Valid()
      ensures options == OfferOptions(View(), m, a)
    {
      options := ReplyOptionsFor(m, a, [51, 54, 0], [50, 55, 61, 57, 0], 2);
      var o61 := Retrieve(m.options, CLIENT_ID);
      if options.Some? && o61.Some? {
        options := Some(AddOption(options.value, CopyOption(o61.value)));
      }
    }

    /** message_dhcpdiscover_handle and message_dhcpoffer_build. */
    method HandleDiscover(now: uint32, m: Message, sent: bool)
      requires Valid()
      modifies Repr
      ensures Valid() && View() == Discover(old(View()), now, m, sent)
    {
      var a := Allocate(m);
      if a != 0 && LeaseDuration(cfg.defaults, m) != 0 {
        var options := OptionsForOffer(m, a);
        DeliverReply(now, sent, Reply(m, OFFER, 0, a), options);
      }
    }

    // -------------------------------------------------------------- REQUEST

    /** The checks of dhcp_request_response_to_offer. */
    method JudgeRequest(m: Message, o54: DhcpOption) returns (j: Judgement)
      requires Valid()
      ensures j == Judge(View(), m, o54)
    {
      if o54.Number() != cfg.boundIp {
        return OtherServer;
      }
      var history := cache.MessagesOf(m.xid);
      if m.ciaddr != 0 || m.yiaddr != 0 || !ValidParams(history, m) {
        return Refused;
      }
      var ip := ClientAddress(history, m);
      if ip == 0 {
        return Refused;
      }
      var available := allocator.IsAvailable(ip);
      if available {
        return Refused;
      }
      var i, name, mask, options := allocator.Locate(ip);
      if i == |allocator.pools| {
        return Judgement.Stopped;
      }
      j := if TimeIn(cfg, options) == 0 then Refused else Commit(ip);
    }

    /** dhcp_requst_commit_lease. */
    method AddLease(now: uint32, m: Message, ip: uint32)
      requires Valid() && FindPool(allocator.model, ip) < |allocator.model|
      modifies leases
      ensures Valid() && View() == CommitLease(old(View()), now, m, ip)
    {
      var i, name, mask, options := allocator.Locate(ip);
      leases.Add(Lease(ip, mask, now, Add32(now, TimeIn(cfg, options)), m.xid, 0, m.chaddr), name);
    }

    /** The selecting branch of message_dhcprequest_handle. */
    method HandleSelecting(now: uint32, m: Message, sent: bool, o54: DhcpOption)
      requires Valid()
      modifies Repr
      ensures Valid() && View() == SelectingRequest(old(View()), now, m, sent, o54)
    {
      var j := JudgeRequest(m, o54);
      if j.Refused? {
        var options := BuildOptions([0], [54, 0], [0], cfg.defaults, cfg.defaults, 6);
        DeliverReply(now, sent, Reply(m, NAK, 0, 0), options);
      } else if j.Commit? {
        AcceptRequest(now, m, sent, j.ip);
      }
    }

    /** Commit and acknowledge. */
    method AcceptRequest(now: uint32, m: Message, sent: bool, ip: uint32)
      requires Valid() && FindPool(allocator.model, ip) < |allocator.model|
      modifies leases, cache.Repr
      ensures Valid() && View() == Accept(old(View()), now, m, sent, ip)
    {
      AddLease(now, m, ip);
      var o50 := Retrieve(m.options, REQUESTED_IP);
      if o50.Some? {
        Acknowledge(now, m, sent, o50.value.Number());
      }
    }

    /** message_dhcpack_build. */
    method Acknowledge(now: uint32, m: Message, sent: bool, a: uint32)
      requires Valid()
      modifies cache.Repr
      ensures Valid()
      ensures View() == Deliver(old(View()), now, sent, Reply(m, cfg.ackKind, m.ciaddr, a), AckOptions(old(View()), m, a))
    {
      var options := ReplyOptionsFor(m, a, [51, 54, 0], [50, 55, 61, 57, 0], 5);
      DeliverReply(now, sent, Reply(m, cfg.ackKind, m.ciaddr, a), options);
    }

    /** lease_retrieve_address: the lease of an address, by way of its pool. */
    method LeaseOf(a: uint32) returns (lease: Option<Lease>, name: string, options: seq<DhcpOption>)
      requires StoreValid()
      ensures var i := FindPool(allocator.model, a);
              if i == |allocator.model| then lease == None
              else && name == allocator.model[i].name && options == allocator.model[i].options
                   && lease == Lookup(File(leases.model, name), a)
    {
      var i, n, mask, o := allocator.Locate(a);
      lease, name, options := None, n, o;
      if i < |allocator.pools| {
        lease := leases.Retrieve(a, name);
      }
    }

    method ReplaceLease(now: uint32, m: Message)
      requires StoreValid()
      modifies leases
      ensures leases.Valid() && leases.model == RenewedFiles(cfg, old(Stored()), now, m)
    {
      var lease, name, options := LeaseOf(m.ciaddr);
      RenewFound(cfg, Stored(), now, m, lease, name, options);
      if lease.Some? && lease.value.mac == m.chaddr {
        leases.Replace(lease.value.(start := now, expire := Add32(now, TimeIn(cfg, options))), name);
      }
    }

    /** dhcp_request_renew_lease. */
    method Renew(now: uint32, m: Message)
      requires Valid()
      modifies leases
      ensures Valid() && View() == RenewLease(old(View()), now, m)
    {
      ReplaceLease(now, m);
    }

    /** message_dhcprequest_handle. */
    method HandleRequest(now: uint32, m: Message, sent: bool)
      requires Valid()
      modifies Repr
      ensures Valid() && View() == Request(old(View()), now, m, sent)
    {
      var o54 := Retrieve(m.options, SERVER_ID);
      if o54.Some? {
        HandleSelecting(now, m, sent, o54.value);
      } else if m.ciaddr != 0 {
        Renew(now, m);
        Acknowledge(now, m, sent, m.ciaddr);
      }
    }

    // -------------------------------------------------------------- RELEASE, DECLINE, INFORM

    /** lease_remove, then allocator_release_address. */
    method DropLease(a: uint32, name: string)
      requires StoreValid()
      modifies leases, allocator.Repr
      ensures StoreValid() && Stored() == Drop(old(Stored()), name, a)
    {
      var found := leases.Remove(a, name);
      var s := allocator.ReleaseAddress(a);
    }

    method DropIfLeased(a: uint32)
      requires StoreValid()
      modifies leases, allocator.Repr
      ensures StoreValid() && Stored() == ReleaseFrom(old(Stored()), a)
    {
      var lease, name, options := LeaseOf(a);
      if lease.Some? {
        DropLease(a, name);
      }
    }

    /** message_dhcprelease_handle. */
    method HandleRelease(m: Message)
      requires Valid()
      modifies Repr
      ensures Valid() && View() == ReleaseLease(old(View()), m)
    {
      if m.ciaddr != 0 {
        DropIfLeased(m.ciaddr);
      }
    }

    /** Marks an address that is available. */
    method TakeOut(a: uint32)
      requires allocator.Valid()
      modifies allocator.Repr
      ensures allocator.Valid()
      ensures allocator.model == if Available(old(allocator.model), a) then Mark(old(allocator.model), a) else old(allocator.model)
    {
      var available := allocator.IsAvailable(a);
      if available {
        var s, out := allocator.RequestThis(a, 0);
      }
    }

    /** message_dhcpdecline_handle. */
    method HandleDecline(m: Message)
      requires Valid()
      modifies Repr
      ensures Valid() && View() == Decline(old(View()), m)
    {
      var ack := cache.LastOf(m.xid, ACK);
      if ack.Some? && ack.value.yiaddr != 0 {
        TakeOut(ack.value.yiaddr);
      }
    }

    /** message_dhcpinform_handle. */
    method HandleInform(now: uint32, m: Message, sent: bool)
      requires Valid()
      modifies Repr
      ensures Valid() && View() == Inform(old(View()), now, m, sent)
    {
      if m.ciaddr != 0 {
        var options := ReplyOptionsFor(m, m.ciaddr, [54, 0], [50, 51, 55, 61, 57, 0], 5);
        DeliverReply(now, sent, Reply(m, ACK, m.ciaddr, 0), options);
      }
    }

    // -------------------------------------------------------------- the main loop

    /** The checks of dhcp_server_serve before dispatch. */
    method AdmitMessage(now: uint32, m: Message) returns (admitted: bool)
      requires Valid()
      modifies Repr
      ensures Valid() && (View(), admitted) == Admit(old(View()), now, m)
    {
      var v := acl.CheckClient(PrintMac(m.chaddr));
      if v != Allow {
        return false;
      }
      v := dacl.CheckDynamic(m.chaddr, cache);
      if v != Allow || m.kind == OFFER || m.kind == ACK || m.kind == NAK {
        return false;
      }
      admitted := cache.AddMessage(m, now);
    }

    /** One received message of dhcp_server_serve. */
    method Serve(now: uint32, m: Message, sent: bool)
      requires Valid()
      modifies Repr
      ensures Valid() && View() == Receive(old(View()), now, m, sent)
    {
      var admitted := AdmitMessage(now, m);
      if !admitted {
        return;
      }
      if m.kind == DISCOVER {
        HandleDiscover(now, m, sent);
      } else if m.kind == REQUEST {
        HandleRequest(now, m, sent);
      } else if m.kind == DECLINE {
        HandleDecline(m);
      } else if m.kind == INFORM {
        HandleInform(now, m, sent);
      } else if m.kind == RELEASE {
        HandleRelease(m);
      }
    }

    /** trans_update_timer on one slot, with trans_timer_cb_clear as its callback. */
    method UpdateSlot(i: nat, now: uint32)
      requires Valid() && i < |cache.slots|
      modifies Repr
      ensures Valid() && View() == TickSlot(old(View()), i, now)
    {
      var due := cache.PollSlot(i, now);
      if due {
        ExpireSlot(i, now);
      }
    }

    /** trans_timer_cb_clear. */
    method ExpireSlot(i: nat, now: uint32)
      requires allocator.Valid() && cache.Valid() && allocator.Repr !! cache.Repr && i < |cache.slots|
      modifies allocator.Repr, cache.Repr
      ensures allocator.Valid() && cache.Valid()
      ensures allocator.model == Expire(old(allocator.model), old(cache.model)[i], now).0
      ensures cache.model == old(cache.model)[i := Expire(old(allocator.model), old(cache.model)[i], now).1]
    {
      ReleaseOffer(i, now);
      cache.ClearSlot(i, now);
    }

    /** Gives back what the transaction still has on offer. */
    method ReleaseOffer(i: nat, now: uint32)
      requires allocator.Valid() && cache.Valid() && allocator.Repr !! cache.Repr && i < |cache.slots|
      modifies allocator.Repr
      ensures allocator.Valid() && cache.Valid() && cache.model == old(cache.model)
      ensures allocator.model == Expire(old(allocator.model), cache.model[i], now).0
    {
      var a := UnclaimedOffer(i);
      ExpireGives(allocator.model, cache.model[i], now, a);
      if a != 0 {
        var s := allocator.ReleaseAddress(a);
      }
    }

    /** The first offer of a transaction without ACK. */
    method UnclaimedOffer(i: nat) returns (a: uint32)
      requires cache.Valid() && i < |cache.slots|
      ensures a == ExpiryReleases(cache.model[i])
    {
      var offer := cache.SearchSlot(i, OFFER);
      var ack := cache.SearchSlot(i, ACK);
      a := if offer.Some? && ack.None? then offer.value.yiaddr else 0;
    }

    /** The transaction loop of update_timers. */
    method UpdateSlots(now: uint32)
      requires Valid()
      modifies Repr
      ensures Valid() && View() == TickSlots(old(View()), 0, now)
    {
      var i := 0;
      while i < |cache.slots|
        invariant i <= |cache.slots| && Valid()
        invariant TickSlots(View(), i, now) == TickSlots(old(View()), 0, now)
      {
        UpdateSlot(i, now);
        i := i + 1;
      }
    }

    /** One round of check_lease. */
    method CheckAddress(a: uint32, name: string, now: uint32) returns (freed: bool)
      requires StoreValid()
      modifies leases, allocator.Repr
      ensures StoreValid() && (Stored(), freed) == SweepAddress(old(Stored()), name, a, now)
    {
      freed := false;
      var available := allocator.IsAvailable(a);
      if !available {
        var lease := leases.Retrieve(a, name);
        if lease.Some? && lease.value.expire <= now {
          DropLease(a, name);
          freed := true;
        }
      }
    }

    /** The body of the loop of check_lease. */
    method CheckNext(a: uint32, name: string, end: uint32, now: uint32, count: nat) returns (n: nat)
      requires StoreValid() && a < end
      modifies leases, allocator.Repr
      ensures StoreValid()
      ensures SweepRange(Stored(), name, a + 1, end, now, n) == SweepRange(old(Stored()), name, a, end, now, count)
    {
      SweepRangeUnfold(Stored(), name, a, end, now, count);
      var freed := CheckAddress(a, name, now);
      n := if freed then count + 1 else count;
    }

    /** check_lease: stops before the last address of the pool. */
    method CheckPool(name: string, start: uint32, end: uint32, now: uint32, count: nat) returns (n: nat)
      requires StoreValid()
      modifies leases, allocator.Repr
      ensures StoreValid() && (Stored(), n) == SweepRange(old(Stored()), name, start, end, now, count)
    {
      n := count;
      var a: nat := start;
      while a < end
        invariant StoreValid()
        invariant SweepRange(Stored(), name, a, end, now, n) == SweepRange(old(Stored()), name, start, end, now, count)
      {
        n := CheckNext(a, name, end, now, n);
        a := a + 1;
      }
      SweepRangeDone(Stored(), name, a, end, now, n);
    }

    /** check_lease_expirations. */
    method CheckLeases(now: uint32) returns (n: nat)
      requires StoreValid()
      modifies leases, allocator.Repr
      ensures StoreValid() && (Stored(), n) == SweepLeases(old(Stored()), now)
    {
      ghost var all := allocator.model;
      ghost var result := SweepLeases(Stored(), now);
      n := 0;
      var i := 0;
      assert all[0..] == all;
      while i < |allocator.pools|
        invariant i <= |allocator.pools| && StoreValid() && SameRanges(all, allocator.model)
        invariant SweepPools(Stored(), all[i..], now, n) == result
      {
        assert all[i..][1..] == all[i + 1..];
        var name, start, end := allocator.Describe(i);
        n := CheckPool(name, start, end, now, n);
        i := i + 1;
      }
    }

    /** update_timers. */
    method UpdateTimers(now: uint32)
      requires Valid()
      modifies Repr
      ensures Valid() && View() == Tick(old(View()), now)
    {
      UpdateSlots(now);
      UpdateSweep(now);
    }

    /** The lease expiration check, when its timer is due. */
    method UpdateSweep(now: uint32)
      requires StoreValid() && sweep !in allocator.Repr
      modifies sweep, leases, allocator.Repr
      ensures StoreValid() && sweep.View() == Poll(old(sweep.View()), now).0
      ensures Stored() == if Poll(old(sweep.View()), now).1 then SweepLeases(old(Stored()), now).0 else old(Stored())
    {
      var due := sweep.Update(now);
      if due {
        var n := CheckLeases(now);
      }
    }

    // -------------------------------------------------------------- start-up

    /** One record of load_pool_leases. */
    method LoadRecord(p: AddressPool, l: Lease, now: uint32)
      requires p.Valid() && leases.Valid() && p.name in leases.model
      modifies p, p.bitmap, leases
      ensures p.Valid() && leases.Valid()
      ensures p.View() == LoadOne(old(p.View()), old(leases.model)[p.name], l, now).0
      ensures leases.model == old(leases.model)[p.name := LoadOne(old(p.View()), old(leases.model)[p.name], l, now).1]
    {
      if l.expire <= now {
        var found := leases.Remove(l.address, p.name);
      } else {
        var rv := p.Control(l.address, 's');
        assert rv == -1 && p.Contains(l.address) ==> p.Used() + {l.address} == p.Used();
      }
    }

    /** The loop of load_pool_leases. */
    method LoadAll(p: AddressPool, records: seq<Lease>, now: uint32)
      requires p.Valid() && leases.Valid() && p.name in leases.model
      modifies p, p.bitmap, leases
      ensures p.Valid() && leases.Valid()
      ensures var (v, f) := LoadRecords(old(p.View()), old(leases.model)[p.name], records, now);
              p.View() == v && leases.model == old(leases.model)[p.name := f]
    {
      ghost var v, f, files := p.View(), leases.model[p.name], leases.model;
      ghost var loaded := (v, f);
      assert records[..0] == [] && files == files[p.name := f];
      for k := 0 to |records|
        invariant p.Valid() && leases.Valid()
        invariant loaded == LoadRecords(v, f, records[..k], now)
        invariant p.View() == loaded.0 && leases.model == files[p.name := loaded.1]
      {
        assert records[..k + 1] == records[..k] + [records[k]];
        LoadOneMore(v, f, records[..k], records[k], now);
        ghost var next := LoadOne(loaded.0, loaded.1, records[k], now);
        Overwrite(files, p.name, loaded.1, next.1);
        LoadRecord(p, records[k], now);
        loaded := next;
      }
      assert records[..|records|] == records;
    }

    /** load_pool_leases. */
    method LoadPoolLeases(p: AddressPool, now: uint32)
      requires p.Valid() && leases.Valid()
      modifies p, p.bitmap, leases
      ensures p.Valid() && leases.Valid()
      ensures var f := File(old(leases.model), p.name);
              p.View() == LoadRecords(old(p.View()), f, f, now).0
              && leases.model == old(leases.model)[p.name := LoadRecords(old(p.View()), f, f, now).1]
    {
      var records := leases.ReadLeases(p.name);
      Overwrite(leases.model, p.name, records, LoadRecords(p.View(), records, records, now).1);
      leases.Open(p.name);
      LoadAll(p, records, now);
    }

    method LoadPoolAt(i: nat, now: uint32)
      requires StoreValid() && i < |allocator.pools|
      modifies leases, allocator.Repr
      ensures StoreValid() && Stored() == LoadPool(old(Stored()), i, now)
    {
      LoadPoolLeases(allocator.pools[i], now);
      allocator.Refresh(i);
    }

    /** The loop of init_load_persisten_leases. */
    method LoadEveryPool(now: uint32)
      requires StoreValid()
      modifies leases, allocator.Repr
      ensures StoreValid() && Stored() == LoadPools(old(Stored()), 0, now)
    {
      ghost var result := LoadPools(Stored(), 0, now);
      var i := 0;
      while i < |allocator.pools|
        invariant i <= |allocator.pools| && StoreValid() && LoadPools(Stored(), i, now) == result
      {
        LoadPoolAt(i, now);
        i := i + 1;
      }
    }

    /** init_load_persisten_leases. On pools without a mark the store becomes that of a restart. */
    method LoadLeases(now: uint32)
      requires Valid()
      modifies leases, allocator.Repr
      ensures Valid() && View() == old(View()).(store := LoadPools(old(View()).store, 0, now))
      ensures EmptyPools(old(View()).store.pools) == old(View()).store.pools ==>
                View().store == Restart(old(View()), now).store
    {
      LoadEveryPool(now);
    }

    /** The pools and the cache of a new process. */
    method BlankParts(now: uint32) returns (a: Allocator, c: TransactionCache)
      requires allocator.Valid() && cache.Valid()
      ensures a.Valid() && fresh(a.Repr) && a.defaults == allocator.defaults && a.model == EmptyPools(allocator.model)
      ensures c.Valid() && fresh(c.Repr) && a.Repr !! c.Repr && c.model == FreshCache(cache.model, now)
    {
      a := allocator.Blank();
      c := cache.Blank(now);
    }

    /** The lease files and the static list of this server around other pools and another cache. */
    method Assembled(a: Allocator, c: TransactionCache, now: uint32) returns (s: DhcpServer)
      requires leases.Valid() && a.Valid() && c.Valid() && a.defaults == cfg.defaults
      requires a.Repr !! c.Repr && a.Repr + c.Repr !! {leases, acl}
      ensures s.Valid() && s.allocator == a && s.leases == leases
      ensures s.Repr == a.Repr + c.Repr + {leases, acl, s.dacl, s.sweep} && fresh(s.dacl) && fresh(s.sweep)
      ensures s.View() == State(cfg, Store(a.model, leases.model), c.model,
                                acl.View(), dacl.View().(entries := []), TimerState(true, sweep.dtime, sweep.dtime, true, now))
    {
      var d := new AccessList([], dacl.enabled, dacl.isBlacklist);
      var t := new Timer(true, sweep.dtime, true, now);
      s := new DhcpServer(cfg, a, c, leases, acl, d, t);
    }

    /** The server of a new process before it loads the leases. */
    method Unloaded(now: uint32) returns (s: DhcpServer)
      requires allocator.Valid() && cache.Valid() && leases.Valid() && allocator.defaults == cfg.defaults
      requires leases in Repr && acl in Repr
      ensures s.Valid() && fresh(s.Repr - Repr) && fresh(s.allocator.Repr) && s.leases == leases
      ensures s.View() == State(cfg, Store(EmptyPools(allocator.model), leases.model), FreshCache(cache.model, now),
                                acl.View(), dacl.View().(entries := []), TimerState(true, sweep.dtime, sweep.dtime, true, now))
    {
      var a, c := BlankParts(now);
      s := Assembled(a, c, now);
    }

    /** The server of a new process over the same configuration and lease files. */
    method Reboot(now: uint32) returns (s: DhcpServer)
      requires Valid()
      modifies leases
      ensures s.Valid() && fresh(s.Repr - Repr) && s.View() == Restart(old(View()), now)
    {
      s := Unloaded(now);
      s.LoadLeases(now);
    }

    // -------------------------------------------------------------- runs

    /**
     Any sequence of received messages, timer updates and restarts: the object follows the state
     machine, and so keeps lease safety and the bound on every client's share of the cache.
     */
    method Process(events: seq<Event>) returns (s: DhcpServer)
      requires Valid()
      modifies Repr
      ensures s.Valid() && fresh(s.Repr - Repr) && s.View() == Run(old(View()), events)
      ensures LeaseSafety.Inv(old(View())) && cfg.ackKind == ACK && Runs.HonestRun(old(View()), events) ==>
                LeaseSafety.Inv(s.View())
      ensures CacheShare.Bounded(old(View())) ==> CacheShare.Bounded(s.View())
    {
      RunKeeps(View(), events);
      ghost var result := Run(View(), events);
      s := this;
      var k := 0;
      assert events[0..] == events;
      while k < |events|
        invariant k <= |events| && s.Valid() && fresh(s.Repr - Repr)
        invariant Run(s.View(), events[k..]) == result
      {
        assert events[k..][1..] == events[k + 1..];
        s := s.Take(events[k]);
        k := k + 1;
      }
    }

    /** One event. */
    method Take(e: Event) returns (s: DhcpServer)
      requires Valid()
      modifies Repr
      ensures s.Valid() && fresh(s.Repr - Repr) && s.View() == Step(old(View()), e)
    {
      s := this;
      match e {
        case Received(now, m, sent) => Serve(now, m, sent);
        case Timers(now) => UpdateTimers(now);
        case Restarted(now) => s := Reboot(now);
      }
    }
  }
}
