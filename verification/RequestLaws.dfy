/**
 What a REQUEST does, said without the functions that compute it: which REQUESTs are granted, what is
 recorded for them, what a renewal writes, and which answer goes out.
 */
module RequestLaws {
  import opened Words
  import opened DhcpOptions
  import opened OptionLists
  import opened ReplyOptions
  import opened Messages
  import opened Pools
  import opened Leases
  import opened Transactions
  import opened Lookups
  import opened Protocol
  import opened Replies

  // ---------------------------------------------------------------- the checks

  /** The server identifier of the message, option 54, is `id`. */
  ghost predicate Identifies(m: Message, id: uint32) {
    exists o54 :: FirstWith(m.options, 54, o54) && o54.Number() == id
  }

  /** Equal in the octets that the length of the first covers. */
  ghost predicate SameCovered(x: DhcpOption, y: DhcpOption) {
    forall k :: 0 <= k < x.length ==> x.value[k] == y.value[k]
  }

  /** Both messages ask for the same parameters, and do not differ in a client identifier that both have. */
  ghost predicate SameClient(m: Message, discover: Message) {
    && (exists x, y :: FirstWith(m.options, 55, x) && FirstWith(discover.options, 55, y) && SameCovered(x, y))
    && (forall x, y :: FirstWith(m.options, 61, x) && FirstWith(discover.options, 61, y) ==> SameCovered(x, y))
  }

  ghost predicate Agrees(ms: seq<Message>, m: Message) {
    exists discover :: FirstOf(ms, DISCOVER, discover) && SameClient(m, discover)
  }

  /** The address a selecting REQUEST is about: its option 50, else option 50 of the first OFFER. */
  ghost predicate Names(ms: seq<Message>, m: Message, a: uint32) {
    if Occurs(m.options, 50) then exists o50 :: FirstWith(m.options, 50, o50) && o50.Number() == a
    else exists offer, o50 :: FirstOf(ms, OFFER, offer) && FirstWith(offer.options, 50, o50) && o50.Number() == a
  }

  /** The lease time of a pool: its own first option 51, else the first global one, else 0. */
  ghost predicate TimeIs(global: seq<DhcpOption>, pool: seq<DhcpOption>, time: uint32) {
    if HasSetting(pool, global, 51) then exists o51 :: Setting(pool, global, 51, o51) && o51.Number() == time else time == 0
  }

  /** The message is a selecting REQUEST in the transaction of slot `t`, for an address of pool `i`, and passes every check. */
  ghost predicate Granted(s: State, m: Message, t: nat, i: nat, a: uint32, time: uint32) {
    && Identifies(m, s.cfg.boundIp) && m.ciaddr == 0 && m.yiaddr == 0
    && TransactionAt(s.cache, m.xid, t) && Agrees(s.cache[t].messages, m)
    && Names(s.cache[t].messages, m, a) && a != 0
    && InPool(s.store.pools, a, i) && a in s.store.pools[i].used
    && TimeIs(s.cfg.defaults, s.store.pools[i].options, time) && time != 0
  }

  lemma SameCoveredIs(x: DhcpOption, y: DhcpOption)
    ensures SameCovered(x, y) <==> SameOctets(x, y)
  {
    if SameCovered(x, y) {
      assert x.value[..x.length] == y.value[..x.length];
    }
    if SameOctets(x, y) {
      assert forall k :: 0 <= k < x.length ==> x.value[..x.length][k] == y.value[k];
    }
  }

  lemma SameClientIs(m: Message, discover: Message)
    ensures SameClient(m, discover) <==>
            var id, id0 := Retrieve(m.options, 61), Retrieve(discover.options, 61);
            var pl, pl0 := Retrieve(m.options, 55), Retrieve(discover.options, 55);
            && (id.Some? && id0.Some? ==> SameOctets(id.value, id0.value))
            && pl.Some? && pl0.Some? && SameOctets(pl.value, pl0.value)
  {
    RetrieveIs(m.options, 61);
    RetrieveIs(discover.options, 61);
    RetrieveIs(m.options, 55);
    RetrieveIs(discover.options, 55);
    forall x, y ensures SameCovered(x, y) <==> SameOctets(x, y) {
      SameCoveredIs(x, y);
    }
  }

  lemma AgreesIs(ms: seq<Message>, m: Message)
    ensures Agrees(ms, m) <==> ValidParams(ms, m)
  {
    FirstIs(ms, DISCOVER);
    if First(ms, DISCOVER).Some? {
      SameClientIs(m, First(ms, DISCOVER).value);
    }
  }

  lemma NamesIs(ms: seq<Message>, m: Message)
    ensures forall a: uint32 :: Names(ms, m, a) ==> ClientAddress(ms, m) == a
    ensures ClientAddress(ms, m) != 0 ==> Names(ms, m, ClientAddress(ms, m))
  {
    RetrieveIs(m.options, 50);
    FirstIs(ms, OFFER);
    var offer := First(ms, OFFER);
    if offer.Some? {
      RetrieveIs(offer.value.options, 50);
    }
  }

  lemma TimeIsIn(cfg: Config, pool: seq<DhcpOption>)
    ensures forall time: uint32 :: TimeIs(cfg.defaults, pool, time) <==> time == TimeIn(cfg, pool)
  {
    ConfiguredIs(51, cfg.defaults, pool);
  }

  lemma IdentifiesIs(m: Message, id: uint32)
    ensures Identifies(m, id) <==> Retrieve(m.options, 54).Some? && Retrieve(m.options, 54).value.Number() == id
    ensures Occurs(m.options, 54) <==> Retrieve(m.options, 54).Some?
  {
    RetrieveIs(m.options, 54);
  }

  /** Without a transaction there is no DISCOVER to agree with. */
  lemma NoHistory(s: State, m: Message)
    requires FindXid(s.cache, m.xid) == |s.cache|
    ensures !ValidParams(History(s.cache, m.xid), m)
  {
  }

  lemma ChecksAre(s: State, m: Message, a: uint32)
    ensures var ms := History(s.cache, m.xid);
            && (Agrees(ms, m) <==> ValidParams(ms, m))
            && (Names(ms, m, a) && a != 0 <==> ClientAddress(ms, m) == a != 0)
  {
    AgreesIs(History(s.cache, m.xid), m);
    NamesIs(History(s.cache, m.xid), m);
  }

  lemma GrantedIs(s: State, m: Message, t: nat, i: nat, a: uint32, time: uint32)
    ensures Granted(s, m, t, i, a, time) <==>
            var o54 := Retrieve(m.options, 54);
            && o54.Some? && Judge(s, m, o54.value) == Commit(a) && t == FindXid(s.cache, m.xid)
            && i == FindPool(s.store.pools, a) && time == TimeIn(s.cfg, s.store.pools[i].options)
  {
    IdentifiesIs(m, s.cfg.boundIp);
    TransactionIs(s.cache, m.xid);
    InPoolIs(s.store.pools, a);
    ChecksAre(s, m, a);
    if i < |s.store.pools| {
      TimeIsIn(s.cfg, s.store.pools[i].options);
    }
  }

  // ---------------------------------------------------------------- selecting REQUESTs

  /** A REQUEST that names another server leaves everything alone. */
  lemma OtherServerLaw(s: State, now: uint32, m: Message, sent: bool)
    requires m.kind == REQUEST && Occurs(m.options, 54) && !Identifies(m, s.cfg.boundIp)
    ensures Handle(s, now, m, sent) == s
  {
    IdentifiesIs(m, s.cfg.boundIp);
  }

  /** The record written for a granted REQUEST. */
  function Record(m: Message, now: uint32, a: uint32, mask: uint32, time: uint32): Lease {
    Lease(a, mask, now, (now + time) % TWO32, m.xid, 0, m.chaddr)
  }

  /** The options of an ACK about an address. */
  ghost predicate AckCarries(s: State, m: Message, a: uint32, os: seq<DhcpOption>) {
    ReplyFor(s.cfg.defaults, s.store.pools, m, a, 5, [51, 54], [50, 55, 61, 57], os)
  }

  lemma AckOptionsAre(s: State, m: Message, a: uint32)
    ensures forall os :: AckOptions(s, m, a) == Some(os) <==> AckCarries(s, m, a, os)
  {
    TagArrays();
    PoolReplyIs(s, m, a, [51, 54, 0], [50, 55, 61, 57, 0], 5);
  }

  lemma GrantedCommits(s: State, now: uint32, m: Message, sent: bool, t: nat, i: nat, a: uint32, time: uint32)
    requires m.kind == REQUEST && Granted(s, m, t, i, a, time)
    ensures i == FindPool(s.store.pools, a) < |s.store.pools| && time == TimeIn(s.cfg, s.store.pools[i].options)
    ensures Handle(s, now, m, sent) == Accept(s, now, m, sent, a)
  {
    GrantedIs(s, m, t, i, a, time);
  }

  lemma CommitWrites(s: State, now: uint32, m: Message, i: nat, a: uint32, time: uint32)
    requires i == FindPool(s.store.pools, a) < |s.store.pools| && time == TimeIn(s.cfg, s.store.pools[i].options)
    ensures var name := s.store.pools[i].name;
            var f := File(s.store.files, name) + [Record(m, now, a, s.store.pools[i].mask, time)];
            CommitLease(s, now, m, a) == s.(store := s.store.(files := s.store.files[name := f]))
  {
  }

  /**
   A granted REQUEST appends one record to the file of the pool of its address, with the pool's mask,
   the period from `now` for the pool's lease time, and the client's id and hardware address; the pools
   stay as they are. It is answered with an ACK of the address if it carries option 50.
   */
  lemma CommitLaw(s: State, now: uint32, m: Message, sent: bool, t: nat, i: nat, a: uint32, time: uint32)
    requires m.kind == REQUEST && Granted(s, m, t, i, a, time) && ValidCache(s.cache)
    ensures var s', name := Handle(s, now, m, sent), s.store.pools[i].name;
            && s' == s.(store := s.store.(files := s'.store.files), cache := s'.cache)
            && File(s'.store.files, name) ==
               File(s.store.files, name) + [Record(m, now, a, s.store.pools[i].mask, time)]
            && (forall n: string :: n != name ==> File(s'.store.files, n) == File(s.store.files, n))
            && Answered(s.cache, s'.cache, t, sent && Occurs(m.options, 50),
                        Message(s.cfg.ackKind, m.xid, 0, a, m.chaddr, [], now), os => AckCarries(s, m, a, os))
  {
    GrantedCommits(s, now, m, sent, t, i, a, time);
    CommitWrites(s, now, m, i, a, time);
    RetrieveIs(m.options, 50);
    if Occurs(m.options, 50) {
      var s1 := CommitLease(s, now, m, a);
      AckOptionsAre(s1, m, a);
      DeliverAnswers(s1, now, sent, Reply(m, s.cfg.ackKind, 0, a), AckOptions(s1, m, a), t, os => AckCarries(s, m, a, os));
    }
  }

  /** The lease files change if and only if all checks hold. */
  lemma FilesChangeIff(s: State, now: uint32, m: Message, sent: bool)
    requires m.kind == REQUEST && Occurs(m.options, 54)
    ensures Handle(s, now, m, sent).store.files != s.store.files <==>
            exists t: nat, i: nat, a: uint32, time: uint32 :: Granted(s, m, t, i, a, time)
  {
    IdentifiesIs(m, s.cfg.boundIp);
    var j := Judge(s, m, Retrieve(m.options, 54).value);
    if j.Commit? {
      var t, i := FindXid(s.cache, m.xid), FindPool(s.store.pools, j.ip);
      var time := TimeIn(s.cfg, s.store.pools[i].options);
      GrantedIs(s, m, t, i, j.ip, time);
      GrantedCommits(s, now, m, sent, t, i, j.ip, time);
      CommitWrites(s, now, m, i, j.ip, time);
      var name := s.store.pools[i].name;
      assert |File(Handle(s, now, m, sent).store.files, name)| == |File(s.store.files, name)| + 1;
    } else {
      forall t: nat, i: nat, a: uint32, time: uint32 ensures !Granted(s, m, t, i, a, time) {
        GrantedIs(s, m, t, i, a, time);
      }
    }
  }

  /** The message is for this server, in the transaction of slot `t`, and fails a check that is answered. */
  ghost predicate Refusable(s: State, m: Message, t: nat) {
    && Identifies(m, s.cfg.boundIp) && TransactionAt(s.cache, m.xid, t)
    && var ms := s.cache[t].messages;
       || m.ciaddr != 0 || m.yiaddr != 0 || !Agrees(ms, m)
       || (forall a: uint32 :: Names(ms, m, a) ==> a == 0)
       || (exists a: uint32, i: nat :: Names(ms, m, a) && InPool(s.store.pools, a, i) && a !in s.store.pools[i].used)
       || (exists a: uint32, i: nat :: Names(ms, m, a) && InPool(s.store.pools, a, i)
             && TimeIs(s.cfg.defaults, s.store.pools[i].options, 0))
  }

  lemma RefusableIs(s: State, m: Message, t: nat)
    requires Refusable(s, m, t)
    ensures t == FindXid(s.cache, m.xid) < |s.cache| && Retrieve(m.options, 54).Some?
    ensures Judge(s, m, Retrieve(m.options, 54).value) == Refused
  {
    IdentifiesIs(m, s.cfg.boundIp);
    TransactionIs(s.cache, m.xid);
    var ms := s.cache[t].messages;
    AgreesIs(ms, m);
    NamesIs(ms, m);
    var ip := ClientAddress(ms, m);
    InPoolIs(s.store.pools, ip);
    var i := FindPool(s.store.pools, ip);
    if i < |s.store.pools| {
      TimeIsIn(s.cfg, s.store.pools[i].options);
    }
  }

  /** What a NAK carries: its type and the server identifier. */
  ghost predicate NakCarries(s: State, os: seq<DhcpOption>) {
    Contents(os, 6, [54], [], [], s.cfg.defaults, s.cfg.defaults)
  }

  lemma NakOptionsAre(s: State)
    ensures forall os :: NakOptions(s) == Some(os) <==> NakCarries(s, os)
  {
    TagArrays();
    BuildMeetsSpec([0], [54, 0], [0], s.cfg.defaults, s.cfg.defaults, 6);
  }

  /** A refused REQUEST is answered with a NAK; pools and lease files stay as they are. */
  lemma RefusalLaw(s: State, now: uint32, m: Message, sent: bool, t: nat)
    requires m.kind == REQUEST && Refusable(s, m, t) && ValidCache(s.cache)
    ensures var s' := Handle(s, now, m, sent);
            && s' == s.(cache := s'.cache)
            && Answered(s.cache, s'.cache, t, sent, Message(NAK, m.xid, 0, 0, m.chaddr, [], now), os => NakCarries(s, os))
  {
    RefusableIs(s, m, t);
    NakOptionsAre(s);
    DeliverAnswers(s, now, sent, Reply(m, NAK, 0, 0), NakOptions(s), t, os => NakCarries(s, os));
  }

  /** A REQUEST that passes the checks of the message but names an address of no pool: the handler stops. */
  lemma StopLaw(s: State, now: uint32, m: Message, sent: bool, t: nat, a: uint32)
    requires m.kind == REQUEST && Identifies(m, s.cfg.boundIp) && m.ciaddr == 0 && m.yiaddr == 0
    requires TransactionAt(s.cache, m.xid, t) && Agrees(s.cache[t].messages, m)
    requires Names(s.cache[t].messages, m, a) && a != 0 && InNoPool(s.store.pools, a)
    ensures Handle(s, now, m, sent) == s
  {
    IdentifiesIs(m, s.cfg.boundIp);
    TransactionIs(s.cache, m.xid);
    AgreesIs(s.cache[t].messages, m);
    NamesIs(s.cache[t].messages, m);
    InPoolIs(s.store.pools, a);
  }

  // ---------------------------------------------------------------- renewing REQUESTs

  /** The file after renewing record `k`. */
  function Renewed(f: seq<Lease>, k: nat, now: uint32, time: uint32): seq<Lease>
    requires k < |f|
  {
    f[..k] + f[k + 1..] + [f[k].(start := now, expire := (now + time) % TWO32)]
  }

  /** Without option 54 and without an address nothing happens. */
  lemma NoRenewalLaw(s: State, now: uint32, m: Message, sent: bool)
    requires m.kind == REQUEST && !Occurs(m.options, 54) && m.ciaddr == 0
    ensures Handle(s, now, m, sent) == s
  {
    RetrieveIs(m.options, 54);
  }

  lemma RenewingIs(s: State, now: uint32, m: Message, sent: bool)
    requires m.kind == REQUEST && !Occurs(m.options, 54) && m.ciaddr != 0
    ensures var s1 := s.(store := s.store.(files := RenewedFiles(s.cfg, s.store, now, m)));
            Handle(s, now, m, sent) ==
            Deliver(s1, now, sent, Reply(m, s.cfg.ackKind, m.ciaddr, m.ciaddr), AckOptions(s1, m, m.ciaddr))
  {
    RetrieveIs(m.options, 54);
  }

  /** Every renewing REQUEST is answered with an ACK of the client's address, renewed or not; the pools stay as they are. */
  lemma RenewalAnswer(s: State, now: uint32, m: Message, sent: bool, t: nat)
    requires m.kind == REQUEST && !Occurs(m.options, 54) && m.ciaddr != 0
    requires ValidCache(s.cache) && TransactionAt(s.cache, m.xid, t)
    ensures var s' := Handle(s, now, m, sent);
            && s' == s.(store := s.store.(files := s'.store.files), cache := s'.cache)
            && Answered(s.cache, s'.cache, t, sent, Message(s.cfg.ackKind, m.xid, m.ciaddr, m.ciaddr, m.chaddr, [], now),
                        os => AckCarries(s, m, m.ciaddr, os))
  {
    RenewingIs(s, now, m, sent);
    var s1 := s.(store := s.store.(files := RenewedFiles(s.cfg, s.store, now, m)));
    AckOptionsAre(s1, m, m.ciaddr);
    DeliverAnswers(s1, now, sent, Reply(m, s.cfg.ackKind, m.ciaddr, m.ciaddr), AckOptions(s1, m, m.ciaddr), t,
                   os => AckCarries(s, m, m.ciaddr, os));
  }

  /**
   The client's own record, the first one of its address, moves to the end of its file with a period
   from `now` for the pool's lease time; every other file stays as it is.
   */
  lemma RenewalLaw(s: State, now: uint32, m: Message, sent: bool, i: nat, k: nat, time: uint32)
    requires m.kind == REQUEST && !Occurs(m.options, 54) && m.ciaddr != 0
    requires InPool(s.store.pools, m.ciaddr, i) && TimeIs(s.cfg.defaults, s.store.pools[i].options, time)
    requires var f := File(s.store.files, s.store.pools[i].name); RecordAt(f, m.ciaddr, k) && f[k].mac == m.chaddr
    ensures var files, name := Handle(s, now, m, sent).store.files, s.store.pools[i].name;
            && File(files, name) == Renewed(File(s.store.files, name), k, now, time)
            && forall n: string :: n != name ==> File(files, n) == File(s.store.files, n)
  {
    RenewingIs(s, now, m, sent);
    InPoolIs(s.store.pools, m.ciaddr);
    RecordIs(File(s.store.files, s.store.pools[i].name), m.ciaddr);
    TimeIsIn(s.cfg, s.store.pools[i].options);
  }

  /** Without a record of its own at the first place the client renews nothing. */
  lemma NotRenewedLaw(s: State, now: uint32, m: Message, sent: bool)
    requires m.kind == REQUEST && !Occurs(m.options, 54) && m.ciaddr != 0
    requires || InNoPool(s.store.pools, m.ciaddr)
             || exists i: nat :: InPool(s.store.pools, m.ciaddr, i)
                  && var f := File(s.store.files, s.store.pools[i].name);
                     NoRecord(f, m.ciaddr) || exists k: nat :: RecordAt(f, m.ciaddr, k) && f[k].mac != m.chaddr
    ensures Handle(s, now, m, sent).store.files == s.store.files
  {
    RenewingIs(s, now, m, sent);
    InPoolIs(s.store.pools, m.ciaddr);
    var i := FindPool(s.store.pools, m.ciaddr);
    if i < |s.store.pools| {
      RecordIs(File(s.store.files, s.store.pools[i].name), m.ciaddr);
    }
  }

  lemma LookupAppended(f: seq<Lease>, l: Lease, b: uint32)
    ensures l.address != b ==> Lookup(f + [l], b) == Lookup(f, b)
    ensures l.address == b && NoRecord(f, b) ==> Lookup(f + [l], b) == Some(l)
  {
    var g := f + [l];
    assert g[|f|] == l && forall j :: 0 <= j < |f| ==> g[j] == f[j];
    RecordIs(f, b);
    RecordIs(g, b);
    if FindLease(f, b) < |f| {
      assert RecordAt(g, b, FindLease(f, b));
    } else if l.address == b {
      assert RecordAt(g, b, |f|);
    }
  }

  lemma LookupTaken(f: seq<Lease>, k: nat, b: uint32)
    requires k < |f| && b != f[k].address
    ensures Lookup(f[..k] + f[k + 1..], b) == Lookup(f, b)
  {
    var r, j := f[..k] + f[k + 1..], FindLease(f, b);
    TakenOut(f, k);
    RecordIs(f, b);
    RecordIs(r, b);
    if j < |f| {
      assert r[if j < k then j else j - 1] == f[j];
      assert RecordAt(r, b, if j < k then j else j - 1);
    }
  }

  /** Looking the address up afterwards finds the new period, if there was one record of it. */
  lemma RenewedOwn(f: seq<Lease>, k: nat, now: uint32, time: uint32)
    requires k < |f| && Unique(f)
    ensures Lookup(Renewed(f, k, now, time), f[k].address) == Some(f[k].(start := now, expire := (now + time) % TWO32))
  {
    TakenOut(f, k);
    LookupAppended(f[..k] + f[k + 1..], f[k].(start := now, expire := (now + time) % TWO32), f[k].address);
  }

  /** Other addresses are found as before. */
  lemma RenewedOthers(f: seq<Lease>, k: nat, now: uint32, time: uint32, b: uint32)
    requires k < |f| && b != f[k].address
    ensures Lookup(Renewed(f, k, now, time), b) == Lookup(f, b)
  {
    LookupTaken(f, k, b);
    LookupAppended(f[..k] + f[k + 1..], f[k].(start := now, expire := (now + time) % TWO32), b);
  }
}
