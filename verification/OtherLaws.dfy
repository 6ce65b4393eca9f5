/** What RELEASE, DECLINE, INFORM and other messages do, said without the functions that compute it. */
module OtherLaws {
  import opened Words
  import opened DhcpOptions
  import opened Messages
  import opened Pools
  import opened Leases
  import opened Transactions
  import opened Lookups
  import opened Protocol
  import opened Replies

  /** The pools after clearing `a` in pool `i`. */
  function Without(pools: seq<Pool>, i: nat, a: uint32): seq<Pool>
    requires i < |pools|
  {
    pools[i := pools[i].(used := pools[i].used - {a})]
  }

  /** RELEASE drops the first record of the client's address from the file of its pool and clears the bit. */
  lemma ReleaseLaw(s: State, now: uint32, m: Message, sent: bool, i: nat, k: nat)
    requires m.kind == RELEASE && m.ciaddr != 0 && InPool(s.store.pools, m.ciaddr, i)
    requires RecordAt(File(s.store.files, s.store.pools[i].name), m.ciaddr, k)
    ensures var s', name := Handle(s, now, m, sent), s.store.pools[i].name;
            var f := File(s.store.files, name);
            && s' == s.(store := Store(Without(s.store.pools, i, m.ciaddr), s'.store.files))
            && File(s'.store.files, name) == f[..k] + f[k + 1..]
            && forall n: string :: n != name ==> File(s'.store.files, n) == File(s.store.files, n)
  {
    InPoolIs(s.store.pools, m.ciaddr);
    RecordIs(File(s.store.files, s.store.pools[i].name), m.ciaddr);
  }

  /** Without a client address, a pool or a record of it RELEASE does nothing. */
  lemma NoReleaseLaw(s: State, now: uint32, m: Message, sent: bool)
    requires m.kind == RELEASE
    requires || m.ciaddr == 0 || InNoPool(s.store.pools, m.ciaddr)
             || exists i: nat :: InPool(s.store.pools, m.ciaddr, i)
                  && NoRecord(File(s.store.files, s.store.pools[i].name), m.ciaddr)
    ensures Handle(s, now, m, sent) == s
  {
    InPoolIs(s.store.pools, m.ciaddr);
    var i := FindPool(s.store.pools, m.ciaddr);
    if i < |s.store.pools| {
      RecordIs(File(s.store.files, s.store.pools[i].name), m.ciaddr);
    }
  }

  /** The address of the last ACK of the transaction, free in pool `i`. */
  ghost predicate Declined(s: State, m: Message, i: nat, a: uint32) {
    && (exists t: nat, ack :: TransactionAt(s.cache, m.xid, t) && LastOf(s.cache[t].messages, ACK, ack) && ack.yiaddr == a)
    && a != 0 && InPool(s.store.pools, a, i) && a !in s.store.pools[i].used
  }

  lemma DeclinedIs(s: State, m: Message, i: nat, a: uint32)
    ensures Declined(s, m, i, a) <==> DeclinedAddress(s, m) == a != 0 && i == FindPool(s.store.pools, a)
  {
    TransactionIs(s.cache, m.xid);
    LastIs(History(s.cache, m.xid), ACK);
    InPoolIs(s.store.pools, a);
  }

  /** DECLINE marks the address of the last ACK of its transaction, if that is free, and does nothing else. */
  lemma DeclineLaw(s: State, now: uint32, m: Message, sent: bool)
    requires m.kind == DECLINE
    ensures forall i: nat, a: uint32 :: Declined(s, m, i, a) ==>
              Handle(s, now, m, sent) ==
              s.(store := s.store.(pools := s.store.pools[i := s.store.pools[i].(used := s.store.pools[i].used + {a})]))
    ensures (forall i: nat, a: uint32 :: !Declined(s, m, i, a)) ==> Handle(s, now, m, sent) == s
  {
    forall i: nat, a: uint32
      ensures Declined(s, m, i, a) <==> DeclinedAddress(s, m) == a != 0 && i == FindPool(s.store.pools, a)
    {
      DeclinedIs(s, m, i, a);
    }
    if DeclinedAddress(s, m) != 0 {
      assert Declined(s, m, FindPool(s.store.pools, DeclinedAddress(s, m)), DeclinedAddress(s, m));
    }
  }

  /** What the answer to an INFORM carries: option 54, and no lease time even if the client asks for it. */
  ghost predicate InformCarries(s: State, m: Message, os: seq<DhcpOption>) {
    ReplyFor(s.cfg.defaults, s.store.pools, m, m.ciaddr, 5, [54], [50, 51, 55, 61, 57], os)
  }

  lemma InformOptionsAre(s: State, m: Message)
    ensures forall os :: PoolReply(s, m, m.ciaddr, [54, 0], [50, 51, 55, 61, 57, 0], 5) == Some(os) <==> InformCarries(s, m, os)
  {
    TagArrays();
    PoolReplyIs(s, m, m.ciaddr, [54, 0], [50, 51, 55, 61, 57, 0], 5);
  }

  /** INFORM is answered with a typed ACK without lease time and without an address of its own. */
  lemma InformLaw(s: State, now: uint32, m: Message, sent: bool, t: nat)
    requires m.kind == INFORM && m.ciaddr != 0 && ValidCache(s.cache) && TransactionAt(s.cache, m.xid, t)
    ensures var s' := Handle(s, now, m, sent);
            && s' == s.(cache := s'.cache)
            && Answered(s.cache, s'.cache, t, sent, Message(ACK, m.xid, m.ciaddr, 0, m.chaddr, [], now),
                        os => InformCarries(s, m, os))
  {
    InformOptionsAre(s, m);
    DeliverAnswers(s, now, sent, Reply(m, ACK, m.ciaddr, 0),
                   PoolReply(s, m, m.ciaddr, [54, 0], [50, 51, 55, 61, 57, 0], 5), t,
                   os => InformCarries(s, m, os));
  }

  /** An INFORM without address, and a message of a type the server does not handle, changes nothing. */
  lemma IgnoredLaw(s: State, now: uint32, m: Message, sent: bool)
    requires (m.kind == INFORM && m.ciaddr == 0) || m.kind !in {DISCOVER, REQUEST, DECLINE, RELEASE, INFORM}
    ensures Handle(s, now, m, sent) == s
  {
  }
}
