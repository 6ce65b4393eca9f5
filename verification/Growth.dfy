/** How the transaction cache changes in one event, for every property of it that spans runs. */
module Growth {
  import opened Words
  import opened DhcpOptions
  import opened Messages
  import opened Transactions
  import opened Protocol

  /** At most one more message has been cached, with the id and the hardware address of `m`. */
  ghost predicate Grows(cache: seq<Slot>, cache': seq<Slot>, m: Message, now: uint32) {
    cache' == cache || exists r :: Answers(r, m) && AddMessage(cache, r, now) == Some(cache')
  }

  predicate Answers(r: Message, m: Message) {
    r.xid == m.xid && r.chaddr == m.chaddr
  }

  lemma DeliverGrows(s: State, now: uint32, sent: bool, r: Message, options: Option<seq<DhcpOption>>, m: Message)
    requires Answers(r, m)
    ensures Grows(s.cache, Deliver(s, now, sent, r, options).cache, m, now)
  {
    if options.Some? {
      assert Answers(r.(options := options.value), m);
    }
  }

  lemma RequestGrows(s: State, now: uint32, m: Message, sent: bool)
    ensures Grows(s.cache, Request(s, now, m, sent).cache, m, now)
  {
    var o54, o50 := Retrieve(m.options, SERVER_ID), Retrieve(m.options, REQUESTED_IP);
    if o54.None? {
      var s1 := RenewLease(s, now, m);
      DeliverGrows(s1, now, sent, Reply(m, s.cfg.ackKind, m.ciaddr, m.ciaddr), AckOptions(s1, m, m.ciaddr), m);
    } else {
      match Judge(s, m, o54.value)
      case Commit(ip) =>
        var s1 := CommitLease(s, now, m, ip);
        if o50.Some? {
          var a := o50.value.Number();
          DeliverGrows(s1, now, sent, Reply(m, s.cfg.ackKind, m.ciaddr, a), AckOptions(s1, m, a), m);
        }
      case _ =>
        DeliverGrows(s, now, sent, Reply(m, NAK, 0, 0), NakOptions(s), m);
    }
  }

  /** A handler caches at most its reply. */
  lemma HandleGrows(s: State, now: uint32, m: Message, sent: bool)
    ensures Grows(s.cache, Handle(s, now, m, sent).cache, m, now)
  {
    if m.kind == DISCOVER {
      var (pools, a) := AllocateFor(s.store.pools, m);
      var s1 := s.(store := s.store.(pools := pools));
      DeliverGrows(s1, now, sent, Reply(m, OFFER, 0, a), OfferOptions(s1, m, a), m);
    } else if m.kind == REQUEST {
      RequestGrows(s, now, m, sent);
    } else if m.kind == INFORM {
      DeliverGrows(s, now, sent, Reply(m, ACK, m.ciaddr, 0),
                   PoolReply(s, m, m.ciaddr, [54, 0], [50, 51, 55, 61, 57, 0], 5), m);
    }
  }

  /** A received message is cached, or not, and then answered, or not. */
  lemma ReceiveGrows(s: State, now: uint32, m: Message, sent: bool) returns (c: seq<Slot>)
    ensures Grows(s.cache, c, m, now) && Grows(c, Receive(s, now, m, sent).cache, m, now)
  {
    c := Admit(s, now, m).0.cache;
    assert Answers(m, m);
    HandleGrows(Admit(s, now, m).0, now, m, sent);
  }
}
