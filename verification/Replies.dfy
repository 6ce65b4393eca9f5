/** What a reply is: which message joins which transaction, with which options. */
module Replies {
  import opened Words
  import opened DhcpOptions
  import opened OptionLists
  import opened ReplyOptions
  import opened Messages
  import opened Pools
  import opened Transactions
  import opened Lookups
  import opened Protocol

  /** Slot `t` has taken `r` as its last message, and nothing else has changed. */
  ghost predicate Appended(cache: seq<Slot>, cache': seq<Slot>, t: nat, r: Message) {
    && t < |cache| == |cache'| && cache' == cache[t := cache'[t]]
    && cache'[t].messages == cache[t].messages + [r]
  }

  /**
   The reply, with its one possible list of options, joins slot `t` if it is to go out and the list
   exists and fits into 312 octets; otherwise the cache is as it was.
   */
  ghost predicate Answered(cache: seq<Slot>, cache': seq<Slot>, t: nat, goes: bool, reply: Message,
                           contents: seq<DhcpOption> -> bool) {
    if goes && exists os :: contents(os) && Size(os) <= 312
    then exists os :: contents(os) && Size(os) <= 312 && Appended(cache, cache', t, reply.(options := os))
    else cache' == cache
  }

  lemma DeliverAnswers(s: State, now: uint32, sent: bool, r: Message, options: Option<seq<DhcpOption>>, t: nat,
                       contents: seq<DhcpOption> -> bool)
    requires ValidCache(s.cache) && TransactionAt(s.cache, r.xid, t)
    requires forall os :: options == Some(os) <==> contents(os)
    ensures var s' := Deliver(s, now, sent, r, options);
            s' == s.(cache := s'.cache) && Answered(s.cache, s'.cache, t, sent, r.(time := now), contents)
  {
    TransactionIs(s.cache, r.xid);
    if options.Some? {
      AddMessageEffect(s.cache, r.(options := options.value), now);
    }
  }

  // ---------------------------------------------------------------- the options of replies about an address

  lemma UpToNulPadded(tags: seq<byte>)
    ensures UpToNul(tags + [0]) == UpToNul(tags)
  {
    if tags == [] {
      assert tags + [0] == [0];
    } else {
      assert (tags + [0])[1..] == tags[1..] + [0];
      UpToNulPadded(tags[1..]);
    }
  }

  /** The tag arrays of the program, without their terminators. */
  lemma TagArrays()
    ensures UpToNul([51, 54, 0]) == [51, 54] && UpToNul([54, 0]) == [54] && UpToNul([0]) == []
    ensures UpToNul([50, 55, 61, 57, 0]) == [50, 55, 61, 57]
    ensures UpToNul([50, 51, 55, 61, 57, 0]) == [50, 51, 55, 61, 57]
  {
    assert [51, 54, 0][1..] == [54, 0] && [54, 0][1..] == [0];
    assert [61, 57, 0][1..] == [57, 0] && [57, 0][1..] == [0];
    assert [55, 61, 57, 0][1..] == [61, 57, 0] && [51, 55, 61, 57, 0][1..] == [55, 61, 57, 0];
    assert [50, 55, 61, 57, 0][1..] == [55, 61, 57, 0] && [50, 51, 55, 61, 57, 0][1..] == [51, 55, 61, 57, 0];
    assert UpToNul([57, 0]) == [57];
    assert UpToNul([61, 57, 0]) == [61, 57];
    assert UpToNul([55, 61, 57, 0]) == [55, 61, 57];
    assert UpToNul([51, 55, 61, 57, 0]) == [51, 55, 61, 57];
  }

  /** The tags the client asks for in option 55, up to the first 0. */
  ghost predicate Asks(m: Message, tags: seq<byte>) {
    exists o55 :: FirstWith(m.options, 55, o55) && tags == UpToNul(o55.value[..o55.length])
  }

  /** The options of a reply about an address: of its pool, for what the client asks. */
  ghost predicate ReplyFor(global: seq<DhcpOption>, pools: seq<Pool>, m: Message, a: uint32,
                           kind: byte, must: seq<byte>, black: seq<byte>, os: seq<DhcpOption>) {
    exists tags, i: nat :: Asks(m, tags) && InPool(pools, a, i)
                           && Contents(os, kind, must, tags, black, global, pools[i].options)
  }

  /** For the one pool and the one option 55 there are. */
  lemma ReplyForIn(global: seq<DhcpOption>, pools: seq<Pool>, m: Message, a: uint32,
                   kind: byte, must: seq<byte>, black: seq<byte>, i: nat, tags: seq<byte>)
    requires InPool(pools, a, i) && Asks(m, tags)
    ensures forall os :: ReplyFor(global, pools, m, a, kind, must, black, os) <==>
              Contents(os, kind, must, tags, black, global, pools[i].options)
  {
    forall os | ReplyFor(global, pools, m, a, kind, must, black, os)
      ensures Contents(os, kind, must, tags, black, global, pools[i].options)
    {
      var ts, j: nat :| Asks(m, ts) && InPool(pools, a, j) && Contents(os, kind, must, ts, black, global, pools[j].options);
      AsksOne(m, ts, tags);
      assert i == j;
    }
  }

  lemma AsksOne(m: Message, ts: seq<byte>, tags: seq<byte>)
    requires Asks(m, ts) && Asks(m, tags)
    ensures ts == tags
  {
    RetrieveIs(m.options, 55);
  }

  lemma PoolReplyIn(s: State, m: Message, a: uint32, required: seq<byte>, blacklist: seq<byte>, kind: byte,
                    i: nat, o55: DhcpOption)
    requires i == FindPool(s.store.pools, a) < |s.store.pools| && Retrieve(m.options, 55) == Some(o55)
    ensures forall os :: PoolReply(s, m, a, required, blacklist, kind) == Some(os) <==>
              Contents(os, kind, UpToNul(required), UpToNul(o55.value[..o55.length]), UpToNul(blacklist),
                       s.cfg.defaults, s.store.pools[i].options)
  {
    UpToNulPadded(Covered(o55));
    BuildMeetsSpec(Covered(o55) + [0], required, blacklist, s.cfg.defaults, s.store.pools[i].options, kind);
  }

  lemma PoolReplyIs(s: State, m: Message, a: uint32, required: seq<byte>, blacklist: seq<byte>, kind: byte)
    ensures forall os :: PoolReply(s, m, a, required, blacklist, kind) == Some(os) <==>
              ReplyFor(s.cfg.defaults, s.store.pools, m, a, kind, UpToNul(required), UpToNul(blacklist), os)
  {
    RetrieveIs(m.options, 55);
    InPoolIs(s.store.pools, a);
    var i, o55 := FindPool(s.store.pools, a), Retrieve(m.options, 55);
    if i < |s.store.pools| && o55.Some? {
      PoolReplyIn(s, m, a, required, blacklist, kind, i, o55.value);
      ReplyForIn(s.cfg.defaults, s.store.pools, m, a, kind, UpToNul(required), UpToNul(blacklist),
                 i, UpToNul(o55.value.value[..o55.value.length]));
    }
  }

  /** What an OFFER carries: the options of its pool, and the client's identifier. */
  ghost predicate OfferCarries(global: seq<DhcpOption>, pools: seq<Pool>, m: Message, a: uint32, os: seq<DhcpOption>) {
    exists built :: ReplyFor(global, pools, m, a, 2, [51, 54], [50, 55, 61, 57], built)
      && if Occurs(m.options, 61) then exists o61 :: FirstWith(m.options, 61, o61) && os == built + [CopyOption(o61)]
         else os == built
  }

  /** The client identifier is blacklisted, so no option 61 is there before the client's. */
  lemma NotThere(global: seq<DhcpOption>, pools: seq<Pool>, m: Message, a: uint32, os: seq<DhcpOption>)
    requires ReplyFor(global, pools, m, a, 2, [51, 54], [50, 55, 61, 57], os)
    ensures !Occurs(os, 61)
  {
    forall k | 0 <= k < |os| ensures os[k].tag != 61 {
    }
  }

  lemma OfferOptionsAre(s: State, m: Message, a: uint32)
    ensures forall os :: OfferOptions(s, m, a) == Some(os) <==> OfferCarries(s.cfg.defaults, s.store.pools, m, a, os)
  {
    TagArrays();
    PoolReplyIs(s, m, a, [51, 54, 0], [50, 55, 61, 57, 0], 2);
    RetrieveIs(m.options, 61);
    var built := PoolReply(s, m, a, [51, 54, 0], [50, 55, 61, 57, 0], 2);
    if built.Some? {
      NotThere(s.cfg.defaults, s.store.pools, m, a, built.value);
      RetrieveIs(built.value, 61);
    }
  }
}
