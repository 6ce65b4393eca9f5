/** What a DISCOVER does, said without the functions that compute it. */
module DiscoverLaws {
  import opened Words
  import opened DhcpOptions
  import opened OptionLists
  import opened Messages
  import opened Pools
  import opened Transactions
  import opened Lookups
  import opened Protocol
  import opened Replies

  /** Option 50 of the message names `a`, and `a` is free in pool `i`. */
  ghost predicate Wanted(pools: seq<Pool>, m: Message, i: nat, a: uint32) {
    && (exists o50 :: FirstWith(m.options, 50, o50) && o50.Number() == a)
    && InPool(pools, a, i) && a !in pools[i].used
  }

  ghost predicate WantsNothing(pools: seq<Pool>, m: Message) {
    forall i: nat, a: uint32 :: !Wanted(pools, m, i, a)
  }

  predicate InRange(p: Pool, a: uint32) {
    p.start <= a <= p.end
  }

  ghost predicate PoolFull(p: Pool) {
    forall b: uint32 :: InRange(p, b) ==> b in p.used
  }

  /** `a` is the lowest free address of pool `i`, and the pools before it are full. */
  ghost predicate FirstFit(pools: seq<Pool>, i: nat, a: uint32) {
    && i < |pools| && InRange(pools[i], a) && a !in pools[i].used
    && (forall b: uint32 :: InRange(pools[i], b) && b < a ==> b in pools[i].used)
    && forall j :: 0 <= j < i ==> PoolFull(pools[j])
  }

  /** The address a DISCOVER gets: the one it asks for if that is free, else first fit. */
  ghost predicate Chosen(pools: seq<Pool>, m: Message, i: nat, a: uint32) {
    Wanted(pools, m, i, a) || (WantsNothing(pools, m) && FirstFit(pools, i, a))
  }

  ghost predicate NothingFree(pools: seq<Pool>, m: Message) {
    WantsNothing(pools, m) && forall j :: 0 <= j < |pools| ==> PoolFull(pools[j])
  }

  /** The smaller of the configured lease time and the one the client asks for, if it asks. */
  ghost predicate Duration(defaults: seq<DhcpOption>, m: Message, d: uint32) {
    exists g :: FirstWith(defaults, 51, g) &&
      if Occurs(m.options, 51)
      then exists w :: FirstWith(m.options, 51, w) && d == if w.Number() < g.Number() then w.Number() else g.Number()
      else d == g.Number()
  }

  lemma DurationIs(defaults: seq<DhcpOption>, m: Message)
    ensures forall d :: Duration(defaults, m, d) ==> LeaseDuration(defaults, m) == d
    ensures LeaseDuration(defaults, m) != 0 ==> Duration(defaults, m, LeaseDuration(defaults, m))
  {
    RetrieveIs(defaults, 51);
    RetrieveIs(m.options, 51);
  }

  lemma FirstFitIs(pools: seq<Pool>, i: nat, a: uint32)
    requires AllValid(pools) && FirstFit(pools, i, a)
    ensures FirstOpen(pools) == i && FirstFree(pools[i]) == a != 0
  {
    assert pools[i].Valid();
    assert FirstFree(pools[i]) == a;
    forall j | 0 <= j < i ensures FirstFree(pools[j]) == 0 {
      assert pools[j].Valid() && PoolFull(pools[j]);
    }
  }

  lemma FullIsZero(pools: seq<Pool>)
    requires AllValid(pools) && forall j :: 0 <= j < |pools| ==> PoolFull(pools[j])
    ensures FirstOpen(pools) == |pools|
  {
    forall j | 0 <= j < |pools| ensures FirstFree(pools[j]) == 0 {
      assert pools[j].Valid() && PoolFull(pools[j]);
    }
  }

  /** The pools after marking `a` in pool `i`. */
  function With(pools: seq<Pool>, i: nat, a: uint32): seq<Pool>
    requires i < |pools|
  {
    pools[i := pools[i].(used := pools[i].used + {a})]
  }

  lemma WantedIs(pools: seq<Pool>, m: Message)
    ensures forall i: nat, a: uint32 :: Wanted(pools, m, i, a) <==>
              var o50 := Retrieve(m.options, 50);
              o50.Some? && o50.value.Number() == a && Available(pools, a) && i == FindPool(pools, a)
  {
    RetrieveIs(m.options, 50);
  }

  lemma ChosenIs(pools: seq<Pool>, m: Message, i: nat, a: uint32)
    requires AllValid(pools) && Chosen(pools, m, i, a)
    ensures AllocateFor(pools, m) == (With(pools, i, a), a) && a != 0
  {
    WantedIs(pools, m);
    assert pools[i].Valid();
    if !Wanted(pools, m, i, a) {
      FirstFitIs(pools, i, a);
      NothingWanted(pools, m);
    }
  }

  lemma NothingWanted(pools: seq<Pool>, m: Message)
    requires WantsNothing(pools, m)
    ensures AllocateFor(pools, m) == RequestAny(pools)
  {
    WantedIs(pools, m);
    var o50 := Retrieve(m.options, 50);
    if o50.Some? {
      assert !Wanted(pools, m, FindPool(pools, o50.value.Number()), o50.value.Number());
    }
  }

  /** One of the two cases applies. */
  lemma ChosenOrNothing(pools: seq<Pool>, m: Message) returns (i: nat, a: uint32)
    requires AllValid(pools)
    ensures Chosen(pools, m, i, a) || NothingFree(pools, m)
  {
    i, a := FirstOpen(pools), 0;
    if !WantsNothing(pools, m) {
      i, a :| Wanted(pools, m, i, a);
    } else if i < |pools| {
      a := FirstFree(pools[i]);
      assert pools[i].Valid();
      forall j | 0 <= j < i ensures PoolFull(pools[j]) {
        assert pools[j].Valid() && FirstFree(pools[j]) == 0;
      }
      assert FirstFit(pools, i, a);
    } else {
      forall j | 0 <= j < |pools| ensures PoolFull(pools[j]) {
        assert pools[j].Valid() && FirstFree(pools[j]) == 0;
      }
    }
  }

  lemma DiscoverIs(s: State, now: uint32, m: Message, sent: bool, i: nat, a: uint32)
    requires m.kind == DISCOVER && AllValid(s.store.pools) && Chosen(s.store.pools, m, i, a)
    ensures var s1 := s.(store := s.store.(pools := With(s.store.pools, i, a)));
            Handle(s, now, m, sent) ==
            if LeaseDuration(s.cfg.defaults, m) == 0 then s1
            else Deliver(s1, now, sent, Reply(m, OFFER, 0, a), OfferOptions(s1, m, a))
  {
    ChosenIs(s.store.pools, m, i, a);
  }

  /**
   A DISCOVER marks exactly the address chosen for it and, if the lease time is not 0, answers with
   an OFFER of that address.
   */
  lemma DiscoverLaw(s: State, now: uint32, m: Message, sent: bool, t: nat, i: nat, a: uint32)
    requires m.kind == DISCOVER && AllValid(s.store.pools) && ValidCache(s.cache) && TransactionAt(s.cache, m.xid, t)
    requires Chosen(s.store.pools, m, i, a)
    ensures i < |s.store.pools|
    ensures var s', pools := Handle(s, now, m, sent), With(s.store.pools, i, a);
            && s' == s.(store := s.store.(pools := pools), cache := s'.cache)
            && Answered(s.cache, s'.cache, t, sent && exists d :: Duration(s.cfg.defaults, m, d) && d != 0,
                        Message(OFFER, m.xid, 0, a, m.chaddr, [], now),
                        os => OfferCarries(s.cfg.defaults, pools, m, a, os))
  {
    var pools := With(s.store.pools, i, a);
    var s1 := s.(store := s.store.(pools := pools));
    DiscoverIs(s, now, m, sent, i, a);
    DurationIs(s.cfg.defaults, m);
    if LeaseDuration(s.cfg.defaults, m) != 0 {
      OfferOptionsAre(s1, m, a);
      DeliverAnswers(s1, now, sent, Reply(m, OFFER, 0, a), OfferOptions(s1, m, a), t,
                     os => OfferCarries(s.cfg.defaults, pools, m, a, os));
    }
  }

  /** With nothing free a DISCOVER changes nothing. */
  lemma DiscoverNothing(s: State, now: uint32, m: Message, sent: bool)
    requires m.kind == DISCOVER && AllValid(s.store.pools) && NothingFree(s.store.pools, m)
    ensures Handle(s, now, m, sent) == s
  {
    FullIsZero(s.store.pools);
    NothingWanted(s.store.pools, m);
  }
}
