/** The dynamic access control list bounds every client's share of the transaction cache. */
module CacheShare {
  import opened Words
  import opened Messages
  import opened Transactions
  import opened AccessControl
  import opened AddressText
  import opened Protocol
  import opened Growth

  /** With the dynamic list on, nobody owns more than half the slots. */
  ghost predicate Bounded(s: State) {
    && ValidCache(s.cache)
    && s.dacl.enabled && s.dacl.isBlacklist
    && forall c: Mac :: Share(s.cache, c) <= |s.cache| / 2
  }

  function Owns(slot: Slot, c: Mac): int {
    if OwnedBy(slot, c) then 1 else 0
  }

  lemma {:induction false} ShareUpdate(cache: seq<Slot>, t: nat, slot: Slot, c: Mac)
    requires t < |cache|
    ensures Share(cache[t := slot], c) == Share(cache, c) - Owns(cache[t], c) + Owns(slot, c)
  {
    if t > 0 {
      assert cache[t := slot][1..] == cache[1..][t - 1 := slot];
      ShareUpdate(cache[1..], t - 1, slot, c);
    } else {
      assert cache[0 := slot][1..] == cache[1..];
    }
  }

  /** One more message counts only if it opens a transaction, and then only for its sender. */
  lemma ShareAfterMessage(cache: seq<Slot>, m: Message, now: uint32, c: Mac)
    requires ValidCache(cache) && AddMessage(cache, m, now).Some?
    ensures var t, cache' := Target(cache, m.xid), AddMessage(cache, m, now).value;
            && t < |cache|
            && Share(cache', c) == Share(cache, c) + if cache[t].messages == [] && m.chaddr == c then 1 else 0
  {
    AddMessageEffect(cache, m, now);
    var t, cache' := Target(cache, m.xid), AddMessage(cache, m, now).value;
    assert ValidSlot(cache[t]) && ValidSlot(cache'[t]);
    ShareUpdate(cache, t, cache'[t], c);
  }

  lemma ListedAfterAppend(entries: seq<string>, c: Mac, d: Mac)
    ensures Listed(entries + [PrintMac(c)], PrintMac(d)) <==> Listed(entries, PrintMac(d)) || c == d
  {
    PrintMacInjective(c, d);
    PrintMacInjective(d, c);
    var longer := entries + [PrintMac(c)];
    assert longer[|entries|] == PrintMac(c);
    assert forall k :: 0 <= k < |entries| ==> longer[k] == entries[k];
  }

  /** A client that passes the check still owns less than half. */
  lemma AllowedBelowHalf(acl: Acl, c: Mac, cache: seq<Slot>)
    requires acl.enabled && acl.isBlacklist && DynamicCheck(acl, c, cache).1 == Allow
    ensures Share(cache, c) < |cache| / 2
  {
    if Share(cache, c) >= |cache| / 2 {
      ListedAfterAppend(acl.entries, c, c);
    }
  }

  lemma AdmitBounded(s: State, now: uint32, m: Message)
    requires Bounded(s)
    ensures var (s1, admitted) := Admit(s, now, m);
            Bounded(s1) && (admitted ==> History(s1.cache, m.xid) != [])
  {
    var (s1, admitted) := Admit(s, now, m);
    if admitted {
      AllowedBelowHalf(s.dacl, m.chaddr, s.cache);
      AddMessageEffect(s.cache, m, now);
      forall c: Mac ensures Share(s1.cache, c) <= |s1.cache| / 2 {
        ShareAfterMessage(s.cache, m, now, c);
      }
    }
  }

  /** Replies join the transaction of the request. */
  lemma HandleBounded(s: State, now: uint32, m: Message, sent: bool)
    requires Bounded(s) && History(s.cache, m.xid) != []
    ensures Bounded(Handle(s, now, m, sent))
  {
    var cache' := Handle(s, now, m, sent).cache;
    HandleGrows(s, now, m, sent);
    if cache' != s.cache {
      var r :| Answers(r, m) && AddMessage(s.cache, r, now) == Some(cache');
      AddMessageEffect(s.cache, r, now);
      forall c: Mac ensures Share(cache', c) == Share(s.cache, c) {
        ShareAfterMessage(s.cache, r, now, c);
      }
    }
  }

  lemma TickSlotBounded(s: State, i: nat, now: uint32)
    requires Bounded(s) && i < |s.cache|
    ensures Bounded(TickSlot(s, i, now))
  {
    var s' := TickSlot(s, i, now);
    assert ValidSlot(s.cache[i]);
    forall c: Mac ensures Share(s'.cache, c) <= |s'.cache| / 2 {
      ShareUpdate(s.cache, i, s'.cache[i], c);
    }
  }

  lemma TickSlotsBounded(s: State, i: nat, now: uint32)
    requires Bounded(s)
    ensures Bounded(TickSlots(s, i, now))
  {
    forall t: State, j: nat | j < |t.cache| && Bounded(t) ensures Bounded(TickSlot(t, j, now)) {
      TickSlotBounded(t, j, now);
    }
    TickSlotsKeep((t: State) => Bounded(t), s, i, now);
  }

  lemma {:induction false} FreshShare(cache: seq<Slot>, c: Mac)
    requires forall i :: 0 <= i < |cache| ==> cache[i].messages == []
    ensures Share(cache, c) == 0
  {
    if cache != [] {
      FreshShare(cache[1..], c);
    }
  }

  lemma StepBounded(s: State, e: Event)
    requires Bounded(s)
    ensures Bounded(Step(s, e))
  {
    match e
    case Received(now, m, sent) =>
      AdmitBounded(s, now, m);
      if Admit(s, now, m).1 {
        HandleBounded(Admit(s, now, m).0, now, m, sent);
      }
    case Timers(now) =>
      TickSlotsBounded(s, 0, now);
    case Restarted(now) =>
      forall c: Mac ensures Share(Restart(s, now).cache, c) == 0 {
        FreshShare(Restart(s, now).cache, c);
      }
  }

  /** In every run, after every prefix, no hardware address owns more than half the running slots. */
  lemma {:induction false} RunsAreBounded(s: State, events: seq<Event>, k: nat)
    requires Bounded(s) && k <= |events|
    ensures Bounded(Run(s, events[..k]))
    decreases events
  {
    if k > 0 {
      StepBounded(s, events[0]);
      RunPrefix(s, events, k);
      RunsAreBounded(Step(s, events[0]), events[1..], k - 1);
    }
  }

  // ---------------------------------------------------------------- who is denied, and for how long

  /** The event is a message from `c` that finds `c` owning half the cache or more. */
  predicate Triggers(s: State, e: Event, c: Mac) {
    && e.Received? && e.m.chaddr == c
    && Check(s.acl, PrintMac(c)) == Allow
    && Share(s.cache, c) >= |s.cache| / 2
  }

  /** Only its own share puts a client on the list, and nothing but a restart takes it off. */
  lemma StepLists(s: State, e: Event, c: Mac)
    requires s.dacl.enabled && !e.Restarted?
    ensures Step(s, e).dacl == s.dacl.(entries := Step(s, e).dacl.entries)
    ensures Listed(Step(s, e).dacl.entries, PrintMac(c)) <==>
            Listed(s.dacl.entries, PrintMac(c)) || Triggers(s, e, c)
  {
    if e.Received? {
      ListedAfterAppend(s.dacl.entries, e.m.chaddr, c);
    }
  }

  predicate EverTriggers(s: State, events: seq<Event>, c: Mac)
    decreases events
  {
    events != [] && (Triggers(s, events[0], c) || EverTriggers(Step(s, events[0]), events[1..], c))
  }

  /** After a run without restart a client is listed if and only if it was before or triggered the list itself. */
  lemma {:induction false} ListedIff(s: State, events: seq<Event>, c: Mac)
    requires s.dacl.enabled && forall k :: 0 <= k < |events| ==> !events[k].Restarted?
    ensures Run(s, events).dacl == s.dacl.(entries := Run(s, events).dacl.entries)
    ensures Listed(Run(s, events).dacl.entries, PrintMac(c)) <==>
            Listed(s.dacl.entries, PrintMac(c)) || EverTriggers(s, events, c)
    decreases events
  {
    if events != [] {
      StepLists(s, events[0], c);
      ListedIff(Step(s, events[0]), events[1..], c);
    }
  }

  /** A listed client's messages reach no handler and no slot. */
  lemma ListedIsDenied(s: State, now: uint32, m: Message, sent: bool)
    requires s.dacl.enabled && s.dacl.isBlacklist && Listed(s.dacl.entries, PrintMac(m.chaddr))
    ensures Receive(s, now, m, sent) == s.(dacl := Receive(s, now, m, sent).dacl)
  {
    ListedAfterAppend(s.dacl.entries, m.chaddr, m.chaddr);
  }
}
