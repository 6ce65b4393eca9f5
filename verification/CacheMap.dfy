/** For nonzero transaction ids, the slot array is a bounded map from id to message history. */
module CacheMap {
  import opened Words
  import opened Messages
  import opened Timers
  import opened Transactions
  import opened Protocol
  import opened Growth

  /** No running slot carries the id. */
  ghost predicate Absent(cache: seq<Slot>, xid: uint32) {
    forall i :: 0 <= i < |cache| && cache[i].timer.running ==> cache[i].xid != xid
  }

  /** Running slots have pairwise distinct ids. */
  ghost predicate Distinct(cache: seq<Slot>) {
    cache != [] ==> Distinct(cache[1..]) && (cache[0].timer.running ==> Absent(cache[1..], cache[0].xid))
  }

  ghost predicate MapCache(cache: seq<Slot>) {
    ValidCache(cache) && Absent(cache, 0) && Distinct(cache)
  }

  /** The map: every running slot's id to the messages since it was opened. */
  function Histories(cache: seq<Slot>): map<uint32, seq<Message>> {
    if cache == [] then map[]
    else
      var h := Histories(cache[1..]);
      if cache[0].timer.running then h[cache[0].xid := cache[0].messages] else h
  }

  lemma {:induction false} AbsentIff(cache: seq<Slot>, xid: uint32)
    ensures xid in Histories(cache) <==> !Absent(cache, xid)
  {
    if cache != [] {
      AbsentIff(cache[1..], xid);
      assert Absent(cache, xid) <==> Absent(cache[1..], xid) && (cache[0].timer.running ==> cache[0].xid != xid) by {
        assert forall i :: 1 <= i < |cache| ==> cache[i] == cache[1..][i - 1];
      }
    }
  }

  /** A running slot holds its id's entry. */
  lemma {:induction false} EntryOf(cache: seq<Slot>, i: nat)
    requires Distinct(cache) && i < |cache| && cache[i].timer.running
    ensures cache[i].xid in Histories(cache) && Histories(cache)[cache[i].xid] == cache[i].messages
  {
    if i > 0 {
      EntryOf(cache[1..], i - 1);
      assert cache[1..][i - 1] == cache[i];
    }
  }

  /** Looking an id up in the array is looking it up in the map. */
  lemma LookupRefines(cache: seq<Slot>, xid: uint32)
    requires MapCache(cache) && xid != 0
    ensures FindXid(cache, xid) < |cache| <==> xid in Histories(cache)
    ensures xid in Histories(cache) ==> History(cache, xid) == Histories(cache)[xid]
  {
    var i := FindXid(cache, xid);
    AbsentIff(cache, xid);
    if i < |cache| {
      assert ValidSlot(cache[i]);
      EntryOf(cache, i);
    }
  }

  /** The map has as many entries as there are running slots. */
  lemma {:induction false} SizeIsRunning(cache: seq<Slot>)
    requires Distinct(cache)
    ensures |Histories(cache)| <= |cache|
    ensures |Histories(cache)| == |cache| <==> FindFree(cache) == |cache|
  {
    if cache != [] {
      SizeIsRunning(cache[1..]);
      AbsentIff(cache[1..], cache[0].xid);
    }
  }

  /** No running slot but `t` carries the id. */
  ghost predicate AbsentBut(cache: seq<Slot>, t: nat, xid: uint32) {
    forall i :: 0 <= i < |cache| && i != t && cache[i].timer.running ==> cache[i].xid != xid
  }

  lemma {:induction false} DistinctBut(cache: seq<Slot>, t: nat)
    requires Distinct(cache) && t < |cache| && cache[t].timer.running
    ensures AbsentBut(cache, t, cache[t].xid)
  {
    if t > 0 {
      DistinctBut(cache[1..], t - 1);
      assert forall i :: 1 <= i < |cache| ==> cache[i] == cache[1..][i - 1];
    } else {
      assert forall i :: 1 <= i < |cache| ==> cache[i] == cache[1..][i - 1];
    }
  }

  /** A slot opened or extended under an id of its own: one entry changes. */
  lemma {:induction false} PutSlot(cache: seq<Slot>, t: nat, slot: Slot)
    requires Distinct(cache) && t < |cache| && slot.timer.running && AbsentBut(cache, t, slot.xid)
    requires cache[t].timer.running ==> cache[t].xid == slot.xid
    ensures Distinct(cache[t := slot])
    ensures Histories(cache[t := slot]) == Histories(cache)[slot.xid := slot.messages]
  {
    var tail, c := cache[1..], cache[t := slot];
    assert forall i :: 1 <= i < |cache| ==> cache[i] == tail[i - 1];
    if t > 0 {
      assert c[1..] == tail[t - 1 := slot];
      PutSlot(tail, t - 1, slot);
      assert c[0] == cache[0];
    } else {
      assert c[1..] == tail;
    }
  }

  /** A cleared slot: its entry goes. */
  lemma {:induction false} DropSlot(cache: seq<Slot>, t: nat, slot: Slot)
    requires Distinct(cache) && t < |cache| && !slot.timer.running
    ensures Distinct(cache[t := slot])
    ensures Histories(cache[t := slot]) ==
            if cache[t].timer.running then Histories(cache) - {cache[t].xid} else Histories(cache)
  {
    var tail, c := cache[1..], cache[t := slot];
    assert forall i :: 1 <= i < |cache| ==> cache[i] == tail[i - 1];
    if t > 0 {
      assert c[1..] == tail[t - 1 := slot];
      DropSlot(tail, t - 1, slot);
      assert c[0] == cache[0];
    } else {
      assert c[1..] == tail;
      AbsentIff(tail, cache[0].xid);
    }
  }

  /**
   Adding a message updates one entry of the map; it is refused exactly when the id is new
   and the map is full.
   */
  lemma AddRefines(cache: seq<Slot>, m: Message, now: uint32)
    requires MapCache(cache) && m.xid != 0
    ensures var h := Histories(cache);
            var r := AddMessage(cache, m, now);
            && (r.None? <==> m.xid !in h && |h| == |cache|)
            && (r.Some? ==>
                  && MapCache(r.value)
                  && Histories(r.value) == h[m.xid := (if m.xid in h then h[m.xid] else []) + [m.(time := now)]])
  {
    AddMessageEffect(cache, m, now);
    LookupRefines(cache, m.xid);
    SizeIsRunning(cache);
    if AddMessage(cache, m, now).Some? {
      var t, c := Target(cache, m.xid), AddMessage(cache, m, now).value;
      assert ValidSlot(cache[t]) && ValidSlot(c[t]);
      if cache[t].timer.running {
        DistinctBut(cache, t);
      } else {
        AbsentIff(cache, m.xid);
      }
      PutSlot(cache, t, c[t]);
    }
  }

  /** A running slot with the id 0 behind an idle one. */
  ghost predicate Shadowed(cache: seq<Slot>) {
    exists j :: FindFree(cache) < j < |cache| && cache[j].timer.running && cache[j].xid == 0
  }

  /**
   Id 0 marks idle slots too: a message with id 0 opens a second transaction with the same id
   exactly when an idle slot stands in front of the running one.
   */
  lemma ZeroIdSplitsIff(cache: seq<Slot>, m: Message, now: uint32)
    requires ValidCache(cache) && Distinct(cache) && m.xid == 0 && AddMessage(cache, m, now).Some?
    ensures Distinct(AddMessage(cache, m, now).value) <==> !Shadowed(cache)
  {
    AddMessageEffect(cache, m, now);
    var t, c := FindXid(cache, 0), AddMessage(cache, m, now).value;
    assert FindFree(cache) < |cache| ==> ValidSlot(cache[FindFree(cache)]);
    assert t < |cache| && ValidSlot(cache[t]) && ValidSlot(c[t]);
    if cache[t].timer.running {
      DistinctBut(cache, t);
      assert !Shadowed(cache);
      PutSlot(cache, t, c[t]);
    } else if Shadowed(cache) {
      var j :| FindFree(cache) < j < |cache| && cache[j].timer.running && cache[j].xid == 0;
      assert c[j] == cache[j] && j != t;
      if Distinct(c) {
        DistinctBut(c, t);
      }
    } else {
      PutSlot(cache, t, c[t]);
    }
  }

  /** An idle slot before the one that runs with id 0: the next message with id 0 opens a second transaction. */
  lemma ZeroIdExample()
    ensures var m := Message(DISCOVER, 0, 0, 0, [1, 2, 3, 4, 5, 6], [], 5);
            var cache := [FreshSlot(60, 5), Slot(0, 5, 1, [m], TimerState(false, 60, 60, true, 5))];
            && ValidCache(cache) && Distinct(cache)
            && AddMessage(cache, m, 6).Some? && !Distinct(AddMessage(cache, m, 6).value)
  {
    var m := Message(DISCOVER, 0, 0, 0, [1, 2, 3, 4, 5, 6], [], 5);
    var cache := [FreshSlot(60, 5), Slot(0, 5, 1, [m], TimerState(false, 60, 60, true, 5))];
    assert ValidSlot(cache[0]) && ValidSlot(cache[1]);
    assert Distinct(cache[1..][1..]);
    AddMessageEffect(cache, m, 6);
    assert Shadowed(cache) by {
      assert FindFree(cache) == 0 && cache[1].timer.running && cache[1].xid == 0;
    }
    ZeroIdSplitsIff(cache, m, 6);
  }

  /** Polling one slot either leaves the map alone or, on expiry, removes just that entry. */
  lemma TickSlotRefines(s: State, i: nat, now: uint32)
    requires MapCache(s.cache) && i < |s.cache|
    ensures var c := TickSlot(s, i, now).cache;
            && MapCache(c)
            && Histories(c) ==
               if Poll(s.cache[i].timer, now).1 then Histories(s.cache) - {s.cache[i].xid} else Histories(s.cache)
  {
    assert ValidSlot(s.cache[i]);
    var slot := TickSlot(s, i, now).cache[i];
    if slot.timer.running {
      DistinctBut(s.cache, i);
      PutSlot(s.cache, i, slot);
      EntryOf(s.cache, i);
    } else {
      DropSlot(s.cache, i, slot);
    }
  }

  // ---------------------------------------------------------------- whole runs

  lemma GrowsKeepsMap(cache: seq<Slot>, cache': seq<Slot>, m: Message, now: uint32)
    requires MapCache(cache) && Grows(cache, cache', m, now) && m.xid != 0
    ensures MapCache(cache')
  {
    if cache' != cache {
      var r :| Answers(r, m) && AddMessage(cache, r, now) == Some(cache');
      AddRefines(cache, r, now);
    }
  }

  lemma ReceiveKeepsMap(s: State, now: uint32, m: Message, sent: bool)
    requires MapCache(s.cache) && m.xid != 0
    ensures MapCache(Receive(s, now, m, sent).cache)
  {
    var c := ReceiveGrows(s, now, m, sent);
    GrowsKeepsMap(s.cache, c, m, now);
    GrowsKeepsMap(c, Receive(s, now, m, sent).cache, m, now);
  }

  lemma TickSlotsKeepsMap(s: State, i: nat, now: uint32)
    requires MapCache(s.cache)
    ensures MapCache(TickSlots(s, i, now).cache)
  {
    forall t: State, j: nat | j < |t.cache| && MapCache(t.cache) ensures MapCache(TickSlot(t, j, now).cache) {
      TickSlotRefines(t, j, now);
    }
    TickSlotsKeep((t: State) => MapCache(t.cache), s, i, now);
  }

  lemma {:induction false} FreshIsMap(cache: seq<Slot>)
    requires ValidCache(cache) && forall i :: 0 <= i < |cache| ==> !cache[i].timer.running
    ensures MapCache(cache)
  {
    if cache != [] {
      FreshIsMap(cache[1..]);
    }
  }

  lemma StepKeepsMap(s: State, e: Event)
    requires MapCache(s.cache) && (e.Received? ==> e.m.xid != 0)
    ensures MapCache(Step(s, e).cache)
  {
    match e
    case Received(now, m, sent) => ReceiveKeepsMap(s, now, m, sent);
    case Timers(now) => TickSlotsKeepsMap(s, 0, now);
    case Restarted(now) => FreshIsMap(Restart(s, now).cache);
  }

  /** Over every run whose messages carry nonzero ids the array stays a map. */
  lemma {:induction false} RunsKeepMap(s: State, events: seq<Event>, k: nat)
    requires MapCache(s.cache) && k <= |events|
    requires forall i :: 0 <= i < |events| && events[i].Received? ==> events[i].m.xid != 0
    ensures MapCache(Run(s, events[..k]).cache)
    decreases events
  {
    if k > 0 {
      StepKeepsMap(s, events[0]);
      RunPrefix(s, events, k);
      RunsKeepMap(Step(s, events[0]), events[1..], k - 1);
    }
  }
}
