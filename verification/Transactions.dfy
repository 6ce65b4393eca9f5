/** Transactions and the fixed-size transaction cache, as values. */
module Transactions {
  import opened Words
  import opened Messages
  import opened Timers

  datatype Slot = Slot(xid: uint32, begin: uint32, count: byte, messages: seq<Message>, timer: TimerState)

  /** trans_new. */
  function FreshSlot(duration: uint32, now: uint32): Slot {
    Slot(0, 0, 0, [], TimerState(false, duration, duration, false, now))
  }

  /** trans_cache_new, for as many slots as `cache` has. */
  function FreshCache(cache: seq<Slot>, now: uint32): (c: seq<Slot>)
    ensures |c| == |cache| && forall i :: 0 <= i < |c| ==> c[i] == FreshSlot(cache[i].timer.dtime, now)
  {
    seq(|cache|, i requires 0 <= i < |cache| => FreshSlot(cache[i].timer.dtime, now))
  }

  /** trans_clear. */
  function Clear(s: Slot, now: uint32): Slot {
    Slot(0, 0, 0, [], if s.timer.running then Stopped(Reset(s.timer, now)) else s.timer)
  }

  /** trans_add; None is the xid mismatch error. The message counter is a uint8_t. */
  function TransAdd(s: Slot, m: Message, now: uint32): Option<Slot> {
    if s.xid != 0 && s.xid != m.xid then None
    else
      var opening := s.count == 0;
      var count := (s.count + 1) % 256;
      Some(Slot(if opening then m.xid else s.xid, if opening then now else s.begin, count, s.messages + [m],
                if count == 1 then Started(s.timer, now) else s.timer))
  }

  /** trans_cache_retrieve_transaction: first slot with this xid, or |cache|. */
  function FindXid(cache: seq<Slot>, xid: uint32): (i: nat)
    ensures i <= |cache|
    ensures i < |cache| ==> cache[i].xid == xid
    ensures forall j :: 0 <= j < i ==> cache[j].xid != xid
  {
    if cache == [] || cache[0].xid == xid then 0 else 1 + FindXid(cache[1..], xid)
  }

  /** cache_get_next_transaction: first slot whose timer is stopped, or |cache|. */
  function FindFree(cache: seq<Slot>): (i: nat)
    ensures i <= |cache|
    ensures i < |cache| ==> !cache[i].timer.running
    ensures forall j :: 0 <= j < i ==> cache[j].timer.running
  {
    if cache == [] || !cache[0].timer.running then 0 else 1 + FindFree(cache[1..])
  }

  /** The slot a message with this xid goes to, or |cache|. */
  function Target(cache: seq<Slot>, xid: uint32): (i: nat)
    ensures i <= |cache|
  {
    var i := FindXid(cache, xid);
    if i < |cache| then i else FindFree(cache)
  }

  /** trans_cache_add_message; None is its error return. */
  function AddMessage(cache: seq<Slot>, m: Message, now: uint32): Option<seq<Slot>> {
    var i := Target(cache, m.xid);
    if i == |cache| then None
    else
      var slot := if FindXid(cache, m.xid) < |cache| then cache[i] else Clear(cache[i], now);
      match TransAdd(slot, m.(time := now), now)
      case None => None
      case Some(slot') => Some(cache[i := slot'])
  }

  /** The messages cached under an xid. */
  function History(cache: seq<Slot>, xid: uint32): seq<Message> {
    var i := FindXid(cache, xid);
    if i < |cache| then cache[i].messages else []
  }

  /** What every slot keeps, whatever the xids. */
  ghost predicate ValidSlot(s: Slot) {
    && !s.timer.repeat
    && (s.timer.running <==> s.messages != [])
    && (s.messages == [] ==> s.xid == 0 && s.count == 0 && s.timer.rtime == s.timer.dtime)
    && (forall k :: 0 <= k < |s.messages| ==> s.messages[k].xid == s.xid)
    && s.count == |s.messages| % 256
  }

  ghost predicate ValidCache(cache: seq<Slot>) {
    forall i :: 0 <= i < |cache| ==> ValidSlot(cache[i])
  }

  /** A valid slot of this id, or an empty one, takes the message and stays valid. */
  lemma TransAddEffect(s: Slot, m: Message, now: uint32)
    requires ValidSlot(s) && (s.messages == [] || s.xid == m.xid)
    ensures var r := TransAdd(s, m, now);
            r.Some? && ValidSlot(r.value) && r.value.xid == m.xid && r.value.messages == s.messages + [m]
  {
    var r := TransAdd(s, m, now).value;
    assert forall k :: 0 <= k < |s.messages| ==> r.messages[k] == s.messages[k];
  }

  /** Adding appends to exactly one slot, fails only on a full cache, and finds the same slot again. */
  lemma AddMessageEffect(cache: seq<Slot>, m: Message, now: uint32)
    requires ValidCache(cache)
    ensures AddMessage(cache, m, now).Some? <==> Target(cache, m.xid) < |cache|
    ensures AddMessage(cache, m, now).Some? ==>
              var t, c := Target(cache, m.xid), AddMessage(cache, m, now).value;
              && |c| == |cache| && ValidCache(c)
              && c == cache[t := c[t]]
              && c[t].messages == cache[t].messages + [m.(time := now)]
              && FindXid(c, m.xid) == t == Target(c, m.xid)
  {
    var t := Target(cache, m.xid);
    if t < |cache| {
      assert ValidSlot(cache[t]);
      var slot := if FindXid(cache, m.xid) < |cache| then cache[t] else Clear(cache[t], now);
      TransAddEffect(slot, m.(time := now), now);
      FindReplaced(cache, t, TransAdd(slot, m.(time := now), now).value);
    }
  }

  lemma FindReplaced(cache: seq<Slot>, t: nat, slot: Slot)
    requires t < |cache| && t <= FindXid(cache, slot.xid)
    ensures FindXid(cache[t := slot], slot.xid) == t
  {
    var c := cache[t := slot];
    assert c[t] == slot && forall j :: 0 <= j < t ==> c[j] == cache[j];
  }
}
