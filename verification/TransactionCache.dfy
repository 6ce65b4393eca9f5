/** Transactions and the transaction cache as objects. */
module TransactionCaches {
  import opened Words
  import opened Messages
  import opened Timers
  import opened Transactions

  class Transaction {
    var xid: uint32
    var begin: uint32
    var count: byte
    var messages: seq<Message>
    const timer: Timer

    /** trans_new. */
    constructor (duration: uint32, now: uint32)
      ensures View() == FreshSlot(duration, now) && fresh(timer)
    {
      xid, begin, count, messages := 0, 0, 0, [];
      timer := new Timer(false, duration, false, now);
    }

    function View(): Slot
      reads this, timer
    {
      Slot(xid, begin, count, messages, timer.View())
    }

    /** trans_clear. */
    method Empty(now: uint32)
      modifies this, timer
      ensures View() == Clear(old(View()), now)
    {
      count, begin, xid, messages := 0, 0, 0, [];
      if timer.running {
        timer.Restart(now);
        timer.Stop();
      }
    }

    /** trans_add. */
    method Add(m: Message, now: uint32) returns (ok: bool)
      modifies this, timer
      ensures ok <==> TransAdd(old(View()), m, now).Some?
      ensures View() == if ok then TransAdd(old(View()), m, now).value else old(View())
    {
      if xid != 0 && xid != m.xid {
        return false;
      }
      if count == 0 {
        xid := m.xid;
        begin := now;
      }
      messages := messages + [m];
      count := (count + 1) % 256;
      if count == 1 {
        timer.Start(now);
      }
      ok := true;
    }

    /** trans_search_for. */
    method SearchFor(kind: uint32) returns (r: Option<Message>)
      ensures r == First(messages, kind)
    {
      var i := 0;
      while i < |messages|
        invariant i <= |messages| && First(messages[i..], kind) == First(messages, kind)
      {
        assert messages[i..][1..] == messages[i + 1..];
        if messages[i].kind == kind {
          return Some(messages[i]);
        }
        i := i + 1;
      }
      r := None;
    }

    /** trans_search_for_last. */
    method SearchForLast(kind: uint32) returns (last: Option<Message>)
      ensures last == Last(messages, kind)
    {
      last := None;
      for i := 0 to |messages|
        invariant last == Last(messages[..i], kind)
      {
        assert messages[..i + 1][..i] == messages[..i];
        if messages[i].kind == kind {
          last := Some(messages[i]);
        }
      }
      assert messages[..|messages|] == messages;
    }
  }

  class TransactionCache {
    const slots: seq<Transaction>
    const duration: uint32
    ghost const Repr: set<object>
    /** The slots as values. */
    ghost var model: seq<Slot>

    ghost predicate Valid()
      reads this, Repr
      ensures Valid() ==> this in Repr
    {
      && this in Repr && |model| == |slots|
      && (forall i :: 0 <= i < |slots| ==> slots[i] in Repr && slots[i].timer in Repr && model[i] == slots[i].View())
      && (forall i, j :: 0 <= i < j < |slots| ==> slots[i] != slots[j] && slots[i].timer != slots[j].timer)
      && (forall i :: 0 <= i < |slots| ==> slots[i].timer.dtime == duration)
    }

    /** trans_cache_new. */
    constructor (size: nat, duration: uint32, now: uint32)
      ensures Valid() && fresh(Repr) && |model| == size && this.duration == duration
      ensures forall i :: 0 <= i < size ==> model[i] == FreshSlot(duration, now)
    {
      var ts: seq<Transaction> := [];
      ghost var owned: set<object> := {};
      ghost var views: seq<Slot> := [];
      while |ts| < size
        invariant |ts| <= size && |views| == |ts| && fresh(owned)
        invariant forall i :: 0 <= i < |ts| ==> ts[i] in owned && ts[i].timer in owned && views[i] == ts[i].View()
        invariant forall i :: 0 <= i < |ts| ==> views[i] == FreshSlot(duration, now)
        invariant forall i, j :: 0 <= i < j < |ts| ==> ts[i] != ts[j] && ts[i].timer != ts[j].timer
      {
        var t := new Transaction(duration, now);
        ts := ts + [t];
        views := views + [t.View()];
        owned := owned + {t, t.timer};
      }
      slots := ts;
      this.duration := duration;
      model := views;
      Repr := owned + {this};
    }

    /** A new cache of the same size and duration. */
    method Blank(now: uint32) returns (c: TransactionCache)
      requires Valid()
      ensures c.Valid() && fresh(c.Repr) && c.model == FreshCache(model, now)
    {
      c := new TransactionCache(|slots|, duration, now);
    }

    /** trans_cache_retrieve_transaction. */
    method Find(xid: uint32) returns (i: nat)
      requires Valid()
      ensures i == FindXid(model, xid)
    {
      i := 0;
      while i < |slots| && slots[i].xid != xid
        invariant i <= |slots|
        invariant forall j :: 0 <= j < i ==> model[j].xid != xid
      {
        i := i + 1;
      }
    }

    /** The messages cached under an id. */
    method MessagesOf(xid: uint32) returns (ms: seq<Message>)
      requires Valid()
      ensures ms == History(model, xid)
    {
      var i := Find(xid);
      ms := if i < |slots| then slots[i].messages else [];
    }

    /** trans_search_for on slot `i`. */
    method SearchSlot(i: nat, kind: uint32) returns (r: Option<Message>)
      requires Valid() && i < |slots|
      ensures r == First(model[i].messages, kind)
    {
      r := slots[i].SearchFor(kind);
    }

    /** trans_cache_retrieve_message_last. */
    method LastOf(xid: uint32, kind: uint32) returns (r: Option<Message>)
      requires Valid()
      ensures r == Last(History(model, xid), kind)
    {
      var i := Find(xid);
      if i == |slots| {
        return None;
      }
      r := slots[i].SearchForLast(kind);
    }

    /** cache_get_next_transaction. */
    method NextFree() returns (i: nat)
      requires Valid()
      ensures i == FindFree(model)
    {
      i := 0;
      while i < |slots| && slots[i].timer.running
        invariant i <= |slots|
        invariant forall j :: 0 <= j < i ==> model[j].timer.running
      {
        i := i + 1;
      }
    }

    /** Bring the model up to date after a change to slot `i`. */
    ghost method Refresh(i: nat)
      requires this in Repr && |model| == |slots| && i < |slots|
      requires forall j :: 0 <= j < |slots| ==> slots[j] in Repr && slots[j].timer in Repr
      requires forall j :: 0 <= j < |slots| && j != i ==> model[j] == slots[j].View()
      requires forall j, k :: 0 <= j < k < |slots| ==> slots[j] != slots[k] && slots[j].timer != slots[k].timer
      requires forall j :: 0 <= j < |slots| ==> slots[j].timer.dtime == duration
      modifies `model
      ensures Valid() && model == old(model)[i := slots[i].View()]
    {
      model := model[i := slots[i].View()];
    }

    method ClearSlot(i: nat, now: uint32)
      requires Valid() && i < |slots|
      modifies Repr
      ensures Valid() && model == old(model)[i := Clear(old(model)[i], now)]
    {
      slots[i].Empty(now);
      Refresh(i);
    }

    method AddToSlot(i: nat, m: Message, now: uint32) returns (ok: bool)
      requires Valid() && i < |slots|
      modifies Repr
      ensures Valid() && (ok <==> TransAdd(old(model)[i], m, now).Some?)
      ensures model == if ok then old(model)[i := TransAdd(old(model)[i], m, now).value] else old(model)
    {
      ok := slots[i].Add(m, now);
      Refresh(i);
      if !ok {
        assert model == old(model);
      }
    }

    /** timer_update on one slot, without the callback. */
    method PollSlot(i: nat, now: uint32) returns (due: bool)
      requires Valid() && i < |slots|
      modifies Repr
      ensures Valid() && due == Poll(old(model)[i].timer, now).1
      ensures model == old(model)[i := old(model)[i].(timer := Poll(old(model)[i].timer, now).0)]
    {
      due := slots[i].timer.Update(now);
      Refresh(i);
    }

    /** trans_cache_add_message. */
    method AddMessage(m: Message, now: uint32) returns (ok: bool)
      requires Valid()
      modifies Repr
      ensures Valid() && (ok <==> Transactions.AddMessage(old(model), m, now).Some?)
      ensures model == if ok then Transactions.AddMessage(old(model), m, now).value else old(model)
    {
      var i := Find(m.xid);
      if i == |slots| {
        i := NextFree();
        if i == |slots| {
          return false;
        }
        ClearSlot(i, now);
      }
      ok := AddToSlot(i, m.(time := now), now);
    }
  }
}
