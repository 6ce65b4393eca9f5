/**
 What the searches of the server find, said by positions. The laws about whole operations use
 these predicates, so that they do not rest on the search functions.
 */
module Lookups {
  import opened Words
  import opened Messages
  import opened Pools
  import opened Leases
  import opened Transactions

  // ---------------------------------------------------------------- messages

  /** `m` is the first message of its kind. */
  ghost predicate FirstOf(ms: seq<Message>, kind: uint32, m: Message) {
    exists k :: 0 <= k < |ms| && ms[k] == m && m.kind == kind && forall j :: 0 <= j < k ==> ms[j].kind != kind
  }

  ghost predicate LastOf(ms: seq<Message>, kind: uint32, m: Message) {
    exists k :: 0 <= k < |ms| && ms[k] == m && m.kind == kind && forall j :: k < j < |ms| ==> ms[j].kind != kind
  }

  ghost predicate NoneOf(ms: seq<Message>, kind: uint32) {
    forall k :: 0 <= k < |ms| ==> ms[k].kind != kind
  }

  lemma {:induction false} FirstIs(ms: seq<Message>, kind: uint32)
    ensures forall m :: FirstOf(ms, kind, m) <==> First(ms, kind) == Some(m)
    ensures NoneOf(ms, kind) <==> First(ms, kind).None?
  {
    if ms != [] {
      FirstIs(ms[1..], kind);
      forall m ensures FirstOf(ms, kind, m) <==> First(ms, kind) == Some(m) {
        if ms[0].kind == kind {
          assert FirstOf(ms, kind, ms[0]);
        } else {
          FirstOfLater(ms, kind, m);
        }
      }
    }
  }

  lemma FirstOfLater(ms: seq<Message>, kind: uint32, m: Message)
    requires ms != [] && ms[0].kind != kind
    ensures FirstOf(ms, kind, m) <==> FirstOf(ms[1..], kind, m)
  {
    var rest := ms[1..];
    if FirstOf(ms, kind, m) {
      var k :| 0 <= k < |ms| && ms[k] == m && m.kind == kind && forall j :: 0 <= j < k ==> ms[j].kind != kind;
      assert rest[k - 1] == m;
    }
    if FirstOf(rest, kind, m) {
      var k :| 0 <= k < |rest| && rest[k] == m && m.kind == kind && forall j :: 0 <= j < k ==> rest[j].kind != kind;
      assert ms[k + 1] == m && forall j :: 1 <= j < k + 1 ==> ms[j] == rest[j - 1];
    }
  }

  lemma {:induction false} LastIs(ms: seq<Message>, kind: uint32)
    ensures forall m :: LastOf(ms, kind, m) <==> Last(ms, kind) == Some(m)
    ensures NoneOf(ms, kind) <==> Last(ms, kind).None?
  {
    if ms != [] {
      var n := |ms| - 1;
      LastIs(ms[..n], kind);
      forall m ensures LastOf(ms, kind, m) <==> Last(ms, kind) == Some(m) {
        if ms[n].kind == kind {
          assert LastOf(ms, kind, ms[n]);
        } else {
          LastOfEarlier(ms, kind, m);
        }
      }
    }
  }

  lemma LastOfEarlier(ms: seq<Message>, kind: uint32, m: Message)
    requires ms != [] && ms[|ms| - 1].kind != kind
    ensures LastOf(ms, kind, m) <==> LastOf(ms[..|ms| - 1], kind, m)
  {
    var rest := ms[..|ms| - 1];
    if LastOf(ms, kind, m) {
      var k :| 0 <= k < |ms| && ms[k] == m && m.kind == kind && forall j :: k < j < |ms| ==> ms[j].kind != kind;
      assert rest[k] == m;
    }
    if LastOf(rest, kind, m) {
      var k :| 0 <= k < |rest| && rest[k] == m && m.kind == kind && forall j :: k < j < |rest| ==> rest[j].kind != kind;
      assert ms[k] == m && forall j :: k < j < |rest| ==> ms[j] == rest[j];
    }
  }

  // ---------------------------------------------------------------- pools, records, transactions

  /** Pool `i` is the first one whose range holds `a`. */
  ghost predicate InPool(pools: seq<Pool>, a: uint32, i: nat) {
    && i < |pools| && pools[i].start <= a <= pools[i].end
    && forall j :: 0 <= j < i ==> !(pools[j].start <= a <= pools[j].end)
  }

  ghost predicate InNoPool(pools: seq<Pool>, a: uint32) {
    forall j :: 0 <= j < |pools| ==> !(pools[j].start <= a <= pools[j].end)
  }

  lemma InPoolIs(pools: seq<Pool>, a: uint32)
    ensures forall i: nat :: InPool(pools, a, i) <==> i == FindPool(pools, a) < |pools|
    ensures InNoPool(pools, a) <==> FindPool(pools, a) == |pools|
  {
  }

  /** Record `k` is the first one of the address. */
  ghost predicate RecordAt(f: seq<Lease>, a: uint32, k: nat) {
    k < |f| && f[k].address == a && forall j :: 0 <= j < k ==> f[j].address != a
  }

  ghost predicate NoRecord(f: seq<Lease>, a: uint32) {
    forall j :: 0 <= j < |f| ==> f[j].address != a
  }

  lemma RecordIs(f: seq<Lease>, a: uint32)
    ensures forall k: nat :: RecordAt(f, a, k) <==> k == FindLease(f, a) < |f|
    ensures NoRecord(f, a) <==> FindLease(f, a) == |f|
    ensures forall k: nat :: RecordAt(f, a, k) ==> Lookup(f, a) == Some(f[k]) && RemoveLease(f, a) == f[..k] + f[k + 1..]
    ensures NoRecord(f, a) ==> Lookup(f, a) == None && RemoveLease(f, a) == f
  {
  }

  /** Slot `t` is the first one with the id. */
  ghost predicate TransactionAt(cache: seq<Slot>, xid: uint32, t: nat) {
    t < |cache| && cache[t].xid == xid && forall j :: 0 <= j < t ==> cache[j].xid != xid
  }

  lemma TransactionIs(cache: seq<Slot>, xid: uint32)
    ensures forall t: nat :: TransactionAt(cache, xid, t) <==> t == FindXid(cache, xid) < |cache|
    ensures forall t: nat :: TransactionAt(cache, xid, t) ==> History(cache, xid) == cache[t].messages
  {
  }
}
