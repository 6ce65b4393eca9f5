/** What one lease sweep does, exactly: a loop over addresses equals a filter over records. */
module Sweep {
  import opened Words
  import opened Pools
  import opened Leases
  import opened Protocol
  import opened LeaseSafety

  /** Expired, with an address in [lo, hi). */
  predicate Due(l: Lease, lo: int, hi: int, now: uint32) {
    lo <= l.address < hi && l.expire <= now
  }

  /** The records that are not due, in order. */
  function Kept(f: seq<Lease>, lo: int, hi: int, now: uint32): seq<Lease> {
    if f == [] then []
    else (if Due(f[0], lo, hi, now) then [] else [f[0]]) + Kept(f[1..], lo, hi, now)
  }

  function DueAddresses(f: seq<Lease>, lo: int, hi: int, now: uint32): set<uint32> {
    set k | 0 <= k < |f| && Due(f[k], lo, hi, now) :: f[k].address
  }

  /** No record at address `lo` is due: the sweep may move on. */
  lemma {:induction false} KeptSkip(f: seq<Lease>, lo: int, hi: int, now: uint32)
    requires forall k :: 0 <= k < |f| && f[k].address == lo ==> f[k].expire > now
    ensures Kept(f, lo + 1, hi, now) == Kept(f, lo, hi, now)
    ensures DueAddresses(f, lo + 1, hi, now) == DueAddresses(f, lo, hi, now)
  {
    if f != [] {
      KeptSkip(f[1..], lo, hi, now);
    }
  }

  lemma KeptCons(l: Lease, f: seq<Lease>, lo: int, hi: int, now: uint32)
    ensures Kept([l] + f, lo, hi, now) == (if Due(l, lo, hi, now) then [] else [l]) + Kept(f, lo, hi, now)
  {
    assert ([l] + f)[1..] == f;
  }

  lemma DropCons<T>(x: T, s: seq<T>, i: nat)
    requires i < |s|
    ensures ([x] + s)[..i + 1] + ([x] + s)[i + 2..] == [x] + (s[..i] + s[i + 1..])
  {
  }

  lemma FindCons(l: Lease, f: seq<Lease>, a: uint32)
    requires l.address != a
    ensures FindLease([l] + f, a) == 1 + FindLease(f, a)
  {
    assert ([l] + f)[1..] == f;
  }

  lemma RemoveCons(l: Lease, f: seq<Lease>, a: uint32)
    requires l.address != a && HasLease(f, a)
    ensures RemoveLease([l] + f, a) == [l] + RemoveLease(f, a)
  {
    var g, i := [l] + f, FindLease(f, a);
    assert RemoveLease(g, a) == g[..i + 1] + g[i + 2..] by {
      FindCons(l, f, a);
    }
    DropCons(l, f, i);
  }

  lemma UniqueTail(f: seq<Lease>)
    requires Unique(f) && f != []
    ensures Unique(f[1..])
  {
  }

  /** The only record at address `lo` is due: removing it first changes nothing. */
  lemma {:induction false} KeptRemove(f: seq<Lease>, lo: uint32, hi: int, now: uint32)
    requires Unique(f) && HasLease(f, lo) && f[FindLease(f, lo)].expire <= now && lo < hi
    ensures Kept(RemoveLease(f, lo), lo + 1, hi, now) == Kept(f, lo, hi, now)
  {
    var l, rest := f[0], f[1..];
    assert f == [l] + rest;
    if l.address == lo {
      assert RemoveLease(f, lo) == rest;
      KeptSkip(rest, lo, hi, now);
    } else {
      FindCons(l, rest, lo);
      RemoveCons(l, rest, lo);
      UniqueTail(f);
      KeptRemove(rest, lo, hi, now);
      KeptCons(l, RemoveLease(rest, lo), lo + 1, hi, now);
      KeptCons(l, rest, lo, hi, now);
    }
  }

  lemma DueRemove(f: seq<Lease>, lo: uint32, hi: int, now: uint32)
    requires Unique(f) && HasLease(f, lo) && f[FindLease(f, lo)].expire <= now && lo < hi
    ensures DueAddresses(RemoveLease(f, lo), lo + 1, hi, now) + {lo} == DueAddresses(f, lo, hi, now)
  {
    var i, g := FindLease(f, lo), RemoveLease(f, lo);
    assert forall k :: 0 <= k < |g| ==> g[k] == f[if k < i then k else k + 1];
    forall k | 0 <= k < |f| && Due(f[k], lo, hi, now)
      ensures f[k].address in DueAddresses(g, lo + 1, hi, now) + {lo}
    {
      assert k == i || f[k] == g[if k < i then k else k - 1];
    }
  }

  // ---------------------------------------------------------------- one pool

  /** Pool `i` after sweeping [lo, hi): the filtered file, the bits of the dropped records cleared. */
  ghost predicate Swept(st: Store, st': Store, i: nat, lo: int, hi: int, now: uint32)
    requires i < |st.pools| == |st'.pools|
  {
    var f := File(st.files, st.pools[i].name);
    && File(st'.files, st.pools[i].name) == Kept(f, lo, hi, now)
    && st'.pools[i] == st.pools[i].(used := st.pools[i].used - DueAddresses(f, lo, hi, now))
  }

  /** What one pool's file lost, which is also what its bitmap lost. */
  ghost predicate Shrinks(st: Store, st': Store, i: nat, n: int)
    requires i < |st.pools| == |st'.pools|
  {
    var name := st.pools[i].name;
    && |File(st'.files, name)| == |File(st.files, name)| - n
    && |st'.pools[i].used| == |st.pools[i].used| - n
  }

  /** What the sweep has to do from `a` on equals what it has to do from `a + 1` on after visiting `a`. */
  ghost predicate Advances(st: Store, st1: Store, i: nat, a: int, hi: int, now: uint32)
    requires i < |st.pools| == |st1.pools|
  {
    var f, f1 := File(st.files, st.pools[i].name), File(st1.files, st.pools[i].name);
    && Kept(f1, a + 1, hi, now) == Kept(f, a, hi, now)
    && st1.pools[i].used - DueAddresses(f1, a + 1, hi, now) == st.pools[i].used - DueAddresses(f, a, hi, now)
  }

  lemma DropAdvances(st: Store, i: nat, a: uint32, hi: int, now: uint32)
    requires ValidPools(st.pools) && LeaseSafe(st) && i < |st.pools| && st.pools[i].Contains(a) && a < hi
    requires SweepAddress(st, st.pools[i].name, a, now).1
    ensures var st' := Drop(st, st.pools[i].name, a);
            Touches(st, st', i) && Advances(st, st', i, a, hi, now) && Shrinks(st, st', i, 1)
  {
    var name := st.pools[i].name;
    var f := File(st.files, name);
    OnlyPool(st.pools, i, a);
    assert FileSafe(st.pools[i], f) && a in st.pools[i].used;
    PutTouches(st, i, st.pools[i].used - {a}, RemoveLease(f, a));
    assert Drop(st, name, a) == Put(st, i, st.pools[i].used - {a}, RemoveLease(f, a));
    KeptRemove(f, a, hi, now);
    DueRemove(f, a, hi, now);
  }

  lemma SkipAdvances(st: Store, i: nat, a: uint32, hi: int, now: uint32)
    requires ValidPools(st.pools) && LeaseSafe(st) && i < |st.pools| && st.pools[i].Contains(a)
    requires !SweepAddress(st, st.pools[i].name, a, now).1
    ensures Touches(st, st, i) && Advances(st, st, i, a, hi, now)
  {
    var f := File(st.files, st.pools[i].name);
    OnlyPool(st.pools, i, a);
    assert FileSafe(st.pools[i], f) && st.pools[i].Valid();
    KeptSkip(f, a, hi, now);
  }

  lemma SweepAddressExact(st: Store, i: nat, a: uint32, hi: int, now: uint32)
    requires ValidPools(st.pools) && LeaseSafe(st) && i < |st.pools| && st.pools[i].Contains(a) && a < hi
    ensures var (st', freed) := SweepAddress(st, st.pools[i].name, a, now);
            Touches(st, st', i) && Advances(st, st', i, a, hi, now) && Shrinks(st, st', i, if freed then 1 else 0)
  {
    if SweepAddress(st, st.pools[i].name, a, now).1 {
      DropAdvances(st, i, a, hi, now);
    } else {
      SkipAdvances(st, i, a, hi, now);
    }
  }

  /** A visit leaves a safe store over the same ranges. */
  lemma SweepAddressSafe(st: Store, i: nat, a: uint32, now: uint32)
    requires ValidPools(st.pools) && LeaseSafe(st) && i < |st.pools| && st.pools[i].Contains(a)
    ensures var st' := SweepAddress(st, st.pools[i].name, a, now).0;
            && ValidPools(st'.pools) && LeaseSafe(st') && |st'.pools| == |st.pools|
            && st'.pools[i] == st.pools[i].(used := st'.pools[i].used)
  {
    SweepAddressTrims(st, i, a, now);
  }

  /** One address more in front of a swept range. */
  lemma SweptNext(st: Store, st1: Store, st': Store, i: nat, a: int, hi: int, now: uint32)
    requires Touches(st, st1, i) && Touches(st1, st', i) && Swept(st1, st', i, a + 1, hi, now)
    requires Advances(st, st1, i, a, hi, now)
    ensures Touches(st, st', i) && Swept(st, st', i, a, hi, now)
  {
    TouchesTwice(st, st1, st', i);
    assert st1.pools[i] == st.pools[i].(used := st1.pools[i].used);
  }

  /** check_lease over [a, end) of pool `i` is the filter. */
  ghost predicate RangeExact(st: Store, i: nat, a: nat, end: uint32, now: uint32, n: nat)
    requires i < |st.pools|
  {
    var (st', n') := SweepRange(st, st.pools[i].name, a, end, now, n);
    Touches(st, st', i) && Swept(st, st', i, a, end, now) && Shrinks(st, st', i, n' - n)
  }

  lemma RangeExactBase(st: Store, i: nat, end: uint32, now: uint32, n: nat)
    requires ValidPools(st.pools) && i < |st.pools|
    ensures RangeExact(st, i, end, end, now, n)
  {
    KeptAll(File(st.files, st.pools[i].name), end, end, now);
    assert st.pools[i].Valid();
  }

  lemma RangeExactStep(st: Store, i: nat, a: uint32, end: uint32, now: uint32, n: nat)
    requires ValidPools(st.pools) && LeaseSafe(st) && i < |st.pools| && st.pools[i].Contains(a) && a < end
    requires var (st1, freed) := SweepAddress(st, st.pools[i].name, a, now);
             |st1.pools| == |st.pools| && RangeExact(st1, i, a + 1, end, now, if freed then n + 1 else n)
    ensures RangeExact(st, i, a, end, now, n)
  {
    var name := st.pools[i].name;
    var (st1, freed) := SweepAddress(st, name, a, now);
    SweepAddressExact(st, i, a, end, now);
    assert st1.pools[i].name == name;
    var (st', n') := SweepRange(st1, name, a + 1, end, now, if freed then n + 1 else n);
    assert SweepRange(st, name, a, end, now, n) == (st', n');
    SweptNext(st, st1, st', i, a, end, now);
  }

  /** The store after visiting `a`, from which the rest of the range is to be swept. */
  lemma Visit(st: Store, i: nat, a: uint32, end: uint32, now: uint32, n: nat) returns (st1: Store, n1: nat)
    requires ValidPools(st.pools) && LeaseSafe(st) && i < |st.pools| && st.pools[i].start <= a < end <= st.pools[i].end
    ensures ValidPools(st1.pools) && LeaseSafe(st1) && |st1.pools| == |st.pools|
    ensures st1.pools[i].start == st.pools[i].start && st1.pools[i].end == st.pools[i].end
    ensures RangeExact(st1, i, a + 1, end, now, n1) ==> RangeExact(st, i, a, end, now, n)
  {
    var r := SweepAddress(st, st.pools[i].name, a, now);
    st1, n1 := r.0, if r.1 then n + 1 else n;
    SweepAddressSafe(st, i, a, now);
    if RangeExact(st1, i, a + 1, end, now, n1) {
      RangeExactStep(st, i, a, end, now, n);
    }
  }

  lemma {:induction false} SweepRangeExact(st: Store, i: nat, a: nat, end: uint32, now: uint32, n: nat)
    requires ValidPools(st.pools) && LeaseSafe(st) && i < |st.pools|
    requires st.pools[i].start <= a <= end <= st.pools[i].end
    ensures RangeExact(st, i, a, end, now, n)
    decreases end - a
  {
    if a == end {
      RangeExactBase(st, i, end, now, n);
    } else {
      var st1, n1 := Visit(st, i, a, end, now, n);
      SweepRangeExact(st1, i, a + 1, end, now, n1);
    }
  }

  lemma TouchesTwice(st: Store, st1: Store, st2: Store, i: nat)
    requires Touches(st, st1, i) && Touches(st1, st2, i)
    ensures Touches(st, st2, i)
  {
    forall j | 0 <= j < |st.pools| ensures st2.pools[j] == st.pools[j].(used := st2.pools[j].used) {
      assert st1.pools[j] == st.pools[j].(used := st1.pools[j].used);
    }
  }

  lemma KeptAll(f: seq<Lease>, lo: int, hi: int, now: uint32)
    requires hi <= lo
    ensures Kept(f, lo, hi, now) == f && DueAddresses(f, lo, hi, now) == {}
  {
    if f != [] {
      KeptAll(f[1..], lo, hi, now);
    }
  }

  // ---------------------------------------------------------------- all pools

  /** Number of records in the files of the pools from `i` on. */
  function RecordTotal(st: Store, i: nat): int
    decreases |st.pools| - i
  {
    if i >= |st.pools| then 0 else |File(st.files, st.pools[i].name)| + RecordTotal(st, i + 1)
  }

  /** Number of free addresses in the pools from `i` on. */
  function FreeTotal(st: Store, i: nat): int
    decreases |st.pools| - i
  {
    if i >= |st.pools| then 0
    else (st.pools[i].end - st.pools[i].start + 1 - |st.pools[i].used|) + FreeTotal(st, i + 1)
  }

  lemma {:induction false} TotalsAfter(st: Store, st': Store, i: nat, n: int, j: nat)
    requires Touches(st, st', i) && Shrinks(st, st', i, n)
    ensures RecordTotal(st', j) == RecordTotal(st, j) - (if j <= i then n else 0)
    ensures FreeTotal(st', j) == FreeTotal(st, j) + (if j <= i then n else 0)
    decreases |st.pools| - j
  {
    if j < |st.pools| {
      assert st'.pools[j] == st.pools[j].(used := st'.pools[j].used);
      TotalsAfter(st, st', i, n, j + 1);
    }
  }

  /** Pools before `i` are as they were; pools from `i` on are swept over [start, end). */
  ghost predicate SweptFrom(st: Store, st': Store, i: nat, now: uint32) {
    && |st'.pools| == |st.pools|
    && (forall j :: 0 <= j < |st.pools| && j < i ==>
          st'.pools[j] == st.pools[j] && File(st'.files, st.pools[j].name) == File(st.files, st.pools[j].name))
    && (forall j :: i <= j < |st.pools| ==> Swept(st, st', j, st.pools[j].start, st.pools[j].end, now))
  }

  lemma SweptOneMore(st: Store, st1: Store, st': Store, i: nat, now: uint32)
    requires i < |st.pools| && Touches(st, st1, i) && Swept(st, st1, i, st.pools[i].start, st.pools[i].end, now)
    requires SweptFrom(st1, st', i + 1, now)
    ensures SweptFrom(st, st', i, now)
  {
    forall j | i <= j < |st.pools| ensures Swept(st, st', j, st.pools[j].start, st.pools[j].end, now) {
      assert st1.pools[j] == st.pools[j].(used := st1.pools[j].used);
      if i < j {
        assert Swept(st1, st', j, st1.pools[j].start, st1.pools[j].end, now);
      }
    }
  }

  lemma {:induction false} SweepPoolsExact(st: Store, i: nat, now: uint32, n: nat, all: seq<Pool>)
    requires ValidPools(st.pools) && LeaseSafe(st) && SameShape(all, st.pools) && i <= |all|
    ensures var (st', n') := SweepPools(st, all[i..], now, n);
            && SweptFrom(st, st', i, now)
            && n' - n == RecordTotal(st, 0) - RecordTotal(st', 0) == FreeTotal(st', 0) - FreeTotal(st, 0)
    decreases |all| - i
  {
    if i < |all| {
      var p := all[i];
      assert st.pools[i] == p.(used := st.pools[i].used) && st.pools[i].Valid();
      var (st1, n1) := SweepRange(st, p.name, p.start, p.end, now, n);
      var (st', n') := SweepPools(st1, all[i + 1..], now, n1);
      assert all[i..][0] == p && all[i..][1..] == all[i + 1..];
      assert SweepPools(st, all[i..], now, n) == (st', n');
      SweepRangeExact(st, i, p.start, p.end, now, n);
      SweepRangeTrims(st, i, p.start, p.end, now, n);
      TotalsAfter(st, st1, i, n1 - n, 0);
      ShapeTwice(all, st.pools, st1.pools);
      SweepPoolsExact(st1, i + 1, now, n1, all);
      SweptOneMore(st, st1, st', i, now);
    }
  }

  lemma ShapeTwice(p: seq<Pool>, q: seq<Pool>, r: seq<Pool>)
    requires SameShape(p, q) && SameShape(q, r)
    ensures SameShape(p, r)
  {
    forall i | 0 <= i < |p| ensures r[i] == p[i].(used := r[i].used) {
      assert q[i] == p[i].(used := q[i].used);
    }
  }

  /**
   A sweep of a safe store drops exactly the expired records with address in [start, end) of
   their pool and clears exactly their bits, keeps the order of the others, and returns the
   number of dropped records, which is the growth of the free count.
   */
  lemma SweepIsFilter(st: Store, now: uint32)
    requires ValidPools(st.pools) && LeaseSafe(st)
    ensures var (st', n) := SweepLeases(st, now);
            && SweptFrom(st, st', 0, now)
            && n == RecordTotal(st, 0) - RecordTotal(st', 0) == FreeTotal(st', 0) - FreeTotal(st, 0)
  {
    assert st.pools[0..] == st.pools;
    SweepPoolsExact(st, 0, now, 0, st.pools);
  }

  lemma {:induction false} KeptUnlessDue(f: seq<Lease>, lo: int, hi: int, now: uint32, k: nat)
    requires k < |f| && !Due(f[k], lo, hi, now)
    ensures f[k] in Kept(f, lo, hi, now)
  {
    if k > 0 {
      KeptUnlessDue(f[1..], lo, hi, now, k - 1);
    }
  }

  /** No sweep, however late, drops a lease on the last address of its pool. */
  lemma LastAddressStays(st: Store, i: nat, k: nat, now: uint32)
    requires ValidPools(st.pools) && LeaseSafe(st) && i < |st.pools|
    requires var f := File(st.files, st.pools[i].name); k < |f| && f[k].address == st.pools[i].end
    ensures var f, st' := File(st.files, st.pools[i].name), SweepLeases(st, now).0;
            f[k] in File(st'.files, st.pools[i].name)
  {
    SweepIsFilter(st, now);
    var p, st' := st.pools[i], SweepLeases(st, now).0;
    assert Swept(st, st', i, p.start, p.end, now);
    KeptUnlessDue(File(st.files, p.name), p.start, p.end, now, k);
  }
}
