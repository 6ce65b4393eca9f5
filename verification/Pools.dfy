/** Address pools and the allocator's pool list, as values. */
module Pools {
  import opened Words
  import opened DhcpOptions

  datatype Pool = Pool(name: string, start: uint32, end: uint32, mask: uint32,
                       options: seq<DhcpOption>, used: set<uint32>)
  {
    predicate Contains(a: uint32) {
      start <= a <= end
    }

    /** What address_pool_new guarantees and allocation keeps. */
    ghost predicate Valid() {
      && 1 <= start < end <= TWO32 - 2
      && forall a :: a in used ==> Contains(a)
    }
  }

  /** The allocator's assumption on its configuration: unique names, disjoint ranges. */
  ghost predicate ValidPools(pools: seq<Pool>) {
    && (forall i :: 0 <= i < |pools| ==> pools[i].Valid())
    && (forall i, j :: 0 <= i < j < |pools| ==> pools[i].name != pools[j].name)
    && Disjoint(pools)
  }

  ghost predicate Disjoint(pools: seq<Pool>) {
    forall i, j :: 0 <= i < j < |pools| ==> pools[i].end < pools[j].start || pools[j].end < pools[i].start
  }

  /** allocator_get_pool_by_address: index of the first pool holding `a`, or |pools|. */
  function FindPool(pools: seq<Pool>, a: uint32): (i: nat)
    ensures i <= |pools|
    ensures i < |pools| ==> pools[i].Contains(a)
    ensures forall j :: 0 <= j < i ==> !pools[j].Contains(a)
  {
    if pools == [] then 0
    else if pools[0].Contains(a) then 0
    else 1 + FindPool(pools[1..], a)
  }

  predicate Allocated(pools: seq<Pool>, a: uint32) {
    var i := FindPool(pools, a);
    i < |pools| && a in pools[i].used
  }

  /** allocator_is_address_available: an address outside every pool is not available. */
  predicate Available(pools: seq<Pool>, a: uint32) {
    var i := FindPool(pools, a);
    i < |pools| && a !in pools[i].used
  }

  /** Sets the bit of an available address. */
  function Mark(pools: seq<Pool>, a: uint32): seq<Pool> {
    var i := FindPool(pools, a);
    if i < |pools| then pools[i := pools[i].(used := pools[i].used + {a})] else pools
  }

  /** allocator_release_address: clears the bit if a pool holds the address and it is set. */
  function Release(pools: seq<Pool>, a: uint32): seq<Pool> {
    var i := FindPool(pools, a);
    if i < |pools| then pools[i := pools[i].(used := pools[i].used - {a})] else pools
  }

  /** allocator_request_this_address: the marked pools, and the address or 0. */
  function RequestThis(pools: seq<Pool>, a: uint32): (seq<Pool>, uint32) {
    if Available(pools, a) then (Mark(pools, a), a) else (pools, 0)
  }

  /** Lowest free address of a pool at or above `a`; 0 if there is none. */
  function LowestFree(p: Pool, a: nat): (r: uint32)
    ensures r != 0 ==> a <= r <= p.end && r !in p.used
    ensures a >= 1 ==> forall b :: a <= b < (if r == 0 then p.end + 1 else r) ==> b in p.used
    decreases p.end + 1 - a
  {
    if a > p.end then 0
    else if a !in p.used then a
    else LowestFree(p, a + 1)
  }

  /** The address allocator_assign_first_from_pool picks; 0 if the pool is full. */
  function FirstFree(p: Pool): uint32 {
    LowestFree(p, p.start)
  }

  /** Index of the first pool with a free address, or |pools|. */
  function FirstOpen(pools: seq<Pool>): (i: nat)
    ensures i <= |pools|
    ensures i < |pools| ==> FirstFree(pools[i]) != 0
    ensures forall j :: 0 <= j < i ==> FirstFree(pools[j]) == 0
  {
    if pools == [] || FirstFree(pools[0]) != 0 then 0 else 1 + FirstOpen(pools[1..])
  }

  /** allocator_request_any_address: lowest free address of the first pool that has one. */
  function RequestAny(pools: seq<Pool>): (seq<Pool>, uint32) {
    var i := FirstOpen(pools);
    if i == |pools| then (pools, 0)
    else
      var a := FirstFree(pools[i]);
      (pools[i := pools[i].(used := pools[i].used + {a})], a)
  }

  /** The pools with no address marked. */
  function EmptyPools(pools: seq<Pool>): (r: seq<Pool>)
    ensures |r| == |pools| && forall i :: 0 <= i < |r| ==> r[i] == pools[i].(used := {})
  {
    seq(|pools|, i requires 0 <= i < |pools| => pools[i].(used := {}))
  }

  /** Same configuration; only the used sets may differ. */
  ghost predicate SameShape(p: seq<Pool>, q: seq<Pool>) {
    && |p| == |q|
    && forall i :: 0 <= i < |p| ==> q[i] == p[i].(used := q[i].used)
  }

  lemma ShapeFind(p: seq<Pool>, q: seq<Pool>, a: uint32)
    requires SameShape(p, q)
    ensures FindPool(p, a) == FindPool(q, a)
  {
    assert forall k :: 0 <= k < |p| ==> (p[k].Contains(a) <==> q[k].Contains(a));
  }

  /** Disjoint ranges: the first pool holding an address is the only one. */
  lemma OnlyPool(pools: seq<Pool>, i: nat, a: uint32)
    requires ValidPools(pools) && i < |pools| && pools[i].Contains(a)
    ensures FindPool(pools, a) == i
  {
  }

  /** Changing one pool's used set within its range. */
  lemma ReplaceUsed(pools: seq<Pool>, i: nat, used: set<uint32>)
    requires ValidPools(pools) && i < |pools|
    requires forall a :: a in used ==> pools[i].Contains(a)
    ensures var q := pools[i := pools[i].(used := used)];
            && ValidPools(q) && SameShape(pools, q)
            && forall b :: Allocated(q, b) <==> if FindPool(pools, b) == i then b in used else Allocated(pools, b)
  {
    var q := pools[i := pools[i].(used := used)];
    assert SameShape(pools, q);
    forall b ensures Allocated(q, b) <==> if FindPool(pools, b) == i then b in used else Allocated(pools, b) {
      ShapeFind(pools, q, b);
    }
  }

  lemma ReleaseEffect(pools: seq<Pool>, a: uint32)
    requires ValidPools(pools)
    ensures ValidPools(Release(pools, a)) && SameShape(pools, Release(pools, a))
    ensures forall b :: Allocated(Release(pools, a), b) <==> Allocated(pools, b) && b != a
  {
    var i := FindPool(pools, a);
    if i < |pools| {
      ReplaceUsed(pools, i, pools[i].used - {a});
    }
  }

  /**
   First-fit over all pools is: nothing is free and nothing changes, or mark the lowest
   free address of the first pool that is not full.
   */
  lemma RequestAnyIsMark(pools: seq<Pool>)
    requires ValidPools(pools)
    ensures var (q, a) := RequestAny(pools);
            if a == 0 then q == pools && forall b :: !Available(pools, b)
            else && Available(pools, a)
                 && q == Mark(pools, a)
                 && forall b :: Available(pools, b) ==>
                      FindPool(pools, a) < FindPool(pools, b) || (FindPool(pools, a) == FindPool(pools, b) && a <= b)
  {
    var i := FirstOpen(pools);
    forall b | Available(pools, b) ensures i <= FindPool(pools, b) {
      assert FirstFree(pools[FindPool(pools, b)]) != 0;
    }
    if i < |pools| {
      OnlyPool(pools, i, FirstFree(pools[i]));
    }
  }

  // ---------------------------------------------------------------- overlapping ranges

  /** The addresses from `lo` to `hi`. */
  function Range(lo: nat, hi: uint32): (r: set<uint32>)
    ensures forall a: uint32 :: a in r <==> lo <= a <= hi
    decreases hi + 1 - lo
  {
    if lo > hi then {} else {lo} + Range(lo + 1, hi)
  }

  ghost predicate MarkedSomewhere(pools: seq<Pool>, a: uint32) {
    exists j :: 0 <= j < |pools| && a in pools[j].used
  }

  ghost predicate AllValid(pools: seq<Pool>) {
    forall i :: 0 <= i < |pools| ==> pools[i].Valid()
  }

  /** These pools, with whatever addresses marked, never hand out an address that is marked in some pool. */
  ghost predicate NeverTwice(pools: seq<Pool>) {
    forall q: seq<Pool> :: SameShape(pools, q) && AllValid(q) && RequestAny(q).1 != 0 ==> !MarkedSomewhere(q, RequestAny(q).1)
  }

  /** Pools before `i` full, `x` the lowest free address of pool `i`, and `x` marked in pool `j`. */
  function Clash(pools: seq<Pool>, i: nat, j: nat, x: uint32): (q: seq<Pool>)
    ensures |q| == |pools|
  {
    seq(|pools|, k requires 0 <= k < |pools| =>
      pools[k].(used := if k < i then Range(pools[k].start, pools[k].end)
                        else if k == i then (if x == 0 then {} else Range(pools[k].start, x - 1))
                        else if k == j then {x} else {}))
  }

  lemma ClashHandsOut(pools: seq<Pool>, i: nat, j: nat, x: uint32)
    requires AllValid(pools) && i < j < |pools| && pools[i].Contains(x) && pools[j].Contains(x)
    ensures var q := Clash(pools, i, j, x);
            SameShape(pools, q) && AllValid(q) && RequestAny(q).1 == x && MarkedSomewhere(q, x) && x != 0
  {
    var q := Clash(pools, i, j, x);
    assert pools[i].Valid();
    assert forall k :: 0 <= k < i ==> FirstFree(q[k]) == 0 by {
      forall k | 0 <= k < i ensures FirstFree(q[k]) == 0 {
        assert pools[k].Valid();
      }
    }
    assert FirstFree(q[i]) == x;
    assert FirstOpen(q) == i;
    assert x in q[j].used;
  }

  lemma DisjointIsFresh(pools: seq<Pool>, q: seq<Pool>)
    requires Disjoint(pools) && SameShape(pools, q) && AllValid(q) && RequestAny(q).1 != 0
    ensures !MarkedSomewhere(q, RequestAny(q).1)
  {
    var i, a := FirstOpen(q), RequestAny(q).1;
    forall j | 0 <= j < |q| ensures a !in q[j].used {
      assert q[j].Valid() && q[i].Valid() && q[i].Contains(a);
    }
  }

  /**
   The allocator compares names only when a pool is added. First fit never hands out an address that
   is marked in some pool, whatever is marked, if and only if the ranges are disjoint.
   */
  lemma NeverTwiceIffDisjoint(pools: seq<Pool>)
    requires AllValid(pools)
    ensures NeverTwice(pools) <==> Disjoint(pools)
  {
    if Disjoint(pools) {
      forall q: seq<Pool> | SameShape(pools, q) && AllValid(q) && RequestAny(q).1 != 0
        ensures !MarkedSomewhere(q, RequestAny(q).1)
      {
        DisjointIsFresh(pools, q);
      }
    } else {
      var i, j :| 0 <= i < j < |pools| && !(pools[i].end < pools[j].start || pools[j].end < pools[i].start);
      ClashHandsOut(pools, i, j, if pools[i].start < pools[j].start then pools[j].start else pools[i].start);
    }
  }

  /** Two overlapping pools hand out address 11 twice in a row. */
  lemma OverlapExample()
    ensures var pools := [Pool("a", 10, 11, 0, [], {10}), Pool("b", 11, 12, 0, [], {})];
            AllValid(pools) && RequestAny(pools).1 == 11 && RequestAny(RequestAny(pools).0).1 == 11
  {
    var pools := [Pool("a", 10, 11, 0, [], {10}), Pool("b", 11, 12, 0, [], {})];
    assert FirstFree(pools[0]) == 11 && FirstOpen(pools) == 0;
    var q := RequestAny(pools).0;
    assert q[0].used == {10, 11} && q[1] == pools[1];
    assert LowestFree(q[0], 12) == 0 && LowestFree(q[0], 11) == 0 && FirstFree(q[0]) == 0;
    assert FirstFree(q[1]) == 11 && FirstOpen(q) == 1;
  }
}
