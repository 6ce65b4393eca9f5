/** The allocator object: a list of pools searched in order. */
module Allocators {
  import opened Words
  import opened DhcpOptions
  import opened Pools
  import opened AddressPools

  datatype Status = Ok | Error | AddressInUse | AddressNotInUse | CannotCreateLease

  /** The pools and their bitmaps. */
  ghost function Objects(pools: seq<AddressPool>): set<object> {
    (set p: AddressPool | p in pools :: p as object) + (set p: AddressPool | p in pools :: p.bitmap as object)
  }

  lemma NothingToRelease(pools: seq<Pool>, a: uint32)
    requires Available(pools, a)
    ensures Release(pools, a) == pools
  {
    var i := FindPool(pools, a);
    assert pools[i].used - {a} == pools[i].used;
  }

  lemma ObjectsHold(pools: seq<AddressPool>)
    ensures forall i :: 0 <= i < |pools| ==> pools[i] in Objects(pools) && pools[i].bitmap in Objects(pools)
  {
    forall i | 0 <= i < |pools| ensures pools[i] in Objects(pools) && pools[i].bitmap in Objects(pools) {
      assert pools[i] in pools;
    }
  }

  class Allocator {
    const defaults: seq<DhcpOption>
    const pools: seq<AddressPool>
    ghost const Repr: set<object>
    /** The pools as values. */
    ghost var model: seq<Pool>

    ghost predicate Owns(p: AddressPool)
      reads this, Repr
    {
      p in Repr && p.bitmap in Repr && p.Valid()
    }

    ghost predicate Valid()
      reads this, Repr
      ensures Valid() ==> this in Repr
    {
      && this in Repr && |model| == |pools|
      && (forall i :: 0 <= i < |pools| ==> Owns(pools[i]) && model[i] == pools[i].View())
      && (forall i, j :: 0 <= i < j < |pools| ==> pools[i] != pools[j] && pools[i].bitmap != pools[j].bitmap)
      && (forall i, j :: 0 <= i < j < |pools| ==> pools[i].name != pools[j].name)
    }

    /** An allocator over pools that have been added one by one, which checks their names only. */
    constructor (defaults: seq<DhcpOption>, pools: seq<AddressPool>)
      requires forall i :: 0 <= i < |pools| ==> pools[i].Valid()
      requires forall i, j :: 0 <= i < j < |pools| ==> pools[i] != pools[j] && pools[i].bitmap != pools[j].bitmap
      requires forall i, j :: 0 <= i < j < |pools| ==> pools[i].name != pools[j].name
      ensures Valid() && this.defaults == defaults && this.pools == pools
      ensures forall i :: 0 <= i < |pools| ==> model[i] == pools[i].View()
      ensures Repr == Objects(pools) + {this}
    {
      this.defaults, this.pools := defaults, pools;
      Repr := Objects(pools) + {this};
      new;
      ObjectsHold(pools);
      model := [];
      for i := 0 to |pools|
        invariant |model| == i && forall j :: 0 <= j < i ==> model[j] == pools[j].View()
      {
        model := model + [pools[i].View()];
      }
    }

    /** The i-th pool with every address free. */
    method BlankPool(i: nat) returns (p: AddressPool)
      requires Valid() && i < |pools|
      ensures p.Valid() && fresh(p) && fresh(p.bitmap) && p.View() == EmptyPools(model)[i]
    {
      p := new AddressPool.Blank(pools[i]);
    }

    method BlankPools() returns (ps: seq<AddressPool>)
      requires Valid()
      ensures |ps| == |pools|
      ensures forall i :: 0 <= i < |ps| ==> fresh(ps[i]) && fresh(ps[i].bitmap)
      ensures forall i :: 0 <= i < |ps| ==> ps[i].Valid() && ps[i].View() == EmptyPools(model)[i]
      ensures forall i, j :: 0 <= i < j < |ps| ==> ps[i] != ps[j] && ps[i].bitmap != ps[j].bitmap
    {
      ps := [];
      while |ps| < |pools|
        invariant |ps| <= |pools|
        invariant forall i :: 0 <= i < |ps| ==> fresh(ps[i]) && fresh(ps[i].bitmap)
        invariant forall i :: 0 <= i < |ps| ==> ps[i].Valid() && ps[i].View() == EmptyPools(model)[i]
        invariant forall i, j :: 0 <= i < j < |ps| ==> ps[i] != ps[j] && ps[i].bitmap != ps[j].bitmap
      {
        var p := BlankPool(|ps|);
        ps := ps + [p];
      }
    }

    /** A new allocator over the same configuration, with every address free. */
    method Blank() returns (a: Allocator)
      requires Valid()
      ensures a.Valid() && fresh(a.Repr) && a.defaults == defaults && a.model == EmptyPools(model)
    {
      var ps := BlankPools();
      assert forall i :: 0 <= i < |ps| ==> ps[i].name == EmptyPools(model)[i].name == pools[i].name;
      a := new Allocator(defaults, ps);
    }

    /** allocator_get_pool_by_address. */
    method Find(a: uint32) returns (i: nat)
      requires Valid()
      ensures i == FindPool(model, a)
    {
      i := 0;
      while i < |pools| && !pools[i].Contains(a)
        invariant i <= |pools|
        invariant forall j :: 0 <= j < i ==> !model[j].Contains(a)
      {
        i := i + 1;
      }
    }

    /** The pool of an address, by its configuration. */
    method Locate(a: uint32) returns (i: nat, name: string, mask: uint32, options: seq<DhcpOption>)
      requires Valid()
      ensures i == FindPool(model, a)
      ensures i < |model| ==> name == model[i].name && mask == model[i].mask && options == model[i].options
    {
      i := Find(a);
      name, mask, options := "", 0, [];
      if i < |pools| {
        name, mask, options := pools[i].name, pools[i].mask, pools[i].options;
      }
    }

    /** Name and range of the i-th pool. */
    method Describe(i: nat) returns (name: string, start: uint32, end: uint32)
      requires Valid() && i < |model|
      ensures name == model[i].name && start == model[i].start && end == model[i].end
    {
      name, start, end := pools[i].name, pools[i].start, pools[i].end;
    }

    /** allocator_is_address_available. */
    method IsAvailable(a: uint32) returns (r: bool)
      requires Valid()
      ensures r <==> Available(model, a)
    {
      var i := Find(a);
      if i == |pools| {
        return false;
      }
      var used := pools[i].Get(a);
      r := !used;
    }

    /** One bit of one pool changes; the rest of the allocator does not. */
    method SetBit(i: nat, a: uint32)
      requires Valid() && i < |pools| && model[i].Contains(a) && a !in model[i].used
      modifies Repr
      ensures Valid()
      ensures model == old(model)[i := old(model)[i].(used := old(model)[i].used + {a})]
    {
      pools[i].Set(a);
      Refresh(i);
    }

    method ClearBit(i: nat, a: uint32)
      requires Valid() && i < |pools| && model[i].Contains(a) && a in model[i].used
      modifies Repr
      ensures Valid()
      ensures model == old(model)[i := old(model)[i].(used := old(model)[i].used - {a})]
    {
      pools[i].Clear(a);
      Refresh(i);
    }

    /** Bring the model up to date after a change to the i-th pool alone. */
    ghost method Refresh(i: nat)
      requires i < |pools| == |model| && this in Repr
      requires forall j :: 0 <= j < |pools| ==> Owns(pools[j]) && (j != i ==> model[j] == pools[j].View())
      requires forall j, k :: 0 <= j < k < |pools| ==> pools[j] != pools[k] && pools[j].bitmap != pools[k].bitmap
      requires forall j, k :: 0 <= j < k < |pools| ==> pools[j].name != pools[k].name
      modifies `model
      ensures Valid() && model == old(model)[i := pools[i].View()]
    {
      model := model[i := pools[i].View()];
    }

    /** The scan of allocator_assign_first_from_pool. */
    method FirstClear(p: AddressPool) returns (a: uint32)
      requires p.Valid()
      ensures a == FirstFree(p.View())
    {
      var b: nat := p.start;
      while b <= p.end
        invariant p.start <= b <= p.end + 1
        invariant FirstFree(p.View()) == LowestFree(p.View(), b)
      {
        var used := p.Get(b);
        if !used {
          return b;
        }
        b := b + 1;
      }
      return 0;
    }

    /** The first pool whose counter is not 0: the pre-check skips no pool with a free address. */
    method FindOpen() returns (i: nat)
      requires Valid()
      ensures i == FirstOpen(model)
    {
      i := 0;
      while i < |pools|
        invariant i <= |pools|
        invariant forall j :: 0 <= j < i ==> FirstFree(model[j]) == 0
      {
        FullIff(model[i]);
        if pools[i].available != 0 {
          return;
        }
        i := i + 1;
      }
    }

    /**
     allocator_request_any_address. The status is Ok even if every pool is full: success shows
     in the output buffer.
     */
    method RequestAny(buffer: uint32) returns (s: Status, out: uint32)
      requires Valid()
      modifies Repr
      ensures Valid() && s == Ok
      ensures model == Pools.RequestAny(old(model)).0
      ensures out == if Pools.RequestAny(old(model)).1 == 0 then buffer else Pools.RequestAny(old(model)).1
    {
      s, out := Ok, buffer;
      var i := FindOpen();
      if i < |pools| {
        out := FirstClear(pools[i]);
        SetBit(i, out);
      }
    }

    /** allocator_request_this_address. */
    method RequestThis(a: uint32, buffer: uint32) returns (s: Status, out: uint32)
      requires Valid()
      modifies Repr
      ensures Valid()
      ensures s == if Available(old(model), a) then Ok
                   else if FindPool(old(model), a) == |old(model)| then CannotCreateLease else AddressInUse
      ensures model == Pools.RequestThis(old(model), a).0
      ensures out == (if s == Ok then a else buffer) && (s == Ok ==> a != 0)
    {
      out := buffer;
      var i := Find(a);
      if i == |pools| {
        return CannotCreateLease, out;
      }
      var used := pools[i].Get(a);
      if used {
        return AddressInUse, out;
      }
      SetBit(i, a);
      s, out := Ok, a;
    }

    /** Clears the bit of an address in its pool, if it is set. */
    method ReleaseIn(i: nat, a: uint32) returns (s: Status)
      requires Valid() && i == FindPool(model, a) < |model|
      modifies Repr
      ensures Valid()
      ensures s == if a in old(model)[i].used then Ok else AddressNotInUse
      ensures model == old(model)[i := old(model)[i].(used := old(model)[i].used - {a})]
    {
      s := AddressNotInUse;
      var used := pools[i].Get(a);
      if used {
        ClearBit(i, a);
        s := Ok;
      } else {
        NothingToRelease(model, a);
      }
    }

    /** allocator_release_address. */
    method ReleaseAddress(a: uint32) returns (s: Status)
      requires Valid()
      modifies Repr
      ensures Valid()
      ensures s == if Allocated(old(model), a) then Ok
                   else if FindPool(old(model), a) == |old(model)| then Error else AddressNotInUse
      ensures model == Release(old(model), a)
    {
      s := Error;
      var i := Find(a);
      if i < |pools| {
        s := ReleaseIn(i, a);
      }
    }
  }
}
