/** Lease records and lease files, as values. */
module Leases {
  import opened Words

  datatype Lease = Lease(address: uint32, subnet: uint32, start: uint32, expire: uint32,
                         xid: uint32, flags: byte, mac: Mac)

  /** One sequence of records per pool name; a file that does not exist reads as empty. */
  type Files = map<string, seq<Lease>>

  function File(files: Files, name: string): seq<Lease> {
    if name in files then files[name] else []
  }

  /** Position of the first record of an address, or |f|. */
  function FindLease(f: seq<Lease>, a: uint32): (i: nat)
    ensures i <= |f|
    ensures i < |f| ==> f[i].address == a
    ensures forall j :: 0 <= j < i ==> f[j].address != a
  {
    if f == [] || f[0].address == a then 0 else 1 + FindLease(f[1..], a)
  }

  predicate HasLease(f: seq<Lease>, a: uint32) {
    FindLease(f, a) < |f|
  }

  /** lease_retrieve: the first record of the address. */
  function Lookup(f: seq<Lease>, a: uint32): (r: Option<Lease>)
    ensures r.Some? <==> HasLease(f, a)
    ensures r.Some? ==> r.value.address == a
  {
    var i := FindLease(f, a);
    if i < |f| then Some(f[i]) else None
  }

  /** lease_remove: drops the first record of the address, if any. */
  function RemoveLease(f: seq<Lease>, a: uint32): seq<Lease> {
    var i := FindLease(f, a);
    if i < |f| then f[..i] + f[i + 1..] else f
  }

  ghost predicate Unique(f: seq<Lease>) {
    forall k, l :: 0 <= k < l < |f| ==> f[k].address != f[l].address
  }

  /** Where the elements of a sequence go when one is taken out. */
  lemma TakenOut<T>(s: seq<T>, i: nat)
    requires i < |s|
    ensures var r := s[..i] + s[i + 1..];
            && |r| == |s| - 1
            && (forall k :: 0 <= k < |r| ==> r[k] == if k < i then s[k] else s[k + 1])
            && (forall k :: 0 <= k < |s| && k != i ==> r[if k < i then k else k - 1] == s[k])
  {
  }

  lemma RemoveFinds(f: seq<Lease>, a: uint32, b: uint32)
    requires Unique(f)
    ensures HasLease(RemoveLease(f, a), b) <==> HasLease(f, b) && b != a
  {
    var i, k, g := FindLease(f, a), FindLease(f, b), RemoveLease(f, a);
    if i < |f| {
      TakenOut(f, i);
      if k < |f| && b != a {
        assert g[if k < i then k else k - 1].address == b;
      }
    }
  }

  lemma RemoveUnique(f: seq<Lease>, a: uint32)
    requires Unique(f)
    ensures Unique(RemoveLease(f, a))
    ensures forall k :: 0 <= k < |RemoveLease(f, a)| ==> RemoveLease(f, a)[k] in f && RemoveLease(f, a)[k].address != a
  {
    var i := FindLease(f, a);
    if i < |f| {
      TakenOut(f, i);
    }
  }

  lemma RemoveEffect(f: seq<Lease>, a: uint32)
    requires Unique(f)
    ensures Unique(RemoveLease(f, a))
    ensures forall b :: HasLease(RemoveLease(f, a), b) <==> HasLease(f, b) && b != a
    ensures forall k :: 0 <= k < |RemoveLease(f, a)| ==> RemoveLease(f, a)[k] in f && RemoveLease(f, a)[k].address != a
  {
    RemoveUnique(f, a);
    forall b ensures HasLease(RemoveLease(f, a), b) <==> HasLease(f, b) && b != a {
      RemoveFinds(f, a, b);
    }
  }

  lemma AppendEffect(f: seq<Lease>, l: Lease)
    ensures forall b :: HasLease(f + [l], b) <==> HasLease(f, b) || b == l.address
    ensures Unique(f + [l]) <==> Unique(f) && !HasLease(f, l.address)
  {
    var g := f + [l];
    assert forall k :: 0 <= k < |f| ==> g[k] == f[k];
    assert g[|f|] == l;
  }
}
