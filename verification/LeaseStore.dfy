/** Lease files as sequences of records, with addresses and hardware addresses as text. */
module LeaseStores {
  import opened Words
  import opened AddressText
  import opened Leases

  /** One element of the "leases" array of a lease file. */
  datatype Record = Record(address: string, subnet: string, start: uint32, expire: uint32,
                           xid: uint32, flags: byte, mac: string)

  /** lease_to_cjson. */
  function ToRecord(l: Lease): Record {
    Record(PrintIpv4(l.address), PrintIpv4(l.subnet), l.start, l.expire, l.xid, l.flags, PrintMac(l.mac))
  }

  /** json_to_lease; None if the hardware address does not parse. */
  function FromRecord(r: Record): Option<Lease> {
    var mac := ParseMac(r.mac);
    var address, subnet := ParseIpv4(r.address), ParseIpv4(r.subnet);
    if mac.None? || |mac.value| != 6 || address >= TWO32 || subnet >= TWO32 then None
    else Some(Lease(address, subnet, r.start, r.expire, r.xid, r.flags, mac.value))
  }

  lemma RecordRoundTrip(l: Lease)
    ensures FromRecord(ToRecord(l)) == Some(l)
  {
    ParsePrintIpv4(l.address);
    ParsePrintIpv4(l.subnet);
    ParsePrintMac(l.mac);
  }

  // ---------------------------------------------------------------- files of records

  function FindKey(keys: seq<nat>, a: nat): (i: nat)
    ensures i <= |keys|
    ensures i < |keys| ==> keys[i] == a
    ensures forall j :: 0 <= j < i ==> keys[j] != a
  {
    if keys == [] || keys[0] == a then 0 else 1 + FindKey(keys[1..], a)
  }

  /** The addresses that the texts of a file stand for. */
  function Keys(f: seq<Record>): (r: seq<nat>)
    ensures |r| == |f|
  {
    if f == [] then [] else [ParseIpv4(f[0].address)] + Keys(f[1..])
  }

  /** Position of the first record whose address text parses to `a`, or |f|. */
  function FindRecord(f: seq<Record>, a: uint32): (i: nat)
    ensures i <= |f|
  {
    FindKey(Keys(f), a)
  }

  /** lease_retrieve on one file. */
  function RetrieveRecord(f: seq<Record>, a: uint32): Option<Lease> {
    var i := FindRecord(f, a);
    if i < |f| then FromRecord(f[i]) else None
  }

  /** lease_remove on one file. */
  function RemoveRecord(f: seq<Record>, a: uint32): seq<Record> {
    var i := FindRecord(f, a);
    if i < |f| then f[..i] + f[i + 1..] else f
  }

  lemma {:induction false} KeysAppend(f: seq<Record>, r: Record)
    ensures Keys(f + [r]) == Keys(f) + [ParseIpv4(r.address)]
  {
    if f == [] {
      assert f + [r] == [r];
    } else {
      assert (f + [r])[1..] == f[1..] + [r];
      KeysAppend(f[1..], r);
    }
  }

  lemma FindKeyAppend(keys: seq<nat>, a: nat)
    requires FindKey(keys, a) == |keys|
    ensures FindKey(keys + [a], a) == |keys|
  {
    var longer := keys + [a];
    assert longer[|keys|] == a;
    assert forall j :: 0 <= j < |keys| ==> longer[j] == keys[j];
  }

  /** In any file that has no record of the address: retrieve after add finds the lease, remove after add undoes it. */
  lemma AddRoundTrip(f: seq<Record>, l: Lease)
    requires FindRecord(f, l.address) == |f|
    ensures RetrieveRecord(f + [ToRecord(l)], l.address) == Some(l)
    ensures RemoveRecord(f + [ToRecord(l)], l.address) == f
  {
    var r := ToRecord(l);
    ParsePrintIpv4(l.address);
    RecordRoundTrip(l);
    KeysAppend(f, r);
    FindKeyAppend(Keys(f), l.address);
    assert (f + [r])[|f|] == r && (f + [r])[..|f|] == f && (f + [r])[|f| + 1..] == [];
  }

  function Records(f: seq<Lease>): (r: seq<Record>)
    ensures |r| == |f| && forall i :: 0 <= i < |f| ==> r[i] == ToRecord(f[i])
  {
    seq(|f|, i requires 0 <= i < |f| => ToRecord(f[i]))
  }

  lemma RecordsRemove(f: seq<Lease>, i: nat)
    requires i < |f|
    ensures Records(f[..i] + f[i + 1..]) == Records(f)[..i] + Records(f)[i + 1..]
  {
  }

  // ---------------------------------------------------------------- the store

  class LeaseStore {
    var files: map<string, seq<Record>>
    /** The files as leases. */
    ghost var model: Files

    ghost predicate Valid()
      reads this
    {
      files.Keys == model.Keys && forall n :: n in files ==> files[n] == Records(model[n])
    }

    constructor (ghost leases: Files, records: map<string, seq<Record>>)
      requires records.Keys == leases.Keys && forall n :: n in records ==> records[n] == Records(leases[n])
      ensures Valid() && model == leases
    {
      files, model := records, leases;
    }

    function ReadFile(name: string): seq<Record>
      reads this
    {
      if name in files then files[name] else []
    }

    /** lease_retrieve. */
    method Retrieve(a: uint32, name: string) returns (r: Option<Lease>)
      requires Valid()
      ensures r == Lookup(File(model, name), a)
    {
      var f := ReadFile(name);
      ghost var leases := File(model, name);
      var i := Search(f, a, leases);
      if i == |f| {
        return None;
      }
      r := Decode(f[i], leases[i]);
    }

    method Decode(r: Record, ghost l: Lease) returns (decoded: Option<Lease>)
      requires r == ToRecord(l)
      ensures decoded == Some(l)
    {
      RecordRoundTrip(l);
      decoded := FromRecord(r);
    }

    method DecodeAddress(text: string, ghost a: uint32) returns (n: nat)
      requires text == PrintIpv4(a)
      ensures n == a
    {
      ParsePrintIpv4(a);
      n := ParseIpv4(text);
    }

    /** The cJSON_ArrayForEach search over the address texts. */
    method Search(f: seq<Record>, a: uint32, ghost leases: seq<Lease>) returns (i: nat)
      requires f == Records(leases)
      ensures i == FindLease(leases, a)
    {
      i := 0;
      while i < |f|
        invariant i <= |f|
        invariant forall j :: 0 <= j < i ==> leases[j].address != a
      {
        var found := DecodeAddress(f[i].address, leases[i].address);
        if found == a {
          return;
        }
        i := i + 1;
      }
    }

    /** lease_add. */
    method Add(l: Lease, name: string)
      requires Valid()
      modifies this
      ensures Valid() && model == old(model)[name := File(old(model), name) + [l]]
    {
      ghost var leases := File(model, name);
      assert Records(leases + [l]) == Records(leases) + [ToRecord(l)];
      files := files[name := ReadFile(name) + [ToRecord(l)]];
      model := model[name := leases + [l]];
    }

    /** json_to_lease on every record of a file. */
    method ReadLeases(name: string) returns (ls: seq<Lease>)
      requires Valid()
      ensures ls == File(model, name)
    {
      var f := ReadFile(name);
      ghost var leases := File(model, name);
      ls := [];
      for i := 0 to |f|
        invariant ls == leases[..i]
      {
        var l := Decode(f[i], leases[i]);
        ls := ls + [l.value];
      }
    }

    /** Opening a lease file creates it if need be. */
    method Open(name: string)
      requires Valid()
      modifies this
      ensures Valid() && model == old(model)[name := File(old(model), name)]
    {
      ghost var leases := File(model, name);
      files := files[name := ReadFile(name)];
      model := model[name := leases];
    }

    /** lease_remove: the file is written back whether or not a record was found. */
    method Remove(a: uint32, name: string) returns (found: bool)
      requires Valid()
      modifies this
      ensures Valid() && (found <==> HasLease(File(old(model), name), a))
      ensures model == old(model)[name := RemoveLease(File(old(model), name), a)]
    {
      var f := ReadFile(name);
      ghost var leases := File(model, name);
      var i := Search(f, a, leases);
      found := i < |f|;
      if found {
        RecordsRemove(leases, i);
        f := f[..i] + f[i + 1..];
      }
      files := files[name := f];
      model := model[name := RemoveLease(leases, a)];
    }

    /** Remove the record of an address and append another one for it. */
    method Replace(l: Lease, name: string)
      requires Valid()
      modifies this
      ensures Valid() && model == old(model)[name := RemoveLease(File(old(model), name), l.address) + [l]]
    {
      var found := Remove(l.address, name);
      Add(l, name);
    }
  }
}
