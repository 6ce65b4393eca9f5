/** Access control lists as objects. */
module AccessLists {
  import opened Words
  import opened AddressText
  import opened Messages
  import opened AccessControl
  import opened TransactionCaches

  class AccessList {
    var entries: seq<string>
    const enabled: bool
    const isBlacklist: bool

    constructor (entries: seq<string>, enabled: bool, isBlacklist: bool)
      ensures View() == Acl(entries, enabled, isBlacklist)
    {
      this.entries, this.enabled, this.isBlacklist := entries, enabled, isBlacklist;
    }

    function View(): Acl
      reads this
    {
      Acl(entries, enabled, isBlacklist)
    }

    /** ACL_check_client_str. */
    method CheckClient(mac: string) returns (v: Verdict)
      ensures v == Check(View(), mac)
    {
      if !enabled {
        return Allow;
      }
      var found := false;
      var i := 0;
      while i < |entries| && !found
        invariant i <= |entries|
        invariant found <==> exists k :: 0 <= k < i && Prefix17(entries[k]) == Prefix17(mac)
      {
        found := Prefix17(entries[i]) == Prefix17(mac);
        i := i + 1;
      }
      v := if found == isBlacklist then Deny else Allow;
    }

    /** The counting loop of dynamic_ACL_check. */
    method CountShare(c: Mac, cache: TransactionCache) returns (n: nat)
      requires cache.Valid()
      ensures n == Share(cache.model, c)
    {
      n := 0;
      var i := 0;
      assert cache.model[0..] == cache.model;
      while i < |cache.slots|
        invariant i <= |cache.slots| && n + Share(cache.model[i..], c) == Share(cache.model, c)
      {
        assert cache.model[i..][1..] == cache.model[i + 1..];
        var t := cache.slots[i];
        if t.timer.running && t.messages != [] && t.messages[0].chaddr == c {
          n := n + 1;
        }
        i := i + 1;
      }
    }

    /** dynamic_ACL_check. */
    method CheckDynamic(c: Mac, cache: TransactionCache) returns (v: Verdict)
      requires cache.Valid() && this !in cache.Repr
      modifies this
      ensures cache.Valid() && cache.model == old(cache.model)
      ensures (View(), v) == DynamicCheck(old(View()), c, cache.model)
    {
      if !enabled {
        return Allow;
      }
      var n := CountShare(c, cache);
      if n >= |cache.slots| / 2 {
        entries := entries + [PrintMac(c)];
      }
      v := CheckClient(PrintMac(c));
    }
  }
}
