/** The static and the dynamic access control list. */
module AccessControl {
  import opened Words
  import opened Transactions
  import opened AddressText

  datatype Verdict = Allow | Deny

  datatype Acl = Acl(entries: seq<string>, enabled: bool, isBlacklist: bool)

  /** strncmp over the 17 characters of a printed hardware address. */
  function Prefix17(s: string): string {
    if |s| <= 17 then s else s[..17]
  }

  predicate Listed(entries: seq<string>, mac: string) {
    exists k :: 0 <= k < |entries| && Prefix17(entries[k]) == Prefix17(mac)
  }

  /** ACL_check_client_str. */
  function Check(acl: Acl, mac: string): Verdict {
    if !acl.enabled then Allow
    else if Listed(acl.entries, mac) == acl.isBlacklist then Deny
    else Allow
  }

  predicate OwnedBy(s: Slot, c: Mac) {
    s.timer.running && s.messages != [] && s.messages[0].chaddr == c
  }

  /** Number of running slots whose first message came from `c`. */
  function Share(cache: seq<Slot>, c: Mac): (n: nat)
    ensures n <= |cache|
  {
    if cache == [] then 0 else Share(cache[1..], c) + if OwnedBy(cache[0], c) then 1 else 0
  }

  /** dynamic_ACL_check: list the client once it owns half the cache, then decide. */
  function DynamicCheck(acl: Acl, c: Mac, cache: seq<Slot>): (Acl, Verdict) {
    if !acl.enabled then (acl, Allow)
    else
      var acl' := if Share(cache, c) >= |cache| / 2 then acl.(entries := acl.entries + [PrintMac(c)]) else acl;
      (acl', Check(acl', PrintMac(c)))
  }
}
