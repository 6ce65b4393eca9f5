/** Whom the access lists let in, and what becomes of a message on its way to a handler. */
module AccessLaws {
  import opened Words
  import opened Messages
  import opened Transactions
  import opened AccessControl
  import opened AddressText
  import opened Lookups
  import opened Protocol
  import opened Replies
  import opened CacheShare

  // ---------------------------------------------------------------- the lists

  /** Some entry begins with the printed hardware address. */
  ghost predicate Member(acl: Acl, c: Mac) {
    exists k :: 0 <= k < |acl.entries| && PrintMac(c) <= acl.entries[k]
  }

  lemma ListedIsMember(acl: Acl, c: Mac)
    ensures Listed(acl.entries, PrintMac(c)) <==> Member(acl, c)
  {
    PrintMacInjective(c, c);
    forall k | 0 <= k < |acl.entries|
      ensures Prefix17(acl.entries[k]) == Prefix17(PrintMac(c)) <==> PrintMac(c) <= acl.entries[k]
    {
      PrefixIs(acl.entries[k], PrintMac(c));
    }
  }

  lemma PrefixIs(entry: string, mac: string)
    requires |mac| == 17
    ensures Prefix17(entry) == Prefix17(mac) <==> mac <= entry
  {
    assert mac[..17] == mac;
  }

  /** A blacklist denies its members, a whitelist everybody else, and a list that is off nobody. */
  lemma CheckLaw(acl: Acl, c: Mac)
    ensures Check(acl, PrintMac(c)) == Deny <==>
            acl.enabled && if acl.isBlacklist then Member(acl, c) else !Member(acl, c)
  {
    ListedIsMember(acl, c);
  }

  /** Of printed addresses the members are just those. */
  lemma PrintedMembers(acl: Acl, macs: seq<Mac>, c: Mac)
    requires |acl.entries| == |macs| && forall k :: 0 <= k < |macs| ==> acl.entries[k] == PrintMac(macs[k])
    ensures Member(acl, c) <==> c in macs
  {
    forall k | 0 <= k < |macs| ensures PrintMac(c) <= acl.entries[k] <==> c == macs[k] {
      PrintMacInjective(c, macs[k]);
      if PrintMac(c) <= PrintMac(macs[k]) {
        PrintMacInjective(macs[k], c);
        assert PrintMac(macs[k])[..17] == PrintMac(macs[k]);
      }
    }
  }

  // ---------------------------------------------------------------- printed and configured addresses

  /** Six pairs of hexadecimal digits, upper or lower case, separated by colons. */
  predicate MacText(s: string, m: seq<byte>) {
    && |s| == 3 * |m| - 1
    && (forall i :: 0 <= i < |m| ==> HexValue(s[3 * i]) == Some(m[i] / 16) && HexValue(s[3 * i + 1]) == Some(m[i] % 16))
    && (forall i :: 0 <= i < |m| - 1 ==> s[3 * i + 2] == ':')
  }

  predicate IsLower(c: char) {
    !('A' <= c <= 'Z')
  }

  /** tolower */
  function Lower(c: char): char {
    if 'A' <= c <= 'Z' then (c as int + 32) as char else c
  }

  lemma PrintedDigit(d: nat)
    requires d < 16
    ensures HexValue(HexDigit(d)) == Some(d) && IsLower(HexDigit(d))
  {
  }

  lemma PrintedOctet(b: byte)
    ensures var s := Hex2(b); |s| == 2 && HexValue(s[0]) == Some(b / 16) && HexValue(s[1]) == Some(b % 16)
    ensures IsLower(Hex2(b)[0]) && IsLower(Hex2(b)[1])
  {
    PrintedDigit(b / 16);
    PrintedDigit(b % 16);
  }

  lemma MacTextCons(s: string, tail: string, m: seq<byte>)
    requires |m| > 1 && MacText(tail, m[1..]) && |s| == |tail| + 3
    requires HexValue(s[0]) == Some(m[0] / 16) && HexValue(s[1]) == Some(m[0] % 16) && s[2] == ':'
    requires forall k :: 0 <= k < |tail| ==> s[k + 3] == tail[k]
    ensures MacText(s, m)
  {
    forall i | 0 <= i < |m| ensures HexValue(s[3 * i]) == Some(m[i] / 16) && HexValue(s[3 * i + 1]) == Some(m[i] % 16) {
      if i > 0 {
        assert s[3 * (i - 1) + 3] == tail[3 * (i - 1)] && s[3 * (i - 1) + 1 + 3] == tail[3 * (i - 1) + 1];
        assert m[1..][i - 1] == m[i];
      }
    }
    forall i | 0 <= i < |m| - 1 ensures s[3 * i + 2] == ':' {
      if i > 0 {
        assert s[3 * (i - 1) + 2 + 3] == tail[3 * (i - 1) + 2];
      }
    }
  }

  lemma {:induction false} PrintedText(m: seq<byte>)
    requires m != []
    ensures MacText(PrintOctets(m), m)
  {
    PrintedOctet(m[0]);
    if |m| > 1 {
      var s, tail := PrintOctets(m), PrintOctets(m[1..]);
      PrintedText(m[1..]);
      assert s == Hex2(m[0]) + (":" + tail);
      MacTextCons(s, tail, m);
    }
  }

  lemma {:induction false} PrintedLower(m: seq<byte>)
    ensures forall k :: 0 <= k < |PrintOctets(m)| ==> IsLower(PrintOctets(m)[k])
  {
    if m != [] {
      PrintedOctet(m[0]);
      PrintedLower(m[1..]);
    }
  }

  /** Addresses are printed octet by octet, in lower case. */
  lemma PrintMacLaw(m: Mac)
    ensures MacText(PrintMac(m), m) && forall k :: 0 <= k < |PrintMac(m)| ==> IsLower(PrintMac(m)[k])
  {
    PrintedText(m);
    PrintedLower(m);
  }

  lemma SameLowerDigit(c: char, d: char)
    requires HexValue(c).Some? && HexValue(c) == HexValue(d)
    ensures Lower(c) == Lower(d)
  {
  }

  lemma SameLowerOctet(s: string, p: string, m: seq<byte>, i: nat)
    requires MacText(s, m) && MacText(p, m) && i < |m|
    ensures Lower(s[3 * i]) == Lower(p[3 * i]) && Lower(s[3 * i + 1]) == Lower(p[3 * i + 1])
    ensures i < |m| - 1 ==> s[3 * i + 2] == p[3 * i + 2]
  {
    SameLowerDigit(s[3 * i], p[3 * i]);
    SameLowerDigit(s[3 * i + 1], p[3 * i + 1]);
  }

  lemma ThreeParts(k: nat)
    ensures var i := k / 3; k == 3 * i || k == 3 * i + 1 || k == 3 * i + 2
  {
  }

  /** A configured entry in either case, lower-cased as it is loaded, is the printed address. */
  lemma LoadedIsPrinted(s: string, lowered: string, m: Mac)
    requires MacText(s, m) && |lowered| == |s| && forall k :: 0 <= k < |s| ==> lowered[k] == Lower(s[k])
    ensures lowered == PrintMac(m)
  {
    var p := PrintMac(m);
    PrintMacLaw(m);
    forall k | 0 <= k < 17 ensures lowered[k] == p[k] {
      ThreeParts(k);
      SameLowerOctet(s, p, m, k / 3);
      assert IsLower(p[k]) && Lower(p[k]) == p[k];
    }
  }

  // ---------------------------------------------------------------- shares of the cache

  /** The running slots whose first message came from `c`. */
  ghost function Owned(cache: seq<Slot>, c: Mac): set<nat> {
    set t: nat | t < |cache| && cache[t].timer.running && cache[t].messages != [] && cache[t].messages[0].chaddr == c
  }

  lemma {:induction false} ShareIsOwned(cache: seq<Slot>, c: Mac)
    ensures Share(cache, c) == |Owned(cache, c)|
  {
    if cache != [] {
      var n := |cache| - 1;
      ShareIsOwned(cache[..n], c);
      ShareLast(cache, c);
      OwnedLast(cache, c);
    }
  }

  lemma OwnedLast(cache: seq<Slot>, c: Mac)
    requires cache != []
    ensures var n: nat := |cache| - 1;
            Owned(cache, c) == (if OwnedBy(cache[n], c) then Owned(cache[..n], c) + {n} else Owned(cache[..n], c))
            && n !in Owned(cache[..n], c)
  {
    var n: nat := |cache| - 1;
    assert forall t :: 0 <= t < n ==> cache[..n][t] == cache[t];
  }

  lemma {:induction false} ShareLast(cache: seq<Slot>, c: Mac)
    requires cache != []
    ensures Share(cache, c) == Share(cache[..|cache| - 1], c) + if OwnedBy(cache[|cache| - 1], c) then 1 else 0
  {
    var n := |cache| - 1;
    if n > 0 {
      assert cache[1..][..n - 1] == cache[..n][1..];
      ShareLast(cache[1..], c);
    } else {
      assert cache[1..] == [] && cache[..0] == [];
    }
  }

  /** With the dynamic list on, in every run and for every client: at most half the slots are the client's. */
  lemma OwnersBounded(s: State, events: seq<Event>, k: nat, c: Mac)
    requires Bounded(s) && k <= |events|
    ensures var cache := Run(s, events[..k]).cache; |Owned(cache, c)| <= |cache| / 2
  {
    RunsAreBounded(s, events, k);
    ShareIsOwned(Run(s, events[..k]).cache, c);
  }

  // ---------------------------------------------------------------- on the way to a handler

  /** The dynamic list after a message from `c`: with the client, if half the slots are the client's. */
  ghost function Updated(dacl: Acl, c: Mac, cache: seq<Slot>): Acl {
    if dacl.enabled && |Owned(cache, c)| >= |cache| / 2 then dacl.(entries := dacl.entries + [PrintMac(c)]) else dacl
  }

  ghost predicate Denies(acl: Acl, c: Mac) {
    acl.enabled && if acl.isBlacklist then Member(acl, c) else !Member(acl, c)
  }

  lemma DynamicCheckIs(dacl: Acl, c: Mac, cache: seq<Slot>)
    ensures DynamicCheck(dacl, c, cache).0 == Updated(dacl, c, cache)
    ensures DynamicCheck(dacl, c, cache).1 == Deny <==> Denies(Updated(dacl, c, cache), c)
  {
    ShareIsOwned(cache, c);
    CheckLaw(Updated(dacl, c, cache), c);
  }

  /** No slot has the id, and every timer runs. */
  ghost predicate NoRoom(cache: seq<Slot>, xid: uint32) {
    forall t :: 0 <= t < |cache| ==> cache[t].xid != xid && cache[t].timer.running
  }

  /** A message the static list denies changes nothing at all. */
  lemma DeniedLaw(s: State, now: uint32, m: Message, sent: bool)
    requires Denies(s.acl, m.chaddr)
    ensures Step(s, Received(now, m, sent)) == s
  {
    CheckLaw(s.acl, m.chaddr);
  }

  /** One that the dynamic list denies, that comes from a server or finds no room changes the dynamic list at most. */
  lemma DroppedLaw(s: State, now: uint32, m: Message, sent: bool)
    requires !Denies(s.acl, m.chaddr) && ValidCache(s.cache)
    requires || Denies(Updated(s.dacl, m.chaddr, s.cache), m.chaddr) || m.kind in {OFFER, ACK, NAK}
             || NoRoom(s.cache, m.xid)
    ensures Step(s, Received(now, m, sent)) == s.(dacl := Updated(s.dacl, m.chaddr, s.cache))
  {
    CheckLaw(s.acl, m.chaddr);
    DynamicCheckIs(s.dacl, m.chaddr, s.cache);
    AddMessageEffect(s.cache, m, now);
  }

  /** Any other message is cached, as the last one of its transaction, and handled. */
  lemma AdmittedLaw(s: State, now: uint32, m: Message, sent: bool) returns (c: seq<Slot>, t: nat)
    requires !Denies(s.acl, m.chaddr) && !Denies(Updated(s.dacl, m.chaddr, s.cache), m.chaddr)
    requires m.kind !in {OFFER, ACK, NAK} && ValidCache(s.cache) && !NoRoom(s.cache, m.xid)
    ensures Appended(s.cache, c, t, m.(time := now)) && TransactionAt(c, m.xid, t) && ValidCache(c)
    ensures Step(s, Received(now, m, sent)) ==
            Handle(s.(dacl := Updated(s.dacl, m.chaddr, s.cache), cache := c), now, m, sent)
  {
    CheckLaw(s.acl, m.chaddr);
    DynamicCheckIs(s.dacl, m.chaddr, s.cache);
    AddMessageEffect(s.cache, m, now);
    c, t := AddMessage(s.cache, m, now).value, Target(s.cache, m.xid);
    TransactionIs(c, m.xid);
  }
}
