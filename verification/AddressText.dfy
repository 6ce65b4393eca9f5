/** Printing and parsing of IPv4 and hardware addresses, as xtoy.c does with snprintf and sscanf. */
module AddressText {
  import opened Words
  import opened Bits

  // ---------------------------------------------------------------- decimal numbers

  predicate IsDigit(c: char) {
    '0' <= c <= '9'
  }

  /** %u */
  function Decimal(n: nat): (s: string)
    ensures s != [] && forall k :: 0 <= k < |s| ==> IsDigit(s[k])
  {
    if n < 10 then [('0' as int + n) as char] else Decimal(n / 10) + [('0' as int + n % 10) as char]
  }

  function DigitRun(s: string): (n: nat)
    ensures n <= |s| && (forall k :: 0 <= k < n ==> IsDigit(s[k])) && (n < |s| ==> !IsDigit(s[n]))
  {
    if s == [] || !IsDigit(s[0]) then 0 else 1 + DigitRun(s[1..])
  }

  function DigitsValue(s: string): nat
    requires forall k :: 0 <= k < |s| ==> IsDigit(s[k])
  {
    if s == [] then 0
    else
      assert IsDigit(s[|s| - 1]);
      10 * DigitsValue(s[..|s| - 1]) + (s[|s| - 1] as int - '0' as int)
  }

  /** %u in sscanf, on input without blanks or sign: the value and what follows the digits. */
  function ScanNumber(s: string): Option<(uint32, string)> {
    var n := DigitRun(s);
    if n == 0 then None else Some((DigitsValue(s[..n]) % TWO32, s[n..]))
  }

  lemma {:induction false} DecimalValue(n: nat)
    ensures DigitsValue(Decimal(n)) == n
  {
    if n < 10 {
      assert Decimal(n)[..0] == [];
    } else {
      var s := Decimal(n);
      assert s[..|s| - 1] == Decimal(n / 10);
      DecimalValue(n / 10);
    }
  }

  lemma ScanDigits(d: string, rest: string)
    requires d != [] && forall k :: 0 <= k < |d| ==> IsDigit(d[k])
    requires rest == [] || !IsDigit(rest[0])
    ensures ScanNumber(d + rest) == Some((DigitsValue(d) % TWO32, rest))
  {
    var s := d + rest;
    assert DigitRun(s) == |d| by {
      assert forall k :: 0 <= k < |d| ==> s[k] == d[k];
      assert |d| < |s| ==> s[|d|] == rest[0];
    }
    assert s[..|d|] == d && s[|d|..] == rest;
  }

  lemma FitsWord(n: uint32)
    ensures n % TWO32 == n
  {
  }

  lemma ScanDecimal(n: uint32, rest: string)
    requires rest == [] || !IsDigit(rest[0])
    ensures ScanNumber(Decimal(n) + rest) == Some((n, rest))
  {
    var d := Decimal(n);
    assert ScanNumber(d + rest) == Some((DigitsValue(d) % TWO32, rest)) by {
      ScanDigits(d, rest);
    }
    assert DigitsValue(d) == n by {
      DecimalValue(n);
    }
    FitsWord(n);
  }

  // ---------------------------------------------------------------- IPv4

  /** Octet `i` of an address, most significant first. */
  function Octet(a: uint32, i: nat): byte
    requires i < 4
  {
    if i == 0 then a / 0x100_0000 else if i == 1 then a / 0x1_0000 % 0x100 else if i == 2 then a / 0x100 % 0x100 else a % 0x100
  }

  function Dotted(a: byte, b: byte, c: byte, d: byte): string {
    Decimal(a) + ("." + (Decimal(b) + ("." + (Decimal(c) + ("." + Decimal(d))))))
  }

  /** uint32_to_ipv4_address. */
  function PrintIpv4(a: uint32): string {
    Dotted(Octet(a, 0), Octet(a, 1), Octet(a, 2), Octet(a, 3))
  }

  /** A number and the dot after it. */
  function ScanField(s: string): Option<(uint32, string)> {
    var r := ScanNumber(s);
    if r.Some? && r.value.1 != [] && r.value.1[0] == '.' then Some((r.value.0, r.value.1[1..])) else None
  }

  /** `a << k` in a uint32_t. */
  function Shl32(a: uint32, k: nat): uint32 {
    a * Pow2(k) % TWO32
  }

  function JoinOctets(a: uint32, b: uint32, c: uint32, d: uint32): nat {
    BitOr(BitOr(BitOr(Shl32(a, 24), Shl32(b, 16)), Shl32(c, 8)), d)
  }

  /** ipv4_address_to_uint32: four dotted numbers, 0 if there are fewer; what follows is ignored. */
  function ParseIpv4(s: string): nat {
    var a := ScanField(s);
    if a.None? then 0 else
    var b := ScanField(a.value.1);
    if b.None? then 0 else
    var c := ScanField(b.value.1);
    if c.None? then 0 else
    var d := ScanNumber(c.value.1);
    if d.None? then 0 else JoinOctets(a.value.0, b.value.0, c.value.0, d.value.0)
  }

  lemma ScanPrintedField(n: byte, rest: string)
    ensures ScanField(Decimal(n) + ("." + rest)) == Some((n, rest))
  {
    ScanDecimal(n, "." + rest);
    assert ("." + rest)[1..] == rest;
  }

  lemma ShiftBy(b: byte, k: nat, p: nat)
    requires p == Pow2(k) && p <= 0x100_0000
    ensures Shl32(b, k) == b * p
  {
    assert 0 <= b * p < TWO32;
    FitsWord(b * p);
  }

  lemma ShiftBytes(b: byte)
    ensures Shl32(b, 24) == b * 0x100_0000 && Shl32(b, 16) == b * 0x1_0000 && Shl32(b, 8) == b * 0x100
  {
    Powers();
    ShiftBy(b, 24, 0x100_0000);
    ShiftBy(b, 16, 0x1_0000);
    ShiftBy(b, 8, 0x100);
  }

  /** Adjacent fields of a word. */
  lemma OrFields(hi: nat, lo: nat)
    ensures lo < 0x100_0000 ==> BitOr(hi * 0x100_0000, lo) == hi * 0x100_0000 + lo
    ensures lo < 0x1_0000 ==> BitOr(hi * 0x1_0000, lo) == hi * 0x1_0000 + lo
    ensures lo < 0x100 ==> BitOr(hi * 0x100, lo) == hi * 0x100 + lo
  {
    Powers();
    if lo < 0x100_0000 {
      OrDisjoint(hi, lo, 24);
    }
    if lo < 0x1_0000 {
      OrDisjoint(hi, lo, 16);
    }
    if lo < 0x100 {
      OrDisjoint(hi, lo, 8);
    }
  }

  lemma JoinBytes(a: byte, b: byte, c: byte, d: byte)
    ensures JoinOctets(a, b, c, d) == ((a * 0x100 + b) * 0x100 + c) * 0x100 + d
  {
    var x, y := a * 0x100 + b, (a * 0x100 + b) * 0x100 + c;
    ShiftBytes(a);
    ShiftBytes(b);
    ShiftBytes(c);
    assert BitOr(a * 0x100_0000, b * 0x1_0000) == x * 0x1_0000 by {
      OrFields(a, b * 0x1_0000);
    }
    assert BitOr(x * 0x1_0000, c * 0x100) == y * 0x100 by {
      OrFields(x, c * 0x100);
    }
    OrFields(y, d);
  }

  lemma ParseDotted(a: byte, b: byte, c: byte, d: byte)
    ensures ParseIpv4(Dotted(a, b, c, d)) == JoinOctets(a, b, c, d)
  {
    var s3 := Decimal(d);
    var s2 := Decimal(c) + ("." + s3);
    var s1 := Decimal(b) + ("." + s2);
    ScanPrintedField(a, s1);
    ScanPrintedField(b, s2);
    ScanPrintedField(c, s3);
    ScanDecimal(d, []);
    assert s3 + [] == s3;
  }

  lemma OctetsOf(a: uint32)
    ensures ((Octet(a, 0) * 0x100 + Octet(a, 1)) * 0x100 + Octet(a, 2)) * 0x100 + Octet(a, 3) == a
  {
    assert a / 0x1_0000 == a / 0x100_0000 * 0x100 + a / 0x1_0000 % 0x100;
    assert a / 0x100 == a / 0x1_0000 * 0x100 + a / 0x100 % 0x100;
  }

  /** Addresses are printed most significant octet first, as decimal numbers between dots. */
  lemma PrintedDotted(a: byte, b: byte, c: byte, d: byte)
    ensures var x := ((a * 0x100 + b) * 0x100 + c) * 0x100 + d;
            && PrintIpv4(x) == Decimal(a) + ("." + (Decimal(b) + ("." + (Decimal(c) + ("." + Decimal(d))))))
            && DigitsValue(Decimal(a)) == a
  {
    DecimalValue(a);
    OctetsAre(a, b, c, d);
  }

  lemma OctetsAre(a: byte, b: byte, c: byte, d: byte)
    ensures var x := ((a * 0x100 + b) * 0x100 + c) * 0x100 + d;
            Octet(x, 0) == a && Octet(x, 1) == b && Octet(x, 2) == c && Octet(x, 3) == d
  {
    var ab, abc := a * 0x100 + b, (a * 0x100 + b) * 0x100 + c;
    var x := abc * 0x100 + d;
    assert x / 0x100 == abc && x % 0x100 == d;
    assert abc / 0x100 == ab && abc % 0x100 == c && ab / 0x100 == a && ab % 0x100 == b;
    assert x / 0x1_0000 == ab && x / 0x100_0000 == a;
  }

  /** Every address survives printing and parsing. */
  lemma ParsePrintIpv4(a: uint32)
    ensures ParseIpv4(PrintIpv4(a)) == a
  {
    ParseDotted(Octet(a, 0), Octet(a, 1), Octet(a, 2), Octet(a, 3));
    JoinBytes(Octet(a, 0), Octet(a, 1), Octet(a, 2), Octet(a, 3));
    OctetsOf(a);
  }

  // ---------------------------------------------------------------- hardware addresses

  function HexDigit(d: nat): char
    requires d < 16
  {
    if d < 10 then ('0' as int + d) as char else ('a' as int + d - 10) as char
  }

  function HexValue(c: char): Option<nat> {
    if '0' <= c <= '9' then Some(c as int - '0' as int)
    else if 'a' <= c <= 'f' then Some(c as int - 'a' as int + 10)
    else if 'A' <= c <= 'F' then Some(c as int - 'A' as int + 10)
    else None
  }

  /** %02x */
  function Hex2(b: byte): string {
    [HexDigit(b / 16), HexDigit(b % 16)]
  }

  /** Printed octets, separated by colons. */
  function PrintOctets(m: seq<byte>): string {
    if m == [] then [] else if |m| == 1 then Hex2(m[0]) else Hex2(m[0]) + (":" + PrintOctets(m[1..]))
  }

  /** uint8_array_to_mac. */
  function PrintMac(m: Mac): string {
    PrintOctets(m)
  }

  /** %02x in sscanf, on input without blanks, sign or 0x: one or two digits. */
  function ScanHex(s: string): Option<(byte, string)> {
    if s == [] || HexValue(s[0]).None? then None
    else if |s| == 1 || HexValue(s[1]).None? then Some((HexValue(s[0]).value, s[1..]))
    else Some((16 * HexValue(s[0]).value + HexValue(s[1]).value, s[2..]))
  }

  /** `n` colon-separated octets; what follows is ignored. */
  function ScanOctets(s: string, n: nat): Option<seq<byte>> {
    if n == 0 then Some([])
    else
      var h := ScanHex(s);
      if h.None? then None
      else if n == 1 then Some([h.value.0])
      else if h.value.1 == [] || h.value.1[0] != ':' then None
      else
        var t := ScanOctets(h.value.1[1..], n - 1);
        if t.None? then None else Some([h.value.0] + t.value)
  }

  /** The MAC parser of json_to_lease and mac_to_uint8_array. */
  function ParseMac(s: string): Option<seq<byte>> {
    ScanOctets(s, 6)
  }

  lemma ScanHex2(b: byte, rest: string)
    ensures ScanHex(Hex2(b) + rest) == Some((b, rest))
  {
    var s := Hex2(b) + rest;
    assert s[0] == HexDigit(b / 16) && s[1] == HexDigit(b % 16);
    assert s[2..] == rest;
  }

  lemma {:induction false} ScanPrintedOctets(m: seq<byte>)
    ensures ScanOctets(PrintOctets(m), |m|) == Some(m)
  {
    if |m| == 1 {
      ScanHex2(m[0], []);
      assert Hex2(m[0]) + [] == Hex2(m[0]) && m == [m[0]];
    } else if |m| > 1 {
      var rest := ":" + PrintOctets(m[1..]);
      ScanHex2(m[0], rest);
      assert rest[1..] == PrintOctets(m[1..]);
      ScanPrintedOctets(m[1..]);
      assert m == [m[0]] + m[1..];
    }
  }

  /** Every hardware address survives printing and parsing; so printing is injective. */
  lemma ParsePrintMac(m: Mac)
    ensures ParseMac(PrintMac(m)) == Some(m)
  {
    ScanPrintedOctets(m);
  }

  lemma {:induction false} PrintedLength(m: seq<byte>)
    requires m != []
    ensures |PrintOctets(m)| == 3 * |m| - 1
  {
    if |m| > 1 {
      PrintedLength(m[1..]);
    }
  }

  /** Two hardware addresses print alike, in 17 characters, only if they are equal. */
  lemma PrintMacInjective(m: Mac, n: Mac)
    ensures |PrintMac(m)| == 17
    ensures PrintMac(m) == PrintMac(n) ==> m == n
  {
    PrintedLength(m);
    ParsePrintMac(m);
    ParsePrintMac(n);
  }
}
