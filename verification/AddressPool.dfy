/** Address pools with their allocation bitmap and free counter. */
module AddressPools {
  import opened Words
  import opened Bits
  import opened DhcpOptions
  import opened OptionLists
  import opened Pools

  // ---------------------------------------------------------------- which ranges are accepted

  /** can_range_be_on_subnet, in uint32_t arithmetic. */
  predicate OnSubnet(start: uint32, end: uint32, mask: uint32) {
    var first := BitAnd(start, mask);
    Inside(start, end, first, TWO32 - 1 - mask)
  }

  /** start >= first + 1 && end <= first + rest - 1 in a uint32_t. */
  predicate Inside(start: uint32, end: uint32, first: nat, rest: nat) {
    start >= (first + 1) % TWO32 && end <= ((first + rest) % TWO32 - 1) % TWO32
  }

  /** The checks of address_pool_new. */
  predicate Accepts(start: uint32, end: uint32, mask: uint32) {
    OnSubnet(start, end, mask) && start < end
  }

  /** pool_range: bytes of the bitmap, in uint32_t arithmetic. */
  function PoolBytes(start: uint32, end: uint32): nat {
    Add32(Sub32(end, start), 8) / 8
  }

  lemma MaskBounds(x: uint32, mask: uint32)
    ensures BitAnd(x, mask) <= x <= BitAnd(x, mask) + (TWO32 - 1 - mask) < TWO32
  {
    Powers();
    AndBounds(x, mask, 32);
  }

  /** The subnet test without wrap-around: strictly between network and broadcast address. */
  lemma AcceptedBounds(start: uint32, end: uint32, mask: uint32)
    requires Accepts(start, end, mask)
    ensures BitAnd(start, mask) < start < end < BitAnd(start, mask) + (TWO32 - 1 - mask) < TWO32
  {
    MaskBounds(start, mask);
    StrictlyInside(start, end, BitAnd(start, mask), TWO32 - 1 - mask);
  }

  lemma StrictlyInside(start: uint32, end: uint32, first: nat, rest: nat)
    requires first <= start <= first + rest < TWO32 && start < end && Inside(start, end, first, rest)
    ensures first < start && end < first + rest
  {
    assert (first + rest) % TWO32 == first + rest;
    assert (first + 1) % TWO32 == first + 1;
    assert (first + rest - 1) % TWO32 == first + rest - 1;
  }

  /** The checks in wrapping arithmetic accept exactly the ranges between network and broadcast address. */
  lemma AcceptsIff(start: uint32, end: uint32, mask: uint32)
    ensures Accepts(start, end, mask) <==>
            BitAnd(start, mask) < start < end < BitAnd(start, mask) + (TWO32 - 1 - mask)
  {
    if Accepts(start, end, mask) {
      AcceptedBounds(start, end, mask);
    } else {
      MaskBounds(start, mask);
      InsideIfStrict(start, end, BitAnd(start, mask), TWO32 - 1 - mask);
    }
  }

  lemma InsideIfStrict(start: uint32, end: uint32, first: nat, rest: nat)
    requires first + rest < TWO32
    ensures first < start < end < first + rest ==> Inside(start, end, first, rest)
  {
    if first < start < end < first + rest {
      assert (first + rest) % TWO32 == first + rest;
      assert (first + 1) % TWO32 == first + 1;
      assert (first + rest - 1) % TWO32 == first + rest - 1;
    }
  }

  /** Every accepted pool, whatever the mask, keeps clear of 0 and of the last address. */
  lemma AcceptedRange(start: uint32, end: uint32, mask: uint32)
    requires Accepts(start, end, mask)
    ensures 1 <= start < end <= TWO32 - 2
  {
    AcceptedBounds(start, end, mask);
  }

  lemma PrefixBlock(x: uint32, mask: uint32, n: nat, size: nat) returns (q: nat)
    requires n <= 32 && size == Pow2(n) && mask == TWO32 - size
    ensures BitAnd(x, mask) == q * size && q * size <= x < q * size + size
  {
    Powers();
    q := AndPrefix(x, mask, 32, n);
  }

  /** With a prefix mask, all pool addresses share the network part and none is the network or broadcast address. */
  lemma AcceptedSubnet(start: uint32, end: uint32, mask: uint32, n: nat, size: nat, a: uint32)
    requires Accepts(start, end, mask) && start <= a <= end
    requires n <= 32 && size == Pow2(n) && mask == TWO32 - size
    ensures BitAnd(a, mask) == BitAnd(start, mask)
    ensures a != BitAnd(a, mask) && a != BitAnd(a, mask) + (TWO32 - 1 - mask)
  {
    AcceptedBounds(start, end, mask);
    var q := PrefixBlock(start, mask, n, size);
    var p := PrefixBlock(a, mask, n, size);
    SameBlock(p, q, size, a);
  }

  /** Byte of the bitmap that holds the bit of an address. */
  function ByteIndex(start: uint32, a: uint32): nat
    requires start <= a
  {
    (a - start) / 8
  }

  /** The bitmap covers every address exactly when the size computation does not wrap around. */
  lemma BitmapCovers(start: uint32, end: uint32)
    requires start <= end
    ensures (forall a: uint32 :: start <= a <= end ==> ByteIndex(start, a) < PoolBytes(start, end)) <==>
            end - start + 8 < TWO32
  {
    if end - start + 8 >= TWO32 {
      assert ByteIndex(start, end) >= PoolBytes(start, end);
    }
  }

  lemma EnoughBytes(start: uint32, end: uint32)
    requires start <= end && end - start + 8 < TWO32
    ensures end - start < 8 * PoolBytes(start, end) <= end - start + 8
  {
  }

  /** Nothing stops such a pool: under mask 0 this one is accepted, with a bitmap of no bytes at all. */
  lemma WrappingPool()
    ensures Accepts(1, 0xFFFF_FFFE, 0) && PoolBytes(1, 0xFFFF_FFFE) == 0
  {
    MaskBounds(1, 0);
  }

  /** Under a nonzero prefix mask it never wraps. */
  lemma PrefixNeverWraps(start: uint32, end: uint32, mask: uint32, n: nat)
    requires Accepts(start, end, mask) && n < 32 && mask == TWO32 - Pow2(n)
    ensures end - start + 8 < TWO32
  {
    Powers();
    AcceptedBounds(start, end, mask);
    Pow2Monotone(n, 31);
    HalfRange(Pow2(n));
  }

  lemma HalfRange(size: nat)
    requires size <= Pow2(31)
    ensures size <= 0x8000_0000
  {
    assert Pow2(28) == 0x1000_0000 && Pow2(31) == 8 * Pow2(28) by {
      Powers();
    }
  }

  // ---------------------------------------------------------------- bits of one byte

  /** The values of (uint8_t)(1 << bit). */
  function Mask(bit: nat): bv8
    requires bit < 8
  {
    match bit
    case 0 => 1
    case 1 => 2
    case 2 => 4
    case 3 => 8
    case 4 => 16
    case 5 => 32
    case 6 => 64
    case _ => 128
  }

  predicate BitSet(b: bv8, bit: nat)
    requires bit < 8
  {
    b & Mask(bit) != 0
  }

  predicate OneBit(m: bv8) {
    m != 0 && m & (m - 1) == 0
  }

  function Shifted(bit: nat): (m: bv8)
    requires bit < 8
    ensures m == Mask(bit)
  {
    1 << bit
  }

  /** Distinct bits have distinct masks of one bit each. */
  lemma MaskApart(bit: nat, j: nat)
    requires bit < 8 && j < 8
    ensures OneBit(Mask(bit)) && OneBit(Mask(j)) && (Mask(bit) == Mask(j) <==> bit == j)
  {
  }

  lemma SetMask(b: bv8, m: bv8, k: bv8)
    requires OneBit(m) && OneBit(k)
    ensures (b | m) & k != 0 <==> k == m || b & k != 0
  {
  }

  /** Clearing by subtraction is clearing the bit. */
  lemma ClearMask(b: bv8, m: bv8)
    requires OneBit(m) && b & m != 0
    ensures b - m == b & !m
  {
  }

  lemma ClearedMask(b: bv8, m: bv8, k: bv8)
    requires OneBit(m) && OneBit(k)
    ensures (b & !m) & k != 0 <==> k != m && b & k != 0
  {
  }

  lemma ClearBitwise(b: bv8, bit: nat, j: nat)
    requires bit < 8 && j < 8
    ensures BitSet(b & !Mask(bit), j) <==> j != bit && BitSet(b, j)
  {
    MaskApart(bit, j);
    ClearedMask(b, Mask(bit), Mask(j));
  }

  lemma SetBit(b: bv8, bit: nat, j: nat)
    requires bit < 8 && j < 8
    ensures BitSet(b | Mask(bit), j) <==> j == bit || BitSet(b, j)
  {
    MaskApart(bit, j);
    SetMask(b, Mask(bit), Mask(j));
  }

  lemma ClearBit(b: bv8, bit: nat, j: nat)
    requires bit < 8 && j < 8 && BitSet(b, bit)
    ensures BitSet(b - Mask(bit), j) <==> j != bit && BitSet(b, j)
  {
    assert b - Mask(bit) == b & !Mask(bit) by {
      MaskApart(bit, bit);
      ClearMask(b, Mask(bit));
    }
    ClearBitwise(b, bit, j);
  }

  // ---------------------------------------------------------------- sizes of address sets

  lemma {:induction false} RangeSize(lo: nat, hi: uint32)
    requires lo <= hi + 1
    ensures |Range(lo, hi)| == hi + 1 - lo
    decreases hi + 1 - lo
  {
    if lo <= hi {
      RangeSize(lo + 1, hi);
      assert lo !in Range(lo + 1, hi);
    }
  }

  lemma {:induction false} SubsetSize<T>(a: set<T>, b: set<T>)
    requires a <= b
    ensures |a| <= |b| && (|a| == |b| ==> a == b)
  {
    if a != {} {
      var x :| x in a;
      SubsetSize(a - {x}, b - {x});
      assert a == (a - {x}) + {x} && b == (b - {x}) + {x};
    }
  }

  lemma RoomForOne(used: set<uint32>, start: uint32, end: uint32, a: uint32)
    requires start <= a <= end && used <= Range(start, end) && a !in used
    ensures |used + {a}| == |used| + 1 <= end - start + 1
  {
    RangeSize(start, end);
    SubsetSize(used + {a}, Range(start, end));
  }

  // ---------------------------------------------------------------- the bitmap as a set

  predicate BitAt(bytes: seq<bv8>, k: nat)
    requires k < 8 * |bytes|
  {
    BitSet(bytes[k / 8], k % 8)
  }

  function WithSet(bytes: seq<bv8>, k: nat): (r: seq<bv8>)
    requires k < 8 * |bytes|
    ensures |r| == |bytes|
  {
    bytes[k / 8 := bytes[k / 8] | Mask(k % 8)]
  }

  function WithCleared(bytes: seq<bv8>, k: nat): (r: seq<bv8>)
    requires k < 8 * |bytes|
    ensures |r| == |bytes|
  {
    bytes[k / 8 := bytes[k / 8] - Mask(k % 8)]
  }

  /** Setting a bit changes that bit and no other. */
  lemma SetChangesOne(bytes: seq<bv8>, k: nat, j: nat)
    requires k < 8 * |bytes| && j < 8 * |bytes|
    ensures BitAt(WithSet(bytes, k), j) <==> j == k || BitAt(bytes, j)
  {
    if j / 8 == k / 8 {
      SetBit(bytes[k / 8], k % 8, j % 8);
    }
  }

  lemma ClearChangesOne(bytes: seq<bv8>, k: nat, j: nat)
    requires k < 8 * |bytes| && j < 8 * |bytes| && BitAt(bytes, k)
    ensures BitAt(WithCleared(bytes, k), j) <==> j != k && BitAt(bytes, j)
  {
    if j / 8 == k / 8 {
      ClearBit(bytes[k / 8], k % 8, j % 8);
    } else {
      assert WithCleared(bytes, k)[j / 8] == bytes[j / 8];
    }
  }

  /** The addresses of a pool whose bit is set. */
  ghost function UsedIn(bytes: seq<bv8>, start: uint32, end: uint32): set<uint32>
    requires start <= end && end - start < 8 * |bytes|
  {
    set a: uint32 | a in Range(start, end) && BitAt(bytes, a - start)
  }

  ghost predicate PaddingClear(bytes: seq<bv8>, bits: nat) {
    forall k :: bits <= k < 8 * |bytes| ==> !BitAt(bytes, k)
  }

  lemma SetAddsOne(bytes: seq<bv8>, start: uint32, end: uint32, a: uint32)
    requires start <= a <= end && end - start < 8 * |bytes| && PaddingClear(bytes, end - start + 1)
    ensures var r := WithSet(bytes, a - start);
            UsedIn(r, start, end) == UsedIn(bytes, start, end) + {a} && PaddingClear(r, end - start + 1)
  {
    var r := WithSet(bytes, a - start);
    forall j: nat | j < 8 * |bytes| ensures BitAt(r, j) <==> j == a - start || BitAt(bytes, j) {
      SetChangesOne(bytes, a - start, j);
    }
  }

  lemma ClearRemovesOne(bytes: seq<bv8>, start: uint32, end: uint32, a: uint32)
    requires start <= a <= end && end - start < 8 * |bytes| && PaddingClear(bytes, end - start + 1)
    requires BitAt(bytes, a - start)
    ensures var r := WithCleared(bytes, a - start);
            UsedIn(r, start, end) == UsedIn(bytes, start, end) - {a} && PaddingClear(r, end - start + 1)
  {
    var r := WithCleared(bytes, a - start);
    forall j: nat | j < 8 * |bytes| ensures BitAt(r, j) <==> j != a - start && BitAt(bytes, j) {
      ClearChangesOne(bytes, a - start, j);
    }
  }

  /** A bitmap of zero bytes stands for the empty set. */
  lemma AllClear(bytes: seq<bv8>, start: uint32, end: uint32)
    requires start <= end && end - start < 8 * |bytes| && forall k :: 0 <= k < |bytes| ==> bytes[k] == 0
    ensures UsedIn(bytes, start, end) == {} && PaddingClear(bytes, end - start + 1)
  {
    assert forall k: nat :: k < 8 * |bytes| ==> bytes[k / 8] == 0;
  }

  /** A pool is full exactly when as many addresses are used as it has. */
  lemma FullIff(p: Pool)
    requires p.Valid()
    ensures |p.used| <= p.end - p.start + 1
    ensures |p.used| == p.end - p.start + 1 <==> FirstFree(p) == 0
  {
    RangeSize(p.start, p.end);
    SubsetSize(p.used, Range(p.start, p.end));
    if FirstFree(p) == 0 {
      assert p.used == Range(p.start, p.end);
    } else {
      assert FirstFree(p) in Range(p.start, p.end);
    }
  }

  // ---------------------------------------------------------------- the pool object

  class AddressPool {
    const name: string
    const start: uint32
    const end: uint32
    const mask: uint32
    const options: seq<DhcpOption>
    const bitmap: array<bv8>
    var available: uint32

    /** A range whose byte count does not wrap around, and a bitmap of that many bytes. */
    ghost predicate Shaped() {
      && 1 <= start < end <= TWO32 - 2 && end - start + 8 < TWO32
      && end - start < 8 * bitmap.Length <= end - start + 8
    }

    /** The addresses whose bit is set. */
    ghost function Used(): set<uint32>
      requires Shaped()
      reads bitmap
    {
      UsedIn(bitmap[..], start, end)
    }

    ghost function View(): (p: Pool)
      requires Shaped()
      reads bitmap
      ensures p.Valid()
    {
      Pool(name, start, end, mask, options, Used())
    }

    /** The counter is the number of clear bits in range; bits past the last address are clear. */
    ghost predicate Valid()
      reads this, bitmap
    {
      && Shaped()
      && available == end - start + 1 - |Used()|
      && PaddingClear(bitmap[..], end - start + 1)
    }

    /**
     The allocating part of address_pool_new. The pool is usable exactly if its byte count does not
     wrap around.
     */
    constructor (name: string, start: uint32, end: uint32, mask: uint32, options: seq<DhcpOption>)
      requires Accepts(start, end, mask)
      ensures fresh(bitmap) && bitmap.Length == PoolBytes(start, end)
      ensures this.start == start && this.end == end && available == end - start + 1
      ensures Valid() <==> end - start + 8 < TWO32
      ensures Valid() ==> View() == Pool(name, start, end, mask, options, {})
    {
      AcceptedRange(start, end, mask);
      this.name, this.start, this.end, this.mask, this.options := name, start, end, mask, options;
      bitmap := new bv8[PoolBytes(start, end)](_ => 0);
      available := end - start + 1;
      new;
      if end - start + 8 < TWO32 {
        EnoughBytes(start, end);
        AllClear(bitmap[..], start, end);
      }
    }

    /** The same pool with every address free. */
    constructor Blank(p: AddressPool)
      requires p.Shaped()
      ensures Valid() && fresh(bitmap) && View() == p.View().(used := {})
    {
      name, start, end, mask, options := p.name, p.start, p.end, p.mask, p.options;
      EnoughBytes(p.start, p.end);
      bitmap := new bv8[PoolBytes(p.start, p.end)](_ => 0);
      available := p.end - p.start + 1;
      new;
      AllClear(bitmap[..], start, end);
    }

    predicate Contains(a: uint32) {
      start <= a <= end
    }

    method Get(a: uint32) returns (isSet: bool)
      requires Valid() && Contains(a)
      ensures isSet <==> a in Used()
    {
      var number := a - start;
      isSet := bitmap[number / 8] & Shifted(number % 8) != 0;
      assert isSet <==> BitAt(bitmap[..], number);
    }

    /** |= (uint8_t)(1 << bit) */
    method RaiseBit(number: nat)
      requires number < 8 * bitmap.Length
      modifies bitmap
      ensures bitmap[..] == WithSet(old(bitmap[..]), number)
    {
      bitmap[number / 8] := bitmap[number / 8] | Shifted(number % 8);
    }

    /** -= (uint8_t)(1 << bit) */
    method LowerBit(number: nat)
      requires number < 8 * bitmap.Length
      modifies bitmap
      ensures bitmap[..] == WithCleared(old(bitmap[..]), number)
    {
      bitmap[number / 8] := bitmap[number / 8] - Shifted(number % 8);
    }

    method Set(a: uint32)
      requires Valid() && Contains(a) && a !in Used()
      modifies `available, bitmap
      ensures Valid() && Used() == old(Used()) + {a}
    {
      var number := a - start;
      ghost var used := Used();
      SetAddsOne(bitmap[..], start, end, a);
      RoomForOne(used, start, end, a);
      RaiseBit(number);
      assert Used() == used + {a};
      available := available - 1;
    }

    method Clear(a: uint32)
      requires Valid() && Contains(a) && a in Used()
      modifies `available, bitmap
      ensures Valid() && Used() == old(Used()) - {a}
    {
      var number := a - start;
      ghost var used := Used();
      ClearRemovesOne(bitmap[..], start, end, a);
      LowerBit(number);
      assert Used() == used - {a};
      available := available + 1;
    }

    /**
     address_pool_address_allocation_ctl: 's' sets, 'c' clears, 'g' gets. A call that returns -1
     changes nothing.
     */
    method Control(a: uint32, action: char) returns (rv: int)
      requires Valid()
      modifies `available, bitmap
      ensures Valid()
      ensures rv == if !Contains(a) then -1
                    else if action == 's' then (if a in old(Used()) then -1 else 0)
                    else if action == 'c' then (if a in old(Used()) then 0 else -1)
                    else if action == 'g' then (if a in old(Used()) then 1 else 0)
                    else -1
      ensures Used() == if rv == 0 && action == 's' then old(Used()) + {a}
                        else if rv == 0 && action == 'c' then old(Used()) - {a}
                        else old(Used())
      ensures rv == -1 || action == 'g' ==> bitmap[..] == old(bitmap[..]) && available == old(available)
    {
      if !Contains(a) {
        return -1;
      }
      var isSet := Get(a);
      rv := -1;
      if action == 's' && !isSet {
        Set(a);
        rv := 0;
      } else if action == 'c' && isSet {
        Clear(a);
        rv := 0;
      } else if action == 'g' {
        rv := if isSet then 1 else 0;
      }
    }
  }

  /**
   address_pool_new, and the overrides of the configuration added behind the subnet mask: null for a
   range it does not accept, otherwise a pool with every address free.
   */
  method NewPool(name: string, start: uint32, end: uint32, mask: uint32, overrides: seq<DhcpOption>)
    returns (p: AddressPool?)
    ensures p == null <==> !Accepts(start, end, mask)
    ensures p != null ==> fresh(p) && fresh(p.bitmap) && (p.Valid() <==> end - start + 8 < TWO32)
    ensures p != null && p.Valid() ==>
              p.View() == Pool(name, start, end, mask, AddAll([SubnetMaskOption(mask)], overrides), {})
  {
    if !OnSubnet(start, end, mask) || start >= end {
      return null;
    }
    p := new AddressPool(name, start, end, mask, AddAll([SubnetMaskOption(mask)], overrides));
  }
}
