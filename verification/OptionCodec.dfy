/** The type/length/value form of options on the wire. */
module OptionCodec {
  import opened Words
  import opened DhcpOptions
  import opened OptionLists
  import opened ReplyOptions

  // ---------------------------------------------------------------- values

  /** The loop of parse_option_value_numeric and _ip: big-endian, in a uint32_t. */
  function BigEndian(v: seq<byte>): uint32 {
    if v == [] then 0 else (BigEndian(v[..|v| - 1]) * 0x100 + v[|v| - 1]) % TWO32
  }

  /** A uint32_t stored in the union. */
  function StoreNumber(n: uint32): OptionValue {
    ZeroPadded([n % 0x100, n / 0x100 % 0x100, n / 0x1_0000 % 0x100, n / 0x100_0000])
  }

  /** parse_option_value on the octets the length covers. */
  function ParseValue(kind: OptionType, v: seq<byte>): OptionValue
    requires |v| <= OPTION_MAX_LENGTH
  {
    match kind
    case Numeric => StoreNumber(BigEndian(v))
    case Ip => StoreNumber(BigEndian(v))
    case Boolean => ZeroPadded([if v == [] || v[0] == 0 then 0 else 1])
    case Text => ZeroPadded(v)
    case Binary => ZeroPadded(v)
  }

  /** Octet `i` of the union read as a number, least significant first; nothing beyond the fourth. */
  function NumberOctet(value: OptionValue, i: nat): byte {
    if i < 4 then value[i] else 0
  }

  /** serialize_option_value. */
  function ValueOctets(o: DhcpOption): (r: seq<byte>)
    ensures |r| == o.length
  {
    if o.kind == Numeric || o.kind == Ip
    then seq(o.length, j requires 0 <= j < o.length => NumberOctet(o.value, o.length - 1 - j))
    else o.value[..o.length]
  }

  /** Values that the parser can produce: nothing past the length, numbers in four octets, booleans 0 or 1. */
  predicate CanonicalValue(kind: OptionType, length: OptionLength, value: OptionValue) {
    match kind
    case Numeric => length <= 4 && forall k :: length <= k < OPTION_MAX_LENGTH ==> value[k] == 0
    case Ip => length <= 4 && forall k :: length <= k < OPTION_MAX_LENGTH ==> value[k] == 0
    case Boolean => value[0] <= 1 && (length == 0 ==> value[0] == 0) && forall k :: 1 <= k < OPTION_MAX_LENGTH ==> value[k] == 0
    case _ => forall k :: length <= k < OPTION_MAX_LENGTH ==> value[k] == 0
  }

  /** What the codec is lossless on. */
  predicate Canonical(o: DhcpOption) {
    && 1 <= o.tag <= 254 && o.kind == TagToType(o.tag)
    && CanonicalValue(o.kind, o.length, o.value)
  }

  lemma {:induction false} BigEndianOf(v: seq<byte>)
    requires |v| <= 4
    ensures |v| == 0 ==> BigEndian(v) == 0
    ensures |v| == 1 ==> BigEndian(v) == v[0]
    ensures |v| == 2 ==> BigEndian(v) == v[0] as int * 0x100 + v[1]
    ensures |v| == 3 ==> BigEndian(v) == v[0] as int * 0x1_0000 + v[1] as int * 0x100 + v[2]
    ensures |v| == 4 ==> BigEndian(v) == v[0] as int * 0x100_0000 + v[1] as int * 0x1_0000 + v[2] as int * 0x100 + v[3]
  {
    if v != [] {
      BigEndianOf(v[..|v| - 1]);
    }
  }

  /** Up to four octets in reverse, with zeros above them. */
  function Reversed4(v: seq<byte>): (w: seq<byte>)
    requires |v| <= 4
    ensures |w| == 4 && forall k :: 0 <= k < 4 ==> w[k] == if k < |v| then v[|v| - 1 - k] else 0
  {
    seq(4, k requires 0 <= k < 4 => if k < |v| then v[|v| - 1 - k] else 0)
  }

  lemma BigEndianIs(v: seq<byte>)
    requires |v| <= 4
    ensures var w := Reversed4(v);
            BigEndian(v) == w[0] as int + 0x100 * w[1] as int + 0x1_0000 * w[2] as int + 0x100_0000 * w[3] as int
  {
    BigEndianOf(v);
  }

  /** Reading back a printed number. */
  lemma NumberRoundTrip(o: DhcpOption)
    requires (o.kind == Numeric || o.kind == Ip) && o.length <= 4 && CanonicalValue(o.kind, o.length, o.value)
    ensures BigEndian(ValueOctets(o)) == o.Number()
  {
    var v := ValueOctets(o);
    forall k | 0 <= k < 4 ensures Reversed4(v)[k] == o.value[k] {
      if k < o.length {
        NumberOctetAt(o, o.length - 1 - k);
      }
    }
    BigEndianIs(v);
  }

  lemma StoreOfNumber(o: DhcpOption)
    requires forall k :: 4 <= k < OPTION_MAX_LENGTH ==> o.value[k] == 0
    ensures StoreNumber(o.Number()) == o.value
  {
    var s := StoreNumber(o.Number());
    SplitNumber(o.value[0], o.value[1], o.value[2], o.value[3]);
    assert s[..4] == [s[0], s[1], s[2], s[3]];
    assert forall k :: 0 <= k < OPTION_MAX_LENGTH ==> s[k] == o.value[k];
  }

  lemma SplitNumber(a: byte, b: byte, c: byte, d: byte)
    ensures var n := a + 0x100 * b + 0x1_0000 * c + 0x100_0000 * d;
            n % 0x100 == a && n / 0x100 % 0x100 == b && n / 0x1_0000 % 0x100 == c && n / 0x100_0000 == d
  {
    var n := a + 0x100 * b + 0x1_0000 * c + 0x100_0000 * d;
    assert n / 0x100 == b + 0x100 * c + 0x1_0000 * d;
    assert n / 0x1_0000 == c + 0x100 * d;
  }

  /** Parsing a printed value gives the value back. */
  lemma ValueRoundTrip(o: DhcpOption)
    requires Canonical(o)
    ensures ParseValue(o.kind, ValueOctets(o)) == o.value
  {
    if o.kind == Numeric || o.kind == Ip {
      NumberRoundTrip(o);
      StoreOfNumber(o);
    } else {
      var v := ParseValue(o.kind, ValueOctets(o));
      assert forall k :: 0 <= k < OPTION_MAX_LENGTH ==> v[k] == o.value[k];
    }
  }

  // ---------------------------------------------------------------- serializing

  function Octets(o: DhcpOption): (r: seq<byte>)
    ensures |r| == 2 + o.length
  {
    [o.tag, o.length] + ValueOctets(o)
  }

  function AllOctets(options: seq<DhcpOption>): (r: seq<byte>)
    ensures |r| == Size(options)
  {
    if options == [] then [] else Octets(options[0]) + AllOctets(options[1..])
  }

  /** How many leading options fit into `room` octets. */
  function Fitting(options: seq<DhcpOption>, room: int): (n: nat)
    ensures n <= |options|
  {
    if options == [] || 2 + options[0].length > room then 0
    else 1 + Fitting(options[1..], room - 2 - options[0].length)
  }

  /** The buffer after serializing: the options that fit, END, and what was there before. */
  ghost function Serialized(raw: seq<byte>, options: seq<DhcpOption>): seq<byte>
    requires |raw| > OPTIONS_SIZE
  {
    var fit := options[..Fitting(options, OPTIONS_SIZE)];
    FittingSize(options, OPTIONS_SIZE);
    AllOctets(fit) + [END] + raw[Size(fit) + 1..]
  }

  lemma {:induction false} FittingSize(options: seq<DhcpOption>, room: int)
    requires room >= 0
    ensures var n := Fitting(options, room);
            && Size(options[..n]) <= room
            && (n < |options| ==> Size(options[..n]) + 2 + options[n].length > room)
            && (n == |options| <==> Size(options) <= room)
  {
    if options != [] && 2 + options[0].length <= room {
      var n := Fitting(options, room);
      FittingSize(options[1..], room - 2 - options[0].length);
      assert options[..n][1..] == options[1..][..n - 1];
    }
    if options != [] {
      assert options[..0] == [];
    }
  }

  lemma {:induction false} SizeAppend(xs: seq<DhcpOption>, o: DhcpOption)
    ensures Size(xs + [o]) == Size(xs) + 2 + o.length
  {
    if xs == [] {
      assert xs + [o] == [o];
    } else {
      assert (xs + [o])[1..] == xs[1..] + [o];
      SizeAppend(xs[1..], o);
    }
  }

  lemma {:induction false} OctetsAppend(xs: seq<DhcpOption>, o: DhcpOption)
    ensures AllOctets(xs + [o]) == AllOctets(xs) + Octets(o)
  {
    if xs == [] {
      assert xs + [o] == [o] && [o][1..] == [];
    } else {
      assert (xs + [o])[1..] == xs[1..] + [o];
      OctetsAppend(xs[1..], o);
    }
  }

  // ---------------------------------------------------------------- parsing

  /**
   `Spins`: the loop meets PAD at an option boundary and never advances.
   `Overruns`: a length octet leads outside the raw buffer or the value buffer.
   */
  datatype Outcome = Parsed(options: seq<DhcpOption>) | Spins | Overruns

  /** The octets from `i` hold a complete option. */
  predicate OptionFits(raw: seq<byte>, i: nat) {
    i + 1 < |raw| && raw[i + 1] <= OPTION_MAX_LENGTH && i + 2 + raw[i + 1] <= |raw|
  }

  function OptionAt(raw: seq<byte>, i: nat): DhcpOption
    requires OptionFits(raw, i)
  {
    var kind := TagToType(raw[i]);
    DhcpOption(raw[i], kind, raw[i + 1], ParseValue(kind, raw[i + 2..i + 2 + raw[i + 1]]))
  }

  /** dhcp_option_parse from offset `i`. */
  function ParseFrom(raw: seq<byte>, i: nat, acc: seq<DhcpOption>): Outcome
    requires |raw| >= OPTIONS_SIZE
    decreases OPTIONS_SIZE - i
  {
    if i >= OPTIONS_SIZE || raw[i] == END then Parsed(acc)
    else if raw[i] == PAD then Spins
    else if !OptionFits(raw, i) then Overruns
    else ParseFrom(raw, i + 2 + raw[i + 1], AddOption(acc, OptionAt(raw, i)))
  }

  function Parse(raw: seq<byte>): Outcome
    requires |raw| >= OPTIONS_SIZE
  {
    ParseFrom(raw, 0, [])
  }

  lemma SliceParts(raw: seq<byte>, i: nat, n: nat)
    requires i + 2 <= n <= |raw|
    ensures raw[i..n][0] == raw[i] && raw[i..n][1] == raw[i + 1] && raw[i..n][2..] == raw[i + 2..n]
  {
  }

  lemma SliceWhole(raw: seq<byte>, i: nat, n: nat)
    requires i + 2 <= n <= |raw|
    ensures raw[i..n] == [raw[i], raw[i + 1]] + raw[i + 2..n] && |raw[i + 2..n]| == n - i - 2
  {
  }

  lemma OctetsParts(o: DhcpOption)
    ensures Octets(o)[0] == o.tag && Octets(o)[1] == o.length && Octets(o)[2..] == ValueOctets(o)
  {
  }

  /** The octets of one option, found in a buffer, parse back to it. */
  lemma OptionRoundTrip(raw: seq<byte>, i: nat, o: DhcpOption)
    requires Canonical(o) && i + 2 + o.length <= |raw| && raw[i..i + 2 + o.length] == Octets(o)
    ensures OptionFits(raw, i) && OptionAt(raw, i) == o && raw[i] == o.tag && raw[i + 1] == o.length
  {
    SliceParts(raw, i, i + 2 + o.length);
    OctetsParts(o);
    ValueRoundTrip(o);
  }

  lemma ParseUnfold(raw: seq<byte>, i: nat, acc: seq<DhcpOption>)
    requires |raw| >= OPTIONS_SIZE && i < OPTIONS_SIZE && raw[i] != END && raw[i] != PAD && OptionFits(raw, i)
    ensures ParseFrom(raw, i, acc) == ParseFrom(raw, i + 2 + raw[i + 1], AddOption(acc, OptionAt(raw, i)))
  {
  }

  lemma ParseHalt(raw: seq<byte>, i: nat, acc: seq<DhcpOption>)
    requires |raw| >= OPTIONS_SIZE
    ensures i >= OPTIONS_SIZE || raw[i] == END ==> ParseFrom(raw, i, acc) == Parsed(acc)
    ensures i < OPTIONS_SIZE && raw[i] == PAD ==> ParseFrom(raw, i, acc) == Spins
    ensures i < OPTIONS_SIZE && raw[i] != END && raw[i] != PAD && !OptionFits(raw, i) ==> ParseFrom(raw, i, acc) == Overruns
  {
  }

  ghost predicate AllCanonical(options: seq<DhcpOption>) {
    forall k :: 0 <= k < |options| ==> Canonical(options[k])
  }

  /** The buffer holds the octets of the options from `i` on. */
  ghost predicate Holds(raw: seq<byte>, i: nat, options: seq<DhcpOption>) {
    i + Size(options) <= |raw| && raw[i..i + Size(options)] == AllOctets(options)
  }

  lemma HoldsHead(raw: seq<byte>, i: nat, options: seq<DhcpOption>)
    requires Holds(raw, i, options) && options != []
    ensures var n := 2 + options[0].length;
            i + n <= |raw| && raw[i..i + n] == Octets(options[0]) && Holds(raw, i + n, options[1..])
  {
    var n, s := 2 + options[0].length, raw[i..i + Size(options)];
    assert raw[i..i + n] == s[..n];
    assert raw[i + n..i + Size(options)] == s[n..];
  }

  /** The parser stands before option `o`. */
  ghost predicate Meets(raw: seq<byte>, i: nat, o: DhcpOption) {
    && i < OPTIONS_SIZE && OptionFits(raw, i) && raw[i] != END && raw[i] != PAD
    && raw[i + 1] == o.length && OptionAt(raw, i) == o
  }

  /** Options that the parser meets one after the other from `i` on, then END or the end of the scanned range. */
  ghost predicate Wire(raw: seq<byte>, i: nat, options: seq<DhcpOption>)
    requires |raw| >= OPTIONS_SIZE
    decreases options
  {
    if options == [] then i >= OPTIONS_SIZE || raw[i] == END
    else Meets(raw, i, options[0]) && Wire(raw, i + 2 + options[0].length, options[1..])
  }

  lemma CanonicalTail(options: seq<DhcpOption>)
    requires AllCanonical(options) && options != []
    ensures AllCanonical(options[1..])
  {
  }

  lemma HeadMeets(raw: seq<byte>, i: nat, options: seq<DhcpOption>)
    requires |raw| >= OPTIONS_SIZE && i + Size(options) <= OPTIONS_SIZE && options != []
    requires Canonical(options[0]) && Holds(raw, i, options)
    ensures Meets(raw, i, options[0]) && Holds(raw, i + 2 + options[0].length, options[1..])
  {
    HoldsHead(raw, i, options);
    OptionRoundTrip(raw, i, options[0]);
  }

  lemma HoldsStep(raw: seq<byte>, i: nat, options: seq<DhcpOption>) returns (next: nat)
    requires |raw| >= OPTIONS_SIZE && i + Size(options) <= OPTIONS_SIZE && options != []
    requires AllCanonical(options) && Holds(raw, i, options)
    ensures next == i + 2 + options[0].length && Meets(raw, i, options[0]) && Holds(raw, next, options[1..])
    ensures next + Size(options[1..]) == i + Size(options) && AllCanonical(options[1..])
  {
    next := i + 2 + options[0].length;
    assert Meets(raw, i, options[0]) && Holds(raw, next, options[1..]) by {
      HeadMeets(raw, i, options);
    }
    CanonicalTail(options);
  }

  lemma {:induction false} HoldsIsWire(raw: seq<byte>, i: nat, options: seq<DhcpOption>)
    requires |raw| >= OPTIONS_SIZE && i + Size(options) <= OPTIONS_SIZE
    requires AllCanonical(options) && Holds(raw, i, options)
    requires i + Size(options) < OPTIONS_SIZE ==> raw[i + Size(options)] == END
    ensures Wire(raw, i, options)
    decreases options
  {
    if options != [] {
      var next := HoldsStep(raw, i, options);
      HoldsIsWire(raw, next, options[1..]);
    }
  }

  lemma SerializedHolds(raw: seq<byte>, options: seq<DhcpOption>)
    requires |raw| > OPTIONS_SIZE && Size(options) <= OPTIONS_SIZE
    ensures var s := Serialized(raw, options);
            |s| == |raw| && Holds(s, 0, options) && s[Size(options)] == END
  {
    FittingSize(options, OPTIONS_SIZE);
    assert options[..|options|] == options;
  }

  lemma SerializedIsWire(raw: seq<byte>, options: seq<DhcpOption>)
    requires |raw| > OPTIONS_SIZE && Size(options) <= OPTIONS_SIZE && AllCanonical(options)
    ensures |Serialized(raw, options)| == |raw| && Wire(Serialized(raw, options), 0, options)
  {
    var s := Serialized(raw, options);
    assert |s| == |raw| && Holds(s, 0, options) && s[Size(options)] == END by {
      SerializedHolds(raw, options);
    }
    HoldsIsWire(s, 0, options);
  }

  /** Parse after serialize is the identity, up to and including an exactly full buffer. */
  lemma ParseAfterSerialize(raw: seq<byte>, options: seq<DhcpOption>)
    requires |raw| > OPTIONS_SIZE && Size(options) <= OPTIONS_SIZE
    requires DistinctTags(options) && AllCanonical(options)
    ensures |Serialized(raw, options)| == |raw| && Parse(Serialized(raw, options)) == Parsed(options)
  {
    SerializedIsWire(raw, options);
    WireMet(Serialized(raw, options), 0, options);
    ParseDistinct(Serialized(raw, options));
  }

  // ---------------------------------------------------------------- any buffer

  /** Where the walk over option boundaries from `i` comes to a halt. */
  function Stop(raw: seq<byte>, i: nat): nat
    requires |raw| >= OPTIONS_SIZE
    decreases OPTIONS_SIZE - i
  {
    if i >= OPTIONS_SIZE || raw[i] == END || raw[i] == PAD || !OptionFits(raw, i) then i
    else Stop(raw, i + 2 + raw[i + 1])
  }

  /** The options met on the way, repeated tags included. */
  function Met(raw: seq<byte>, i: nat): seq<DhcpOption>
    requires |raw| >= OPTIONS_SIZE
    decreases OPTIONS_SIZE - i
  {
    if i >= OPTIONS_SIZE || raw[i] == END || raw[i] == PAD || !OptionFits(raw, i) then []
    else [OptionAt(raw, i)] + Met(raw, i + 2 + raw[i + 1])
  }

  /** The parser goes on from `i`. */
  predicate GoesOn(raw: seq<byte>, i: nat)
    requires |raw| >= OPTIONS_SIZE
  {
    i < OPTIONS_SIZE && raw[i] != END && raw[i] != PAD && OptionFits(raw, i)
  }

  lemma WalkStep(raw: seq<byte>, i: nat) returns (o: DhcpOption, next: nat)
    requires |raw| >= OPTIONS_SIZE && GoesOn(raw, i)
    ensures i < next && Stop(raw, i) == Stop(raw, next) && Met(raw, i) == [o] + Met(raw, next)
    ensures forall acc :: ParseFrom(raw, i, acc) == ParseFrom(raw, next, AddOption(acc, o))
  {
    o, next := OptionAt(raw, i), i + 2 + raw[i + 1];
    forall acc ensures ParseFrom(raw, i, acc) == ParseFrom(raw, next, AddOption(acc, o)) {
      ParseUnfold(raw, i, acc);
    }
  }

  lemma WalkHalt(raw: seq<byte>, i: nat)
    requires |raw| >= OPTIONS_SIZE && !GoesOn(raw, i)
    ensures Stop(raw, i) == i && Met(raw, i) == []
  {
  }

  lemma AddAllCons(acc: seq<DhcpOption>, o: DhcpOption, rest: seq<DhcpOption>)
    ensures AddAll(acc, [o] + rest) == AddAll(AddOption(acc, o), rest)
  {
    assert ([o] + rest)[1..] == rest;
  }

  /** What the parser makes of a walk that ends at `p` and has met `met`. */
  function Ending(raw: seq<byte>, p: nat, met: seq<DhcpOption>): Outcome
    requires |raw| >= OPTIONS_SIZE
  {
    if p >= OPTIONS_SIZE || raw[p] == END then Parsed(met) else if raw[p] == PAD then Spins else Overruns
  }

  /**
   The parser returns exactly when its walk ends at END or behind the scanned range; at PAD it
   never returns. What it returns are the options met, the first of each tag.
   */
  lemma {:induction false} ParseStops(raw: seq<byte>, i: nat, acc: seq<DhcpOption>)
    requires |raw| >= OPTIONS_SIZE
    ensures ParseFrom(raw, i, acc) == Ending(raw, Stop(raw, i), AddAll(acc, Met(raw, i)))
    decreases OPTIONS_SIZE - i
  {
    if GoesOn(raw, i) {
      var o, next := WalkStep(raw, i);
      ParseStops(raw, next, AddOption(acc, o));
      AddAllCons(acc, o, Met(raw, next));
    } else {
      WalkHalt(raw, i);
      ParseHalt(raw, i, acc);
    }
  }

  lemma MeetsStep(raw: seq<byte>, i: nat, o: DhcpOption) returns (next: nat)
    requires |raw| >= OPTIONS_SIZE && Meets(raw, i, o)
    ensures next == i + 2 + o.length && Met(raw, i) == [o] + Met(raw, next) && Stop(raw, i) == Stop(raw, next)
  {
    next := i + 2 + o.length;
  }

  /** The walk ends where the parser returns. */
  predicate Halts(raw: seq<byte>, i: nat)
    requires |raw| >= OPTIONS_SIZE
  {
    Stop(raw, i) >= OPTIONS_SIZE || raw[Stop(raw, i)] == END
  }

  lemma WireEnd(raw: seq<byte>, i: nat)
    requires |raw| >= OPTIONS_SIZE && Wire(raw, i, [])
    ensures Met(raw, i) == [] && Halts(raw, i)
  {
  }

  /** On such a buffer the walk meets just these options and halts properly. */
  lemma {:induction false} WireMet(raw: seq<byte>, i: nat, options: seq<DhcpOption>)
    requires |raw| >= OPTIONS_SIZE && Wire(raw, i, options)
    ensures Met(raw, i) == options && Halts(raw, i)
    decreases options
  {
    if options == [] {
      WireEnd(raw, i);
    } else {
      var next := MeetsStep(raw, i, options[0]);
      WireMet(raw, next, options[1..]);
      assert options == [options[0]] + options[1..];
    }
  }

  /** Without repeated tags the parser returns all options met. */
  lemma ParseDistinct(raw: seq<byte>)
    requires |raw| >= OPTIONS_SIZE && Halts(raw, 0) && DistinctTags(Met(raw, 0))
    ensures Parse(raw) == Parsed(Met(raw, 0))
  {
    ParseStops(raw, 0, []);
    assert [] + Met(raw, 0) == Met(raw, 0);
    AddAllAppends([], Met(raw, 0));
  }

  /** A buffer that starts with PAD, as one of zeros does, is never parsed to its end. */
  lemma PadSpins(raw: seq<byte>)
    requires |raw| >= OPTIONS_SIZE && raw[0] == PAD
    ensures Parse(raw) == Spins
  {
    ParseHalt(raw, 0, []);
  }

  /** With repeated tags the first occurrence wins. */
  lemma FirstOccurrenceWins(raw: seq<byte>, tag: byte)
    requires |raw| >= OPTIONS_SIZE && Parse(raw).Parsed?
    ensures DistinctTags(Parse(raw).options)
    ensures Retrieve(Parse(raw).options, tag) == Retrieve(Met(raw, 0), tag)
  {
    ParseStops(raw, 0, []);
    AddAllDistinct([], Met(raw, 0));
    RetrieveAddAll([], Met(raw, 0), tag);
    assert [] + Met(raw, 0) == Met(raw, 0);
  }

  /** Value octets that the parser does not normalise. */
  predicate CanonicalOctets(kind: OptionType, v: seq<byte>) {
    match kind
    case Numeric => |v| <= 4
    case Ip => |v| <= 4
    case Boolean => v == [] || (v[0] <= 1 && forall k :: 1 <= k < |v| ==> v[k] == 0)
    case _ => true
  }

  lemma NumberOctetAt(o: DhcpOption, k: nat)
    requires (o.kind == Numeric || o.kind == Ip) && k < o.length
    ensures ValueOctets(o)[k] == NumberOctet(o.value, o.length - 1 - k)
  {
  }

  lemma StoredFour(n: uint32, a: byte, b: byte, c: byte, d: byte)
    requires n == a as int + 0x100 * b as int + 0x1_0000 * c as int + 0x100_0000 * d as int
    ensures StoreNumber(n) == ZeroPadded([a, b, c, d])
  {
    SplitNumber(a, b, c, d);
  }

  /** The stored number holds the octets in reverse, and zeros above them. */
  lemma StoredReversed(v: seq<byte>)
    requires |v| <= 4
    ensures StoreNumber(BigEndian(v)) == ZeroPadded(Reversed4(v))
  {
    BigEndianIs(v);
    StoredAs(BigEndian(v), Reversed4(v));
  }

  lemma StoredAs(n: uint32, w: seq<byte>)
    requires |w| == 4
    requires n == w[0] as int + 0x100 * w[1] as int + 0x1_0000 * w[2] as int + 0x100_0000 * w[3] as int
    ensures StoreNumber(n) == ZeroPadded(w)
  {
    StoredFour(n, w[0], w[1], w[2], w[3]);
    assert w == [w[0], w[1], w[2], w[3]];
  }

  lemma PaddedAt(w: seq<byte>, k: nat)
    requires |w| == 4 && k < OPTION_MAX_LENGTH
    ensures ZeroPadded(w)[k] == if k < 4 then w[k] else 0
  {
    assert k < 4 ==> ZeroPadded(w)[..4][k] == w[k];
  }

  lemma NumberRestored(kind: OptionType, tag: byte, v: seq<byte>)
    requires (kind == Numeric || kind == Ip) && |v| <= 4
    ensures var o := DhcpOption(tag, kind, |v|, ParseValue(kind, v));
            CanonicalValue(kind, |v|, o.value) && ValueOctets(o) == v
  {
    var o := DhcpOption(tag, kind, |v|, ParseValue(kind, v));
    var w := Reversed4(v);
    StoredReversed(v);
    assert o.value == ZeroPadded(w);
    forall k | 0 <= k < |v| ensures ValueOctets(o)[k] == v[k] {
      NumberOctetAt(o, k);
      PaddedAt(w, |v| - 1 - k);
    }
    forall k | |v| <= k < OPTION_MAX_LENGTH ensures o.value[k] == 0 {
      PaddedAt(w, k);
    }
  }

  /** Printing a parsed canonical value gives its octets back. */
  lemma OctetsRestored(tag: byte, v: seq<byte>)
    requires 1 <= tag <= 254 && |v| <= OPTION_MAX_LENGTH && CanonicalOctets(TagToType(tag), v)
    ensures var o := DhcpOption(tag, TagToType(tag), |v|, ParseValue(TagToType(tag), v));
            Canonical(o) && ValueOctets(o) == v
  {
    var kind := TagToType(tag);
    if kind == Numeric || kind == Ip {
      NumberRestored(kind, tag, v);
    } else {
      var o := DhcpOption(tag, kind, |v|, ParseValue(kind, v));
      assert forall k :: 0 <= k < |v| ==> o.value[..|v|][k] == v[k];
    }
  }

  /** Options inside the scanned range with canonical values, up to END or its end. */
  ghost predicate WellFormed(raw: seq<byte>, i: nat)
    requires |raw| >= OPTIONS_SIZE
    decreases OPTIONS_SIZE - i
  {
    if i >= OPTIONS_SIZE then i == OPTIONS_SIZE
    else raw[i] == END ||
         (&& raw[i] != PAD && OptionFits(raw, i) && i + 2 + raw[i + 1] <= OPTIONS_SIZE
          && CanonicalOctets(TagToType(raw[i]), raw[i + 2..i + 2 + raw[i + 1]])
          && WellFormed(raw, i + 2 + raw[i + 1]))
  }

  lemma WrittenAs(tag: byte, n: byte, v: seq<byte>, slice: seq<byte>)
    requires 1 <= tag <= 254 && |v| == n <= OPTION_MAX_LENGTH && CanonicalOctets(TagToType(tag), v)
    requires slice == [tag, n] + v
    ensures var o := DhcpOption(tag, TagToType(tag), n, ParseValue(TagToType(tag), v)); Canonical(o) && slice == Octets(o)
  {
    OctetsRestored(tag, v);
  }

  lemma OptionWritten(raw: seq<byte>, i: nat)
    requires OptionFits(raw, i) && 1 <= raw[i] <= 254
    requires CanonicalOctets(TagToType(raw[i]), raw[i + 2..i + 2 + raw[i + 1]])
    ensures raw[i..i + 2 + raw[i + 1]] == Octets(OptionAt(raw, i)) && OptionAt(raw, i).length == raw[i + 1]
  {
    var tag, n, v, slice := raw[i], raw[i + 1], raw[i + 2..i + 2 + raw[i + 1]], raw[i..i + 2 + raw[i + 1]];
    assert |v| == n && slice == [tag, n] + v by {
      SliceWhole(raw, i, i + 2 + n);
    }
    assert slice == Octets(DhcpOption(tag, TagToType(tag), n, ParseValue(TagToType(tag), v))) by {
      WrittenAs(tag, n, v, slice);
    }
  }

  lemma HoldsCons(raw: seq<byte>, i: nat, o: DhcpOption, rest: seq<DhcpOption>)
    requires var next := i + 2 + o.length; next <= |raw| && raw[i..next] == Octets(o) && Holds(raw, next, rest)
    ensures Holds(raw, i, [o] + rest) && Size([o] + rest) == 2 + o.length + Size(rest)
  {
    var next, end := i + 2 + o.length, i + 2 + o.length + Size(rest);
    assert ([o] + rest)[1..] == rest;
    assert raw[i..end] == raw[i..next] + raw[next..end];
  }

  /** The octets of the options follow one another from `i` on, then END or the end of the scanned range. */
  ghost predicate Spelled(raw: seq<byte>, i: nat, options: seq<DhcpOption>)
    requires |raw| >= OPTIONS_SIZE
    decreases options
  {
    if options == [] then i == OPTIONS_SIZE || (i < OPTIONS_SIZE && raw[i] == END)
    else
      var next := i + 2 + options[0].length;
      next <= OPTIONS_SIZE && raw[i..next] == Octets(options[0]) && Spelled(raw, next, options[1..])
  }

  lemma SpelledCons(raw: seq<byte>, i: nat, o: DhcpOption, rest: seq<DhcpOption>)
    requires |raw| >= OPTIONS_SIZE
    requires var next := i + 2 + o.length; next <= OPTIONS_SIZE && raw[i..next] == Octets(o) && Spelled(raw, next, rest)
    ensures Spelled(raw, i, [o] + rest)
  {
    assert ([o] + rest)[0] == o && ([o] + rest)[1..] == rest;
  }

  lemma {:induction false} SpelledHolds(raw: seq<byte>, i: nat, options: seq<DhcpOption>)
    requires |raw| >= OPTIONS_SIZE && Spelled(raw, i, options)
    ensures i + Size(options) <= OPTIONS_SIZE && Holds(raw, i, options)
    ensures i + Size(options) < OPTIONS_SIZE ==> raw[i + Size(options)] == END
    decreases options
  {
    if options != [] {
      var o, rest, next := options[0], options[1..], i + 2 + options[0].length;
      SpelledHolds(raw, next, rest);
      assert Holds(raw, i, [o] + rest) && Size([o] + rest) == 2 + o.length + Size(rest) by {
        HoldsCons(raw, i, o, rest);
      }
      assert options == [o] + rest;
    }
  }

  lemma WellFormedStep(raw: seq<byte>, i: nat) returns (o: DhcpOption, next: nat)
    requires |raw| >= OPTIONS_SIZE && WellFormed(raw, i) && i < OPTIONS_SIZE && raw[i] != END
    ensures i < next == i + 2 + o.length <= OPTIONS_SIZE && WellFormed(raw, next)
    ensures raw[i..next] == Octets(o) && Met(raw, i) == [o] + Met(raw, next)
  {
    WellFormedHead(raw, i);
    o, next := OptionAt(raw, i), i + 2 + raw[i + 1];
    assert raw[i..next] == Octets(o) && o.length == raw[i + 1] by {
      OptionWritten(raw, i);
    }
    assert Met(raw, i) == [o] + Met(raw, next) by {
      MetNext(raw, i);
    }
  }

  lemma MetNext(raw: seq<byte>, i: nat)
    requires |raw| >= OPTIONS_SIZE && GoesOn(raw, i)
    ensures Met(raw, i) == [OptionAt(raw, i)] + Met(raw, i + 2 + raw[i + 1])
  {
  }

  lemma WellFormedHead(raw: seq<byte>, i: nat)
    requires |raw| >= OPTIONS_SIZE && WellFormed(raw, i) && i < OPTIONS_SIZE && raw[i] != END
    ensures raw[i] != PAD && OptionFits(raw, i) && i + 2 + raw[i + 1] <= OPTIONS_SIZE && WellFormed(raw, i + 2 + raw[i + 1])
    ensures CanonicalOctets(TagToType(raw[i]), raw[i + 2..i + 2 + raw[i + 1]])
  {
  }

  /** A well-formed buffer spells out the options the walk meets. */
  lemma {:induction false} WellFormedSpelled(raw: seq<byte>, i: nat)
    requires |raw| >= OPTIONS_SIZE && i <= OPTIONS_SIZE && WellFormed(raw, i)
    ensures Spelled(raw, i, Met(raw, i))
    decreases OPTIONS_SIZE - i
  {
    if i < OPTIONS_SIZE && raw[i] != END {
      var o, next := WellFormedStep(raw, i);
      WellFormedSpelled(raw, next);
      SpelledCons(raw, i, o, Met(raw, next));
    }
  }

  lemma {:induction false} WellFormedHalts(raw: seq<byte>, i: nat)
    requires |raw| >= OPTIONS_SIZE && i <= OPTIONS_SIZE && WellFormed(raw, i)
    ensures Halts(raw, i)
    decreases OPTIONS_SIZE - i
  {
    if i < OPTIONS_SIZE && raw[i] != END {
      WellFormedHalts(raw, i + 2 + raw[i + 1]);
    }
  }

  lemma HoldSame(a: seq<byte>, b: seq<byte>, options: seq<DhcpOption>)
    requires Holds(a, 0, options) && Holds(b, 0, options)
    ensures a[..Size(options)] == b[..Size(options)]
  {
    assert a[..Size(options)] == a[0..0 + Size(options)];
    assert b[..Size(options)] == b[0..0 + Size(options)];
  }

  lemma SerializeSpelled(raw: seq<byte>, buffer: seq<byte>, options: seq<DhcpOption>)
    requires |raw| >= OPTIONS_SIZE && |buffer| > OPTIONS_SIZE && Spelled(raw, 0, options)
    ensures Size(options) <= OPTIONS_SIZE && Size(options) <= |Serialized(buffer, options)|
    ensures Size(options) < OPTIONS_SIZE ==> raw[Size(options)] == END
    ensures Serialized(buffer, options)[..Size(options)] == raw[..Size(options)]
  {
    SpelledHolds(raw, 0, options);
    var s := Serialized(buffer, options);
    assert Holds(s, 0, options) by {
      SerializedHolds(buffer, options);
    }
    HoldSame(raw, s, options);
  }

  /** Serialize after parse reproduces the octets up to END. */
  lemma SerializeAfterParse(raw: seq<byte>, buffer: seq<byte>)
    requires |raw| >= OPTIONS_SIZE && |buffer| > OPTIONS_SIZE
    requires WellFormed(raw, 0) && DistinctTags(Met(raw, 0))
    ensures var options := Met(raw, 0);
            && Parse(raw) == Parsed(options) && Size(options) <= OPTIONS_SIZE
            && (Size(options) < OPTIONS_SIZE ==> raw[Size(options)] == END)
            && Size(options) <= |Serialized(buffer, options)|
            && Serialized(buffer, options)[..Size(options)] == raw[..Size(options)]
  {
    WellFormedHalts(raw, 0);
    ParseDistinct(raw);
    WellFormedSpelled(raw, 0);
    SerializeSpelled(raw, buffer, Met(raw, 0));
  }

  /** A copy prints like its original. */
  lemma CopySerializesAlike(o: DhcpOption)
    requires o.kind == TagToType(o.tag)
    ensures Octets(CopyOption(o)) == Octets(o)
  {
    var c := CopyOption(o);
    assert forall k :: 0 <= k < o.length ==> c.value[k] == c.value[..o.length][k] == o.value[k];
    if o.kind == Numeric || o.kind == Ip {
      forall k | 0 <= k < o.length ensures ValueOctets(c)[k] == ValueOctets(o)[k] {
        NumberOctetAt(c, k);
        NumberOctetAt(o, k);
      }
    }
  }

  /** The numbers the protocol reads: requested address, lease time, message type and server identifier. */
  lemma WireNumbers(raw: seq<byte>, i: nat)
    requires OptionFits(raw, i) && raw[i] in {50, 51, 53, 54} && raw[i + 1] <= 4
    ensures OptionAt(raw, i).tag == raw[i] && OptionAt(raw, i).Number() == BigEndian(raw[i + 2..i + 2 + raw[i + 1]])
  {
    var v := raw[i + 2..i + 2 + raw[i + 1]];
    StoredReads(v);
  }

  lemma StoredReads(v: seq<byte>)
    requires |v| <= 4
    ensures forall tag: byte, length: OptionLength, kind: OptionType ::
              DhcpOption(tag, kind, length, StoreNumber(BigEndian(v))).Number() == BigEndian(v)
  {
    var w := Reversed4(v);
    BigEndianIs(v);
    StoredReversed(v);
    assert forall k :: 0 <= k < 4 ==> ZeroPadded(w)[k] == w[k] by {
      forall k | 0 <= k < 4 ensures ZeroPadded(w)[k] == w[k] {
        PaddedAt(w, k);
      }
    }
  }

  /** The octets the protocol compares and reads: parameter list and client identifier. */
  lemma WireOctets(raw: seq<byte>, i: nat)
    requires OptionFits(raw, i) && raw[i] in {55, 61}
    ensures OptionAt(raw, i).tag == raw[i] && Covered(OptionAt(raw, i)) == raw[i + 2..i + 2 + raw[i + 1]]
  {
  }

  // ---------------------------------------------------------------- the loops

  /** parse_option_value_numeric and parse_option_value_ip. */
  method ReadNumber(v: seq<byte>) returns (n: uint32)
    ensures n == BigEndian(v)
  {
    n := 0;
    for i := 0 to |v|
      invariant n == BigEndian(v[..i])
    {
      assert v[..i + 1][..i] == v[..i];
      n := (n * 0x100 + v[i]) % TWO32;
    }
    assert v[..|v|] == v;
  }

  /** parse_option_value. */
  method ReadValue(kind: OptionType, v: seq<byte>) returns (value: OptionValue)
    requires |v| <= OPTION_MAX_LENGTH
    ensures value == ParseValue(kind, v)
  {
    match kind
    case Numeric =>
      var n := ReadNumber(v);
      value := StoreNumber(n);
    case Ip =>
      var n := ReadNumber(v);
      value := StoreNumber(n);
    case Boolean =>
      value := ZeroPadded([if v == [] || v[0] == 0 then 0 else 1]);
    case _ =>
      value := ZeroPadded(v);
  }

  /** The option whose tag stands at offset `i`. */
  method ReadOption(raw: array<byte>, i: nat) returns (o: DhcpOption)
    requires OptionFits(raw[..], i)
    ensures o == OptionAt(raw[..], i)
  {
    var kind, n := TagToType(raw[i]), raw[i + 1];
    var value := ReadValue(kind, raw[i + 2..i + 2 + n]);
    assert raw[i + 2..i + 2 + n] == raw[..][i + 2..i + 2 + n];
    o := DhcpOption(raw[i], kind, n, value);
  }

  /** dhcp_option_parse into an empty list. */
  method ParseOptions(raw: array<byte>) returns (r: Outcome)
    requires raw.Length >= OPTIONS_SIZE
    ensures r == Parse(raw[..])
  {
    ghost var octets := raw[..];
    ghost var result := Parse(octets);
    var i: nat := 0;
    var dest := [];
    while i < OPTIONS_SIZE
      invariant ParseFrom(octets, i, dest) == result
      decreases OPTIONS_SIZE - i
    {
      ParseHalt(octets, i, dest);
      if raw[i] == PAD {
        return Spins;
      }
      if raw[i] == END {
        return Parsed(dest);
      }
      if i + 1 >= raw.Length || raw[i + 1] > OPTION_MAX_LENGTH || i + 2 + raw[i + 1] > raw.Length {
        return Overruns;
      }
      ParseUnfold(octets, i, dest);
      var option := ReadOption(raw, i);
      dest := AddOption(dest, option);
      i := i + 2 + raw[i + 1];
    }
    ParseHalt(octets, i, dest);
    r := Parsed(dest);
  }

  /** serialize_option_value at offset `at`. */
  method WriteValue(o: DhcpOption, raw: array<byte>, at: nat)
    requires at + o.length <= raw.Length
    modifies raw
    ensures raw[at..at + o.length] == ValueOctets(o)
    ensures raw[..at] == old(raw[..at]) && raw[at + o.length..] == old(raw[at + o.length..])
  {
    var n: nat := o.length;
    if o.kind == Numeric || o.kind == Ip {
      for i := 0 to n
        invariant forall k :: n - i <= k < n ==> raw[at + k] == ValueOctets(o)[k]
        invariant raw[..at] == old(raw[..at]) && raw[at + n..] == old(raw[at + n..])
      {
        NumberOctetAt(o, n - i - 1);
        raw[at + n - i - 1] := NumberOctet(o.value, i);
      }
    } else {
      for i := 0 to n
        invariant forall k :: 0 <= k < i ==> raw[at + k] == o.value[k]
        invariant raw[..at] == old(raw[..at]) && raw[at + n..] == old(raw[at + n..])
      {
        raw[at + i] := o.value[i];
      }
    }
  }

  /** One option written behind those already there. */
  method WriteOption(o: DhcpOption, raw: array<byte>, at: nat)
    requires at + 2 + o.length <= raw.Length
    modifies raw
    ensures raw[..at + 2 + o.length] == old(raw[..at]) + Octets(o)
    ensures raw[at + 2 + o.length..] == old(raw[at + 2 + o.length..])
  {
    raw[at] := o.tag;
    raw[at + 1] := o.length;
    WriteValue(o, raw, at + 2);
    assert raw[..at + 2] == old(raw[..at]) + [o.tag, o.length];
    assert raw[..at + 2 + o.length] == raw[..at + 2] + raw[at + 2..at + 2 + o.length];
  }

  /** Where the serializer stands after `i` options. */
  ghost predicate Progress(options: seq<DhcpOption>, i: nat, bytes: nat) {
    && i <= |options| && bytes == Size(options[..i]) <= OPTIONS_SIZE
    && Fitting(options, OPTIONS_SIZE) == i + Fitting(options[i..], OPTIONS_SIZE - bytes)
  }

  lemma ProgressNext(options: seq<DhcpOption>, i: nat, bytes: nat)
    requires Progress(options, i, bytes) && i < |options|
    requires bytes + 2 + options[i].length <= OPTIONS_SIZE
    ensures Progress(options, i + 1, bytes + 2 + options[i].length)
    ensures AllOctets(options[..i + 1]) == AllOctets(options[..i]) + Octets(options[i])
  {
    assert options[..i + 1] == options[..i] + [options[i]];
    assert options[i..][0] == options[i] && options[i..][1..] == options[i + 1..];
    SizeAppend(options[..i], options[i]);
    OctetsAppend(options[..i], options[i]);
  }

  lemma ProgressDone(options: seq<DhcpOption>, i: nat, bytes: nat)
    requires Progress(options, i, bytes) && (i < |options| ==> bytes + 2 + options[i].length > OPTIONS_SIZE)
    ensures i == Fitting(options, OPTIONS_SIZE)
  {
    if i < |options| {
      assert options[i..][0] == options[i];
    }
  }

  lemma SameTail(a: seq<byte>, b: seq<byte>, i: nat, j: nat)
    requires |a| == |b| && i <= j <= |a| && a[i..] == b[i..]
    ensures a[j..] == b[j..]
  {
    assert a[j..] == a[i..][j - i..] && b[j..] == b[i..][j - i..];
  }

  /** The loop of dhcp_options_serialize: stops at the first option that does not fit. */
  method WriteFitting(options: seq<DhcpOption>, raw: array<byte>) returns (n: nat, bytes: nat)
    requires raw.Length > OPTIONS_SIZE
    modifies raw
    ensures n == Fitting(options, OPTIONS_SIZE) && bytes == Size(options[..n]) <= OPTIONS_SIZE
    ensures raw[..bytes] == AllOctets(options[..n])
    ensures raw[bytes..] == old(raw[..])[bytes..]
  {
    ghost var before := raw[..];
    bytes := 0;
    n := 0;
    assert options[..0] == [] && options[0..] == options;
    while n < |options| && bytes + 2 + options[n].length <= OPTIONS_SIZE
      invariant Progress(options, n, bytes)
      invariant raw[..bytes] == AllOctets(options[..n])
      invariant raw[bytes..] == before[bytes..]
    {
      ProgressNext(options, n, bytes);
      var next: nat := bytes + 2 + options[n].length;
      SameTail(raw[..], before, bytes, next);
      WriteOption(options[n], raw, bytes);
      bytes := next;
      n := n + 1;
    }
    ProgressDone(options, n, bytes);
  }

  lemma PutEnd(s: seq<byte>, before: seq<byte>, bytes: nat)
    requires |s| == |before| && bytes < |s| && s[bytes..] == before[bytes..]
    ensures s[bytes := END] == s[..bytes] + [END] + before[bytes + 1..]
  {
    SameTail(s, before, bytes, bytes + 1);
  }

  /** dhcp_options_serialize. */
  method SerializeOptions(options: seq<DhcpOption>, raw: array<byte>) returns (ok: bool)
    requires raw.Length > OPTIONS_SIZE
    modifies raw
    ensures raw[..] == Serialized(old(raw[..]), options)
    ensures ok <==> Size(options) <= OPTIONS_SIZE
  {
    FittingSize(options, OPTIONS_SIZE);
    ghost var before := raw[..];
    var n, bytes := WriteFitting(options, raw);
    PutEnd(raw[..], before, bytes);
    raw[bytes] := END;
    ok := n == |options|;
  }
}
