/** The raw packet in network byte order and the message parsed from it. */
module DhcpPacket {
  import opened Words
  import opened DhcpOptions
  import opened OptionLists
  import opened ReplyOptions
  import opened OptionCodec
  import opened AddressText

  const MAGIC_COOKIE: uint32 := 0x6382_5363
  const RAW_OPTIONS := 336

  type uint16 = x: int | 0 <= x < 0x1_0000
  type Octets16 = s: seq<byte> | |s| == 16 witness seq(16, _ => 0)
  type Octets18 = s: seq<byte> | |s| == 18 witness seq(18, _ => 0)
  type Octets64 = s: seq<byte> | |s| == 64 witness seq(64, _ => 0)
  type Octets128 = s: seq<byte> | |s| == 128 witness seq(128, _ => 0)

  /** Header fields of dhcp_packet_t as they lie in memory: multi-byte fields in network order. */
  datatype Packet = Packet(opcode: byte, htype: byte, hlen: byte, hops: byte, xid: uint32, secs: uint16, flags: uint16,
                           ciaddr: uint32, yiaddr: uint32, siaddr: uint32, giaddr: uint32,
                           chaddr: Octets16, sname: Octets64, filename: Octets128, cookie: uint32)

  /** Header fields of dhcp_message_t in host order; its hardware address field is two octets longer. */
  datatype Header = Header(opcode: byte, htype: byte, hlen: byte, hops: byte, xid: uint32, secs: uint16, flags: uint16,
                           ciaddr: uint32, yiaddr: uint32, siaddr: uint32, giaddr: uint32,
                           chaddr: Octets18, sname: Octets64, filename: Octets128, cookie: uint32)

  /** Four octets as a number, the first the least significant. */
  function Join(a: byte, b: byte, c: byte, d: byte): uint32 {
    a as int + 0x100 * b as int + 0x1_0000 * c as int + 0x100_0000 * d as int
  }

  /** htonl and ntohl on a little-endian host. */
  function Swap32(x: uint32): uint32 {
    Join(Octet(x, 0), Octet(x, 1), Octet(x, 2), Octet(x, 3))
  }

  /** htons and ntohs. */
  function Swap16(x: uint16): uint16 {
    x % 0x100 * 0x100 + x / 0x100
  }

  lemma SwapOctets(a: byte, b: byte, c: byte, d: byte)
    ensures Swap32(Join(a, b, c, d)) == Join(d, c, b, a)
  {
    SplitNumber(a, b, c, d);
  }

  lemma SwapTwice(x: uint32)
    ensures Swap32(Swap32(x)) == x
  {
    SwapOctets(Octet(x, 0), Octet(x, 1), Octet(x, 2), Octet(x, 3));
    OctetsOf(x);
  }

  lemma Swap16Twice(x: uint16)
    ensures Swap16(Swap16(x)) == x
  {
    var low, high := x % 0x100, x / 0x100;
    assert Swap16(x) == low * 0x100 + high;
    assert Swap16(x) / 0x100 == low && Swap16(x) % 0x100 == high;
  }

  /** The header copies of dhcp_packet_parse. */
  function FromPacket(p: Packet, h: Header): Header {
    Header(p.opcode, p.htype, p.hlen, p.hops, Swap32(p.xid), Swap16(p.secs), Swap16(p.flags),
           Swap32(p.ciaddr), Swap32(p.yiaddr), Swap32(p.siaddr), Swap32(p.giaddr),
           p.chaddr + h.chaddr[16..], p.sname, p.filename, Swap32(p.cookie))
  }

  /** The header copies of dhcp_packet_build, cookie excepted. */
  function ToPacket(h: Header, p: Packet): Packet {
    Packet(h.opcode, h.htype, h.hlen, h.hops, Swap32(h.xid), Swap16(h.secs), Swap16(h.flags),
           Swap32(h.ciaddr), Swap32(h.yiaddr), Swap32(h.siaddr), Swap32(h.giaddr),
           h.chaddr[..16], h.sname, h.filename, p.cookie)
  }

  /** Every header field survives; of the hardware address, the 16 octets the packet carries. */
  lemma HeaderRoundTrip(h: Header, p: Packet, h0: Header)
    ensures FromPacket(ToPacket(h, p).(cookie := Swap32(h.cookie)), h0) == h.(chaddr := h.chaddr[..16] + h0.chaddr[16..])
  {
    SwapTwice(h.xid);
    SwapTwice(h.ciaddr);
    SwapTwice(h.yiaddr);
    SwapTwice(h.siaddr);
    SwapTwice(h.giaddr);
    SwapTwice(h.cookie);
    Swap16Twice(h.secs);
    Swap16Twice(h.flags);
  }

  // ---------------------------------------------------------------- the places of the fields

  /** Octet `j` of a number in the memory of a little-endian host. */
  function Stored(x: uint32, j: nat): byte
    requires j < 4
  {
    Octet(x, 3 - j)
  }

  /** Octet `k` of the packet, which lies before the options. */
  function At(p: Packet, k: nat): byte
    requires k < 240
  {
    if k == 0 then p.opcode
    else if k == 1 then p.htype
    else if k == 2 then p.hlen
    else if k == 3 then p.hops
    else if k < 8 then Stored(p.xid, k - 4)
    else if k < 10 then Stored(p.secs, k - 8)
    else if k < 12 then Stored(p.flags, k - 10)
    else if k < 16 then Stored(p.ciaddr, k - 12)
    else if k < 20 then Stored(p.yiaddr, k - 16)
    else if k < 24 then Stored(p.siaddr, k - 20)
    else if k < 28 then Stored(p.giaddr, k - 24)
    else if k < 44 then p.chaddr[k - 28]
    else if k < 108 then p.sname[k - 44]
    else if k < 236 then p.filename[k - 108]
    else Stored(p.cookie, k - 236)
  }

  /** Four octets from `k` on in network order. */
  function Word(p: Packet, k: nat): nat
    requires k + 4 <= 240
  {
    Join(At(p, k + 3), At(p, k + 2), At(p, k + 1), At(p, k))
  }

  function Half(p: Packet, k: nat): nat
    requires k + 2 <= 240
  {
    At(p, k) as int * 0x100 + At(p, k + 1) as int
  }

  /** Every field of the message at its place in the packet, numbers in network order. */
  ghost predicate Laid(h: Header, p: Packet) {
    && h.opcode == At(p, 0) && h.htype == At(p, 1) && h.hlen == At(p, 2) && h.hops == At(p, 3)
    && h.xid == Word(p, 4) && h.secs == Half(p, 8) && h.flags == Half(p, 10)
    && h.ciaddr == Word(p, 12) && h.yiaddr == Word(p, 16) && h.siaddr == Word(p, 20) && h.giaddr == Word(p, 24)
    && (forall j :: 0 <= j < 16 ==> h.chaddr[j] == At(p, 28 + j))
    && (forall j :: 0 <= j < 64 ==> h.sname[j] == At(p, 44 + j))
    && (forall j :: 0 <= j < 128 ==> h.filename[j] == At(p, 108 + j))
  }

  lemma NetworkWord(x: uint32)
    ensures Join(Stored(x, 3), Stored(x, 2), Stored(x, 1), Stored(x, 0)) == Swap32(x)
    ensures Join(Stored(Swap32(x), 3), Stored(Swap32(x), 2), Stored(Swap32(x), 1), Stored(Swap32(x), 0)) == x
  {
    SwapTwice(x);
  }

  lemma NetworkHalf(x: uint16)
    ensures Stored(x, 0) as int * 0x100 + Stored(x, 1) as int == Swap16(x)
    ensures Stored(Swap16(x), 0) as int * 0x100 + Stored(Swap16(x), 1) as int == x
  {
    StoredHalf(x);
    StoredHalf(Swap16(x));
    Swap16Twice(x);
  }

  lemma StoredHalf(x: uint16)
    ensures Stored(x, 0) == x % 0x100 && Stored(x, 1) == x / 0x100
  {
  }

  /** Parsing reads every field from its place. */
  lemma ParsedPlaces(p: Packet, h0: Header)
    ensures Laid(FromPacket(p, h0), p) && FromPacket(p, h0).cookie == Word(p, 236)
  {
    NetworkWord(p.xid);
    NetworkWord(p.ciaddr);
    NetworkWord(p.yiaddr);
    NetworkWord(p.siaddr);
    NetworkWord(p.giaddr);
    NetworkWord(p.cookie);
    NetworkHalf(p.secs);
    NetworkHalf(p.flags);
  }

  /** Building writes every field to its place. */
  lemma BuiltPlaces(h: Header, p: Packet)
    ensures Laid(h, ToPacket(h, p)) && Word(ToPacket(h, p).(cookie := Swap32(h.cookie)), 236) == h.cookie
  {
    NetworkWord(h.xid);
    NetworkWord(h.ciaddr);
    NetworkWord(h.yiaddr);
    NetworkWord(h.siaddr);
    NetworkWord(h.giaddr);
    NetworkWord(h.cookie);
    NetworkHalf(h.secs);
    NetworkHalf(h.flags);
  }

  datatype Status = Ok | Rejected | Stuck

  /** What dhcp_packet_parse decides from the cookie and the option octets. */
  function Verdict(cookie: uint32, raw: seq<byte>): Status
    requires |raw| == RAW_OPTIONS
  {
    if cookie != MAGIC_COOKIE then Rejected
    else match Parse(raw)
         case Parsed(options) => if Retrieve(options, MESSAGE_TYPE).Some? then Ok else Rejected
         case _ => Stuck
  }

  /** Options that survive the wire and name a message type. */
  ghost predicate Sendable(options: seq<DhcpOption>) {
    && DistinctTags(options) && AllCanonical(options) && Size(options) <= OPTIONS_SIZE
    && Retrieve(options, MESSAGE_TYPE).Some?
  }

  /**
   What a receiver with header `h0` makes of the packet built from `h` and `options`: the same
   header fields and options, accepted.
   */
  lemma PacketRoundTrip(h: Header, options: seq<DhcpOption>, p: Packet, raw: seq<byte>, h0: Header)
    requires h.cookie == MAGIC_COOKIE && Sendable(options) && |raw| == RAW_OPTIONS
    ensures var p', raw' := ToPacket(h, p).(cookie := Swap32(h.cookie)), Serialized(raw, options);
            && FromPacket(p', h0) == h.(chaddr := h.chaddr[..16] + h0.chaddr[16..])
            && |raw'| == RAW_OPTIONS && Parse(raw') == Parsed(options)
            && Verdict(FromPacket(p', h0).cookie, raw') == Ok
  {
    HeaderRoundTrip(h, p, h0);
    ParseAfterSerialize(raw, options);
  }

  /** dhcp_message_t: the raw packet and the message around it. */
  class MessageBuffer {
    var packet: Packet
    const raw: array<byte>
    var header: Header
    var kind: uint32
    var options: seq<DhcpOption>

    ghost predicate Valid()
      reads this
    {
      raw.Length == RAW_OPTIONS
    }

    constructor (packet: Packet, header: Header)
      ensures Valid() && fresh(raw) && this.packet == packet && this.header == header && options == []
    {
      this.packet, this.header, kind, options := packet, header, 0, [];
      raw := new byte[RAW_OPTIONS](_ => 0);
    }

    /** dhcp_packet_parse. A message without the cookie keeps its old options, one without option 53 its old type. */
    method ParsePacket() returns (r: Status)
      requires Valid()
      modifies this
      ensures packet == old(packet) && raw[..] == old(raw[..])
      ensures header == FromPacket(packet, old(header))
      ensures r == Verdict(header.cookie, raw[..])
      ensures if header.cookie == MAGIC_COOKIE && Parse(raw[..]).Parsed? then options == Parse(raw[..]).options
              else options == old(options)
      ensures kind == if r == Ok then Retrieve(options, MESSAGE_TYPE).value.Number() else old(kind)
    {
      header := FromPacket(packet, header);
      if header.cookie != MAGIC_COOKIE {
        return Rejected;
      }
      var outcome := ParseOptions(raw);
      if !outcome.Parsed? {
        return Stuck;
      }
      options := outcome.options;
      var o53 := Retrieve(options, MESSAGE_TYPE);
      if o53.None? {
        return Rejected;
      }
      kind := o53.value.Number();
      r := Ok;
    }

    /** dhcp_packet_build. */
    method BuildPacket() returns (ok: bool)
      requires Valid()
      modifies this`packet, raw
      ensures ok <==> header.cookie == MAGIC_COOKIE && Size(options) <= OPTIONS_SIZE
      ensures if header.cookie == MAGIC_COOKIE
              then packet == ToPacket(header, old(packet)).(cookie := Swap32(header.cookie))
                   && raw[..] == Serialized(old(raw[..]), options)
              else packet == ToPacket(header, old(packet)) && raw[..] == old(raw[..])
    {
      packet := ToPacket(header, packet);
      if header.cookie != MAGIC_COOKIE {
        return false;
      }
      packet := packet.(cookie := Swap32(header.cookie));
      ok := SerializeOptions(options, raw);
    }

    /** Building and parsing gives the message back, with the type of its option 53 whatever the field held. */
    method Loopback()
      requires Valid() && header.cookie == MAGIC_COOKIE && Sendable(options)
      modifies this, raw
      ensures header == old(header) && options == old(options)
      ensures kind == Retrieve(options, MESSAGE_TYPE).value.Number()
    {
      ghost var p, octets := packet, raw[..];
      assert header.chaddr[..16] + header.chaddr[16..] == header.chaddr;
      PacketRoundTrip(header, options, p, octets, header);
      var built := BuildPacket();
      var r := ParsePacket();
    }
  }
}
