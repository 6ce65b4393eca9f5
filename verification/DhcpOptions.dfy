/**
 DHCP options as the server keeps them: a tag, a type derived from the tag, a length
 octet and a 253 octet value whose first four octets double as a little-endian number.
 */
module DhcpOptions {
  import opened Words

  const OPTION_MAX_LENGTH := 253
  const OPTIONS_SIZE := 312
  const PAD: byte := 0
  const END: byte := 255

  const SUBNET_MASK: byte := 1
  const REQUESTED_IP: byte := 50
  const LEASE_TIME: byte := 51
  const MESSAGE_TYPE: byte := 53
  const SERVER_ID: byte := 54
  const PARAMETER_LIST: byte := 55
  const CLIENT_ID: byte := 61

  /** No longer than the value union. */
  type OptionLength = x: int | 0 <= x <= 253

  type OptionValue = v: seq<byte> | |v| == 253 witness seq(253, _ => 0)

  datatype OptionType = Numeric | Text | Ip | Boolean | Binary

  datatype DhcpOption = DhcpOption(tag: byte, kind: OptionType, length: OptionLength, value: OptionValue) {
    /** The union read as a uint32_t: little-endian over the first four octets. */
    function Number(): uint32 {
      value[0] as int + 0x100 * value[1] as int + 0x1_0000 * value[2] as int + 0x100_0000 * value[3] as int
    }
  }

  /** The tag table of dhcp_option_tag_to_type. */
  function TagToType(tag: byte): OptionType {
    if tag in {19, 20, 31, 27, 30, 34, 29, 36, 39} then Boolean
    else if tag in {1, 3, 50, 54, 4, 5, 6, 7, 8, 9, 10, 11, 16, 28, 32, 33, 41, 42, 44, 45, 48, 49} then Ip
    else if tag in {53, 2, 13, 14, 22, 51, 23, 24, 26, 37, 38, 46, 58, 59, 35, 52} then Numeric
    else if tag in {12, 15, 21, 40, 77, 81, 17, 18, 47} then Text
    else Binary
  }

  /** dhcp_option_retrieve: the first option with the given tag. */
  function Retrieve(options: seq<DhcpOption>, tag: byte): (r: Option<DhcpOption>)
    ensures r.Some? ==> r.value in options && r.value.tag == tag
    ensures r.None? <==> forall o :: o in options ==> o.tag != tag
  {
    if options == [] then None
    else if options[0].tag == tag then Some(options[0])
    else
      assert options == [options[0]] + options[1..];
      Retrieve(options[1..], tag)
  }

  /** dhcp_option_add: append unless the tag is already present. */
  function AddOption(options: seq<DhcpOption>, o: DhcpOption): seq<DhcpOption> {
    if Retrieve(options, o.tag).Some? then options else options + [o]
  }

  /** calloc'ed value with the given octets copied over its front. */
  function ZeroPadded(octets: seq<byte>): (v: OptionValue)
    requires |octets| <= OPTION_MAX_LENGTH
    ensures v[..|octets|] == octets
    ensures forall k :: |octets| <= k < OPTION_MAX_LENGTH ==> v[k] == 0
  {
    octets + seq(OPTION_MAX_LENGTH - |octets|, _ => 0)
  }

  /** The value octets that the length octet covers. */
  function Covered(o: DhcpOption): seq<byte> {
    o.value[..o.length]
  }

  /** dhcp_option_new_values, hence dhcp_option_copy: only the covered octets survive. */
  function CopyOption(o: DhcpOption): DhcpOption {
    DhcpOption(o.tag, TagToType(o.tag), o.length, ZeroPadded(Covered(o)))
  }

  /** The option address_pool_new puts first. */
  function SubnetMaskOption(mask: uint32): DhcpOption {
    DhcpOption(SUBNET_MASK, Ip, 4, ZeroPadded([mask % 0x100, mask / 0x100 % 0x100, mask / 0x1_0000 % 0x100, mask / 0x100_0000]))
  }
}
