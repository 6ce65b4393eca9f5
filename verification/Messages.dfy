/** The parts of a DHCP message that the lease protocol reads. */
module Messages {
  import opened Words
  import opened DhcpOptions

  const DISCOVER: uint32 := 1
  const OFFER: uint32 := 2
  const REQUEST: uint32 := 3
  const DECLINE: uint32 := 4
  const ACK: uint32 := 5
  const NAK: uint32 := 6
  const RELEASE: uint32 := 7
  const INFORM: uint32 := 8

  datatype Message = Message(kind: uint32, xid: uint32, ciaddr: uint32, yiaddr: uint32,
                             chaddr: Mac, options: seq<DhcpOption>, time: uint32)

  /** trans_search_for: the first message of a kind. */
  function First(ms: seq<Message>, kind: uint32): (r: Option<Message>)
    ensures r.Some? ==> r.value in ms && r.value.kind == kind
    ensures r.None? <==> forall k :: 0 <= k < |ms| ==> ms[k].kind != kind
  {
    if ms == [] then None
    else if ms[0].kind == kind then Some(ms[0])
    else
      assert ms == [ms[0]] + ms[1..];
      First(ms[1..], kind)
  }

  /** trans_search_for_last: the last message of a kind. */
  function Last(ms: seq<Message>, kind: uint32): (r: Option<Message>)
    ensures r.Some? ==> r.value in ms && r.value.kind == kind
    ensures r.None? <==> forall k :: 0 <= k < |ms| ==> ms[k].kind != kind
  {
    if ms == [] then None
    else if ms[|ms| - 1].kind == kind then Some(ms[|ms| - 1])
    else Last(ms[..|ms| - 1], kind)
  }

  lemma {:induction false} FirstOfAppend(ms: seq<Message>, m: Message, kind: uint32)
    ensures First(ms + [m], kind) ==
            if First(ms, kind).Some? then First(ms, kind) else if m.kind == kind then Some(m) else None
  {
    if ms == [] {
      assert ms + [m] == [m];
    } else {
      assert (ms + [m])[1..] == ms[1..] + [m];
      FirstOfAppend(ms[1..], m, kind);
    }
  }
}
