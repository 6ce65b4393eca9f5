# A verified model of the DHCP server

This project models the server half of a small DHCPv4 server (RFC 2131, RFC 2132) and proves what
its parts promise each other. It has two layers.

* **Values and theorems.** Pools, lease files, transactions, timers, access lists, options and
  packets are values; `Protocol.Step` is one step of the server (a received message, a timer update
  of the main loop, a restart) and `Protocol.Run` a whole run. The theorems are about these.
* **Objects.** Where the program works in place, a class does the same with arrays, bitmaps,
  counters, slots and linked nodes. Every method is proved to compute what the value layer says, up
  to `DhcpServers.DhcpServer.Process`, which takes a server object through any sequence of messages,
  timer updates and restarts, so that the theorems about runs hold of the object.

`dafny verify dfyconfig.toml` checks everything.

## Main results

* **Lease safety over whole runs** (`Runs.RunsAreSafe`). Bitmaps, lease files and outstanding offers
  are separate structures. After every prefix of every interleaving of messages, expiries, sweeps and
  restarts every recorded lease is marked, no address is recorded twice, and no offered address is
  leased or offered twice; hence a DISCOVER is never offered somebody's address
  (`LeaseSafety.OffersAreFresh`). Assumptions: pools with disjoint ranges (only names are compared
  when a pool is added), selecting REQUESTs that reach the commit name an address on offer in their
  own unacknowledged transaction and have their ACK sent, and cached ACKs typed DHCP_ACK.
* **When safety fails, exactly** (`SafetyLimits.StepSafeIff`, `SafetyLimits.RunsSafeIff`). Without any
  of the assumptions on clients and on the ACK type, a step keeps every lease marked and unique if and
  only if it is not a REQUEST that commits a leased address and not an expiry that gives back a leased
  address, and a run is safe throughout if and only if it contains no such step.
* **No leak, no double counting** (`Accounting.StepAccountedIff`, `Accounting.RunsAccountedIff`).
  The marked addresses are the disjoint union of leased, offered and quarantined ones. For any clients
  and every type of the cached ACK but DHCP_OFFER, so for the 0 of the code too, a step keeps this if
  and only if it is tidy, and a run throughout if and only if all its steps are. `Accounting.Tidy` is
  a condition on the state before the step: a DISCOVER ends in the first offer of its transaction or
  finds no free address, a REQUEST that commits takes an offer of its own transaction and has an ACK
  of type DHCP_ACK sent, and no ACK to a renewal or INFORM joins a transaction with an outstanding
  offer.
* **Sweep and restart** (`Sweep.SweepIsFilter`, `Recovery.RestartRecovers`). A loop over addresses is
  a filter over records, and a reload rebuilds bitmap and file from the unexpired records.
* **Allocation** (`Pools.RequestAnyIsMark` with `Allocators.Allocator.RequestAny`): the bitmap and
  its counter implement first fit over a plain set of addresses.
* **Codec** (`OptionCodec.ParseAfterSerialize`, `OptionCodec.SerializeAfterParse`,
  `OptionCodec.ParseStops`, `DhcpPacket.PacketRoundTrip`, `ReplyOptions.BuildMeetsSpec`).
* **Laws of single operations** (`RequestLaws`, `DiscoverLaws`, `OtherLaws`, `AccessLaws`,
  `EventLaws`). What each message and each event does, in terms of positions in lists, ranges and
  fields, without the functions that compute it: which REQUEST is granted, what record it leaves and
  how long that lasts, what a renewal writes, which address a DISCOVER gets, and which answer goes out
  with which options.
* **Expiry on time** (`Expiry.OfferReturns`). Joining the polled timers to the protocol: whatever is
  received meanwhile, a transaction runs until the first timer update at or after its beginning plus
  its duration, and that update frees its first offer unless an ACK has been cached.
* **Cache, timers, lists** (`CacheMap.AddRefines`, `CacheShare.RunsAreBounded`,
  `Timers.PollingFollowsSchedule`).

## Where the code falls short of its intent

The model does what the code does; each point has its condition proved.

* The ACK builders for new and renewed leases never set `type`
  (server/src/messages/dhcpack.c:115-127, 152-164), while the expiry callback looks for DHCP_ACK
  (server/src/transaction.c:32). `Protocol.Config.ackKind` is that value. Results that need it to be
  DHCP_ACK say so. `LostLeases.UntypedAckLoses` shows that with any other value, or with an ACK that
  is not sent, every accepted first offer returns to the pool while its lease is still recorded;
  `FirstLease.FirstLeaseRuns` is a run from a fresh server, and `SafetyLimits.StepSafeIff` holds for
  every value.
* A selecting REQUEST is committed without a look at the lease file
  (server/src/messages/dhcprequest.c:142-184). A client that repeats its REQUEST because the ACK was
  lost gets its address recorded a second time: `LostLeases.CommitsAgain`,
  `LostLeases.RetransmissionBreaks`, and a run in `FirstLease.FirstLeaseRuns`.
* A DISCOVER takes its address before it looks at the lease time and before the offer is built and
  sent (server/src/messages/dhcpdiscover.c:83-104). If the lease time comes out as 0, if the offer
  cannot be built or sent, or if the transaction has an offer or ACK already, the address leaks:
  `Accounting.DiscoverAccountedIff`, with `FirstLease.ZeroTimeLeaks` as a concrete run.
* Expiry releases only the first OFFER of a transaction (server/src/transaction.c:30-34), and an ACK to
  a renewal or INFORM that shares the id of an outstanding offer hides that offer from it
  (`Accounting.AckAccountedIff`).
* The sweep stops before the last address of each pool (server/src/dhcp_server.c:105), so no
  sweep drops a lease on the last address: `Sweep.LastAddressStays`.
* The parser does not advance on PAD (server/src/dhcp_options.c:181-183); `OptionCodec.ParseStops`
  says exactly which buffers it returns from, `OptionCodec.PadSpins` names some it does not.
* The bitmap size `(end - start + 8) / 8` wraps around once end - start reaches 2^32 - 8
  (server/src/address_pool.c:30), which a nonzero prefix mask rules out and mask 0 does not:
  `AddressPools.BitmapCovers`, `AddressPools.PrefixNeverWraps`, `AddressPools.WrappingPool`.
* Id 0 marks idle slots as well (server/src/transaction_cache.c:66-77): `CacheMap.ZeroIdSplitsIff`,
  `CacheMap.ZeroIdExample`.
* Only the names of pools are compared (server/src/allocator.c:108). With overlapping ranges the same
  address can be handed out twice: `Pools.NeverTwiceIffDisjoint`, `Pools.OverlapExample`.
* The message counter of a transaction has 8 bits (server/src/transaction.h:13). The message that finds
  it at 0 again, the 257th, restarts the timer without charging the time since the last poll
  (server/src/transaction.c:106-117): `Expiry.MessageCountsIff`.
* `allocator_request_any_address` reports OK when every pool is full (server/src/allocator.c:160);
  its result shows in the output buffer only.
* server/src/timer.h says that a one-shot timer keeps its remaining time when it fires; timer.c resets
  it, and the model follows timer.c.

## Model

| member | source | states |
|---|---|---|
| `Runs.RunsAreSafe` | server/src/dhcp_server.c:208-337 | after every prefix of every run with honest commits and ACKs typed DHCP_ACK the bitmaps, lease files and outstanding offers agree |
| `Runs.StepKeepsInv` | server/src/dhcp_server.c:208-337 | under the same assumptions every message, timer update and restart keeps that invariant |
| `LeaseSafety.NoAddressLeasedTwice` | server/src/messages/dhcprequest.c:15-46 | under the invariant two records with the same address, in any files, are the same record |
| `RequestLaws.FilesChangeIff` | server/src/messages/dhcprequest.c:142-184 | a selecting REQUEST changes the lease files if and only if it is for this server, has no addresses in its header, agrees with its DISCOVER, and names a marked address with a lease time |
| `RequestLaws.CommitLaw` | server/src/messages/dhcprequest.c:15-46 | exactly one record is appended, to the file of the address's pool: address, mask, period from now for the pool's own or else the global lease time, id and hardware address; an ACK of the address answers |
| `EventLaws.LeaseLasts` | server/src/messages/dhcprequest.c:28-36 | the new record is found with its fields until the first sweep at or after its end, and for good on the last address of the pool |
| `RequestLaws.OtherServerLaw` | server/src/messages/dhcprequest.c:150-155 | a REQUEST for another server changes nothing |
| `RequestLaws.RefusalLaw` | server/src/messages/dhcprequest.c:157-177 | a REQUEST for this server that fails another check changes no pool and no file and is answered with a NAK carrying options 53 and 54 |
| `RequestLaws.StopLaw` | server/src/messages/dhcprequest.c:119-140 | a REQUEST that names an address of no pool changes nothing |
| `RequestLaws.RenewalLaw` | server/src/messages/dhcprequest.c:186-223 | the client's own record moves to the end of its file with a period from now; all other files stay |
| `RequestLaws.RenewedOwn` | server/src/messages/dhcprequest.c:205-216 | looking the renewed address up finds the new period |
| `RequestLaws.RenewedOthers` | server/src/messages/dhcprequest.c:205-216 | looking any other address up finds what it found before |
| `RequestLaws.NotRenewedLaw` | server/src/messages/dhcprequest.c:194-203 | without a pool, a record, or with another client's record no file changes |
| `RequestLaws.RenewalAnswer` | server/src/messages/dhcpack.c:143-177 | every renewing REQUEST is answered with an ACK of the client's address, and no pool changes |
| `RequestLaws.NoRenewalLaw` | server/src/messages/dhcprequest.c:249-258 | a renewing REQUEST without client address changes nothing |
| `DiscoverLaws.DiscoverLaw` | server/src/messages/dhcpdiscover.c:75-107 | exactly the chosen address is marked and, if the smaller of configured and requested lease time is not 0, offered, with the pool's options and the client identifier |
| `DiscoverLaws.ChosenOrNothing` | server/src/messages/dhcpdiscover.c:12-46 | an address is chosen (the one asked for if free, else the lowest free one of the first pool that has one) or every pool is full |
| `DiscoverLaws.DiscoverNothing` | server/src/messages/dhcpdiscover.c:93-95 | with nothing free a DISCOVER changes nothing |
| `OtherLaws.ReleaseLaw` | server/src/messages/dhcprelease.c:8-38 | the first record of the address goes from the file of its pool and its bit is cleared; all else stays |
| `OtherLaws.NoReleaseLaw` | server/src/messages/dhcprelease.c:15-27 | without an address, a pool or a record nothing changes |
| `OtherLaws.DeclineLaw` | server/src/messages/dhcpdecline.c:5-30 | the address of the last ACK of the transaction is marked if it is free, and nothing else changes |
| `OtherLaws.InformLaw` | server/src/messages/dhcpack.c:179-217 | an INFORM is answered with a typed ACK without address and without lease time, and changes nothing else |
| `OtherLaws.IgnoredLaw` | server/src/dhcp_server.c:305-325 | other messages change nothing |
| `LeaseSafety.OffersAreFresh` | server/src/messages/dhcpdiscover.c:75-107 | the address a DISCOVER is given is neither leased nor on offer in any transaction |
| `LeaseSafety.DiscoverKeepsInv` | server/src/messages/dhcpdiscover.c:75-107 | the invariant survives a DISCOVER, whether or not the offer is built and sent |
| `LeaseSafety.RequestKeepsInv` | server/src/messages/dhcprequest.c:225-263 | the invariant survives selecting, renewing, refused and foreign REQUESTs |
| `LeaseSafety.CommitKeepsInv` | server/src/messages/dhcprequest.c:15-46 | committing an offered address and caching the ACK moves it from the offers to the leases |
| `LeaseSafety.RenewKeepsLeases` | server/src/messages/dhcprequest.c:186-223 | renewal keeps every file unique and marked and the set of leased addresses |
| `LeaseSafety.ReleaseLeaseKeepsInv` | server/src/messages/dhcprelease.c:8-38 | RELEASE keeps the invariant although it edits a file and a bitmap |
| `LeaseSafety.DeclineKeepsInv` | server/src/messages/dhcpdecline.c:5-30 | DECLINE keeps the invariant |
| `LeaseSafety.ReceiveKeepsInv` | server/src/dhcp_server.c:274-337 | admission checks, caching and dispatch together keep the invariant |
| `LeaseSafety.TickSlotKeepsInv` | server/src/transaction.c:20-41 | expiry of a transaction keeps the invariant: what it gives back is nobody's |
| `LeaseSafety.TickKeepsInv` | server/src/dhcp_server.c:208-229 | all expiries and a due sweep keep the invariant |
| `LeaseSafety.ReleaseSafeIff` | server/src/allocator.c:220-242 | clearing a bit keeps leases safe exactly when the address has no record, and clears only that bit |
| `LeaseSafety.CommitSafeIff` | server/src/messages/dhcprequest.c:15-46 | appending a record keeps leases safe exactly when the address has none yet |
| `LeaseSafety.DropKeepsLeases` | server/src/lease.c:291-342 | removing a record and clearing its bit affects that address only |
| `SafetyLimits.HandleSafeIff` | server/src/messages/dhcprequest.c:142-184 | any message, handled in any safe state, breaks lease safety exactly when it commits a leased address |
| `SafetyLimits.TickSafeIff` | server/src/transaction.c:20-41 | a timer update breaks lease safety exactly when some transaction expires whose first offer is leased and not acknowledged |
| `SafetyLimits.StepSafeIff` | server/src/dhcp_server.c:208-337 | the exact condition for every step, any client behaviour and any type in the cached ACK |
| `SafetyLimits.RunsSafeIff` | server/src/dhcp_server.c:208-337 | a whole run of any clients is safe after every prefix if and only if none of its events breaks safety |
| `LostLeases.UntypedAckLoses` | server/src/messages/dhcpack.c:104-141 | a REQUEST for its transaction's first offer whose reply is not cached as DHCP_ACK: at expiry the address is unmarked while its lease is still recorded |
| `LostLeases.CommitsAgain` | server/src/messages/dhcprequest.c:142-184 | every committed REQUEST with option 50 passes the checks again and would lease its address again |
| `LostLeases.RetransmissionBreaks` | server/src/messages/dhcprequest.c:142-184 | the same REQUEST, received and admitted twice, leaves two records of one address |
| `FirstLease.FirstLeaseRuns` | server/src/messages/dhcpack.c:104-141 | from a fresh server DISCOVER and REQUEST are an honest run that records the lease; with another type than DHCP_ACK its bit is gone after a minute, and repeating the REQUEST records it twice |
| `Accounting.StepAccountedIff` | server/src/dhcp_server.c:208-337 | for any clients and any type of the cached ACK but DHCP_OFFER: marked = leased + offered + quarantined, disjointly, after a step if and only if the step is tidy |
| `Accounting.RunsAccountedIff` | server/src/dhcp_server.c:208-337 | the accounts balance after every prefix of a run if and only if every event is tidy |
| `Accounting.DiscoverAccountedIff` | server/src/messages/dhcpdiscover.c:75-107 | a DISCOVER leaks nothing if and only if nothing is free or the first offer of its transaction goes through |
| `Accounting.RequestAccountedIff` | server/src/messages/dhcprequest.c:225-263 | a REQUEST keeps the accounts if and only if a commit takes an offer of its own transaction with a typed ACK sent, and a renewal is not acknowledged in a transaction with an outstanding offer |
| `Accounting.SelectingAccountedIff` | server/src/messages/dhcprequest.c:142-184 | committing a leased, quarantined or foreign address, losing the ACK or leaving it untyped always unbalances the accounts; nothing else does |
| `Accounting.AckAccountedIff` | server/src/transaction.c:30-34 | an ACK hides an outstanding offer from expiry, and is harmless exactly without one |
| `Accounting.OfferAccountedIff` | server/src/messages/dhcpoffer.c:88-126 | a cached offer accounts for its address exactly in a transaction without OFFER and ACK |
| `Accounting.DeclineAccounted` | server/src/messages/dhcpdecline.c:5-30 | DECLINE adds exactly its address to the quarantine |
| `Accounting.ReleaseAccounted` | server/src/messages/dhcprelease.c:8-38 | RELEASE takes its address, if leased, out of the leases and out of the marked ones, and no other |
| `Accounting.TickSlotAccounted` | server/src/transaction.c:20-41 | expiry of an unaccepted offer returns exactly that address, any other expiry none |
| `FirstLease.ZeroTimeLeaks` | server/src/messages/dhcpdiscover.c:48-107 | a fresh server loses an address to its first DISCOVER if that asks for lease time 0 |
| `Sweep.SweepIsFilter` | server/src/dhcp_server.c:143-165 | a sweep drops exactly the expired records in [start, end), clears exactly their bits, keeps the order of the others, and counts both removed records and freed addresses |
| `Sweep.SweepRangeExact` | server/src/dhcp_server.c:96-141 | the same for one pool, for every part of its range |
| `Sweep.LastAddressStays` | server/src/dhcp_server.c:105 | no sweep, however late, drops a lease on the last address of its pool |
| `EventLaws.TickFilesLaw` | server/src/dhcp_server.c:208-229 | a timer update filters the files as the sweep does if its timer is due, and leaves them alone if not |
| `Recovery.RestartRecovers` | server/src/lease.c:358-430 | loading leaves exactly the unexpired records in order and marks exactly their addresses |
| `Recovery.RestartEstablishesInv` | server/src/lease.c:358-430 | whatever bitmaps and cache held, a restart over loadable files satisfies the invariant |
| `EventLaws.RestartLaw` | server/src/init.c:46-58 | a restart empties cache and dynamic list and starts the sweep timer; configuration and static list stay |
| `Recovery.LoadRecordsEffect` | server/src/lease.c:358-407 | the walk that edits the file it walks over keeps the records already passed |
| `Pools.RequestAnyIsMark` | server/src/allocator.c:123-163 | nothing is free and nothing changes, or the lowest free address of the first pool that has one is marked and nothing else |
| `Pools.NeverTwiceIffDisjoint` | server/src/allocator.c:100-163 | first fit never hands out an address marked in some pool, whatever is marked, if and only if the ranges are disjoint |
| `Pools.OverlapExample` | server/src/allocator.c:100-163 | two overlapping pools hand out the same address twice |
| `Pools.ReleaseEffect` | server/src/allocator.c:220-242 | release frees that address and no other |
| `Pools.FindPool` | server/src/allocator.c:66-80 | the first pool in list order that holds the address, and none if none does |
| `AddressPools.AcceptedRange` | server/src/address_pool.c:33-56 | every accepted pool, whatever the mask, has 1 <= start < end <= 2^32 - 2 |
| `AddressPools.AcceptsIff` | server/src/address_pool.c:33-56 | accepted are exactly the ranges strictly between network and broadcast address |
| `AddressPools.AcceptedSubnet` | server/src/address_pool.c:33-48 | under a prefix mask all addresses share the network part and none is the network or broadcast address |
| `AddressPools.BitmapCovers` | server/src/address_pool.c:28-31 | every bit index lies in the bitmap exactly when the size computation does not wrap |
| `AddressPools.WrappingPool` | server/src/address_pool.c:28-56 | an accepted pool whose bitmap has no bytes |
| `AddressPools.PrefixNeverWraps` | server/src/address_pool.c:28-48 | under a nonzero prefix mask it does not |
| `AddressPools.SetAddsOne` | server/src/address_pool.c:138-143 | setting a bit adds one address, changes no other bit and no padding |
| `AddressPools.ClearRemovesOne` | server/src/address_pool.c:145-150 | clearing by subtraction removes one address and changes no other bit and no padding |
| `AddressPools.FullIff` | server/src/allocator.c:136-163 | the counter reads 0 exactly when no address of the pool is free |
| `AddressPools.NewPool` | server/src/address_pool.c:50-94 | null exactly for ranges that are not accepted, else a pool, valid exactly if its byte count does not wrap, with every address free and option 1 before the overrides |
| `AddressPools.AddressPool.constructor` | server/src/address_pool.c:57-80 | a new bitmap stands for the empty set and the counter for its complement, exactly if the byte count does not wrap |
| `AddressPools.AddressPool.Get` | server/src/address_pool.c:152-154 | the bit tells whether the address is used |
| `AddressPools.AddressPool.Set` | server/src/address_pool.c:138-143 | the used set grows by the address; counter and padding stay right |
| `AddressPools.AddressPool.Clear` | server/src/address_pool.c:145-150 | the used set shrinks by the address; counter and padding stay right |
| `AddressPools.AddressPool.Control` | server/src/address_pool.c:126-161 | all actions and return values; a failed call changes no byte and no counter |
| `Allocators.Allocator.Find` | server/src/allocator.c:66-80 | the loop finds the first pool holding the address |
| `Allocators.Allocator.FirstClear` | server/src/allocator.c:123-134 | the scan finds the lowest free address |
| `Allocators.Allocator.FindOpen` | server/src/allocator.c:143-158 | the counter pre-check skips no pool with a free address and accepts no full one |
| `Allocators.Allocator.RequestAny` | server/src/allocator.c:136-163 | first fit over all pools; on full pools OK, and buffer and pools unchanged |
| `Allocators.Allocator.RequestThis` | server/src/allocator.c:183-211 | marks a free address, otherwise the right error and no change |
| `Allocators.Allocator.ReleaseAddress` | server/src/allocator.c:220-242 | clears a set bit, otherwise the right error and no change |
| `Allocators.Allocator.IsAvailable` | server/src/allocator.c:287-302 | true exactly for free addresses of a pool |
| `OptionCodec.ParseAfterSerialize` | server/src/dhcp_options.c:172-243 | identity on all canonical lists with distinct tags that fit, the exactly full buffer included |
| `OptionCodec.SerializeAfterParse` | server/src/dhcp_options.c:172-243 | on well-formed buffers serializing the parsed options reproduces the octets up to END |
| `OptionCodec.ParseStops` | server/src/dhcp_options.c:172-206 | from which buffers the parser returns, from which it never does, and what it returns |
| `OptionCodec.PadSpins` | server/src/dhcp_options.c:181-183 | a buffer that starts with PAD is never parsed to its end |
| `OptionCodec.FirstOccurrenceWins` | server/src/dhcp_options.c:258-269 | the parsed list has distinct tags, and each tag the value it had first |
| `OptionCodec.ValueRoundTrip` | server/src/dhcp_options.c:87-170 | a canonical value of any type survives serializing and parsing |
| `OptionCodec.OctetsRestored` | server/src/dhcp_options.c:87-170 | canonical octets of any type survive parsing and serializing |
| `OptionCodec.BigEndianOf` | server/src/dhcp_options.c:87-101 | numbers are read most significant octet first |
| `OptionCodec.WireNumbers` | server/src/dhcp_options.c:87-101 | the numbers the protocol reads are the big-endian numbers on the wire |
| `OptionCodec.WireOctets` | server/src/dhcp_options.c:148-170 | the parameter list and the client identifier are the octets on the wire |
| `OptionCodec.OctetsParts` | server/src/dhcp_options.c:208-236 | an option is written as its tag, its length and its value |
| `OptionCodec.CopySerializesAlike` | server/src/dhcp_options.c:430-436 | a copied option has the octets of its original |
| `OptionCodec.FittingSize` | server/src/dhcp_options.c:208-243 | the options written are the longest prefix that fits, all of them exactly when they fit together |
| `OptionCodec.ReadNumber` | server/src/dhcp_options.c:87-101 | the shifting loop reads a big-endian number modulo 2^32 |
| `OptionCodec.ParseOptions` | server/src/dhcp_options.c:172-206 | the parsing loop computes the function of the theorems |
| `OptionCodec.WriteValue` | server/src/dhcp_options.c:108-146 | the value loops write the value's octets and nothing outside them |
| `OptionCodec.WriteFitting` | server/src/dhcp_options.c:208-236 | the loop writes the options that fit and leaves the rest of the buffer alone |
| `OptionCodec.SerializeOptions` | server/src/dhcp_options.c:208-243 | the whole buffer afterwards, and success exactly if all options fit |
| `OptionLists.RetrieveAddAll` | server/src/dhcp_options.c:245-269 | after adding in turn, lookup finds the first of all options with the tag |
| `OptionLists.TagsAddAll` | server/src/dhcp_options.c:258-269 | the resulting tags, in order, are the first occurrences |
| `ReplyOptions.BuildSucceedsIff` | server/src/dhcp_options.c:359-428 | the builder succeeds exactly when every required tag is blacklisted or occurs in the pool's or the global list |
| `ReplyOptions.BuildMeetsSpec` | server/src/dhcp_options.c:359-428 | the built list is the one list with option 53 first, then the first occurrences of set, non-blacklisted required and requested tags, each a copy of the pool's first option with the tag, else of the first global one; no such list, no result |
| `ReplyOptions.ContentsUnique` | server/src/dhcp_options.c:359-428 | there is at most one such list |
| `ReplyOptions.CopyKeeps` | server/src/dhcp_options.c:280-293 | a copy keeps tag, length and covered octets and has zeros behind them |
| `ReplyOptions.Terminator` | server/src/dhcp_options.c:344-357 | a tag array counts up to its first 0 and no further |
| `ReplyOptions.Blacklisted` | server/src/dhcp_options.c:344-357 | the zero-terminated search |
| `ReplyOptions.BuildRequired` | server/src/dhcp_options.c:376-399 | the loop over required tags stops with an error at the first one that is neither blacklisted nor configured |
| `ReplyOptions.BuildRequested` | server/src/dhcp_options.c:401-423 | the loop over requested tags skips what is blacklisted or not configured |
| `ReplyOptions.BuildOptions` | server/src/dhcp_options.c:359-428 | the loops compute the function of the theorems |
| `DhcpPacket.HeaderRoundTrip` | server/src/dhcp_packet.c:57-155 | every header field survives building and parsing through network order |
| `DhcpPacket.ParsedPlaces` | server/src/dhcp_packet.c:57-77 | every field is read from its place in the packet, numbers in network order |
| `DhcpPacket.BuiltPlaces` | server/src/dhcp_packet.c:117-150 | every field is written to its place in the packet, numbers in network order |
| `DhcpPacket.PacketRoundTrip` | server/src/dhcp_packet.c:57-155 | a message with cookie, codec-valid options and option 53 is accepted with the same header and options |
| `DhcpPacket.MessageBuffer.ParsePacket` | server/src/dhcp_packet.c:57-115 | header, options and type afterwards, on acceptance and on each rejection |
| `DhcpPacket.MessageBuffer.BuildPacket` | server/src/dhcp_packet.c:117-155 | packet and option octets afterwards; fails exactly without cookie or room |
| `DhcpPacket.MessageBuffer.Loopback` | server/src/dhcp_packet.c:57-155 | building and parsing restores the message and sets the type to option 53 whatever it was |
| `AddressText.ParsePrintIpv4` | server/src/utils/xtoy.c:6-24 | every 32-bit address survives printing and parsing |
| `AddressText.PrintedDotted` | server/src/utils/xtoy.c:6-15 | addresses are printed most significant octet first, decimal, between dots |
| `AddressText.ParsePrintMac` | server/src/utils/xtoy.c:26-39 | every hardware address survives printing and parsing |
| `AddressText.PrintMacInjective` | server/src/utils/xtoy.c:26-33 | printed hardware addresses have 17 characters and differ if the addresses do |
| `AccessLaws.PrintMacLaw` | server/src/utils/xtoy.c:26-33 | hardware addresses are printed octet by octet, two lower-case digits each, between colons |
| `AccessLaws.LoadedIsPrinted` | server/src/security/acl.c:95-105 | a configured entry in either case, lower-cased, is the printed address |
| `LeaseStores.RecordRoundTrip` | server/src/lease.c:127-207 | a lease survives conversion to a record and back |
| `LeaseStores.AddRoundTrip` | server/src/lease.c:210-342 | without a record of the address: retrieve after add finds the lease, remove after add restores the file |
| `LeaseStores.LeaseStore.Retrieve` | server/src/lease.c:210-250 | the first record of the address, found by its text |
| `LeaseStores.LeaseStore.Add` | server/src/lease.c:252-289 | appends one record to one file |
| `LeaseStores.LeaseStore.Remove` | server/src/lease.c:291-342 | drops the first record of the address, if any, from one file |
| `LeaseStores.LeaseStore.ReadLeases` | server/src/lease.c:170-207 | decodes all records of a file in order |
| `Transactions.AddMessageEffect` | server/src/transaction_cache.c:43-63 | appends to exactly one slot, fails only on a full cache, and the id leads to that slot again |
| `CacheMap.AddRefines` | server/src/transaction_cache.c:29-77 | the array acts as a bounded map: one entry extended, refused exactly when the id is new and the map full |
| `CacheMap.LookupRefines` | server/src/transaction_cache.c:66-77 | lookup in the array is lookup in the map |
| `CacheMap.TickSlotRefines` | server/src/transaction.c:20-41 | expiry removes just that entry, any other poll changes no history |
| `CacheMap.ZeroIdSplitsIff` | server/src/transaction_cache.c:43-77 | with id 0 a second transaction of the same id opens exactly when an idle slot stands before the running one |
| `CacheMap.ZeroIdExample` | server/src/transaction_cache.c:43-77 | a cache of two slots in which a message with id 0 opens a second transaction |
| `CacheMap.RunsKeepMap` | server/src/transaction_cache.c:29-77 | running ids stay distinct over every run with nonzero ids, with all slot invariants |
| `TransactionCaches.Transaction.Empty` | server/src/transaction.c:72-87 | clears the slot; a running timer is reset to its full time and stopped |
| `TransactionCaches.Transaction.Add` | server/src/transaction.c:89-122 | id check, append, wrapping counter and timer start |
| `TransactionCaches.Transaction.SearchFor` | server/src/transaction.c:137-152 | the first message of a type |
| `TransactionCaches.Transaction.SearchForLast` | server/src/transaction.c:154-176 | the last message of a type |
| `TransactionCaches.TransactionCache.constructor` | server/src/transaction_cache.c:7-27 | all slots empty with stopped timers of full duration, no two sharing an object |
| `TransactionCaches.TransactionCache.Find` | server/src/transaction_cache.c:66-77 | the first slot with the id |
| `TransactionCaches.TransactionCache.NextFree` | server/src/transaction_cache.c:29-41 | the first slot whose timer is stopped |
| `TransactionCaches.TransactionCache.AddMessage` | server/src/transaction_cache.c:43-63 | the array afterwards is that of the value layer, untouched on failure |
| `Timers.PollingFollowsSchedule` | server/src/timer.c:28-64 | polled at any non-decreasing times a timer fires as its true schedule says |
| `Timers.OneShotTimer` | server/src/timer.c:28-74 | fires once, at the first poll that finds its time elapsed |
| `Timers.RepeatingTimer` | server/src/timer.c:28-74 | never fires within its duration of the start or of another firing |
| `Expiry.OfferReturns` | server/src/transaction.c:20-41 | over any run, a transaction of at most 256 messages ends at the first timer update at or after its beginning plus its duration, not before, and its first offer is then free unless an ACK was cached |
| `Expiry.PollCounting` | server/src/timer.c:28-64 | a poll finds the timer of a transaction due exactly when the time since its beginning is up |
| `Expiry.OpenedCounts` | server/src/transaction.c:89-122 | a transaction counts from the moment its first message is cached |
| `Expiry.MessageCountsIff` | server/src/transaction.c:106-117 | a further message leaves the count alone exactly if it does not find the 8 bit counter at 0, or no time has passed since the last poll |
| `EventLaws.ExpiryLaw` | server/src/transaction.c:20-41 | an expiring transaction frees the address of its first OFFER unless it holds an ACK, and leaves an idle slot with full time |
| `EventLaws.NotDueLaw` | server/src/timer.c:28-64 | a transaction that is not due keeps its messages and every address |
| `Expiry.TickSlotsAt` | server/src/dhcp_server.c:208-219 | a timer update polls every slot once, independently of the others |
| `Timers.Timer.Update` | server/src/timer.c:28-64 | the object takes the modelled step and reports whether the callback is due |
| `Timers.Timer.Start` | server/src/timer.c:66-74 | starts from now, remaining time unchanged |
| `Timers.Timer.Stop` | server/src/timer.c:76-83 | stops, remaining time unchanged |
| `Timers.Timer.Restart` | server/src/timer.c:85-96 | runs from now with the full time |
| `CacheShare.RunsAreBounded` | server/src/security/dynamic_acl.c:8-42 | with the dynamic list on nobody ever owns more than half the slots |
| `CacheShare.ListedIff` | server/src/security/dynamic_acl.c:34-38 | in a run without restart a client gets listed exactly by exhausting its own share, and stays listed |
| `CacheShare.ListedIsDenied` | server/src/dhcp_server.c:274-296 | messages of a listed client change no lease, no bitmap and no slot |
| `AccessLaws.CheckLaw` | server/src/security/acl.c:123-149 | a blacklist denies its members, a whitelist everybody else, a list that is off nobody |
| `AccessLaws.PrintedMembers` | server/src/security/acl.c:118-149 | of printed addresses the members are just those |
| `AccessLaws.ShareIsOwned` | server/src/security/dynamic_acl.c:17-32 | the share counted is the number of running slots whose first message came from the client |
| `AccessLaws.OwnersBounded` | server/src/security/dynamic_acl.c:8-42 | in every run that number is at most half the slots, for every client |
| `AccessLaws.DeniedLaw` | server/src/dhcp_server.c:274-278 | a message the static list denies changes nothing |
| `AccessLaws.DroppedLaw` | server/src/dhcp_server.c:280-306 | a message the dynamic list denies, one of a server's types or one that finds no room changes the dynamic list at most |
| `AccessLaws.AdmittedLaw` | server/src/dhcp_server.c:274-325 | every other message is cached as the last of its transaction and handled |
| `AccessLists.AccessList.CheckClient` | server/src/security/acl.c:123-149 | the search decides as black- or whitelist membership says |
| `AccessLists.AccessList.CountShare` | server/src/security/dynamic_acl.c:17-32 | counts the running slots whose first message is the client's |
| `AccessLists.AccessList.CheckDynamic` | server/src/security/dynamic_acl.c:8-42 | lists the client exactly at half the cache, then decides |
| `DhcpServers.DhcpServer.HandleDiscover` | server/src/messages/dhcpdiscover.c:75-107 | the object takes the protocol's DISCOVER step |
| `DhcpServers.DhcpServer.Allocate` | server/src/messages/dhcpdiscover.c:12-46 | the requested address if it is free, else first fit |
| `DhcpServers.DhcpServer.JudgeRequest` | server/src/messages/dhcprequest.c:142-184 | the order of checks and their outcome |
| `DhcpServers.DhcpServer.AcceptRequest` | server/src/messages/dhcprequest.c:240-251 | commit, then ACK for the address in option 50 |
| `DhcpServers.DhcpServer.Acknowledge` | server/src/messages/dhcpack.c:104-177 | the ACK of a new or renewed lease is built from the pool of its address, sent and cached with the type left in it |
| `DhcpServers.DhcpServer.Renew` | server/src/messages/dhcprequest.c:186-223 | replaces the client's own record and nobody else's |
| `DhcpServers.DhcpServer.HandleRequest` | server/src/messages/dhcprequest.c:225-263 | the object takes the protocol's REQUEST step |
| `DhcpServers.DhcpServer.HandleRelease` | server/src/messages/dhcprelease.c:8-38 | the object takes the protocol's RELEASE step |
| `DhcpServers.DhcpServer.HandleDecline` | server/src/messages/dhcpdecline.c:5-30 | the object takes the protocol's DECLINE step |
| `DhcpServers.DhcpServer.HandleInform` | server/src/messages/dhcpack.c:179-217 | the object takes the protocol's INFORM step |
| `DhcpServers.DhcpServer.AdmitMessage` | server/src/dhcp_server.c:268-307 | the checks before dispatch, in order |
| `DhcpServers.DhcpServer.Serve` | server/src/dhcp_server.c:268-337 | one received message is one step of the protocol |
| `DhcpServers.DhcpServer.ExpireSlot` | server/src/transaction.c:20-41 | gives back the first unacknowledged offer and clears the slot |
| `DhcpServers.DhcpServer.CheckPool` | server/src/dhcp_server.c:96-141 | the sweep loop of one pool computes the function of the theorems |
| `DhcpServers.DhcpServer.CheckLeases` | server/src/dhcp_server.c:143-165 | the sweep over all pools, with its count |
| `DhcpServers.DhcpServer.UpdateTimers` | server/src/dhcp_server.c:208-229 | one timer update is one step of the protocol |
| `DhcpServers.DhcpServer.LoadPoolLeases` | server/src/lease.c:358-407 | the loading loop computes the function of the theorems |
| `DhcpServers.DhcpServer.LoadLeases` | server/src/lease.c:409-430 | loading all pools; on unmarked pools the store becomes that of a restart |
| `DhcpServers.DhcpServer.Reboot` | server/src/lease.c:409-430 | new objects over the same configuration and lease files take the protocol's restart step |
| `DhcpServers.DhcpServer.Process` | server/src/dhcp_server.c:231-337 | the object follows the protocol over any sequence of events, and so keeps lease safety and the share bound |
| `LinkedLists.LinkedList.Append` | server/src/utils/llist.c:19-44 | the contents grow by one at the end and the last pointer follows |
| `LinkedLists.LinkedList.GetIndex` | server/src/utils/llist.c:59-73 | the node at the index, null outside the list |
| `LinkedLists.LinkedList.ForEach` | server/src/utils/llist.h:45-50 | visits every element exactly once, in order, and ends |
| `LinkedLists.LinkedList.Clear` | server/src/utils/llist.c:75-95 | leaves an empty list |

## Left out

- The `gui/` tree, `unix_server.c`, `commands.c`, `main.c`, logging, `database.c`, `dhcp_snooping/`: interface, plumbing and debugging.
- Sockets and signals: whether `sendto` succeeds is the parameter `sent` of an event; a received message is given with its parsed fields.
- `config.c`, `init.c`: the configuration is a parameter; `allocator_add_pool` appears as the assumption that pool names differ.
- cJSON and the file system: a lease file is a sequence of records written by the server itself; files that cannot be opened, written or parsed are not modelled.
- Memory allocation and lifetime: cached messages are values with their own options, although `trans_add` copies the option list only by pointer.
- Null dereferences: where the code would follow a null pointer (a REQUEST without option 50 after a commit, a requested address outside every pool, a message without option 55) the handler stops with the state it has reached.
- `trans_cache_purge` and the other operator commands.
- Message fields the protocol does not read (`hops`, `secs`, `siaddr`, ...) appear in the packet codec only.
- Expiry.OfferReturns: needs a clock that does not go back and advances by less than 2^32 seconds, no restart, and at most 256 messages in the transaction; Expiry.MessageCountsIff says what the 257th does.
- Timers.OneShotTimer: polls more than 2^32 seconds apart are excluded, because the clock is a uint32_t.
- AddressText.ParsePrintIpv4: the parser is modelled on input without blanks, signs or numbers beyond 32 bits, where `sscanf` does more.
- OptionCodec.WriteValue: a numeric option longer than 4 octets is serialized with zeros where the program shifts by more than the width of the type.
- OptionCodec.ParseOptions: an option longer than 253 octets or one that leads out of the 336 octet buffer ends in the outcome `Overruns`; what the program reads there is not modelled.
- AddressPools.NewPool: a pool whose bitmap size wraps around is created but not valid; what the program does with the bits outside its bitmap is not modelled.
- Runs.RunsAreSafe: assumes honest commits and ACKs typed DHCP_ACK; SafetyLimits.RunsSafeIff is the exact statement without these assumptions.
- Runs.StepKeepsInv: the same assumptions; SafetyLimits.StepSafeIff is exact without them.
- LeaseSafety.RequestKeepsInv: the same assumptions; SafetyLimits.HandleSafeIff is exact without them.
- LeaseSafety.ReceiveKeepsInv: the same assumptions; SafetyLimits.StepSafeIff is exact without them.
- LeaseSafety.CommitKeepsInv: assumes a reply typed DHCP_ACK; LeaseSafety.CommitSafeIff and LostLeases.UntypedAckLoses say what happens without it.
- Accounting.StepAccountedIff: the type left in a cached ACK may be anything but DHCP_OFFER, which would count the ACK as a second offer; the code leaves 0.
- CacheMap.AddRefines: needs nonzero transaction ids; CacheMap.ZeroIdSplitsIff says what id 0 does.
- CacheMap.LookupRefines: needs nonzero transaction ids, because id 0 also marks idle slots.
- CacheMap.RunsKeepMap: needs nonzero transaction ids; CacheMap.ZeroIdSplitsIff says what id 0 does.
- LinkedLists.LinkedList.GetIndex: a positive index into an empty list dereferences null in the program and is excluded.
- LinkedLists.LinkedList: other classes hold their lists as sequences, which this class is proved to implement.
