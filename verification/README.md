# Verified models of the DHCP and IPv6 neighbor discovery programs

This project models the protocol logic of two program pairs of the repository and proves what they
promise: the DHCP server and client under `wifi/dhcp`, and the IPv6 neighbor discovery proxy under
`network/ipv6proxy`. `dafny verify dfyconfig.toml` checks everything.

| file | what it models |
|---|---|
| `Words.dfy`, `Bits.dfy` | machine words, their bytes in both byte orders, C's bitwise operators and contiguous netmasks |
| `LeaseAllocator.dfy` | the lease table and its address search, over whole runs |
| `Codec.dfy`, `DhcpMessage.dfy` | the DHCP option format, the in-place message builder, both option readers |
| `Reconfiguration.dfy` | what a change of interface settings does to the lease table |
| `Server.dfy` | the server's dispatch of one message, and whole server runs |
| `Checksum.dfy`, `Socket.dfy`, `IpReader.dfy` | the Internet checksum, the raw UDP frames of the client, an independent IPv4 and UDP receiver |
| `Timers.dfy`, `ClientMachine.dfy`, `DhcpClient.dfy` | the client: timers, state machine, poll loop, and the object that runs it |
| `ClientAnswers.dfy`, `Retransmission.dfy` | what ends a client's wait and what each answer leaves; how often and how long it asks |
| `Handshake.dfy` | one client and the server: the exchanges that get, keep and lose an address |
| `Network.dfy`, `ClientRounds.dfy` | many clients and one server on a network that loses, duplicates and reorders; the client program's rounds as runs of it |
| `TransactionIds.dfy`, `Sharing.dfy` | which runs keep transaction ids apart; on which networks two clients can end up on one address |
| `NdPacket.dfy`, `NdProxy.dfy`, `RecursiveDns.dfy` | packet classification, the option walk, in-place rewriting, forwarding, announced DNS servers |
| `NdOptions.dfy`, `NdForwarding.dfy` | an encoder for neighbor discovery packets; what arrives where, by packet type |
| `Netlink.dfy` | the aligned attribute append and the proxy's routing requests |

## Main results

- **No shared address.** In every reachable state of any number of clients and one server, each
  client's address is zero or the server's lease for its MAC, and no two clients share one, as long
  as no two clients have used the same transaction id in a DHCPREQUEST
  (`Network.NoTwoClientsShareAnAddress`). Start counters at least n apart guarantee this for the
  first n steps of the system (`TransactionIds.NoSharingWhileSpread`).
- **When addresses can be shared.** The client checks the transaction id of a reply but not its
  hardware address, and ids are consecutive 32-bit counters. So no choice of start counters is safe
  for ever: a client that goes on discovering reaches any other client's counter. From any initial
  state, all runs are free of shared addresses if and only if there is at most one client, or the
  server does not serve the interface, or it has no address to give
  (`Sharing.SafeIffNothingToShare`); otherwise any two clients can be led to one address
  (`Sharing.AnyTwoCanShare`). In the program every counter starts at 1.
- **The exchange.** On a network that delivers, four messages bind a client to its lease
  (`Handshake.FourMessagesBind`); a request is acknowledged exactly when it asks for the lease, and
  looked up, and so possibly leased, even when it is refused (`Handshake.AckIffLease`).
- **Exact leases.** For any netmask the leases on a fixed interface are exactly the assignable
  addresses below the search frontier, each held once; under a contiguous netmask that is an interval
  minus the interface's own address. A new client is refused exactly when nothing assignable is left,
  and then for ever. Leases never change, whatever the interface settings become; but when they
  change, the search starts over from the new network address with the old offset. No address is
  leased twice while the network address never falls (`Reconfiguration.AscendingKeepsUnique`), and
  one change of settings is safe in all runs if and only if it does not lower the network address or
  no address is assignable under both settings (`Reconfiguration.SafeIffNotFalling`).
- **Codec.** What a factory builds is read back exactly by both readers of the client, in any receive
  buffer. One field does not survive: the lease time is written in host order and read in network
  order, so the client reads ten minutes exactly when the server is big-endian. For a little-endian
  server the 32-bit estimate of T2 then wraps, and the client skips the Renewing state altogether
  (`Retransmission.LittleEndianServerSkipsRenewing`).
- **Client rounds.** A wait ends exactly by an answer or by time: an acknowledgement that cannot be put
  into effect leaves state and timeout alone (`ClientAnswers.AckEndsWait`), and one that can, arriving
  in any round of Requesting, Renewing or Rebinding, ends that round in Bound
  (`ClientAnswers.AskAndBind`).
- **Client timing.** Unanswered, Requesting and Rebinding send five requests and fall back to Init, with
  waits of 4 to 64 seconds and never sooner than 119 seconds on the clock
  (`Retransmission.GivesUpNoSooner`); Renewing goes on at 64 seconds until T2
  (`Retransmission.RenewingRetransmits`); Bound sleeps until T1.
- **Raw frames.** A receiver that shares nothing with the sender, and goes by the lengths and checks of
  RFC 791 and RFC 768, reads every frame as it was meant, with any link padding
  (`IpReader.FrameIsRead`).
- **Server dispatch.** When the server is silent, which of its three replies it sends, and what one
  message does to the lease table, each as an if-and-only-if on the message and the interface
  (`Server.SilentIff`, `ReplyTypeIff`, `OneLookup`).
- **Checksum.** A closed form for every input, the exact condition under which a wrapping accumulator
  does harm, independence of byte order, and an exact condition for a receiver to accept a datagram:
  a big-endian sender adds an odd last byte in the wrong half of its word. That case is latent: the
  client's own messages are 254 and 266 bytes long (`DhcpMessage.ClientSizes`), and every receiver
  accepts each frame the client sends (`DhcpClient.DhcpClient.RunRound`).
- **Proxy.** A packet laid out by RFC 4861 with any options is read as what it is
  (`NdOptions.PacketIsRead`), and arrives on each interface with that interface's own address in place
  of the sender's and nothing else changed (`NdForwarding.RouterAdvertisementArrives`,
  `NeighborAdvertisementArrives`).
- **Shared buffer.** The proxy rewrites one buffer again and again while broadcasting, and each
  interface still receives what a fresh copy would have given it. The option loop ends exactly when
  no option it walks has length zero; a router advertisement of 64 bytes on which it does not end is
  `NdPacket.ZeroLengthHangs`.

## How the model reads the source

- An `in_addr_t`, a transaction id or a flags word is represented by the number its bytes spell in
  network order, so `htonl` and `ntohl` on it vanish and equality is unchanged. Where the source
  keeps or reads a word in host order (the default lease time, the checksum words, netlink lengths)
  the byte order is an explicit `Endian` parameter.
- The DHCP message buffer is the 1260-byte struct and the four bytes that follow it in the object.
  No read of the code goes further, on any received message: the option readers are total.
- System calls are parameters: ioctl results (`IfConfig`, `Outside`), ppoll results and clock samples
  (`Poll`), the results of configuring the interface (`Outcome`), the random fuzz (`Adjustment`), the
  bytes that follow the message struct (`rest`).
- What the client does to its interface is kept in `Device` (up or down, MTU, netmask, default route,
  the values of the gateway and DNS properties) and `address`. A property that holds an address is
  represented by the address, and by zero or `None` where the code clears it.
- The transaction counter of the server is a parameter: every reply overwrites the id.
- `Message::offer` and `Message::ack`, and `sendDhcpOffer` and `sendAck`, differ in the message type
  only and are one member with that type as a parameter.
- A poll loop is modelled over the polls that have happened so far; it has returned or is still
  polling.
- The comments in `wifi/dhcp/common/message.cpp` say that the lease time is in seconds; the code
  sends its bytes in host order. The model follows the code.

## Model

| member | source | states |
|---|---|---|
| `Bits.AndLowBits` | wifi/dhcp/server/dhcpserver.cpp:305-308 | masking with a run of low ones is the remainder |
| `Bits.AndSplit` | wifi/dhcp/server/dhcpserver.cpp:303-308 | an address is the sum of its network part and its host part |
| `Bits.OrComplement` | wifi/dhcp/server/dhcpserver.cpp:321 | address or inverted mask is the network part plus all host bits |
| `LeaseAllocator.SearchInside` | wifi/dhcp/server/dhcpserver.cpp:369-376 | without any 32-bit wrap the search ends at the first host from the frontier on or at the broadcast address, and skips no host |
| `LeaseAllocator.SearchStep` | wifi/dhcp/server/dhcpserver.cpp:369-385 | a search that ends in range found the first host left; one that does not shows that none is left |
| `LeaseAllocator.AllocateKeepsExact` | wifi/dhcp/server/dhcpserver.cpp:353-386 | an allocation keeps: leased is exactly what is assignable below the frontier, each address once |
| `LeaseAllocator.LookupFrame` | wifi/dhcp/server/dhcpserver.cpp:327-389 | a lookup never changes an existing lease or another interface, and delivers the non-zero lease with the settings just read |
| `LeaseAllocator.LookupKeepsExact` | wifi/dhcp/server/dhcpserver.cpp:327-389 | every lookup, on this or another interface, with failing ioctl calls or not, keeps the exact invariant |
| `LeaseAllocator.RunKeepsExact` | wifi/dhcp/server/dhcpserver.cpp:327-389 | so does every run of lookups, for any netmask |
| `LeaseAllocator.LeasesAreForever` | wifi/dhcp/server/dhcpserver.cpp:354-387 | a lease once given is the same after any run, whatever the interface settings become |
| `LeaseAllocator.ContiguousHosts` | wifi/dhcp/server/dhcpserver.cpp:300-325 | under a contiguous netmask the assignable addresses are those strictly between network and broadcast address except the interface's own |
| `LeaseAllocator.LeasedInterval` | wifi/dhcp/server/dhcpserver.cpp:351-388 | after any run the leased addresses are an interval above the network address minus the interface's own, strictly below broadcast, each held by one MAC |
| `LeaseAllocator.RefusedIffAllLeased` | wifi/dhcp/server/dhcpserver.cpp:378-385 | a new client is refused if and only if every assignable address is leased |
| `LeaseAllocator.ExhaustionIsForever` | wifi/dhcp/server/dhcpserver.cpp:354-388 | after one refusal, after any further run, clients without a lease are refused and clients with one get it |
| `LeaseAllocator.HostIff` | wifi/dhcp/server/dhcpserver.cpp:300-313 | for any netmask a host is exactly what is neither the network nor the broadcast address of its own network nor the interface's |
| `LeaseAllocator.CapacityWhenFull` | wifi/dhcp/server/dhcpserver.cpp:300-325 | a full interface with k host bits serves 2^k - 2 clients, one fewer if its own address is a host address |
| `Reconfiguration.AllocateAnywhere` | wifi/dhcp/server/dhcpserver.cpp:351-388 | an allocation on a table of whatever history takes an assignable address at or above the new network address plus the kept offset, or none |
| `Reconfiguration.AscendingKeepsUnique` | wifi/dhcp/server/dhcpserver.cpp:327-389 | over any run in which the network address of the interface never falls, no address is leased twice |
| `Reconfiguration.ReachHost` | wifi/dhcp/server/dhcpserver.cpp:353-388 | new clients can drive the search to any assignable address it has not passed |
| `Reconfiguration.SafeIffNotFalling` | wifi/dhcp/server/dhcpserver.cpp:351-388 | no run before and after a change of settings leases one address twice if and only if the network address does not fall or no address is assignable under both |
| `Codec.EncodeAppend` | wifi/dhcp/common/message.cpp:266-275 | appending an option appends its bytes |
| `Codec.FindsFirstMatch` | wifi/dhcp/common/message.cpp:285-303 | on a built option area, with anything behind its end marker, getOption finds exactly the first option with the code, and fails exactly when there is none |
| `Codec.ScanAppliesAll` | wifi/dhcp/client/dhcpclient.cpp:312-395 | the configureDhcp loop stops at the end marker with every option before it applied in order |
| `Codec.ReadersAgree` | wifi/dhcp/client/dhcpclient.cpp:312-395 | with unique codes the last-wins loop and the first-wins getOption read the same value for every code |
| `Codec.CutOffOption` | wifi/dhcp/client/dhcpclient.cpp:321-326 | an option cut off by the end of the message fails the loop if and only if it reaches more than two bytes past the end; one that reaches less far is applied |
| `DhcpMessage.ClientSizes` | wifi/dhcp/common/message.cpp:54-79 | a finished discover is 254 bytes long and a finished request 266 |
| `DhcpMessage.Delivered` | wifi/dhcp/common/message.cpp:155-234 | bytes of a finished message, in any buffer and with any padding behind them, decode to what the factory was told to build |
| `DhcpMessage.DecodeComplete` | wifi/dhcp/common/message.cpp:155-234 | validity, op, ids, addresses, type, server id, requested address and option record of a built message are read back exactly, padded or not |
| `DhcpMessage.InfoRead` | wifi/dhcp/client/dhcpclient.cpp:330-391 | for any options with distinct codes, each of the nine fields of the record is the value of its own option, or zero |
| `DhcpMessage.DamageIsRejected` | wifi/dhcp/common/message.cpp:167-198 | changing a byte of a built message makes it invalid if and only if it is one of the hardware type, address length or cookie; cutting it does if and only if fewer than 240 bytes are left |
| `DhcpMessage.ParametersListed` | wifi/dhcp/common/message.cpp:54-79 | a discover or request asks for the eight options in the parameter list |
| `DhcpMessage.GrantRead` | wifi/dhcp/common/message.cpp:81-138 | both readers of the client recover every field of an offer or ack, the lease time as its bytes in network order |
| `DhcpMessage.DnsWord` | wifi/dhcp/common/message.cpp:131-133 | DNS slot k of the client is server k of the list as cut to its one-byte length, or zero |
| `DhcpMessage.LeaseTimeSurvivesIffBigEndian` | wifi/dhcp/common/message.cpp:99-128 | the client reads ten minutes if and only if the server is big-endian |
| `DhcpMessage.NackRead` | wifi/dhcp/common/message.cpp:140-153 | a nack is read as a nack with the server's id |
| `DhcpMessage.RequestRead` | wifi/dhcp/common/message.cpp:65-79 | the server recovers the address the client asks for |
| `DhcpMessage.DiscoverRead` | wifi/dhcp/common/message.cpp:54-63 | a discover is read as a discover that asks for no address |
| `DhcpMessage.FreshlyBuilt` | wifi/dhcp/common/message.cpp:236-264 | the writes of the builder constructor give the header, cookie and type option, all else zero |
| `DhcpMessage.Message.Build` | wifi/dhcp/common/message.cpp:236-264 | the constructor leaves an open message with this header and the type option |
| `DhcpMessage.Message.AddOption` | wifi/dhcp/common/message.cpp:266-275 | appends the option in place, changes no other byte, and extends the option list by it |
| `DhcpMessage.Message.AddOptionItems` | wifi/dhcp/common/include/message.h:109-121 | the item-by-item form does the same |
| `DhcpMessage.Message.EndOptions` | wifi/dhcp/common/message.cpp:277-283 | appends the end marker and completes the message |
| `DhcpMessage.Message.GetOption` | wifi/dhcp/common/message.cpp:285-303 | the read-only loop computes the first match |
| `DhcpMessage.Message.Type` | wifi/dhcp/common/message.cpp:209-216 | the message type every reader sees |
| `DhcpMessage.Message.ServerId` | wifi/dhcp/common/message.cpp:218-225 | the server id every reader sees |
| `DhcpMessage.Message.RequestedIp` | wifi/dhcp/common/message.cpp:227-234 | the requested address every reader sees |
| `DhcpMessage.Message.IsValidDhcpMessage` | wifi/dhcp/common/message.cpp:167-198 | true exactly for a well-formed message with this operation |
| `DhcpMessage.Message.Discover` | wifi/dhcp/common/message.cpp:54-63 | every byte sent in a discover |
| `DhcpMessage.Message.Request` | wifi/dhcp/common/message.cpp:65-79 | every byte sent in a request |
| `DhcpMessage.Message.Grant` | wifi/dhcp/common/message.cpp:81-138 | every byte sent in an offer or ack, with xid, flags, relay address and chaddr of the request |
| `DhcpMessage.Message.Nack` | wifi/dhcp/common/message.cpp:140-153 | every byte sent in a nack, with the echoed fields |
| `Server.DhcpServer.Allocate` | wifi/dhcp/server/dhcpserver.cpp:354-386 | the search loop and the two map updates, as the allocation function |
| `Server.DhcpServer.GetOfferAddress` | wifi/dhcp/server/dhcpserver.cpp:327-389 | the lookup, with its error paths, as the lookup function |
| `Server.DhcpServer.UpdateDnsServers` | wifi/dhcp/server/dhcpserver.cpp:243-256 | the list holds exactly the valid properties, in order |
| `Server.DhcpServer.SendGrant` | wifi/dhcp/server/dhcpserver.cpp:137-205 | the reply sent, if any, carries the address just looked up |
| `Server.DhcpServer.SendNack` | wifi/dhcp/server/dhcpserver.cpp:207-220 | the nack sent, if the interface has an address |
| `Server.DhcpServer.IsValidDhcpRequest` | wifi/dhcp/server/dhcpserver.cpp:222-241 | true exactly when the lookup succeeds and the request names that address; the lease is made either way |
| `Server.DhcpServer.Handle` | wifi/dhcp/server/dhcpserver.cpp:99-122 | one message moves the table and sends a reply as the dispatch function says, which SilentIff, ReplyTypeIff and OneLookup characterise |
| `Server.RespondFaithful` | wifi/dhcp/server/dhcpserver.cpp:99-241 | a reply echoes xid, flags, relay address and chaddr, a grant carries the non-zero lease, an ack the address asked for, a nack answers a request; no lease changes |
| `Server.SilentIff` | wifi/dhcp/server/dhcpserver.cpp:99-241 | the server is silent exactly for messages that are not for it, without an interface address, or when the lookup behind an offer or the second one behind an acknowledgement fails; what is not for it changes nothing |
| `Server.ReplyTypeIff` | wifi/dhcp/server/dhcpserver.cpp:107-122 | the reply is an offer exactly to a discover, an acknowledgement exactly to a request for the address a lookup gives, a refusal exactly to any other request |
| `Server.OneLookup` | wifi/dhcp/server/dhcpserver.cpp:107-241 | every discover and request that is taken, answered or not, moves the table by exactly one lookup for its client |
| `Server.GrantSettings` | wifi/dhcp/server/dhcpserver.cpp:137-205 | a grant carries the netmask and address of the interface and the valid DNS properties in order |
| `Server.ServersInOrder` | wifi/dhcp/server/dhcpserver.cpp:243-256 | the list holds exactly the valid properties, each at the place that counts the valid ones before it |
| `Server.ServeFaithful` | wifi/dhcp/server/dhcpserver.cpp:85-123 | over any run every reply is faithful to the final lease table, whatever the settings were |
| `Server.SameClientSameAddress` | wifi/dhcp/server/dhcpserver.cpp:85-123 | all offers and acks to one client on one interface carry the same non-zero address |
| `Server.DifferentClientsDifferentAddresses` | wifi/dhcp/server/dhcpserver.cpp:85-123 | on fixed settings two clients get the same address only if they have the same MAC, and every granted address is a host address |
| `Checksum.AddChecksum` | wifi/dhcp/common/socket.cpp:34-51 | closed form of the folded sum for every input, 32-bit wrap included |
| `Checksum.AddWords` | wifi/dhcp/common/socket.cpp:37-45 | the first loop adds all words modulo 2^32 |
| `Checksum.WrapExact` | wifi/dhcp/common/socket.cpp:37-50 | when the accumulator wraps, the result is still right exactly under this condition |
| `Checksum.FoldChain` | wifi/dhcp/common/socket.cpp:194-199 | a sum can be continued from its folded value |
| `Checksum.ChainIsConcat` | wifi/dhcp/common/socket.cpp:194-199 | summing an even piece and then another is summing their concatenation |
| `Checksum.ByteOrderIndependent` | wifi/dhcp/common/socket.cpp:34-62 | summing in the other byte order swaps the result, so the stored bytes are the same on every host |
| `Socket.SendRawUdp` | wifi/dhcp/common/socket.cpp:166-210 | the bytes of both headers, checks included, before the payload, which IpReader.FrameIsRead reads back |
| `Socket.FillUdp` | wifi/dhcp/common/socket.cpp:188-200 | the six chained sums give the check of the whole |
| `Socket.IpHeaderAccepted` | wifi/dhcp/common/socket.cpp:175-186 | every receiver's sum over the IP header is all ones |
| `Socket.UdpAcceptedIff` | wifi/dhcp/common/socket.cpp:188-200 | a receiver accepts the datagram if and only if the sender is little-endian, the payload even, or its last byte zero |
| `Socket.RawRoundTrip` | wifi/dhcp/common/socket.cpp:267-297 | a frame is delivered unchanged, exactly on the port it was sent to |
| `IpReader.FrameIsRead` | wifi/dhcp/common/socket.cpp:166-210 | a receiver that goes by the lengths and checks of RFC 791 and RFC 768 recovers exactly source, ports, destination and payload of every frame, whatever padding follows |
| `IpReader.FrameVerifiedIff` | wifi/dhcp/common/socket.cpp:188-200 | that receiver accepts the UDP check if and only if the sender is little-endian, the payload even, its last byte zero, or the check zero |
| `IpReader.RawReceiveAgrees` | wifi/dhcp/common/socket.cpp:267-297 | of the datagrams that receiver accepts, the raw socket takes exactly those without IP options for its port, and hands on their data and any padding |
| `IpReader.ReceivePadded` | wifi/dhcp/common/socket.cpp:267-297 | of a frame with padding the raw socket hands on the data and as much of the padding as fits |
| `IpReader.RawReceiveRejects` | wifi/dhcp/common/socket.cpp:285-293 | the raw socket takes nothing of another version, header length, protocol or port |
| `Timers.Timer.ExpireSeconds` | wifi/dhcp/client/timer.cpp:31-33 | the deadline, in 64-bit arithmetic |
| `Timers.Timer.RemainingMillis` | wifi/dhcp/client/timer.cpp:35-45 | the time left, zero exactly when the timer has expired |
| `Timers.DefaultsOrderedIff` | wifi/dhcp/client/dhcpclient.cpp:402-406 | the default T1 and T2 are ordered within the lease if and only if it is at most 613566756 s; beyond, T2 is over two years early |
| `Timers.DeadlinesOrderedIff` | wifi/dhcp/client/timer.cpp:31-37 | the deadlines set from successive samples are ordered under the same condition |
| `ClientMachine.SwitchSends` | wifi/dhcp/client/dhcpclient.cpp:108-183 | a pass of the switch sends at most one message, under the next transaction id and with the broadcast flag, a discover exactly in Selecting, and changes nothing but state, timeout and ids; a client that goes on to wait for an answer has just sent a request |
| `ClientMachine.HearingSets` | wifi/dhcp/client/dhcpclient.cpp:241-281 | a message changes neither the ids nor the hardware address, and leaves the client with its own address, none, or that of an ack it awaited under its last id |
| `ClientMachine.WaitMovesOrKeeps` | wifi/dhcp/client/dhcpclient.cpp:222-299 | a wait moves to another state with no timeout or leaves all but the lease information alone; Init and Bound ignore everything |
| `ClientMachine.TimeoutsAlwaysInOrder` | wifi/dhcp/client/dhcpclient.cpp:488-519 | in every reachable state outside Bound the timeout is fuzzed and one of six values |
| `ClientMachine.ReachableWaits` | wifi/dhcp/client/dhcpclient.cpp:488-498 | from a fresh client, every calculated wait is exact: no underflow, no wrap |
| `ClientMachine.BoundUntilT1` | wifi/dhcp/client/dhcpclient.cpp:134-151 | Bound is left if and only if T1 has expired; until then the wait is unfuzzed and at most the time T1 had left |
| `ClientAnswers.AnswerEndsWait` | wifi/dhcp/client/dhcpclient.cpp:232-299 | a poll ends the wait if and only if it times out or brings an answer; otherwise state and timeout stay, and only a failed acknowledgement leaves any trace |
| `ClientAnswers.AckEndsWait` | wifi/dhcp/client/dhcpclient.cpp:258-269 | an acknowledgement leads to Bound if and only if its options are readable, it names a lease time, and no call that matters fails; otherwise the wait goes on with state, timeout and fuzz unchanged |
| `ClientAnswers.AckLeaves` | wifi/dhcp/client/dhcpclient.cpp:302-463 | what every acknowledgement, successful or not, leaves in each field of the client and its interface, given and estimated timers included |
| `ClientAnswers.NakResets` | wifi/dhcp/client/dhcpclient.cpp:270-275 | a refusal clears address and netmask and takes the interface down, as far as the calls succeed, and leads to Init |
| `ClientAnswers.OfferTaken` | wifi/dhcp/client/dhcpclient.cpp:244-251 | an offer sets the server and the address to ask for and leads to Requesting |
| `ClientAnswers.UnansweredWait` | wifi/dhcp/client/dhcpclient.cpp:221-299 | without an answer the wait returns exactly when its time has run out, in the same state |
| `ClientAnswers.AnsweredWait` | wifi/dhcp/client/dhcpclient.cpp:221-299 | the first answer before that ends the wait at once, whatever came before and would come after |
| `ClientAnswers.WaitChangesByAnswer` | wifi/dhcp/client/dhcpclient.cpp:221-299 | a wait that changes the state does so by an answer among its polls |
| `ClientAnswers.AskAndBind` | wifi/dhcp/client/dhcpclient.cpp:103-187 | one whole round in Requesting, Renewing or Rebinding in which a good acknowledgement arrives, behind anything that is no answer, ends in Bound with what it grants |
| `ClientAnswers.RenewingIsHeard` | wifi/dhcp/client/dhcpclient.cpp:152-164 | a renewing client whose first poll brings a good acknowledgement is bound by the end of that round |
| `ClientAnswers.WhyInit` | wifi/dhcp/client/dhcpclient.cpp:122-180 | a client that falls back to Init had reached the longest timeout, or received a refusal |
| `ClientAnswers.WhyBound` | wifi/dhcp/client/dhcpclient.cpp:253-264 | a client becomes Bound only by an acknowledgement it could put into effect |
| `Retransmission.InitSelects` | wifi/dhcp/client/dhcpclient.cpp:109-114 | from Init the client goes straight on to Selecting and sends nothing before |
| `Retransmission.QuietRound` | wifi/dhcp/client/dhcpclient.cpp:108-187 | a quiet round in Selecting, Requesting, Renewing or Rebinding sends one message, waits once, and doubles the timeout |
| `Retransmission.RenewingRetransmits` | wifi/dhcp/client/dhcpclient.cpp:152-164 | over n rounds without an answer before T2 the client stays in Renewing, sends exactly n requests to its server, and waits 4, 8, 16, 32, 64, 64, ... s, each give or take one |
| `Retransmission.BoundSleepsUntilT1` | wifi/dhcp/client/dhcpclient.cpp:134-151 | the wait in Bound is the time T1 has left, cut to 32 bits; uncut, it is over at T1 and not before |
| `Retransmission.GivesUpAfterFive` | wifi/dhcp/client/dhcpclient.cpp:122-180 | over polls with no NAK and no ACK that can be put into effect, exactly five requests for one address to one server, waits of 4, 8, 16, 32 and 64 s each give or take one, then Init in the sixth round and not before |
| `Retransmission.GivesUpNoSooner` | wifi/dhcp/client/dhcpclient.cpp:122-299 | a client that gives up over such polls has waited at least 119 s on the clock |
| `ClientMachine.AsksForAddress` | wifi/dhcp/client/dhcpclient.cpp:521-527 | a request names the remembered address and the known server, or any server when rebinding |
| `Retransmission.RenewingUntilT2` | wifi/dhcp/client/dhcpclient.cpp:152-164 | Renewing asks the known server again until T2 expires, then moves on without asking |
| `Retransmission.SelectingPersists` | wifi/dhcp/client/dhcpclient.cpp:115-121 | Selecting never gives up: n quiet rounds send n discovers and follow the same series of timeouts |
| `Retransmission.RemainingExact` | wifi/dhcp/client/dhcpclient.cpp:291-298 | the re-armed timeout is exactly the time left: no underflow, no truncation, never longer |
| `Retransmission.WaitsItOut` | wifi/dhcp/client/dhcpclient.cpp:221-299 | a wait that ends without a state change has lasted at least its timeout, whatever arrived or failed |
| `Retransmission.TimespecExact` | wifi/dhcp/client/dhcpclient.cpp:225-227 | the seconds and nanoseconds are exactly the timeout |
| `ClientMachine.AckConfigures` | wifi/dhcp/client/dhcpclient.cpp:302-463 | an ack of this server puts the client in Bound with exactly the offered address, mask, gateway and DNS servers, on the interface too |
| `ClientMachine.ConfigureAll` | wifi/dhcp/client/dhcpclient.cpp:302-463 | a configuration without a fatal failure leaves the interface up with the address, netmask, MTU, default route, gateway and DNS properties of the message, each property unless its write failed |
| `ClientMachine.RenewalWindowIffBigEndian` | wifi/dhcp/client/dhcpclient.cpp:402-406 | this server's lease leaves T1 not after T2 if and only if the server is big-endian |
| `Retransmission.LittleEndianServerSkipsRenewing` | wifi/dhcp/client/dhcpclient.cpp:139-164 | with a little-endian server the client goes from Bound to Rebinding without sending a request |
| `DhcpClient.DhcpClient.constructor` | wifi/dhcp/client/dhcpclient.cpp:53-60 | a fresh client |
| `DhcpClient.DhcpClient.SetNextState` | wifi/dhcp/client/dhcpclient.cpp:513-519 | the transition, with no timeout and fuzz on |
| `DhcpClient.DhcpClient.IncreaseTimeout` | wifi/dhcp/client/dhcpclient.cpp:500-511 | the doubled, capped timeout |
| `DhcpClient.DhcpClient.CalculateTimeoutMillis` | wifi/dhcp/client/dhcpclient.cpp:488-498 | the fuzzed timeout in 32-bit arithmetic |
| `DhcpClient.DhcpClient.SendDhcpRequest` | wifi/dhcp/client/dhcpclient.cpp:521-527 | the request for the remembered address, under the next transaction id |
| `DhcpClient.DhcpClient.SendDhcpDiscover` | wifi/dhcp/client/dhcpclient.cpp:529-533 | the discover, under the next transaction id |
| `DhcpClient.DhcpClient.SendMessage` | wifi/dhcp/client/dhcpclient.cpp:535-545 | every receiver reads the frame that goes out as this message, broadcast from the client's port to the server's; other clients drop it; its UDP check is accepted exactly when the host is little-endian, the payload even, its last byte zero or the check zero, and so for every message the client builds |
| `DhcpClient.MessageIsSeen` | wifi/dhcp/client/dhcpclient.cpp:476-486 | a finished message for the client's port, sent raw and padded by the link in any way, is seen as what it was built from |
| `DhcpClient.DhcpClient.Evaluate` | wifi/dhcp/client/dhcpclient.cpp:108-183 | the switch moves the client as the machine does and sends that very message |
| `DhcpClient.DhcpClient.ParseOptions` | wifi/dhcp/client/dhcpclient.cpp:312-395 | the in-place option loop, with its early failure |
| `DhcpClient.DhcpClient.SetTimers` | wifi/dhcp/client/dhcpclient.cpp:404-406 | both deadlines, given or estimated |
| `DhcpClient.DhcpClient.ConfigureDhcp` | wifi/dhcp/client/dhcpclient.cpp:302-463 | all failure points and what each leaves behind in the client and on the interface |
| `DhcpClient.DhcpClient.ConfigureInterface` | wifi/dhcp/client/dhcpclient.cpp:408-462 | the interface comes up, then MTU, properties, address and netmask, default route, up to the first fatal failure |
| `DhcpClient.DhcpClient.WriteProperties` | wifi/dhcp/client/dhcpclient.cpp:423-445 | each of the five properties takes its value from the message unless its write fails |
| `DhcpClient.DhcpClient.HaltNetwork` | wifi/dhcp/client/dhcpclient.cpp:465-474 | the address and netmask are cleared and the interface is brought down, each unless it failed |
| `DhcpClient.DhcpClient.ReceiveDhcpMessage` | wifi/dhcp/client/dhcpclient.cpp:476-486 | delivers exactly the well-formed replies with the last transaction id |
| `DhcpClient.DhcpClient.React` | wifi/dhcp/client/dhcpclient.cpp:241-281 | the reaction of each state to each message |
| `DhcpClient.DhcpClient.WaitAndReceive` | wifi/dhcp/client/dhcpclient.cpp:210-300 | the poll loop ends, and changes the client, as the machine's wait does |
| `DhcpClient.DhcpClient.RunRound` | wifi/dhcp/client/dhcpclient.cpp:103-187 | one round of the endless loop moves the client as the machine does, and sends exactly the machine's message, in a frame that every receiver reads as that message and accepts |
| `Handshake.DiscoverToRequest` | wifi/dhcp/server/dhcpserver.cpp:137-171 | a discover is answered if and only if there is an address for the client, which then asks this server for exactly that |
| `Handshake.AckIffLease` | wifi/dhcp/server/dhcpserver.cpp:112-120 | a request is acknowledged if and only if it asks for the client's lease, and refused otherwise; the lookup is made either way |
| `Handshake.AskingForTheLeaseBinds` | wifi/dhcp/client/dhcpclient.cpp:253-264 | a client that asks for its lease ends in Bound with that address |
| `Handshake.AskingRoundBinds` | wifi/dhcp/client/dhcpclient.cpp:103-187 | the same as one whole round of the client: it asks, and the server's reply arrives among its polls |
| `Handshake.AskingForAnotherResets` | wifi/dhcp/client/dhcpclient.cpp:270-275 | a client that asks for anything else is sent back to Init and loses its address |
| `Handshake.FourMessagesBind` | wifi/dhcp/server/dhcpserver.cpp:107-122 | discover, offer, request, ack: a client the server has an address for is bound to its lease |
| `Network.HearKeepsProcess` | wifi/dhcp/client/dhcpclient.cpp:242-276 | while request ids are disjoint, an accepted ack was sent for this very client |
| `Network.ActKeepsOrder` | wifi/dhcp/client/dhcpclient.cpp:103-187 | while request ids are disjoint, every step of any client or the server, on any delivered message, keeps the system invariant |
| `Network.NoTwoClientsShareAnAddress` | wifi/dhcp/server/dhcpserver.cpp:107-122 | in every reachable state with disjoint request ids each address is zero or the client's own lease, and no two clients share one |
| `ClientRounds.WaitIsRun` | wifi/dhcp/client/dhcpclient.cpp:189-300 | a wait, over polls that bring only messages of the wire and anything not for this client, is a run of network actions with the same resulting client |
| `ClientRounds.RoundIsRun` | wifi/dhcp/client/dhcpclient.cpp:103-187 | so is a whole round of the client's loop, with the same message broadcast and all else unchanged |
| `TransactionIds.IdsOfRun` | wifi/dhcp/common/message.cpp:248 | over a run of n actions every client uses only the n ids from its counter on |
| `TransactionIds.SpreadMeansDisjoint` | wifi/dhcp/common/message.cpp:24 | start counters at least n apart, in both directions around the 32-bit circle, keep ids disjoint for n actions |
| `TransactionIds.NoSharingWhileSpread` | wifi/dhcp/client/dhcpclient.cpp:103-187 | from such a start no two clients share an address within n actions |
| `Sharing.CanServeIffHasHost` | wifi/dhcp/server/dhcpserver.cpp:369-385 | the server has an address for its first client if and only if it serves the interface and some address is assignable |
| `Sharing.AnyTwoCanShare` | wifi/dhcp/client/dhcpclient.cpp:241-264 | from any initial state, whatever the counters and however many clients, any two clients can be led to one address when the server can serve the first |
| `Sharing.SafeIffNothingToShare` | wifi/dhcp/client/dhcpclient.cpp:476-486 | no run shares an address if and only if there is at most one client, or the server does not serve the interface, or it has no address to give |
| `NdPacket.LoopEndsIffNoZeroLength` | network/ipv6proxy/packet.cpp:115-133 | the option loop ends if and only if no walked option has length zero |
| `NdPacket.ZeroLengthHangs` | network/ipv6proxy/packet.cpp:111-133 | a 64-byte router advertisement on which the option loop never ends |
| `NdPacket.LoopFollowsWalk` | network/ipv6proxy/packet.cpp:111-133 | the loop visits the options of the walk, in order |
| `NdPacket.WalkIsMaximal` | network/ipv6proxy/packet.cpp:74-133 | the walk is the maximal run of adjoining options that fit the packet |
| `NdPacket.RewriteByte` | network/ipv6proxy/proxy.cpp:41-51 | byte by byte: an address field of the requested type holds the link address, every other byte is unchanged |
| `NdPacket.RewriteKeepsFraming` | network/ipv6proxy/proxy.cpp:41-51 | rewriting changes no header byte, option type or length |
| `NdPacket.RewriteOverwrites` | network/ipv6proxy/proxy.cpp:41-51 | a later rewrite leaves no trace of an earlier one; rewriting is idempotent |
| `NdPacket.RewriteReaches` | network/ipv6proxy/proxy.cpp:41-51 | every visited option of the type ends up with the link address |
| `NdPacket.SameWalk` | network/ipv6proxy/packet.cpp:21-133 | the walk and the packet type depend on the framing bytes only |
| `NdOptions.PacketIsRead` | network/ipv6proxy/packet.cpp:21-133 | any of the four messages laid out by RFC 4861 with any list of options gets its type, and the walk visits exactly its options, in order |
| `NdOptions.TypeIff` | network/ipv6proxy/packet.cpp:27-72 | which bytes and which size make each of the four types, both directions |
| `NdOptions.RewriteReaddresses` | network/ipv6proxy/proxy.cpp:41-51 | rewriting a packet laid out so gives the same packet with the link address in every option of the type |
| `NdPacket.Packet.constructor` | network/ipv6proxy/packet.cpp:21-83 | the early returns compute the classification and the first option |
| `NdPacket.Packet.NextOption` | network/ipv6proxy/packet.cpp:115-133 | the next option, or none, for any option of the packet |
| `NdProxy.RewriteLinkAddressOption` | network/ipv6proxy/proxy.cpp:41-51 | the loop that writes into the packet it walks computes the rewriting |
| `NdProxy.RewrittenByte` | network/ipv6proxy/proxy.cpp:228-233 | what an interface sees, byte by byte, under any combination of the rewrite flags |
| `NdProxy.SharedBufferUnobservable` | network/ipv6proxy/proxy.cpp:193-195 | forwarding from the buffer as left by another interface, under any flags, does what forwarding the original would |
| `NdProxy.Broadcast` | network/ipv6proxy/proxy.cpp:193-195 | the loop over the inner interfaces, all served from one buffer, has the effects of one fresh copy for each |
| `RecursiveDns.ExtractRecursiveDnsServers` | network/ipv6proxy/proxy.cpp:53-90 | the property writes for all recursive DNS options of the walk, in order |
| `RecursiveDns.ReadServers` | network/ipv6proxy/proxy.cpp:59-73 | the addresses inside one option, all of them within the option |
| `RecursiveDns.SetProperties` | network/ipv6proxy/proxy.cpp:75-88 | the first four servers go to the four properties, and the rest are cleared |
| `RecursiveDns.LastAnnouncementWins` | network/ipv6proxy/proxy.cpp:53-90 | what the four properties hold afterwards is decided by the last announcement of the packet alone; without one they are unchanged |
| `RecursiveDns.ServersReadBack` | network/ipv6proxy/proxy.cpp:55-73 | the servers of an announcement laid out by RFC 8106 are read back, all and in order |
| `RecursiveDns.AnnouncementSets` | network/ipv6proxy/proxy.cpp:53-90 | property i holds the i-th server of the last announcement of the packet, or is cleared; no other property changes |
| `NdProxy.Forward` | network/ipv6proxy/proxy.cpp:217-268 | what is sent and routed, and what is left in the buffer |
| `NdProxy.HandleOuterMessage` | network/ipv6proxy/proxy.cpp:176-196 | the effects of a message from outside, which NdForwarding gives type by type, and the buffer left behind |
| `NdProxy.HandleInnerMessage` | network/ipv6proxy/proxy.cpp:198-215 | the effects of a message from inside, likewise, and the buffer left behind |
| `NdProxy.EachInnerGetsItsOwn` | network/ipv6proxy/proxy.cpp:193-195 | each inner interface receives exactly one packet, in order, with its own link address |
| `NdForwarding.RouterAdvertisementOut` | network/ipv6proxy/proxy.cpp:180-195 | a router advertisement sets its DNS servers; each inner interface gets it with its own address in every walked source option and all else unchanged, and the sender becomes the gateway through the outer interface |
| `NdForwarding.NeighborSolicitationOut` | network/ipv6proxy/proxy.cpp:184-195 | a neighbor solicitation reaches every inner interface unchanged from its original source |
| `NdForwarding.NeighborAdvertisementOut` | network/ipv6proxy/proxy.cpp:187-195 | a neighbor advertisement reaches every inner interface with that interface's address in the target options alone |
| `NdForwarding.SilentOut` | network/ipv6proxy/proxy.cpp:190-191 | nothing else from outside has any effect |
| `NdForwarding.InnerByType` | network/ipv6proxy/proxy.cpp:198-262 | from inside: what goes out for each type, from the original source, and the host route to the sender for neighbor messages; nothing else has any effect |
| `NdForwarding.RouterAdvertisementArrives` | network/ipv6proxy/proxy.cpp:176-247 | for any options, each inner interface receives the same message with the same options, its own address in place of the router's |
| `NdForwarding.NeighborAdvertisementArrives` | network/ipv6proxy/proxy.cpp:176-257 | the same for neighbor advertisements, in both directions |
| `Netlink.Request.AddRouterAttribute` | wifi/dhcp/client/netlink.h:5-22 | appends one aligned attribute, never touches an earlier one, and keeps the length the sum of the aligned sizes |
| `Netlink.ReadsBack` | network/ipv6proxy/router.cpp:26-43 | the standard aligned walk recovers the attributes in order |
| `Netlink.RequestIsRead` | network/ipv6proxy/router.cpp:26-153 | a reader of the whole message recovers kind, flags, fixed part and attributes |
| `Netlink.AddRoute` | network/ipv6proxy/router.cpp:82-109 | a reader recovers a create request for a unicast route of the main table with this prefix length, destination and interface |
| `Netlink.SetDefaultGateway` | network/ipv6proxy/router.cpp:111-141 | a reader recovers a create request for a default route with gateway, interface and any source |
| `Netlink.AddNeighbor` | network/ipv6proxy/router.cpp:55-80 | a reader recovers a create request for a permanent proxy entry of this neighbor on this interface |

## Left out

- System calls, signal masks, logging, socket set-up and the text of error results; their outcomes are parameters.
- The names of Android properties, and the text that `inet_ntop` and `addrToStr` make of an address.
- The kernel's UDP socket on the server side; a message is taken as received with its interface index.
- DhcpMessage.Message: the constructor from raw bytes (wifi/dhcp/common/message.cpp:44-52), which no caller uses.
- NdProxy.RewriteLinkAddressOption: asks that no walked option has length zero, because otherwise the loop of the source does not end (`NdPacket.LoopEndsIffNoZeroLength`).
- NdOptions.PacketIsRead: leaves out a single stray byte behind the last option, because the source then reads a length from behind the packet.
- RecursiveDns.ExtractRecursiveDnsServers: asks the same, for the same reason.
- NdProxy.HandleOuterMessage: asks the same for router and neighbor advertisements only.
- NdProxy.HandleInnerMessage: asks for walkable options in neighbor advertisements, for the same reason.
- DhcpMessage.Message.AddOption: asks that the option fits the buffer, which the source does not check; the factories are shown to leave room.
- Netlink.Request.AddRouterAttribute: asks the same of the 256-byte buffer.
- Network.NoTwoClientsShareAnAddress: assumes that no two clients have used one transaction id in a DHCPREQUEST, because without that it is false (`Sharing.AnyTwoCanShare`). Waits may time out at any moment, so every round of the client program is a run of the network (`ClientRounds.RoundIsRun`).
- `Interface::setAddress`, `Router::setDefaultGateway` of the client and the rest of `wifi/dhcp/client/interface.cpp`, which build further requests with the same append.
- `Proxy::run`, interface and socket initialisation of the proxy, `createns`, `execns`, `mac80211_create_radios`, the `gps` tree, and all argument parsing.
