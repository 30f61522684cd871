# The DHCP server and packet decoders of NetworkLaboratory, verified

The program hands out IPv4 addresses over DHCP while it listens to the traffic of the clients it
serves. This project models its C code in `TF/` in Dafny 4.11 and proves what that code does in every
run. `dafny verify dfyconfig.toml` checks the project.

## What is modelled

- `Bytes.dfy`: bytes, 32-bit words as their four bytes in the memory of a little-endian host, wrap-around
  addition, `memcpy`, C strings and `strlen`.
- `Addresses.dfy`: `get_cur_ip`. The network part is a word in memory order, and the byte-swapped cursor is
  added to it by ordinary 32-bit addition.
- `IpPool.dfy`: the table of 1024 slots indexed by the byte sum of a transaction id, cleared lazily. The
  class keeps the C array and flag, and a ghost history of the calls.
- `Leases.dfy`: the server loop as a state machine over the messages it receives, for any assignment of addresses to
  cursors. `Addresses.Plan` is the server's own, and `EndToEnd.PlanIsGood` shows that it is as good as the results need.
- `Header.dfy`: the 548-byte struct as the memory it occupies, with the in-place byte-order swaps.
- `OptionFormat.dfy`, `OptionReader.dfy`, `OptionSkipping.dfy`, `OptionWriter.dfy`, `OptionRoundTrip.dfy`: what the
  option reader and the option writer do to bytes, as functions, and how the two fit together. Beside them a reader that
  delimits options as RFC 2132 does.
- `DhcpOptions.dfy`: the two functions themselves, imperatively, over the struct and the header's array.
- `Packets.dfy`, `Server.dfy`, `EndToEnd.dfy`: the whole loop from packet bytes to reply bytes, and what a client finds there.
- `DnsName.dfy`, `HttpUrl.dfy`: the two decoders of the sniffer.
- `UrlHandoff.dfy`: the interleavings of the two threads that share one URL buffer and one mutex.

Every struct the C code updates through a pointer is a class here, and every fixed-size buffer it fills in
pieces is an array. Fields that are always copied whole (addresses, hardware addresses) are sequence fields.

## Findings

- A lease is bound to the sum of the id's four bytes, so unrelated clients can share a slot. A REQUEST also
  rebinds the slot to the address of the *current* cursor, which need not be the address it has just acked.
  `Leases.ClosedForm` states what every run hands out all the same. Two clients that both discover
  before either requests are acked one address when no other message comes between (`Leases.ConcurrentClientsShare`); a third
  client in the slot of one of them can part them (`Leases.ThirdClientSeparates`). `Leases.AcksAgreeExactly` says exactly
  when two ACKs agree. While the cursor stays in the host range one address is acked at most 257 times
  (`Leases.AckedAtMost`), which `Leases.CrowdShares` reaches. The server's own address and the broadcast address are
  handed out in their turn (`EndToEnd.ReservedOnTheWire`).
- Adding a byte-swapped number is only right while no octet overflows (`Addresses.SwappedAddExact`). Inside the
  host range of a contiguous mask none does (`Addresses.HostRangeAddr`), and every cursor outside it gives an address
  outside the subnet (`Addresses.InSubnetExactly`); for prefixes of 27 bits and more the first one, 40, is already outside.
- The three times of an answer are sent in host order (`TF/dhcp.c:341-355`). A client that reads them as RFC 2132 has it
  finds 270991360 seconds in place of 10000 (`EndToEnd.ClientReads`).
- The option reader and writer are not inverse. The reader takes the type byte of a client id for its first
  byte (`TF/dhcp.c:204`, against line 303) and stores the renew time as the router id (line 212). The writer never
  sends the requested address, because line 377 sets the flag of the server id. The rebind and lease times are
  stepped over. The exact round trip is `OptionRoundTrip.RoundTrip`; `OptionRoundTrip.InverseExactly` says exactly
  which structs come back whole.
- The reader moves by a `uint8_t`. Five options move it by their length byte: host name, client id, renew time,
  router and DNS server. One of these five with length 254 is never left, once it lies inside the array, and nothing
  else makes the loop go on for ever (`OptionReader.NeverEndsExactly`). One of these five with length 255 has its own
  length byte taken for the END. `OptionRoundTrip.RoundTripExactly` gives the host name lengths for which the round
  trip holds.
- The reader does not skip an option it does not know by its length, as RFC 2132 has it (section 2), but goes on with
  its length byte. `OptionSkipping.UnknownSkippedExactly` says exactly which unknown options are passed over,
  `OptionSkipping.ParameterListMisread` shows a common one that is not, and `OptionSkipping.ParameterListLost`
  that the reader leaves the array when this is the last option and zeros follow the END, whatever options stand in front.
- `TF/http.h:5` promises -1 when an error occurs; the code returns 0 (`TF/http.c:30`). The model follows the code.
- The URL buffer holds one URL and unlocking never waits, so a quick second one overwrites the first
  (`UrlHandoff.BurstPrintsLast`). `UrlHandoff.AllPrintedExactly` says exactly
  when none is lost or printed twice; the last one is never lost (`UrlHandoff.LatestIsPrinted`).

## Model

| member | source | states |
|---|---|---|
| Addresses.SwappedAddExact | TF/Application.c:63-67 | the 32-bit sum of two words holding network-order bytes stands for the sum of their numbers if and only if no octet overflows |
| Addresses.CarryGoesAstray | TF/Application.c:63-67 | a concrete network and cursor where the carry reaches the wrong octet |
| Addresses.AndWords | TF/Application.c:64 | masking the word in memory order is masking the number it stands for |
| Addresses.AndBits | TF/Application.c:64 | a bit of the bitwise and is set if and only if it is set in both numbers |
| Addresses.AddrOfZero | TF/Application.c:63-67 | for every mask, contiguous or not, the address of the cursor 0 has the bits that the server's own address and the mask share |
| Addresses.HostRangeAddr | TF/Application.c:63-67 | for every contiguous mask and every cursor in its host range the address is the server's own with the cursor in place of its host bits, lies in the server's subnet, and is nonzero for a nonzero cursor |
| Addresses.HostRangeInjective | TF/Application.c:63-67 | in the host range, equal addresses come only from equal cursors |
| Addresses.ReservedAddrs | TF/Application.c:63-67 | in the host range the cursor's address is the server's own exactly at the cursor that is the host bits of that address, and the broadcast address exactly at the last one |
| Addresses.InSubnetExactly | TF/Application.c:63-67 | under a contiguous mask the address lies in the server's own subnet if and only if the cursor is in the host range, for every 32-bit cursor |
| IpPool.KeyOfNextId | TF/ippool.c:23-27 | the next id's key is one more, and one more again for every byte that wraps; consecutive ids never share a slot; the id 0 has the key 0 |
| IpPool.KeyOfPermutation | TF/ippool.c:23-27 | the key does not depend on the order of the bytes, so not on the byte order of the id |
| IpPool.LatestIsLast | TF/ippool.c:29-42 | a slot holds the address of the last call that used it, 0 when there was none |
| IpPool.TableIsExact | TF/ippool.c:29-42 | while no other id used the slot, the table agrees with an exact map from ids to addresses |
| IpPool.Pool.constructor | TF/ippool.c:10-11 | the table starts not initialised and with an empty history |
| IpPool.Pool.LazyInit | TF/ippool.c:18-21 | clearing sets every slot to 0 and happens before any binding |
| IpPool.Pool.Set | TF/ippool.c:29-35 | the history grows by this binding, and no other slot changes once the table is in use |
| IpPool.Pool.Get | TF/ippool.c:37-42 | the result is the latest binding in the id's slot, and nothing is bound |
| Leases.CursorOfRun | TF/Application.c:225 | after every run the cursor is 40 plus the REQUESTs, modulo 2^32 |
| Leases.SlotOfRun | TF/Application.c:182-223 | after every run every slot holds the address that was current at its latest binder |
| Leases.ClosedForm | TF/Application.c:146-227 | what every run hands out: offers from the current cursor, ACKs from the cursor at the anchor, silence otherwise, including cursor wrap and the address 0 |
| Leases.AckInRange | TF/Application.c:187-225 | while the cursor's addresses are distinct and nonzero, an ACK carries the one for 40 plus the REQUESTs before the anchor |
| Leases.AcksAgreeExactly | TF/Application.c:147-225 | two ACKs agree if and only if no REQUEST lies between their anchors |
| Leases.ConcurrentClientsShare | TF/Application.c:147-225 | after any run, two clients that both discover before either requests are acked one address when no other message comes between, in either order, whether or not their slots differ |
| Leases.ThirdClientSeparates | TF/Application.c:147-225 | a third client's REQUEST in the slot of the second, before the second one's own, gives the second one the next address |
| Leases.AckedAtMost | TF/Application.c:187-225 | in range, one address is acked at most 257 times, once for each slot and once more |
| Leases.CrowdShares | TF/Application.c:147-225 | a run in which 257 REQUESTs are acked one address |
| Leases.OfferKeptExactly | TF/Application.c:182-199 | the ACK repeats the offer if and only if no REQUEST lies between the DISCOVER and the slot's last binder |
| Leases.OfferStable | TF/Application.c:182-199 | without a colliding message in between the ACK repeats the offer, however far the cursor moved |
| Leases.SerialHandshakes | TF/Application.c:147-225 | clients one after the other are offered and acked hosts 40, 41, ... in order, even when ids collide |
| Leases.SerialDistinct | TF/Application.c:147-225 | no two of them share an address |
| Leases.RepeatedAcks | TF/Application.c:187-225 | after any run, a client repeating its REQUEST n times is acked c, c, c+1, c+2, ..., and the server's cursor ends at c + n |
| Header.SwapFieldsTwice | TF/dhcp.c:109-111 | the swaps touch bytes 4-11 only and undo themselves, so two encodes restore the struct |
| Header.DecodeThenEncode | TF/dhcp.c:103-138 | for every full packet, decoding reads its three numbers in network order and encoding gives the packet back |
| Header.DecodeShort | TF/dhcp.c:103-111 | the result is the packet and behind it the struct as it was, swapped, also when the packet ends among the swapped fields |
| Header.DhcpHeader.SetFromBytes | TF/dhcp.c:103-116 | the struct becomes the decoded packet |
| Header.DhcpHeader.ToBytes | TF/dhcp.c:120-138 | the buffer receives the swapped struct if it is large enough, and the struct stays swapped either way |
| OptionFormat.WellFormedExactly | TF/dhcp.c:172-239 | in numbers: which codes are known, and which payload lengths the lists of options may have |
| OptionReader.OptionCrossed | TF/dhcp.c:167-240 | in numbers, for every known code: one step comes to what stands behind the payload and stores it in the field of the code; the length byte counts for five codes only |
| OptionReader.LongOption | TF/dhcp.c:169-240 | for those five a length of 254 keeps the loop where it is, and 255 moves it by one byte |
| OptionReader.ShortOption | TF/dhcp.c:203-236 | an option shorter than what is copied gives the field bytes of what follows it, and is left behind its payload |
| OptionReader.OneByte | TF/dhcp.c:167-240 | every other byte is stepped over by itself, but for 255, which ends the loop |
| OptionReader.CutOff | TF/dhcp.c:167-240 | an option whose end is cut off takes the loop out of the array |
| OptionReader.MessageTypes | TF/dhcp.c:172-196 | the message type that a list leaves in a record, for every value of its last option 53, and for none |
| OptionReader.LoopEndsExactly | TF/dhcp.c:167-241 | the bytes on which the loop comes to an END inside the array are exactly those the predicate Readable accepts |
| OptionReader.LoopFate | TF/dhcp.c:167-241 | within one step per byte the loop has come to an END, has left the array, or stands at an option of length 254 |
| OptionReader.NeverEndsExactly | TF/dhcp.c:167-241 | the loop goes on for ever if and only if it reaches a whole length-driven option of length 254 |
| OptionReader.LeavesExactly | TF/dhcp.c:167-241 | it leaves the array if and only if it neither comes to an END nor reaches such an option |
| OptionReader.StuckAt254 | TF/dhcp.c:197-240 | one of the five length-driven options with length 254 is never left, in any number of steps |
| OptionReader.StepOverOption | TF/dhcp.c:167-240 | one step crosses one well-formed option, whatever its payload and whatever follows |
| OptionReader.ReaderRefinesFold | TF/dhcp.c:166-241 | on every well-formed list the cursor visits exactly the option boundaries, stops at the END, and the result is the fold of the list |
| OptionReader.FoldLastWins | TF/dhcp.c:172-239 | each field is what the last option that sets it says; the router id follows the renew time too; times and cookie status follow none |
| OptionSkipping.TransparentExactly | TF/dhcp.c:167-241 | bytes at an option boundary leave no trace, for every record and continuation, if and only if they consist of non-codes and whole rebind or lease options |
| OptionSkipping.UnknownSkippedExactly | TF/dhcp.c:237-240 | an unknown option is skipped if and only if its length byte and payload are such bytes |
| OptionSkipping.PadsHarmless | TF/dhcp.c:169-240 | every run of bytes that are neither END nor a known code is such a run |
| OptionSkipping.HarmlessInside | TF/dhcp.c:167-241 | such bytes between any two options of a stream change neither whether it is read to its END nor the result |
| OptionSkipping.ParameterListMisread | TF/dhcp.c:207-210 | whatever follows it, an option 55 with payload 1, 3, 6, 15 sets the subnet mask to its last two bytes and the two behind it |
| OptionSkipping.ParameterListLost | TF/dhcp.c:167-210 | behind any well-formed options, and with an END and any number of zeros behind it, that option makes the loop leave the array, after a given number of steps |
| OptionWriter.WriterLayout | TF/dhcp.c:247-403 | the offset of the END from the set fields and the host name length; everything fits for names up to 251 bytes |
| OptionWriter.FieldsOnTheWire | TF/dhcp.c:254-400 | for every struct with a name up to 255 bytes and every code number: a reader by length finds the field's own bytes when it is set and nothing otherwise, each code at most once, in the writer's order |
| DhcpOptions.AnyNonZero | TF/dhcp.c:293-299 | the flag loop finds a byte other than 0 if there is one |
| DhcpOptions.DhcpOpt.constructor | TF/Application.c:134-136 | a struct after memset |
| DhcpOptions.DhcpOpt.Clear | TF/dhcp.c:143-153 | every field gets its safe value except the lease time |
| DhcpOptions.DhcpOpt.CheckCookie | TF/dhcp.c:157-163 | the status is NOK if and only if the four bytes are not the cookie |
| DhcpOptions.DhcpOpt.StoreWord | TF/dhcp.c:207-236 | the cases that copy four bytes, and the one for unknown codes |
| DhcpOptions.DhcpOpt.StoreOption | TF/dhcp.c:168-239 | one switch stores what the specification of a step says and returns its 8-bit length |
| DhcpOptions.DhcpOpt.SetFromHeader | TF/dhcp.c:140-243 | the struct becomes what Read makes of the header's options |
| DhcpOptions.DhcpOpt.Emit | TF/dhcp.c:276-281 | one conditional write appends one option, or nothing, behind what is there |
| DhcpOptions.DhcpOpt.WriteCookie | TF/dhcp.c:247-252 | the cookie stands at the start of the option array |
| DhcpOptions.DhcpOpt.WriteClient | TF/dhcp.c:254-306 | message type, host name and client id follow it, each if set |
| DhcpOptions.DhcpOpt.WriteSubnet | TF/dhcp.c:308-335 | then the mask and the router |
| DhcpOptions.DhcpOpt.WriteTimes | TF/dhcp.c:337-357 | then the renew, rebind and lease times |
| DhcpOptions.DhcpOpt.WriteServers | TF/dhcp.c:358-400 | then the server id and the DNS server, and the requested address nowhere |
| DhcpOptions.DhcpOpt.WriteTo | TF/dhcp.c:245-404 | the header's option array starts with the encoding of the struct, and every other byte of the header is unchanged |
| OptionRoundTrip.WrittenInHeader | TF/dhcp.c:245-404 | a header written to holds the cookie and the encoded options in front of its old bytes |
| OptionRoundTrip.RoundTrip | TF/dhcp.c:140-404 | for every struct with a name up to 253 bytes, what the reader makes of what the writer wrote, field by field |
| OptionRoundTrip.NameStaysShort | TF/dhcp.c:197-202 | no read ever leaves a host name longer than 255 bytes |
| OptionRoundTrip.RoundTripExactly | TF/dhcp.c:140-404 | on the option bytes, the round trip holds if and only if the name has at most 253 bytes, or 255 and nothing stored follows it |
| OptionRoundTrip.HeaderRoundTripExactly | TF/dhcp.c:140-404 | the same through every header in which the options fit the 312 bytes, cookie included |
| OptionRoundTrip.HeaderRoundTrip | TF/dhcp.c:140-404 | every struct with a name of at most 251 bytes fits, and round-trips through every header |
| OptionRoundTrip.InverseExactly | TF/dhcp.c:140-404 | the output is read to its END and every option comes back as it was, if and only if the name passes, the times and the requested address are 0, the client id is 0 or all ones, and the lease time is the one already in the struct read into |
| OptionRoundTrip.HeaderInverseExactly | TF/dhcp.c:140-404 | the same through every header in which the options fit |
| Packets.WellFormedPacket | TF/Application.c:143-146 | a packet with a well-formed option list is read to its END; it is a DISCOVER when the last option 53 has the value 1, a REQUEST when 3, and neither otherwise, for the id in its bytes 4 to 7 |
| Packets.AcceptableExactly | TF/dhcp.c:166-241 | the packets of the runs are exactly those of at most 548 bytes in which the reader's loop ends |
| Packets.ReplyLayout | TF/Application.c:150-163 | where an answer repeats the packet's bytes and where it carries the server's own |
| Packets.ReplyOptions | TF/Application.c:165-176 | an answer's options read back as its type and the server's mask, id and DNS, and as renew time for the router |
| Packets.ReplyTokensWritten | TF/dhcp.c:254-400 | the list of options, one after the other, that the writer makes of an answer's record |
| Packets.ReplyMeans | TF/dhcp.c:254-400 | what a reader by length finds in an answer for every code number |
| Server.DhcpServer.constructor | TF/Application.c:55 | the server starts as the lease machine does, with the cursor at 40 |
| Server.DhcpServer.FillIds | TF/Application.c:191-199 | the answer's first 20 bytes |
| Server.DhcpServer.FillNames | TF/Application.c:200-204 | the addresses, names and boot file behind them |
| Server.DhcpServer.FillHeader | TF/Application.c:190-204 | the first 236 bytes of the answer's struct, from the packet's struct |
| Server.DhcpServer.FillOptions | TF/Application.c:206-214 | the answer's option record |
| Server.DhcpServer.Answer | TF/Application.c:190-220 | the bytes handed to the network are the specified answer to the packet |
| Server.DhcpServer.Receive | TF/Application.c:133-144 | header and options of the received packet, in cleared structs |
| Server.DhcpServer.OnDiscover | TF/Application.c:147-183 | the OFFER packet for the current address, which is bound to the id |
| Server.DhcpServer.OnRequest | TF/Application.c:187-225 | the ACK packet for the slot's address, or the current one; the current one is bound and the cursor moves |
| Server.DhcpServer.Handle | TF/Application.c:131-247 | one turn of the loop is one step of the lease machine, and sends its reply as a packet |
| Server.DhcpServer.Serve | TF/Application.c:123-249 | for every list of packets, reply i is the packet for the lease machine's reply to message i |
| EndToEnd.PlanIsGood | TF/Application.c:63-67 | under a contiguous mask the server's addresses are distinct and nonzero over its whole host range |
| EndToEnd.AnswersOnTheWire | TF/Application.c:146-246 | every answer of every run, all 548 bytes and the list of options: an OFFER for a DISCOVER, an ACK for a REQUEST, none for anything else |
| EndToEnd.InitDhcpServer | TF/Application.c:123-249 | the same of the replies of the server itself, from its start on, for every list of packets, with the types as numbers |
| EndToEnd.TypesOnTheWire | TF/Application.c:146-246 | in every run a packet whose last option 53 is 1 gets a reply that starts with 53, 1, 2; one with 3, a reply that starts with 53, 1, 5; any other list gets none |
| EndToEnd.ClientReads | TF/dhcp.c:337-357 | what a client that delimits options by their length finds in an answer for every code; the times are 10000 in host order, 270991360 to the client |
| EndToEnd.InSubnetOnTheWire | TF/Application.c:63-225 | the address of an answer lies in the subnet if and only if the cursor it was drawn at is in the host range, in every run |
| EndToEnd.AckOnTheWire | TF/Application.c:187-227 | all 548 bytes of every ACK in range; its address is the server's own with 40 + the REQUEST packets before the anchor in place of the host bits, inside the server's subnet |
| EndToEnd.AckPacketsAgreeExactly | TF/Application.c:187-227 | two ACK packets carry the same address bytes if and only if no REQUEST packet lies between their anchors |
| EndToEnd.ReservedOnTheWire | TF/Application.c:187-227 | when exactly, by the REQUEST packets before the anchor, an ACK packet gives out the server's own address, and when the broadcast address |
| DnsName.AppendLabel | TF/Application.c:307-308 | one turn appends a label and a dot to the string, and keeps the rest of the buffer clear even when the label holds NULs |
| DnsName.DecodeName | TF/Application.c:302-311 | the loop consumes exactly the name, and leaves the labels joined by dots if and only if no label holds a NUL |
| DnsName.NameNext | TF/Application.c:302-311 | one more label adds a byte 46 and the label to the string, and its length and itself to the wire form |
| DnsName.WireLength | TF/Application.c:302-311 | the wire form of a name is two bytes longer than its string |
| DnsName.JoinedExactly | TF/Application.c:302-311 | two names share a string if and only if their labels, cut at their dots, are the same |
| DnsName.JoinedInjective | TF/Application.c:302-311 | names whose labels hold no dot are told apart by their strings |
| DnsName.DotsConfuse | TF/Application.c:302-311 | two names with a dot inside a label that are not |
| HttpUrl.Find | TF/http.c:11 | strstr gives the first occurrence, or none |
| HttpUrl.Count | TF/http.c:16-23 | the counting loops stop at the first terminator |
| HttpUrl.CopyUrl | TF/http.c:25-27 | host, path and a NUL stand at the start of the buffer, and nothing else changed |
| HttpUrl.SetAddr | TF/http.c:7-32 | the URL and a NUL are written and its length returned; 0 and an untouched buffer exactly when a marker is missing |
| HttpUrl.UrlOfMarkers | TF/http.c:11-29 | for every text, in either order of its markers, the URL is what follows the first "Host: " up to the line end, and the first slash with what follows up to a space |
| HttpUrl.NoUrlExactly | TF/http.c:11-31 | there is none if and only if one of the markers is missing |
| HttpUrl.UrlOfRequest | TF/http.c:11-29 | for every request text the URL is its host and its target from the first slash on, which is host and target if and only if the target starts with the slash |
| HttpUrl.AbsoluteFormDoubled | TF/http.c:11-29 | a request in absolute form gives its host twice |
| UrlHandoff.RunsExactly | TF/Application.c:251-255 | the interleavings are exactly the lists in which Copy and Unlock take turns, Lock and Print take turns, and before each Lock there is an Unlock since the last one |
| UrlHandoff.BurstPrintsLast | TF/Application.c:251-255 | after any run that leaves both threads idle, the sniffer passes on any number of URLs without waiting, and one Lock and Print print the last of them and leave all at rest |
| UrlHandoff.InvOfRuns | TF/Application.c:251-255 | what every step of either thread keeps |
| UrlHandoff.HandoffSafe | TF/Application.c:335-339 | over all interleavings: prints against unlocks exactly counted, only appended URLs, in order, none more than three times |
| UrlHandoff.LatestIsPrinted | TF/Application.c:335-339 | when both threads rest, the last URL printed is the last one appended |
| UrlHandoff.AllPrintedExactly | TF/Application.c:251-255 | at rest every URL was printed once and in order if and only if each copy waited for the print before it |
| UrlHandoff.ThreePrints | TF/Application.c:360-361 | an interleaving that prints one URL three times and two not at all |

## Left out

- Sockets, BPF devices, interface discovery, `system` calls, printing and the file behind the URL thread: packets are
  byte sequences in and out, and the interface's addresses are parameters. A datagram longer than 548 bytes is what
  `recvfrom` cuts it to.
- DhcpOptions.DhcpOpt.SetFromHeader: only for headers in which the reader's loop ends without leaving the struct; what the
  C code reads beyond it is not modelled. `OptionReader.LoopEndsExactly` says which headers these are. `Packets.Acceptable`
  therefore excludes some packets that RFC 2132 allows, such as one whose last option is the parameter request list 1, 3, 6, 15.
- DhcpOptions.DhcpOpt.WriteTo: only for structs whose options fit the 312 bytes; writes beyond them are not modelled.
- OptionReader.ReaderRefinesFold: options shorter than what the reader copies are not in the lists; `Read` itself covers them.
- DnsName.DecodeName: the root name, for which the C code writes before its buffer, and compressed names are left out.
- HttpUrl.SetAddr: only for texts whose host line and path end inside the buffer.
- UrlHandoff.HandoffSafe: the copy and the print are atomic, so torn reads are not modelled; unlocking means making the
  mutex free, also when another thread locked it or when it is free; the racy address printed beside the URL is left out.
- The Ethernet, IP, TCP and UDP headers that the sniffer steps over before the two decoders start.
- The ARP tools in `T1/`, the sample programs in `TF/UDP/` and the flag parsing in `TF/util.c`: fixed-size copies and wrappers.
