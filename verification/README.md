# TCP-Fuzz: a verified model of its protocols, packets and tables

TCP-Fuzz is packetdrill with a fuzzer. A script of events (packets, system calls,
commands) is run against a network stack, in one process or split between a wire
client and a wire server; packets are built, encapsulated, parsed, checksummed,
translated between script and live sequence space, sniffed and glued together; fuzz
input is turned into packets. This project models those parts in Dafny and proves what
they promise.

How the model is laid out:

- **Wire protocol** (`WireProtocol*.dfy`): client and server as two nodes joined by two
  FIFO channels, interleaving freely. One inductive invariant covers every reachable
  state. Every interleaving refines the one-process interpreter, is finite, and ends
  settled on both nodes. `WireChecks` says what a node makes of any message, whoever
  sent it. `WireProtocolImpl` holds the nodes as code that updates its
  fields, and a driver that runs them to the end under any scheduler.
- **Wire framing** (`WireConn.dfy`, `WireBytes.dfy`): length-prefixed messages over a
  stream that splits reads and writes as it likes, and the two nodes over such streams,
  which refine the two nodes over message channels.
- **Reports** (`WireReports.dfy`, `WireByteReports.dfy`): what becomes of the warnings and
  the error of the packets that the server runs, over messages and over bytes.
- **Blocking system calls** (`SyscallThread*.dfy`): main thread and system call thread
  over one mutex, three condition variables and the state field, at the granularity of
  single locks, unlocks, waits, signals and field accesses, with spurious wakeups,
  timeouts and death. A handler is the bracket `begin_syscall` .. the call ..
  `end_syscall`. `SyscallThreadWaits` says of whole runs what the main thread has waited for.
- **Packets** (`Packet*.dfy`, `Encapsulation*.dfy`, `FinishedContents.dfy`, `OuterBuilders.dfy`): the recursive
  parser is proved sound and complete against a grammar that says, header by header,
  which tables describe given bytes, its three verdicts are characterised by it
  (`PacketVerdicts`), and it is then used as the partner of every builder:
  for what is built, encapsulated, aggregated or fuzzed it is shown exactly when it is
  parsed back to the builder's own metadata.
- **Checksums** (`Checksum.dfy`, `PacketChecksum.dfy`, `Crc32c.dfy`): the folded 32-bit
  sum against the definition in RFC 1071, checksums of whole packets, and the
  table-driven CRC against both bit-at-a-time registers.
- **Hash map** (`Murmur.dfy`, `HashBuckets.dfy`, `HashMaps.dfy`): linked nodes in a
  growing bucket array against a plain map; the hash as a bijection on keys.
- **Options and sequence numbers** (`TcpOptions.dfy`, `SeqTranslation*.dfy`): option
  lists, their iteration, and the in-place translation of seq, ack_seq and SACK edges.
- **Aggregation** (`Sniffing.dfy`, `Aggregation*.dfy`): sniffed packets, the sniffing loop
  and the packet it glues together.
- **Fuzz packets** (`FuzzPacket*.dfy`, `FuzzContents.dfy`): from arbitrary input bytes to a
  packet the parser accepts, whose checksums verify, and whose payload depends on its place
  in sequence space only.

Pointers into a packet buffer are offsets. A packet's memory is a byte array one byte
longer than the buffer, because the parser looks at the first byte of an inner IPv4
header before it checks the length; `ParserIsLocal` shows that the verdict does not
depend on that byte. Code that works by updating fields, arrays or nodes is a method
with a `modifies` clause, proved against a function of the old state; the properties
are lemmas about those functions.

Where a promised property does not hold of the code, the exact condition is proved for
all inputs, beside an input that fails:

- `BuildEncapsulated` with `UnmarkedCanBeAppended`: a script may mark the bottom of a label
  stack anywhere and put headers in any order; the packet is parsed back exactly when the
  marks and the order are right.
- `AggregatePackets` with `TwoDatagramsAreAggregated`: datagrams are glued together like
  segments, but a UDP header keeps the length of the last one.
- `CopiesInsideIff` and `SniffScriptPacket` with `NegativePayloadIsAccepted`: the parser
  lets an inner header lie behind the outermost datagram, and the copies of aggregated
  payloads go wrong exactly when the first or the last length is negative for that reason.
- `FinishHeaders`, `BuildEncapsulated` and `SniffScriptPacket` with `ScriptsCanAssert` and
  `LongSegmentsAssert`: what asserts on headers stop, and exactly when.
- `WritesInsideIff` with `WritesCanBeOutside`: SACK blocks are moved by an option's length
  byte alone, so bytes behind the options change exactly when some blocks end there.
- `BuiltPacketParsesIff` with `TooLongCanBeBuilt`: a packet of 65536 bytes passes the size
  check; with IPv4 the parser refuses it, with IPv6 an assert fires.
- `ParsedIsReady` with `OverlongIsNotReady` and `MismatchedIsNotReady`: an accepted packet
  trips an assert of the checksum code exactly when its inner datagram is longer than the
  outer one or its ICMP is of the other IP version.
- `FuzzPacketIsAccepted` with `ZeroLengthIsDrawn`: bytes pushed exceed the IP length exactly
  when an option of length zero was drawn.
- `FuzzOptionsIff` with `UnreadableIsDrawn`: an option of length one is pushed without a
  length byte, and the iterator finds its way over it exactly when it needs none or a NOP
  follows.

Where comments and code differ the model follows the code: the comment on
`hash_map_pick_bucket_count` asks for more buckets than keys, the code stops at as many;
the checks of the option iterator that only report an error go on as if there were none.

## Model

| member | source | states |
|---|---|---|
| WireProtocolSafety.StepKeepsInv | wire_server.c:377-434 | every step of either node keeps the invariant that ties both positions, event counts and all messages in flight together |
| WireProtocolSafety.DoneChecked | wire_client.c:187-238 | a DONE message the server builds passes all of the client's checks, or carries the server's own error text |
| WireChecks.ClientTakesIff | wire_client.c:187-238 | whoever sent it, a message lets a client that waits for DONE go on if and only if it is a warning or a DONE message as the server builds it, without error and with the client's own count; it kills it with a packet error exactly when it is one with an error, of that text |
| WireChecks.DoneOnTheWire | wire_server.c:290-312 | the bytes of a DONE message: four zeros, or four 0xff for an error, the count most significant byte first, the text and a terminator |
| WireChecks.StartTakenIff | wire_server.c:246-276 | whoever sent it, a message lets a server that waits for START go on if and only if it is the START message with the server's own count |
| WireChecks.GreetingTakenIff | wire_server.c:124-243 | the greeting is taken only in its order of operations, with six bytes of hardware address at its end, and then nothing but an empty CLIENT_STARTING |
| WireProtocolTheorems.TraceIsScriptPrefix | wire_client.c:283-302 | in every interleaving the events executed so far are a prefix of the script, in order, each at its own node, and no node ever takes the other's message for malformed or miscounted |
| WireProtocolTheorems.StepRefines | run.c:613-660 | every step is invisible or is the next step of the one-process interpreter |
| WireProtocolTheorems.RunsAreFinite | wire_server.c:377-434 | no interleaving of a script of n events is longer than 10n+21 states |
| WireProtocolTheorems.NoDeadlock | wire_client.c:187-271 | a reachable state in which neither node can move is settled |
| WireProtocolTheorems.EveryRunSettles | wire_server.c:437-501 | a run that cannot go on has executed the whole script on both nodes with empty channels, or both nodes died of the same packet error |
| WireProtocolTheorems.ServerIsTold | wire_server.c:124-209 | a server past the greeting has the client's script, command line, hardware address, and script path up to its terminator |
| WireReports.WarningsArrive | wire_server.c:278-367 | at every point of every run the texts the client has printed, followed by those on their way to it, are the warnings of the packets run so far, each once and in order |
| WireReports.ServerDiesOfError | wire_server.c:341-367 | the server is dead of a packet error exactly when the last packet run failed, with that packet's text, and no packet before it failed |
| WireReports.ErrorsArrive | wire_client.c:187-238 | a client that dies of a packet error shows the text of the packet that failed |
| WireReports.EverythingIsReported | wire_client.c:187-238 | in a run that cannot go on the client has printed every warning, and has died of an error exactly when a packet failed, of that packet's |
| WireProtocolImpl.WireRun.ClientNextEvent | wire_client.c:283-302 | the new fields and channel are the client's step at the head of its loop: START before the first packet, wait for DONE behind the last, counters moved on |
| WireProtocolImpl.WireRun.ClientReceiveDone | wire_client.c:187-238 | warnings are printed and the wait goes on, any other message but DONE is fatal, and a DONE is checked for length, terminator, error and count |
| WireProtocolImpl.WireRun.ClientMoves | wire_client.c:243-271 | the client moves exactly when its step function does, to the state that function gives |
| WireProtocolImpl.WireRun.ServerIsGreeted | wire_server.c:124-209 | each greeting message is kept, up to its terminator where it is a string, or ends the server if it has another operation or a hardware address of another length |
| WireProtocolImpl.WireRun.ServerNextEvent | wire_server.c:315-338 | DONE goes out at the end of a group of packets, START is awaited before one, counters are moved on |
| WireProtocolImpl.WireRun.ServerRunPacket | wire_server.c:341-367 | the new fields and channel are the server's step for the outcome: a failed packet is put into DONE and ends the server, a warning is sent as it is and the server goes on |
| WireProtocolImpl.WireRun.ServerMoves | wire_server.c:437-501 | the server moves exactly when its step function does, to the state that function gives |
| WireProtocolImpl.RunToEnd | wire_server.c:377-434 | driven by any scheduler and any packet outcomes, the two nodes come to an end, that end is settled, and the client has printed exactly the warnings of the packets run and died exactly of the error of one that failed |
| WireConn.LengthAccepted | wire_conn.c:220-254 | the lengths the reader accepts are exactly those of messages up to ten million bytes, so the buffer always has room for the body |
| WireConn.ReadFrame | wire_conn.c:220-254 | reading a frame gives back the operation and the body that were written if the body is at most ten million bytes, and is refused otherwise |
| WireConn.ReadPartOfFrame | wire_conn.c:197-218 | a proper part of a frame gives no message |
| WireConn.ReadsWhatWasWritten | wire_conn.c:176-254 | whatever prefix of the written bytes has arrived, the messages read are exactly those whose frames have arrived whole, in order |
| WireConn.Connection.WriteBytes | wire_conn.c:156-174 | however the stream splits writes, all bytes go out in order, or the write fails and a prefix has gone out |
| WireConn.Connection.WriteMessage | wire_conn.c:176-194 | what goes out is the message's frame |
| WireConn.Connection.ReadBytes | wire_conn.c:197-218 | however the stream splits reads, exactly n bytes are taken from it, or the read fails |
| WireConn.Connection.ReadMessage | wire_conn.c:220-254 | the connection yields the next message of the stream and leaves the rest there |
| WireConn.Exchange | wire_conn.c:156-254 | however the two sides take turns, all messages written to a healthy stream are received, in order, with the same operation and bytes |
| WireBytes.InboxIsFirst | wire_conn.c:220-254 | a node that reads has the first message in flight exactly when all its bytes have come |
| WireBytes.WantedStaysInside | wire_conn.c:197-254 | reading the header and then the body never takes a byte of the next message |
| WireBytes.ByteStepRefines | wire_conn.c:156-254 | every step of the two nodes over byte streams, cut into pieces in any way, is a step of the message protocol, or moves bytes along that stand for the same messages |
| WireBytes.ByteRunRefines | wire_conn.c:156-254 | every run over byte streams is a run of the message protocol |
| WireBytes.ByteRunsAreFinite | wire_conn.c:156-254 | no run over byte streams is longer than a bound that the script length fixes, however reads and writes are cut |
| WireBytes.BytesKeepOrder | wire_client.c:283-302 | over byte streams, too, the events executed are a prefix of the script in order, each at its own node, and no message is taken for malformed |
| WireBytes.ByteRunsSettle | wire_server.c:437-501 | a run over byte streams that cannot go on has left nothing on the connection and has executed the whole script, or died on both nodes of the same packet error |
| WireByteReports.ByteRunMirrors | wire_conn.c:156-254 | every run over byte streams has a run over messages with the same packets and outcomes that ends in the same state |
| WireByteReports.ByteReportsArrive | wire_server.c:278-367 | over byte streams what the client has printed are the first warnings of the packets run, in order, and an error it dies of is that of the packet that failed |
| WireByteReports.ByteEverythingIsReported | wire_client.c:187-238 | a run over byte streams that cannot go on has reported every warning and every error to the client |
| SyscallThreadSafety.MainKeepsInv | run_system_call.c:3338-3432 | every step of the main thread keeps the invariant on lock, state field, logs and sleepers |
| SyscallThreadSafety.CallKeepsInv | run_system_call.c:3450-3539 | every step of the system call thread keeps it too |
| SyscallThreadSafety.NoAssertFires | run_system_call.c:1093-1130 | none of the asserts on ENQUEUED, RUNNING and DONE can fire |
| SyscallThreadTheorems.ThreadsAreSafe | run.h:24-52 | in every reachable state the mutex has the owner the code implies, the thread never meets RUNNING or DONE at its loop head, the event it works on is the one enqueued, condition variables are used only once initialised, and no wakeup is lost |
| SyscallThreadTheorems.CallsInOrder | run_system_call.c:3374-3432 | at every point of every run the calls enqueued are exactly the blocking calls that the main thread has passed (or had passed when it died), they begin and end in that order, and at most one is in flight |
| SyscallThreadTheorems.FinishedMeansDone | run_system_call.c:3561-3594 | a main thread that got through has seen every blocking call begin and end, and the thread exit |
| SyscallThreadTheorems.NoDeadlock | run_system_call.c:3338-3359 | unless the main thread is through, one of the threads can go on without any help from the environment |
| SyscallThreadTheorems.RunsEnd | run_system_call.c:3374-3539 | the number of steps is bounded by the script's length and by how often the environment interferes |
| SyscallThreadWaits.PlainCallsWait | run_system_call.c:3434-3445 | in every run a plain call is made only when every blocking call enqueued so far has ended, or after a wait for that has timed out |
| SyscallThreadWaits.BlockingCallsStart | run_system_call.c:3374-3432 | the main thread goes on from a blocking call only when that call has begun, and has ended or its thread was seen sleeping |
| SyscallThreadWaits.DiesFor | run_system_call.c:3338-3359 | a run dies of a runtime error, or of a timeout where the thread was to be given another call or told to exit, never of one before a plain call |
| SyscallThreadWaits.TimeoutIsFatal | run_system_call.c:3374-3391 | after such a timeout nothing more is enqueued and no event is passed |
| SyscallThreadWaits.EndTimeIsReturnTime | run_system_call.c:1098-1130 | the end time noted for a call is what the clock showed when that very call came back |
| SyscallThreadImpl.Threads.SyscallsNew | run_system_call.c:3541-3559 | the fields change as in the main thread's step function while the thread is created |
| SyscallThreadImpl.Threads.FetchEvent | run_system_call.c:3434-3445 | the new fields are the step function's: a blocking call goes on to be enqueued and a plain one to be invoked, both by way of the wait for the idle thread, other events are acted on at once, and behind the last the thread is told to exit |
| SyscallThreadImpl.Threads.RunEvent | run.c:340-383 | acting on an event may release the lock while sleeping until its time, or die |
| SyscallThreadImpl.Threads.AwaitIdle | run_system_call.c:3338-3359 | the wait ends when the thread is idle, and on a timeout enqueuing and exiting die while a plain call goes ahead |
| SyscallThreadImpl.Threads.Enqueue | run_system_call.c:3387-3391 | the state becomes ENQUEUED, is logged, and the thread is signalled |
| SyscallThreadImpl.Threads.AwaitDequeue | run_system_call.c:3393-3401 | the main thread sleeps while the call is enqueued, releasing and retaking the lock |
| SyscallThreadImpl.Threads.Poll | run_system_call.c:3403-3423 | the main thread goes on once the thread sleeps or is idle |
| SyscallThreadImpl.Threads.SyscallsFree | run_system_call.c:3561-3594 | the thread is told to exit, joined, and the lock retaken |
| SyscallThreadImpl.Threads.MainMoves | run_system_call.c:3374-3445 | the main thread moves exactly when its step function does, to the state that function gives |
| SyscallThreadImpl.Threads.LoopHead | run_system_call.c:3465-3493 | idle sleeps, enqueued captures the event, exiting leaves, RUNNING and DONE would fail the assert |
| SyscallThreadImpl.Threads.Invoke | run_system_call.c:1093-1097 | the call is begun, logged and marked RUNNING, possibly after sleeping without the lock |
| SyscallThreadImpl.Threads.Bracket | run_system_call.c:1098-1130 | unlock, signal, call, lock again, note the end time, mark DONE |
| SyscallThreadImpl.Threads.Conclude | run_system_call.c:3503-3536 | the end is checked and logged, the state is IDLE again and the main thread is signalled |
| SyscallThreadImpl.Threads.CallMoves | run_system_call.c:3450-3539 | the thread moves exactly when its step function does, to the state that function gives |
| SyscallThreadImpl.RunThreads | run_system_call.c:3374-3594 | under any schedule with finitely many interferences the process dies or both threads get through, with every blocking call begun and ended in order |
| PacketParserProofs.ParserIsSound | packet_parser.c:165-196 | PACKET_OK comes with a table of at most six headers of the bytes: each header's fields agree with them and announce the next header; pointers and lengths are those of the table |
| PacketParserProofs.ParserIsComplete | packet_parser.c:165-196 | bytes that have a table of at most six headers are accepted with exactly that table |
| PacketParserProofs.TableShape | packet_parser.c:202-628 | header i+1 starts where header i ends, extents are nested in the input, the one layer 4 header is last with an IP header before it, and the bottom bit is on the last entry of each label stack only |
| PacketVerdicts.UnknownIsSound | packet_parser.c:603-628 | PACKET_UNKNOWN_L4 comes with headers of the bytes, at most six, each right and announcing the next, of which the last announces a protocol number or Ethernet type outside the known ones |
| PacketVerdicts.UnknownIsComplete | packet_parser.c:83-136 | bytes with such headers are always reported as unknown |
| PacketVerdicts.Verdict | packet_parser.c:165-196 | the verdict is PACKET_OK if and only if the bytes have a table, PACKET_UNKNOWN_L4 if and only if their headers end in something unknown, and PACKET_BAD if and only if neither, so what netdev.c:491-498 drops is never a malformed packet |
| PacketParserLocality.ParserIsLocal | packet_parser.c:165-286 | verdict and metadata depend on the first in_bytes bytes only |
| PacketParserImpl.PacketObject.AppendHeader | packet.c:119-143 | a header is recorded behind the others, or refused when the table or the buffer is full |
| PacketParserImpl.PacketObject.ParseIpv4 | packet_parser.c:202-286 | the packet ends up as the grammar-checked function says: header and datagram must fit the input and each other and be unfragmented, the innermost IP header is remembered and the outermost sets the datagram length |
| PacketParserImpl.PacketObject.ParseIpv6 | packet_parser.c:293-357 | likewise with a fixed 40-byte header and a length that does not include it |
| PacketParserImpl.PacketObject.ParseTcp | packet_parser.c:360-398 | the TCP pointer is set, and a data offset below 5 or behind the datagram is refused |
| PacketParserImpl.PacketObject.ParseUdp | packet_parser.c:401-444 | the UDP pointer is set, and a length field that differs from the datagram's is refused |
| PacketParserImpl.PacketObject.ParseIcmpv4 | packet_parser.c:447-477 | the ICMP pointer is set when eight bytes are there |
| PacketParserImpl.PacketObject.ParseIcmpv6 | packet_parser.c:479-509 | the ICMPv6 pointer is set when eight bytes are there |
| PacketParserImpl.PacketObject.ParseGre | packet_parser.c:512-560 | version 0 without routing only; its length follows from its flags and parsing goes on by its Ethernet type |
| PacketParserImpl.PacketObject.ParseMpls | packet_parser.c:562-601 | the loop stops behind the first entry with the bottom bit and refuses a stack that runs out of the packet |
| PacketParserImpl.PacketObject.ParseLayer4 | packet_parser.c:603-628 | the packet ends up as the recursive function says: each protocol number leads to its own parser, IP in IP included, and any other is unknown |
| PacketParserImpl.PacketObject.ParseByProto | packet_parser.c:83-136 | each Ethernet type leads to its own parser when the version nibble agrees, and any other is reported as unknown |
| PacketParserImpl.PacketObject.ParseLayer3 | packet_parser.c:138-163 | the version nibble decides between IPv4 and IPv6, anything else is refused |
| PacketParserImpl.PacketObject.Parse | packet_parser.c:165-196 | verdict and metadata are those of the recursive function, and the recursion ends because the bytes left decrease |
| Encapsulation.FinishedHeader | ip_packet.c:188-221 | a finished header is right in all its fields, announces what it carries and reaches to the end of the packet |
| Encapsulation.FinishedGre | gre_packet.c:45-56 | the same for GRE |
| Encapsulation.FinishedMpls | mpls_packet.c:69-77 | the same for MPLS |
| Encapsulation.FinishedStack | packet.c:213-230 | finishing a stack that is nested legally from the inside out yields a table of the packet |
| Encapsulation.FinishedPlaces | packet.c:213-230 | finishing any stack, legal or not, keeps kinds and places, and each header gets the length of what is inside it plus what its finish function takes its own to be |
| Encapsulation.ExtentReaches | ip_packet.c:188-204 | the outermost length reaches to the end exactly when no IPv4 header has options, which ipv4_header_finish does not count |
| FinishedContents.FinishedVerifies | ip_packet.c:188-204 | the checksum of a finished IPv4 header, with or without options, verifies by RFC 1071 |
| FinishedContents.FinishingKeeps | packet.c:213-230 | finishing any stack keeps every byte of every header but length, protocol and checksum of IPv4, length and next header of IPv6 and the protocol of GRE, and all IPv4 checksums verify |
| FinishedContents.JoinKeeps | packet.c:189-260 | an encapsulated packet has these bytes from the outer headers and from the inner packet, each in its place |
| EncapsulationRoundTrip.FinishedStackParsesIff | packet.c:213-230 | a finished stack of at most six headers of any kinds is parsed back with its own table and length if and only if its data ends with the packet and it was legal: each header may carry the next, label stacks have their bottom on the last entry only, IPv4 headers have no options, a UDP header knows its length, IP lengths fit their fields, and the outermost header is IP |
| EncapsulationRoundTrip.TableWasLegal | packet_parser.c:165-196 | the half of it that goes from the parser back to the stack before it was finished |
| EncapsulationRoundTrip.FinishSparesLayer4 | packet.c:213-230 | finishing leaves the layer 4 header and the payload alone |
| EncapsulationRoundTrip.JoinIsComplete | packet.c:232-260 | any outer headers in front of a complete packet are a complete packet again |
| EncapsulationRoundTrip.JoinIsLegal | packet.c:232-260 | they are legal together exactly when each is and the last outer header may carry the first inner one |
| EncapsulationImpl.WriteIpv4 | ip_packet.c:188-204 | total length, protocol and the checksum over a zeroed field are written, nothing else |
| EncapsulationImpl.FinishHeaders | packet.c:213-230 | the backward loop leaves the finished bytes and the finished table, or stops at an assert exactly when some IPv6 header would carry more than 65535 bytes |
| EncapsulationImpl.CopyTogether | packet.c:189-205 | the new buffer holds the outer headers and behind them the inner packet |
| EncapsulationImpl.Encapsulate | packet.c:232-260 | an assert fires exactly for more than six headers or an IPv6 header that carries too much; else parsing the encapsulated bytes returns PACKET_OK with the very table, lengths and pointers the encapsulator hands over if and only if outer and inner headers are legal together, and in any case layer 4 header and payload are carried unchanged, every other header has the bytes it had but for those filled in, and all IPv4 checksums verify |
| PacketBuilders.SetIpv4Header | ip_packet.c:32-52 | the 20 header bytes are written, nothing else |
| PacketBuilders.SetIpv6Header | ip_packet.c:55-76 | the 40 header bytes are written, nothing else |
| PacketBuilders.SetTcpHeader | tcp_packet.c:128-154 | the 20 header bytes are written, nothing else |
| PacketBuilders.TcpFields | tcp_packet.c:128-154 | ports, sequence numbers, data offset, flags, window and urgent pointer are read back as they were asked for |
| PacketBuilders.BuiltFields | tcp_packet.c:53-166 | the whole packet by the places of its fields: IP version, traffic class, flow label, hop limit of 255 if none is given, no addresses, all TCP fields, the options and a payload of zeros |
| PacketBuilders.BuiltForTranslation | tcp_packet.c:128-154 | the translation of sequence numbers finds SYN and ACK exactly where the flags string has S and a dot, and the numbers and the end of the options where they were put |
| PacketBuilders.FlagsReadBack | tcp_packet.c:48-51 | each flag bit is set exactly when its character is in the flags string |
| PacketBuilders.Ipv6Fields | ip_packet.c:55-76 | version, traffic class, flow label, length, next header and hop limit are read back from the packed fields |
| PacketBuilders.FlagsValid | tcp_packet.c:34-45 | true exactly for strings of valid flag characters |
| PacketBuilders.NewTcpPacket | tcp_packet.c:53-166 | a packet with the bytes and the metadata of the arguments, an error, or the failed assert of the IPv6 header, each for exactly the arguments that lead to it |
| PacketBuilders.BuiltPacketParses | tcp_packet.c:53-166 | a built packet of at most 65535 bytes is parsed back to the builder's metadata |
| PacketBuilders.BuiltIsReady | tcp_packet.c:53-166 | every packet that is built can have outer headers put around it |
| PacketBuilders.AssertHoldsIff | ip_packet.c:66-67 | among the arguments the checks let through the assert fails for IPv6 packets of 65536 bytes and no others |
| PacketBuilders.BuiltPacketParsesIff | tcp_packet.c:100-103 | for arguments the checks let through, of either IP version, the packet is built without a failing assert and parsed back to its metadata if and only if it is not 65536 bytes long |
| PacketBuilders.TooLongCanBeBuilt | tcp_packet.c:100-103 | IPv4 arguments that give a packet the parser refuses, and IPv6 arguments that trip the assert |
| PacketBuilders.BuiltOptionsReadBack | tcp_packet.c:156-162 | iterating over the options of a built packet yields the i-th option that was appended, and no more options than that |
| OuterBuilders.StackGrows | packet.c:119-143 | appending a header of any kind keeps the stack of outer headers |
| OuterBuilders.EntryReadsBack | mpls.h:54-87 | label, traffic class, bottom bit and TTL are read back as they were set |
| OuterBuilders.LabelsAreStack | mpls_packet.c:29-67 | the bytes of a label stack are one on the wire exactly when its last entry and no other is the bottom |
| OuterBuilders.LabelsReadBack | mpls_packet.c:29-67 | entry i of a label stack is read back with its own label, traffic class, bottom mark and TTL |
| OuterBuilders.BytesHaveFields | ip_packet.c:122-186 | the bytes appended for a header by the places of their fields: addresses, traffic class and hop limit of IP, flags and optional words of GRE, the entries of MPLS |
| OuterBuilders.EncapsulatedHolds | packet.c:232-260 | they are still there in the encapsulated packet, behind them the segment that was asked for |
| OuterBuilders.HeaderAppend | mpls_packet.c:52-67 | for each of the four kinds, behind any headers, whatever the labels and the GRE flags: the assert of gre_len fires exactly for flags with a version or routing, else it succeeds exactly when table and buffer have room, and then extends the stack by the bytes of the header |
| OuterBuilders.NewPrefix | parser.y:871-922 | the headers of a script, one appended after the other, are in the packet as given, or the first that fails is one the assert turns down, or one that exceeds six headers or 256 bytes |
| OuterBuilders.BuildEncapsulated | parser.y:871-922 | a TCP packet inside any headers a script can give: built, refused or stopped by an assert for exactly the stated reasons, and if built, parsed back to its own metadata if and only if every appended label stack has its bottom on its last entry only, every header may carry the next, the outermost one is IP and an outermost IPv4 header has room for the length; in any case it holds the script's headers field by field, then the segment field by field, and all IPv4 checksums verify |
| OuterBuilders.LengthsFitByScript | ip_packet.c:206-213 | what ipv6_header_finish asserts, said of the script |
| OuterBuilders.ScriptsCanAssert | parser.y:939-942 | a script with a GRE header of version 1, and one with an IPv6 header around 65536 bytes |
| OuterBuilders.PrefixIsLegal | packet.c:232-260 | that condition on the script is the condition on the bytes |
| OuterBuilders.UnmarkedCanBeAppended | parser.y:982-1010 | a label stack without a bottom mark is accepted by the script and makes every prefix it is part of fail the condition |
| Checksum.ChecksumPartial | checksum.c:33-56 | the running 64-bit sum is exact, without overflow, for every 32-bit length, odd ones included |
| Checksum.ChecksumFold | checksum.c:58-66 | both fold loops end and leave the complement of the end-around sum |
| Checksum.WideSum | checksum.c:33-56 | adding 32-bit words changes the sum of the 16-bit words by a multiple of 65535 only |
| Checksum.ChecksumIsRfc | checksum.c:33-66 | the bytes the code stores are the bytes of the checksum as section 1 of RFC 1071 defines it in network byte order |
| Checksum.ChecksumOfParts | checksum.c:97-104 | pseudo-header and payload sum up like their concatenation |
| Checksum.StoredChecksumVerifies | packet_checksum.c:34-71 | storing the checksum of a message into its zeroed field makes the message's checksum zero |
| PacketChecksum.FillField | packet_checksum.c:52-57 | after zeroing, summing and storing, the message verifies together with its pseudo-header, and no byte outside the field has changed |
| PacketChecksum.PseudoSum4 | checksum.c:68-95 | the sum is that of the pseudo-header of RFC 793 |
| PacketChecksum.PseudoSum6 | checksum.c:113-142 | the sum is that of the pseudo-header of RFC 2460 |
| PacketChecksum.ChecksumIpv4Packet | packet_checksum.c:34-71 | afterwards recomputing header and layer 4 checksum by RFC 1071 gives zero, and only the two fields have changed |
| PacketChecksum.ChecksumIpv6Packet | packet_checksum.c:73-109 | afterwards recomputing the layer 4 checksum gives zero, and only that field has changed |
| PacketChecksum.ChecksumPacket | packet_checksum.c:111-121 | the same for either version |
| PacketChecksum.ChecksumSpares | packet_checksum.c:34-109 | of a layer 4 header and what is behind it all bytes stay but 16 and 17 of TCP, 6 and 7 of UDP, 2 and 3 of ICMP |
| PacketChecksum.ParsedIsReady | packet_checksum.c:34-109 | for a packet the parser accepted, no assert of the checksum code fires if and only if ICMP goes with its own IP version and the innermost datagram is not longer than the outermost |
| PacketChecksum.PlainIsReady | packet_checksum.c:34-109 | without encapsulation the second condition always holds |
| PacketChecksum.OverlongIsNotReady | packet_checksum.c:41-41 | an accepted packet for which it does not |
| PacketChecksum.MismatchedIsNotReady | packet_checksum.c:64-70 | an accepted packet, ICMPv6 over IPv4, for which the first condition does not hold |
| Crc32c.TableIsEightSteps | checksum.c:156-221 | each of the 256 table entries is eight bit steps of its index |
| Crc32c.TableStepIsEightSteps | checksum.c:154-154 | the table-driven step is eight bit steps of the reflected Castagnoli register, for every register and byte |
| Crc32c.SctpCrc32c | checksum.c:223-239 | the stored bytes are those of the bitwise CRC, lowest first |
| Crc32c.StoredAsTheRfcRequires | checksum.c:232-238 | the stored bytes are the complemented remainder of the division with 0x1EDC6F41 that Appendix B of RFC 4960 describes, most significant byte first, bits mirrored |
| Crc32c.ChangedByteIsDetected | checksum.c:223-239 | messages that differ in one byte have different checksums |
| Murmur.MurmurHash | hash.c:99-155 | the loop over blocks and the tail compute the hash for every key length |
| Murmur.HashIsBijective | hash.c:99-155 | on four-byte keys with seed 0 the hash has a two-sided inverse |
| Murmur.KnownHashes | hash.c:99-155 | published values of the hash: no block, tails of one to three bytes, one block, with and without seed |
| Murmur.FinishBack | hash.c:73-82 | the final mix can be taken back |
| HashBuckets.MaskIsRemainder | hash_map.c:42-46 | masking with one less than a power of two is taking the remainder |
| HashBuckets.KeysSpreadEvenly | hash_map.c:34-46 | of all 2^32 keys each of 2^k buckets receives exactly 2^(32-k) |
| HashMaps.HashMap.PickBucketCount | hash_map.c:51-57 | the smallest power of two that is at least the number of keys, up to the maximum |
| HashMaps.HashMap.constructor | hash_map.c:59-66 | an empty map with its invariant |
| HashMaps.HashMap.Link | hash_map.c:88-94 | the node joins the bucket of its key, every other chain stays |
| HashMaps.HashMap.RelinkChain | hash_map.c:111-117 | every node of an old chain is linked exactly once |
| HashMaps.HashMap.Grow | hash_map.c:100-121 | twice as many buckets, the same nodes, the same contents, every node in its bucket |
| HashMaps.HashMap.Insert | hash_map.c:124-136 | one more key; at most one key a bucket on average until the number of buckets is at its maximum |
| HashMaps.HashMap.Set | hash_map.c:138-149 | the contents are the old contents with the key assigned |
| HashMaps.HashMap.Get | hash_map.c:151-162 | the value the contents hold for the key, or none |
| HashMaps.SetAll | hash_map.c:59-162 | after any sequence of assignments the contents are what was assigned last, and num_keys is their number |
| TcpOptions.OptionList.Append | tcp_options.c:44-54 | the option's bytes follow the others, or the list is full and unchanged |
| TcpOptions.AppendAll | tcp_options.c:44-54 | options all fit exactly when their bytes do, and then the list holds those bytes |
| TcpOptions.OptionsIterator.Next | tcp_options_iterator.c:133-173 | moves strictly forward, by one for EOL and NOP and by the length byte otherwise, or ends |
| TcpOptions.OffsetsIncrease | tcp_options_iterator.c:123-173 | on arbitrary bytes the offsets yielded increase strictly, stay inside the options and are no more than there are bytes |
| TcpOptions.Walk | tcp_options_iterator.c:123-173 | the loop over the iterator yields those offsets |
| TcpOptions.IterationReadsBack | tcp_options_iterator.c:123-173 | over the bytes of well-formed options, the i-th option yielded is the i-th appended, and there are no others |
| SeqTranslation.ShiftAllBack | run_packet.c:427-453 | moving SACK edges by a and then by -a restores all options, also when an option without blocks stops both passes |
| SeqTranslation.ShiftAllTouchesOnlySack | run_packet.c:427-453 | kinds, lengths, places and all options other than SACK stay |
| SeqTranslation.ShiftBlocks | run_packet.c:440-448 | every whole block of the option has both edges moved, in place |
| SeqTranslation.OffsetSackBlocks | run_packet.c:427-453 | on whatever bytes the options are, the buffer is the old one with the blocks of every option walked over moved, and an error is reported exactly when the walk meets a SACK option of length two or less |
| SeqTranslation.WritesInsideIff | run_packet.c:427-453 | no byte behind the options changes, for any offset, if and only if the blocks of every SACK option the walk gets to end inside the options |
| SeqTranslation.WithinByOffsets | tcp_options_iterator.c:123-173 | that condition, said of the offsets the iterator yields up to the first refused option |
| SeqTranslation.WritesCanBeOutside | tcp_options_iterator.c:96-106 | four option bytes whose blocks are moved up to 30 bytes behind them |
| SeqTranslation.RoomIsEnough | run_packet.c:440-448 | with 249 bytes of memory behind them any options can be walked over |
| SeqTranslation.WalkBack | run_packet.c:427-453 | on any bytes, walking with an offset and then with its negation restores every byte |
| SeqTranslation.WalkedIsShiftAll | run_packet.c:427-453 | on well-formed options the walk stays inside them and moves the edges of all SACK options before the first without data |
| SeqTranslation.EdgesMove | run_packet.c:440-448 | each edge moves by the offset modulo 2^32 |
| SeqTranslationTheorems.MapInbound | run_packet.c:541-554 | for every packet, whatever its options: it is moved by the remote offset for seq and the local one for ack_seq and SACK edges, chosen by its SYN flag |
| SeqTranslationTheorems.MovedIsMoved | run_packet.c:541-554 | moving changes seq, ack_seq where the ACK flag is set, and nothing else up to the options, nor behind them if the blocks walked over end inside them |
| SeqTranslationTheorems.OptionsAreMoved | run_packet.c:427-453 | a segment with well-formed options has the edges of its SACK options moved and is again such a segment |
| SeqTranslationTheorems.ConvertSeqNumber | run_packet.c:611-629 | the same in the other direction for a packet of the local end |
| SeqTranslation.MovingBackRestores | socket.h:285-309 | for every packet, whatever its options, moving by any offsets and back restores every byte |
| SeqTranslationTheorems.InboundAndBack | socket.h:285-295 | script to live and back, with offsets chosen anew from the SYN flag, is the identity on every packet |
| SeqTranslationTheorems.OutboundAndBack | socket.h:297-309 | live to script and back likewise |
| SeqTranslationTheorems.ScriptNumbersAreRelative | socket.h:285-309 | what a script sees: without SYN numbers count from the ISNs, with SYN distances from the ISN are kept |
| SeqTranslation.AddGroup | socket.h:285-309 | distances modulo 2^32 are kept by any offset |
| Aggregation.SniffLoop | run_packet.c:1618-1718 | the loop computes the collecting function for every stream of sniffed packets, negative payload lengths included, and every setting of strict_segments, wire server and checker |
| AggregationFields.HeaderAgreesIff | run_packet.c:805-940 | two headers pass the comparison if and only if their fields fit: for IP version, header length, protocol and hop limit (any after 255); for GRE and MPLS all bytes; for TCP seq moved on by the payload, ack_seq, data offset, reserved bits, window, urgent pointer and all flags but FIN, PSH and CWR; for ICMP version, type and code |
| AggregationFields.ContinuesIff | run_packet.c:1445-1474 | a packet continues the one before it if and only if the fields of all their headers fit and it is as long as that one or brings all that is missing |
| AggregationFields.ScriptFlagsAgree | tcp_packet.c:48-51 | flags that a script writes as two strings are taken for equal if and only if the strings have the same characters apart from F, P and C |
| AggregationFields.TupleIff | run_packet.c:1476-1513 | two packets have the same tuple if and only if IP version, addresses and both ports are the same |
| AggregationImpl.ParsedIsFragment | packet.h:311-337 | every packet the parser accepts at the IP layer is one the loop can take |
| AggregationImpl.ParsedIsSniffed | run_packet.c:1476-1513 | a stream of parsed packets meets all the loop asks for |
| Sniffing.ConvertedIsParsed | run_packet.c:1646-1651 | whatever its options are, a parsed packet would be parsed to the same metadata after its sequence numbers have been converted |
| Sniffing.ConvertedPayload | run_packet.c:1646-1651 | and it has the same payload if the SACK blocks walked over end inside the options |
| Sniffing.ConvertedStreamIsParsed | run_packet.c:1618-1651 | packets that were parsed and then converted meet all the loop asks for |
| AggregationTheorems.AcceptedIsRun | run_packet.c:1618-1718 | the fragments accepted are those sniffed since the last change of addresses or ports, each continuing the one before, adding up to the expected length when the checker is on |
| AggregationTheorems.AcceptedIsOneStream | run_packet.c:1445-1474 | with the checker on: one tuple, equal sizes up to the last, no gaps in sequence space, exactly the expected number of bytes |
| AggregationOutcomes.OutcomeIff | run_packet.c:1618-1718 | for every stream and every setting the loop ends with an outcome if and only if the packets sniffed lead to it: no more packets, a packet on the same tuple that does not continue the one before it, or, once the packets since the last change of tuple carry enough or only one is wanted, those packets, or a wrong length if the checker is on and they carry another |
| AggregationTheorems.RunIsGapFree | run_packet.c:880-940 | fragment i starts as far behind the first as there is payload before it, modulo 2^32 |
| AggregationTheorems.RunHasEqualSizes | run_packet.c:1456-1472 | all fragments but the last carry the same number of bytes |
| AggregationTheorems.FlagsAgreeIff | run_packet.c:880-940 | two flag bytes are taken for equal if and only if no bit but 0 (FIN), 3 (PSH) and 7 (CWR) differs |
| AggregationTheorems.RunSharesTcpFields | run_packet.c:880-940 | all fragments agree in data offset, reserved bits, every flag but FIN, PSH and CWR, ack_seq, window and urgent pointer, so the last header can stand for all |
| AggregationTheorems.RunIsAccepted | run_packet.c:1618-1718 | a run of fragments that adds up is accepted as it is, whatever comes behind it |
| AggregationTheorems.ConcatHasParts | packet.c:294-300 | each payload has its place in the concatenation |
| AggregationTheorems.RunHasPayloads | packet.h:334-337 | of accepted fragments, all have a payload to copy exactly when the first and the last do |
| AggregationImpl.CopiesInsideIff | packet.c:294-300 | with lengths as memcpy gets them, every copy stays inside the new buffer if and only if no payload length is negative |
| AggregationImpl.CopyPayloads | packet.c:294-300 | the loop over the list leaves the concatenation of all payloads, or a copy goes outside, which happens exactly if some payload length is negative |
| AggregationImpl.AggregatePackets | packet.c:271-327 | for TCP, UDP and ICMP, with or without IP options: a copy goes outside exactly if a payload length is negative, the assert of ipv6_header_finish fires exactly if an IPv6 header would carry more than 65535 bytes; else the aggregate has the headers of the last fragment, for TCP sequence number and CWR of the first, and exactly the payload of all, and is parsed back to its own metadata if and only if the lengths of the last fragment agree, it has no IPv4 options, a UDP datagram is not enlarged, and an outermost IPv4 header has room for the length |
| AggregationImpl.AggregateParsesIff | packet.c:304-324 | that condition, for the bytes before and after the headers are finished |
| AggregationExamples.TwoDatagramsAreAggregated | run_packet.c:943-959 | two UDP datagrams that the loop accepts and whose aggregate is not parsed back |
| AggregationExamples.NegativePayloadIsAccepted | packet.h:334-337 | two tunnelled segments, with -40 and 41 bytes of payload, that the loop accepts and of which not every copy stays inside the buffer |
| AggregationExamples.LongSegmentsAssert | ip_packet.c:206-213 | two IPv6 segments of 40000 bytes each that the loop accepts and on whose aggregate the assert fires |
| AggregationImpl.AggregateIsFragment | packet.c:314-322 | the aggregate is a fragment with the payload of all which, if TCP, starts where the first fragment starts in sequence space |
| AggregationImpl.SniffScriptPacket | run_packet.c:1618-1753 | for every stream of parsed packets, with the checker on: a copy goes outside exactly if the first or the last accepted fragment has a negative length, an assert fires exactly as stated, and otherwise the packet the final comparison gets carries exactly the accepted payloads in order, as many bytes as expected, for TCP from the first fragment's sequence number on, and would be parsed back exactly if it is the only one or the condition above holds |
| FuzzPacket.PushedAndCounted | fuzz_test_packet.c:93-205 | at most 40 bytes of options are counted, and one more byte than counted is pushed for each option of length zero |
| FuzzPacket.Lengths | fuzz_test_packet.c:207-238 | the data offset is between 5 and 15 and the IP length at most 10079 |
| FuzzPacket.FuzzPacketIsAccepted | fuzz_test_packet.c:22-260 | for every input and every position in it the parser accepts the packet; bytes pushed equal the IP length exactly when no option of length zero was drawn |
| FuzzPacket.ZeroLengthIsDrawn | fuzz_test_packet.c:162-165 | an input that draws such an option |
| FuzzPacketImpl.DataBuffer.Push | fuzz_test_helper.c:16-28 | the contents grow by the value, also when the buffer is reallocated |
| FuzzPacketImpl.FuzzInput.ReadByte | fuzz_test_helper.c:30-36 | the next byte, or zero at the end |
| FuzzPacketImpl.FuzzInput.ReadInt | fuzz_test_helper.c:38-47 | the next four bytes, most significant first |
| FuzzPacketImpl.ReadKind | fuzz_test_packet.c:97-180 | kind and length as the truncated remainder of a signed char selects them |
| FuzzPacketImpl.PushOptions | fuzz_test_packet.c:93-205 | pushes and counts exactly the options drawn |
| FuzzPacketImpl.FuzzToPacket | fuzz_test_packet.c:22-260 | the parse result is PACKET_OK with an IPv4 and a TCP header, both checksums verify, every other field is as stated, byte k of the payload is the last decimal digit of the packet's place in the stream plus k modulo 2^32, and the input has been read up to the end of what was drawn |
| FuzzContents.FuzzFields | fuzz_test_packet.c:22-91 | addresses and ports are zero, hop limit 255, acknowledgement number 1, the only flag ACK, and sequence number, window and urgent pointer those drawn |
| FuzzContents.DrawnFrom | fuzz_test_packet.c:22-91 | where in the input each of them is read, most significant byte first, and the data length modulo 10000 behind the options |
| FuzzContents.CarriesDigit | fuzz_test_packet.c:224-233 | what the packet carries at a place of the sequence space, found by its own sequence number, data offset and IP length, is the last decimal digit of that place |
| FuzzContents.CoversItsData | fuzz_test_packet.c:224-233 | it carries a byte for every one of the data length places from its sequence number on |
| FuzzContents.OverlapsAgree | fuzz_test_packet.c:231-233 | any two packets that overlap in sequence space carry the same bytes there |
| FuzzContents.ChoiceIsRemainder | fuzz_test_packet.c:98-102 | the selector is the remainder by 17 with the sign of the byte taken as a signed char |
| FuzzContents.DrawnKinds | fuzz_test_packet.c:102-180 | kind, length and bytes read for each selector, by number |
| FuzzContents.FuzzOptionsIff | tcp_options_iterator.c:123-173 | without options of length zero, iterating over the packet's options yields the options drawn, each at its place with its kind and length, if and only if every option but the last has two bytes or more, is EOL or NOP, or has a NOP behind it |
| FuzzContents.UnreadableIsDrawn | fuzz_test_packet.c:162-195 | an input that draws a Fast Open option of length one, which gets no length byte, in front of another option |

## Left out

- Wire nodes and threads run as atomic steps of a state machine; the granularity is one message, lock, wait, signal or shared access. Weak memory ordering is not modelled.
- wait_for_event, verify_time and start-time scheduling: time is an arbitrary delay or an arbitrary death.
- syscall_splice: it calls no begin_syscall, so the bracket does not describe it; bodies of all other system call handlers are thin wrappers and are not modelled.
- Reading of event text by the script grammar: the wire protocol takes it as a function both nodes apply.
- The final comparison of an outbound packet with the script (verify_outbound_live_packet), timestamp mapping, address and port mapping of inbound packets, ICMP echoes.
- num_events counts without bound and is compared modulo 2^32, as the messages carry it; overflow of the int after 2^31 events is not modelled.
- WireBytes: bodies of more than ten million bytes, which the reader refuses, are not sent.
- UDP and ICMP builders: they would repeat the TCP builder with fewer fields.
- inet_pton in the header appends: the addresses are taken as bytes.
- AggregatePackets: what C does after a copy has gone outside its buffer is not modelled.
- TOS checks between fragments: sniffed packets carry no TOS check.
- The link-layer bytes of a capture in the sniffing loop.
- OffsetSackBlocks: memory that is written to has to be there; what a write outside a C buffer does is not modelled.
- sctp_crc32c: bytes are bit-vectors there and in the hash, integers elsewhere.
- Allocation failure, free and pointer casts.
- netdev.c, packet_socket_linux.c, link_layer.c, symbols, config, formatting and logging: device and library calls or text.
