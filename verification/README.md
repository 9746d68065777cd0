# Packets over byte streams: a verified model

The repository tunnels IP packets over TCP-like byte streams that arrive re-chunked and may
break at any moment, and it reads TLS, STUN and IPv4 bytes by hand in JavaScript, C and C++.
This project models that logic in Dafny 4.11 and proves what it is for: that packets come out
of the far end as they went in, that a dropped connection mixes nothing into the next one,
that several parsers of the same bytes agree, that a fingerprint depends on what it should,
that a client's copy of the signalling registry equals the server's. Where the code does less
than its documentation or a reader would expect, the model keeps the code and a lemma says
exactly when the expectation holds.

Run `dafny verify dfyconfig.toml`.

## How it is organised

| files | component |
|---|---|
| `Lists`, `Bytes`, `Text`, `Addresses` | vocabulary: sequences, octets, decimal text, sorting, dotted addresses |
| `Framing` | the flat-stream specification of 4-byte length framing and its laws |
| `FrameReader`, `FrameWriter`, `TunHelper` | `StreamFramer`, the batched writer, and the C helper's in-place loop, each refining `Framing` |
| `BridgeModel` | `attachTunBridge` (transport `tcp`, client role) as one function per event |
| `BridgeControl`, `BridgeInput`, `BridgeOutput`, `BridgeTheorems` | its invariants: control state, what came in, what goes out; and the theorems over all runs |
| `BridgeFate` | what becomes of every event, told by the fields before and after it |
| `BridgeHandover` | errors of sockets no longer used, and sockets let go unreset |
| `TunBridge` | the same handlers as methods of a class over mutable fields, each equal to one step; a valid object is in a state some run reaches |
| `Checksum`, `Icmp` | the Internet checksum in two byte orders, and the echo responder |
| `HelloLayout`, `HelloParsers` | what the three ClientHello parsers read, and their loops |
| `HelloPrinter`, `HelloRoundTrip` | a serialiser, and the round trip of a hello through each parser to its own lists |
| `HelloRecords`, `HelloVerdicts` | record reassembly, the routing decision, and what each verdict means |
| `Fingerprint`, `Ja3Text`, `Ja4Text`, `WireLists` | JA3 and JA4 and what their strings determine; list helpers of the TLS helper |
| `Signalling`, `SignallingFate`, `SignallingTheorems` | the registry, what each request does to it and who is told, and what its messages add up to |
| `PollBatch`, `SlabPool` | what one poll delivers, and the native packet pool and callback that deliver it |
| `CoverLimiter`, `Inbox`, `Stun`, `FlowKey`, `FlowDecisions` | smaller machines and formats |

Code that changes things step by step appears as classes and loops. Each method is tied by its
`ensures` to a function of the old state, and the laws are proved about those functions, so
they hold of the methods. Environment choices (what arrives, which call fails, the clock, the
answers of caller-supplied filters) are parameters of the events, and theorems quantify over
all of them.

## What the proofs found

- The TUN helper starts over after a bad length: it empties its buffer and parses the next
  read as a fresh stream, so from then on what it writes depends on where the reads are cut
  (`Restart`, `CutsMatter`). The bridge destroys the socket instead. `FlatExactly` says when
  the helper still writes what the flat stream holds.
- An error of an idle socket after a connection is handed over. `reconnectWire` does not remove
  the handlers of a socket that waits for its peer's FIN (`ensureWire` does), and
  `handleTcpWireFailure` acts on the current endpoint whichever socket failed, so an error on
  the old socket destroys the new connection. This concerns users of the interface who hand
  inbound connections to a client bridge: the repository's programs call `reconnectWire`
  for another transport and for the server role only. `StaleRunExactly` and `StaleErrorExactly`
  give the exact condition, `StaleErrorRun` the run, `CarefulRunsAreSafe` a condition on the
  events that rules it out.
- `rearmTcpClientWire` clears `ep` before passing it to `resetTcpEndpoint`, so the reset it asks
  for never happens: a closing socket it drops is not destroyed (`RearmReleases`), as when an
  idle socket has received its peer's FIN (`AbandonedRun`). Every other event closes what it
  drops (`DroppedIsClosed`).
- The JavaScript checksum is right on buffers of up to 65536 bytes and on no greater length
  (`JsExactBound`); IPv4 lengths stay below.
- An echo answer carries the request's identifier and sequence number only if the four
  octets its buffer is allocated with happen to equal them (`EchoesIdentifierExactly`).
- A ClientHello body of exactly 34 bytes makes the JavaScript parser throw (`ParsersAgree`).
- The bridge frames up to 65535 bytes, the helper accepts 0 to 1600: they interoperate on
  exactly the packets of 1 to 1600 bytes (`InteropExactly`).
- A reconnecting signalling client keeps its old peer map; asking for the peers repairs it
  exactly if every id it held is still a peer (`ReconnectExactly`).
- A peer that registers again in another role stays in the client's map of exit nodes
  (`ExitsMatchExactly`).
- A close event removes one node only, so a socket that registered two ids leaves one behind
  (`CloseLeavesGhostExactly`); clients that keep to one id per socket never cause it
  (`NoGhosts`).
- Virtual addresses are unique over all runs exactly if no pinned address has the form the
  counter hands out (`UniqueIpsExactly`).
- The cover-page limiter is described as a sliding window and is a renewed fixed one: an
  interval of the window's length may serve up to 2 * limit - 1 pages, and does
  (`BurstBound`, `BurstTight`).

## Model

| member | source | states |
|---|---|---|
| Framing.ParseEncoded | scripts/clean-vpn.js:4948-4954 | a stream that begins with the frames of any sendable packets parses to those packets first, then to the parse of what follows |
| Framing.ParseSound | scripts/clean-vpn.js:4872-4886 | the parsed packets re-encode to exactly the consumed prefix and the residue yields nothing more: nothing is lost or invented |
| Framing.ParseAppend | scripts/clean-vpn.js:4866-4888 | parsing a stream in two pieces, carrying the residue over, is parsing the concatenation; after a bad length nothing more is parsed |
| Framing.ChunkingInvisible | scripts/clean-vpn.js:4866-4888 | for every chunking the delivered packets, the residue and the verdict are those of the unchunked stream |
| Framing.PrefixOfEncoded | scripts/clean-vpn.js:4866-4888 | part of an encoded stream delivers a prefix of the packets and is never rejected |
| FrameReader.StreamFramer.Push | scripts/clean-vpn.js:4866-4888 | delivers what parsing residue plus chunk gives, keeps its residue, and on a bad length drops the buffer and throws; afterwards fewer than 24 chunks are held |
| FrameReader.StreamFramer.TakeFrames | scripts/clean-vpn.js:4872-4886 | the receive loop takes every complete frame off the queue |
| FrameReader.StreamFramer.PeekUInt32BE | scripts/clean-vpn.js:4891-4910 | reads the big-endian length even when the header is split over chunks |
| FrameReader.StreamFramer.Consume | scripts/clean-vpn.js:4913-4933 | returns the first n bytes across chunk borders and leaves exactly the rest |
| FrameReader.StreamFramer.MergeChunksIfNeeded | scripts/clean-vpn.js:4935-4944 | merging leaves the buffered bytes as they were |
| FrameWriter.WriterRun | scripts/clean-vpn.js:4965-5032 | in every reachable writer the bytes written are whole frames, a non-empty batch is under the limit and has a flush on the way, and without a throwing write packets flushed and pending are the packets sent, in order |
| FrameWriter.SendOutcome | scripts/clean-vpn.js:4965-5031 | a throwing write loses exactly the batch it carried; otherwise no packet is lost or reordered |
| FrameWriter.SendFate | scripts/clean-vpn.js:4965-5031 | a packet goes out at once without batching, with the whole batch when its frame reaches the limit, and else waits with exactly one callback to come |
| FrameWriter.CallbackOutcome | scripts/clean-vpn.js:4987-5020 | the same for a flush run by a callback |
| FrameWriter.PendingDrains | scripts/clean-vpn.js:5006-5020 | one queued callback empties the batch |
| FrameWriter.EndToEnd | scripts/clean-vpn.js:4965-5032 | for every interleaving of sends and callbacks and every re-chunking, the far framer delivers exactly the flushed packets in order; of part of the bytes, a prefix |
| FrameWriter.BatchedWriter.FlushNow | scripts/clean-vpn.js:4987-5004 | writes the whole batch once, cancels what was scheduled, reports a throwing write |
| FrameWriter.BatchedWriter.ScheduleFlush | scripts/clean-vpn.js:5006-5020 | schedules one deferred flush or one timer, never a second |
| FrameWriter.BatchedWriter.SendPacket | scripts/clean-vpn.js:5022-5031 | queues the frame and flushes at the size limit, else schedules |
| FrameWriter.BatchedWriter.OnImmediate | scripts/clean-vpn.js:5011 | the deferred callback flushes, and reports exactly a throwing write of a non-empty batch |
| FrameWriter.BatchedWriter.OnTimer | scripts/clean-vpn.js:5015-5018 | the timer callback flushes, and reports exactly a throwing write of a non-empty batch |
| TunHelper.StdinBuffer.Feed | helpers/tun-helper-linux.c:130-164 | for one read the in-place loop writes exactly the frames of the flat stream up to a bad length, keeps its residue in the 3200-byte array, and leaves at least 1597 bytes free |
| TunHelper.StdinBuffer.TakeFrame | helpers/tun-helper-linux.c:154-162 | the first frame's packet goes out and memmove closes the gap |
| TunHelper.StdinBuffer.MoveDown | helpers/tun-helper-linux.c:158-161 | memmove on overlapping ranges |
| TunHelper.ResidueShort | helpers/tun-helper-linux.c:141-163 | after a pass at most 1603 bytes remain, so the next read never asks for 0 bytes |
| TunHelper.HelperRun | helpers/tun-helper-linux.c:130-164 | over every sequence of reads without a bad length the frames written are those of the concatenation and the buffer holds its incomplete rest, at most 1603 bytes |
| TunHelper.StdinBuffer.Run | helpers/tun-helper-linux.c:130-164 | the loop over any reads that fit their free space computes what the theorems on runs speak of |
| TunHelper.FlatExactly | helpers/tun-helper-linux.c:141-151 | over every run the frames of the concatenation come first, and nothing else is written exactly if no read after the stream has failed completes a frame |
| TunHelper.Restart | helpers/tun-helper-linux.c:145-148 | after a bad length the helper writes what a new one would for the reads that follow |
| TunHelper.CutsMatter | helpers/tun-helper-linux.c:145-148 | nine bytes that write a packet in two reads and nothing in one |
| TunHelper.InteropExactly | helpers/tun-helper-linux.c:145 | the helper takes what the bridge frames exactly if every packet is at most 1600 bytes |
| BridgeTheorems.ReachableHolds | scripts/clean-vpn.js:6145-6952 | control, input and output invariants hold after every sequence of events |
| BridgeTheorems.BridgeInvariant | scripts/clean-vpn.js:6808-6855 | armed implies a socket, an empty queue and no connect under way; packets wait only while connecting or without a socket, at most 256; one `lazyConnect` in flight at most; the cached writer is the current socket's; the idle timer runs exactly while armed |
| BridgeTheorems.WireOrder | scripts/clean-vpn.js:6864-6949 | the packets handed over, on all sockets together, and behind them those waiting, are a subsequence of the packets read from TUN |
| BridgeTheorems.FarEndDelivers | scripts/clean-vpn.js:6438-6460 | on every connection, live or dropped, and for every re-chunking, the far framer delivers a prefix of the packets handed to that connection and never fails |
| BridgeTheorems.TunGetsStream | scripts/clean-vpn.js:6531-6539 | what TUN got from a connection is the parse of what that peer alone sent, from its first byte; for the live one all of it |
| BridgeTheorems.ConnectDrainsQueue | scripts/clean-vpn.js:6821-6845 | when a connect resolves with a writable socket the whole queue goes out on it, in order |
| BridgeHandover.StaleErrorExactly | scripts/clean-vpn.js:6219-6243 | an error on another socket leaves an armed bridge alone exactly if that socket does not carry the idle-drain handlers |
| BridgeHandover.StaleDrainExactly | scripts/clean-vpn.js:6779-6806 | an inbound reconnect onto a writable socket arms the bridge on it and leaves the drain handlers on whatever socket carried them |
| BridgeHandover.StaleErrorRun | scripts/clean-vpn.js:6779-6806 | disarm, reconnect, error on the old socket: the new connection is destroyed |
| BridgeHandover.StaleRunExactly | scripts/clean-vpn.js:6779-6806 | in some state of a run an error of a foreign socket can take the armed bridge down exactly if at some point a handed-over connection was taken while another socket was drained |
| BridgeHandover.CarefulRunsAreSafe | scripts/clean-vpn.js:6219-6264 | no state is exposed to it on event sequences where nothing is handed over while a socket that saw an idle timeout has yet to close |
| BridgeHandover.RearmReleases | scripts/clean-vpn.js:6267-6277 | re-arming drops the endpoint exactly if it is closing, and never destroys the one it drops |
| BridgeHandover.AbandonedRun | scripts/clean-vpn.js:6267-6277 | idle timeout, FIN from the peer, `ensureWire`: the socket is dropped without handlers and not destroyed |
| BridgeHandover.DroppedIsClosed | scripts/clean-vpn.js:6145-6952 | every event that makes the bridge drop its socket has ended or destroyed it, a throwing write in the middle of a flush included; the only exception is a re-arm that finds the idle socket closing |
| BridgeFate.InitFate | scripts/clean-vpn.js:6163-6204 | unconnected with `lazyConnect`, otherwise armed on the given socket |
| BridgeFate.ArmedFate | scripts/clean-vpn.js:6868-6949 | on an armed bridge a packet that may cross is the next one handed to the current socket exactly if the filter lets it, else nothing changes |
| BridgeFate.DisarmedFate | scripts/clean-vpn.js:6890-6938 | on a disarmed one it is dropped exactly if the bridge cannot connect, cools down or the caller does not want it; else a reusable socket is armed and takes it, or it waits last among at most 256 with one connect under way |
| BridgeFate.RefusedFate | scripts/clean-vpn.js:6868-6889 | any other packet changes nothing, except that an echo request to the local address gets exactly one answer |
| BridgeFate.IdleFate | scripts/clean-vpn.js:6286-6311 | an idle timeout disarms, keeps the socket under drain handlers and starts the cooldown |
| BridgeFate.CooldownRun | scripts/clean-vpn.js:6890-6897 | over every run of events before the cooldown ends in which nobody else brings a connection, the bridge neither connects nor queues nor sends |
| BridgeFate.EnsureFate | scripts/clean-vpn.js:6808-6820 | `ensureWire` does nothing while armed or connecting, re-arms a reusable socket, and else begins one connect if it can |
| BridgeFate.RejectFate | scripts/clean-vpn.js:6846-6854 | a refused connect leaves the queue as it was and the bridge ready for the next |
| BridgeFate.HandoverFate | scripts/clean-vpn.js:6779-6806 | a connection handed over replaces the wire, resets the old socket if it is closing and ends it otherwise, and takes the queue in order; during a connect it is ignored |
| BridgeFate.WireEndFate | scripts/clean-vpn.js:6540-6542 | a FIN takes the wire down and is answered by FIN, or by a reset where FIN is unsafe |
| BridgeFate.EndFate | scripts/clean-vpn.js:6236-6250 | a FIN is answered on a drained socket and only noted on others |
| BridgeFate.WireCloseFate | scripts/clean-vpn.js:6543-6556 | a close takes the wire down |
| BridgeFate.CloseFate | scripts/clean-vpn.js:6239-6252 | a close ends the wait of a drained socket and changes nothing else |
| BridgeFate.ErrorFate | scripts/clean-vpn.js:6219-6234 | an error on a socket with handlers destroys the current endpoint and disarms; on others it does nothing |
| BridgeFate.StrayFate | scripts/clean-vpn.js:6244-6249 | data reset a drained socket and are read by nobody elsewhere |
| BridgeFate.FramingFate | scripts/clean-vpn.js:6531-6539 | the wire's socket is reset exactly by a framing error |
| BridgeFate.DeferredFate | scripts/clean-vpn.js:4987-5020 | a deferred flush empties the batch of its own connection; a throwing write loses it and takes the bridge down exactly if it is the current one |
| BridgeFate.NotV6Exactly | scripts/clean-vpn.js:6174-6176 | of the packets framed from a peer exactly those of IP version 6 do not reach TUN |
| BridgeControl.StepKeepsControl | scripts/clean-vpn.js:6145-6952 | every event keeps the control invariant |
| BridgeInput.StepKeepsInput | scripts/clean-vpn.js:6793-6794 | every event keeps: the live framer holds bytes of the current socket only |
| BridgeOutput.StepKeepsOutput | scripts/clean-vpn.js:6438-6460 | every event keeps: per socket, bytes written are frames of the packets handed to it, and order is arrival order |
| TunBridge.Bridge.constructor | scripts/clean-vpn.js:6163-6204 | starts unconnected with `lazyConnect`, else armed on the given socket |
| TunBridge.Bridge.TeardownWire | scripts/clean-vpn.js:6634-6753 | drops wire, endpoint, writer, drain and queue, and closes the socket by FIN or reset |
| TunBridge.Bridge.HandleTcpWireFailure | scripts/clean-vpn.js:6219-6234 | tears an armed bridge down, else resets the idle endpoint |
| TunBridge.Bridge.TcpClientIdleDisarm | scripts/clean-vpn.js:6286-6311 | disarms, starts the cooldown, keeps the socket under drain handlers |
| TunBridge.Bridge.SendPacket | scripts/clean-vpn.js:6438-6460 | hands the packet to the cached writer, or to a new one bound to the current socket; a throwing write is reported for that socket only |
| TunBridge.Bridge.RearmTcpClientWire | scripts/clean-vpn.js:6267-6284 | re-arms an open idle socket, or lets a closing one go |
| TunBridge.Bridge.StartConnect | scripts/clean-vpn.js:6808-6820 | reuses the socket and drains the queue, or begins one connect |
| TunBridge.Bridge.OnConnectResolved | scripts/clean-vpn.js:6821-6854 | arms the fresh socket with a new framer and no cached writer, then drains the queue |
| TunBridge.Bridge.OnConnectRejected | scripts/clean-vpn.js:6846-6854 | disarms and forgets the endpoint; the queue stays |
| TunBridge.Bridge.ReconnectWire | scripts/clean-vpn.js:6779-6806 | replaces the wire by an inbound socket, closes the old one and drains the queue; ignored while connecting |
| TunBridge.Bridge.OnTunPacket | scripts/clean-vpn.js:6864-6949 | drops, answers, queues, sends or connects as the handler does |
| TunBridge.Bridge.OnData | scripts/clean-vpn.js:6244-6249 | data go to the wire's framer, reset a draining socket, or are ignored |
| TunBridge.Bridge.OnWireData | scripts/clean-vpn.js:6531-6539 | the wire's data are framed to TUN; a framing error resets the socket |
| TunBridge.Bridge.OnEnd | scripts/clean-vpn.js:6540-6542 | a FIN tears an armed wire down, or is answered on a draining socket |
| TunBridge.Bridge.OnClose | scripts/clean-vpn.js:6543-6556 | a close tears down an armed wire or clears the endpoint |
| TunBridge.Bridge.OnError | scripts/clean-vpn.js:6557 | errors of wire or drain reach the failure handler |
| TunBridge.Bridge.OnIdleTimer | scripts/clean-vpn.js:6354-6368 | the idle timer disarms the client |
| TunBridge.Bridge.OnDeferredFlush | scripts/clean-vpn.js:6456-6458 | a flush of any writer, also of a dropped connection, touches that connection; its error counts only for the current one |
| TunBridge.Bridge.Invariants | scripts/clean-vpn.js:6145-6952 | the control, input and output invariants hold of the object whenever it is valid, which every event method keeps |
| Checksum.InternetChecksum16 | scripts/clean-vpn.js:5790-5803 | the loop computes the specification checksum, including JavaScript's 32-bit shifts |
| Checksum.ChecksumC | helpers/icmp-helper.c:51-69 | the C loop computes its specification in 32-bit arithmetic |
| Checksum.JsMeetsReference | scripts/clean-vpn.js:5790-5803 | up to 65536 bytes it is the one's-complement sum of RFC 1071 |
| Checksum.JsExactBound | scripts/clean-vpn.js:5799-5801 | it is that sum on every buffer of a length exactly if the length is at most 65536 |
| Checksum.ByteOrderIndependence | helpers/icmp-helper.c:51-69 | for every buffer up to 65535 bytes, odd lengths included, the C sum stored natively and the JavaScript sum stored big-endian are the same two bytes |
| Checksum.ChecksumVerifies | scripts/clean-vpn.js:5790-5803 | a checksum written over its zeroed field makes the buffer verify to 0 |
| Icmp.TryBuildTunIcmpEchoReplyForLocalIp | scripts/clean-vpn.js:5814-5859 | answers exactly the echo requests to the local address with fragment offset 0 and a 20-byte header, with the reply of the specification up to four unwritten octets |
| Icmp.ReplyLaws | scripts/clean-vpn.js:5835-5858 | every reply is an echo reply with the request's length and payload, exchanged addresses and lifetime 64, both checksums verify, it passes `isIpv4Bridgeable`, and is no request itself |
| Icmp.AnsweredExactly | scripts/clean-vpn.js:5814-5834 | by header fields: exactly ICMP of type 8 and code 0 to the local address at fragment offset 0 with a true total length is answered |
| Icmp.BridgeableExactly | scripts/clean-vpn.js:5865-5875 | by header fields: exactly version 4 with 5 header words or more and a total length that holds the header and is all there may cross |
| Icmp.EchoesIdentifierExactly | scripts/clean-vpn.js:5838-5843 | identifier and sequence number are echoed exactly if the unwritten octets already hold them |
| HelloParsers.ParseTlsClientHelloExtensions | scripts/clean-vpn.js:2088-2154 | the loops compute server names, ALPN and versions of the shared layout, every failure reason included |
| HelloParsers.ComputeJa3FromClientHelloBody | native/boring_tls/helper_main.cc:319-405 | the loops compute JA3's five lists, ALPN and versions of the shared layout |
| HelloParsers.ComputeJa4FromClientHelloBody | native/boring_tls/helper_main.cc:563-666 | the same for JA4's lists; the block must end exactly |
| HelloParsers.ParsersAgree | native/boring_tls/helper_main.cc:319-663 | exactly when each parser accepts a body (JA4 implies JA3 implies JavaScript, with the extra condition of each), and that accepted bodies give all of them the same ciphers, types, versions and ALPN |
| HelloLayout.IsGreaseLoop | native/boring_tls/helper_main.cc:214-219 | the table search |
| HelloLayout.GreaseTestsAgree | native/boring_tls/helper_main.cc:222-226 | the arithmetic test for extension types accepts exactly the table's 16 values |
| HelloPrinter.PrintBack | native/boring_tls/helper_main.cc:319-358 | every ClientHello within its length fields, serialised, parses back to its version, ciphers and extensions |
| HelloPrinter.ExtensionBack | native/boring_tls/helper_main.cc:359-404 | each list comes back from the extension that carries it and from no other |
| HelloRecords.ParseFirstTlsClientHello | scripts/clean-vpn.js:2160-2206 | the record loop computes the specification decision |
| HelloRecords.DecisionFinal | scripts/clean-vpn.js:2160-2206 | a decision is unchanged by later bytes, up to 512 KiB |
| HelloRecords.NeedMoreTight | scripts/clean-vpn.js:2164-2186 | `minTotal` exceeds what there is, nothing shorter can decide, and as many bytes never get the same answer again |
| HelloRecords.HelloReader.OnData | scripts/clean-vpn.js:7793-7803 | collects chunks and decides once; when the parser throws the handler stays on, undecided |
| HelloRecords.ChunkingIrrelevant | scripts/clean-vpn.js:7793-7803 | for every chunking up to 512 KiB the connection is routed, or left undecided, as if the bytes had come at once |
| HelloRecords.FragmentationInvisible | scripts/clean-vpn.js:2160-2206 | one ClientHello split into any non-empty records, with any bytes after, gives the parse of its body |
| HelloVerdicts.AcceptedIsThere | scripts/clean-vpn.js:2160-2206 | an accepted buffer begins with handshake records whose payloads begin with a ClientHello message, which no shorter run completes, and reports what the parser says of it |
| HelloVerdicts.NextHeader | scripts/clean-vpn.js:2170-2199 | behind records that complete nothing the next header decides: more bytes by exact count, or refusal by type, length or message type, each with its reason |
| HelloVerdicts.TooLong | scripts/clean-vpn.js:2161-2163 | refused as too long exactly past 512 KiB |
| HelloRoundTrip.JsBack | scripts/clean-vpn.js:2088-2154 | a serialised hello parses to its host names (and no other names), protocols and versions, in order |
| HelloRoundTrip.Ja3Back | native/boring_tls/helper_main.cc:319-405 | to its version, ciphers, types, groups, formats, protocols and versions, GREASE left out where JA3 leaves it out |
| HelloRoundTrip.Ja4Back | native/boring_tls/helper_main.cc:563-663 | and to the lists of JA4: whether a server name is there, the first non-empty protocol, the signature algorithms of both extensions |
| HelloRoundTrip.RoutedBack | scripts/clean-vpn.js:2160-2206 | in any non-empty records, with any bytes behind, it is accepted with its host names, protocols and versions |
| HelloRoundTrip.Truncated | scripts/clean-vpn.js:2088-2112 | cut short anywhere it is refused with the reason that names the cut field; cut at 34 bytes it makes the parser throw |
| Fingerprint.Ja4ResolvedTlsVersion | native/boring_tls/helper_main.cc:478-489 | the largest non-GREASE version, else the legacy one |
| Fingerprint.Ja3Exactly | native/boring_tls/helper_main.cc:407-414 | two JA3 strings are equal exactly if version, ciphers, types, groups and formats are the same lists |
| Ja3Text.Ja3Reads | native/boring_tls/helper_main.cc:407-414 | the JA3 string reads back to version, ciphers, types, groups and formats, in their places |
| Ja3Text.Ja3SortedReads | native/boring_tls/helper_main.cc:416-431 | the sorted string reads back to the same lists in ascending order |
| Ja3Text.Ja3OfHello | native/boring_tls/helper_main.cc:319-414 | from a hello through its bytes, the parser and the string back to the hello's own lists |
| Fingerprint.ParsedWellRanged | native/boring_tls/helper_main.cc:319-405 | what both parsers report is in the 16-bit range the theorems on strings speak of |
| Ja4Text.PrefixReads | native/boring_tls/helper_main.cc:665-672 | the ten-character prefix has its fields at fixed places, both counts capped at 99 |
| Ja4Text.VersionReads | native/boring_tls/helper_main.cc:452-489 | its version characters name the largest non-GREASE version offered, else the legacy one |
| Ja4Text.AlpnReads | native/boring_tls/helper_main.cc:491-513 | its last two are the ends of the first protocol, as letters if both are letters or digits, else in hexadecimal |
| Ja4Text.PrefixExactly | native/boring_tls/helper_main.cc:665-672 | two prefixes are equal exactly if their fields agree |
| Ja4Text.HexSortsAscending | native/boring_tls/helper_main.cc:674-679 | sorting the hexadecimal texts lists the values in ascending order |
| Ja4Text.HexReads | native/boring_tls/helper_main.cc:435-443 | the four hexadecimal digits read back, most significant first |
| Ja4Text.PayloadAscends | native/boring_tls/helper_main.cc:702-712 | a hashed payload spelled out: the values ascending, then the signature algorithms in their own order |
| Ja4Text.WireOrderExactly | native/boring_tls/helper_main.cc:753-757 | two hellos share the wire-order JA4 string exactly if prefix, ciphers, types and signature algorithms are the same lists |
| Ja4Text.SortedExactly | native/boring_tls/helper_main.cc:740-751 | two hellos share a sorted raw string exactly if the prefix fields and the signature algorithms agree and the ciphers, and the types it lists, are permutations of each other |
| Ja4Text.CipherHashExactly | native/boring_tls/helper_main.cc:674-686 | the cipher hashes of two hellos are equal exactly if their ciphers are permutations of each other, as long as SHA-256 does not collide on the two payloads |
| Ja4Text.ExtensionHashExactly | native/boring_tls/helper_main.cc:688-712 | the extension hashes exactly if the types other than SNI and ALPN are and, if there are any, the signature algorithms are the same list |
| Ja4Text.AltHashExactly | native/boring_tls/helper_main.cc:694-727 | the alternative hashes likewise, with SNI among the types |
| Ja4Text.HashesExactly | native/boring_tls/helper_main.cc:674-727 | all three for any two hellos and a hash without collisions |
| Ja4Text.FingerprintExactly | native/boring_tls/helper_main.cc:665-764 | two JA4 fingerprints are equal exactly if prefix fields, cipher multiset, type multiset and, if there are types to hash, signature algorithms agree |
| Fingerprint.Ja3SortedPermuted | native/boring_tls/helper_main.cc:416-431 | the sorted JA3 string depends on the lists up to order |
| Fingerprint.ReorderingInvisible | native/boring_tls/helper_main.cc:563-770 | for any two accepted bodies with permuted ciphers and reordered extensions, sorted JA3, the JA4 fingerprint and every JA4 field but the wire-order one are equal |
| Fingerprint.DistinctReordered | native/boring_tls/helper_main.cc:604-661 | extensions of distinct types, permuted with 13 and 50 in relative order, are reordered in that sense |
| Fingerprint.Ja4ComputePermuted | native/boring_tls/helper_main.cc:668-770 | the JA4 strings depend on ciphers, types and versions up to order |
| Fingerprint.GreaseInvisible | native/boring_tls/helper_main.cc:319-433 | serialised hellos that differ only in GREASE ciphers, extensions, groups, versions or signature algorithms have the same JA3 strings and the same JA4 fields, all of them |
| Fingerprint.InsertionsMakeTwins | native/boring_tls/helper_main.cc:209-226 | inserting a GREASE cipher or extension anywhere gives such a hello |
| Fingerprint.InsideMakesTwins | native/boring_tls/helper_main.cc:359-404 | so does GREASE inside the list of an extension |
| WireLists.DedupeU16PreserveOrder | native/boring_tls/helper_main.cc:229-242 | keeps the first occurrence of every value and counts what it removed |
| WireLists.FirstsKeepOrder | native/boring_tls/helper_main.cc:228-242 | the same values, none twice, in the order of first occurrence |
| WireLists.DedupeIdempotent | native/boring_tls/helper_main.cc:229-242 | a second pass removes nothing |
| WireLists.ExtraInFirst | native/boring_tls/helper_main.cc:530-544 | the sorted list of what the first list has more often than the second, each as often as it is in surplus |
| WireLists.MultisetExtraInFirst | native/boring_tls/helper_main.cc:529-545 | the report is that list as comma-joined decimals, and empty exactly if nothing is in surplus |
| WireLists.SurplusEmptyExactly | native/boring_tls/helper_main.cc:529-545 | both reports are empty exactly if the lists are permutations of each other |
| Signalling.SignallingServer.HandleRegister | server/signalling-server.js:117-211 | validates, checks the token, renews or enters a node, and announces it |
| Signalling.SignallingServer.Renew | server/signalling-server.js:137-165 | the node moves to the new socket and keeps its address, the old socket is terminated, all others get one join |
| Signalling.SignallingServer.Enter | server/signalling-server.js:185-206 | a new node goes last, its client gets its address and all others get one join |
| Signalling.SignallingServer.AssignIp | server/signalling-server.js:168-184 | the pin if no node uses it, else the next counter address |
| Signalling.SignallingServer.HandleGetPeers | server/signalling-server.js:240-261 | every node but the asker's, in order |
| Signalling.SignallingServer.HandleWsClose | server/signalling-server.js:301-312 | removes the first node of the socket and tells the others |
| Signalling.SignallingServer.BroadcastBut | server/signalling-server.js:328-332 | one message to the open socket of every other node |
| SignallingFate.RenewFate | server/signalling-server.js:137-165 | re-registration gives the node the new socket, key, role and, if given, name; it keeps its place and addresses, no other node changes, the old socket is terminated, and each socket is told exactly that, field by field |
| SignallingFate.EnterFate | server/signalling-server.js:168-206 | a new node goes last with all its fields, its pin if free and else 10.200.0.k, and each socket is told exactly that |
| SignallingFate.RegisteredOnce | server/signalling-server.js:136-206 | after it exactly one node has the id |
| SignallingFate.RefuseFate | server/signalling-server.js:125-134 | an incomplete or unauthorised registration changes no node; its socket is told why and terminated in the second case |
| SignallingFate.CloseFate | server/signalling-server.js:301-312 | a close removes the first node of the socket and every other node's open socket is told once |
| SignallingFate.GetPeersFate | server/signalling-server.js:240-261 | the reply lists every node but the asker's, with its own fields, once |
| SignallingTheorems.BroadcastReaches | server/signalling-server.js:314-348 | a broadcast reaches a socket that carries one node exactly once, and its own node never |
| SignallingTheorems.PeerTable.HandlePeersList | src/control/signalling.js:212-220 | the client merges a peers reply into its maps of peers and of exit nodes |
| SignallingTheorems.PeerTable.HandlePeerJoin | src/control/signalling.js:229-235 | a join sets the peer, and the exit node if its role is exit |
| SignallingTheorems.PeerTable.HandlePeerLeave | src/control/signalling.js:237-241 | a leave removes the id from both maps |
| SignallingTheorems.ExitsMatchExactly | src/control/signalling.js:229-235 | after a join the exit nodes are still the peers with that role exactly if the peer is an exit or was not among them |
| SignallingTheorems.ObservesExactly | server/signalling-server.js:117-312 | a client alone on its open socket stays so exactly through events that neither close that socket, nor register its id elsewhere, nor register another id or present a bad token on it |
| SignallingTheorems.Replication | server/signalling-server.js:117-348 | over every run of such events: a replica without wrong entries never gets one, one equal to the registry stays equal, one request makes it equal |
| SignallingTheorems.FreshClient | server/signalling-server.js:117-348 | a client that starts empty, registers on a socket of its own and asks once holds exactly the registry minus itself, over every run of such events |
| SignallingTheorems.ReconnectExactly | src/control/signalling.js:212-220 | a peers reply makes an old map equal to the registry exactly if every id in it is a current peer |
| SignallingTheorems.ReachableDistinct | server/signalling-server.js:137-201 | ids stay distinct over every run |
| SignallingTheorems.CloseLeavesGhostExactly | server/signalling-server.js:301-312 | a node of the closed socket stays exactly if it carried two; closing a replaced socket changes no node and sends nothing |
| SignallingTheorems.NoGhosts | server/signalling-server.js:298-312 | if every socket registers one id, no run leaves a node whose socket has closed |
| SignallingTheorems.UniqueIpsExactly | server/signalling-server.js:168-184 | addresses are unique in every run exactly if no pin is 10.200.0.k with k of 2 or more |
| SignallingTheorems.PinCollides | server/signalling-server.js:168-184 | the run that hands out such a pin a second time |
| SlabPool.PktPool.Acquire | native/tun_linux/tun_linux.cc:30-36 | a slab nobody holds: the top of the free list, else a new allocation, else none |
| SlabPool.PktPool.Release | native/tun_linux/tun_linux.cc:38-48 | back on the free list below 64, else freed; only a held slab can be released |
| SlabPool.PktPool.Fill | native/tun_linux/tun_linux.cc:132-160 | reads up to 32 packets into as many different slabs; the slab of a failed read is back already |
| SlabPool.PktPool.ReleaseFrom | native/tun_linux/tun_linux.cc:167-172 | the failure loops release the remaining slabs once each |
| SlabPool.PktPool.Deliver | native/tun_linux/tun_linux.cc:192-216 | every packet is copied at its exact length before its slab is reused; on a failure at any point all slabs are back |
| SlabPool.PktPool.OnPoll | native/tun_linux/tun_linux.cc:116-225 | on every path each slab acquired is released exactly once before return, none is freed, and the callback gets all packets of the batch or is not called |
| SlabPool.EventLoop | native/tun_linux/tun_linux.cc:26-48 | over any run at most 32 slabs are ever allocated, none is freed, none is held between polls |
| PollBatch.DeliveredExactly | native/tun_linux/tun_linux.cc:116-225 | the callback gets the longest run of non-empty reads, interrupted ones left out, cut at 32 and where slabs run out, each packet whole and in order; it is not called exactly if there is none, the session is not readable or an engine call fails |
| PollBatch.DeliveredWhole | native/tun_linux/tun_linux.cc:116-225 | while every call succeeds that is the whole run cut at 32 |
| PollBatch.PoolInvisible | native/tun_linux/tun_linux.cc:132-160 | while allocation succeeds the pool's contents make no difference to JavaScript |
| CoverLimiter.Limiter.ShouldThrottle | scripts/clean-vpn.js:2287-2300 | opens or counts a window and compares with the limit |
| CoverLimiter.Limiter.Cleanup | scripts/clean-vpn.js:2273-2278 | removes exactly the entries older than two windows |
| CoverLimiter.BurstBound | scripts/clean-vpn.js:2287-2300 | with a clock that does not go back, no interval of one window's length serves an address more than 2 * limit - 1 pages |
| CoverLimiter.BurstTight | scripts/clean-vpn.js:2287-2300 | for every limit and any window of 2 ms or more a run reaches that number |
| CoverLimiter.SweepInvisible | scripts/clean-vpn.js:2270-2281 | the cleanup changes no decision of any run |
| CoverLimiter.SweepExactly | scripts/clean-vpn.js:2273-2278 | a sweep leaves exactly the entries whose window opened at most two windows ago |
| CoverLimiter.SweptAreRecent | scripts/clean-vpn.js:2270-2300 | after any run and a sweep only addresses with a hit in the last two windows are left |
| Inbox.SignallingInbox.Dispatch | scripts/clean-vpn.js:3276-3294 | the first waiter that accepts the message gets it, else it is queued last |
| Inbox.SignallingInbox.WaitForJson | scripts/clean-vpn.js:3316-3340 | resolves with the oldest queued message it accepts, else waits |
| Inbox.SignallingInbox.OnTimer | scripts/clean-vpn.js:3328-3330 | removes the waiter of that timer, if it still waits |
| Inbox.SignallingInbox.DetachListener | scripts/clean-vpn.js:3341-3346 | empties both queues and stops listening |
| Inbox.InboxInvariant | scripts/clean-vpn.js:3269-3348 | in every reachable state no queued message satisfies a waiting predicate, the queue is in arrival order, each promise is resolved at most once with a message it accepts |
| Inbox.TimeoutIsFinal | scripts/clean-vpn.js:3321-3331 | a promise that times out while waiting is never resolved afterwards; the timer of a settled one changes nothing |
| Inbox.MessageOnce | scripts/clean-vpn.js:3269-3348 | until the detach every message is queued or was delivered, exactly once; afterwards at most once |
| Inbox.WaitFate | scripts/clean-vpn.js:3316-3340 | asking takes the oldest accepted message or waits last |
| Inbox.ArriveFate | scripts/clean-vpn.js:3276-3294 | a message goes to the longest waiting promise that accepts it or is queued last |
| Inbox.WaitsExactly | scripts/clean-vpn.js:3269-3346 | a waiting promise goes on waiting exactly until its timer, the detach, or a message it accepts and no longer waiting one does |
| Inbox.DetachIsFinal | scripts/clean-vpn.js:3341-3346 | after the detach no promise is resolved |
| Stun.WalkTo | scripts/clean-vpn.js:3083-3100 | the attribute walk finds the first attribute of a type with eight bytes or more, in bounds on every message |
| Stun.ParseStunXorMappedAddress | scripts/clean-vpn.js:3078-3102 | computes the specification of the XOR parser |
| Stun.ParseStunMappedFromResponse | scripts/clean-vpn.js:3047-3071 | computes the specification with its fallback |
| Stun.XorBitwise | scripts/clean-vpn.js:3093-3094 | the arithmetic exclusive or is exclusive or on every bit |
| Stun.XorRoundTrip | scripts/clean-vpn.js:3078-3102 | an XOR-MAPPED-ADDRESS (section 15.2 of RFC 5389) among any well-formed padded attributes parses to its address and port |
| Stun.MappedRoundTrip | scripts/clean-vpn.js:3047-3071 | without one, or with one of another family, the first MAPPED-ADDRESS (section 15.1 of RFC 5389) does |
| Stun.MagicWords | scripts/clean-vpn.js:3093-3094 | port and address are combined with the first two and all four octets of the magic cookie |
| Stun.XorOctets | scripts/clean-vpn.js:3078-3102 | the same round trip on a response written out octet by octet |
| Stun.PlainOctets | scripts/clean-vpn.js:3047-3071 | likewise for MAPPED-ADDRESS |
| Stun.OtherTransaction | scripts/clean-vpn.js:3082 | a response for another transaction is refused |
| Addresses.DottedInjective | scripts/clean-vpn.js:3095 | different addresses have different texts |
| Text.DecimalInjective | server/signalling-server.js:183 | different numbers have different decimal texts |
| Text.JoinInjective | native/boring_tls/helper_main.cc:260-276 | joined non-empty parts without the separator can be taken apart in one way only |
| Text.JoinLoop | native/boring_tls/helper_main.cc:520-527 | the joining loop |
| Text.SortPermuted | native/boring_tls/helper_main.cc:416-423 | sorting depends on the elements only |
| FlowKey.FlowKeyRoundTrip | scripts/traffic-classifier.js:586-604 | parsing a canonical key gives back protocol and both ends, ordered by their texts |
| FlowKey.FlowKeyExactly | scripts/traffic-classifier.js:653-660 | keys are equal exactly if protocol and ends are, up to direction |
| FlowKey.RemoteExactly | scripts/traffic-classifier.js:609-622 | the inferred remote end is the same for both directions, and which end it is by ports and private ranges |
| FlowKey.PrivateText | scripts/traffic-classifier.js:576-584 | the text pattern for private addresses decides by the octets |
| FlowKey.ServiceExactly | scripts/traffic-classifier.js:613-614 | service ports are 0 to 1024, 5201, 8080 and 8443 |
| FlowDecisions.Classifier.RecordDecision | scripts/traffic-classifier.js:275-294 | keeps a stronger or equal decision, else replaces it, keeping a known host |
| FlowDecisions.StrongestWins | scripts/traffic-classifier.js:275-294 | after any run a flow's category, source and confidence are those of the last of its strongest records, none is stronger, and its host is the last one named by a record no weaker than those before it |
| FlowDecisions.NeverWeaker | scripts/traffic-classifier.js:275-294 | a flow once decided stays decided, with a confidence that never goes down |
| FlowDecisions.ConfidenceOrder | scripts/traffic-classifier.js:152-159 | the order of the sources |
| FlowDecisions.DestinationIsTold | scripts/traffic-classifier.js:275-294 | a decision's destination comes from a record with its category and source |
| FlowDecisions.EmitsExactly | scripts/traffic-classifier.js:286-294 | each record emits the one event its effect calls for, carrying the decision now in force |
| FlowDecisions.EventsReplay | scripts/traffic-classifier.js:291-292 | the emitted events are well formed (first decision once, changes only to another category) and replay to every flow's current category |

## Left out

- Bridge: server role, transports other than `tcp`, the IPv6 role, packet tracing, `softKeepAliveIdle` and `shouldCountKeepaliveActivity`; each `lazyConnect` resolves with a socket not seen before.
- Bridge: `teardownBusy` has no field, because in the client role no handler runs between its being set and cleared.
- Bridge: the idle timer is on or off, and the event that fires it may come at any time while it is on; how activity postpones it is not part of this model.
- Bridge: `sock.end()` is taken not to throw; kernel buffering, back-pressure and partial delivery appear only as "some prefix of the bytes arrives".
- Writers: the closure `createTcpFramedBatchedWriter` returns is a class in `FrameWriter`, and a value in the bridge's map of connections, so that a dropped connection's writer can still run.
- Reasons of a tear-down that differ in log text only, and all logging.
- Text decoding: server names and ALPN entries stay byte lists; UTF-8 and JSON decoding are not part of this model.
- Hashes: MD5 is left out and truncated SHA-256 is an arbitrary function, so the JA4 theorems hold for any hash.
- Fingerprint: text emission around the fingerprints, profile comparison output and the helper's TLS engine.
- Helper programs: option parsing, ioctls, `select` loops and the TUN-to-stdout direction.
- Signalling: `signal`, `topology-update`, the `exit-nodes` reply, `ping`, and the geo lookup derived from an address; node ids and keys are strings.
- SignallingTheorems.Replication: speaks of the client's map once it has handled the messages sent so far, which its socket delivers in order.
- SlabPool: N-API handles, the mutex and sessions; polls of several sessions are one sequence on the event loop.
- Inbox: predicates are pure, and one that throws counts as refusing.
- CoverLimiter.BurstBound: assumes a clock that does not go back, as `Date.now` may.
- FlowKey: `parseInt` is modelled on text without leading blanks or sign, which keys never contain.
- FlowDecisions: events are recorded as in JSON mode; `dst` is taken as formatted text.
- Classifier scores, DNS caches, HMAC and AES framing, QUIC, HTTP/2 and WebRTC integration: wrappers over libraries, or rules without an invariant to state.
