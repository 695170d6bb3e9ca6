# Verification of the obd2-core protocol stack

A Dafny model of the stateful protocol code of `obd2-core` and proofs about it: ISO-TP (ISO 15765-2) segmentation
and reassembly with flow control, the filtering CAN channel under it, SAE J1939 identifiers, transport protocol and
diagnostic messages, DoIP (ISO 13400-2) framing and diagnostic exchange, the ELM327 adapter's header cache and reply
decoding, the session's security gate and ECU accounting, and the raw-capture log.

Run `dafny verify --resource-limit 2000000 --verification-time-limit 0 dfyconfig.toml`.

## How the model is built

Objects whose methods update fields are classes: `IsoTpTransport`, `NativeCanChannel`, `TpReassembler`,
`DoIpStreamTransport`, `DoIpClient`, `Elm327Adapter`, `Session`, `LoggingTransport`. Each method is proved against a
specification function on a value of the object's state, and the lemmas are about those functions. Loops that build a
result are methods with loops, proved the same way. Link input is a scripted queue with arbitrary contents and faults,
so a statement about every queue is one about every behaviour of the peer. Error texts are reduced to error kinds.

- `Basics.dfy`: bytes, results, error kinds, ceiling division.
- `IsoTp.dfy`: one ISO-TP endpoint as an automaton, and what its blocking calls do. `IsoTpTransport.dfy`: the
  transport class, refining it. `IsoTpDuplex.dfy`: two endpoints on a bus under every interleaving.
  `IsoTpSafety.dfy`: loss, duplication, reordering. `IsoTpCopies.dfy`: what an accepted stream yields.
  `IsoTpBounds.dfy`: block accounting and reception bounds.
- `NativeCan.dfy`: filters, the filtering channel, and its transparency to ISO-TP.
- `J1939Id.dfy`, `J1939Tp.dfy`, `J1939Dm.dfy`, `J1939Dm1.dfy`: identifiers, reassembly, DM25, DM1/DM2.
- `DoIp.dfy`, `DoIpClient.dfy`: framing and stream transport; diagnostic exchange and routing activation.
- `Hex.dfy`, `ElmCodec.dfy`: hexadecimal text and the multi-ECU reply decoder.
- `Elm327.dfy`: the adapter with its device. `ProtocolSelection.dfy`: probing and initialization.
  `HeaderCache.dfy`: the cache refines an adapter without one. `HeaderDrift.dfy`: failing links.
  `ReplyDigits.dfy`: the digits of a reply. `RoutedReplies.dfy`: what a routed command returns.
- `Session.dfy`: the session. `SessionRuns.dfy`: runs of its operations. `SessionSafety.dfy`: actuator safety.
  `SessionRouting.dfy`: names and addresses. `SessionObservations.dfy`: ECU accounting, profile, routing.
- `CaptureLog.dfy`: the capture writer, the parser, and their round trip.

The device of `Elm327.dfy` follows the adapter's own assumptions: the header in force changes only on an `AT SH` that
is answered OK, a fault (`ERR94`, `LV RESET`) restores the broadcast header of the selected protocol, and a fault reply
never also says OK. The device is taken to be on the protocol that the adapter selected.

## Where the code falls short of the plain statement

Each entry names the theorem with the exact condition, and the lemma with an input on which the plain statement fails.

- A J1939 identifier built by `new` with a destination on a PDU2 group does not survive the wire
  (`J1939Id.DecodeInvertsEncodeExactly`; `J1939Id.AddressedPdu2IsLost`).
- A TP transfer of 255 packets accepts repetitions of its last packet after completion, because the sequence counter
  saturates, and 255 of them make a message that nobody sent (`J1939Tp.RunEndsCompleted`,
  `J1939Tp.LatePacketsMakeMessage`; `J1939Tp.LongestMessageAcceptsRepetition`, `J1939Tp.RepetitionsMakeMessage`).
- A DM25 frame that prints as 0xFF throughout is swallowed as padding (`J1939Dm.Dm25ParseInvertsPrintExactly`;
  `J1939Dm.SaturatedFrameIsSwallowed`).
- DM1/DM2 trouble codes that print as a padding group, and lamps whose raw bytes disagree with their fields, are lost
  (`J1939Dm1.ParseInvertsPrintExactly`; `J1939Dm1.ZeroCodeIsLost`, `J1939Dm1.SaturatedCodeIsLost`,
  `J1939Dm1.DisagreeingLampsChange`).
- A consecutive frame misplaced by 16 is accepted; misplacements below that never are
  (`IsoTpSafety.WindowIsSixteen`; `IsoTpSafety.SixteenPlacesOffIsAccepted`). What any accepted stream yields is
  `IsoTpCopies.AcceptedStreamExactly`.
- On a failing link the header cache falls behind the device in exactly three ways: a lost OK to `AT SH`, a lost fault,
  or a fault whose `ATFE` is not answered, provided another header is then in force
  (`HeaderDrift.StaysSyncedExactly`, `HeaderDrift.FirstMissMisdirects`; `HeaderDrift.LostReplyMisdirects`,
  `HeaderDrift.MissedFaultMisdirects`). Before initialization, with no protocol selected, a broadcast goes out under
  whatever header was set last (`HeaderDrift.AutoBroadcastExactly`; `HeaderDrift.AutoMisdirects`).
- The error check reads all hexadecimal digits of a reply in pairs, so what a negative response yields depends on the
  lines around it. To service 0x3F, or to a request shorter than the part its responses repeat, it is returned as a
  payload; after an echo or a search message, or with a code outside the 13 known ones, it ends in a parse error; and a
  known code in an echo or in another refusal after it takes the place of its own
  (`RoutedReplies.NegativeResponseExactly`, `RoutedReplies.NamedErrorExactly`,
  `RoutedReplies.SeveralNegativesReportLast`; `RoutedReplies.NegativeResponsesLost`,
  `RoutedReplies.NegativesLostAmongLines`). After another ECU's payload it is appended to that payload
  (`RoutedReplies.RefusalAfterPayloadExactly`; `RoutedReplies.NegativesLostAmongLines`).
- The channel drops a frame whose number is that of an 11-bit `response_id` but whose width is 29 bits, which ISO-TP on
  the bare link takes (`NativeCan.TransparentExactly`; `NativeCan.OtherWidthIsDropped`).
- Modules are unlocked by name. A driving command goes to another address than the one unlocked exactly if the name
  resolves to another address by then (`SessionRouting.DrivesUnlockedAddressExactly`; `SessionRouting.UnlockMoves`).
  Within one `security_access` the key can go to another address than the seed, since the seed's turn refreshes the
  profile (`SessionRouting.SeedAndKeyTogetherExactly`; `SessionRouting.SeedAndKeyPart`).
- Raw requests can change the diagnostic session, or exchange keys, behind the session's own state; the gate over
  operations holds regardless (`SessionSafety.ControlExactlyAfterExchange`), the one over requests exactly as far as
  they do not (`SessionSafety.RawKeepsGateExactly`; `SessionSafety.RawSessionChangeLeavesUnlocked`).
- A refused re-initialization can leave the discovery profile behind the protocol that the adapter reports
  (`SessionObservations.ProfileExactly`; `SessionObservations.RefusedRestartLeavesProfile`).
- `unescape_str` reads a plus sign and a nonzero digit as a hexadecimal byte, because the radix parser admits the sign;
  escaped text never contains it (`CaptureLog.HexPairExactly`; `CaptureLog.PlusSignIsRead`).
- Annotations are logged unescaped, so a line feed in one starts a line that the parser may read as traffic
  (`CaptureLog.NoteIsHarmlessExactly`; `CaptureLog.NoteReadAsAnswer`).

## Model

| member | source | states |
|---|---|---|
| IsoTpDuplex.DeliversWithoutDeadlock | crates/obd2-core/src/transport/isotp.rs:180-316 | Two endpoints with swapped ids, any PDU of 1 to 4095 bytes within both limits, any block size and padding: under every interleaving of their actions the run is finite, and it can only come to rest with the sender Ok, the receiver holding exactly the PDU, nothing left in flight in either direction, exactly the segments sent, and exactly ceil(ceil((n-6)/7)/BS) flow-control frames (1 if BS is 0) |
| IsoTpDuplex.ReachablePhase | crates/obd2-core/src/transport/isotp.rs:191-316 | Every reachable state of the two endpoints and the frames in flight is one of the legal protocol phases, with all counters, sequence numbers and buffers determined by it |
| IsoTpDuplex.RunsToTheEnd | crates/obd2-core/src/transport/isotp.rs:180-316 | From every reachable state some continuation reaches rest, so no interleaving gets trapped |
| IsoTpDuplex.CallsFollowSchedule | crates/obd2-core/src/transport/isotp.rs:180-247 | Whatever the interleaving, each endpoint is where its own blocking call would be on the frames it was sent: the interleaved machine and the two calls agree |
| IsoTpDuplex.SegmentsReassemble | crates/obd2-core/src/transport/isotp.rs:180-316 | Round trip of the calls: given the receiver's flow control, sending succeeds and emits exactly the segments; given those segments, receiving returns exactly the PDU and emits exactly that flow control |
| IsoTpDuplex.BlocksGranted | crates/obd2-core/src/transport/isotp.rs:206-231 | Despite the saturating u8 block counters, the blocks granted by the time the last frame is in number ceil(m/BS), or 1 for BS = 0 |
| IsoTpDuplex.ConsecutiveFrameAdvances | crates/obd2-core/src/transport/isotp.rs:272-313 | The receiver takes exactly its share of each consecutive frame, padded or not, and answers with flow control exactly at a block end short of the message |
| IsoTpDuplex.SenderMoves | crates/obd2-core/src/transport/isotp.rs:191-234 | An action of the sender in a legal phase leads to a legal phase |
| IsoTpDuplex.ReceiverMoves | crates/obd2-core/src/transport/isotp.rs:236-316 | An action of the receiver in a legal phase leads to a legal phase |
| IsoTpSafety.LossIsDetected | crates/obd2-core/src/transport/isotp.rs:236-316 | Deleting any set of frames from what a sender emitted never yields Ok with a wrong PDU; Ok implies that nothing was lost |
| IsoTpSafety.ReorderingIsDetected | crates/obd2-core/src/transport/isotp.rs:259-315 | If each consecutive frame received is a copy of one sent fewer than 16 places away, Ok implies that every frame was in its place and the PDU is exact |
| IsoTpSafety.AcceptanceImpliesCongruence | crates/obd2-core/src/transport/isotp.rs:276-313 | Whatever copies arrive, Ok implies that each accepted frame is congruent modulo 16 to its place |
| IsoTpSafety.SixteenPlacesOffIsAccepted | crates/obd2-core/src/transport/isotp.rs:282-299 | The window of 16 is sharp: a copy of frame 17 in place of the first one is accepted, and the PDU returned is wrong |
| IsoTpSafety.WindowIsSixteen | crates/obd2-core/src/transport/isotp.rs:276-313 | Misplacements by fewer than w places never yield a wrong PDU exactly if w is at most 16, for every PDU whose first and seventeenth consecutive frames differ |
| IsoTpCopies.AcceptedStreamExactly | crates/obd2-core/src/transport/isotp.rs:259-315 | For every PDU and every stream of copies that is accepted: the result is the first frame's bytes and those of the copies used, cut at the declared length; and with padding, or if every copy fills its place without it, it is the PDU exactly if each copy used carries the bytes of its place |
| IsoTpBounds.SenderObeysBlocks | crates/obd2-core/src/transport/isotp.rs:206-231 | On any link and any flow control, no consecutive frame precedes the first ContinueToSend and no more than the latest nonzero block size follow the latest one |
| IsoTpBounds.ExchangeIsBounded | crates/obd2-core/src/transport/isotp.rs:330-450 | Every exchange takes at most m(W+1)(U+1) frames off the link while it sends a request of m consecutive frames, and at most 9(1+D)(U+1) after that |
| IsoTpBounds.ToleratesExactlyEightPending | crates/obd2-core/src/transport/isotp.rs:433-450 | With up to eight response-pending PDUs in front, the exchange ends with the first other PDU or error; a ninth is a timeout |
| IsoTpBounds.ConsecutiveLowersPotential | crates/obd2-core/src/transport/isotp.rs:272-302 | The reassembly measure strictly falls with every consecutive frame, because empty ones are refused |
| IsoTp.RunEmits | crates/obd2-core/src/transport/isotp.rs:404-418 | An endpoint about to send goes on exactly as the sending helper lets it, a failing link included |
| IsoTp.RunReadsMatching | crates/obd2-core/src/transport/isotp.rs:376-393 | A blocked endpoint goes on exactly as the read loop with its budget of unrelated frames lets it |
| IsoTp.RunAwaitsContinue | crates/obd2-core/src/transport/isotp.rs:330-351 | A sender waiting for flow control goes on exactly as the wait loop with its WAIT budget lets it |
| IsoTpTransport.CanFrameIo.SendFrame | crates/obd2-core/src/transport/isotp.rs:62-65 | A link write: the frame is appended, or the scripted fault is reported and nothing is sent |
| IsoTpTransport.CanFrameIo.RecvFrame | crates/obd2-core/src/transport/isotp.rs:62-65 | A link read: the next inbound item is consumed, a timeout when there is none |
| IsoTpTransport.IsoTpTransport.SendPdu | crates/obd2-core/src/transport/isotp.rs:180-189 | The call sends what the endpoint automaton sends, on every link |
| IsoTpTransport.IsoTpTransport.SendMultiFramePdu | crates/obd2-core/src/transport/isotp.rs:191-234 | The segmentation loop, with its offset, sequence and block counters, refines the automaton |
| IsoTpTransport.IsoTpTransport.RecvPdu | crates/obd2-core/src/transport/isotp.rs:236-247 | The call returns and sends what the endpoint automaton does, on every link |
| IsoTpTransport.IsoTpTransport.RecvMultiFramePdu | crates/obd2-core/src/transport/isotp.rs:249-316 | The reassembly loop refines the automaton |
| IsoTpTransport.IsoTpTransport.DecodeSingle | crates/obd2-core/src/transport/isotp.rs:318-328 | A single frame yields its payload exactly if its length fits the frame |
| IsoTpTransport.IsoTpTransport.WaitForContinueToSend | crates/obd2-core/src/transport/isotp.rs:330-351 | The loop grants, fails on Overflow or times out after the WAIT budget, as the automaton does |
| IsoTpTransport.IsoTpTransport.ReadFlowControl | crates/obd2-core/src/transport/isotp.rs:353-374 | One matching frame decoded as flow control |
| IsoTpTransport.IsoTpTransport.ReadMatchingFrame | crates/obd2-core/src/transport/isotp.rs:376-393 | The loop skips foreign frames within the budget and hands out the first matching one |
| IsoTpTransport.IsoTpTransport.SendFlowControl | crates/obd2-core/src/transport/isotp.rs:395-402 | The flow-control frame carries status, block size and separation time |
| IsoTpTransport.IsoTpTransport.SendFrameData | crates/obd2-core/src/transport/isotp.rs:404-418 | Padding to 8 bytes if configured, and one frame on the link |
| IsoTpTransport.IsoTpTransport.ExchangePdu | crates/obd2-core/src/transport/isotp.rs:170-178 | One request PDU, one response PDU |
| IsoTpTransport.IsoTpTransport.Exchange | crates/obd2-core/src/transport/isotp.rs:433-450 | The request goes out once; the response-pending loop returns what the specification of the final PDU says |
| NativeCan.ForeignFramesAreInvisible | crates/obd2-core/src/transport/isotp.rs:376-393 | Inserting up to the budgeted number of valid foreign frames before each expected one changes neither the outcome nor what is sent |
| NativeCan.ChannelIsTransparent | crates/obd2-core/src/adapter/native_can.rs:170-190 | ISO-TP run over the filtering channel, every frame sent and received going through it, reports and puts on the bus what it does on the bare link, if the channel can name every identifier and its filters accept every frame that ISO-TP would take, within both budgets |
| NativeCan.TransparentExactly | crates/obd2-core/src/adapter/native_can.rs:170-216 | For any set of valid frames: the channel shows on some link that brings only these, within both budgets, exactly if one of them is not such a frame |
| NativeCan.AgreeingWidthsAreHarmless | crates/obd2-core/src/adapter/native_can.rs:192-216 | Frames whose width flag agrees with their identifier are such frames if the filters accept response_id |
| NativeCan.OtherWidthIsDropped | crates/obd2-core/src/adapter/native_can.rs:180-216 | A 29-bit frame with the number of an 11-bit response_id is delivered on the bare link and dropped by the channel |
| NativeCan.ChannelTransmitsAll | crates/obd2-core/src/adapter/native_can.rs:170-216 | The channel refuses no frame that ISO-TP builds |
| NativeCan.ChannelFeedsThrough | crates/obd2-core/src/adapter/native_can.rs:180-190 | Calling through the channel, receive by receive, is calling on the stream of what it hands out |
| NativeCan.ChannelOnlyStrips | crates/obd2-core/src/adapter/native_can.rs:180-190 | The channel removes foreign frames only, keeps the rest in order and lengthens no gap |
| NativeCan.NoisySegmentsReassemble | crates/obd2-core/src/adapter/native_can.rs:180-190 | A segmented PDU in the middle of budgeted traffic, seen through the channel, is still received exactly |
| NativeCan.TimeoutAtTheEnd | crates/obd2-core/src/adapter/native_can.rs:180-190 | A link that runs dry inside a gap is seen as the same timeout as an empty link |
| NativeCan.NativeCanChannel.SendFrame | crates/obd2-core/src/adapter/native_can.rs:170-178 | A frame with an identifier out of range is refused; any other is passed on unchanged |
| NativeCan.NativeCanChannel.RecvFrame | crates/obd2-core/src/adapter/native_can.rs:180-190 | The loop hands out the first accepted frame within the budget, an error at once, a timeout when the budget is spent |
| J1939Id.EncodeInvertsDecode | crates/obd2-core/src/protocol/j1939.rs:300-335 | encode(decode(x)) = x for every 29-bit x, and nothing wider decodes |
| J1939Id.DecodeInvertsEncodeExactly | crates/obd2-core/src/protocol/j1939.rs:147-335 | For an identifier that new accepts, the encoding fits 29 bits, and decoding returns it exactly when a destination is present iff the group is PDU1 |
| J1939Id.AddressedPdu2IsLost | crates/obd2-core/src/protocol/j1939.rs:268-335 | A PDU2 group that new accepts with a destination, and that decodes without it |
| J1939Id.Fields | crates/obd2-core/src/protocol/j1939.rs:311-335 | Priority, data page, format, specific byte and source are read back from any identifier put together from them, which fits 29 bits |
| J1939Tp.MessageReassembles | crates/obd2-core/src/protocol/j1939.rs:791-873 | For every message of 1 to 1785 bytes the numbered packets rebuild it exactly at the last packet and never earlier |
| J1939Tp.BufferInvariant | crates/obd2-core/src/protocol/j1939.rs:828-858 | In every state reachable before completion, by any packets, the buffer is the first min(7(next-1), size) bytes of the data accepted |
| J1939Tp.CompletesAtLastPacket | crates/obd2-core/src/protocol/j1939.rs:828-858 | Any run of packets completes exactly when the last numbered packet is accepted, and then with the first size bytes accepted |
| J1939Tp.LatePacketsRejected | crates/obd2-core/src/protocol/j1939.rs:828-858 | After completion every later packet is rejected exactly when the transfer took fewer than 255 packets: at 255 the saturating counter admits the last packet again |
| J1939Tp.CompletedForEver | crates/obd2-core/src/protocol/j1939.rs:828-858 | A completed transfer of fewer than 255 packets stays as it is under every further run of packets |
| J1939Tp.RunEndsCompleted | crates/obd2-core/src/protocol/j1939.rs:828-858 | The run that completes a message leaves the transfer as it is under every later run of packets exactly when it took fewer than 255 packets |
| J1939Tp.LongestMessageAcceptsRepetition | crates/obd2-core/src/protocol/j1939.rs:791-858 | Any 1785-byte message run to its end: its last packet repeated is accepted, into an empty buffer |
| J1939Tp.LatePacketsMakeMessage | crates/obd2-core/src/protocol/j1939.rs:828-858 | After a transfer of 255 packets, further packets numbered 255 are all accepted; the 255th completes a message of their data and leaves the transfer as it was |
| J1939Tp.RepetitionsMakeMessage | crates/obd2-core/src/protocol/j1939.rs:791-858 | 255 repetitions of the last packet of a 1785-byte message deliver its seven bytes 255 times as a second message |
| J1939Tp.PacketRoundTrip | crates/obd2-core/src/protocol/j1939.rs:755-778 | A data packet survives printing and parsing |
| J1939Tp.StartIsFresh | crates/obd2-core/src/protocol/j1939.rs:791-826 | A transfer is opened only with consistent size and packet count, empty and at packet 1 |
| J1939Tp.PacketsRebuild | crates/obd2-core/src/protocol/j1939.rs:755-873 | After n of its packets the buffer is the first 7n bytes of the message; after the last, the message is delivered and the buffer empty |
| J1939Tp.TpReassembler.AcceptDt | crates/obd2-core/src/protocol/j1939.rs:828-858 | The method computes outcome and new state of the specification; a rejected packet leaves the state unchanged |
| J1939Dm.DtcRoundTrip | crates/obd2-core/src/protocol/j1939.rs:995-1047 | An in-range trouble code survives printing and parsing |
| J1939Dm.BytesRoundTrip | crates/obd2-core/src/protocol/j1939.rs:995-1047 | Any four bytes survive parsing and printing |
| J1939Dm.Dm25ParseInvertsPrintExactly | crates/obd2-core/src/protocol/j1939.rs:1272-1551 | Printed DM25 frames plus uniform padding parse back exactly unless the last frame and the padding are 0xFF throughout |
| J1939Dm.SaturatedFrameIsSwallowed | crates/obd2-core/src/protocol/j1939.rs:1517-1529 | The frame that prints as 256 bytes of 0xFF parses back as no frame |
| J1939Dm.Dm25PrintInvertsParse | crates/obd2-core/src/protocol/j1939.rs:1517-1551 | Printing any Ok parse gives a prefix of the input; what is left is empty, all 0xFF or starts with 0x00 |
| J1939Dm.ParseDm25Message | crates/obd2-core/src/protocol/j1939.rs:1517-1551 | The parsing loop computes the specification, errors included; it terminates since each frame takes at least 5 bytes |
| J1939Dm.Dm25ToPayload | crates/obd2-core/src/protocol/j1939.rs:1272-1312 | The printing loop computes the specification, errors included |
| J1939Dm1.ParseInvertsPrintExactly | crates/obd2-core/src/protocol/j1939.rs:1557-1592 | For in-range codes and uniform padding of any length, DM1/DM2 parses back exactly when the raw lamp bytes agree with the decoded lamps and no code prints as padding |
| J1939Dm1.ZeroCodeIsLost | crates/obd2-core/src/protocol/j1939.rs:1557-1588 | A message with the all-zero code prints, and parses back without it |
| J1939Dm1.SaturatedCodeIsLost | crates/obd2-core/src/protocol/j1939.rs:1557-1588 | A message with the code that prints as 0xFF throughout parses back without it |
| J1939Dm1.DisagreeingLampsChange | crates/obd2-core/src/protocol/j1939.rs:1148-1197 | Lamps whose raw byte disagrees with the fields come back with another raw byte |
| J1939Dm1.PrintInvertsParse | crates/obd2-core/src/protocol/j1939.rs:1185-1197 | Printing any parsed DM1/DM2 message gives the input with its padding groups removed |
| J1939Dm1.LampRoundTrip | crates/obd2-core/src/protocol/j1939.rs:1148-1183 | Lamps parse back from their wire form exactly when their raw bytes agree with it |
| J1939Dm1.ParsedLampsAgree | crates/obd2-core/src/protocol/j1939.rs:1149-1162 | Parsed lamps always agree with their raw bytes |
| J1939Dm1.GroupsInvertPrint | crates/obd2-core/src/protocol/j1939.rs:1557-1592 | Printed codes parse back in order, except those that print as a padding group |
| J1939Dm1.ParseDmDtcMessage | crates/obd2-core/src/protocol/j1939.rs:1557-1588 | The parsing loop computes the specification: short input and a trailing partial group that is not padding are errors |
| J1939Dm1.DmDtcMessageToPayload | crates/obd2-core/src/protocol/j1939.rs:1185-1197 | The printing loop computes the specification, errors included |
| DoIp.ChunkingIrrelevant | crates/obd2-core/src/protocol/doip.rs:234-252 | On any byte stream, any split into chunks yields the packets, the error and the tail that the whole stream yields |
| DoIp.StreamRoundTrip | crates/obd2-core/src/protocol/doip.rs:213-259 | The encodings of constructible messages with canonical types, split anywhere and followed by an incomplete tail, are decoded to exactly those messages with the tail kept |
| DoIp.PrefixStable | crates/obd2-core/src/protocol/doip.rs:234-252 | A complete packet or a malformed header stays what it is when more bytes arrive |
| DoIp.PrefixRoundTrip | crates/obd2-core/src/protocol/doip.rs:122-166 | A message encoded at the front of any stream is parsed back, with the length it took, exactly if it is constructible |
| DoIp.ParseAgreesWithPrefix | crates/obd2-core/src/protocol/doip.rs:213-252 | parse accepts a buffer exactly when parse_prefix consumes all of it, with the same message |
| DoIp.ReceiveAgreesWithPrefix | crates/obd2-core/src/protocol/doip.rs:564-572 | Header-then-body reading agrees with parse_prefix on every stream: message, malformed header or too few bytes |
| DoIp.ReceivesWhatWasSent | crates/obd2-core/src/protocol/doip.rs:557-572 | The messages sent are the messages received over a byte stream, each leaving the rest of the stream untouched |
| DoIp.TypesAreCanonical | crates/obd2-core/src/protocol/doip.rs:44-89 | Payload types read from the wire are canonical and survive the round trip |
| DoIp.DoIpStreamTransport.Send | crates/obd2-core/src/protocol/doip.rs:557-562 | What reaches the stream is a front of the encoding, all of it exactly if both writes fit; Ok exactly if the flush succeeds too |
| DoIp.DoIpStreamTransport.Recv | crates/obd2-core/src/protocol/doip.rs:564-572 | Header and body are read and the rest of the stream is left |
| DoIpClient.DiagnosticExchangeExactly | crates/obd2-core/src/protocol/doip.rs:661-731 | Over any sequence of received messages the exchange returns Ok(d) exactly when, within the first 16, only well-formed correctly addressed positive acknowledgements precede a correctly addressed diagnostic message carrying d; it never reads more than 16 |
| DoIpClient.JudgesByTheWire | crates/obd2-core/src/protocol/doip.rs:674-731 | What one message means to the exchange, in terms of its payload bytes |
| DoIpClient.DiagnosticRoundTrip | crates/obd2-core/src/protocol/doip.rs:294-315 | Diagnostic payloads survive printing and parsing, in both directions |
| DoIpClient.DoIpClient.SendDiagnostic | crates/obd2-core/src/protocol/doip.rs:661-717 | The request goes out once before anything is read; the loop returns the specified answer |
| DoIpClient.DoIpClient.RoutingActivation | crates/obd2-core/src/protocol/doip.rs:612-659 | One request carrying the tester address goes out before one message is read; the entity address is adopted exactly from a well-formed response addressed to the tester |
| CaptureLog.UnescapeInvertsEscape | crates/obd2-core/src/transport/logging.rs:21-306 | unescape(escape(b)) = b for every byte string |
| CaptureLog.HexPairExactly | crates/obd2-core/src/transport/logging.rs:285-290 | Two characters after a hexadecimal escape are read as two digits, or as zero, exactly unless a plus sign precedes a nonzero digit |
| CaptureLog.PlusSignIsRead | crates/obd2-core/src/transport/logging.rs:285-290 | A text that escaping never produces and that is read as a byte because of its plus sign |
| CaptureLog.EscapedIsOneLine | crates/obd2-core/src/transport/logging.rs:21-34 | Escaped text holds no line break |
| CaptureLog.CaptureRoundTrip | crates/obd2-core/src/transport/logging.rs:167-349 | Whatever was logged, in any order, with chunk lines and annotations none of whose later lines reads as a W or R line, parsing the file pairs each read with the latest unanswered write, byte for byte, less one trailing carriage return |
| CaptureLog.NoteIsHarmlessExactly | crates/obd2-core/src/transport/logging.rs:174-349 | An annotation leaves the conversation around it alone, whatever that is, exactly if none of its lines after the first reads as a W or R line |
| CaptureLog.NoteReadAsAnswer | crates/obd2-core/src/transport/logging.rs:174-349 | An annotation with a line feed that is taken for the response to the write before it |
| CaptureLog.AlternatingRoundTrip | crates/obd2-core/src/transport/logging.rs:208-349 | For an alternating run of writes and reads, with such annotations anywhere, the parser returns exactly the pairs, in order |
| CaptureLog.ParsesLine | crates/obd2-core/src/transport/logging.rs:308-349 | One line of the file is taken apart into direction and payload, less a carriage return at its end, whatever follows it |
| CaptureLog.EscapeBytes | crates/obd2-core/src/transport/logging.rs:21-42 | The escaping loop computes the specification |
| CaptureLog.UnescapeStr | crates/obd2-core/src/transport/logging.rs:272-306 | The unescaping loop, driven by a character iterator, computes the specification |
| CaptureLog.ParseRawCapture | crates/obd2-core/src/transport/logging.rs:308-349 | The parsing loop with its pending write computes the specification |
| CaptureLog.LoggingTransport.Write | crates/obd2-core/src/transport/logging.rs:208-211 | The bytes are logged before they are written, a failing write included; the file stays the rendering of the entries |
| CaptureLog.LoggingTransport.Read | crates/obd2-core/src/transport/logging.rs:213-218 | A successful read logs its chunks and then its bytes; a failing one logs nothing and keeps the chunks |
| CaptureLog.LoggingTransport.Annotate | crates/obd2-core/src/transport/logging.rs:174-180 | An annotation is one entry of the file |
| CaptureLog.LoggingTransport.LogLine | crates/obd2-core/src/transport/logging.rs:167-172 | One line with time stamp, direction and escaped data |
| CaptureLog.LoggingTransport.FlushChunks | crates/obd2-core/src/transport/logging.rs:182-191 | The chunk buffer is drained into comment lines |
| Hex.ParsesRendered | crates/obd2-core/src/protocol/hex.rs:3-26 | Rendered bytes, spaced or compact, parse back exactly |
| Hex.CompactIsPaired | crates/obd2-core/src/protocol/hex.rs:28-45 | The nibble-toggling parse is the pairwise parse of the text without its white space |
| Hex.ParseHexTokens | crates/obd2-core/src/protocol/hex.rs:8-26 | The loop over tokens computes the specification; odd or non-hex tokens are errors |
| Hex.ParseCompactHex | crates/obd2-core/src/protocol/hex.rs:28-45 | The loop with its pending nibble computes the specification; an odd digit count is an error |
| ElmCodec.DecodeInvertsRendering | crates/obd2-core/src/adapter/elm_codec.rs:36-109 | For every command of at least skip >= 1 bytes and every reply whose lines are rendered responses, spaced or compact, with blank, echo and SEARCHING lines anywhere and status lines after the first payload: the decoder returns exactly the payloads in order, for every bus family, or a parse error if there is none; another response (a negative one, say) is dropped before the first payload and appended to the payload in progress after it |
| ElmCodec.DecodesLines | crates/obd2-core/src/adapter/elm_codec.rs:47-94 | The same from every state of the loop: payloads completed, payload in progress, lines to come |
| ElmCodec.DecodesAsOne | crates/obd2-core/src/adapter/elm_codec.rs:47-94 | From a request too short to tell its responses by, all response lines come out as one payload |
| ElmCodec.RenderingIsNoEcho | crates/obd2-core/src/adapter/elm_codec.rs:190-205 | A rendered response never reads as an echo of its command |
| ElmCodec.SplitInvertsJoin | crates/obd2-core/src/adapter/elm_codec.rs:47-47 | Splitting a response at carriage returns and line feeds undoes joining its lines |
| ElmCodec.ExpectedPrefix | crates/obd2-core/src/adapter/elm_codec.rs:96-109 | A prefix exists exactly if skip > 0 and the command reads as at least skip bytes; it is those bytes with 0x40 added, modulo 256, to the first |
| ElmCodec.DecodePayloadsForCommand | crates/obd2-core/src/adapter/elm_codec.rs:36-94 | The decoding loop computes the specification |
| ElmCodec.LineMatchesCommandEcho | crates/obd2-core/src/adapter/elm_codec.rs:190-205 | The comparison loop holds exactly for a nonempty line that equals the command up to white space and case |
| HeaderCache.HeaderCacheRefines | crates/obd2-core/src/adapter/elm327.rs:154-165 | After a successful initialize of a fresh adapter, on every run whose link does not fail, the bus sees the same requests under the same headers, and the caller the same outcomes, as with an adapter that sends the target's header every time, across fault recovery |
| HeaderDrift.EachUnderItsHeader | crates/obd2-core/src/adapter/elm327.rs:221-310 | On any link, failing ones included: as long as no request misses, each one that reaches the device goes out under its own target's header |
| HeaderDrift.StaysSyncedExactly | crates/obd2-core/src/adapter/elm327.rs:154-310 | On any link a request leaves a synchronised cache synchronised exactly unless it misses: a fault or an OK to AT SH whose reply is lost, or a fault whose ATFE is not answered, with another header in force |
| HeaderDrift.SyncedIffNextIsRight | crates/obd2-core/src/adapter/elm327.rs:221-310 | The cache is in step exactly when every request that could come next, whatever the link makes of it, goes out under its own target's header |
| HeaderDrift.SyncedExactly | crates/obd2-core/src/adapter/elm327.rs:221-224 | The cache is in step exactly when every header that would not be sent is already in force |
| HeaderDrift.FirstMissMisdirects | crates/obd2-core/src/adapter/elm327.rs:221-310 | Over runs, from an adapter in step: the first request to miss, and no request before it, makes some request after it go out under another header than its own target's |
| HeaderDrift.WorkingLinkNeverMisses | crates/obd2-core/src/adapter/elm327.rs:154-310 | A run whose link does not fail has no misses |
| HeaderDrift.ShownHeader | crates/obd2-core/src/adapter/elm327.rs:242-310 | From any state with a protocol selected, the header a request goes out under: the one in force if none was sent, its own target's otherwise |
| HeaderCache.RunRefines | crates/obd2-core/src/adapter/elm327.rs:221-310 | The refinement from every state in which the cache tells the header in force |
| HeaderCache.RequestRefines | crates/obd2-core/src/adapter/elm327.rs:242-310 | One request: same outcome, same traffic, and the cache still tells the header in force |
| HeaderCache.SendLocal | crates/obd2-core/src/adapter/elm327.rs:59-176 | One command, with recovery if the reply is a fault: what it does to either adapter depends only on the replies it takes |
| HeaderCache.InitializeSyncs | crates/obd2-core/src/adapter/elm327.rs:547-632 | A successful initialize leaves a protocol selected, the cache empty and no header set on the device, through every branch of the probe loop |
| ProtocolSelection.ProbeSelectsFirst | crates/obd2-core/src/adapter/elm327.rs:488-611 | In every prefix of candidates that the vehicle does not answer: the loop goes on exactly to the first candidate whose 0100 reply is the vehicle's, which it selects; the first failing exchange before that is its error; and it selects none exactly if all decline |
| ProtocolSelection.ProbeExactly | crates/obd2-core/src/adapter/elm327.rs:599-611 | So the result for every candidate list and every link: none, an error, or the first candidate that the vehicle answers |
| ProtocolSelection.InitializesWhenAnswered | crates/obd2-core/src/adapter/elm327.rs:547-632 | On a link that answers without a fault, when the ninth reply is the vehicle's to the query 0100: initialization ends with the protocol that the tenth reply names, after the settings of that protocol, or in an error if it names none |
| ProtocolSelection.InitializesByProbing | crates/obd2-core/src/adapter/elm327.rs:547-632 | When the ninth reply is not the vehicle's: initialization ends with the first of the fallback candidates whose second reply is, after the settings of that protocol, or in an error if none is |
| ProtocolSelection.SuchReplyExists | crates/obd2-core/src/adapter/elm327.rs:486-497 | A concrete text that serves as any of these replies |
| HeaderCache.HeaderTextIdentifies | crates/obd2-core/src/adapter/elm327.rs:242-264 | Header texts are equal exactly when they name the same kind of header with the same content, so a cache hit is never another module's |
| HeaderDrift.LostReplyMisdirects | crates/obd2-core/src/adapter/elm327.rs:221-240 | A lost OK to AT SH sends the next broadcast out under the module's header |
| HeaderDrift.MissedFaultMisdirects | crates/obd2-core/src/adapter/elm327.rs:154-165 | A fault whose reply is lost, or whose ATFE is not delivered, sends the next request to the same module out under the broadcast header |
| HeaderDrift.AutoMisdirects | crates/obd2-core/src/adapter/elm327.rs:266-294 | From a new adapter that was not initialized: a broadcast after a module request goes out under the module's header |
| HeaderDrift.AutoBroadcastExactly | crates/obd2-core/src/adapter/elm327.rs:266-294 | Without a protocol a broadcast goes out under whatever header is set on the device, so as a broadcast exactly if none is |
| Elm327.ElmLink.WriteRead | crates/obd2-core/src/adapter/elm327.rs:69-78 | One command and its reply: the device sets a header only on an AT SH answered OK, a fault restores the broadcast header; lost replies and failed writes are reported |
| Elm327.Elm327Adapter.SendCommand | crates/obd2-core/src/adapter/elm327.rs:60-67 | A reply with a fault runs the recovery before it is returned |
| Elm327.Elm327Adapter.RecoverFromAdapterFault | crates/obd2-core/src/adapter/elm327.rs:154-176 | The cache is cleared once ATFE was exchanged, and the defaults follow |
| Elm327.Elm327Adapter.ApplyHeader | crates/obd2-core/src/adapter/elm327.rs:221-240 | Nothing is sent for the cached header; the cache is set only after OK |
| Elm327.Elm327Adapter.ClearTargets | crates/obd2-core/src/adapter/elm327.rs:266-294 | An empty cache sends nothing; otherwise the protocol's broadcast header is set |
| Elm327.Elm327Adapter.Aim | crates/obd2-core/src/adapter/elm327.rs:242-264 | The header of the address, or an error for J1939 |
| Elm327.Elm327Adapter.SendRoutedCommand | crates/obd2-core/src/adapter/elm327.rs:296-345 | The target is applied first, and nothing is sent if that fails; the reply is decoded to its first payload, truncated for a known PID, or to the error it reports |
| Elm327.Elm327Adapter.CompactResponseBytes | crates/obd2-core/src/adapter/elm327.rs:448-467 | The loop with its pending nibble pairs the hexadecimal digits of a text |
| RoutedReplies.RepliesDecode | crates/obd2-core/src/adapter/elm327.rs:310-446 | For every request as long as the part its responses repeat and every such reply: the first payload, truncated for a known PID; and without one the error that the hexadecimal digits of the whole reply, read in pairs, name |
| RoutedReplies.ShortRequestTakesAll | crates/obd2-core/src/adapter/elm327.rs:310-446 | A shorter request takes all response lines for one payload, negative ones included |
| RoutedReplies.NegativeResponseExactly | crates/obd2-core/src/adapter/elm327.rs:319-446 | What a reply with one negative response of three or more bytes yields, among any blank, echo and SEARCHING lines, the closing prompt included: the response as a payload for a request shorter than the part its responses repeat, or for service 0x3F; a parse error if an echo or SEARCHING line comes first; and otherwise the service in the response with the last known code in it or in the digits after it, or a parse error if there is none |
| RoutedReplies.NamedErrorExactly | crates/obd2-core/src/adapter/elm327.rs:319-446 | The error that the response names is reported exactly if the request is long enough, its service is not 0x3F, no hexadecimal digit precedes the response, and no other known code comes last after it |
| RoutedReplies.SeveralNegativesReportLast | crates/obd2-core/src/adapter/elm327.rs:319-446 | Several refusals, with no echo and no search message: the service in the first and the last known code in any of them |
| RoutedReplies.RefusalAfterPayloadExactly | crates/obd2-core/src/adapter/elm327.rs:319-358 | After a payload, the other responses that follow are appended to it; the caller gets what the first ECU answered exactly if there is none, or truncation for a known PID cuts them off |
| RoutedReplies.UsualNegativesAreNamed | crates/obd2-core/src/adapter/elm327.rs:911-930 | The replies 7F2231 and 7F22162F12, ended by a carriage return and the prompt, name the codes 0x31 and 0x12 |
| RoutedReplies.NegativesLostAmongLines | crates/obd2-core/src/adapter/elm327.rs:429-446 | One input for each way that other lines lose or replace a known code: SEARCHING first, an echo first, an echo after it, a second refusal, and another ECU's payload first |
| RoutedReplies.TextsSpelledOut | crates/obd2-core/src/adapter/elm327.rs:429-446 | The text of two of these replies |
| RoutedReplies.NegativeResponsesLost | crates/obd2-core/src/error.rs:38-55 | One input for each failing case of a response on its own: service 0x3F, a short request, and the unknown code 0x7F |
| Elm327.Elm327Adapter.ProbeFallbacks | crates/obd2-core/src/adapter/elm327.rs:600-611 | The probe loop selects the first candidate under which the vehicle answers |
| Elm327.Elm327Adapter.ChooseProtocol | crates/obd2-core/src/adapter/elm327.rs:579-611 | The protocol the adapter reports after an automatic search, or that of the probe loop |
| Elm327.Elm327Adapter.Initialize | crates/obd2-core/src/adapter/elm327.rs:547-632 | An initialized adapter is left alone; otherwise protocol, cache and device end as specified, initialized exactly on success |
| SessionSafety.ActuatorsAreGated | crates/obd2-core/src/session/mod.rs:790-936 | Over every run of a new session whose raw requests leave services 0x10, 0x27 and 0x2F alone, a driving 0x2F request goes out for a module, by its name, only if a seed/key exchange for it succeeded earlier with no diagnostic session entered or ended on any module since; and a module is unlocked exactly as long as that is so |
| SessionSafety.ControlExactlyAfterExchange | crates/obd2-core/src/session/mod.rs:790-936 | At any point of any run of a new session, any raw requests included: actuator_control sends nothing and is refused unless security_access succeeded on the module with an accepted key and no enter or end of a diagnostic session succeeded since; and if so, the command goes out as soon as the module can be routed |
| SessionSafety.UnlockedIffExchanged | crates/obd2-core/src/session/mod.rs:790-863 | Over every run of a new session, of any operations, a module is unlocked exactly if an exchange on it succeeded and no operation entered or ended a diagnostic session since |
| SessionSafety.UnlockedExactly | crates/obd2-core/src/session/mod.rs:790-936 | The exact effect of every operation on every module's unlock |
| SessionSafety.GateKeptExactly | crates/obd2-core/src/session/mod.rs:790-936 | A request that leaves the diagnostic state alone keeps log and unlocks in agreement exactly unless it changes the session of an unlocked module or completes a key exchange for a locked one |
| SessionSafety.RawKeepsGateExactly | crates/obd2-core/src/session/mod.rs:1020-1065 | The same for raw requests of any service |
| SessionRouting.DrivesUnlockedAddressExactly | crates/obd2-core/src/session/mod.rs:790-1229 | In every such run a driving command goes to the address at which its module's key was accepted exactly if the module resolves to the same address at both handovers; and that key went where its seed went exactly if the module resolved alike at those two |
| SessionRouting.SeedAndKeyTogetherExactly | crates/obd2-core/src/session/mod.rs:825-863 | Seed and key of an accepted exchange go to one address exactly if the profile that the seed's turn leaves behind resolves the module as the profile before the call did |
| SessionRouting.SeedAndKeyPart | crates/obd2-core/src/session/mod.rs:825-863 | A run from a new session in which the seed goes to the address that the profile before the call names and the key to another |
| SessionRouting.ControlDrivesUnlockedExactly | crates/obd2-core/src/session/mod.rs:790-897 | In any run of a new session, raw requests included: after an exchange whose seed and key went to one address, with no session change since, actuator_control drives that address exactly if the profile before it resolves the module as the profile before security_access did |
| SessionRouting.SteadyRunsKeepAddresses | crates/obd2-core/src/session/mod.rs:1196-1229 | While neither specification nor reported protocol changes, every request for a module goes to one and the same address |
| SessionRouting.RunMatches | crates/obd2-core/src/session/mod.rs:1173-1229 | Every request of a run goes to the address its module resolves to when it is handed over |
| SessionRouting.AdoptMovesUnlock | crates/obd2-core/src/session/mod.rs:488-505 | From any state with an unlocked module: adopting another specification and driving the module sends the command to the address the new one declares |
| SessionRouting.UnlockMoves | crates/obd2-core/src/session/mod.rs:478-897 | From a new session, a run in which the module is unlocked at one address and driven at another, to which nothing was sent before |
| SessionSafety.ControlExactlyWhenEarned | crates/obd2-core/src/session/mod.rs:870-897 | In terms of the requests logged: actuator control is refused with nothing sent unless the exchange was earned; if it was, the specified request goes to the module as soon as it can be routed |
| SessionSafety.GateStep | crates/obd2-core/src/session/mod.rs:790-936 | Every operation keeps log and unlocks in agreement, raw requests with the services above excepted |
| SessionSafety.RawSessionChangeLeavesUnlocked | crates/obd2-core/src/session/mod.rs:1020-1033 | Raw requests are outside the guarantee: a session changed by one leaves the module unlocked in the session's state |
| SessionObservations.ObservationsAreConserved | crates/obd2-core/src/session/mod.rs:1003-1308 | Over every run of a new session, re-initializations and voltage queries included, visible ECUs are pairwise distinct, each is counted once per request to it handed to the adapter, it is listed exactly if there was one, the discovery profile shows the live list, and no request is left in flight |
| SessionObservations.ProfileExactly | crates/obd2-core/src/session/mod.rs:1133-1140 | Over every run the discovery profile is what specification and live list resolve to under the protocol of the last refresh; it is up to date exactly if they resolve to the same under the protocol reported now, and always if no re-initialization was refused |
| SessionObservations.StepRefreshes | crates/obd2-core/src/session/mod.rs:1133-1277 | Every operation that takes an adapter turn or a specification refreshes the profile, a refused re-initialization excepted; the others change nothing |
| SessionObservations.RefusedRestartLeavesProfile | crates/obd2-core/src/session/mod.rs:136-147 | A run in which a refused re-initialization leaves another bus active in the profile than the reported protocol calls for |
| SessionObservations.StepConserves | crates/obd2-core/src/session/mod.rs:1173-1194 | Every operation keeps the accounting, failing requests included |
| SessionObservations.RecordCounts | crates/obd2-core/src/session/mod.rs:1291-1308 | Recording raises the count of the addressed ECU by one and no other |
| SessionObservations.RequestsGoToDeclaredModules | crates/obd2-core/src/session/mod.rs:1196-1229 | A module request is resolved only to an address the specification declares for that module, on the bus active under the protocol of the profile |
| SessionObservations.ResolvesDeclared | crates/obd2-core/src/session/discovery.rs:88-128 | Resolved modules are declared ones of the buses in play, under their own name |
| Session.IndexOf | crates/obd2-core/src/session/mod.rs:1296-1296 | The first ECU with the address, or the end of the list |
| Session.Session.Enter | crates/obd2-core/src/session/mod.rs:790-815 | The diagnostic state changes exactly on success, and unlocks are dropped |
| Session.Session.Unlock | crates/obd2-core/src/session/mod.rs:825-863 | Empty seed is an error, an all-zero seed succeeds without unlocking, an accepted key unlocks the module |
| Session.Session.Control | crates/obd2-core/src/session/mod.rs:869-897 | Refused unless unlocked; otherwise the request with the command's bytes |
| Session.Session.Release | crates/obd2-core/src/session/mod.rs:900-910 | Control is handed back without a gate |
| Session.Session.Raw | crates/obd2-core/src/session/mod.rs:1020-1033 | A request to a module or to all, after initialization |
| Session.Session.RawPhysical | crates/obd2-core/src/session/mod.rs:1040-1065 | A request to a given address, recorded like any other |
| Session.Session.Voltage | crates/obd2-core/src/session/mod.rs:1003-1017 | An adapter turn that is no request: events applied, the flag cleared on every path |
| Session.Session.Send | crates/obd2-core/src/session/mod.rs:1173-1194 | Refused while one is in flight; an unresolved module is neither recorded nor sent |
| Session.Session.Hand | crates/obd2-core/src/session/mod.rs:1185-1193 | Recorded before it is handed over; events applied after; the in-flight flag is cleared on every path |
| Session.Session.RecordVisibleTarget | crates/obd2-core/src/session/mod.rs:1291-1308 | The search loop and the update compute the specified list |
| Session.Session.ApplyAdapterEvents | crates/obd2-core/src/session/mod.rs:1242-1277 | The event loop computes the specified connection state and refreshes the profile of an initialized session |
| Session.Session.RunInitialize | crates/obd2-core/src/session/mod.rs:136-147 | Initialized, connected and with a fresh profile exactly if the adapter initializes |
| Session.Session.AdoptSpec | crates/obd2-core/src/session/mod.rs:488-505 | The matched specification is adopted and the profile refreshed |

## Left out

- Separation times: `st_min_duration` and the sleeps it causes; no timeouts on a clock, a link that has nothing more to
  say reports a timeout.
- Concurrency inside one session and cancellation of a request half-way; the in-flight flag is modelled, and no run
  without cancellation leaves it set.
- ISO-TP over the channel is a run of the endpoint automaton with the channel's send and receive functions, not one
  object holding another.
- Capture files: creation, renaming, stopping and the time stamps' values.
- CaptureLog.ParseRawCapture: yields bytes, where the source decodes them as UTF-8 with replacement characters; for ASCII
  the two are the same.
- The headers-on heuristics of each bus family in `decode_line`: a parameter of the decoder model, so that its theorems
  hold for every family.
- ELM327: adapter events, chipset detection, `supported_pids` and the battery voltage; response lengths by PID and
  the headers-on heuristics are parameters of a routed command.
- Session.Session.RecordVisibleTarget: an ECU is named by its address where the source uses the address's debug text,
  and the observation count is unbounded where the source has 32 bits.
- Matching a specification to a VIN: the specification adopted is arbitrary, and the queries before it are ordinary
  requests.
- J1939: DM5, DM24, parameter-group decoders, address claims, the TP control-message wire format.
- DoIP: vehicle identification, generic negative acknowledgement payloads beyond their effect on an exchange.
- Serial and Bluetooth links, capability negotiation, route planning, description tables, PID formulas, thresholds and
  YAML specifications.
- Replies with lines in lower case, a search message and a response on one line, or status messages before any payload:
  `RoutedReplies` states what is returned for rendered response lines and blank, echo and search lines of their own.
- Text is a sequence of characters, not of UTF-8 bytes; hexadecimal parsing counts characters.
