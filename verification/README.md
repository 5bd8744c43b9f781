# A model of the PLC manager's serial link and of its schedulers and tables

The PLC manager talks to a PRIME modem over a serial link, polls DLMS meters through it, and serves TCP clients. This
project models the parts of it that keep state, and proves what they are for.

**The serial link (USI).** A message becomes a frame: a header of length and type packed into two bytes, the payload, and
a CRC-32, a CRC-16 or a byte sum, depending on the type. Between two marks (`0x7E`) the mark and the escape (`0x7D`) are
stuffed as in section 4.2 of RFC 1662, but only these two octets. `Transmitter.UsiTx` builds and stuffs each frame in
place in its buffer; `Receiver.UsiRx` collects chunks of any size in another, and takes at most one span between two
marks out of it per call. Both are proved equal to short functions (`Transmission.Transmit`, `Reception.ProcessStep`),
and the theorems about whole runs are about those functions:

* whatever messages of known types were offered to the transmitter, and however the bytes reach the receiver, each one
  whose call reported success is delivered in order, once, with nothing left over (`Transmission.EndToEnd`). What arrives
  is the payload as it was given, but for the top bit of a PRIME API message's first byte, which the frame needs for the
  length (`Reception.PayloadArrives`). If types are sent that the receiver does not know, the losses form blocks, each of
  which begins with such a message (`MixedRuns.EndToEndAnyTypes`); and nothing is lost for any split of the bytes if and
  only if no known type is sent directly after an unknown one (`Arrivals.ArrivesIff`);
* which messages are accepted, and with which answer any other is refused, is stated by type and size
  (`Protocols.RefusedIff`, `Protocols.SentIff`), and so is whose handler is called: the one that was set last for any type of
  the same protocol (`Protocols.DeliveredIff`). The bytes of a frame are given in figures (`FrameLayout`); of the messages
  that declare no payload, which the transmitter refuses, a reset and a reboot can be received (`FrameLayout.EmptySpan`);
* a burst of errors among the stuffed bytes of a frame, over no more bytes than its check has, that makes or breaks no
  mark, is never delivered as anything but what was sent, provided that the receiver still reads the kind of check and
  the length as they were sent, and that either its length-check flag is up or no escape was made or broken
  (`WireErrors.DamagedWireNotDelivered`). Each condition is needed: with the flag down a broken escape or a damaged
  length can be delivered, with either flag a damaged type, or a length damaged together with an escape, and even with
  the flag up what lies behind a mark that is made (`ErrorLimits`). Among bodies of the same size the shorter checks also find every odd number of damaged bits
  (`FrameErrors.OddDetected`);
* the length-check flag both finds the place and loses it. Behind a stray mark a receiver with the flag up loses nothing
  more (`Resync.Recovers`), and one with the flag down loses one message for each call that finds two marks, up to the
  first call that finds exactly one (`Recovery.LosesInitialBlock`). After a span of other bytes it stands at the next
  frame if and only if the flag was down or the length of the span agrees with its header
  (`Recovery.SpanBeforeFrames`). Whatever bytes come before good frames, and however all of it is split, it gets past
  them, with no more deliveries than they have marks and an initial block of the good messages lost at most
  (`Garbage.AnyBytes`).

**The CRC service.** Messages are polynomials over the two-element field. `Gf2` defines division by its own equation,
`ShiftRegisters` studies registers fed at either end for an arbitrary generator, and `CrcDivision` shows that the four
table-driven loops compute remainders: CRC-32 by `0x04C11DB7` and CRC-8 by `0x07` in the usual way, CRC-16 by `0x1021`
but without moving the message up, the byte sum by x^8 + 1. Linearity, burst detection at any length, residues and the
cached checks of the subnetwork address (SNA) follow from that.

**The DLMS polling scheduler**, as a state machine over timers, confirms, indications, joins, leaves, lists and stops.
A timer may go off at any time, running or not, so the theorems hold under every interleaving. Within a cycle the
requests form a chain that never goes back, with every node's dialogue contiguous, and at most 165 of them. Under
every interleaving, while the table stays as it is, exactly as many connected rows lie between two nodes that are polled
one after the other as step timers went off at a release in between (`DlmsPolling.PassedOver`). So the next connected node is polled unless a release
was answered well (`DlmsPolling.NextPolledIff`), and in a cycle in which nothing goes wrong exactly every second one is
(`DlmsPolling.FaultlessCycle`). A complete list starts a cycle, whatever was going on (`DlmsEvents.ListStarts`). Over a
layer that confirms each request once and answers only what it has confirmed, no two timers are ever due at the same time,
whoever joins or leaves (`DlmsEvents.NeverTwoTimers`). A row that has left gets no request until it is back
(`DlmsEvents.LeftGetsNothing`), and after a stop nothing is sent unless a request that was out is confirmed or answered, or a
complete list comes (`DlmsEvents.StopIsQuiet`); such a late confirm or answer does start polling again
(`DlmsEvents.ConfirmWakes`, `DlmsEvents.AnswerWakes`).

**Two small tables**: the outstanding data requests of the PRIME API, as a bounded multiset over all runs, whose pointers
come back to a handle in the order of its requests, once all have come, if and only if none of them was stored below an
outstanding one (`DataOrder.InOrderIffNoneOvertakes`); and the socket table with the set of descriptors to watch. After
every run the table holds exactly what was opened and not closed since, and what is watched besides is the listening sockets
that were overwritten (`SocketRuns.RunMatches`); so the two agree if and only if no application's server was created twice.

## Layout

| files | subject |
|---|---|
| `Wrappers.dfy` | options, and lemmas about cutting sequences |
| `Gf2.dfy`, `ShiftRegisters.dfy`, `WordBits.dfy` | polynomial division, shift registers, words as bits |
| `CrcTables.dfy`, `Crc.dfy`, `CrcDivision.dfy`, `OddErrors.dfy`, `CrcLoops.dfy`, `Pcrc.dfy` | the CRC service |
| `Stuffing.dfy`, `StuffingLoops.dfy` | stuffing, and the loops that do it in place |
| `Framing.dfy`, `Checks.dfy`, `FrameLayout.dfy`, `Protocols.dfy` | frames, their checks, and the protocol types |
| `Transmission.dfy`, `Transmitter.dfy` | sending |
| `Reception.dfy`, `Receiver.dfy`, `Reassembly.dfy` | receiving: one call, in place, whole runs |
| `Resync.dfy`, `Recovery.dfy`, `Garbage.dfy` | a receiver that has lost its place |
| `MixedRuns.dfy`, `Arrivals.dfy` | types that the receiver does not know |
| `FrameErrors.dfy`, `WireErrors.dfy`, `ErrorLimits.dfy` | damaged frames: what is noticed and what is not |
| `Dlms.dfy`, `DlmsRuns.dfy`, `DlmsPolling.dfy`, `DlmsEvents.dfy`, `DlmsScheduler.dfy` | the polling scheduler |
| `DataTable.dfy`, `DataOrder.dfy`, `Sockets.dfy`, `SocketRuns.dfy` | the two tables |

Code that works in place is a class or a method over an array here too; its `ensures` equates the new contents or state
with a function of the old one, and the lemmas are about that function.

## Model

| member | source | states |
|---|---|---|
| Transmission.EndToEnd | PLCManager/utils/hal_usi.c:474-860 | for every sequence of sends of types that the receiver knows, to a device that takes frames whole or not at all, every chunking and every mix of failed and empty reads: what is delivered is, for exactly the messages whose call succeeded, the payload as it travels, in order and once, and nothing stays pending |
| MixedRuns.EndToEndAnyTypes | PLCManager/utils/hal_usi.c:474-860 | the same for sends of any types: what is kept of the messages is delivered in order and once, unknown types never, and a known message is lost only if the one just before it was not kept |
| MixedRuns.MixedRun | PLCManager/utils/hal_usi.c:793-860 | the same from any place in the bytes, also behind a stray mark |
| Arrivals.ArrivesIff | PLCManager/utils/hal_usi.c:793-860 | with handlers for all known types, every known message of a sequence arrives for every split of its bytes if and only if none comes directly after an unknown one |
| Arrivals.LosingRun | PLCManager/utils/hal_usi.c:812-851 | the split that loses a message: one byte of the unknown frame by itself, then the rest; nothing from that frame on arrives |
| Reassembly.AllDelivered | PLCManager/utils/hal_usi.c:793-860 | once all bytes of the frames have been read, one further call per message, reading nothing, delivers all that is still pending, whatever the flag and the chunks were |
| Reassembly.InOrder | PLCManager/utils/hal_usi.c:793-860 | at every point of every run the deliveries are those of the first k messages and the pending bytes are exactly what came after the first k frames |
| Reassembly.AlignedStep | PLCManager/utils/hal_usi.c:812-851 | one call delivers one message if and only if a whole frame is pending, and otherwise only keeps the bytes |
| Reassembly.FullBufferProgress | PLCManager/utils/hal_usi.c:803-857 | a full buffer of well-formed bytes holds a whole frame, so the next call delivers and makes room although it can read nothing |
| Reassembly.RunConcat | PLCManager/utils/hal_usi.c:793-860 | a run may be cut anywhere: the later calls see only the pending bytes and the flag |
| Reception.FrameStep | PLCManager/utils/hal_usi.c:827-851 | the frame of a known type is delivered with the payload as it travels and taken off whatever the flag; one of an unknown type is never delivered and is taken off whole exactly while the flag is down |
| Reception.PayloadArrives | PLCManager/utils/hal_usi.c:509-513 | the payload as it travels is the payload that was given if and only if the type is not the PRIME API or the top bit of its first byte is clear; nothing but that byte ever differs |
| Reception.HeadWithTrailer | PLCManager/utils/hal_usi.c:358-430 | after a sent header and payload the length test holds, and the check test holds if and only if the trailer is the check that the transmitter computes |
| Reception.UnknownType | PLCManager/utils/hal_usi.c:419-421 | types 0x3F and 0xFE fail both tests whatever follows |
| Resync.RealignedIffFlag | PLCManager/utils/hal_usi.c:827-843 | with a whole frame behind a stray mark, one call leaves the pending bytes starting at the frame if and only if the flag is up |
| Resync.MisalignedStep | PLCManager/utils/hal_usi.c:831-843 | two marks next to each other deliver nothing, and the second stays exactly when the flag is up |
| Resync.Recovers | PLCManager/utils/hal_usi.c:793-860 | with the flag up, after bytes without marks and one stray mark all later frames are delivered, in order, once, for every split of the bytes |
| Recovery.LosesInitialBlock | PLCManager/utils/hal_usi.c:793-860 | with the flag down, behind a stray mark and for every split of the bytes, an initial block of messages is lost and all others are delivered: as many as calls find two marks before the first call that finds exactly one, or all if there is none |
| Recovery.SpanBeforeFrames | PLCManager/utils/hal_usi.c:831-851 | a call on any mark-free span in front of good frames leaves the receiver at the first of them if and only if the flag was down or the span's length agrees with its header; then all of them are delivered, and otherwise none that is waiting |
| Recovery.SpanStep | PLCManager/utils/hal_usi.c:831-851 | what stays pending after a call on any mark-free span, whatever follows it |
| Garbage.AnyBytes | PLCManager/utils/hal_usi.c:793-860 | for any bytes in front of good frames and every split: after some first calls, which deliver no more than those bytes have marks, all good messages follow but an initial block; if the block is not empty, the receiver then stood just inside the first frame with the flag down, and the block is as long as the two-mark calls before the first one-mark call say |
| Garbage.GarbageStep | PLCManager/utils/hal_usi.c:812-857 | one call on any bytes that hold a mark, in front of good frames: fewer of them are left, with one mark less for each delivery, or the receiver stands just inside the first frame |
| Garbage.JunkThenFrames | PLCManager/utils/hal_usi.c:812-857 | bytes without marks in front of good frames cost nothing, for every split |
| Resync.LostWithoutFlag | PLCManager/utils/hal_usi.c:827-851 | with the flag down behind a stray mark and the bytes already there, no number of calls delivers any of any number of waiting messages |
| Resync.UnknownTypeThenKnown | PLCManager/utils/hal_usi.c:834-843 | a frame of a type the receiver gives up on costs the next message exactly when the flag is up |
| Resync.RoomIffNotOneMark | PLCManager/utils/hal_usi.c:814-857 | a call on a full buffer makes room if and only if the buffer does not hold exactly one mark |
| Protocols.RefusedIff | PLCManager/utils/hal_usi.c:949-977 | for every message and whatever the device takes: a format error if and only if the payload is empty; otherwise an unknown protocol if and only if the type is none of 0 to 7, 0x13, 0x22, 0x30, 0x3F, 0xFE; a reception overflow if and only if the payload and 5 bytes more exceed 1000; a transmission overflow if and only if they do not but the stuffed frame does |
| Protocols.SentIff | PLCManager/utils/hal_usi.c:949-977 | with whole writes success means one of these types, a payload, a frame of at most 1000 bytes and an accepted first write; a device error means the same without the write |
| Protocols.FrameSize | PLCManager/utils/hal_usi.c:559-613 | the size of a frame: the payload, two header bytes, two marks, a check of four, two or one bytes by the type, and one more for each byte that needs an escape |
| Protocols.RefusalBehind | PLCManager/utils/hal_usi.c:968-974 | with an index that an error left behind: the room that is tested for is what the index leaves of 1000 bytes, or, for an index above 1000, of 66536 |
| Protocols.RowOfType | PLCManager/utils/hal_usi.c:198-239 | the types that have a row, and those whose frames can be delivered, written out; the row that a frame is dispatched to is the row that its handler is set in |
| Protocols.SameRow | PLCManager/utils/hal_usi.c:202-236 | two accepted types have the same row if and only if they are equal or both at most 7 |
| Protocols.ListeningIff | PLCManager/utils/hal_usi.c:987-1000 | after any calls that set or remove handlers, a type that can be delivered has one if and only if the last call for a type of its protocol set it |
| Protocols.DeliveredIff | PLCManager/utils/hal_usi.c:247-336 | from registration to delivery: a whole frame in front of the receiver is delivered if and only if its type can be and the last call for its protocol set a handler, and to that protocol's row |
| Protocols.OnlyOneRegistered | PLCManager/utils/hal_usi.c:274-323 | where only one type was registered, exactly the frames of its protocol are delivered |
| FrameLayout.HeadLayout | PLCManager/utils/hal_usi.c:504-514 | the header in figures: length bits 9 to 2; bits 1 and 0 times 64 plus the type modulo 64; the payload as given, but that length bit 10 takes the place of the top bit of a PRIME API message's first byte |
| FrameLayout.ReadHeader | PLCManager/utils/hal_usi.c:256-265 | the same figures read back, the eleventh length bit for the PRIME API only |
| FrameLayout.TrailerLayout | PLCManager/utils/hal_usi.c:524-557 | the trailer is the remainder of header and payload as polynomials: of 32 bits for types up to 7, of 16 for 0x13, 0x22 and 0xFE (the message not moved up); and the byte sum for the others |
| FrameLayout.EmptySpan | PLCManager/utils/hal_usi.c:268-270 | a span whose header declares no payload is delivered, as its two header bytes, if and only if it is a reset or a reboot with its CRC-32, and has six bytes in case the flag is up |
| FrameLayout.EmptyFrameDelivered | PLCManager/utils/hal_usi.c:375-378 | the good frame of an empty reset or reboot is delivered whatever the flag, and taken off |
| FrameLayout.ShortSpan | PLCManager/utils/hal_usi.c:367-369 | fewer than four bytes are never delivered, and their second mark stays if and only if the flag is up |
| WireErrors.DamagedWireNotDelivered | PLCManager/utils/hal_usi.c:687-860 | a mark-free span as long as a frame's stuffed body, that differs from it only within 4, 2 or 1 consecutive bytes (the width of its check), gives no delivery unless it decodes to the body, provided the kind of check and the length are read as sent, or a type without a check, and the flag is up or the escapes stand where they stood |
| WireErrors.UnstuffWindow | PLCManager/utils/hal_usi.c:687-722 | two spans that differ only within a burst and decode to equally many bytes decode to bytes that differ only within a burst no longer |
| WireErrors.SameEscapesSameSize | PLCManager/utils/hal_usi.c:687-722 | with escapes at the same places equally many bytes are decoded |
| FrameErrors.DamagedBodyNotDelivered | PLCManager/utils/hal_usi.c:358-430 | a span that decodes to a body as long as a sent one and different from it, within a window of 32, 16 or 8 bits or, but for CRC-32, in an odd number of bits, gives no delivery, provided the kind of check is read as sent or there is none, and the length too or the flag is up |
| FrameErrors.BurstDetected | PLCManager/utils/hal_usi.c:378-424 | the check test fails on every body of the same size that differs within a window as wide as the check |
| FrameErrors.OddDetected | PLCManager/utils/hal_usi.c:378-424 | with CRC-16 and the byte sum it also fails whenever an odd number of bits differ, wherever they lie |
| FrameErrors.CheckedBurst | PLCManager/utils/hal_usi.c:515-556 | two bodies that carry their own checks and differ only in one window as wide as the check are the same |
| ErrorLimits.LengthDamageDelivered | PLCManager/utils/hal_usi.c:409-424 | with the flag down, a five-byte PRIME API message with one length bit cleared is delivered as four bytes |
| ErrorLimits.EscapeDamageDelivered | PLCManager/utils/hal_usi.c:697-716 | with the flag down, a message whose only escape is broken by one bit is delivered with other bytes, although type and length are read as sent |
| ErrorLimits.KindDamageDelivered | PLCManager/utils/hal_usi.c:378-424 | with either flag, a PRIME API message with one damaged byte is delivered as a sniffer message, under another kind of check |
| ErrorLimits.SizeDamageDelivered | PLCManager/utils/hal_usi.c:732-788 | with either flag, a burst of four bytes that changes the length and makes an escape turns an 89-byte message into one of 88 bytes that is delivered |
| ErrorLimits.MarkDamageDelivered | PLCManager/utils/hal_usi.c:831-843 | with the flag up, one byte that becomes a mark cuts a frame in two, and the second part is delivered by the next call as a message that was never sent |
| Transmission.FrameSentIff | PLCManager/utils/hal_usi.c:633-649 | the wire carries exactly the frame if and only if the first write takes all of it, or all but one byte and the second takes one |
| Transmission.WholeWrite | PLCManager/utils/hal_usi.c:502-650 | with whole writes the index is zero after every call, success means a sendable message and an accepted first write, and nothing but the whole frame gets out |
| Transmission.IndexAfterError | PLCManager/utils/hal_usi.c:639-646 | after a write error the index is zero again if and only if the bytes taken come to a multiple of 65536 |
| Transmission.WriteTotals | PLCManager/utils/hal_usi.c:633-649 | the loop ends well only with the frame's length taken modulo 65536; otherwise the 16-bit index keeps the difference |
| Transmission.OverflowIffTooLong | PLCManager/utils/hal_usi.c:559-602 | a proper message fails for want of room if and only if its stuffed frame is longer than 1000 bytes; the earlier test on the payload alone refuses no frame that fits |
| Transmission.WireIsFrames | PLCManager/utils/hal_usi.c:949-977 | over any run of sends the wire is the concatenation of the frames of the successful ones |
| Transmitter.UsiTx.Send | PLCManager/utils/hal_usi.c:949-977 | from index zero, status, wire and index are those of the specification for every message and every sequence of write results; an unknown protocol is reported if and only if there is a payload and the type is none of those written out; from any index a call that is refused changes nothing |
| Transmitter.UsiTx.Encode | PLCManager/utils/hal_usi.c:505-624 | the buffer holds mark, stuffed body, mark, or there is no room, exactly when they do not fit in 1000 bytes |
| Transmitter.UsiTx.StoreBody | PLCManager/utils/hal_usi.c:502-556 | after the opening mark stand header, payload with the extra length bit, and the check of both |
| Transmitter.UsiTx.WriteOut | PLCManager/utils/hal_usi.c:633-649 | the write loop is the specified one, whatever the device answers |
| Receiver.UsiRx.Process | PLCManager/utils/hal_usi.c:793-860 | a failed read changes nothing; any other makes the specified step; all bytes of the buffer past the pending ones are zero afterwards |
| Receiver.UsiRx.Receive | PLCManager/utils/hal_usi.c:800-857 | new state and deliveries are those of the specification |
| Receiver.UsiRx.FindMarks | PLCManager/utils/hal_usi.c:814-823 | the two scans find the first two marks among the pending bytes although the second scan runs past them |
| Receiver.UsiRx.DecodeSpan | PLCManager/utils/hal_usi.c:824-826 | after decoding in place, what is read from the byte after the first mark on is the decoded body, zeros for what it lost, the closing mark and the rest |
| Receiver.UsiRx.CheckIntegrityLen | PLCManager/utils/hal_usi.c:732-788 | true exactly when header, declared length and the check of the type add up to the decoded size |
| Receiver.UsiRx.CheckMessage | PLCManager/utils/hal_usi.c:358-430 | true exactly when the last bytes are the check of the declared ones, for an allowed length and a known type |
| Receiver.UsiRx.Deliver | PLCManager/utils/hal_usi.c:247-347 | the handler in the type's own row is called with the declared bytes, with the header for the management protocol only |
| Receiver.UsiRx.ShiftOut | PLCManager/utils/hal_usi.c:662-676 | exactly what lies behind the cut stays, and the zero tail is kept |
| Receiver.UsiRx.SetCallback | PLCManager/utils/hal_usi.c:987-1000 | the handlers become those of the specification, and a type is refused if and only if it is none of those written out |
| Receiver.SameTests | PLCManager/utils/hal_usi.c:358-430 | the tests and the dispatch depend only on the contents of memory, zero past the buffer |
| Checks.SameNumberIffSameBytes | PLCManager/utils/hal_usi.c:390-424 | comparing the received number with the computed one is comparing the trailing bytes with the check |
| Checks.TrailerIsCheck | PLCManager/utils/hal_usi.c:534-555 | the bytes stored high byte first are the check, and read back as the same number |
| Framing.HeaderRoundTrip | PLCManager/utils/hal_usi.c:77-103 | the packed length is read back modulo 1024 and the type modulo 64 |
| Framing.ExtendedLengthRoundTrip | PLCManager/utils/hal_usi.c:94-103 | with the extra bit every length below 2048 is read back, whatever the command byte |
| Stuffing.UnstuffStuff | PLCManager/utils/hal_usi.c:687-722 | unstuffing undoes stuffing for every body |
| Stuffing.StuffUnstuff | PLCManager/utils/hal_usi.c:571-620 | the mark-free, well-escaped bodies are exactly those on which stuffing undoes unstuffing |
| Stuffing.UnstuffFails | PLCManager/utils/hal_usi.c:697-716 | decoding fails if and only if some escape before the last byte is followed by neither code |
| Stuffing.StuffIsClean | PLCManager/utils/hal_usi.c:571-620 | a stuffed body holds no mark, and each of its escapes is followed by one of the two codes |
| StuffingLoops.StuffInPlace | PLCManager/utils/hal_usi.c:559-622 | the search-and-shift loop leaves the stuffed body, fails exactly when it does not fit, and writes nothing past the buffer |
| StuffingLoops.NextToken | PLCManager/utils/hal_usi.c:573-592 | the searches for either octet together find the nearest one to escape |
| StuffingLoops.ShiftRight | PLCManager/utils/hal_usi.c:440-463 | with two bytes of memory the bytes move up by one and nothing else changes |
| StuffingLoops.ShiftLeft | PLCManager/utils/hal_usi.c:662-676 | the bytes move down, the gap is zeroed, nothing outside changes |
| StuffingLoops.DecodeCopy | PLCManager/utils/hal_usi.c:687-722 | the in-place loop, which starts on the opening mark, decodes; it returns zero exactly for an empty or ill-escaped body; marks and everything outside them stay |
| Gf2.RemainderIsTheRemainder | PLCManager/utils/hal_pcrc.c:183-197 | for every generator exactly one remainder satisfies the equation of division, the one long division finds |
| Gf2.DivisionIsUnique | PLCManager/utils/hal_pcrc.c:183-197 | quotient and remainder are unique |
| ShiftRegisters.TopFedIsRemainder | PLCManager/utils/hal_pcrc.c:183-197 | a register fed at its top computes the remainder of the message moved up by its width, with the initial value added |
| ShiftRegisters.TopFedTrailerBurst | PLCManager/utils/hal_pcrc.c:183-197 | no burst as wide as the register, in message or trailer, turns one checked message into another |
| ShiftRegisters.LowFedTrailerBurst | PLCManager/utils/hal_pcrc.c:209-218 | the same for a register fed at its bottom, also across the border between message and trailer |
| ShiftRegisters.TopFedResidue | PLCManager/utils/hal_usi.c:534-538 | message and trailer together leave zero if and only if the trailer is the check |
| CrcLoops.Entry32 | PLCManager/utils/hal_pcrc.c:37-102 | each entry of the CRC-32 table is eight zero bits fed to its index |
| CrcLoops.Entry16 | PLCManager/utils/hal_pcrc.c:105-138 | the same for CRC-16 |
| CrcLoops.Entry8 | PLCManager/utils/hal_pcrc.c:141-171 | the same for CRC-8 |
| CrcLoops.EvalCrc32 | PLCManager/utils/hal_pcrc.c:183-197 | the table loop equals the bit-by-bit register |
| CrcLoops.EvalCrc16 | PLCManager/utils/hal_pcrc.c:209-218 | the same, each byte entering at the low end |
| CrcLoops.EvalCrc8 | PLCManager/utils/hal_pcrc.c:230-239 | the same for CRC-8 |
| CrcLoops.EvalCrc8Usi | PLCManager/utils/hal_pcrc.c:251-260 | the loop of the link's eight-bit check is the byte sum |
| CrcDivision.Crc32IsRemainder | PLCManager/utils/hal_pcrc.c:183-197 | for every message and initial value, CRC-32 is the remainder on division by 0x04C11DB7, and nothing else is |
| CrcDivision.Crc8IsRemainder | PLCManager/utils/hal_pcrc.c:230-239 | the same with generator 0x07 |
| CrcDivision.Crc16IsRemainder | PLCManager/utils/hal_pcrc.c:209-218 | CRC-16 is the remainder of the message itself, not moved up, by x^16 + x^12 + x^5 + 1 |
| CrcDivision.ByteSumIsLowFed | PLCManager/utils/hal_pcrc.c:251-260 | the byte sum is a CRC too, with generator x^8 + 1 |
| CrcDivision.Crc16ThenTwoZeros | PLCManager/utils/hal_pcrc.c:209-218 | from zero, two more zero bytes give the conventional CRC-16 |
| CrcDivision.Crc32DetectsBursts | PLCManager/utils/hal_pcrc.c:183-197 | messages of any length that differ only within 32 consecutive bits have different CRC-32 values |
| CrcDivision.Crc16DetectsBursts | PLCManager/utils/hal_pcrc.c:209-218 | the same for 16 bits |
| OddErrors.RemainderKeepsEven | PLCManager/utils/hal_pcrc.c:209-218 | division by a generator with an even number of ones keeps whether the number of ones is even |
| OddErrors.EvenGenerators | PLCManager/utils/hal_pcrc.c:209-260 | the generators of CRC-16 and of the byte sum are such |
| CrcDivision.ByteWindow | PLCManager/utils/hal_pcrc.c:183-197 | a window of whole bytes is such a window of bits |
| CrcDivision.Crc32Residue | PLCManager/utils/hal_usi.c:534-538 | recomputing over message and trailer gives zero if and only if the trailer is the CRC |
| Crc.Crc32Concat | PLCManager/utils/hal_pcrc.c:365-372 | a CRC-32 may be carried from one part of a message to the next |
| Crc.Crc8Concat | PLCManager/utils/hal_pcrc.c:230-239 | the same for CRC-8 |
| Pcrc.Crc32Linear | PLCManager/utils/hal_pcrc.c:183-197 | CRC-32 is linear in message and initial value together |
| Pcrc.Crc8Linear | PLCManager/utils/hal_pcrc.c:230-239 | the same for CRC-8 |
| Pcrc.InitialValueIsPrefix | PLCManager/utils/hal_pcrc.c:294-301 | a non-zero initial value, such as the v1.4 beacon's, is the same as adding it to the first four bytes of any message that has them |
| Pcrc.Service.constructor | PLCManager/utils/hal_pcrc.c:27-30 | the stored values start as the checks of the all-zero address |
| Pcrc.Service.ConfigSna | PLCManager/utils/hal_pcrc.c:268-275 | after every configuration the stored values are the checks of the latest address |
| Pcrc.Service.Calc | PLCManager/utils/hal_pcrc.c:289-353 | a generic packet is checked with the latest address in front of it (section 4.4.2 of the PRIME specification v1.3.6) although only the packet is read; the other header types as stated |
| Pcrc.CalcFu | PLCManager/utils/hal_pcrc.c:365-372 | the check of part of a firmware image from the value of the parts before it |
| Pcrc.CalcUsi | PLCManager/utils/hal_pcrc.c:327-346 | the check of a link message does not depend on the address |
| DlmsRuns.Cycle | PLCManager/dlms_emu.c:308-459 | from the start of a cycle to the next start or stop, under every interleaving of the other events, the requests begin with an association, each is the next of its dialogue or the first of a later node's, and there are at most 15 * 11 |
| DlmsRuns.CycleRun | PLCManager/dlms_emu.c:345-459 | the same from any moment within a cycle on |
| DlmsRuns.EventMoves | PLCManager/dlms_emu.c:345-459 | one event within a cycle sends at most one request, the next in order |
| DlmsRuns.StartMoves | PLCManager/dlms_emu.c:308-321 | a cycle sends its first request if and only if some row above the first is connected, and to the least such row; no timer changes |
| DlmsRuns.ChainGrows | PLCManager/dlms_emu.c:366-415 | request after request, (node, place in the dialogue) strictly increases |
| DlmsRuns.ChainBound | PLCManager/dlms_emu.c:366-415 | so a cycle is bounded by 15 nodes times 11 requests |
| DlmsRuns.DialogueContiguous | PLCManager/dlms_emu.c:366-415 | a node's requests stand together, without a gap |
| DlmsRuns.ReleaseEndsDialogue | PLCManager/dlms_emu.c:272-400 | a release comes only after all ten earlier requests of its node: association, date, profile, blocks 1, 3, ..., 13 |
| DlmsPolling.NextPolledIff | PLCManager/dlms_emu.c:345-459 | for one order of events each, over the ways a dialogue can end (good answer to its release, or at any step a bad answer, a failed confirm, no answer), with the timers that each starts going off, and no other being due if none was before, the next request goes to the next connected node if and only if the answer was not a good one |
| DlmsPolling.EventChanges | PLCManager/dlms_emu.c:345-459 | every event within a cycle leaves the node alone or goes on to the next connected one, which has then just got its first request, unless the step timer went off at a release |
| DlmsPolling.PassedOver | PLCManager/dlms_emu.c:345-459 | whatever events come between two requests while the table stays as it is: if the second goes to another node, the connected rows between the two are as many as step timers went off at a release in between |
| DlmsPolling.FaultlessCycle | PLCManager/dlms_emu.c:308-459 | in a cycle in which every answer is good and each started timer goes off in turn, a row above the first is polled if and only if it is connected and its rank among the connected ones is odd; if nothing else was due at the start, each timer that goes off is the only one that is due, and at the end that is the next cycle's |
| DlmsPolling.ReleaseSkipsNode | PLCManager/dlms_emu.c:345-411 | after a good answer to a release the next connected node is passed over and the one after it, if any, gets the next request |
| DlmsRuns.AlwaysExact | PLCManager/dlms_emu.c:466-500 | after every run of events, with addresses below 16, the search below the mark returns n if and only if n is the least connected index in the whole table above its argument, or 16 |
| DlmsEvents.ListStarts | PLCManager/dlms_emu.c:577-580 | a complete list joins its rows and starts a cycle from any state: the least connected row above the first gets an association, if there is one, and nothing else is sent; no timer changes |
| DlmsEvents.ListContinues | PLCManager/dlms_emu.c:550-604 | a list that is not complete joins its rows and sends nothing to a meter |
| DlmsEvents.OneTimer | PLCManager/dlms_emu.c:712-781 | while at most one timer is due, over a layer that behaves, which one is after each event: none after a request was sent, the timeout after its confirm, the node timer after a failed one or a bad answer, the step timer after a good one, the next node's or next cycle's when nothing was sent on moving on |
| DlmsEvents.NeverTwoTimers | PLCManager/dlms_emu.c:345-781 | over all such runs, with any answers and whoever joins or leaves, every timer that goes off is the only one that is due |
| DlmsEvents.ListBetweenCycles | PLCManager/dlms_emu.c:577-580 | a complete list stops no timer: one that comes while the next cycle is due leaves that timer running beside those of the cycle that it starts |
| DlmsEvents.StopIsQuiet | PLCManager/dlms_emu.c:327-336 | after a stop nothing is sent and no timer runs until a confirm, an answer or a complete list, if only running timers go off |
| DlmsEvents.ConfirmWakes | PLCManager/dlms_emu.c:755-760 | a confirm after the stop leads to the next connected row being polled |
| DlmsEvents.AnswerWakes | PLCManager/dlms_emu.c:722-725 | a good answer after the stop leads to the date being asked of the node whose dialogue was stopped |
| DlmsEvents.TableAfter | PLCManager/dlms_emu.c:792-819 | after every run a row is connected if and only if it was brought in by a join or a list and has not left since |
| DlmsEvents.LeftGetsNothing | PLCManager/dlms_emu.c:816-819 | over all runs, with starts and stops, a row that has left gets no request until it joins or is listed again |
| DlmsRuns.KeepsInv | PLCManager/dlms_emu.c:792-819 | every event keeps the mark above all connected rows, and the block number odd while blocks are asked for |
| DlmsRuns.RecountIsExact | PLCManager/dlms_emu.c:466-481 | counting sets the mark just above the last connected row |
| DlmsRuns.JoinAllKeeps | PLCManager/dlms_emu.c:550-576 | a list response connects exactly the listed rows, broadcast addresses aside, and moves nothing else |
| DlmsScheduler.Scheduler.Handle | PLCManager/dlms_emu.c:712-819 | each handler changes the state as specified: so an answer stops the timeout, a stop all timers, a leave empties its row, and a complete list sends the first association |
| DlmsScheduler.Scheduler.FindNext | PLCManager/dlms_emu.c:489-500 | the search loop finds the first connected index below the mark |
| DlmsScheduler.Scheduler.CountNodes | PLCManager/dlms_emu.c:466-481 | the count is zero exactly when nothing is connected, and the mark is that of the specification |
| DlmsScheduler.Scheduler.SendRequest | PLCManager/dlms_emu.c:425-440 | the mutual recursion with moving on terminates and sends what is specified |
| DlmsScheduler.Scheduler.TakeNextStep | PLCManager/dlms_emu.c:366-415 | the step that follows the current one is taken |
| DataTable.AllRuns | PLCManager/usi_host/ifacePrime_api.c:1149-1195 | over all runs what was stored is what was handed back and what is outstanding, as multisets, and never more than 20 are outstanding |
| DataTable.TakeRemoves | PLCManager/usi_host/ifacePrime_api.c:1175-1189 | a confirm hands a pointer back if and only if one is outstanding for its handle, one of that handle's, and removes just it |
| DataTable.StoreAdds | PLCManager/usi_host/ifacePrime_api.c:363-374 | a request adds its pair if and only if fewer than 20 are outstanding; beyond that it changes nothing |
| DataTable.RequestIs | PLCManager/usi_host/ifacePrime_api.c:363-374 | in every run a request is recorded and outstanding if and only if fewer than 20 were |
| DataTable.ConfirmIs | PLCManager/usi_host/ifacePrime_api.c:1175-1189 | in every run a confirm hands back just one pair of its handle if and only if one is outstanding |
| DataOrder.InOrderIffNoneOvertakes | PLCManager/usi_host/ifacePrime_api.c:1175-1189 | over all runs: if no request of a handle is stored below an outstanding entry of it, its pointers come back in the order of the requests; and once none is outstanding any more they did only if so |
| DataOrder.TakeAfterStore | PLCManager/usi_host/ifacePrime_api.c:363-374 | after one more request of a handle the next confirm takes the new entry if it was stored below the one that was first, and that one otherwise |
| DataTable.NotFirstInFirstOut | PLCManager/usi_host/ifacePrime_api.c:1175-1189 | a run of six operations in which the newest of three requests of a handle is handed back before the second |
| DataTable.PointerTable.DataRequest | PLCManager/usi_host/ifacePrime_api.c:363-374 | the first-free loop stores as specified |
| DataTable.PointerTable.DataConfirm | PLCManager/usi_host/ifacePrime_api.c:1149-1195 | without a handler nothing happens; a message that is not seven bytes long is refused; otherwise the handler gets handle, pointer or nothing, and result |
| Sockets.AllRuns | PLCManager/socket_handler.c:80-189 | after every run the mark bounds all watched descriptors and none has two owners; the watched ones are exactly those in the table if and only if no server was created for an application that had one |
| Sockets.NextKeeps | PLCManager/socket_handler.c:80-184 | no operation loses a descriptor but the creation of a second server, and that one loses exactly the old listening socket |
| SocketRuns.RunMatches | PLCManager/socket_handler.c:80-189 | after every run: each application's row holds its last listening socket and exactly the connections that it attached while there was room and has not dettached since; watched are these and the listening sockets that were overwritten |
| Sockets.CreateOpens | PLCManager/socket_handler.c:178-184 | a new server holds its descriptor, which is watched, and no other slot changes |
| Sockets.AttachOpens | PLCManager/socket_handler.c:96-113 | a new connection takes the first unused slot of its application and is watched, no other slot changes; without one nothing changes |
| Sockets.DettachCloses | PLCManager/socket_handler.c:115-130 | a dettached connection is not watched any more and is in no slot of any row, every other descriptor keeps its slot; if the application has no such connection nothing changes |
| SocketRuns.RoomIffFewer | PLCManager/socket_handler.c:96-113 | in every reachable table there is an unused slot if and only if the application has fewer than five connections |
| Sockets.ReadyHasOwner | PLCManager/socket_handler.c:231-256 | while they agree, a watched descriptor has exactly one outcome, its application and kind, never the generic error |
| Sockets.SocketHandler.Select | PLCManager/socket_handler.c:191-257 | a wait that ends in time without an event or with an error is reported so; otherwise the least ready descriptor is served, to its owner, and the error comes only for one without an owner |
| Sockets.SocketHandler.AttachConnection | PLCManager/socket_handler.c:96-113 | the first unused connection slot is taken and the descriptor watched, if there is such a slot |
| Sockets.SocketHandler.DettachConnection | PLCManager/socket_handler.c:115-130 | a connection of the application is watched no more and stands in no slot; if it has no such connection nothing changes |
| Sockets.SocketHandler.CreateServer | PLCManager/socket_handler.c:178-184 | the application's listening socket is replaced and the new one watched |

## Where the code and its comments differ

The model follows the code.

* `hal_pcrc_calc` is said to return the invalid value when the address is not configured (`PLCManager/utils/hal_pcrc.c:287`); it uses the all-zero address.
* The eight-bit check of the link is called a CRC-8 (`PLCManager/utils/hal_pcrc.c:242`); it is the byte-wise exclusive or.
* A payload that is too long is answered with the status for a reception overflow (`PLCManager/utils/hal_usi.c:970-973`).
* Next-block numbers are incremented twice per answer (`PLCManager/dlms_emu.c:276` and `PLCManager/dlms_emu.c:393`), so only the odd ones are asked for.

## Left out

Assumptions:

- Transmitter.UsiTx.Send: asks for a zero index unless the call is refused before anything is built. The index is zero after every call under whole writes; after a partial write and an error the code builds the next frame with addresses that the index puts in the wrong place or outside its buffer.
- Transmission.WriteAll: a device that stops answering is taken for one that reports an error, since the loop would otherwise not end; and no write reports more than it was offered.
- Transmission.EndToEnd: for types that the receiver knows; `MixedRuns.EndToEndAnyTypes` is the statement without that.
- Receiver.UsiRx.Process: asks that a read bring no more than there is room for; the code offers `read` the whole buffer size at line 807.
- Receiver.UsiRx.Receive: asks the same.
- The second mark scan and the check of a declared length may look past the receive buffer, and the largest payload with a CRC-32 is stored two bytes past the transmit buffer before it is found not to fit. Both arrays are modelled with that many bytes more, zeros for the receiver.
- Resync.Recovers: what comes before the first good frame is garbage without marks and one stray mark; `Recovery.SpanBeforeFrames`, `Recovery.LosesInitialBlock` and `Garbage.AnyBytes` say what else can happen.
- WireErrors.DamagedWireNotDelivered: bursts that make or break a mark are left out, since they change which bytes are taken for a frame; `ErrorLimits.MarkDamageDelivered` shows what may happen then.
- The DLMS table has 16 rows; a late answer may step with node 16, which is modelled as a row that is never connected. Addresses are below 16, as the table needs.
- DlmsEvents.NeverTwoTimers: for runs without stops and complete lists, over a layer that behaves; `DlmsEvents.ListBetweenCycles` shows the two timers after a list.
- Sockets.SocketHandler.CreateServer: applications are below 16, as the table needs; the test at `PLCManager/socket_handler.c:139` lets 16 pass.
- Sockets.AllRuns: a new descriptor is none of those that are open.

Not modelled:

- The serial device, sockets, `select`, signals and POSIX timers themselves: chunks, write results, ready sets and events are inputs.
- The re-sending of received messages to a loopback socket in `_process_msg`.
- The contents of DLMS messages and of their fixed answers: an indication carries one bit, valid or not. Report files and traces.
- The paging of node lists over several requests.
- The other serialisers and decoders of the PRIME API and the management layer, which have no inverse here.
- The application's use of what it is handed: handlers are identified by their protocol's row.
- `socket_restart`, which nothing calls.
- Command-line, XML, sniffer and report modules.
