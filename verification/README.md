# Verified model of sae-j1939-rs

This project models the stateful protocols of `sae-j1939-rs`, a sans-I/O J1939
stack, in Dafny 4.11, and proves what they promise. Frames and elapsed
milliseconds go in, frames and events come out; nothing has a clock or a bus.

`dafny verify dfyconfig.toml` checks everything.

## How it is built

Every stateful object of the source has two descriptions. A module whose name
ends in `Spec` (or the first part of the module, for the smaller ones) says on
values what one call does. A class keeps the fields, arrays, slots and bitmaps of
the source, updates them in place, and is proved to compute exactly that: each
method's `ensures` equates the new abstract value with the specification applied
to the old one. The theorems about whole runs, several ECUs or a sender and a
receiver joined by channels are then proved about the specification.

| module | what it holds |
|---|---|
| `Types`, `Arith`, `Slots`, `Bits`, `Buffers` | machine integers with their widths, arithmetic, rows of slots and their sessions, payloads as numbers, writing into a buffer |
| `TpSpec`, `TpReassembler`, `TpTransmitter` | the transport protocol of section 5.10 of SAE J1939-21: sessions, slots, buffers, windows |
| `TpSafety`, `TpSessions`, `TpDelivery`, `TpNetwork` | what a receiver guarantees on a hostile network; what a session comes to, told from the run alone; the sender and the receiver on two lossless channels, and on a network that loses, repeats and reorders |
| `EtpSpec`, `EtpReassembler`, `EtpTransmitter`, `EtpSafety`, `EtpSessions`, `EtpDelivery` | the same for the extended transport protocol of ISO 11783-3 |
| `AddressClaim`, `ClaimHistory`, `ClaimBus`, `ClaimTermination` | section 4.2 of SAE J1939-81 for one ECU, over its whole life, and for any number of them on a bus |
| `Diagnostics`, `FaultLogSpec`, `FaultLog`, `FaultHistory`, `FaultTiming` | section 5.7 of SAE J1939-73: the DM1/DM2 codec, the fault memory, its history and its reporting times |
| `Wire`, `EtpWire`, `Outgoing`, `Node`, `AddressedTransfer`, `FaultReport` | identifiers, frames and payload codecs; a message on its way out; a whole node; an addressed message from application to application; a fault report from log to application |
| `ScheduleSpec`, `Schedule`, `ScheduleTiming` | periodic transmission and its suspension |
| `Signal`, `Spn` | bit fields in both byte orders, and the status codes of a parameter |
| `Identification` | asterisk-delimited identification fields |

Integers are unbounded in Dafny, so widths are types (`Byte`, `U16`, `U24`,
`U32`), and every saturation, clip, mask or wrap of the source is written out.
Shifts and masks are division, remainder and sums, except for the bitmap of seen
addresses, which is an array of bit-vectors.

## Where the code does less than its documentation says

- An abort whose reason is `Other(1)` to `Other(8)` comes back from the wire under
  that byte's own name (`core/src/tp.rs:153-182`). `CmRoundTrip` says this is the
  only message that does not survive.
- `Transmitter::on_tp_cm` completes on any acknowledgement of its group, even
  before anything was sent (`core/src/tp.rs:1009-1012`): `EarlyAckCompletes`. That
  complete means delivered is proved of the sender and receiver together, in
  `TpDelivery.EveryRunDelivers` and, whatever the network does, in
  `TpNetwork.NothingButThePayload`.
- A receive timeout of 65535 ms never expires a session, because the idle timer
  saturates there (`core/src/tp.rs:766-788`): `SurvivesWithinTheTimeout`.
- A schedule keeps its phase across a stall (`core/src/schedule.rs:230-234`) only
  while the 16-bit sum is not clipped. A tick keeps the phase of every entry of a
  period exactly if it is at most 65536 less the period
  (`TicksThatKeepEveryPhase`); `PhaseKeptUnlessClipped` says when it keeps that of
  one entry, and `ClippingLosesPhase` gives an input.
- A fault may be raised under the keys (0, 0) and (0x7FFFF, 31), although those
  are called unassignable (`core/src/diagnostics.rs:326-345`); a DM1 with such a
  single fault reads as fault-free: `FaultReportArrives` says exactly when,
  `ActiveFaultReadsAsNone` gives a log.
- The little-endian loops add in sixteen bits (`host/src/dbc.rs:227-230`,
  `core/src/spn.rs:201`). A build without overflow checks then reads the front of
  the payload for a field that ends past bit 65536; `LittleEndianIsExactUpTo65536`
  says exactly which fields are read right. A build with overflow checks panics
  instead.
- `SoftwareIdentification::encode` has written its count byte when it reports that
  the fields do not fit (`core/src/identification.rs:295-296`).

## Model

| member | source | states |
|---|---|---|
| TpReassembler.Reassembler.OnTpCm | core/src/tp.rs:569-652 | the slots and buffers after a connection-management message are those of a map from peer to single-session receiver, for every message and error case |
| TpReassembler.Reassembler.OnTpDt | core/src/tp.rs:655-732 | the same for a data packet: out of sequence it drops the session and says which of two ways, else it stores the chunk, delivers at the end, and grants the next window when this one is used up |
| TpReassembler.Reassembler.TickWithTimeout | core/src/tp.rs:766-788 | sessions age; each that was idle longer than the timeout is reported exactly once, with an abort if and only if it was addressed, and no other |
| TpReassembler.Reassembler.Tick | core/src/tp.rs:760-762 | the same with the standard T1 timeout |
| TpReassembler.Reassembler.SlotOf | core/src/tp.rs:791-795 | finds a peer's slot if and only if it has one |
| TpReassembler.Reassembler.SlotFor | core/src/tp.rs:799-802 | a peer's own slot, else a free one; none only if all are held by others |
| TpReassembler.Reassembler.RoomIsAFreeSlot | core/src/tp.rs:791-802 | there are never more sessions than slots, and fewer exactly when a slot is free |
| TpReassembler.Reassembler.Place | core/src/tp.rs:805-827 | one peer's transfer is replaced, no other changes, and no two slots serve one peer |
| TpReassembler.Reassembler.Abandon | core/src/tp.rs:555-563 | drops one peer's transfer and no other, and says whether there was one |
| TpReassembler.Reassembler.Reset | core/src/tp.rs:547-551 | drops every transfer |
| Slots.ReportsDistinct | core/src/tp.rs:766-788 | slots that hold different peers report each of them at most once in a tick, in both transport protocols |
| TpSafety.NonInterference | core/src/tp.rs:569-652 | an event from one source never changes another's session or accepted bytes, and delivers only its own message |
| TpSafety.DataIsLocal | core/src/tp.rs:655-732 | the answer to a data packet depends on its own peer's session alone |
| TpSafety.AsidesChangeNothing | core/src/tp.rs:638-650 | what a peer that is sending to us says of other transfers, a grant or an acknowledgement of ours or an abort of another group, leaves its own transfer alone and draws no answer |
| TpSafety.AbortEndsItsTransfer | core/src/tp.rs:638-648 | an abort ends its peer's transfer exactly if it is of that group; then, over every run, nothing but a new announcement of that peer draws an answer or opens a session |
| TpSafety.OfferIsTakenIfThereIsRoom | core/src/tp.rs:582-637 | a coherent announcement that fits, from any source, opens a fresh session with the grant it must give if and only if a slot is not held by someone else and it does not ask again in the middle of its own addressed transfer; else a broadcast is dropped, a request is refused for that reason, and nothing changes |
| TpSafety.OtherOffersAreRefused | core/src/tp.rs:571-602 | an announcement whose packets do not add up to its size, or that does not fit the buffer, opens nothing: a broadcast ends what its source was sending, in silence, a request changes nothing and is told which of the two it was |
| TpSafety.GenuineStep | core/src/tp.rs:569-732 | every event keeps a genuine sender's session a prefix of its payload, and what is delivered for it is that payload |
| TpSafety.DeliveredIsWhatWasSent | core/src/tp.rs:569-732 | over every run with loss, repetition, reordering, time-outs and arbitrary other traffic, every message delivered for a genuine sender is exactly its group and payload |
| TpSafety.SurvivesWithinTheTimeout | core/src/tp.rs:766-788 | over every run of ticks and of any events of other sources, a session survives if and only if the time since its last progress stays within the timeout, or the timeout is 65535; and it holds the bytes it held |
| TpSessions.SurvivesSinceLastProgress | core/src/tp.rs:693-788 | over every run, once a source falls silent its session lasts exactly as long as the ticks since its announcement or its last kept packet add up to no more than the timeout, 65535 apart |
| TpSessions.WhatATickReports | core/src/tp.rs:766-788 | after every run a session is reported exactly when the ticks since its announcement or its last kept packet exceed the timeout, 65535 apart; with an abort of the announced group if it was a request, with none if a broadcast |
| TpSessions.WhatAPacketDraws | core/src/tp.rs:655-732 | after every run, by the announcement that opened the session and the bytes held: the next bytes are kept and the last of them delivered whole, with an acknowledgement if it was asked for; bytes already held and bytes further on end the transfer with different aborts, or in silence for a broadcast |
| TpTransmitter.Transmitter.New | core/src/tp.rs:922-939 | a sender is built exactly for 9 to 1785 bytes, with the count of packets and the window it starts with |
| TpTransmitter.Transmitter.OnTpCm | core/src/tp.rs:988-1016 | the sender's new cursor, window and completion for every message, zero grants and bad packet numbers included |
| TpTransmitter.Transmitter.NextDt | core/src/tp.rs:1020-1037 | the next packet, padded, and the cursor and window after it |
| TpTransmitter.EveryPacketIsItsChunk | core/src/tp.rs:1020-1037 | for every history of messages, each packet emitted with sequence q is chunk q of the payload, padded with 0xFF |
| TpTransmitter.WindowIsObeyed | core/src/tp.rs:988-1037 | between two accepted grants at most the granted number goes out, consecutively |
| TpTransmitter.GrantOpensItsWindow | core/src/tp.rs:993-1008 | a grant opens a window at the packet it names, no wider than it says, never past the last packet |
| TpTransmitter.GrantIsServed | core/src/tp.rs:993-1037 | pulled often enough, exactly as many packets come as a grant allows or as are left, whatever was sent before |
| TpTransmitter.OnlyGrantsMatter | core/src/tp.rs:988-1037 | over every history nothing that is heard but an accepted grant changes what is sent |
| TpTransmitter.SilentUntilGranted | core/src/tp.rs:1020-1037 | an addressed sender that heard no grant emits nothing |
| TpTransmitter.CompleteIffAcknowledged | core/src/tp.rs:1009-1012 | an addressed sender is complete exactly when it heard an acknowledgement of its group |
| TpTransmitter.EarlyAckCompletes | core/src/tp.rs:1009-1012 | such an acknowledgement may come before anything was sent |
| TpDelivery.StepKeepsInv | core/src/tp.rs:569-1037 | every step of sender, receiver and channels keeps the joint invariant and uses up exactly one of the steps still to come |
| TpDelivery.WindowOpens | core/src/tp.rs:715-728 | windows are of full width but for the last |
| TpDelivery.StuckIsDone | core/src/tp.rs:569-1037 | where no step is possible the message has been delivered once and the sender knows |
| TpDelivery.EveryRunDelivers | core/src/tp.rs:569-1037 | for every payload, stated limit and interleaving, with whatever other peers send and whatever this one says of other transfers in between: a sender that is complete has had its payload delivered, once, an abort of its group leaves no session, and a run ends after exactly 2P + ceil(P/limit) + 2 steps with the payload delivered, the sender complete, exactly ceil(P/limit) windows opened and none wider than the limit |
| TpNetwork.MoveKeepsSafe | core/src/tp.rs:569-1037 | every move of sender, receiver and network keeps the accepted bytes a prefix of the payload, all frames ever sent the sender's own, and an acknowledgement only for what was delivered |
| TpNetwork.NothingButThePayload | core/src/tp.rs:569-1037 | whatever the network loses, repeats or reorders in either direction, and whatever else the receiver serves, times out or is reset: everything delivered for the sender is exactly its payload, and a complete sender means it was delivered |
| EtpReassembler.Reassembler.OnEtpCm | core/src/etp.rs:469-551 | slots and buffers after a message are those of a map from peer to receiver, for every message and refusal |
| EtpReassembler.Reassembler.OnEtpDt | core/src/etp.rs:554-632 | the same for a data packet, placed by its block's offset |
| EtpReassembler.Reassembler.Tick | core/src/etp.rs:444-466 | each stalled session is dropped and reported once, with its abort |
| EtpReassembler.Reassembler.Progress | core/src/etp.rs:415-420 | reports the announced size and the bytes received counted by whole blocks: never more than were accepted, and fewer by less than a block |
| EtpReassembler.Reassembler.FreeSlot | core/src/etp.rs:640-642 | finds a slot exactly when there are fewer sessions than slots |
| EtpReassembler.Reassembler.Abandon | core/src/etp.rs:423-431 | drops one peer's transfer and no other |
| EtpSpec.EveryPacketHasRoom | core/src/etp.rs:584-601 | the packet a session expects always starts inside the message: the abort for a start at or past the end is unreachable, and no step under- or overflows |
| EtpSafety.EveryRunKeepsTheBlocks | core/src/etp.rs:497-632 | over every run: blocks start at 1 + 255k and are min(255, rest) long, the offset is absent or the block's, and exactly the bytes before the next expected packet are held |
| EtpSafety.NonInterference | core/src/etp.rs:469-632 | an event from one source leaves every other session and its bytes alone |
| EtpSessions.SurvivesSinceLastProgress | core/src/etp.rs:444-632 | over every run, once a source falls silent its session lasts exactly as long as the ticks since its request, its last offset taken or its last kept packet add up to no more than the timeout, 65535 apart |
| EtpSessions.WhatATickReports | core/src/etp.rs:444-466 | after every run a session is reported, with an abort of the group requested, exactly when the ticks since its request, its last offset taken or its last kept packet exceed the timeout, 65535 apart |
| EtpSessions.WhatARequestDraws | core/src/etp.rs:471-515 | a request opens a session and is granted its first block exactly if its size is one the protocol carries, the buffer holds it, its source has no session and a slot is free; else nothing changes and it is told which |
| EtpSessions.WhatAnOffsetDraws | core/src/etp.rs:516-539 | after every run an offset is taken exactly if it is that of the block the bytes held lie in, with its length, and starts the block over; any other ends the transfer with an abort |
| EtpSessions.WhatAPacketDraws | core/src/etp.rs:554-632 | after every run, by the request that opened the session, the offset announced and the bytes held: the next bytes are kept, at each 255 packets the next block is granted, the last bytes are delivered whole; bytes held already, bytes further on and bytes before an offset end the transfer with three different aborts |
| EtpSafety.MoveKeepsSafe | core/src/etp.rs:469-797 | every move of sender, receiver and order-preserving lossy channels keeps frames in flight within the block, in order |
| EtpSafety.NothingButThePayload | core/src/etp.rs:469-797 | whatever the channels lose, anything delivered is exactly the payload, at most once, and a complete sender means it was delivered |
| EtpDelivery.MoveKeepsInv | core/src/etp.rs:469-797 | every move of the lossless system keeps the invariant and uses up one of the moves still to come |
| EtpDelivery.EveryRunDelivers | core/src/etp.rs:469-797 | for every payload of 1786 to 117,440,505 bytes and interleaving, with whatever other peers send and whatever this one says of other transfers in between: exactly 2P + 3B + 2 moves with B = ceil(P/255), block k announced with offset 255k, the payload delivered once, complete only when it is, and no session left by an abort of its group |
| EtpTransmitter.Transmitter.New | core/src/etp.rs:695-714 | a sender is built exactly for 1786 to 117,440,505 bytes |
| EtpTransmitter.Transmitter.Offset | core/src/etp.rs:738-748 | the block's offset, once |
| EtpTransmitter.Transmitter.OnEtpCm | core/src/etp.rs:751-778 | the sender's block after every message |
| EtpTransmitter.Transmitter.NextDt | core/src/etp.rs:784-797 | the next packet of the block |
| EtpTransmitter.BlockIsObeyed | core/src/etp.rs:784-797 | between two grants packets are consecutive, within the block, and packet q is the chunk the block's start and q add up to |
| EtpTransmitter.GrantOpensItsBlock | core/src/etp.rs:738-797 | after a grant at packet n, every packet q is chunk n - 1 + q and the offset announced, at most once, is n - 1 |
| EtpTransmitter.GrantIsServed | core/src/etp.rs:738-797 | a grant can be announced with its offset, and asked often enough exactly as many packets come as it allows, as fit a block or as are left |
| EtpTransmitter.OnlyGrantsMatter | core/src/etp.rs:738-797 | over every history nothing that is heard but an accepted grant changes the offsets and packets sent |
| EtpTransmitter.CompleteIffAcknowledged | core/src/etp.rs:751-778 | over every history a sender is complete exactly when it has heard an acknowledgement of its group |
| AddressClaim.SetBit | core/src/address_claim.rs:280-283 | setting an address's bit sets that bit and no other |
| AddressClaim.AddressClaimer.MarkSeen | core/src/address_claim.rs:280-283 | the 32-byte bitmap stands for a set, to which one address is added |
| AddressClaim.AddressClaimer.NextFreeAddress | core/src/address_claim.rs:286-290 | the lowest self-configurable address not seen and not its own, or none if there is none |
| AddressClaim.AddressClaimer.MakeClaim | core/src/address_claim.rs:164-170 | claims a specific address, and gives up a reserved one |
| AddressClaim.AddressClaimer.ContentionWindowElapsed | core/src/address_claim.rs:174-178 | only a claiming ECU becomes claimed |
| AddressClaim.AddressClaimer.OnAddressClaimed | core/src/address_claim.rs:184-210 | remembers the address; defends, moves or gives up its own by NAME |
| AddressClaim.AddressClaimer.OnRequest | core/src/address_claim.rs:216-218 | answers with what it holds |
| AddressClaim.AddressClaimer.OnCommandedAddress | core/src/address_claim.rs:232-255 | moves when it is meant and the address is specific; the three other outcomes change nothing |
| AddressClaim.AddressClaimer.GiveUp | core/src/address_claim.rs:263-270 | holds the null address and says so |
| ClaimHistory.SeenIsClaimed | core/src/address_claim.rs:184-192 | over every life what an ECU remembers is exactly the addresses other ECUs have claimed |
| ClaimHistory.WhatAClaimDraws | core/src/address_claim.rs:184-210 | after every life of an ECU: a lower NAME on its address makes one whose top NAME bit is set claim the lowest of 128 to 247 that is not its own and that no other ECU has claimed in that life, or give up if there is none, and one whose bit is clear give up; a higher NAME is answered; every other claim draws nothing |
| ClaimBus.StepKeepsInv | core/src/address_claim.rs:164-270 | any number of ECUs, any event: if two active ECUs share an address, one's claim is in flight to the other; and when such a claim is heard, the ECU whose NAME comes first keeps the address and answers the other, or the one whose NAME comes second leaves it; active means a specific address, given up means the null one |
| ClaimBus.RunKeepsInv | core/src/address_claim.rs:164-270 | and so over every run |
| ClaimBus.QuietBusHasUniqueAddresses | core/src/address_claim.rs:164-270 | whenever nothing is in flight no two active ECUs hold the same address, whatever was claimed, requested, commanded and in whatever order it arrived |
| ClaimTermination.HearingTakesRoom | core/src/address_claim.rs:184-210 | hearing a claim never gives an ECU more addresses to move to, and losing one takes at least one |
| ClaimTermination.DeliveryLowersMeasure | core/src/address_claim.rs:184-210 | every delivery lowers a measure of the room all ECUs have left and of the claims in flight, weighted by the rank of the sender's NAME |
| ClaimTermination.ContentionTerminates | core/src/address_claim.rs:184-210 | with no new claims, requests or commands no run of deliveries is longer than that measure |
| ClaimTermination.LowestNameKeepsItsAddress | core/src/address_claim.rs:184-210 | the ECU with the lowest NAME never moves and never gives up, unless told to |
| Diagnostics.DtcRoundTrip | core/src/diagnostics.rs:348-366 | a code survives its four bytes if and only if its fields fit their bits |
| Diagnostics.DtcBytesRoundTrip | core/src/diagnostics.rs:348-366 | every four bytes are what their code encodes to |
| Diagnostics.DtcLayout | core/src/diagnostics.rs:348-366 | which of the 32 bits hold the parameter number, the failure mode, the count and the conversion flag |
| Diagnostics.WithStatus | core/src/diagnostics.rs:205-210 | sets one lamp's status and no other lamp's, and no flashing |
| Diagnostics.WithFlashStatus | core/src/diagnostics.rs:214-219 | the same for flashing |
| Diagnostics.LampLayout | core/src/diagnostics.rs:194-219 | which two bits of a lamp byte are whose |
| Diagnostics.LampsAreTheirFields | core/src/diagnostics.rs:194-244 | two pairs of lamp bytes are equal if and only if all eight fields are |
| Diagnostics.Encode | core/src/diagnostics.rs:458-479 | writes the whole payload, padded to a frame, and touches nothing behind it; or refuses with the lengths and touches nothing |
| Diagnostics.PayloadRoundTrip | core/src/diagnostics.rs:387-479 | what is printed is read back, codes in order, for every list but the empty one, whose padding is read as one placeholder |
| Diagnostics.ReencodedPayload | core/src/diagnostics.rs:387-479 | exactly which payloads are what their own parse would print |
| Diagnostics.PrintedFaultFree | core/src/diagnostics.rs:421-427 | a printed list reads as fault-free exactly when it is empty or one placeholder |
| FaultLog.FaultLog.Set | core/src/fault_log.rs:180-211 | the log after raising a fault: refused, refreshed, or added with the count it resumes |
| FaultLog.FaultLog.Clear | core/src/fault_log.rs:219-230 | the log after a fault goes: shifted, recorded, and an all-clear owed if it was the last |
| FaultLog.FaultLog.RecordPrevious | core/src/fault_log.rs:369-384 | a code enters the history, replacing its entry or evicting the oldest |
| FaultLog.FaultLog.RemoveActive | core/src/fault_log.rs:355-361 | code and lamp are taken out at the same place, keeping the order of the rest |
| FaultLog.FaultLog.RemovePrevious | core/src/fault_log.rs:363-367 | one entry is taken out, keeping the order of the rest |
| FaultLog.FaultLog.ForgetActive | core/src/fault_log.rs:240-245 | the active faults are forgotten, and an all-clear owed if there were any |
| FaultLog.FaultLog.ForgetPrevious | core/src/fault_log.rs:251-253 | the history is forgotten and nothing else |
| FaultLog.FaultLog.Tick | core/src/fault_log.rs:339-353 | the timer after a tick, and whether a DM1 is due |
| FaultLog.FaultLog.CurrentLamps | core/src/fault_log.rs:261-267 | a lamp is on if and only if an active fault names it, and none flashes |
| FaultLog.FaultLog.Dm1 | core/src/fault_log.rs:281-288 | writes lamps and active codes, or the zero placeholder when there are none |
| FaultLog.FaultLog.Dm2 | core/src/fault_log.rs:298-303 | writes the history with the lamps off |
| FaultLog.Find | core/src/fault_log.rs:389-391 | the first place a fault stands |
| FaultLogSpec.RecordNeverReplaces | core/src/fault_log.rs:369-376 | the history never holds an active fault, so the replace branch is unreachable |
| FaultLogSpec.WhichFaultsAreRefused | core/src/fault_log.rs:180-211 | a fault is refused exactly when its numbers do not fit or the log is full of others, with an error that says which, and then nothing changes; an accepted one is active and no longer history |
| FaultLogSpec.SetTouchesOneLamp | core/src/fault_log.rs:187-208 | an accepted fault lights the lamp it names, every other fault keeps its own |
| FaultLogSpec.ClearTouchesOneLamp | core/src/fault_log.rs:219-230 | clearing says whether the fault was active; a retired fault takes its own lamp with it and no other |
| FaultHistory.EveryRunKeepsHistory | core/src/fault_log.rs:180-384 | over every run both lists are free of duplicates, disjoint and within capacity; active faults are ordered by latest raise, history by latest clear; each count is min(127, raises since the fault was last forgotten) |
| FaultHistory.WhereAFaultGoes | core/src/fault_log.rs:180-253 | after every run, for every next operation and every fault: it is active exactly if it is raised with room, or was active and is neither cleared nor forgotten; it is history exactly if it is retired, or was and is not raised again, forgotten, or the oldest of a full history into which another is retired |
| FaultHistory.EveryCodeIsConverted | core/src/fault_log.rs:180-253 | over every run every code held is in the current conversion format |
| FaultTiming.RunIsTrace | core/src/fault_log.rs:180-353 | every run of a fresh log is a trace the timing results speak of |
| FaultTiming.TimerMeasures | core/src/fault_log.rs:339-353 | between reports the timer is the time ticked, until it saturates |
| FaultTiming.ReportsWhenDue | core/src/fault_log.rs:339-353 | a tick reports if and only if a second has been ticked since the last report and there is a fault or an all-clear to report |
| FaultTiming.FirstReportIsPrompt | core/src/fault_log.rs:105-117 | the first report of a fresh log does not wait |
| FaultTiming.ReportsAreASecondApart | core/src/fault_log.rs:339-353 | any two reports are at least 1000 ms of ticks apart |
| FaultTiming.GapWhileActive | core/src/fault_log.rs:339-353 | while a fault stays active the gap is less than 1000 ms plus the last tick |
| FaultTiming.AllClearIsReportedOnce | core/src/fault_log.rs:219-245 | from the moment nothing is active until the next fault, exactly one more report comes due, if and only if a tick finds the second over |
| FaultTiming.HealthyIsSilent | core/src/fault_log.rs:339-353 | a log that never held a fault never reports |
| Wire.IdRoundTrip | core/src/id.rs:152-260 | an identifier can be built exactly unless a broadcast group is addressed, and all its fields are read back |
| Wire.FieldsRebuildId | core/src/id.rs:152-221 | every identifier is what its fields build |
| Wire.NewFrame | core/src/frame.rs:71-120 | exactly up to eight bytes fit a frame, and are its data |
| Wire.PgnRoundTrip | core/src/tp.rs:304-342 | a group survives its three bytes |
| Wire.CmRoundTrip | core/src/tp.rs:304-371 | a message survives the wire if and only if it is not an abort with reason Other(1) to Other(8) |
| Wire.OtherThreeIsATimeout | core/src/tp.rs:153-182 | an abort for reason Other(3) comes back as a timeout |
| Wire.CmLayout | core/src/tp.rs:304-342 | which byte holds what of every message, sizes and groups lowest byte first |
| Wire.DecodedCmReencodes | core/src/tp.rs:304-371 | exactly which payloads decoding loses nothing of |
| Wire.DtRoundTrip | core/src/tp.rs:399-420 | packets and their eight bytes correspond one to one |
| EtpWire.RoundTrip | core/src/etp.rs:191-261 | an extended-transport message survives the wire under the same condition |
| EtpWire.Layout | core/src/etp.rs:191-232 | which byte holds what of every message, sizes, packet numbers and groups lowest byte first |
| Outgoing.Outgoing.New | core/src/node.rs:162-187 | picks one frame, a broadcast or an addressed transfer, or refuses |
| Outgoing.Outgoing.NextFrame | core/src/node.rs:233-262 | the next frame and the message's state after it |
| Outgoing.Outgoing.OnFrame | core/src/node.rs:269-285 | only connection management from the destination counts |
| Outgoing.Outgoing.WithPriority | core/src/node.rs:195-198 | changes the priority and nothing else |
| Outgoing.WhatCanBeSent | core/src/node.rs:162-187 | exactly which messages can be sent, the error for those that cannot, and that a long broadcast alone needs pacing |
| Outgoing.EveryFrameIsMarked | core/src/node.rs:206-262 | over every history each frame pulled is marked with its sender: a short message's with its own group, destination, data and the priority it was given, a transfer's with the lowest priority and one of the two transport groups |
| Outgoing.StrangersChangeNothing | core/src/node.rs:269-285 | over every history what anyone but the destination says changes neither the frames pulled nor what the message has come to |
| Outgoing.WhatIsReported | core/src/node.rs:269-285 | after every history a message is reported ready exactly when its destination has granted packets that exist, and then the packet it named is pulled next; done exactly when the destination has acknowledged it, aborted exactly when the destination has aborted it |
| Outgoing.CompleteIffDestinationSaysSo | core/src/node.rs:269-285 | over every history an addressed message is complete exactly when its destination has acknowledged it |
| Outgoing.BroadcastIsItsFrames | core/src/node.rs:206-262 | a long broadcast is its announcement and its packets in order, as many frames as it said, and then it is complete |
| Outgoing.ShortMessageIsOneFrame | core/src/node.rs:206-262 | a message of up to eight bytes is one frame holding it |
| Node.Node.OnFrame | core/src/node.rs:391-447 | every frame is filtered by destination and dispatched to the claimer, the reassembler or the application |
| Node.Node.Tick | core/src/node.rs:364-380 | the window closes at 250 ms, and exactly the stalled addressed transfers draw an abort to their peer, each one frame and no two the same |
| Node.Node.Start | core/src/node.rs:353-357 | the claim announced is the one then held, and the window starts |
| Node.Node.ActOnClaim | core/src/node.rs:500-511 | announcing while claiming reopens the window |
| Node.Node.OnCommandedAddress | core/src/node.rs:483-491 | a command obeyed is announced and reopens the window |
| Node.Node.GiveUpAddress | core/src/node.rs:495-498 | gives up and says so |
| Node.OthersTrafficIsIgnored | core/src/node.rs:396-398 | a frame for another ECU changes nothing |
| Node.NoStormOnBroadcast | core/src/node.rs:421-427 | a broadcast connection-management frame draws no answer |
| Node.AnswersGoToTheSender | core/src/node.rs:515-551 | what a node sends in a transfer goes to the ECU it heard, from the address it holds, at the lowest priority |
| Node.AnswersSayWhatIsAsked | core/src/node.rs:515-551 | a transfer frame for this node alone is answered exactly when its receiver asks for that, and the frame sent decodes to just what it asks |
| Node.WhichRequestsAreAnswered | core/src/node.rs:408-418 | a request is answered with the claim held exactly when it asks for that, and is otherwise the application's |
| Node.CommandIsForOneName | core/src/node.rs:483-491 | a command makes the ECU of the NAME it holds take a specific address, announce it and contend afresh, is refused for a reserved address, and leaves every other ECU as it was |
| Node.NameRoundTrip | core/src/name.rs:211-218 | a NAME survives its eight bytes |
| Node.ClaimsAreHeard | core/src/node.rs:400-405 | a claim one node puts on the bus is, to every other, just that claim |
| Node.ClaimedAfterTheWindow | core/src/node.rs:364-371 | from an announcement to the next, whatever frames arrive, a node holds its address exactly when 250 ms have been ticked |
| Node.StartedNodeWaits | core/src/node.rs:353-371 | from its start a node holds a specific address exactly when 250 ms have been ticked, unless contested, and gives up a reserved one |
| Node.AnnouncementRestartsTheWindow | core/src/node.rs:500-511 | every announcement while claiming starts the window again |
| AddressedTransfer.StepFollows | core/src/node.rs:206-447 | every step of frames is a step of the messages they carry, or none, and uses up exactly one of the steps still to come |
| AddressedTransfer.AddressedMessageArrives | core/src/node.rs:162-447 | for every group, every payload of 9 to 1785 bytes and every interleaving of frames pulled, frames heard and whatever else sender and node live through: the node's application is handed nothing but this message, once, with its acknowledgement as the reply; the sender is complete only when it has been; and a run ends after exactly 2P + 4 steps with both |
| FaultReport.BroadcastArrives | core/src/node.rs:162-447 | a broadcast framed by its sender and heard by a node with room, amid any traffic of others and ticks within the timeout, is delivered exactly once |
| FaultReport.NothingButTheBroadcast | core/src/node.rs:391-447 | on a hostile network every multi-frame message handed over from a broadcasting ECU is that broadcast, byte for byte |
| FaultReport.WhichLogsCanBeBroadcast | core/src/fault_log.rs:281-308 | a DM1 can be broadcast exactly up to 445 active faults |
| FaultReport.FaultReportArrives | core/src/fault_log.rs:261-288 | for every log with up to 445 active faults, another node's application receives one DM1, which reads as the log's lamps and active faults in order, and as fault-free exactly when nothing is active, the two placeholder keys apart |
| FaultReport.Dm2Reads | core/src/fault_log.rs:298-303 | a DM2 reads as the history in order with every lamp off and none flashing, and as fault-free exactly when there is none, the two placeholder keys apart |
| FaultReport.ActiveFaultReadsAsNone | core/src/diagnostics.rs:326-345 | a log in which a fault is accepted under the key (0, 0) and is active, and whose DM1 reads as fault-free |
| FaultReport.FreshNodeReadsTheReport | core/src/node.rs:391-447 | the plainest run of all: a fresh node with 1785 bytes and one slot hears the frames and nothing else |
| ScheduleSpec.SendEveryTouchesOneEntry | core/src/schedule.rs:148-180 | refused, changing nothing, exactly for a zero period or a full schedule, with an error that says which; a new message starts at phase zero, a known one keeps its phase as far as the new period reaches and whether it waits, and every other message is as it was |
| ScheduleSpec.RemoveTouchesOneEntry | core/src/schedule.rs:184-193 | the message is gone, every other is as it was |
| ScheduleSpec.TickTouchesEveryEntry | core/src/schedule.rs:235-252 | a tick moves the timer of every message, or of none while suspended |
| ScheduleSpec.NextDueTouchesOneEntry | core/src/schedule.rs:275-282 | what is handed out was due, only that stops being due, and nothing is handed out exactly when nothing is due |
| ScheduleSpec.SuspendTouchesEveryEntry | core/src/schedule.rs:293-298 | suspending drops whether a message waits, and keeps its period and phase |
| ScheduleSpec.TickKeepsInv | core/src/schedule.rs:235-252 | no entry falls a whole period behind, and nothing is due while suspended |
| Schedule.Schedule.SendEvery | core/src/schedule.rs:148-180 | registers, changes a period keeping the phase, or refuses |
| Schedule.Schedule.Remove | core/src/schedule.rs:184-193 | takes one entry out, keeping the order of the rest |
| Schedule.Schedule.Tick | core/src/schedule.rs:235-257 | every timer advances, or only the suspension; how many messages wait |
| Schedule.Schedule.NextDue | core/src/schedule.rs:275-282 | hands out the first due message and clears it |
| Schedule.Schedule.Suspend | core/src/schedule.rs:293-298 | drops what is due and starts the suspension |
| Schedule.Schedule.Resume | core/src/schedule.rs:303-305 | ends the suspension and touches no entry |
| Schedule.Schedule.Clear | core/src/schedule.rs:196-198 | drops every entry |
| ScheduleTiming.TickIsExact | core/src/schedule.rs:244-249 | an entry comes due exactly when the tick crosses a multiple of its period, and stays in step if the tick is at most 65536 less the period |
| ScheduleTiming.CrossesIffMultiple | core/src/schedule.rs:244-249 | crossing means that a multiple of the period lies in the tick's interval |
| ScheduleTiming.PhaseKeptUnlessClipped | core/src/schedule.rs:245 | exactly when one tick keeps the phase of one entry |
| ScheduleTiming.TicksThatKeepEveryPhase | core/src/schedule.rs:235-252 | a tick keeps the phase of every entry of a period, wherever it stands, if and only if it is at most 65536 less the period |
| ScheduleTiming.ClippingLosesPhase | core/src/schedule.rs:245 | a period and a tick for which it does not |
| ScheduleTiming.DrainsEverything | core/src/schedule.rs:275-282 | draining hands out every due message once, in registration order, and leaves none |
| ScheduleTiming.CountIsWhatDrains | core/src/schedule.rs:235-282 | the number a tick returns is how many messages are then handed out |
| ScheduleTiming.EntryStaysInStep | core/src/schedule.rs:235-282 | over every run of ticks, messages taken or left waiting, registrations, removals, suspensions and resumptions that does not register or remove it, an entry's timer is the time run while not suspended, modulo its period |
| ScheduleTiming.CrossingsAreAccountedFor | core/src/schedule.rs:235-298 | over every such run each crossing of a multiple of the period is one message that has gone out, still waits, was merged with one that waited already, or was dropped by a suspension |
| ScheduleTiming.SendsAreTotalOverPeriod | core/src/schedule.rs:235-282 | taken before the next tick or suspension, with ticks no longer than the period, it goes out exactly floor(time run / period) times, whatever the others do and whatever suspensions there are |
| ScheduleTiming.SuspensionRunsDown | core/src/schedule.rs:235-298 | over every run that neither renews nor resumes it, a suspension has left what it had less the time ticked, down to nothing |
| ScheduleTiming.SuspensionEndsOnTime | core/src/schedule.rs:235-298 | a suspension of T ms that is not renewed or cut short, whatever is taken, registered and removed in it, is over exactly when its ticks add up to T; till then and at its end nothing is due and nothing goes out |
| ScheduleTiming.SuspensionKeepsPhase | core/src/schedule.rs:235-298 | from the suspension to its end a message neither registered again nor removed has the period and the phase it had, and does not wait |
| ScheduleTiming.RateChangeMovesATimer | core/src/schedule.rs:156-162 | the one thing that moves a timer in a suspension: a message 900 ms into a period of 1000 ms, registered again at 100 ms, stands at 99 |
| ScheduleTiming.ResumesInPhase | core/src/schedule.rs:303-305 | resumed at once or at the first tick after running out, after any such run, an entry continues from the phase it had when suspended, so that tick alone decides whether it comes due |
| Signal.Extract | host/src/dbc.rs:210-253 | the raw field in either byte order, or which of two errors |
| Signal.ExtractIsFieldValue | host/src/dbc.rs:222-252 | for every payload, start and width the Motorola walk is the matching slice of the big-endian integer; for every one that ends within 65536 bits the little-endian loop is the slice floor(n / 2^start) mod 2^width of the little-endian integer |
| Signal.LittleEndianIsExactUpTo65536 | host/src/dbc.rs:222-230 | exactly the fields that end within 65536 bits are read right from every payload |
| Signal.RequiredLenIsTheLastByte | host/src/dbc.rs:189-207 | a payload is long enough if and only if it holds every byte touched; the length asked for is the last of them plus one, in both orders |
| Signal.WalkIsStraight | host/src/dbc.rs:236-250 | the sawtooth order is a straight line from the most significant bit |
| Signal.SignExtendIsTwosComplement | host/src/dbc.rs:321-332 | the result is the one number in the signed range congruent to the bits |
| Spn.Extract | core/src/spn.rs:182-206 | the classified field, or which of two errors |
| Spn.ExtractClassifiesTheField | core/src/spn.rs:182-206 | for every field that ends within 65536 bits, what is classified is the slice of the payload's little-endian integer |
| Spn.ClassifyIsByBands | core/src/spn.rs:260-304 | every value falls in exactly one band, in the order valid, reserved, error, not available, and a valid one is itself |
| Spn.AllOnesIsNotAvailable | core/src/spn.rs:260-304 | all ones means not available in every field of two bits or more |
| Identification.Fields.Next | core/src/identification.rs:56-73 | the iterator's next field, what is left being the rest of the fields |
| Identification.Encode | core/src/identification.rs:107-123 | writes every field with its delimiter, or refuses and writes nothing |
| Identification.EncodeSoftware | core/src/identification.rs:282-297 | the same behind a count byte, and what each error leaves in the buffer |
| Identification.FieldsRoundTrip | core/src/identification.rs:56-123 | what is printed is read back if and only if no field holds a delimiter |
| Identification.PayloadRoundTrip | core/src/identification.rs:56-123 | re-encoding a payload's fields gives it back, with a delimiter added if it was not empty and did not end in one |
| Identification.FieldCount | core/src/identification.rs:161-163 | one field for each delimiter, and one more if the payload ends without |
| Identification.SoftwareRoundTrip | core/src/identification.rs:231-297 | up to 255 fields: the count agrees, and the fields are read back, if and only if none holds a delimiter |

## Left out

- Sockets, wall clocks, sleeping and blocking loops (`host/src/ecu.rs`, `host/src/transport.rs`, `host/src/bus.rs`): time enters only as tick arguments.
- BAM pacing and the T2 to T4 constants: pacing is the caller's, and the constants are not used by the code.
- `host/src/log.rs` and the parsing of DBC text: string handling.
- Floating-point scaling in `Spn::decode` and `Signal::decode`: the model stops at the raw integer, its sign extension and its classification.
- Single-message codecs (NAME fields, memory access, ISO 11783 groups, proprietary groups, acknowledgements, DM5, DM13): finite round trips. A NAME is a 64-bit number with its top bit.
- `core/src/can.rs`, `Display`, `Debug` and `defmt` output, and the table of SPN definitions: wrappers and data.
- Bus arbitration, bit timing and error frames: not in the code.
- Borrowing: payloads that the source borrows (a sender's data, a delivered message) are sequences, so that the borrow ends before the next call is not modelled.
- EtpSpec.EveryPacketHasRoom: the `start >= end` abort and the sender's `absolute > packets` guard are proved unreachable and left out of the methods.
- The 24-bit fields of the extended transport's messages have 24-bit types, so building a message from a larger value than the wire can carry is not modelled.
- EtpSafety.NothingButThePayload: channels may lose frames but keep their order, because sequence numbers repeat in every block and nothing in a packet says which block it is of.
- ScheduleTiming.EntryStaysInStep: ticks that count are of up to 65536 less the period, because a longer one may be clipped; `TicksThatKeepEveryPhase` says that no wider bound would do.
- AddressedTransfer.AddressedMessageArrives: the frames of the transfer are not lost; the node keeps its address and lives through no tick that times the transfer out. `TpNetwork.NothingButThePayload` has loss, repetition and reordering, between sender and receiver without the node.
- EtpSafety.MoveKeepsSafe: the sender's caller puts a block's offset out before its packets, as the source tells it to (`core/src/etp.rs:780-783`); a caller that does not is not modelled.
- FaultLog.FaultLog.Dm1: the lengths `dm1_len` and `dm2_len` are those of the payload written.
