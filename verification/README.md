# A verified model of EPICS Diode

EPICS Diode replicates EPICS process variables over a one-way UDP link. A sender watches channels over Channel Access
(or pvAccess), coalesces their updates in a queue, packs them into packets of at most 65504 bytes and cuts larger values
into fragments. A receiver on the other side, which can never answer, checks the sender's session and sequence numbers,
puts fragments together again and calls back for every update; it reports channels that have fallen silent. The model
follows the code step by step: what the code keeps in objects is kept in classes, its loops are loops, and every method is
proved against a specification function about which the protocol's laws are then proved.

- `Bytes`, `Protocol`: bytes, the message formats, and the cursor `Serializer` with its sticky flag
- `Layout`: the indices of records and fields, and the groups that they form
- `SenderQueue`, `Packing`, `Sender`: the update queue and heartbeats, packets and fragments, the sender object
- `Packets`: how full the packets of the sender are, and how its messages are numbered
- `Receiver`: the pure receiver of a datagram, and the receiver object that refines it
- `EndToEnd`, `Replication`, `LastCallback`: from the queue to the callbacks, for one drain and for whole runs, and what
  the receiver's client then knows
- `Reassembly`, `SequenceWindow`, `Session`, `MessageChain`, `Truncation`, `Timeouts`: the receiver under loss,
  repetition, reordering, wrap-around, several senders, several submessages in a packet, cut packets and silence
- `ReceiverLoop`: the loop of the receiver, and why the heartbeat keeps it from reporting what is alive
- `PvaDelta`, `TypeCache`, `PvaWire`: delta updates and the type cache of the pvAccess variant, and its wire codec
- `RateLimit`, `DevDiode`: the rate limit of the transport, and the skip-if-unchanged put of the receiving IOC

Provisos of the theorems:

- `dbr_size_n` is a parameter; it is only known to be at least 1 and at least the count. Channel Access delivers values of
  the size that their type and count announce.
- The end-to-end theorems take every queued group to be sendable. This is exactly the condition under which
  `send_updates` ends; records without fields always meet it.
- Clocks never go back. Sizes, counts and numbers are unbounded integers; widths, wrap-around and truncation of the wire
  format are written out.
- A read behind the received bytes, but inside the receive buffer, finds what an earlier datagram left there. A read
  behind the buffer is an outcome of its own (`wild`).

Where the code departs from its documents or comments the model follows the code:

- The receiver drops what follows a submessage that announces a next one inside the packet, and goes on where the
  announcement is out of bounds (src/receiver.cpp:383), so unknown submessages are not skipped; the sender makes packets
  with one submessage only: `MessageChain.AsIntendedIff`, `MessageChain.ProcessedWholeIff`,
  `MessageChain.UnknownHidesRest`.
- The order check accepts an immediate repetition and moves the last number when it rejects
  (src/receiver.cpp:186-191), so repeated and old messages are processed: `SequenceWindow.NeverRepeatedIff`,
  `SequenceWindow.NeverStaleIff`, `SequenceWindow.ByProtocolIff`.
- Sequence number 65535 doubles as the marker for "no fragment set", which does harm exactly if it numbers a value of
  two fragments or more: `Reassembly.NeverConfusedIff`, `Reassembly.MisledIffConfused`, `Reassembly.MarkerMixes`.
- A newer sender does not close the fragment set that a former one has left unfinished: `Reassembly.NeverConfusedIff`,
  `Reassembly.TakeOverMixes`. Nor does it clear the type cache: `TypeCache.RestartAgreesIff`.
- The number of bytes left is an unsigned difference, so the cursor takes everything for good once it has been moved
  past its limit, and cut packets do cause wrong callbacks: `Truncation.CutIsHarmlessIff`,
  `Truncation.CutFragmentIsHarmlessIff`.
- A configuration hash of 0 does not disable the check: `Session.ZeroHashIsChecked`.
- Records with fields are sent on every heartbeat, updated or not: `SenderQueue.HeartbeatExact`.
- A polled field whose count changes while its bytes stay the same is not sent: `LastCallback.ClientKnowsValue`.
- Some groups with fields make `send_updates` loop for ever: `Packing.BlockedForever`.
- Fragments carry the record's value without its fields, and do not count as a sign of life:
  `Timeouts.FragmentsDoNotCount`, and `Timeouts.UntouchedFiresIff` for whole runs.
- `merge` copies nothing below a marked sub-structure, and needs a complete first value: `PvaDelta.MergeCorrectIff`,
  `PvaDelta.FirstMustBeComplete`, `PvaDelta.MissingIsNeverSent`.
- Update numbers repeat after 65536 updates, and a wrong delta is then accepted: `PvaDelta.AliasShowsIff`,
  `PvaDelta.AliasShowsWrong`. They begin at 0 again after a restart, while the receiver keeps its value and number:
  `PvaDelta.FollowsIff`.
- The flags of a pvAccess header may claim an order in which the length was not written:
  `PvaWire.HeaderRoundTripIff`.
- With several destinations the rate limit counts one of them only: `RateLimit.BoundIsReached`.
- The put of the IOC compares neither types nor the alarm that is shown, and puts a refused value again only if it has an
  alarm: `DevDiode.OtherTypeIsLost`, `DevDiode.AlarmStaysIff`, `DevDiode.RetriedIff`, and `DevDiode.ShowsAllIff` for
  all runs.
- With 65536 types or more, or one that is too large, announcing types goes on for ever: `TypeCache.AnnouncingEndsIff`.

## Model

| member | source | states |
|---|---|---|
| `LastCallback.ClientKnowsAll` | src/sender.cpp:263-289 | replication over whole runs on a network that loses nothing: from iteration 2 * heartbeat - 1 on, after every iteration, the last callback for a channel tells the count, bytes and type that the channel has at the sender; for all channels that are not polled, but for the fields of a record that is sent as fragments |
| `LastCallback.ClientKnows` | src/sender.cpp:263-442 | the same from the first transmission of the record on |
| `LastCallback.ClientKnowsValue` | src/sender.cpp:263-507 | replication with polled fields: under a hash that tells values of one size apart the last callback for any channel, polled or not, tells its bytes and type, and its count unless the field is polled and the count changed without changing the bytes |
| `LastCallback.ToldIff` | src/sender.cpp:263-442 | for every channel, also polled fields and fields of records that are sent as fragments: the last callback tells the state of the channel iff some iteration has carried it and what a callback tells of it has not changed since |
| `LastCallback.LastIsCarried` | src/sender.cpp:405-442 | the last callback for a channel is that of the last iteration that carried it |
| `LastCallback.LastOfQueue` | src/sender.cpp:405-427 | the callbacks of a drained queue tell the state of every channel of a queued record and do not touch the others |
| `LastCallback.UnmarkedIsAlike` | src/sender.cpp:475-571 | a channel whose record is not marked has not changed, but for the type of a channel that is not connected; a polled one, if the hash tells values of one size apart, but for a count that does not change the size |
| `Replication.SessionOf` | src/sender.cpp:263-289 | what a sender object has put on the wire over any number of calls of run is the wire of such a run with every receiver that is ready for its first number |
| `Replication.Fresh` | src/sender.cpp:263-289 | over whole runs of a sender and a receiver on a network that loses nothing: in any stretch of 2 * heartbeat - 1 iterations one iteration calls back for record r in one piece, and every channel of the sender then holds what Channel Access reported last in the whole run |
| `Replication.RunArrives` | src/sender.cpp:263-442 | every iteration of such a run makes exactly the callbacks of the records that it transmits, in queue order, and leaves the receiver ready for the next sequence number |
| `Replication.StepExists` | src/sender.cpp:383-442 | such a run never gets stuck: whenever all queued groups can be sent, the next step of the wire exists |
| `Replication.FirstContact` | src/receiver.cpp:227-240 | a receiver that has heard only older senders is ready for the first number of a newly started one |
| `Replication.SenderHoldsNewest` | src/sender.cpp:475-571 | at every point of a run each channel holds the count, value and type of its newest event since the start |
| `EndToEnd.DrainArrives` | src/sender.cpp:383-442 | byte-level round trip: the packets of send_updates, parsed by the receiver, give exactly the callbacks of the queued records in queue order (id, type, count, bytes), if every group can be sent |
| `EndToEnd.PassArrives` | src/sender.cpp:385-441 | the same for one pass of the loop and exactly the records that it takes off the queue |
| `EndToEnd.NewestArrives` | src/sender.cpp:475-571 | from Channel Access to callbacks: one callback group for each marked record, in order of first marking, with the newest count and bytes of every channel |
| `EndToEnd.DataArrives` | src/receiver.cpp:293-333 | a data packet in the receive buffer is parsed into exactly its updates if its number is in the window, and into nothing otherwise |
| `EndToEnd.ItemsArrive` | src/receiver.cpp:299-330 | every update of a data message is found at its 8-byte boundary, once, in order and whole |
| `EndToEnd.FragmentArrives` | src/receiver.cpp:334-376 | order check and reassembly see exactly the fragment that was sent |
| `EndToEnd.SetArrives` | src/sender.cpp:319-365 | fragment round trip: the packets of a value of at most 65536 fragments, in order, make one callback with the identical bytes |
| `EndToEnd.WireItemOk` | src/sender.cpp:408-419 | an unfragmented connected value never has the disconnect code 0xFFFF as its count: the code on the wire means disconnected and nothing else |
| `EndToEnd.FilledOk` | src/sender.cpp:405-427 | a filled data packet stays within its room and carries the callbacks of its groups, each group contiguous |
| `EndToEnd.EventsKeepChannelsOk` | src/sender.cpp:475-571 | every Channel Access event keeps value sizes in agreement with type and count |
| `Reassembly.OnlyWholeValues` | src/receiver.cpp:194-376 | reassembly safety: under any loss, repetition and reordering of the packets of a session every callback carries an update of a data message or the complete bytes of one sent value, unless a fragment is taken for the continuation of a set that is not open |
| `Reassembly.FragmentStep` | src/receiver.cpp:194-225 | one fragment, whichever and whenever: the open set stays a prefix of one sent value |
| `Reassembly.MisledIffConfused` | src/receiver.cpp:208-224 | the order check decides as if it knew whether a set of the session is open, but for exactly one situation |
| `Reassembly.NeverConfusedIff` | src/receiver.cpp:194-240 | at the beginning of a session no order of arrival meets that situation iff the set left over from before has no continuation in the new stream, and 65535 is not used or for a single fragment only |
| `Reassembly.MarkerConfuses` | src/receiver.cpp:208-222 | otherwise repetitions of one fragment with the number 65535 meet it, from every state in which no set is open |
| `Reassembly.NewSessionSafe` | src/receiver.cpp:194-376 | under that condition every receiver, new or with a set left over, is safe with a sender that it hears for the first time |
| `Reassembly.TakeOver` | src/receiver.cpp:227-240 | a newer sender makes the receiver forget its sequence number, and nothing else |
| `Reassembly.TakeOverMixes` | src/receiver.cpp:208-240 | otherwise the rest of a value of the newer sender completes the unfinished value of the former one, and the mixture is reported |
| `Reassembly.MarkerMixes` | src/receiver.cpp:208-222 | with 65535, for every pair of oversized values of one length there is an arrival order after which the receiver reports a mixture of the two |
| `Reassembly.PiecesAreSent` | src/sender.cpp:329-364 | packet k of a fragmented value holds piece k, and there are exactly as many packets as pieces |
| `SequenceWindow.WindowExact` | src/receiver.cpp:178-192 | with unbounded true numbers, a message displaced by d in [-32769, 32766] is accepted iff d >= 0 |
| `SequenceWindow.WindowIsTight` | src/receiver.cpp:186-191 | the two bounds of that reach are exact |
| `SequenceWindow.AcceptedIsOrdered` | src/receiver.cpp:178-192 | the trace of decisions used below is what the order check does, message after message |
| `SequenceWindow.AcceptedExact` | src/receiver.cpp:178-192 | through any number of wrap-arounds a message is accepted iff it is not older than its predecessor |
| `SequenceWindow.InOrderAccepted` | src/receiver.cpp:178-192 | a stream in order with gaps below 32767 is accepted from its second message on |
| `SequenceWindow.NeverStaleIff` | src/receiver.cpp:186-191 | no old message is ever processed iff no late arrival is followed at once by one at least as new that is still late |
| `SequenceWindow.NeverRepeatedIff` | src/receiver.cpp:186-191 | no message is processed twice iff none arrives again right behind itself or an older one |
| `SequenceWindow.ImmediateRepeat` | src/receiver.cpp:189-191 | a message that arrives twice in a row is always processed twice |
| `SequenceWindow.ByProtocolIff` | documentation/protocol.rst:143-145 | exactly the messages newer than all before are processed iff no message that is not new comes behind one no newer |
| `SequenceWindow.LateThenNext` | src/receiver.cpp:186 | because the last number moves on rejection, the successor of every rejected late message is processed |
| `Session.PacketStep` | src/receiver.cpp:257-278 | a packet is heard iff magic, hash and startup time are right; one that is not changes nothing |
| `Session.StartupNeverDecreases` | src/receiver.cpp:227-240 | the startup time never decreases over any trace of datagrams |
| `Session.CallbacksFromNewestSender` | src/receiver.cpp:257-278 | every callback comes from a valid packet of a sender no older than any heard before |
| `Session.ZeroHashIsChecked` | src/receiver.cpp:267-271 | a configuration hash of 0 does not disable the check |
| `MessageChain.FirstIsAll` | src/receiver.cpp:378-389 | when the first submessage announces a next one inside the packet, the packet has the effect of the first message alone |
| `MessageChain.GoesOnIff` | src/receiver.cpp:378-389 | the loop goes on iff the next header is announced outside the packet, behind the message where the cursor stands, if there is a header |
| `MessageChain.HandledInTurn` | src/receiver.cpp:280-390 | what the loop does is exactly what the messages that it handles do, in turn |
| `MessageChain.AsIntendedIff` | src/receiver.cpp:280-390 | for every packet the receiver does what the protocol says iff no next submessage is announced or what would come next has no effect |
| `MessageChain.ChainIsInTurn` | documentation/protocol.rst:17-35 | the protocol handles all the submessages of a well-formed packet in turn |
| `MessageChain.ProcessedWholeIff` | src/receiver.cpp:280-390 | such a packet is processed whole iff it has one submessage, or the first one ends all handling, or the later ones cause nothing |
| `MessageChain.UnknownHidesRest` | documentation/protocol.rst:98-100 | for every unknown kind of submessage and all updates behind it: the protocol delivers the updates, the receiver none |
| `Truncation.CutIsHarmlessIff` | src/receiver.cpp:299-330 | a cut data packet makes only callbacks of sent updates, whatever the buffer held before, iff the cut is in the header of an update or in the padding behind the last one |
| `Truncation.CutFragmentIsHarmlessIff` | src/receiver.cpp:351-366 | a cut fragment is taken as it was sent, whatever the buffer held before, iff only its padding was cut off |
| `Truncation.CutFragment` | src/receiver.cpp:334-376 | otherwise its announced number of bytes is taken from the buffer, received or not |
| `Truncation.TooShort` | src/receiver.cpp:257-294 | a packet too short for a message header causes no callback |
| `Truncation.TooShortForFragment` | src/receiver.cpp:334-337 | nor does one that is too short for the header of its fragment message |
| `Timeouts.FiresOnlyAfterSilence` | src/receiver.cpp:88-111 | a timeout fires only if the loop clock shows at least two heartbeat periods since the last accepted update |
| `Timeouts.NeverTwice` | src/receiver.cpp:95-99 | a channel is not reported twice without an accepted update in between |
| `Timeouts.FiresInTime` | src/receiver.cpp:88-133 | a channel that falls silent is reported no later than ceil(2h) + ceil(h) + the loop gap |
| `Timeouts.FiresIsReported` | src/receiver.cpp:94-108 | these timeouts are exactly the ones that check_no_updates reports |
| `Timeouts.ReportedOnce` | src/receiver.cpp:94-108 | a check reports each channel once, in index order |
| `Timeouts.SecsTruncates` | src/receiver.cpp:88-111 | elapsed time counts in whole seconds, truncated towards zero |
| `Timeouts.FragmentsDoNotCount` | src/receiver.cpp:359-366 | fragments leave every channel as silent as it was |
| `Timeouts.UntouchedFiresIff` | src/receiver.cpp:88-133 | a channel that no data message updates from some pass on, whatever fragments arrive for it, is reported by exactly the first pass whose check is made two heartbeats after its stamp, and by no later one |
| `Timeouts.NotWhileFresh` | src/receiver.cpp:94-108 | no timeout fires while the clock shows less than two heartbeats since some update |
| `ReceiverLoop.NoFalseTimeouts` | src/receiver.cpp:88-133 | on a network that loses nothing, as long as 2 * heartbeat - 1 iterations of the sender arrive before the loop clock shows two heartbeats, no timeout fires for a channel of a record that is not sent as fragments |
| `ReceiverLoop.DrainTouches` | src/receiver.cpp:299-330 | the packets of a drain refresh every channel of every queued record that is not sent as fragments |
| `ReceiverLoop.RunIsLoop` | src/receiver.cpp:113-133 | every run of the receiver is a loop of which all these laws about timeouts speak |
| `ReceiverLoop.PassIsPass` | src/receiver.cpp:119-125 | one pass does to flags and times exactly what these laws take it to do, with the updates that it accepts |
| `ReceiverLoop.PassReports` | src/receiver.cpp:88-133 | the timeouts that one pass of the object makes are exactly the channels that have been silent, each once and in index order |
| `ReceiverLoop.FeedTouches` | src/receiver.cpp:306-312 | the flags and times after some packets are those of the accepted updates and of nothing else |
| `ReceiverLoop.ReceivePass` | src/receiver.cpp:119-125 | one pass of the object: at most 100 datagrams, the clock, the check |
| `ReceiverLoop.Run` | src/receiver.cpp:113-133 | the loop of run up to the end of its runtime, pass by pass |
| `SenderQueue.HeartbeatBound` | src/sender.cpp:263-289 | in any stretch of 2 * heartbeat - 1 iterations of any run every record is transmitted |
| `SenderQueue.TransmissionGap` | src/sender.cpp:263-289 | two consecutive transmissions of a record are at most 2 * heartbeat - 1 iterations apart |
| `SenderQueue.CounterMeansSent` | src/sender.cpp:83-105 | the counter of a record is positive iff it was transmitted since the last tick, so every window between ticks has a transmission |
| `SenderQueue.CounterIff` | src/sender.cpp:83-105 | the same over whole runs of the sender |
| `SenderQueue.TransmittedIff` | src/sender.cpp:83-105 | over whole runs: an iteration transmits a record iff one of its events marks it, or it is a heartbeat tick and the record has a field or was not transmitted since the last tick |
| `SenderQueue.QueuedIffMarked` | src/sender.cpp:475-571 | over any history of events: a record is queued iff it was, or a channel of it was disconnected, or a channel of it that is not polled got a value, or a polled one got a value of another size than it held or of another hash than its newest value before |
| `SenderQueue.HeartbeatExact` | src/sender.cpp:445-461 | after a heartbeat check a record is queued iff it was, or had no update since the last check, or has a field |
| `SenderQueue.RunKeepsInv` | src/sender.cpp:83-115 | in every run only records are queued, none twice, and a record is queued iff its pending flag is set; the queue is empty after each iteration |
| `SenderQueue.RunExists` | src/sender.cpp:263-289 | whatever Channel Access reports, there is such a run |
| `SenderQueue.QueueIsFirstMarkings` | src/sender.cpp:83-93 | coalescing: events append each newly marked record once, in order of first marking |
| `Packets.FirstValueMarks` | src/sender.cpp:488-507 | the first value that a channel ever gets marks its record, also that of a polled field |
| `Packets.NewIsDisconnected` | src/sender.cpp:38-45 | a channel that was never connected goes on the wire with the disconnect code and no bytes |
| `SenderQueue.ChannelsHoldNewest` | src/sender.cpp:475-571 | whatever is coalesced, a channel has the count and value of its newest event, the type of its newest connection, and, if polled, the hash of its newest value |
| `Packing.LoopEndsIffAllSendable` | src/sender.cpp:383-442 | the loop of send_updates ends iff every queued group is sendable (aligned size at most 65472 and value size at most 65464, or record value above 65464) |
| `Packing.BlockedForever` | src/sender.cpp:405-427 | a queue whose first group is not sendable stays the same for every number of passes |
| `Packing.PassProgress` | src/sender.cpp:405-440 | a pass takes only sendable groups, and takes none iff the first one is not sendable |
| `Packing.DrainStops` | src/sender.cpp:383-442 | a drain leaves exactly the queue from the first group that is not sendable on |
| `Packets.FillExact` | src/sender.cpp:405-427 | groups go into a data packet while they fit: their bytes stay within the room, and the first group left out is too large for any packet or exceeds the room |
| `Packets.PassTakes` | src/sender.cpp:405-440 | one pass takes the groups that fit; if the next one is too large for any packet, also the oversized records from there on, up to the first that is not oversized |
| `Packets.DrainNumbered` | src/sender.cpp:319-442 | the messages of a drain have consecutive numbers modulo 65536; a data message is one packet, the packets of a fragmented value share a number and count their fragments from 0 |
| `Packets.RunNumbered` | src/sender.cpp:263-442 | so have all the messages of a run, whatever its iterations send |
| `Packing.SingleIsSendable` | src/sender.cpp:367-380 | a record without fields is always sendable |
| `Packing.SomeGroupBlocks` | src/sender.cpp:145-163 | a group of two members that fits by value but not with its headers, and blocks for ever |
| `Packing.ReservedIsWritten` | src/sender.cpp:153-163 | the space reserved for a group is exactly what its updates take on the wire |
| `Packing.GroupSizes` | src/sender.cpp:145-163 | the loops over a group compute its value size and its aligned size |
| `Sender.Sender.constructor` | src/sender.cpp:233-255 | channels laid out by the configuration, empty queue, preset header |
| `Sender.Sender.MarkUpdate` | src/sender.cpp:83-93 | marks the record of a channel once; keeps the queue invariant |
| `Sender.Sender.MarkHeartbeatUpdate` | src/sender.cpp:95-105 | marks if there was no update since the last check and resets the counter |
| `Sender.Sender.MarkHeartbeatUpdates` | src/sender.cpp:445-461 | the check of all channels in index order |
| `Sender.Sender.ClearUpdate` | src/sender.cpp:107-115 | takes the first record off the queue; keeps the queue invariant |
| `Sender.Sender.HandleEvent` | src/sender.cpp:475-571 | new channel state and marking of a value, connect or disconnect event, with change detection for polled fields |
| `Sender.Sender.WriteGroup` | src/sender.cpp:416-422 | appends exactly the bytes of the group, each member padded to 8 bytes |
| `Sender.Sender.SendFragment` | src/sender.cpp:329-364 | one fragment packet of at most 65460 data bytes |
| `Sender.Sender.SendFragmentedUpdate` | src/sender.cpp:319-365 | sends the fragment packets of one value under one sequence number |
| `Sender.Sender.SendFragmentedUpdates` | src/sender.cpp:367-380 | sends and clears the longest run of oversized records |
| `Sender.Sender.TakeGroup` | src/sender.cpp:405-427 | takes the first group into the packet iff it is not too large and there is room |
| `Sender.Sender.FillPacket` | src/sender.cpp:405-427 | fills the packet with the longest prefix of groups that fits |
| `Sender.Sender.FinishData` | src/sender.cpp:429-436 | patches the update count and sends the finished data packet |
| `Sender.Sender.SendPass` | src/sender.cpp:385-441 | one pass: data packet, then fragments, refining the packets of the specification |
| `Sender.Sender.SendUpdates` | src/sender.cpp:383-442 | puts exactly the drain of the queue on the wire and drains it iff all groups are sendable |
| `Sender.Sender.Iterate` | src/sender.cpp:263-289 | one iteration of run: the packets and the next number are those of the drain of all that is ready, and it is an iteration of the runs above when it drains the queue |
| `Sender.Sender.RunUntil` | src/sender.cpp:263-289 | the loop of run: the history of the object, records and wire, grows by exactly the iterations made, up to one that cannot be drained |
| `Sender.OneMoreIteration` | src/sender.cpp:267-282 | a history with one more iteration is a run with its wire again |
| `Receiver.Receiver.constructor` | src/receiver.cpp:33-86 | a new receiver: no sequence number, no fragment set, no sender, all channels unheard |
| `Receiver.Receiver.ValidateOrder` | src/receiver.cpp:178-192 | the sequence check; the last number moves in any case |
| `Receiver.Receiver.ValidateFragmentOrder` | src/receiver.cpp:194-225 | the fragment check with its marker 65535 |
| `Receiver.Receiver.ValidateSender` | src/receiver.cpp:227-240 | the session check; a newer sender resets the sequence number |
| `Receiver.Receiver.ReceiveItem` | src/receiver.cpp:300-329 | one channel update: flags, time, callback and the skip to the next boundary |
| `Receiver.Receiver.ReceiveItems` | src/receiver.cpp:299-330 | the loop over the updates of a data message, also past a cleared flag |
| `Receiver.Receiver.ReadFragInfo` | src/receiver.cpp:335-337 | the fields of a fragment message |
| `Receiver.Receiver.StartFragments` | src/receiver.cpp:341-349 | a new fragment buffer of the announced size |
| `Receiver.Receiver.StoreFragment` | src/receiver.cpp:351-370 | fragment buffer after a fragment for which there is room, and the callback of a complete set |
| `Receiver.Receiver.ReceiveFragment` | src/receiver.cpp:334-376 | a fragment message as a whole |
| `Receiver.Receiver.ReceiveSubmessages` | src/receiver.cpp:280-390 | the loop over submessages with the inverted try_position test |
| `Receiver.Receiver.ReceiveUpdates` | src/receiver.cpp:242-393 | a whole datagram: the object does what the pure receiver does |
| `Receiver.Receiver.CheckNoUpdates` | src/receiver.cpp:88-111 | which channels time out on a heartbeat, and the new flags |
| `Layout.EveryIndexNamesOne` | documentation/design.rst:72-84 | every index below the total names exactly one record or field of the closed form |
| `Layout.TotalChannelCount` | src/epics-diode/config.h:89-96 | the total is the closed form after the last record |
| `Layout.CreateFlatNames` | src/epics-diode/config.h:98-114 | every name stands at the index of the closed form, and the length is the total |
| `Layout.CreateReceiverChannels` | src/receiver.cpp:144-176 | the receiver gives every record and field the same index |
| `Layout.AssignIndices` | ioc/diodeIoc.cpp:93-103 | so does the look-up table of the IOC, which holds these indices and no others |
| `Layout.GeneratorIndices` | src/diode_dbgen.cpp:237-293 | the database generator agrees on the records |
| `Layout.CreateSenderChannels` | src/sender.cpp:612-650 | the sender agrees too, with the record as parent of its fields and the polled flag of polled fields only |
| `Layout.GroupExact` | src/sender.cpp:119-143 | a group is exactly the set of channels with the same parent, so groups partition the channels |
| `Layout.EndOfGroup` | src/sender.cpp:129-136 | the search loop finds the last channel of the group |
| `Protocol.UintRoundTrip` | src/epics-diode/protocol.h:88-118 | a number written in n bytes is read back |
| `Protocol.HeaderRoundTrip` | src/protocol.cpp:18-38 | header round trip |
| `Protocol.ChannelDataRoundTrip` | src/protocol.cpp:74-90 | channel update header round trip |
| `Protocol.FragInfoRoundTrip` | src/protocol.cpp:92-114 | fragment message round trip |
| `Protocol.HeaderLayout` | documentation/protocol.rst:40-50 | the header byte by byte: magic, version 1, three zero bytes, startup time and hash little-endian at 8 and 16 |
| `Protocol.DataLayout` | documentation/protocol.rst:127-150 | a data packet byte by byte up to its updates: header, id 16, little-endian flag, distance 0, number at 28, count at 30 |
| `Protocol.UpdateLayout` | documentation/protocol.rst:127-190 | every update at its place: one behind the other from 32 on, each ending at the next multiple of 8; id, count, type, bytes, zeros |
| `Protocol.FragmentLayout` | src/protocol.cpp:92-102 | a fragment packet byte by byte: id 17 at 24, fields from 28 on, bytes from 44 on, zeros up to the next multiple of 8 |
| `Protocol.Serializer.Ensure` | src/epics-diode/protocol.h:37-44 | the flag is sticky; the bytes left are an unsigned difference that wraps past the limit |
| `Protocol.Serializer.Write` | src/epics-diode/protocol.h:66-70 | appends the bytes and changes nothing behind them |
| `Protocol.Serializer.Read` | src/epics-diode/protocol.h:72-76 | the bytes under the cursor |
| `Protocol.Serializer.WriteUint` | src/epics-diode/protocol.h:88-102 | appends a number in little-endian order |
| `Protocol.Serializer.ReadUint` | src/epics-diode/protocol.h:104-118 | the little-endian number under the cursor |
| `Protocol.Serializer.PadAlign` | src/epics-diode/protocol.h:132-138 | appends zero bytes up to the next multiple of 8 |
| `Protocol.Serializer.PosAlign` | src/epics-diode/protocol.h:140-145 | moves to the next multiple of 8 |
| `Protocol.Serializer.PutHeader` | src/protocol.cpp:18-27 | writes the header iff there is room, else clears the flag; leaves the reserved bytes |
| `Protocol.Serializer.PutSubheader` | src/protocol.cpp:40-47 | submessage header, iff there is room |
| `Protocol.Serializer.PutDataMessage` | src/protocol.cpp:58-64 | data message header, iff there is room |
| `Protocol.Serializer.PutChannelData` | src/protocol.cpp:74-81 | channel update header; the room for it is the duty of the caller |
| `Protocol.Serializer.PutFragInfo` | src/protocol.cpp:92-102 | fragment message header, iff there is room |
| `PvaDelta.Replicates` | src/pva_sender.cpp:51-167 | delta replication: in every run of a connection with a complete first value and deltas that mark leaves, and any loss, repetition and reordering short of 65536 updates, the receiver shows after every accepted update the value of the sender when it was serialized, from a receiver with no value or with one left over that does no harm |
| `PvaDelta.FollowsIff` | src/pva_receiver.cpp:313-357 | after a restart or a reconnection every accepted update shows the value of the sender, in every order of arrival, iff no partial update with the number that the receiver expects lacks a leaf that is different |
| `PvaDelta.MirrorFollows` | src/pva_receiver.cpp:303-365 | the receiver half of it, over any trace of arrivals |
| `PvaDelta.RunKeepsLog` | src/pva_sender.cpp:101-169 | the sender half: every full update carries all leaves, every partial one all that differs from its predecessor |
| `PvaDelta.SentExactly` | src/pva_sender.cpp:101-169 | exactly what goes out, over every run: an update is full, with every valid node, iff it is the first or a heartbeat came since the send before; otherwise partial with the nodes that deltas marked since, or nothing; all with the data of their newest delta |
| `PvaDelta.FullWithin` | src/pva_sender.cpp:101-169 | with a heartbeat in every h-th iteration, any h iterations send a full update, whatever deltas are pending |
| `PvaDelta.RecoversWithin` | src/pva_sender.cpp:101-169 | so any receiver that knows the type shows the value of the sender again within h iterations, whatever it has lost |
| `PvaDelta.FullRestores` | src/pva_receiver.cpp:340-357 | a full update of a known type shows the value of the sender to every receiver |
| `PvaDelta.DisconnectForgets` | src/pva_receiver.cpp:303-324 | a disconnect is always accepted and forgets the value: partial updates are dropped until a full one |
| `PvaDelta.ArrivalStep` | src/pva_receiver.cpp:305-357 | one arrival: accepted iff full with a known type, or the successor of the last accepted one; dropped ones change nothing |
| `PvaDelta.DroppedUntilFull` | src/pva_receiver.cpp:313-324 | after a gap partial updates are dropped until a full one arrives |
| `PvaDelta.AliasShowsIff` | src/pva_receiver.cpp:317-318 | a partial update with the number of the expected one is always accepted, and then shows the value of the sender iff all leaves that it lacks are as they were in the one accepted last |
| `PvaDelta.AliasShowsWrong` | src/pva_receiver.cpp:317-318 | a run of 65538 updates after which the receiver shows a wrong value |
| `PvaDelta.MergeCorrectIff` | src/pva_sender.cpp:51-98 | merge takes a delta over correctly for every destination iff the delta marks leaves only |
| `PvaDelta.MergeExact` | src/pva_sender.cpp:51-98 | what merge does for every delta: it marks the topmost marked nodes and copies those of them that are leaves |
| `PvaDelta.FirstMustBeComplete` | src/pva_sender.cpp:298-311 | the log is in order from the first update iff all leaves of the first value are valid |
| `PvaDelta.MissingIsNeverSent` | src/pva_sender.cpp:51-98 | a node that is not valid in the first value is in no update of any run |
| `PvaDelta.SenderChannel.constructor` | src/pva_sender.cpp:299-305 | a connected channel with its first value queued as a full update |
| `PvaDelta.SenderChannel.Merge` | src/pva_sender.cpp:51-98 | the loop of merge, skipping marked sub-structures |
| `PvaDelta.SenderChannel.ValidToMask` | src/pva_sender.cpp:39-49 | the mask becomes the valid flags |
| `PvaDelta.SenderChannel.Mark` | src/pva_sender.cpp:133-147 | a pending update is only ever upgraded, to full with every valid field |
| `PvaDelta.SenderChannel.Update` | src/pva_sender.cpp:306-310 | a monitor event of a connected channel |
| `PvaDelta.SenderChannel.Serialize` | src/pva_sender.cpp:518-524 | the update that is sent, its number, and the cleared state |
| `PvaDelta.ReceiverChannel.ReceiveUpdate` | src/pva_receiver.cpp:303-365 | one update: accepted or dropped, new value and number |
| `TypeCache.AgreesIff` | src/pva_receiver.cpp:371-393 | after any loss, repetition and reordering of the typedef packets of a session no slot contradicts the sender iff none did at its beginning |
| `TypeCache.RestartAgreesIff` | src/pva_receiver.cpp:381-390 | after a restart of the sender this is so iff the types that the former session left in the slots have the same ids in the new one |
| `TypeCache.PutAllAgrees` | src/pva_receiver.cpp:376-391 | one packet: agreement stays, known slots are not overwritten, announced slots become known |
| `TypeCache.EmptyIsFilled` | src/pva_receiver.cpp:376-391 | a packet of any sender: each of its types gets the slot of its 16-bit id if that was empty |
| `TypeCache.NotAnnounced` | src/pva_receiver.cpp:376-391 | and no other slot changes |
| `TypeCache.IdsNeverChange` | src/pva_protocol.cpp:80-92 | over a session ids keep their meaning and no type gets two ids |
| `TypeCache.CacheType` | src/pva_protocol.cpp:80-92 | the returned id names the type; a type is appended iff it is new |
| `TypeCache.SendTypedefs` | src/pva_sender.cpp:446-487 | ends with every non-built-in id announced exactly once iff every type fits into an empty packet; every packet begins where the one before ends, its types fit into 65472 bytes together, and the next type would not have |
| `TypeCache.FillTypes` | src/pva_sender.cpp:462-474 | the inner loop: types go into a packet while they fit |
| `TypeCache.PacketsAreRounds` | src/pva_sender.cpp:446-487 | packet k begins with the id after k rounds, whether announcing ends or not |
| `TypeCache.AnnouncingEndsIff` | src/pva_sender.cpp:446-487 | the loop, with its 16-bit id, ends iff there are fewer than 65536 types and each but the built-in ones fits into an empty packet |
| `TypeCache.AnnouncedIsKnown` | src/pva_sender.cpp:466-473 | every announced id is in one of the packets |
| `TypeCache.EarlierPacket` | src/pva_protocol.cpp:80-92 | packets from earlier in a session stay true of the later cache |
| `TypeCache.ReceiveTypedefs` | src/pva_receiver.cpp:371-393 | the loop over a typedef message |
| `PvaWire.ArrayTransfer` | pvxs_headers_1_1_1/pvaproto.h:412-509 | an array, length and elements, written by one host is read as the same numbers by every other, whatever the byte orders of hosts and wire, consuming exactly what was written |
| `PvaWire.EncodedMemory` | pvxs_headers_1_1_1/pvaproto.h:412-458 | encoding the memory of any host gives the numbers in the order of the wire |
| `PvaWire.ArrayRoundTrip` | pvxs_headers_1_1_1/pvaproto.h:412-509 | decoding an array in blocks inverts element-by-element encoding, for both byte orders |
| `PvaWire.BlocksAreElements` | pvxs_headers_1_1_1/pvaproto.h:412-458 | encoding in blocks equals element-by-element encoding |
| `PvaWire.SwapInChunks` | pvxs_headers_1_1_1/pvaproto.h:420-452 | cutting at a multiple of the element size changes nothing, so the chunked loop is right |
| `PvaWire.SwapSwap` | pvxs_headers_1_1_1/pvaproto.h:163-201 | swapping twice gives the memory back |
| `PvaWire.HostToWire` | pvxs_headers_1_1_1/pvaproto.h:163-217 | the swap on a mismatch of byte orders gives the wire form on every host |
| `PvaWire.WireRoundTrip` | pvxs_headers_1_1_1/pvaproto.h:163-243 | scalar round trip in both byte orders |
| `PvaWire.SizeRoundTrip` | pvxs_headers_1_1_1/pvaproto.h:256-306 | size round trip, consuming exactly what was written |
| `PvaWire.StringRoundTrip` | pvxs_headers_1_1_1/pvaproto.h:308-343 | a string comes back up to its first NUL |
| `PvaWire.StringWholeIff` | pvxs_headers_1_1_1/pvaproto.h:308-343 | and whole iff it holds no NUL |
| `PvaWire.StatusRoundTrip` | pvxs_headers_1_1_1/pvaproto.h:359-410 | status round trip |
| `PvaWire.HeaderRoundTripIff` | pvxs_headers_1_1_1/pvaproto.h:591-636 | command, flags and size come back whatever the order of the reader was; every length does iff the flags claim no order that the writer does not use |
| `PvaWire.WireBytes` | pvxs_headers_1_1_1/pvaproto.h:163-181 | each byte of a number, in both orders |
| `PvaWire.SizeForm` | pvxs_headers_1_1_1/pvaproto.h:256-278 | the bytes of a size: one below 254; 254 and four bytes below 2^32; 255 for no size; a fault for the rest |
| `PvaWire.StatusForm` | pvxs_headers_1_1_1/pvaproto.h:377-391 | plain success is the byte 255; anything else its code and two strings, each behind its size |
| `PvaWire.HeaderForm` | pvxs_headers_1_1_1/pvaproto.h:601-617 | 0xCA, version 2, flags with the byte order in the highest bit, command, length in that order |
| `PvaWire.ReadSizeForm` | pvxs_headers_1_1_1/pvaproto.h:282-306 | any bytes read as a size |
| `PvaWire.ReadStringForm` | pvxs_headers_1_1_1/pvaproto.h:328-343 | any bytes read as a string: no size gives an empty one, a size beyond the buffer a fault |
| `PvaWire.ReadHeaderForm` | pvxs_headers_1_1_1/pvaproto.h:621-636 | any bytes read as a header: refused iff fewer than eight, another magic byte or version 0; the length in the order that the flags claim |
| `PvaWire.FixedBuf.PutScalar` | pvxs_headers_1_1_1/pvaproto.h:163-181 | a scalar in the order of the buffer, or a fault |
| `PvaWire.FixedBuf.PutSize` | pvxs_headers_1_1_1/pvaproto.h:260-278 | a size, or a fault if it does not fit |
| `PvaWire.TurnBlocks` | pvxs_headers_1_1_1/pvaproto.h:437-445 | the nested loops that swap the bytes of each element, in both directions |
| `PvaWire.FixedBuf.Fetch` | pvxs_headers_1_1_1/pvaproto.h:183-200 | the two byte loops of a scalar that is read |
| `PvaWire.FixedBuf.PutString` | pvxs_headers_1_1_1/pvaproto.h:308-326 | a string up to its NUL, or a fault |
| `PvaWire.FixedBuf.PutStatus` | pvxs_headers_1_1_1/pvaproto.h:377-391 | a status, or a fault |
| `PvaWire.FixedBuf.PutHeader` | pvxs_headers_1_1_1/pvaproto.h:601-617 | a message header, or a fault |
| `PvaWire.FixedBuf.PutElements` | pvxs_headers_1_1_1/pvaproto.h:412-458 | the chunked loop: all elements, or a fault iff the buffer is too small |
| `PvaWire.PutArray` | pvxs_headers_1_1_1/pvaproto.h:412-458 | an array is its size and its elements one by one |
| `PvaWire.GetArray` | pvxs_headers_1_1_1/pvaproto.h:460-509 | the array that is read, or a fault |
| `PvaWire.FixedBuf.GetScalar` | pvxs_headers_1_1_1/pvaproto.h:183-201 | a scalar in host order, or a fault |
| `PvaWire.FixedBuf.GetUint` | pvxs_headers_1_1_1/pvaproto.h:235-243 | a number in the order of the buffer |
| `PvaWire.FixedBuf.GetSize` | pvxs_headers_1_1_1/pvaproto.h:282-306 | a size, or a fault |
| `PvaWire.FixedBuf.GetString` | pvxs_headers_1_1_1/pvaproto.h:328-343 | a string, or a fault |
| `PvaWire.FixedBuf.GetStatus` | pvxs_headers_1_1_1/pvaproto.h:393-410 | a status, or a fault |
| `PvaWire.FixedBuf.GetElements` | pvxs_headers_1_1_1/pvaproto.h:460-509 | the chunked read loop: all elements, or a fault iff the buffer is too small |
| `PvaWire.FixedBuf.GetHeader` | pvxs_headers_1_1_1/pvaproto.h:621-636 | a message header; the order of the buffer becomes that of the header |
| `RateLimit.RateBoundOneDestination` | src/transport.cpp:93-132 | in every part of every run between two successful sends, the n successful sends before the last one total at most rate * T + n * (rate - 1) bytes |
| `RateLimit.RateBound` | src/transport.cpp:93-132 | with k destinations the bound is k times that, since only the last sendto of a call counts |
| `RateLimit.BoundIsReached` | src/transport.cpp:93-132 | for every limit, number of destinations, period and length there is a run that sends exactly what the bound allows |
| `RateLimit.SleepIsLeast` | src/transport.cpp:96-105 | the sleep is the least whole number of microseconds after which the period of the last datagram is over |
| `RateLimit.AwakeExact` | src/transport.cpp:96-105 | the first sendto of a call comes at the least whole number of microseconds at which the period of the last datagram is over, and at once if it is over when the call is made |
| `RateLimit.CallPays` | src/transport.cpp:96-125 | a successful call pays for the datagram before it, but for less than rate bytes |
| `RateLimit.AttemptsExact` | src/transport.cpp:118-125 | the meter keeps the bytes of the last successful sendto of a call and the clock right after it; failed ones only take time |
| `RateLimit.UDPSender.Send` | src/transport.cpp:93-132 | sleep and send loop: the object does what the meter does |
| `DevDiode.ShowsAllIff` | ioc/devdiode.c:270-344 | the record shows every update of a run at once iff no update looks the same as the last one while it has another value or ends an alarm, and none has a new value that dbPut refuses |
| `DevDiode.ShownIff` | ioc/devdiode.c:299-332 | one update is shown iff it is not lost in that way |
| `DevDiode.ShownAfterDisconnect` | ioc/devdiode.c:346-383 | the first update after a disconnect, or ever, is shown if dbPut takes it |
| `DevDiode.DownUntilTaken` | ioc/devdiode.c:346-383 | over every run: a disconnect of the channel or of a sibling puts the record into the undefined, invalid alarm with its time as before, until the next timed update that looks new; the value stays until the next one that is put |
| `DevDiode.TakenUntilSet` | ioc/devdiode.c:299-332 | a timed update that looks new gives the record its time and alarm until the next event that sets them, and a value that is put stays until the next one |
| `DevDiode.Stays` | ioc/devdiode.c:299-383 | no other event touches the alarm, the time or the value |
| `DevDiode.Lookup` | ioc/devdiode.c:275-290 | the entry of the index, if the table is there, long enough and has one |
| `DevDiode.SmallPlainFollows` | ioc/devdiode.c:299-332 | a plain channel of one type whose values have at most 8 bytes is always followed, as long as dbPut takes them |
| `DevDiode.SmallHashIsExact` | src/utils.cpp:16-25 | the hash of up to 8 bytes tells all values of one size apart |
| `DevDiode.AlarmStaysIff` | ioc/devdiode.c:299-332 | after a field of the same record was disconnected, repeating the value with the same stamp shows it again iff it has an alarm itself |
| `DevDiode.RetriedIff` | ioc/devdiode.c:322-332 | a new value that dbPut has refused gets into the record by repetition iff the update has an alarm |
| `DevDiode.OtherTypeIsLost` | ioc/devdiode.c:305-307 | the same bytes with another type stay out of the record |
| `DevDiode.ValueUpdate` | ioc/devdiode.c:270-344 | table look-up, comparison, put and bookkeeping; -1 without an entry |
| `DevDiode.Disconnect` | ioc/devdiode.c:346-383 | undefined alarm and the disconnected count; -1 without an entry |

## Left out

- Sockets, address lists, logging, the packet dump, command line tools and main functions: plumbing.
- Channel Access and pvxs calls, subscriptions and polling requests: their effects are events with arbitrary content.
- JSON configuration, and the quality of the configuration hash and of `epicsMemHash`, which is a parameter.
- The rounding of update and heartbeat periods (src/sender.cpp:235-239): the heartbeat is a positive number of iterations.
- The counts of connected and stalled channels and the rate report, which are only logged.
- Group sizes of 4 GiB or more, where the 32-bit sums of `ChannelGroup` would wrap.
- EndToEnd.SetArrives: values of more than 65536 fragments are left out, because their fragment numbers wrap.
- Sender.Sender.SendUpdates: ends after a pass that takes nothing off the queue, where the source goes on for ever.
- Sender.Sender.RunUntil: ends with an iteration that cannot be drained, where the source stays in it for ever; a run without an end is its runs of every length.
- TypeCache.SendTypedefs: packets are lists of types under a size function; ends after a packet that can take no type, where the source goes on for ever.
- Replication.Fresh: speaks of a network that loses nothing; what loss, repetition and reordering leave intact is in `Reassembly`, `SequenceWindow` and `Session`.
- LastCallback.ClientKnows: speaks of the callbacks that packets make; the receiver's own timeouts are in `Timeouts`. Polled fields are in `LastCallback.ClientKnowsValue` and `LastCallback.ToldIff`, because a change that the value hash does not show is not sent.
- ReceiverLoop.NoFalseTimeouts: takes the packets of one iteration to arrive within one pass.
- ReceiverLoop.Run: ends with the last of its inputs where the source, without a runtime, never ends.
- Reassembly.OnlyWholeValues: speaks of one sender session in which one sequence number stands for one value; what a former session may leave behind is in `Reassembly.NeverConfusedIff`.
- Receiver.Receiver.StartFragments: does not model that the source reads the name of the announced channel for a log line, also when there is no such channel.
- TypeCache.ReceiveTypedefs: a type that cannot be deserialized is not modelled, since that is pvxs code.
- PvaWire.GetArray: the length for "no array" is a fault, where the source tries to make an array of 2^64 - 1 elements and throws.
- PvaDelta.Replicates: speaks of one connection of one channel with one update in a packet, because a dropped update does not advance the cursor of the source, and takes the type of the channel to stay the same.
- The disconnect of a pvAccess channel, which the source marks as a partial update, and the return of its update number to 0 on reconnection.
- The queue and the heartbeat of the pvAccess sender, which follow the discipline proved for Channel Access.
- PVA packing capacity and PVA fragments: the source ignores the fault of its inner buffer and has no fragmentation.
- pvxs internals: values are flat lists of nodes with valid flags, types are compared by equality, growing buffers are not modelled.
- The byte order of the diode's own `Serializer` on a big-endian host: the wire format is little-endian and so is the host.
- DevDiode.Disconnect: event posting and the undefined flag are not modelled.
- DevDiode.ValueUpdate: takes `recGblResetAlarms` to move the new alarm to the shown one and to clear it, and `dbPut` to store or refuse the value; event posting and the undefined flag are not modelled.
- Record name resolution of the IOC, its initialization and its record locking.
