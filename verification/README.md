# A verified model of ESPressio-Radio

This project models the two protocols of ESPressio-Radio and proves what they keep.

**The transport** (`src/ESPressio_RadioTransport.hpp`). A node cuts a message into frames that fit a radio's MTU, the
frames travel over lossy links, and every node on the way reassembles the message in a bounded table, suppresses
duplicates with a ring of recently completed identities, and hands the message to its receiver or sends it on with one
hop less, cut anew for the next radio.

**The clock synchronizer** (`src/ESPressio_RadioClockSynchronizer.hpp`). A client and a reference exchange four
timestamps in a request and a response; the number of the pending request is shared by requesting threads and the
receiving thread through separate atomic accesses.

`dafny verify dfyconfig.toml` checks the whole project.

## How it is built

The model has three layers, each tied to the one below.

1. *Classes that work in place*, as the source does: `Radio` (a provider with an arbitrary but fixed list of verdicts),
   `ReassemblyRecord`, `RadioTransport` and `ClockSynchronizer`. Their methods are proved against specification
   functions: `RadioTransport.ProcessInboundPacket` against one transition (`Arrival`) of the reassembly table, the
   radios and the receiver's inbox; `ClockSynchronizer` against `ClockSteps.Next`.
2. *Transition systems*: `Reassembly` (a map from identities to assemblies, the list of all completions and the touch
   counter), `Network` (nodes and the frame copies in flight), `ClockSteps` and `ClockProtocol` (requesting threads and
   one receiving thread, interleaved between their accesses to the shared atomics).
3. *Theorems over every run* of these systems, and theories they rest on: splitting and joining (`Fragmentation`),
   the ring (`RecentRing`), the bookkeeping of one message (`Bookkeeping`), little-endian fields (`ByteCodec`).

The table sizes, the message bound and the width of `std::size_t` are symbolic constants, so the theorems hold for every
setting of the macros at `src/ESPressio_RadioTransport.hpp:13-27`. Bytes and machine integers are bounded integers, with
wrap-around written out. The transition system evicts any least recently touched assembly; the class takes the first one
in slot order, as the source does.

| file | content |
|---|---|
| RadioTypes, Arithmetic, ByteCodec | shared types and bounds, arithmetic, byte codecs |
| Fragmentation, TransportWire, WireLayout | splitting and joining, the transport's frames, the layout of all messages byte by byte |
| RecentRing, Reassembly, ReassemblyRuns, TableRules | the ring, one packet at one node, runs at one node, what is ignored, evicted and abandoned |
| DuplicateWindow | for how long a node suppresses duplicates |
| GenuineMessages, Delivery, Deliverability, Relay | what happens to the frames of one message, at one node and along a path |
| Network, AtMostOnce, Quiescence | integrity of a network, how often a message is handed over, why it falls silent |
| Radio, ReassemblyRecord, RadioTransport | the classes of the transport |
| NodeSteps, Transmissions, HandOver | what a node and its radios do, as steps of the network; where its frames go; what its receiver gets |
| ClockWire, ClockSteps, ClockPacing, ClockOffset | the clock messages, single calls and their runs, rate, offset |
| ClockSynchronizer, ClockExchange, ClockUpdates | the class of the synchronizer; a whole exchange, and what is kept out of it; Update called by several threads |
| ClockProtocol, ClockNumbers, ClockPending, ClockCounters | concurrency: what every interleaving keeps, repeated numbers, forgotten requests, counters |
| ClockRefinement, ClockRaces | the interleaved protocol and the single calls, three runs that go wrong |

## What is false in the code

Each of these is proved with a concrete input or run, and with the exact condition under which the expected property
does hold.

- *Not every accepted message can be delivered.* The sender bounds the payload, the receiver the count of fragments
  times the chunk size. A message can be reassembled exactly if one chunk is within the bound and its size is at most the
  largest multiple of the chunk size within the bound (`Deliverability.DeliverableIffStorable`); with chunks of 17 bytes
  and a bound of 4096, a payload of 4096 bytes cannot (`Deliverability.SenderAcceptsTooMuch`).
- *The ring does not keep the last N completions for ever.* When the unsigned cursor wraps, an entry is overwritten early
  unless N divides the number of its values. All runs of a node keep N completions between two of one message exactly if
  N divides that number, nothing can be completed at all, or the node can complete no more identities than N and than
  the cursor has values (`DuplicateWindow.RunsKeepApartIff`); otherwise `DuplicateWindow.SomeRunRepeatsEarly` gives a
  run, whose messages go round `N + 1` identities until the cursor wraps.
- *Sequence numbers can repeat at once.* A thread whose two fetches of the counter are a whole turn apart gets 0 twice
  and falls back to 1, which the next request gets by right (`ClockRaces.NumberAcceptedTwiceInARow`). Two accepted
  responses with one number are less than 2^32 fetches apart exactly if one of them took the fallback and the other is
  the true 1 next to it (`ClockNumbers.AcceptedOncePerTurn`), and the fallback is taken exactly if 2^32 - 1 fetches, up to
  whole turns, lie between the first and the second (`ClockNumbers.FallbackIffMultiple`). Counted in requests, they are
  2^32 - 1 apart, unless the earlier took the fallback and the later is the very next (`ClockNumbers.AcceptedRequestsApart`).
- *A pending request can be forgotten although the radio took it.* The receiver compares the pending number and clears it
  in two steps (`ClockRaces.NewerRequestForgotten`), and a failed send empties the cell whoever's number is in it
  (`ClockRaces.AnothersRequestForgotten`). A response is matched as the answer to its request exactly if since then
  nothing was posted, no refused request was retracted, no matched response cleared the cell, and nothing was initialized
  or shut down (`ClockPending.ResponseMatchedIff`); `ClockPending.ForgottenIff` says which actions forget a request, and
  a forgotten one never gets a sample (`ClockPending.ForgottenForGood`).
- *The counters need not add up after a reset of the statistics.* A reset stores 0 in ten counters one after the other,
  and calls count at their beginning and their end. Requests balance exactly if the resets dropped as many beginnings as
  outcomes, up to the counters' wrap-around, and samples likewise (`ClockCounters.CountersAddUp`). It is not enough that
  no call is in progress at the first store and the last (`ClockCounters.CallBetweenStores`), nor necessary
  (`ClockCounters.ResetAroundOutcome`), and a whole reset within a call unbalances them (`ClockCounters.ResetDuringCall`).
  A caller who lets no call run from the first store to the last gets the balances, and a count of all packets seen since
  (`ClockCounters.QuietResetAddsUp`).
- *Update does not keep requests an interval apart if several threads call it.* Two threads can load the time of the last
  request before either stores its own. All runs of `n` threads keep requests an interval apart exactly if `n` is at most
  one (`ClockUpdates.PacedIffOneThread`); in any run, a request is an interval after the one before it if none was recorded
  since its thread read the clock (`ClockUpdates.AlwaysAloneApart`).
- *Not every failed request uses up the interval.* `CLOCK_SYNCHRONIZATION.md` says that failed sends do. A request
  refused before it reaches the radio records no time, and the next `Update` tries again at once
  (`ClockPacing.RefusedStaysDue`). The model follows the code.

## Model

| member | source | states |
|---|---|---|
| Fragmentation.FragmentCountUnique | src/ESPressio_RadioTransport.hpp:277 | the fragment count is the only number of chunks that covers the payload without an empty one |
| Fragmentation.ChunkLength | src/ESPressio_RadioTransport.hpp:281-284 | every chunk but the last is full, and the sizes the loop computes are those of the chunks |
| Fragmentation.ChunkExtendsPrefix | src/ESPressio_RadioTransport.hpp:281-287 | the chunks up to any index join to a prefix of the payload |
| Fragmentation.BufferStore | src/ESPressio_RadioTransport.hpp:424-427 | copying a part to index times chunk leaves exactly the buffer of the parts received, zero elsewhere |
| Fragmentation.AssembledIsPayload | src/ESPressio_RadioTransport.hpp:332-333 | all chunks of a payload in the buffer, cut to the total size, are the payload |
| Fragmentation.CoversAll | src/ESPressio_RadioTransport.hpp:428-431 | counting received indices reaches the fragment count exactly when every index is there |
| ByteCodec.ValueOfLittleEndian | src/ESPressio_RadioClockSynchronizer.hpp:106-137 | reading a written integer gives it back, for any width |
| ByteCodec.LittleEndianOfValue | src/ESPressio_RadioClockSynchronizer.hpp:106-137 | writing a read integer reproduces the bytes |
| ByteCodec.WriteU16 | src/ESPressio_RadioTransport.hpp:250 | two bytes in place, low byte first, nothing else changed |
| ByteCodec.WriteBytes | src/ESPressio_RadioClockSynchronizer.hpp:127-137 | the shifting loop writes the little-endian bytes and leaves the rest of the buffer alone |
| ByteCodec.ReadBytes | src/ESPressio_RadioClockSynchronizer.hpp:106-120 | the shifting loop reads the little-endian value |
| TransportWire.ParseFrame | src/ESPressio_RadioTransport.hpp:252-265 | decoding an encoded fragment gives all its fields and its payload back |
| TransportWire.FrameParse | src/ESPressio_RadioTransport.hpp:252-265 | encoding what was decoded reproduces the frame byte for byte |
| TransportWire.ParseAcceptsExactlyFrames | src/ESPressio_RadioTransport.hpp:252-259 | a byte string is accepted exactly if it is the frame of a well-formed fragment |
| TransportWire.EncodeHeader | src/ESPressio_RadioTransport.hpp:261-265 | the writer puts the header bytes in front and leaves the rest of the buffer |
| TransportWire.FramesCarryPayload | src/ESPressio_RadioTransport.hpp:276-288 | for every size that passes the checks, the frames are all accepted, fit header plus 255 bytes, count up, and join to the payload |
| TransportWire.StorableBound | src/ESPressio_RadioTransport.hpp:321-322 | a message fits the reassembly bound exactly if one chunk does and its size is at most the largest multiple of the chunk size within the bound |
| TransportWire.SendableBound | src/ESPressio_RadioTransport.hpp:272-278 | a size passes the sender's checks exactly if it is within the message bound and at most 255 chunks |
| WireLayout.FrameLayout | src/ESPressio_RadioTransport.hpp:261-265 | which byte of a frame holds what |
| WireLayout.FramesAre | src/ESPressio_RadioTransport.hpp:252-259 | exactly which bytes are a frame, offset by offset |
| RecentRing.HoldsExactlyWindow | src/ESPressio_RadioTransport.hpp:313-314 | until the cursor breaks step, the ring answers exactly for the last N completions |
| RecentRing.AdmissibleIsSpaced | src/ESPressio_RadioTransport.hpp:313-331 | completing only what the ring does not hold is the same as keeping N others between repeats |
| RecentRing.RingDistinct | src/ESPressio_RadioTransport.hpp:313-331 | the ring never holds an identity twice, wherever its cursor goes |
| RecentRing.RingKeepsWindowIff | src/ESPressio_RadioTransport.hpp:313-314 | for completions out of a given set of values, that is so for ever exactly if N divides the number of cursor values or there are too few values to fill the ring or wrap the cursor |
| DuplicateWindow.SomeRunRepeatsEarly | src/ESPressio_RadioTransport.hpp:313-331 | otherwise some run of a fresh node completes a message again with fewer than N others in between |
| DuplicateWindow.RunsKeepApartIff | src/ESPressio_RadioTransport.hpp:313-331 | all runs of a fresh node keep N others between two completions of one message exactly if N divides the number of cursor values, nothing can be completed, or the node can complete too few identities |
| Reassembly.ReceiveKeepsValid | src/ESPressio_RadioTransport.hpp:316-432 | for any bytes: at most R assemblies, each within the bound and with some but not all parts, none of a recent message, the completion log admissible |
| Reassembly.CompletionFits | src/ESPressio_RadioTransport.hpp:328-342 | a completion is logged once, of a message not recent and no longer in progress, and fits the message bound |
| Reassembly.AcceptFrame | src/ESPressio_RadioTransport.hpp:316-432 | a packet changes no other message than its own, but for the evicted one |
| Reassembly.StoppedKeepsValid | src/ESPressio_RadioTransport.hpp:392-397 | stopping keeps the invariant; the ring survives |
| Reassembly.VictimExists | src/ESPressio_RadioTransport.hpp:320 | some least recently touched slot exists, so no packet is stuck |
| ReassemblyRuns.RunKeepsValid | src/ESPressio_RadioTransport.hpp:392-432 | the invariant holds after every run of packets and stops |
| ReassemblyRuns.AtMostOnceInWindow | src/ESPressio_RadioTransport.hpp:313-331 | two completions of one identity have at least N others strictly between them, in every run, stops included |
| ReassemblyRuns.LostOnlyToNewerTraffic | src/ESPressio_RadioTransport.hpp:316-326 | a partial message is evicted only after frames of at least R other messages since its last touch |
| TableRules.IgnoredPackets | src/ESPressio_RadioTransport.hpp:416-419 | no frame, nobody's, the node's own, to nobody or of a recent message: nothing changes and nothing completes |
| TableRules.NewcomerEvicts | src/ESPressio_RadioTransport.hpp:316-322 | a fragment costs another message its place exactly if its own is new and the table full, even if its buffer is then too large |
| TableRules.DifferentCutDrops | src/ESPressio_RadioTransport.hpp:422 | a fragment cut differently throws away what there was of its message and is not taken in |
| TableRules.FirstCopyCounts | src/ESPressio_RadioTransport.hpp:424-430 | after any copies of fragments, the parts are the first copies, the total ends with the latest length of the last, and the hop limit is the opener's |
| TableRules.CompletesFromSince | src/ESPressio_RadioTransport.hpp:392-431 | a message not in progress at some point of a run completes only once all its indices have arrived since; nothing from before a stop is part of what completes after it |
| GenuineMessages.GenuineAccept | src/ESPressio_RadioTransport.hpp:416-432 | fed only fragments of one payload under an identity, an assembly stays a part of it and completes to exactly it |
| GenuineMessages.GenuineProgress | src/ESPressio_RadioTransport.hpp:416-432 | each such fragment adds its index, completes exactly with the last missing one, and is otherwise kept |
| Delivery.CompletesExactlyWhenCovered | src/ESPressio_RadioTransport.hpp:416-432 | in any order, with repetitions: a message completes at the first packet that covers all indices, and at no earlier one; other traffic may come in between if the table has room for all of it, or if it is calm and the touch counter does not wrap |
| Delivery.CompletesWithPayload | src/ESPressio_RadioTransport.hpp:328-342 | and it completes with the payload sent, and a hop limit one of its frames had |
| Deliverability.OwnFramesAreDropped | src/ESPressio_RadioTransport.hpp:416-419 | from its completion on, a message's own frames are dropped as recent and change nothing |
| Deliverability.CompletesExactlyOnce | src/ESPressio_RadioTransport.hpp:416-432 | all indices arriving, there is exactly one completion: always if no other frames arrive, and otherwise while the ring cannot have forgotten it |
| Deliverability.OversizeNeverCompletes | src/ESPressio_RadioTransport.hpp:321-322 | a message too large for the receiver never completes, whatever arrives |
| Deliverability.RunExists | src/ESPressio_RadioTransport.hpp:416-432 | every sequence of packets can be processed from every valid table |
| Deliverability.InOrderIsDelivering | src/ESPressio_RadioTransport.hpp:416-432 | receiving the frames of a storable message in order at a fresh node meets the conditions of the delivery theorems |
| Deliverability.InOrderCompletesLast | src/ESPressio_RadioTransport.hpp:416-432 | at a fresh node fed a message's frames in order, the last frame completes it and no other does anything |
| Deliverability.DeliverableIffStorable | src/ESPressio_RadioTransport.hpp:276-322 | exactly which messages some arrival of their own frames can complete |
| Deliverability.SenderAcceptsTooMuch | src/ESPressio_RadioTransport.hpp:276-322 | a concrete size the sender accepts and no receiver completes |
| Relay.NodeDisposes | src/ESPressio_RadioTransport.hpp:334-342 | node k of a chain disposes of one message only, the original with its hop limit k lower |
| Relay.ChainDelivers | src/ESPressio_RadioTransport.hpp:294-342 | over any number of links with their own chunk sizes, up to the hop limit, each node forwards once and the last delivers the original once |
| Relay.ChainExhaustsHops | src/ESPressio_RadioTransport.hpp:337-338 | no node further away than the hop limit allows receives or hands over anything |
| Relay.ChainExists | src/ESPressio_RadioTransport.hpp:294-342 | such chains of runs exist for every path |
| HandOver.InboxIs | src/ESPressio_RadioTransport.hpp:334-335 | over any run, the receiver gets exactly the completed messages addressed to the node or to all, once each and in order |
| HandOver.InOrderHandedOver | src/ESPressio_RadioTransport.hpp:334-335 | a fresh node fed the frames of a message, for itself or for all, hands its receiver that message and no other |
| HandOver.ChainHandsOver | src/ESPressio_RadioTransport.hpp:294-342 | along a chain the last node's receiver gets the original once, and no receiver before it gets anything |
| Network.TablesStayValid | src/ESPressio_RadioTransport.hpp:392-432 | in every run of a network, whatever the medium does, every table stays valid |
| Network.StepKeepsGenuine | src/ESPressio_RadioTransport.hpp:272-432 | every frame in flight, every partial assembly and every delivery stays part of a message that was sent |
| Network.DeliveredWasSent | src/ESPressio_RadioTransport.hpp:272-432 | end to end: whatever is handed to a receiver was sent, bit for bit, and is addressed to that node or to all |
| HandOver.DeliveredAreAddressed | src/ESPressio_RadioTransport.hpp:328-342 | at every point of every run of a network, what was handed over is exactly the completions addressed to their node or to all, in order |
| HandOver.DeliveredIffAddressed | src/ESPressio_RadioTransport.hpp:334-335 | handed over if and only if completed and addressed to that node or to all |
| HandOver.CompletedAreLogged | src/ESPressio_RadioTransport.hpp:328-342 | the network's log has, for every node, exactly what its table completed |
| Network.IdsRepeatEvery65535 | src/ESPressio_RadioTransport.hpp:404-405 | message ids are never 0, and two sends of a node share one exactly if they are a multiple of 65535 apart |
| Network.SuppressedWasCompleted | src/ESPressio_RadioTransport.hpp:399-419 | within 65535 sends, a frame is dropped as recent only if that very message completed there |
| AtMostOnce.DeliveredOncePerWindow | src/ESPressio_RadioTransport.hpp:313-342 | in every run of a network, between two hand-overs of one identity at a node that node completes N others |
| AtMostOnce.DeliveredOnce | src/ESPressio_RadioTransport.hpp:313-342 | while no node has completed more messages than its ring holds, no identity was handed over twice at any node |
| AtMostOnce.FewMessagesDeliveredOnce | src/ESPressio_RadioTransport.hpp:313-342 | while no more than N messages were sent in all, no message is handed over twice at any node, whatever the medium does |
| Quiescence.PacketLightens | src/ESPressio_RadioTransport.hpp:316-342 | processing a packet lowers the weight of the table and of what it puts on the air below the packet's own weight |
| Quiescence.StepLightens | src/ESPressio_RadioTransport.hpp:316-342 | every packet processed or lost makes the network strictly lighter, loops and evictions included |
| Quiescence.QuietRunIsBounded | src/ESPressio_RadioTransport.hpp:316-342 | with no new sends, a run processes at most as many packets as the network weighs |
| Radios.FragmentPayloadBytes | src/ESPressio_RadioTransport.hpp:270 | the largest chunk up to 255 that fits the MTU with its header |
| Radios.Taken | src/ESPressio_RadioTransport.hpp:281-290 | how many frames a radio takes: all it accepts before its first refusal |
| Radios.BuildFrame | src/ESPressio_RadioTransport.hpp:279-287 | the reused buffer holds exactly the frame of the fragment at each index |
| Radios.SendFragments | src/ESPressio_RadioTransport.hpp:281-291 | the loop sends the frames in order until one is refused and says so |
| Radios.SendVia | src/ESPressio_RadioTransport.hpp:272-292 | the result, the calls made and the frames taken, with every refusal before the loop |
| Radios.SentIsPrefix | src/ESPressio_RadioTransport.hpp:272-292 | accepted exactly if every frame was taken, otherwise a proper prefix was; each frame taken fits the MTU and decodes to its fragment |
| Radios.ViaOutcome | src/ESPressio_RadioTransport.hpp:272-292 | what a stopped radio, one without room, and one given too much answer without being called; otherwise the verdict of the last call made |
| ReassemblyRecords.ReassemblyRecord.Reset | src/ESPressio_RadioTransport.hpp:227-232 | a free slot is fully cleared |
| ReassemblyRecords.ReassemblyRecord.Open | src/ESPressio_RadioTransport.hpp:323-325 | a cleared slot stands for an empty assembly with a zero buffer |
| ReassemblyRecords.ReassemblyRecord.Store | src/ESPressio_RadioTransport.hpp:423-430 | the first part of an index stays, the last fragment's length is the latest, buffer and flags and count agree, and the bounds test never fires |
| ReassemblyRecords.ReassemblyRecord.MessageBytesAre | src/ESPressio_RadioTransport.hpp:332-333 | the bytes handed on lie within the buffer and are the assembly's message |
| RadioTransports.DefaultRadio | src/ESPressio_RadioTransport.hpp:269 | the first interface marked as default route, and none exactly if no interface is |
| RadioTransports.BroadcastAccepted | src/ESPressio_RadioTransport.hpp:295-304 | a broadcast is accepted exactly if some capable radio took the whole message, and NoRoute exactly if none is capable |
| RadioTransports.BroadcastReportsLast | src/ESPressio_RadioTransport.hpp:295-304 | if no capable radio took a broadcast, the sender is told what the last of them said |
| RadioTransports.InboxGains | src/ESPressio_RadioTransport.hpp:334-335 | a completed message goes to the inbox exactly if there is a receiver and it is for this node or for all |
| RadioTransports.SlotsUsed | src/ESPressio_RadioTransport.hpp:316-326 | with one slot per identity, the slots are all in use exactly if there are as many messages as slots |
| RadioTransports.AcceptIs | src/ESPressio_RadioTransport.hpp:416-432 | placing a fragment and then completing its message is the table's transition |
| RadioTransports.RadioTransport.IsRecent | src/ESPressio_RadioTransport.hpp:313 | true exactly if the ring holds the identity |
| RadioTransports.RadioTransport.Remember | src/ESPressio_RadioTransport.hpp:314 | the ring then is the one after one more completion, the wrapping cursor included |
| RadioTransports.RadioTransport.FindOldest | src/ESPressio_RadioTransport.hpp:320 | no slot was touched before the one found, and no earlier one as long ago |
| RadioTransports.RadioTransport.MakeRoom | src/ESPressio_RadioTransport.hpp:318-320 | a free slot, at the cost of the first least recently touched one exactly if all were in use |
| RadioTransports.RadioTransport.CreateReassembly | src/ESPressio_RadioTransport.hpp:318-325 | a new slot for the message, or none if its buffer would be too large; the eviction happens either way |
| RadioTransports.RadioTransport.FindOrCreateReassembly | src/ESPressio_RadioTransport.hpp:316-326 | the message's slot in the table after the eviction, and the touch counter |
| RadioTransports.RadioTransport.TakeIn | src/ESPressio_RadioTransport.hpp:422-431 | a fragment cut differently resets the slot; otherwise it is stored, and `full` tells whether every index is there |
| RadioTransports.RadioTransport.SendFramed | src/ESPressio_RadioTransport.hpp:294-311 | every radio's new state and the result, by broadcast, by route or by the default interface |
| RadioTransports.RadioTransport.Complete | src/ESPressio_RadioTransport.hpp:328-342 | the message is remembered and handed over, sent on with one hop less, or dropped; the slot is cleared |
| RadioTransports.RadioTransport.Settle | src/ESPressio_RadioTransport.hpp:328-342 | the table without the completed message; the recheck for a recent one never fires |
| RadioTransports.RadioTransport.ProcessInboundPacket | src/ESPressio_RadioTransport.hpp:416-432 | for any bytes, arrays, ring, cursor and counters make one transition of the table, evicting the first least recently touched slot if need be, a message completed for the node or for all is appended to the inbox and nothing else is, the radios change as it says, and the invariant holds again |
| RadioTransports.RadioTransport.Send | src/ESPressio_RadioTransport.hpp:399-410 | turned away exactly for destination 0 or the node itself, or for no payload of a nonzero size, and then nothing changes; otherwise the id used up, the frames each radio takes and the result |
| RadioTransports.RadioTransport.Start | src/ESPressio_RadioTransport.hpp:384-390 | every radio is told to start, whichever of them fail, and the result says whether all did |
| RadioTransports.RadioTransport.Stop | src/ESPressio_RadioTransport.hpp:392-397 | radios stopped, every slot cleared, ring and counters kept, invariant kept |
| RadioTransports.RadioTransport.constructor | src/ESPressio_RadioTransport.hpp:234-247 | a new node models the empty table and starts at message id 1 |
| NodeSteps.TakenIsEmission | src/ESPressio_RadioTransport.hpp:272-311 | what a radio takes for a message are at most 255 frames, all of that message, as the network model assumes |
| NodeSteps.PacketIsNetworkStep | src/ESPressio_RadioTransport.hpp:328-432 | a packet processed by a node is a step of the network model, for every selection of neighbours that hear what its radio sends on |
| NodeSteps.OnlyTheRouteForwards | src/ESPressio_RadioTransport.hpp:306-342 | what a packet sets off leaves through the one radio its destination leads to; all others stay as they were |
| NodeSteps.SendIsNetworkStep | src/ESPressio_RadioTransport.hpp:399-410 | a Send to another node or to all is one step of the network model with the same identity, counter and frames, whatever the neighbours of all its radios hear |
| NodeSteps.StopIsNetworkStep | src/ESPressio_RadioTransport.hpp:392-397 | stopping a node is a step of the network model that puts nothing on the air |
| NodeSteps.NodesFallSilent | src/ESPressio_RadioTransport.hpp:272-342 | with no new sends, and each frame heard by a bounded number of nodes, a network of such nodes processes no more packets than it weighs |
| Transmissions.TransmissionsGoTo | src/ESPressio_RadioTransport.hpp:294-311 | a message leaves only through radios that carry it; every frame is addressed to its route's next hop, or to 0xFF in every byte by broadcast and by the default interface |
| Transmissions.AllTransmitted | src/ESPressio_RadioTransport.hpp:272-311 | a started radio that carries a message and refuses nothing takes all its frames, in order, to that neighbour |
| Transmissions.AcceptedIffTaken | src/ESPressio_RadioTransport.hpp:294-311 | the sender is told that the message was accepted exactly if some radio that carries it took every frame |
| Transmissions.RoutedTells | src/ESPressio_RadioTransport.hpp:305-309 | of a message for one node the sender is told the verdict on the last frame its radio was called with, or why the radio was not called |
| Transmissions.StoppedStaysSilent | src/ESPressio_RadioTransport.hpp:273 | over any sequence of packets and Sends, stopped radios neither try nor take a frame |
| Transmissions.StoppedRefuses | src/ESPressio_RadioTransport.hpp:272-311 | a Send through stopped radios answers InterfaceUnavailable, or NoRoute exactly if no radio carries it |
| Transmissions.LinkCarriesOnwards | src/ESPressio_RadioTransport.hpp:294-342 | over a whole run, a started radio that refuses nothing transmits exactly the frames of the messages the node passes on, in order, each to the next hop of its route |
| Transmissions.OnwardFrames | src/ESPressio_RadioTransport.hpp:294-342 | and these frames are those that the chain of nodes passes on |
| ClockWire.ReadWritten | src/ESPressio_RadioClockSynchronizer.hpp:101-172 | request and response decode to the same number, timestamps and address |
| ClockWire.WrittenRead | src/ESPressio_RadioClockSynchronizer.hpp:101-172 | a decoded response encodes to the same 32 bytes; a request does exactly if the bytes behind its address are zero |
| ClockWire.ProtocolsDisjoint | src/ESPressio_RadioClockSynchronizer.hpp:154-166 | no byte string is accepted by both header decoders |
| WireLayout.RequestLayout | src/ESPressio_RadioClockSynchronizer.hpp:364-372 | which byte of a request holds what, zeros behind the address |
| WireLayout.ResponseLayout | src/ESPressio_RadioClockSynchronizer.hpp:223-231 | which byte of a response holds what |
| WireLayout.HeadersAre | src/ESPressio_RadioClockSynchronizer.hpp:154-166 | exactly which bytes pass as a header, and the type and number read from them |
| WireLayout.MessagesAre | src/ESPressio_RadioClockSynchronizer.hpp:168-251 | exactly which packets with such a header are a request or a response |
| ClockWire.EncodeRequest | src/ESPressio_RadioClockSynchronizer.hpp:364-372 | the buffer filled in place is the request |
| ClockWire.EncodeResponse | src/ESPressio_RadioClockSynchronizer.hpp:223-231 | the buffer filled in place is the response |
| ClockSteps.CountersBalance | src/ESPressio_RadioClockSynchronizer.hpp:187-455 | after every run, attempted plus received requests equal sent plus answered plus failed, and responses equal samples, modulo 2^64 |
| ClockSteps.SeenPacketsAreCounted | src/ESPressio_RadioClockSynchronizer.hpp:187-455 | the packets seen since the last reset equal ignored frames plus requests plus responses, modulo 2^64 |
| ClockSteps.RequiredTimestampsAreUsed | src/ESPressio_RadioClockSynchronizer.hpp:410-413 | with RequireReceiveTimestamp nothing is timed by the fallback |
| ClockPacing.Paced | src/ESPressio_RadioClockSynchronizer.hpp:375-400 | recorded request times are an interval apart and the last one is remembered |
| ClockPacing.NoUnderflow | src/ESPressio_RadioClockSynchronizer.hpp:395-399 | now minus last never wraps |
| ClockPacing.RateBound | src/ESPressio_RadioClockSynchronizer.hpp:375-400 | k requests that reach the radio span at least k - 1 intervals |
| ClockPacing.RefusedStaysDue | src/ESPressio_RadioClockSynchronizer.hpp:344-388 | a request uses up the interval exactly if it reached the radio |
| ClockPacing.DueIs | src/ESPressio_RadioClockSynchronizer.hpp:390-399 | exactly when Update asks for a request: nothing sent yet, or the configured milliseconds gone by since |
| ClockUpdates.AlwaysAloneApart | src/ESPressio_RadioClockSynchronizer.hpp:375-399 | in every interleaving of threads in Update, a request is an interval after the one before it if none was recorded since its thread read the clock |
| ClockUpdates.PacedIffOneThread | src/ESPressio_RadioClockSynchronizer.hpp:375-399 | all runs of n threads in Update keep requests an interval apart exactly if n is at most one |
| ClockOffset.RecoveredIs | src/ESPressio_RadioClockSynchronizer.hpp:174-185 | the recovered time is the arrival time less the gap between the clock reads, however long the packet was queued |
| ClockOffset.OffsetBracket | src/ESPressio_RadioClockSynchronizer.hpp:174-274 | the true offset lies between T3 - T4 - g4 and T2 - T1 + g2 |
| ClockOffset.BracketWidth | src/ESPressio_RadioClockSynchronizer.hpp:174-274 | the bounds are off by the time on the air and nothing else exactly if no timestamp is missing or saturated |
| ClockSynchronizers.AnswerEchoesRequest | src/ESPressio_RadioClockSynchronizer.hpp:187-236 | exactly which requests are answered; the answer returns number and T1 to the embedded address |
| ClockExchange.RequestLeaves | src/ESPressio_RadioClockSynchronizer.hpp:344-380 | exactly when a request leaves; it goes to the reference, with the number and T1, and asks for the answer at the client's own address |
| ClockExchange.RequestRefused | src/ESPressio_RadioClockSynchronizer.hpp:346-356 | the status of every request that does not leave |
| ClockExchange.PendingIffOnAir | src/ESPressio_RadioClockSynchronizer.hpp:373-388 | a request is tried once; it is on the air, pending and counted as sent exactly if the radio takes it, and otherwise nothing is pending and a failure is counted |
| ClockExchange.AnsweredIff | src/ESPressio_RadioClockSynchronizer.hpp:187-236 | for any packet: exactly which are answered, and with what |
| ClockExchange.AnswerOnAir | src/ESPressio_RadioClockSynchronizer.hpp:233-235 | an answer is tried once, and is on the air and counted as sent exactly if the radio takes it |
| ClockExchange.SampledIff | src/ESPressio_RadioClockSynchronizer.hpp:238-274 | for any packet: exactly which make a sample; that clears the pending request, and all others leave it and the samples alone |
| ClockExchange.ForeignResponseIgnored | src/ESPressio_RadioClockSynchronizer.hpp:247-254 | a response from another source than the reference changes neither the pending request nor the samples |
| ClockExchange.DeafToOthers | src/ESPressio_RadioClockSynchronizer.hpp:403 | a packet from another radio, or to a synchronizer that is not initialized, changes nothing and is not answered |
| ClockExchange.FallbackCountedIff | src/ESPressio_RadioClockSynchronizer.hpp:174-180 | exactly the answers and samples without a receive timestamp are counted as fallbacks |
| ClockExchange.RoundTrip | src/ESPressio_RadioClockSynchronizer.hpp:187-388 | request out, answer by the reference at the client's address, and the sample of the four timestamps with nothing pending |
| ClockExchange.InitializedIff | src/ESPressio_RadioClockSynchronizer.hpp:297-335 | exactly which configurations a synchronizer starts with, and what it then has |
| ClockExchange.StartedClientCanAsk | src/ESPressio_RadioClockSynchronizer.hpp:297-380 | a client that starts on a started radio can send, and its request fits the link |
| ClockExchange.DownUntilInitialized | src/ESPressio_RadioClockSynchronizer.hpp:337-342 | from Shutdown to the next Initialize, no call changes anything but counters, and no request leaves |
| ClockSynchronizers.ClockSynchronizer.RecoverSystemTimestamp | src/ESPressio_RadioClockSynchronizer.hpp:174-185 | the recovered time, counting a missing timestamp |
| ClockSynchronizers.ClockSynchronizer.ProcessRequest | src/ESPressio_RadioClockSynchronizer.hpp:187-236 | the state and the frame sent, every reason to ignore the request included |
| ClockSynchronizers.ClockSynchronizer.ProcessResponse | src/ESPressio_RadioClockSynchronizer.hpp:238-274 | the pending request is cleared and its sample submitted, or the frame ignored |
| ClockSynchronizers.ClockSynchronizer.OnRadioPacketReceived | src/ESPressio_RadioClockSynchronizer.hpp:402-417 | one packet makes one step of the specification, and sends what it says |
| ClockSynchronizers.ClockSynchronizer.TakeSequence | src/ESPressio_RadioClockSynchronizer.hpp:358-362 | the next number, skipping 0 |
| ClockSynchronizers.ClockSynchronizer.RequestSynchronization | src/ESPressio_RadioClockSynchronizer.hpp:344-388 | the state, the request sent and the status, early failures included |
| ClockSynchronizers.ClockSynchronizer.Update | src/ESPressio_RadioClockSynchronizer.hpp:390-400 | a request is sent exactly if one is due |
| ClockSynchronizers.ClockSynchronizer.Initialize | src/ESPressio_RadioClockSynchronizer.hpp:297-335 | which configurations are accepted, and the state after either outcome |
| ClockSynchronizers.ClockSynchronizer.Shutdown | src/ESPressio_RadioClockSynchronizer.hpp:337-342 | nothing pending and no request time remembered |
| ClockSynchronizers.ClockSynchronizer.ResetStatistics | src/ESPressio_RadioClockSynchronizer.hpp:444-455 | all counters zero, nothing else changed |
| ClockProtocol.AlwaysSound | src/ESPressio_RadioClockSynchronizer.hpp:238-388 | in every interleaving: tickets are handed out, put in the cell and consumed at most once, and a response in hand has the T1 of the request it answers |
| ClockCounters.AlwaysAddsUp | src/ESPressio_RadioClockSynchronizer.hpp:187-455 | in every interleaving of calls and of the stores of resets, requests, samples and packets add up with the calls in progress and with what resets dropped |
| ClockCounters.CountersAddUp | src/ESPressio_RadioClockSynchronizer.hpp:187-455 | whenever no call is in progress, requests balance exactly if resets dropped as many beginnings as outcomes, samples likewise, and packets counted and dropped are those seen |
| ClockCounters.QuietResetAddsUp | src/ESPressio_RadioClockSynchronizer.hpp:444-455 | if no call is in progress from the first store of the last reset to its last, all balances hold, and packets are those seen since |
| ClockCounters.NeverResetAddsUp | src/ESPressio_RadioClockSynchronizer.hpp:187-455 | without a reset all balances hold |
| ClockCounters.CallBetweenStores | src/ESPressio_RadioClockSynchronizer.hpp:444-455 | a run in which neither the first nor the last store of a reset finds a call in progress, and requests do not balance |
| ClockCounters.ResetAroundOutcome | src/ESPressio_RadioClockSynchronizer.hpp:444-455 | a run in which a reset begins during a request, and requests balance |
| ClockCounters.ResetDuringCall | src/ESPressio_RadioClockSynchronizer.hpp:444-455 | a run with a whole reset during a request, after which requests do not balance |
| ClockNumbers.FallbackIffMultiple | src/ESPressio_RadioClockSynchronizer.hpp:358-362 | exactly the requests between whose two fetches lie 2^32 - 1 others, up to whole turns, are numbered by the fallback |
| ClockNumbers.AcceptedOncePerTurn | src/ESPressio_RadioClockSynchronizer.hpp:256-262 | two accepted responses with one number are less than 2^32 fetches apart exactly if one is a fallback and the other the true 1 next to it, in every interleaving, restarts included |
| ClockNumbers.NoEarlyRepeat | src/ESPressio_RadioClockSynchronizer.hpp:256-262 | before 2^33 fetches there is no such pair |
| ClockNumbers.AcceptedRequestsApart | src/ESPressio_RadioClockSynchronizer.hpp:256-262 | counted in requests, two accepted responses with one number are at least 2^32 - 1 apart, unless the earlier took the fallback and the later is the very next |
| ClockNumbers.SamplesAreGenuine | src/ESPressio_RadioClockSynchronizer.hpp:238-388 | an accepted response has the T1 of its own request, or of one with its number a turn away or next to a fallback; within 2^32 fetches always of its own |
| ClockPending.PendingIff | src/ESPressio_RadioClockSynchronizer.hpp:238-388 | a pending request still is after any run exactly if nothing was posted, retracted, cleared or restarted since |
| ClockPending.ResponseMatchedIff | src/ESPressio_RadioClockSynchronizer.hpp:256-262 | its response is matched as the answer to it exactly then |
| ClockPending.ForgottenIff | src/ESPressio_RadioClockSynchronizer.hpp:238-388 | exactly which actions of a run make it forget a request that was not answered |
| ClockPending.ForgottenForGood | src/ESPressio_RadioClockSynchronizer.hpp:238-388 | nothing is accepted for a forgotten request in any continuation |
| ClockPending.ForgottenIsIgnored | src/ESPressio_RadioClockSynchronizer.hpp:256-262 | whenever its own response arrives, it is ignored or taken for another request with the same number, a turn away or next to a fallback |
| ClockPending.ForeignRetractForgets | src/ESPressio_RadioClockSynchronizer.hpp:380-386 | a failed send whose cell another request took over meanwhile makes that one forgotten, unless its response was matched already |
| ClockRefinement.RequestRefines | src/ESPressio_RadioClockSynchronizer.hpp:344-388 | run without interruption, a request's actions have the effect that the specification of the call gives |
| ClockRefinement.ResponseRefines | src/ESPressio_RadioClockSynchronizer.hpp:238-274 | so do the actions of a response, and the sample submitted has the T1 recorded as accepted |
| ClockRefinement.ResponseIsAnswer | src/ESPressio_RadioClockSynchronizer.hpp:187-236 | the response that the protocol lets arrive is the one a reference sends to that request's bytes |
| ClockRefinement.ServeRefines | src/ESPressio_RadioClockSynchronizer.hpp:187-236 | run without interruption, the actions of serving a request have the effect that the specification of the call gives |
| ClockRefinement.ResetRefines | src/ESPressio_RadioClockSynchronizer.hpp:444-455 | the stores of a reset that nothing interrupts have the effect of the call |
| ClockRaces.NumberAcceptedTwiceInARow | src/ESPressio_RadioClockSynchronizer.hpp:358-362 | a reachable state in which one number was accepted for two consecutive fetches |
| ClockRaces.NewerRequestForgotten | src/ESPressio_RadioClockSynchronizer.hpp:256-262 | a reachable state in which a request taken by the radio is forgotten because an older response cleared the cell |
| ClockRaces.AnothersRequestForgotten | src/ESPressio_RadioClockSynchronizer.hpp:380-386 | a reachable state in which a request taken by the radio is forgotten because another thread's send failed |

## Left out

- Observer dispatchers, subscriptions and RAII handles: notification plumbing over a library not in the repository.
- The event bridge and the event types: they queue snapshots to a library not in the repository.
- RadioWorker: thread scheduling. The model keeps only that packets reach the transport one at a time.
- Re-entrancy: a receiver or radio that calls back into the transport while a message is completed.
- AddInterface, SetRoute, RemoveRoute and the started flag of the transport: the class takes its interfaces and routes at construction; its contracts hold for any of them that are wired to each other.
- Concrete radios, RSSI, link acknowledgements and capabilities other than broadcast and receive timestamps.
- Failing allocation and the lifetime of borrowed payload pointers.
- The bytes of a RadioAddress beyond its length, which no comparison reads, and the native error code of a send result.
- OR-ing shifted bytes is modelled as adding them; the shifted bytes have no bits in common.
- The processing of the clock target: offset estimation, filtering, adjustment mode and discipline. Its verdict on a sample and the clock readings are parameters.
- The mutex around the configuration: a call reads one configuration.
- Network.DeliveredWasSent: does not model frames forged or damaged by the medium, because nothing in the protocol guards against them.
- ClockSteps.CountersBalance: treats every call as one step; ClockCounters.CountersAddUp is the statement for interleaved calls.
- ClockSteps.SeenPacketsAreCounted: treats every call as one step; ClockCounters.CountersAddUp is the statement for interleaved calls.
- ClockPacing.RateBound: treats every call as one step; ClockUpdates.PacedIffOneThread is the statement for several threads.
- ClockNumbers.AcceptedOncePerTurn: counts fetches of the counter; ClockNumbers.AcceptedRequestsApart counts requests.
