# The EtherCAT master, verified

A Dafny model of the EtherCAT master in `native/soem`, with proofs of what it is for. It follows the
C code function by function: classes and arrays where the code changes state in place, values and
functions beside them that say what each operation does, and lemmas about these functions. `dafny
verify dfyconfig.toml` checks everything.

## What is modelled

- **Topology and distributed clocks** (`NetworkTree`, `SlaveList`, `Topology`, `DistributedClock`,
  `PropagationDelay`). Slaves are numbered as a frame visits them. From link counts and latched port
  times the master recovers the tree and the propagation delays; the theorems compare with a tree of
  symmetric cables that a frame travels depth first.
- **Mailbox pool, queue and handlers** (`MailboxPool`, `MailboxQueue`, `MailboxSystem`,
  `MailboxTickets`, `MailboxSafety`, `MailboxRuns`, `MailboxHandler`, `MailboxRoundRobin`). Clients and
  one handler thread take turns; a mutex makes a critical section one step.
- **Process data layout** (`IoSegments`, `IoMapping`, `IoGroup`, `IoImage`, `IoWindows`, `IoPlacement`,
  `IoPacked`). The allocator works on a bit cursor 8 * LogAddr + BitPos; the segments are a bin packer's work;
  an FMMU is a window that gives bits of the image to a slave.
- **Frames and buffers** (`Datagram`, `Port`). Frames are bytes; a socket is what was sent and what each
  attempt to read will yield, so "every order of arrival" is every such sequence.
- **Cyclic exchange** (`ProcessData`, `SegmentFrames`, `ProcessWire`, `SendReceive`, `CyclicExchange`,
  `WorkingCounter`). `MapAndExchange` composes mapping, sending, an arbitrary network and receiving, down to the
  bytes on the wire and the bits of every slave.
- **Redundancy** (`RingNetwork`, `Redundancy`, `RedundantExchange`). A line of slaves between two ports with
  at most one broken cable; which slaves process a frame follows from how they forward it.
- **Protocols** (`Eoe`, `Foe`, `Sdo`). Splitters and reassemblers that should undo each other.
- **EEPROM** (`SiiCache`, `SiiSections`) and **slave states** (`StateRead`).

## What the proofs found

Each property that does not hold of the code for every input is stated with its exact condition, beside a
lemma with an input for which it fails.

- `MailboxRuns.StepKeepsInvIff`, `StaleDropHappens`: the handler looks at `mbxremove[ticketloc]` outside the
  lock, after the tail has moved (`native/soem/src/ec_main.c:1487-1495`). If a client fills the ring in between
  and expires that request, the handler drops an entry that is not the tail, and the request at the tail leaves
  the ring while its owner holds a ticket for it (`StaleDropLosesTail`).
- `IoImage.ExpectedWkcIsExact`, `OvercountHappens`: a slave that is cut right behind an exactly full segment is
  counted once too often (`native/soem/src/ec_config.c:1117-1126`). Two slaves with 1466 and 1467 output bytes
  write in one segment each, and the counter expects three.
- `WorkingCounter.HealthyCycleIsExpected`, `StatusCountsTwice`: the byte for the state of a mailbox counts if the
  slave has no whole bytes of input (`native/soem/src/ec_config.c:1055-1057`), although it adds to the working
  counter exactly if it lies in a segment without inputs of the slave. In the cycle of the example the answer
  brings one, and two are expected.
- `IoPacked.PackedCountIff`, `PackedUndercounts`: in packed mode a slave is counted only if its bits reach the end
  of the byte in which they begin (`native/soem/src/ec_config.c:1098-1126`). A slave of four output bits alone in
  its group writes, and nothing is expected.
- `IoPlacement.PlacedIffTwoRuns`, `ThreeRunsHappen`: the count of bytes is not set back from one FMMU to the next
  (`native/soem/src/ec_config.c:922`), so that a slave whose data lie in more than two separate runs of sync
  managers gets a second FMMU that is too long, and data at addresses that no sync manager has.
- `IoGroup.LookupIsRight`, `IoImage.RemappingMisleads`: mapping a group a second time writes the table of status
  bytes behind the old entries (`native/soem/src/ec_config.c:1052-1053`). If the slaves have changed in between,
  the table names the wrong ones.
- `Foe.FileIsWritten`, `BusyAtRequest`, `BusyAtEnd`: a slave that is busy at the request, or at the empty packet
  that ends a file of full packets, ends the transfer with success (`native/soem/src/ec_foe.c:332-382`).
- `Sdo.ParameterArrives`, `EmptyParameterGrows`: an empty parameter is sent as four bytes, because the command of
  an expedited frame cannot say that none is used (`native/soem/src/ec_coe.c:373`).
- `Eoe.FrameArrives`, `LongFrameIsLost`: frames of more than 2016 bytes never arrive whole, because the six-bit
  fields of the header cannot count them. Of 2017 to 2048 bytes, which are sixty-four blocks, nothing is stored,
  and the second fragment is an error.
- `SiiSections.SectionIsRead`, `EmptySectionIsMisread`: the loop over PDOs runs once even if the section is empty
  (`native/soem/src/ec_main.c:830-870`); what follows the section is taken for a PDO.
- `StateRead.ReadStateIsTrue`, `HiddenSlave`: a slave in no state is not seen in the broadcast path.

## Model

| member | source | states |
|---|---|---|
| Topology.FindParent | native/soem/src/ec_config.c:311-339 | the backward scan returns the nearest earlier slave whose links outnumber those taken by the slaves between, or 0 for slave 1; the list is not changed |
| Topology.ScanFindsTreeParent | native/soem/src/ec_config.c:311-339 | main result: for every tree of slaves numbered in depth-first frame order, a slave is what the scan looks for if and only if it is the tree parent |
| Topology.SubtreeClosesOneLink | native/soem/src/ec_config.c:311-339 | over a whole subtree the counter of the scan falls by exactly one, and it stays negative on every tail of the subtree |
| Topology.NextChildIsAdopted | native/soem/src/ec_config.c:311-339 | behind the slaves of earlier ports, the parent is the only slave at which the counter becomes positive |
| Topology.CountLinks | native/soem/src/ec_config.c:278-299 | link count and active ports follow from the four link bits of the DL status word |
| Topology.PortsRead | native/soem/src/ec_config.c:278-299 | port by port, the bits of the DL status word that say the loop is open and there is communication |
| Topology.ReadTopology | native/soem/src/ec_config.c:276-339 | every slave of the list gets its links, its active ports and its parent; nothing else of it changes |
| NetworkTree.EveryTreeIsANetwork | native/soem/src/ec_config.c:311-339 | every tree of slaves has a numbering in frame order, so the theorems about numbered networks are about all trees |
| NetworkTree.ParentInside | native/soem/src/ec_config.c:311-339 | every slave behind another one hangs on a port of a slave there that has a smaller number |
| DistributedClock.ParentPort | native/soem/src/ec_dc.c:214-242 | returns the first unconsumed port of the parent in the order 3, 1, 2, 0, and clears that bit and no other |
| DistributedClock.FindEntryPort | native/soem/src/ec_dc.c:307-352 | the entry port is active and has the earliest time of all active ports |
| DistributedClock.EnterTakesPort | native/soem/src/ec_dc.c:350-352 | exactly the entry port is taken from the open ports of a slave |
| DistributedClock.PrevPortIsLast | native/soem/src/ec_dc.c:171-211 | the previous port is the active one that the frame visited last before the port, in the order 0, 3, 1, 2 |
| DistributedClock.ComputeDelay | native/soem/src/ec_dc.c:375-407 | the delay of a slave from the port times of its parent and its own, with both corrections and truncating division |
| DistributedClock.DelayGrows | native/soem/src/ec_dc.c:372-402 | also when the times are not those of symmetric cables, a slave is never nearer to the master than its parent, nor than what the frame needs for the children before it; by how much is stated exactly |
| DistributedClock.MeasureTakesPort | native/soem/src/ec_dc.c:365-369 | a slave is measured at the first open port of its DC parent in the order 3, 1, 2, 0, or at the entry port of a parent with a single link; that port is taken and no other slave changes |
| DistributedClock.FindDcParent | native/soem/src/ec_dc.c:357-363 | the nearest ancestor with a clock, and the slave below it on the way |
| DistributedClock.HandleSlave | native/soem/src/ec_dc.c:273-423 | one round of the loop, for slaves with and without a clock, is one step of the specification on the slave list and the two held numbers; what that step does to the list of clocks, the ports and the delays is stated apart from it by `ClocksAreLinked`, `BranchTakesPort` and `PropagationDelay.DelaysAreTrue` |
| DistributedClock.ConfigDc | native/soem/src/ec_dc.c:250-427 | for any mix of slaves the clocks are a list in the order of the slaves: entry 0 names the first one, each names the next one and the one before it, and the first has 0 before it; the group of the first clock, and no other, has it as its reference clock; whether there is a clock is returned |
| DistributedClock.ClocksAreLinked | native/soem/src/ec_dc.c:275-292 | in the list that the pass leaves, two slaves with clocks and none between name each other as next and previous, and the first one is named by entry 0 |
| DistributedClock.BranchTakesPort | native/soem/src/ec_dc.c:408-424 | a line of slaves without clocks behind a port takes exactly one port of the slave it hangs on, the first open one in the order 3, 1, 2, 0, and leaves the clocks alone |
| PropagationDelay.EntersAtPort0 | native/soem/src/ec_dc.c:307-355 | from arbitrary clock offsets, the latched times make port 0 the entry port |
| PropagationDelay.NextChildTakesItsPort | native/soem/src/ec_dc.c:214-242 | when a child is handled, the first open port of its parent is the one it hangs on, and exactly that is consumed |
| PropagationDelay.DelayIsTrue | native/soem/src/ec_dc.c:375-407 | for symmetric cables the computed delay of a child is the delay of its parent plus the true travel time between them |
| PropagationDelay.DelaysAreTrue | native/soem/src/ec_dc.c:250-427 | main result: for every tree of clocks, cable delays and clock offsets without 32-bit overflow, every slave gets its arrival time minus that of slave 1 as delay, and its true port on its parent |
| PropagationDelay.SiblingPortsInFrameOrder | native/soem/src/ec_dc.c:214-242 | children of one slave have distinct ports, in the order in which the frame visits them |
| PropagationDelay.DiscoveryDescribes | native/soem/src/ec_config.c:276-339 | what discovery writes into the slave list describes the network as the delay measurement needs it |
| PropagationDelay.MeasureNetwork | native/soem/src/ec_dc.c:250-427 | discovery and measurement one after the other: true parent, true port and true delay for every slave of every tree, slave 1 is the reference clock, and every clock names its neighbours |
| MailboxPool.Pool.GetMbx | native/soem/src/ec_main.c:272-286 | takes the oldest free buffer, or none if the pool is empty |
| MailboxPool.Pool.DropMbx | native/soem/src/ec_main.c:294-309 | puts a buffer of the pool behind the free ones; refuses anything else |
| MailboxQueue.MbxQueue.AddQueue | native/soem/src/ec_main.c:361-384 | new ring and ticket arrays and the ticket of a request, or -1 when the ring is full |
| MailboxQueue.MbxQueue.DoneQueue | native/soem/src/ec_main.c:393-409 | on the arrays: true if and only if the ring entry of the ticket is in state DONE; then the ticket is free and the entry is marked for removal; nothing else ever changes |
| MailboxQueue.MbxQueue.ExpireQueue | native/soem/src/ec_main.c:418-434 | on the arrays: true if and only if the entry is in use; then the ticket is free and the entry is marked for removal; nothing else ever changes |
| MailboxQueue.MbxQueue.RotateQueue | native/soem/src/ec_main.c:443-477 | moves the tail entry to the head and redirects its ticket; an entry without ticket, or a full ring, stays as it is |
| MailboxQueue.MbxQueue.DropQueue | native/soem/src/ec_main.c:501-516 | empties the slot and moves the tail and the count by one |
| MailboxQueue.RotateMoves | native/soem/src/ec_main.c:443-477 | entry by entry: only the slot at the head changes, to a copy of the tail; one ticket of the given place stands for the head; fails only if there is no such ticket |
| MailboxQueue.DropBlanks | native/soem/src/ec_main.c:501-516 | only the given slot changes, to a blank one, and its buffer is returned |
| MailboxTickets.FreeTicketExists | native/soem/src/ec_main.c:361-384 | whenever the ring is not full there is a free ticket, so adding stays inside the ticket array |
| MailboxTickets.AddKeepsTickets | native/soem/src/ec_main.c:361-384 | adding keeps live tickets and entries that are not removed in one-to-one correspondence, each ticket with its own request |
| MailboxTickets.RotateKeepsTickets | native/soem/src/ec_main.c:443-477 | rotating keeps this correspondence |
| MailboxTickets.DropKeepsTickets | native/soem/src/ec_main.c:501-516 | dropping a removed tail entry keeps it |
| MailboxTickets.ReleaseKeepsTickets | native/soem/src/ec_main.c:393-434 | finishing or expiring a request keeps it for all others |
| MailboxSafety.StepKeepsInv | native/soem/src/ec_main.c:272-309 | every step of any client or of the handler keeps the invariant, except a drop of a slot that no longer is the tail |
| MailboxSafety.TurnsStayInBounds | native/soem/src/ec_main.c:361-516 | no step leaves the arrays, and the handler, which goes by the count from the beginning of its pass, never visits an empty ring |
| MailboxRuns.RunIsSafe | native/soem/src/ec_main.c:1446-1498 | over every interleaving up to a first stale drop: all accesses in bounds, and the invariant in every state |
| MailboxRuns.StepKeepsInvIff | native/soem/src/ec_main.c:1487-1495 | a step keeps the invariant if and only if it is not a drop of a slot that a client refilled in between |
| MailboxRuns.StaleDropBreaks | native/soem/src/ec_main.c:1487-1495 | such a drop happens only when the ring became full, and leaves an entry that no ticket denotes |
| MailboxRuns.StaleDropLosesTail | native/soem/src/ec_main.c:1487-1495 | what is lost by it: the entry at the tail leaves the ring, and if it is a request its owner keeps a ticket for a place outside the ring |
| MailboxRuns.StaleDropHappens | native/soem/src/ec_main.c:1487-1495 | a concrete run that reaches one: the handler rotates, a client fills the last slot and expires it, the handler then looks at the slot without the lock |
| MailboxRuns.RunThatNeverFillsIsSafe | native/soem/src/ec_main.c:361-516 | clients that never fill the ring are safe from it: every run keeps the invariant |
| MailboxRuns.DoneMeansSent | native/soem/src/ec_main.c:393-409 | a ticket that reports success belongs to a request whose mailbox was sent to its slave |
| MailboxRuns.EveryBufferHasOnePlace | native/soem/src/ec_main.c:272-309 | every pool buffer is in exactly one of: pool, client, ring slot, handler; in one slot only, and once in the pool |
| MailboxHandler.SendTail | native/soem/src/ec_main.c:1462-1485 | sends the tail request if its slave is ready: state, log and pool change as the answer says |
| MailboxHandler.MoveTail | native/soem/src/ec_main.c:1487-1495 | the visited entry goes to the end of the ring, or leaves it when it is marked for removal |
| MailboxHandler.VisitIsRun | native/soem/src/ec_main.c:1456-1496 | one visit, with any answer of the slave, is a sequence of single steps of the handler, all inside the arrays |
| MailboxHandler.OutHandler | native/soem/src/ec_main.c:1446-1498 | one pass visits the queued requests once each, in order, until the limit is exceeded, and all of them if it is large enough: what stays, what is sent, which buffers return and how many requests waited are exactly those of the single visits; and the pass is a run of the steps whose interleavings `MailboxRuns` is about |
| MailboxHandler.VisitCompletes | native/soem/src/ec_main.c:1462-1495 | a visit that writes the mailbox, for the first time or again, leaves the ticket of its owner at an entry in state DONE, so that its next `DoneQueue` succeeds |
| MailboxHandler.AllDone | native/soem/src/ec_main.c:1446-1498 | a pass over the whole ring in which every slave takes its mailbox: every ticket reports success |
| MailboxHandler.PassThenDone | native/soem/src/ec_main.c:393-409 | handler and client one after the other: after such a pass `DoneQueue` of any ticket a client owns returns true |
| MailboxRoundRobin.MbxInHandler | native/soem/src/ec_main.c:1228-1250 | one call visits the positions that follow the last one, without a gap, and ends with the visit whose work reaches its limit, and not before |
| MailboxRoundRobin.RoundWithoutGap | native/soem/src/ec_main.c:1228-1250 | successive calls with any limits and any work together go round the positions without a gap |
| MailboxRoundRobin.EveryPositionHasItsTurn | native/soem/src/ec_main.c:1228-1250 | in any n visits in a row every one of n positions has its turn |
| IoMapping.CreateMappings | native/soem/src/ec_config.c:756-1021 | the FMMU loop of a slave ends, sets exactly the specified FMMUs, data pointer and count, and leaves the bit cursor behind its data; what these FMMUs do is stated in `IoWindows` and `IoPlacement` |
| IoMapping.FreeFmmu | native/soem/src/ec_config.c:772-779 | the first FMMU without a logical address, if the slave has outputs |
| IoMapping.MapWindow | native/soem/src/ec_config.c:781-888 | one round sets the next FMMU and goes on to a later sync manager unless the slave is done |
| IoMapping.PlaceBits | native/soem/src/ec_config.c:814-834 | a window of less than eight bits starts at the cursor and may run over a byte boundary |
| IoMapping.PlaceBytes | native/soem/src/ec_config.c:835-855 | a window of bytes starts at the next byte boundary and is cut to what is still missing |
| IoMapping.WindowsCoverImage | native/soem/src/ec_config.c:781-888 | the windows of a slave whose sync managers supply enough have exactly the bytes it asked for |
| IoMapping.SlaveFmmusTile | native/soem/src/ec_config.c:814-888 | the FMMU windows of a slave lie one behind the other and fill exactly its bits, or rounded bytes |
| IoMapping.RunProgress | native/soem/src/ec_config.c:791-812 | a run of adjacent sync managers ends with enough bytes, or before one that is still to be counted |
| IoGroup.DataInOrder | native/soem/src/ec_config.c:1079-1199 | packed or not, data of different slaves share no bit and lie in the order of the slaves |
| IoGroup.PackImage | native/soem/src/ec_config.c:1108-1126 | the array of segments and its counters follow the specification when one slave's bytes are added |
| IoGroup.MapDirection | native/soem/src/ec_config.c:1079-1128 | one pass over all slaves: slave list, cursor and segments are those of the specification |
| IoGroup.MapStatus | native/soem/src/ec_config.c:1220-1243 | every slave with a mailbox and an FMMU left gets one status byte; slave list, lookup table from its old length on, segments and counters follow |
| IoGroup.LookupIsRight | native/soem/src/ec_config.c:1052-1053 | the lookup table is right after mapping if and only if it was empty before, or had at least as many entries and the same ones first |
| IoImage.RemappingMisleads | native/soem/src/ec_config.c:1052-1053 | two mappings, of a group whose second list has its mailbox at another slave: the table still names the first |
| IoGroup.Group.MapOutputs | native/soem/src/ec_config.c:1065-1153 | outputs are mapped from address 0 and rounded up to a byte; where the inputs begin is recorded |
| IoGroup.Group.MapInputs | native/soem/src/ec_config.c:1155-1211 | inputs are mapped behind the outputs |
| IoGroup.Group.MapGroup | native/soem/src/ec_config.c:1062-1252 | the group record holds exactly the specified image, the slave list is the specified one, the lookup table is written from its old length on, and the returned size is outputs, inputs and status bytes; `IoWindows` and `IoImage` say what image and list are |
| IoImage.SegmentsCoverImage | native/soem/src/ec_config.c:1062-1247 | main result: the segments add up to outputs, inputs and mailbox status bytes |
| IoImage.SegmentsFitFrames | native/soem/src/ec_config.c:1062-1247 | the first segment leaves room for the DC datagram, and every other fits a frame |
| IoImage.FittingSlaveIsNotCut | native/soem/src/ec_config.c:1108-1123 | without packing, a slave whose data fit the limit in force lies in one segment |
| IoImage.ExpectedWkcIsExact | native/soem/src/ec_config.c:1087-1128 | the expected counters are the pairs of a slave and a segment with data of it, plus one for every slave that is cut behind an exactly full segment: exact if and only if there is none |
| IoImage.OvercountHappens | native/soem/src/ec_config.c:1117-1126 | two slaves for which the counter of the outputs is one too many |
| IoSegments.WkcCountsTouchedSegments | native/soem/src/ec_config.c:1108-1126 | for one slave the counter grows by the segments that hold its data, and by one too many in exactly one case |
| IoSegments.AddImageKeeps | native/soem/src/ec_config.c:1108-1123 | no byte is lost when segments are cut, and the limits hold |
| IoImage.FmmusCoverOutputs | native/soem/src/ec_config.c:892-1021 | in the final slave list the first FMMUs of a slave cover exactly its output bits |
| IoImage.FmmusCoverInputs | native/soem/src/ec_config.c:756-890 | and the next ones exactly its input bits |
| IoImage.OutputsBeforeInputs | native/soem/src/ec_config.c:1138-1211 | all outputs come before all inputs, and everything lies inside the image |
| IoImage.StatusFmmu | native/soem/src/ec_config.c:1023-1061 | the FMMU for the status byte of a slave comes behind its data windows; its byte lies behind all inputs, inside the image, where the lookup table says |
| IoImage.StatusBytesApart | native/soem/src/ec_config.c:1023-1061 | status bytes of different slaves are different bytes |
| IoImage.InputsBehindOutputs | native/soem/src/ec_config.c:1144-1148 | the segment and the offset at which the inputs begin: what lies before is exactly the outputs |
| IoWindows.FmmusConfigured | native/soem/src/ec_config.c:985-992 | in the final slave list every FMMU of an output window with data is active with type 2 and begins at a sync manager of type 3, and every one of an input window is active with type 1 and begins at one of type 4 |
| IoWindows.SlaveServesItsBits | native/soem/src/ec_config.c:756-1061 | main result: a slave takes exactly the bits of its outputs, each through exactly one active FMMU of type 2, and gives exactly those of its inputs and of its status byte, each through exactly one of type 1 |
| IoWindows.MappedIsServed | native/soem/src/ec_config.c:994-1018 | and these are the bits that its data pointers and start bits name |
| IoWindows.OneOwner | native/soem/src/ec_config.c:1062-1252 | a bit of the image belongs to one slave at most, and there to its outputs, its inputs or its status byte |
| IoWindows.MappedApart | native/soem/src/ec_config.c:1062-1252 | the same of the records after mapping, and all of it lies in the image |
| IoWindows.ImageIsTight | native/soem/src/ec_config.c:1091-1107 | without packing outputs and inputs have exactly the bytes that the slaves need |
| IoWindows.PackedIsTight | native/soem/src/ec_config.c:814-845 | packed, the bits of a slave begin right behind those of the one before, and whole bytes at the next byte |
| IoPlacement.PlacedIffTwoRuns | native/soem/src/ec_config.c:911-987 | main result: the windows map every byte of the data to where the sync managers have it if and only if at most two runs of sync managers are needed, and in these each begins where the one before ends |
| IoPlacement.ThreeRunsHappen | native/soem/src/ec_config.c:918-966 | three separate sync managers of two bytes: the second FMMU has four, and the third sync manager gets none |
| IoPacked.PackedCountIff | native/soem/src/ec_config.c:1098-1126 | packed outputs that fit the first segment: all writers are expected if and only if the outputs of each reach the end of the byte in which they begin |
| IoPacked.PackedUndercounts | native/soem/src/ec_config.c:1098-1126 | a slave of four output bits alone in its group: it writes, and no writer is expected |
| Datagram.SetupDatagram | native/soem/src/ec_base.c:66-90 | the frame holds a chain of this one datagram; its length is returned and the Ethernet header stays |
| Datagram.AddDatagram | native/soem/src/ec_base.c:104-146 | the chain is longer by the new datagram, earlier ones stay what they are and announce it, and the returned offset is where its data will be in the received frame |
| Datagram.WriteDatagramData | native/soem/src/ec_base.c:29-53 | commands that only read carry zeros, others the data |
| Datagram.ParseReadsChain | native/soem/src/ec_base.c:66-146 | main result: following the "more follows" bits reads back exactly the datagrams the frame was built from |
| Datagram.LastWkcAtLength | native/soem/oshw/linux/nicdrv.c:430-438 | the last working counter is found at the length that the EtherCAT header gives |
| Port.GetIndex | native/soem/oshw/linux/nicdrv.c:223-255 | takes the first empty buffer behind the last one taken, and marks it; only if none is empty it takes one that is in use |
| Redundancy.RedundantPort.GetIndex | native/soem/oshw/linux/nicdrv.c:223-255 | the same on both ports |
| Redundancy.RedundantPort.SetBufStat | native/soem/oshw/linux/nicdrv.c:257-267 | the state of a buffer is set on both ports |
| Port.Stack.InFrame | native/soem/oshw/linux/nicdrv.c:378-468 | one attempt: the frame from its buffer, or from the socket; frames of others go to their own buffers if these wait for them |
| Port.Stack.WaitInFrame | native/soem/oshw/linux/nicdrv.c:482-533 | attempts go on until the frame is there or the time is over |
| Port.StepKeepsOther | native/soem/oshw/linux/nicdrv.c:441-455 | while one frame is fetched, the answer to another one is neither lost nor mixed up |
| Port.StepTakes | native/soem/oshw/linux/nicdrv.c:401-440 | an attempt yields the answer to its frame, or brings it nearer |
| Port.WaitTakes | native/soem/oshw/linux/nicdrv.c:482-533 | waiting succeeds if the answer comes and time suffices, and then the buffer holds exactly that answer |
| ProcessData.AnswerKept | native/soem/src/ec_main.c:2601-2676 | until its turn an answer is kept, whatever arrives in between |
| ProcessData.ReceiveGathers | native/soem/src/ec_main.c:2601-2676 | for every order of arrival and every loss, image, working counter and clock are exactly what the answers carried that came in time |
| ProcessData.GotIffComing | native/soem/src/ec_main.c:2616-2620 | with time enough a frame is taken if and only if its answer comes |
| ProcessData.BuffersAreFreed | native/soem/src/ec_main.c:2661-2663 | every buffer that was used is free again |
| ProcessData.MergedByte | native/soem/src/ec_main.c:2622-2640 | byte by byte: answered segments hold what was returned at their addresses, others are as they were |
| ProcessData.UnpackIs | native/soem/src/ec_main.c:2622-2660 | a read and a read and write bring their data into the image and count once, a write brings none and counts twice, anything else changes nothing; in the DC frame the counter of the first datagram counts |
| SegmentFrames.ProgressStep | native/soem/src/ec_main.c:2543-2589 | one more segment on its way leaves those before it on theirs |
| SegmentFrames.AnswerToCarrier | native/soem/src/ec_main.c:2622-2640 | an answer that keeps the headers of its frame has process data and their working counter where the master reads them |
| SendReceive.BuildFrame | native/soem/src/ec_main.c:2548-2566 | the frame holds the segment, and in the first frame a second datagram that reads and distributes the clock; its bytes are those of `ProcessWire.CarriesOnWire` |
| SendReceive.Master.SendSegment | native/soem/src/ec_main.c:2545-2583 | takes a free buffer, sends the segment and notes it on the index stack; the bytes that are sent are those of `ProcessWire.CarriesOnWire` |
| SendReceive.Master.SendProcessData | native/soem/src/ec_main.c:2416-2592 | the frames, byte by byte: frame k is one LRW (command 12) at the logical address at which segment k begins, with the bytes of the image there; the first one has a second datagram with command 14 to the reference clock, at register 0x0910, with the eight bytes of the clock, if there is one; every byte of the image is in exactly one frame; the mailbox status bytes are cleared before |
| ProcessWire.CarriesOnWire | native/soem/src/ec_main.c:2555-2574 | every byte of a frame that carries a segment: EtherType, length, command 12, index, logical address, data length, data, working counter 0, and the datagram for the clock |
| ProcessWire.WireIsRead | native/soem/src/ec_main.c:2562-2574 | following the headers in these bytes gives one datagram with the data at the logical address, or two with that for the clock |
| ProcessWire.WireCarriesImage | native/soem/src/ec_main.c:2555-2587 | every byte of the image is in exactly one frame, with its value, and the frames cover no other byte |
| SendReceive.Master.ReceiveProcessData | native/soem/src/ec_main.c:2601-2676 | image, clock, working counter and buffers are those of the specification; the index stack is empty again |
| SendReceive.Master.PullIndex | native/soem/src/ec_main.c:2374-2384 | takes the next frame off the index stack |
| SendReceive.Master.UnpackFrame | native/soem/src/ec_main.c:2622-2660 | the data of a received frame go to their place in the image; only the first working counter counts in the DC frame |
| SendReceive.Master.ClearMbxStatus | native/soem/src/ec_main.c:1129-1137 | exactly the mailbox status bytes become zero |
| CyclicExchange.CycleIsExact | native/soem/src/ec_main.c:2416-2676 | main result: for every order of arrival and every loss, answered segments hold the returned bytes, all else is unchanged, the working counter is the sum of the process data that came, every buffer is empty |
| CyclicExchange.UnderwayIsValid | native/soem/oshw/linux/nicdrv.c:378-468 | answers, in any order and number, and packets of others: all can be received, and each index belongs to one frame |
| CyclicExchange.Exchange | native/soem/src/ec_main.c:2416-2676 | one whole cycle with a network that answers what it delivers, in any schedule: the frames carry the image byte by byte as on `SendProcessData`, every byte of an answer that came is in the image where the headers of its frame say and all else is as it was, the result is the sum of the counters behind the data in the answers that came, or -1, and the clock is the one that came back |
| CyclicExchange.NetworkExists | native/soem/oshw/linux/nicdrv.c:378-468 | for every way in which slaves may answer there is a network as `Exchange` assumes it, which delivers everything |
| CyclicExchange.MappedIsSendable | native/soem/src/ec_config.c:1062-1247 | what mapping leaves can be sent, if there are not more segments than buffers |
| CyclicExchange.MapAndExchange | native/soem/src/ec_config.c:1062-1252 | main result: mapping and a cycle one after the other: the slaves serve exactly the bits that their pointers name, every bit has one owner, and the image that was mapped is exchanged byte by byte as on `Exchange` |
| CyclicExchange.OutputBitArrives | native/soem/src/ec_main.c:2555-2587 | main result: every output bit of a slave is in exactly one frame with its value in the image, is taken by that slave through exactly one FMMU, and by no other slave |
| CyclicExchange.InputBitReturns | native/soem/src/ec_main.c:2622-2660 | main result: every input bit of a slave is given through exactly one FMMU into exactly one frame, and if the answer came its byte is in the image at the place of the bit |
| WorkingCounter.CountedBothWays | native/soem/src/ec_config.c:1087-1199 | counted by segments or by slaves there are as many pairs of a slave and a segment with data of it |
| WorkingCounter.ReadersCounted | native/soem/src/ec_config.c:1155-1243 | the same for slaves that read: every segment with inputs counts once, and the one with the status byte if it holds no inputs of the slave |
| WorkingCounter.HealthyCycleIsExpected | native/soem/src/ec_config.c:1055-1057 | main result: when all slaves are healthy and all answers come, the working counter of the cycle is 2 * outputsWKC + inputsWKC if and only if the status bytes that lie apart from the inputs of their slave make up for slaves cut behind a full segment and status bytes of slaves without whole bytes of input |
| WorkingCounter.HealthyWithoutStatus | native/soem/src/ec_config.c:1087-1199 | without status bytes, if and only if no slave is cut behind an exactly full segment |
| WorkingCounter.StatusCountsTwice | native/soem/src/ec_config.c:1055-1057 | a cycle of a slave with four input bits and a mailbox: its healthy answer brings one, and two are expected |
| WorkingCounter.StatusesCounted | native/soem/src/ec_config.c:1055-1057 | the status bytes that the expected counter adds are those of slaves with less than eight bits of input |
| RingNetwork.RingExits | native/soem/oshw/linux/nicdrv.c:470-481 | where the frames sent at the two ports come out, and which slaves have processed them, for whole cables and for any one broken |
| Redundancy.RedundantPort.OutFrameRed | native/soem/oshw/linux/nicdrv.c:304-335 | the frame goes out on the primary port, marked 1 in its source address, and the dummy with the same index on the secondary one, marked 4; both buffers wait |
| Redundancy.RedundantPort.WaitBoth | native/soem/oshw/linux/nicdrv.c:515-531 | both sockets are polled until both frames are there or the time is over |
| Redundancy.RedundantPort.SettleFrames | native/soem/oshw/linux/nicdrv.c:532-574 | copying, rewriting and resending follow the decision tree over what came back where |
| Redundancy.RedundantPort.WaitInFrameRed | native/soem/oshw/linux/nicdrv.c:482-579 | the whole receive with redundancy is the specification on both sockets |
| Redundancy.SettleWhole | native/soem/oshw/linux/nicdrv.c:542-551 | both frames went all the way: the frame from the secondary socket counts |
| Redundancy.SettleEnd | native/soem/oshw/linux/nicdrv.c:576-578 | only the primary frame came back, after all slaves: nothing needs to be done |
| Redundancy.SettleAgain | native/soem/oshw/linux/nicdrv.c:552-574 | what came back, or the frame itself, is sent at the other port and returns whole |
| Redundancy.OneBreakIsHealed | native/soem/oshw/linux/nicdrv.c:304-579 | main result: with all cables whole or any one broken, the primary buffer and the working counter are those of one traversal of all slaves in standard order |
| RedundantExchange.Exchange | native/soem/oshw/linux/nicdrv.c:304-579 | main result: a frame is sent and waited for; with all cables whole or any one broken, its receive buffer holds the frame as one traversal of all slaves in standard order leaves it, and its working counter is returned |
| RedundantExchange.RingExists | native/soem/oshw/linux/nicdrv.c:482-579 | for every line of slaves and every break there are sockets that behave as `Exchange` assumes |
| Eoe.EOEsend | native/soem/src/ec_eoe.c:332-416 | the mailboxes that are sent, field by field: data from a block boundary on, length, type and counter, port, mark of the last one, fragment number modulo 256, place or size in blocks, frame number; up to the first that is not accepted; a mailbox that is too small is an error |
| Eoe.SplitIsMailboxes | native/soem/src/ec_eoe.c:355-402 | fragment i of a frame has these fields, and is the last one exactly when the rest fits the mailbox |
| Eoe.FragmentsFit | native/soem/src/ec_eoe.c:355-398 | every fragment fits the mailbox |
| Eoe.FieldsReadBack | native/soem/src/ec_eoe.c:362-391 | the header fields of a fragment are read back as they were set, up to their widths |
| Eoe.Receiver.EOEreadfragment | native/soem/src/ec_eoe.c:559-664 | told by the bits of the header: a mailbox of another protocol changes nothing; a fragment other than the expected one, of another frame or from another place is refused and ends what was begun; of any other the data are stored if size and buffer have room, and the last one ends the frame, without its time stamp |
| Eoe.ReadIsTaken | native/soem/src/ec_eoe.c:577-664 | the same of the specification, for every state of the receiver and every mailbox |
| Eoe.ReadBounded | native/soem/src/ec_eoe.c:600-655 | the receiver never reports more bytes than the header fields can count, or than the buffer has |
| Eoe.FragmentTaken | native/soem/src/ec_eoe.c:577-664 | an expected fragment is stored where it belongs, and the last one completes the frame |
| Eoe.FrameArrives | native/soem/src/ec_eoe.c:332-664 | main result: from any state of the receiver it gets exactly the frame if and only if the frame has at most 2016 bytes and fits the buffer |
| Eoe.LongFrameIsLost | native/soem/src/ec_eoe.c:385-394 | a frame of 2017 to 2048 bytes, over any mailbox from 42 to 1486 bytes: nothing is stored, and the receiver reports invalid data |
| Foe.FOEwrite | native/soem/src/ec_foe.c:214-411 | the exchange with a slave, for any replies of it, runs as specified |
| Foe.BusyRepeats | native/soem/src/ec_foe.c:332-382 | a busy slave gets the same number and bytes again; but an empty packet is not repeated, and the writer then stops with success |
| Foe.AckGoesOn | native/soem/src/ec_foe.c:273-331 | an accepted packet is followed by the next bytes of the file; the transfer ends with the packet that is shorter than full size |
| Foe.ReplyErrors | native/soem/src/ec_foe.c:325-405 | -7 for an acknowledgement with a wrong number, -10 for error 0x8001 and -5 for any other, -3 for anything else |
| Foe.FileIsWritten | native/soem/src/ec_foe.c:260-411 | main result: the master reports success, and the slave has the whole file, in full packets and one shorter one, if and only if it was never busy at the request nor at the empty packet that ends a file of full packets |
| Foe.BusyAtRequest | native/soem/src/ec_foe.c:332-382 | a slave busy once, at the request: nothing is written, and the master reports success |
| Foe.BusyAtEnd | native/soem/src/ec_foe.c:332-382 | a slave busy once, at the final empty packet: the file is never complete, and the master reports success |
| Foe.OnlyTheFileIsWritten | native/soem/src/ec_foe.c:260-411 | for any decisions of the slave, and if it falls silent, it gets nothing but the beginning of the file |
| Foe.ReadRecovers | native/soem/src/ec_foe.c:119-196 | the rule for the end of a file recovers every file from its packets if and only if the buffer has room |
| Foe.FOEread | native/soem/src/ec_foe.c:74-202 | data, size and result of a read are those of the rule; exactly the packets that are taken are acknowledged, in order |
| Foe.ReadIsTaken | native/soem/src/ec_foe.c:119-196 | packets are taken with the next number and full size up to one that is not full; a wrong number, a packet that does not fit, an error or another mailbox ends the read with its own error |
| Sdo.SDOwrite | native/soem/src/ec_coe.c:343-570 | the frames that are sent, field by field: expedited 0x23 to 0x2f by size; or 0x21, with complete access 0x31, the size and the first bytes, then segments with alternating toggle bit, the last one marked and with its unused bytes; up to the first that the slave refuses, which makes the result 0 |
| Sdo.DownloadIs | native/soem/src/ec_coe.c:361-541 | the same of the specification, for every frame of a download |
| Sdo.WriteSegments | native/soem/src/ec_coe.c:454-550 | what follows the first frame is the specified segments, up to the first that is refused |
| Sdo.NextSegment | native/soem/src/ec_coe.c:460-500 | the next segment: size, padding, last-segment and toggle bits |
| Sdo.ParameterArrives | native/soem/src/ec_coe.c:343-570 | main result: a parameter that is downloaded and put together by the rules of the upload is the same if and only if the buffer has room and it is not an empty one sent expedited |
| Sdo.EmptyParameterGrows | native/soem/src/ec_coe.c:361-384 | an empty parameter that is sent expedited arrives as four zeros |
| Sdo.SegmentsArrive | native/soem/src/ec_coe.c:216-288 | the segments reassemble to the original bytes, padding removed |
| Sdo.SegmentsAlternate | native/soem/src/ec_coe.c:460-541 | toggle bits alternate and exactly the last segment is marked |
| Sdo.FramesFitMailbox | native/soem/src/ec_coe.c:361-541 | every frame fits the mailbox, header included |
| Sdo.SDOread | native/soem/src/ec_coe.c:160-305 | the buffer, its size and the result are those of the specification, on every path |
| Sdo.UploadIs | native/soem/src/ec_coe.c:160-305 | which succeeds if and only if an expedited or whole parameter fits the buffer, or segments follow up to one that is marked last; its bytes, or those of all segments in order, are the result |
| Sdo.TakeSegmentsIs | native/soem/src/ec_coe.c:216-288 | the segments succeed if and only if one of them is the last one and all before it are segments, and they bring the data of all in order |
| Sdo.ReadSegments | native/soem/src/ec_coe.c:216-288 | the segments are appended in the buffer until the last one |
| SiiCache.Cache.SiiGetByte | native/soem/src/ec_main.c:526-589 | whatever was read before, of this slave or of others, the byte is that of a read without cache, and every cached byte agrees with the current slave |
| SiiCache.Cache.SetBits | native/soem/src/ec_main.c:570-583 | exactly the bits of the fetched bytes are set, across word boundaries of the bitmap |
| SiiCache.Cache.Fill | native/soem/src/ec_main.c:553-583 | exactly the fetched bytes of buffer and bitmap change |
| SiiCache.Cache.SelectSlave | native/soem/src/ec_main.c:536-540 | another slave empties the cache, the same slave keeps it |
| SiiCache.ReadAll | native/soem/src/ec_main.c:526-589 | any sequence of reads of any mix of slaves gives what reads without cache would give |
| SiiSections.SiiFind | native/soem/src/ec_main.c:597-629 | on every well-formed list of sections, through the cache, the result is that of the recursive first-match definition |
| SiiSections.FindsTheFirst | native/soem/src/ec_main.c:597-629 | that definition returns 0 if and only if there is no such section, and else the place behind the header of the first one |
| SiiSections.WrittenIsFound | native/soem/src/ec_main.c:597-629 | round trip: sections that are written as category, length in words, contents and end mark are a list of these sections, and the first one of a category is found with its contents behind its length |
| SiiSections.SiiPdo | native/soem/src/ec_main.c:806-871 | the section is that of category 50 for outputs and 51 for inputs; entry k of the arrays is PDO k of the section: index, sync manager, bits; a sync manager that no PDO names has no bits; the size is the sum in 16 bits |
| SiiSections.ReadPdo | native/soem/src/ec_main.c:832-866 | one PDO is read, byte cursor and word count move by its size |
| SiiSections.SectionIsRead | native/soem/src/ec_main.c:806-871 | main result: a section that describes PDOs is read as exactly those if and only if there are any; from an empty one a PDO is read that is not there |
| SiiSections.EmptySectionIsMisread | native/soem/src/ec_main.c:828-863 | an EEPROM that lists just an empty PDO section: the section is found, and a PDO is read from what follows it |
| SiiSections.SizeIsConserved | native/soem/src/ec_main.c:806-871 | for every content of the EEPROM at most 511 PDOs are read, and size and sum over sync managers agree in 16 bits |
| SiiSections.BitsAreConserved | native/soem/src/ec_main.c:853-854 | the sync managers together have the bits of all PDOs |
| SiiSections.StepKeepsCursor | native/soem/src/ec_main.c:830-866 | byte cursor and word count stay in step, modulo 65536 |
| SiiSections.PdoTable.Add | native/soem/src/ec_main.c:832-855 | one more PDO is recorded, and its bits are added to its sync manager |
| StateRead.BuildStatusFrame | native/soem/src/ec_main.c:875-899 | for 1 to 64 slaves the frame holds one read for each in order, only the last not followed, and the positions of their data are returned |
| StateRead.FPRDMulti | native/soem/src/ec_main.c:875-909 | every slave of the list gets its own status |
| StateRead.StatusDecodes | native/soem/src/ec_main.c:1002-1003 | status and code are read from the first and third word of the six bytes in which the slave has them |
| StateRead.NetworkExists | native/soem/src/ec_main.c:898-908 | slaves that put their status into their datagrams are a network as `FPRDMulti` assumes it |
| StateRead.ReadEach | native/soem/src/ec_main.c:983-1012 | in batches of 64 every slave is read exactly once, and the list up to it has the status and code of its registers |
| StateRead.ReadState | native/soem/src/ec_main.c:916-1017 | a conclusive broadcast of all slaves is taken over; or else every slave of the list has the status and the code that it has in its own registers, the master has the codes of all combined, and the returned state is the least of theirs |
| StateRead.AskedIsTrue | native/soem/src/ec_main.c:983-1013 | when every slave is asked, status, code and lowest state are those that the slaves have |
| StateRead.BroadcastRefines | native/soem/src/ec_main.c:916-980 | main result: when the broadcast is conclusive, it gives the states and the lowest state of the path with one datagram for each slave, if and only if no slave is in no state at all |
| StateRead.ReadStateIsTrue | native/soem/src/ec_main.c:916-1017 | main result: when the broadcast brings back the states of all slaves combined, both paths give every slave its own state and the true lowest one, if and only if the broadcast was not conclusive or no slave is in no state at all |
| StateRead.HiddenSlave | native/soem/src/ec_main.c:942-980 | a slave in no state beside one in PRE_OP is not seen |
| StateRead.CommonStateOrNone | native/soem/src/ec_main.c:942-962 | under a conclusive broadcast every slave is in the common state or in none |

## Left out

- Hardware and operating system: register programming, EEPROM handshakes, sockets, timers, threads and mutexes. A timer is a number of attempts, a lock is a step that nobody interrupts, a socket is a sequence of packets. A socket never refuses to send.
- PropagationDelay.DelaysAreTrue: all slaves have clocks, frames enter at port 0 and 32-bit times do not overflow; `ConfigDc` itself is modelled for any mix of slaves.
- DistributedClock.HandleSlave: writing the offset of the clock and the delay into registers of the slave is not part of the model.
- DistributedClock.ConfigDc: register writes are left out, as for `HandleSlave`.
- MailboxPool.Pool.DropMbx: a buffer that is already in the pool is not dropped again; the code would count it twice.
- MailboxQueue.MbxQueue.DoneQueue: a ticket in range must be in use; the code would index its arrays with -1.
- MailboxQueue.MbxQueue.ExpireQueue: a ticket in range must be in use, as for `DoneQueue`.
- MailboxQueue.MbxQueue.DropQueue: the ring is not empty; the code would count below zero.
- MailboxHandler.MoveTail: the ring is not completely full, because its rotation then leaves the ring as it is; `RotateQueue` covers that case.
- Groups other than 0, whose lengths and logical addresses are not relative to the group start, and the overlapped mode.
- IoGroup.PackImage: the array of 64 segments is not exhausted; beyond that the code lets the last segment grow past a frame.
- IoGroup.MapDirection: the array of segments is not exhausted, as for `PackImage`.
- IoGroup.Group.MapOutputs: the array of segments is not exhausted, as for `PackImage`.
- IoGroup.Group.MapInputs: the array of segments is not exhausted, as for `PackImage`.
- IoGroup.Group.MapGroup: the array of segments is not exhausted, and the lookup table has room behind its old entries.
- CyclicExchange.MapAndExchange: needs at most 16 segments, because the index stack drops further ones silently.
- SendReceive.Master.SendProcessData: the branch with separate LRD and LWR frames (`blockLRW`) is not modelled; receiving handles both.
- RedundantExchange.Exchange: one frame at a time; the cyclic exchange is composed over the port without redundancy.
- CyclicExchange.Exchange: packets from earlier cycles that carry an index in use are not among what the network may deliver; the code cannot tell them from answers.
- Logical addresses are not bounded to 32 bits, nor lengths in the mapping to 16 bits where the preconditions bound them.
- IoMapping.CreateMappings: the slave record is a value that is returned, where the code changes it in place.
- IoPlacement.PlacedIffTwoRuns: for sync managers of the direction that all have data; an empty one between others may hide a gap.
- IoPacked.PackedCountIff: outputs that fit the first segment.
- IoWindows.MappedIsServed: mapping for the first time; the code does not move data pointers that are set.
- WorkingCounter.HealthyCycleIsExpected: without packing, because the padding of packed bits counts too.
- Port.GetIndex: the port without redundancy; `Redundancy.RedundantPort.GetIndex` marks the buffer of the second port too.
- Port.Stack.InFrame: a packet is at least as long as the frame that was sent. It may also be read as the temporary buffer of full size into which a shorter one was received, as in `Redundancy`.
- Port.Stack.WaitInFrame: packets as for `InFrame`.
- Redundancy.OneBreakIsHealed: slaves do not change the second word of the source address, which is what the code relies on.
- Eoe.EOEsend: a mailbox without room for 32 bytes and a longer frame is excluded, for which the code sends empty fragments until one is not accepted. The blocking `ecx_EOErecv` and the IP parameter services are not modelled.
- Foe.FOEwrite: mailboxes are accepted for sending, and file name, password and progress hook are not part of the model.
- Foe.FOEread: acknowledgements are accepted for sending.
- Sdo.SDOwrite: mailboxes are accepted for sending, and the headers other than length, command and size are not modelled. A lost mailbox in the middle of a segmented transfer does not end the loop of the code and is excluded.
- Sdo.WriteSegments: no mailbox is lost, as for `SDOwrite`.
- Sdo.SDOread: the segments of a response do not exceed the buffer, on which the code relies too.
- Sdo.ReadSegments: the segments of a response do not exceed the buffer, as for `SDOread`.
- SiiCache.Cache.SiiGetByte: fetches succeed and stay inside the buffer; reads of its last bytes would not.
- SiiCache.Cache.Fill: the fetched bytes lie inside the buffer, as for `SiiGetByte`.
- SiiSections.SiiFind: lists of sections that end inside the buffer.
- SiiSections.SiiPdo: lists of sections as for `SiiFind`, with PDOs that lie inside the buffer.
- SiiSections.ReadPdo: the PDO lies inside the buffer.
- StateRead.FPRDMulti: the frame comes back, and every slave answers the datagram that is addressed to it.
- StateRead.ReadEach: slaves answer, as for `FPRDMulti`.
- StateRead.ReadState: at least one slave, and slaves answer as for `FPRDMulti`.
- Other mailbox services (SoE, AoE, SDO information, PDO assignment over CoE), error lists, slave recovery, the C# layer and the wrapper library.
