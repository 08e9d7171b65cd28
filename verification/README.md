# reactdpdk: a verified model

This project models the in-memory core of reactdpdk, a packet reactor on DPDK, and the TCP server
state machine built on it:

- `FixedTable`: the open-addressing table `FixedDict`, whose lookups stop on a per-home counter
  instead of on a hole.
- `Circular`, `CircularSteps`: the ring `bus_mp_sc`, as a class and as an interleaving of the atomic
  steps of any number of producers and one consumer.
- `MultiTimer`: the timers of a control block and the cookie each hands to its callback.
- `TcpFsm`, `TcpRuns`: the connection state machine as functions on values, and theorems about every
  run of it.
- `TcpEngine`: control blocks in a `FixedDict` and the handlers that change them in place; each call
  is proved to be one step of `TcpFsm`.
- `Buffer`: the byte cursor over a segmented packet and its big-endian reads.
- `TcpRx`: header parsing, and parsing followed by dispatch, with the packet it owns.
- `Autobuf`, `PacketPath`: reference-counted handles, and the way of a received packet from the driver
  through the state machine to whoever frees it.

The model follows the code as it is written. DPDK itself is not part of this model: a received packet
is an arbitrary chain of segments, `rte_timer_reset` answers as it likes, and a timer expires whenever
the environment says so (nothing in the repository calls `rte_timer_manage`). Memory that the code
leaves uninitialised, and memory that follows a segment's data, are parameters that may hold anything,
so that every packet has a determined outcome and the theorems range over all of them. The assertions of
the listen handler and of `emplace` are a switch of the model (`asserts`); the makefiles do not define
NDEBUG, so they are compiled in by default. The assertions of the other handlers are preconditions of
their methods, proved wherever the handler tables call them.
The three probe loops of `FixedDict` have the same text and are modelled by one method, `Probe`.

## Where the code departs from what it is for

Each departure is kept in the model, shown by a lemma, and bounded by an exact condition.

- `emplace` returns the address of slot `i + pos` without reducing it (core/fixedtable.hxx:84). The
  table itself is always right; the address is in the table exactly when a slot from the home to the
  end is empty (`FixedDict.Emplace`). Two clients on ports 41 and 105 suffice (`SecondClientWraps`).
- `emplace` asserts `cnt < CAPACITY` after counting (core/fixedtable.hxx:83), so that filling the last
  slot stops an asserting build (`FixedDict.Emplace`, `AbortsExactlyWhen`).
- `front` reads the slot under the read cursor (core/circular.hxx:15-20), which holds the element
  popped last. A consumer that pops before it reads gets a FIFO; one that reads first is one element
  late (`SerialisedRunsAreFifo`, `FrontsFirstLags`, `FrontMissesTheItem`).
- The name says that producers may be many. FIFO holds when pushes do not overlap; when a push starts
  during another, and no third, it holds exactly when not both return 0, whatever the consumer does
  meanwhile (`SerialisedRunsAreFifo`, `OverlapIsFifoExactlyWhen`, and `OverlapOverwrites` for a
  concrete run).
- `++` stops one place after a segment's data (core/buffer.hxx:139-147) and `size` never counts down
  (core/buffer.hxx:193-205). A read is right inside one segment; across its end it takes the byte of
  memory past the segment, and is right exactly when that happens to repeat the packet; a part of it
  that a length field refuses, exactly when the variable held the bytes before (`IncVersusSkip`,
  `ReadConsumes`, `LoadIsStream`, `ReadIsRight`, `HalvesAreRight`).
- Headers are therefore recovered exactly when the IPv4 fields are read right and the fixed TCP header
  is whole in one segment (`ParseRecoversExactlyWhen`); every legal packet has a split that is
  misparsed (`SplitPacketIsMisparsed`). Memory outside the packet is read exactly as
  `ParseStraysExactlyWhen`, `TcpStraysExactlyWhen` and `OneSegmentStrays` say; a split IPv4 header
  names any client (`SplitIpHeaderNamesAnyClient`).
- Parsing keeps four flag bits (tcp/tcp_rx.cc:84), which drops ACK (`FlagsSurvive`): received packets
  and timers together never take a connection out of SYN_SENT (`Serve`). `total_header_bytes` lacks
  the 20 fixed TCP bytes (`ParseRecoversExactlyWhen`).
- The listen block is constructed in state CLOSED (tcp/inc/tcp_common.hxx:39), and its handler asserts
  LISTEN: an asserting build stops at the first segment for its port (`AssertingBuildStops`), before
  the packet that brought it is freed (`StopsExactlyWhen`, `FreedOnceExactlyWhen`).
- FINAL_TMR_1 moves a connection to LAST_ACK without arming FINAL_TMR_2
  (tcp/fsm/tcp_state_machine_close_wait.cc:49-56): it stays until the final ACK arrives
  (`FinalTimerStrands`, `StuckUntilAcked`, `TimersEraseExactlyWhen`).
- `clear` decrements after it deallocates (core/buffer.hxx:70-74; `ClearTouchesFreedObject`). An IPv4
  packet that is not TCP is deallocated twice, and one that handleTcpRx drops is counted down once more
  after its deallocation (`FreedOnceExactlyWhen`, `PacketFreedOnceExactlyWhen`).

## Model

| member | source | states |
|---|---|---|
| FixedTable.FixedDict.Probe | core/fixedtable.hxx:98-115 | the counted walk returns what a search of every slot returns, whatever holes erasures left |
| FixedTable.FixedDict.Find | core/fixedtable.hxx:91-116 | a slot exactly when the key is mapped, and then the slot that holds it with its value |
| FixedTable.FixedDict.Emplace | core/fixedtable.hxx:44-88 | refuses exactly at capacity, otherwise maps the key and nothing else; a new key takes the first empty slot on the circle from its home, a replaced one stays, and no other slot changes; when the assertion fails, which address is returned, and exactly when it lies inside the table |
| FixedTable.FixedDict.Erase | core/fixedtable.hxx:120-148 | removes that key and no other, and empties its slot and no other; true exactly when it was mapped |
| FixedTable.FixedDict.constructor | core/fixedtable.hxx:33-36 | a new table satisfies the counting invariant and maps nothing |
| FixedTable.Table.NothingAhead | core/fixedtable.hxx:98-114 | after as many same-home entries as the counter says, no entry of that home lies ahead in the walk |
| FixedTable.Table.HoleExists | core/fixedtable.hxx:75-87 | below capacity the circular search for a hole succeeds, so the trailing null return is unreachable |
| FixedTable.Table.ChangeKeepsValid | core/fixedtable.hxx:80-82 | exact counters and distinct keys survive any change of one slot that the counters follow |
| FixedTable.Table.EmplaceRefinesMap | core/fixedtable.hxx:44-88 | emplace keeps the invariant and is a map update, or nothing at capacity |
| FixedTable.Table.EmplacePlaces | core/fixedtable.hxx:55-86 | a new key goes to an empty slot before which every slot from its home on was occupied, a replaced one to its own, and every other slot keeps its content |
| FixedTable.Table.EraseRefinesMap | core/fixedtable.hxx:120-148 | erase keeps the invariant and is removal from the map |
| FixedTable.Table.RollbackRestores | tcp/fsm/tcp_state_machine_listen.cc:19-43 | emplace then erase restores every slot and counter exactly when the key was absent |
| FixedTable.Table.SizesAgree | core/fixedtable.hxx:151-166 | mapped keys, cnt and the sum of all counters are one number, at most the capacity |
| FixedTable.Table.RunRefinesMap | core/fixedtable.hxx:44-148 | any sequence of calls answers like a finite map that refuses insertions at capacity, and leaves its contents |
| Circular.BusMpSc.Push | core/circular.hxx:38-51 | refuses exactly at capacity - 1 elements, otherwise appends, through any wraparound |
| Circular.BusMpSc.PopFront | core/circular.hxx:53-58 | drops the oldest element and leaves it under the read cursor; on an empty ring the cursors then say full |
| Circular.BusMpSc.Empty | core/circular.hxx:30-36 | true exactly when nothing is unread |
| Circular.BusMpSc.Back | core/circular.hxx:22-28 | the newest unread element, or on an empty ring the one popped last |
| Circular.Ring.PushedQueue | core/circular.hxx:41-50 | the cursors meet exactly at capacity - 1 elements, and a push appends to the queue |
| CircularSteps.UninterruptedPush | core/circular.hxx:38-51 | the producer's steps, run without interruption, are the whole call |
| CircularSteps.UninterruptedPop | core/circular.hxx:30-58 | the consumer's test and pop, run without interruption, are the whole calls: an empty ring is left alone, any other loses its oldest item |
| CircularSteps.State.EndPopDropsOldest | core/circular.hxx:53-58 | in every interleaving the end of a pop drops the oldest unread item, counts it, and leaves it to front |
| CircularSteps.State.EndPushAppends | core/circular.hxx:41-50 | in every interleaving the end of a push appends its item, and a refusal changes neither ring nor history |
| CircularSteps.State.FrontReadsLastPopped | core/circular.hxx:15-20 | in every interleaving front returns the item popped last, or what slot 0 held at first |
| CircularSteps.PopThenFrontDelivers | core/circular.hxx:15-58 | a concrete run: one push, then empty, pop_front and front, and front returns the item |
| CircularSteps.State.RunKeepsGood | core/circular.hxx:30-58 | every interleaving without overlapping pushes keeps queue, cursors and each thread's stale copies consistent |
| CircularSteps.State.StaleCursorsAreSafe | core/circular.hxx:33-46 | refused exactly if full at the load of the read cursor, empty exactly if empty at the load of the write cursor |
| CircularSteps.State.WriteHitsFreeSlot | core/circular.hxx:48 | a producer overwrites neither an unread slot nor the one front reads |
| CircularSteps.SerialisedRunsAreFifo | core/circular.hxx:15-58 | popped plus unread items are the accepted ones in order; what front returns for each order of front and pop_front |
| CircularSteps.State.FrontsFirstLags | core/circular.hxx:15-20 | front before pop_front is one element late, and right exactly when all values involved coincide |
| CircularSteps.FrontMissesTheItem | core/circular.hxx:15-20 | a concrete run: one push, then empty and front, and front does not return the item |
| CircularSteps.OneProducerIsSerialised | core/circular.hxx:38-51 | with one producer no two pushes overlap |
| CircularSteps.OverlapIsFifoExactlyWhen | core/circular.hxx:41-49 | when a push starts during another, and no third, nothing is lost at any time, and the accepted items are popped or unread in order at the end, exactly when not both return 0, for every interleaving with the consumer |
| CircularSteps.OverlapOverwrites | core/circular.hxx:41-49 | a concrete overlap: both items accepted, only the second in the ring |
| MultiTimer.CookieRoundTrip | core/multi_timer.hxx:45-46 | decoding recovers owner and timer exactly when the owner leaves the top byte clear and the id fits in it |
| MultiTimer.CookiesDistinct | tcp/tcp_control_block.cc:31-39 | different clients or timers have different cookies |
| MultiTimer.StartArms | core/multi_timer.hxx:29-63 | refuses exactly multiples of 2^30 ms, because the product is 32 bits wide; otherwise armed exactly when it returns true, other timers untouched |
| TcpFsm.ClientIdsDistinct | tcp/inc/tcp_common.hxx:26-32 | client ids are equal exactly for equal address and port, which can be read back from them |
| TcpFsm.SegmentMovesExactlyWhen | tcp/tcp_rx.cc:13-26 | over all twelve states, which flags and numbers move or erase a connection, what it expects then, and which one timer is started, whatever other flags are set |
| TcpFsm.ExpiryMovesExactlyWhen | tcp/tcp_control_block.cc:49-53 | over all twelve states, which expiry moves or erases a connection |
| TcpFsm.AcceptedExactlyWhen | tcp/fsm/tcp_state_machine_listen.cc:26-43 | an accepted connection is in SYN_SENT, expects the number after its SYN, and has exactly the connection timer pending with its cookie; there is none if that timer does not start |
| TcpRuns.ExpiryReachesItsOwner | tcp/tcp_control_block.cc:31-53 | the callback finds from its cookie the control block that armed the timer |
| TcpRuns.StepKeepsSound | tcp/tcp_rx.cc:106-128 | one event keeps every entry sound, touches its own client only, and moves no connection backwards |
| TcpRuns.RunKeepsSound | tcp/tcp_rx.cc:110-128 | in every run each key is its block's client id, and states and pending timers are the allowed ones |
| TcpRuns.OnlyForward | tcp/inc/tcp_control_block.hxx:17-31 | while in the table a connection is in one of four states and its state only moves forward |
| TcpRuns.ClientsAreIsolated | tcp/tcp_rx.cc:107-128 | deleting all other clients' events from a run leaves a client's connection the same |
| TcpRuns.InsertionDecides | tcp/fsm/tcp_state_machine_listen.cc:15-45 | the table's answer to an opening SYN is the only way others reach a client, and exactly when two answers lead to different outcomes |
| TcpEngine.TcpImpl.AnswerExactlyWhen | core/fixedtable.hxx:47-85 | the table's answer in terms of how many connections it holds and whether the slots from the client's home on are taken |
| TcpRuns.EveryConnectionHasAStory | tcp/fsm/tcp_state_machine_listen.cc:15-45 | each entry goes back to its own SYN, ACK and FIN in order, with expseq s+1, s+1, f, f+1 modulo 2^32, and with exactly the timers pending that its story started and that have not expired since |
| TcpRuns.StoryStep | tcp/fsm/tcp_state_machine_syn_sent.cc:15-23 | an event extends the story by the one segment or expiry that its transition requires |
| TcpRuns.DropsExactlyWhen | tcp/fsm/tcp_state_machine_last_ack.cc:15-41 | the three ways out of the table, as an if and only if |
| TcpRuns.ErasureEndsTheExchange | tcp/fsm/tcp_state_machine_last_ack.cc:15-20 | an erasure by a LAST_ACK segment is preceded by SYN s, ACK s+1, FIN f, ACK f or FINAL_TMR_1, and is an ACK f+1 |
| TcpRuns.TimersEraseExactlyWhen | tcp/fsm/tcp_state_machine_last_ack.cc:35-42 | without segments a connection is erased exactly if FINAL_TMR_2 is pending and expires |
| TcpRuns.StuckUntilAcked | tcp/fsm/tcp_state_machine_close_wait.cc:49-56 | LAST_ACK without FINAL_TMR_2 lasts throughout a run exactly when the client sends the listening port no ACK with the expected number |
| TcpRuns.FinalTimerStrands | tcp/fsm/tcp_state_machine_close_wait.cc:47-57 | a concrete run that reaches that state |
| TcpRuns.AssertingBuildStops | tcp/fsm/tcp_state_machine_listen.cc:12 | an asserting build stops at the first segment for the listening port, and exactly then |
| TcpRuns.AbortsExactlyWhen | tcp/fsm/tcp_state_machine_listen.cc:11-25 | one step fails an assertion exactly for the listen block's state or a SYN that fills the table; the other handlers' assertions are preconditions proved in TcpEngine |
| TcpRuns.ParsedRunsNeverEstablish | tcp/tcp_rx.cc:84 | with only the low four flag bits every connection stays in SYN_SENT and in the table |
| TcpRuns.ExchangeOpens | tcp/fsm/tcp_state_machine_established.cc:15-25 | segments with SYN, ACK and FIN, among whatever flags, lead a new client to CLOSE_WAIT and change nothing else |
| TcpRuns.ExchangeCompletes | tcp/fsm/tcp_state_machine_close_wait.cc:15-31 | the two further ACKs lead it out and leave the world as it was |
| TcpEngine.TcpImpl.Dispatch | tcp/tcp_rx.cc:100-128 | the in-place handlers perform exactly one step, the table decides how an insertion is answered, and the packet is let go of unless its handler does not return |
| TcpEngine.TcpImpl.Expiry | tcp/tcp_control_block.cc:31-53 | an expiry performs exactly one step |
| TcpEngine.TcpImpl.ListenCallback | tcp/fsm/tcp_state_machine_listen.cc:11-50 | accept with emplace, timer start (AcceptedExactlyWhen says which) and rollback, and the write through a bad address |
| TcpEngine.TcpImpl.CloseWaitCallback | tcp/fsm/tcp_state_machine_close_wait.cc:11-37 | changes its block or erases its entry as the pure handler says, the rest of the table untouched |
| TcpEngine.TcpImpl.Callback | tcp/tcp_rx.cc:13-26 | the handler table calls each handler in the state it asserts, and changes its block or erases its entry as the pure handler says |
| TcpEngine.TcpImpl.ProcessTimer | tcp/tcp_control_block.cc:49-53 | the same for the timer table |
| TcpFsm.SynRcvdOpensExactlyWhen | tcp/fsm/tcp_state_machine_syn_rcvd.cc:11-32 | the handler opens the connection exactly for the expected ACK with a timer that starts, never changes the expected number, and touches no other timer |
| TcpFsm.ChangeStateArmsExactlyWhen | tcp/tcp_control_block.cc:14-29 | a state change is idempotent, keeps number and owner, and leaves FINAL_TMR_2 pending exactly on entry to EXCEPTION_HANG with a timer that starts |
| TcpEngine.TcpImpl.constructor | tcp/inc/tcp_common.hxx:34-42 | starts with no connection and a listen block in state CLOSED |
| TcpEngine.HomesOfClients | core/fixedtable.hxx:38-41 | the home depends on the low six port bits only, and two clients share it exactly when those agree |
| TcpEngine.SecondClientWraps | core/fixedtable.hxx:84 | two clients whose second entry is returned at an address past the table |
| Buffer.Cursor.SkipDrops | core/buffer.hxx:152-170 | skip drops the next n bytes of the flattened packet, or all that are left, for every segmentation |
| Buffer.Cursor.SkipAdds | core/buffer.hxx:152-170 | two skips are one skip of the sum, as cursors |
| Buffer.RteMbufIterator.Skip | core/buffer.hxx:152-170 | the loop terminates, never takes more than a segment has, and drops the bytes |
| Buffer.Cursor.IncVersusSkip | core/buffer.hxx:135-150 | exactly when the increment is skip(1), and exactly when it advances by a byte |
| Buffer.Cursor.SizeVersusRest | core/buffer.hxx:193-201 | in the first segment size is right exactly while the cursor has not moved |
| Buffer.Cursor.ReadConsumes | core/buffer.hxx:251-307 | a read of any width consumes its width exactly when it stays in one readable segment |
| Buffer.Cursor.StraysExactlyWhen | core/buffer.hxx:183-307 | a read loads a byte outside its segment exactly when the length field allows it and its bytes are not all in the segment |
| Buffer.Cursor.LoadIsStream | core/buffer.hxx:251-307 | unless a length field refuses it, a read of any width yields the next bytes of the stream of segments and bytes past them, and moves along it |
| Buffer.Cursor.ReadIsRight | core/buffer.hxx:251-307 | the value is the packet's big-endian value inside a segment, across its end exactly when that stream repeats the packet's bytes, and for a refused read exactly when the variable held them |
| Buffer.Cursor.HalvesAreRight | core/buffer.hxx:262-307 | a read is right exactly when both its halves are, and a half that a later length field refuses keeps what its local held |
| Buffer.RteMbufReader.Read16 | core/buffer.hxx:262-276 | for every packet, the value of the bytes loaded, where the cursor is left, and whether a byte outside was loaded |
| Buffer.RteMbufReader.Read32 | core/buffer.hxx:278-292 | for every packet, the value of the bytes loaded, where the cursor is left, and whether a byte outside was loaded |
| Buffer.RteMbufReader.Read64 | core/buffer.hxx:294-307 | for every packet, the value of the bytes loaded, where the cursor is left, and whether a byte outside was loaded |
| TcpRx.Parse | tcp/tcp_rx.cc:39-98 | for every packet, the outcome as determined by its segments and the memory around them, and whether memory outside is read; no flag above the low four |
| TcpRx.ParseStraysExactlyWhen | tcp/tcp_rx.cc:56-94 | parsing reads outside the packet exactly when the protocol byte, or for TCP the rest of the IPv4 header, is outside its segment, or the field reads stray |
| TcpRx.TcpStraysExactlyWhen | tcp/tcp_rx.cc:81-94 | the field reads stray exactly when the segment ends before the data offset, or before the header's end with a data offset of five or more |
| TcpRx.OneSegmentStrays | tcp/tcp_rx.cc:49-94 | the same in bytes, for a packet in one segment |
| TcpRx.LastSegmentParsesExactlyWhen | tcp/tcp_rx.cc:81-91 | a TCP header in the last segment is accepted exactly when the segment reaches the byte read as data offset, at most one past its data, and that byte says five or more; one cut earlier is always dropped |
| TcpRx.ParseRecoversExactlyWhen | tcp/tcp_rx.cc:49-98 | a segment laid out as in section 3.1 of RFC 9293 is recovered field by field, with the reader at the payload, exactly when the IPv4 fields are read right and the fixed TCP header is whole, for every segmentation |
| TcpRx.SplitPacketIsMisparsed | tcp/tcp_rx.cc:81-94 | every legal packet has a split into two segments that is not recovered |
| TcpRx.SplitIpHeaderNamesAnyClient | tcp/tcp_rx.cc:56-79 | with the IPv4 header split, the client is what the memory after the segment spells |
| TcpRx.OneSegmentRecovers | tcp/tcp_rx.cc:39-98 | every legal packet in one segment is recovered |
| TcpRx.FlagsSurvive | tcp/tcp_rx.cc:82-84 | ACK never survives, and the flag byte exactly when ACK, URG, ECE and CWR are clear |
| TcpRx.FieldReadsConsume | tcp/tcp_rx.cc:81-94 | the field reads that Parse performs consume 20 bytes exactly when the header is whole |
| TcpRx.HandleTcpRx | tcp/tcp_rx.cc:33-129 | every packet is one step of the state machine, with the table's own answer, or has no effect; and what becomes of its count |
| Autobuf.Handle.Clear | core/buffer.hxx:65-77 | the handle is empty and its object has lost one reference |
| Autobuf.Handle.Reset | core/buffer.hxx:79-93 | the old object loses and the new one gains a reference, and nothing changes for the same object |
| Autobuf.Handle.MoveFrom | core/buffer.hxx:47-55 | the reference moves; a move to itself changes nothing |
| Autobuf.Execute | core/buffer.hxx:38-107 | operations on real handles are operations on the ledger of references |
| Autobuf.Ledger.DoMovesReferences | core/buffer.hxx:47-107 | which handles hold what, and how many references are outside handles, after each operation |
| Autobuf.Ledger.RunKeepsBalance | core/buffer.hxx:47-107 | over any sequence of operations each count is the number of references, and each object is deallocated once, with the last |
| Autobuf.ClearTouchesFreedObject | core/buffer.hxx:68-75 | clear differs from a plain release exactly on the last reference, where it writes to the deallocated object and takes its count to zero |
| PacketPath.ProcessRx | core/plugin.cc:195-243 | for every packet, its fate, what the whole receive path does to its count, whether memory outside it is read, and the one step it causes, if any |
| PacketPath.EarlyFateExactlyWhen | core/plugin.cc:203-229 | each early drop in terms of lengths and of the first IP byte: 0x40 to 0x4F goes on to the protocol, every other is refused |
| PacketPath.StopsExactlyWhen | tcp/tcp_rx.cc:106-127 | the handler that a packet reaches does not return exactly for the three faults of the listen handler |
| PacketPath.PathStraysExactlyWhen | core/plugin.cc:221-241 | an IPv4 packet is read outside exactly when parsing does so, another exactly when its version byte is outside |
| PacketPath.FreedOnceExactlyWhen | core/plugin.cc:330-337 | the fates in which the packet is deallocated once and not released again, and what goes wrong in the others, a handler that does not return among them |
| PacketPath.PacketFreedOnceExactlyWhen | tcp/tcp_rx.cc:36-127 | the same for every packet, as a condition on what is read of it |
| PacketPath.OneSegmentFate | tcp/tcp_rx.cc:66-127 | the fate of a packet in one segment, from its bytes |
| PacketPath.ShortPacketExamples | core/plugin.cc:215-242 | a short UDP packet that is read in bounds and deallocated twice, and a cut TCP packet that is read out of bounds |
| PacketPath.Accept | core/plugin.cc:277-280 | one input is exactly its event, if it is one, with the table's own answer, and its packet is released as its fate says |
| PacketPath.Serve | core/plugin.cc:277-280 | any interleaving of packets and due timers is the run of exactly their events, in order and to the last unless the process stops; every packet is released as its fate says; each client's connection depends on its own events only and every half-open connection stays half-open |

## Left out

- DPDK itself: ports, queues, memory pools, bursts, launching, timer internals and the layout of `rte_mbuf`.
- C++ memory orders: atomics of the ring are sequentially consistent steps.
- More than one consumer of the ring, whose own cursor only it may move.
- What happens after undefined behaviour or a failed assertion: the run ends there.
- TcpRuns.ClientsAreIsolated: the table's answer to an insertion is part of the client's own event, and the process must survive the run; TcpRuns.InsertionDecides and TcpEngine.TcpImpl.AnswerExactlyWhen say what others can change through it.
- PacketPath.FreedOnceExactlyWhen: assumes of DPDK that `rte_pktmbuf_free` deallocates on a count of one and leaves it at one; a count of -1 stands for 65535.
- TcpEngine.TcpImpl.Dispatch: the listen handler called for a connection in state LISTEN is not modelled, because no run brings a connection there (TcpRuns.RunKeepsSound).
- PacketPath.Serve: the packets of one call are different objects; a pool that hands out a freed object again is not modelled.
- PacketPath.ReactorPost: the own-thread branch only; a packet that a full ring of another thread refuses is never freed, and prepending the message header is not modelled.
- The branch for a state at or above TCP_STATE_MAX: the state is an enumeration, so no block can be in one.
- FIN_WAIT_1, FIN_WAIT_2, CLOSING, TIME_WAIT and CLOSED handlers: they only assert or log.
- sendSynAck, sendFinAck and sendFin: empty in the repository.
- 16-bit wraparound of a reference count upwards, which takes 65536 references to one packet.
- The rings `tx_seg` and `rx_seg` and the addresses `laddr` and `raddr` of a control block: never used.
- `multi_timer::stop` and `isRunning`: they call a member that their type does not have.
- `aroop_txt_t`, `Arr`, message headers, logging and configuration.
