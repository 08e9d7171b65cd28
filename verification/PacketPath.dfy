/**
 The way of a received packet through core/plugin.cc (processRx, same-thread reactorPost) to
 handleTcpRx: what it does to the connections, who frees the packet, and the loop around it.
 */
module PacketPath {
  import opened Common
  import opened Buffer
  import opened Autobuf
  import opened TcpFsm
  import opened TcpRuns
  import opened TcpEngine
  import opened TcpRx

  /** Where a packet's journey ends; the last, in a handler that does not return. */
  datatype Fate = NoEthernetHeader | NoIpHeader | NotIpv4 | NotForTcp | TcpDropped | Handled | Stopped

  /** What the journey does to the packet's count, step by step. */
  function Journey(fate: Fate, c: Cell): Cell {
    match fate
    case NoEthernetHeader | NoIpHeader | NotIpv4 => c.Cleared()
    case NotForTcp => c.Freed().Cleared()
    case TcpDropped => c.Cleared().Freed()
    case Handled => c.Gained().Cleared().Freed()
    case Stopped => c.Gained()
  }

  /** The IPv4 version nibble of the raw header. */
  function Version(versionIhl: uint8): nat {
    versionIhl / 16
  }

  /** `after` is the status that the call leaves the process in. */
  ghost function FateOf(m: Mbuf, mem: Memory, after: Status): Fate {
    match EarlyFate(m)
    case Some(fate) => fate
    case None => Ipv4Fate(m, mem, after)
  }

  /** The fate of a packet whose protocol is not looked at. */
  ghost function EarlyFate(m: Mbuf): (early: Option<Fate>)
    ensures early.None? ==> IpAt(m).m.Seg?
  {
    if Cursor(m, 0).Size() < ETHER_BYTES then Some(NoEthernetHeader)
    else if IpAt(m).Size() < IP_MIN_BYTES then Some(NoIpHeader)
    else if Version(IpAt(m).RawByte(0)) != 4 then Some(NotIpv4)
    else None
  }

  ghost function Ipv4Fate(m: Mbuf, mem: Memory, after: Status): Fate
    requires IpAt(m).m.Seg?
  {
    if IpAt(m).RawByte(9) != PROTO_TCP then NotForTcp
    else if !ReachesHandler(m, mem) then TcpDropped
    else if after.Running? then Handled
    else Stopped
  }

  /** The checks that come before the protocol is looked at, in bytes: version 4 is a first byte of
      0x40 to 0x4F, and every other first byte, of IPv6 say, is refused. */
  lemma EarlyFateExactlyWhen(m: Mbuf)
    ensures EarlyFate(m) == Some(NoEthernetHeader) <==> Cursor(m, 0).Size() < 14
    ensures EarlyFate(m) == Some(NoIpHeader) <==> 14 <= Cursor(m, 0).Size() && IpAt(m).Size() < 20
    ensures EarlyFate(m) == Some(NotIpv4) <==>
      14 <= Cursor(m, 0).Size() && 20 <= IpAt(m).Size() && !(0x40 <= IpAt(m).RawByte(0) < 0x50)
    ensures EarlyFate(m).None? <==>
      14 <= Cursor(m, 0).Size() && 20 <= IpAt(m).Size() && 0x40 <= IpAt(m).RawByte(0) < 0x50
  {
    hide Cursor.Skip;
  }

  /** The handler that a segment for the listening port reaches does not return exactly when it is
      the listen handler and an assertion fails, its own or that of `emplace`, or it writes through
      an address past the table. */
  lemma StopsExactlyWhen(w: World, h: TcpSegmentHeader, resetOk: bool, answer: Insertion)
    requires AllSound(w.conns) && w.status.Running? && h.dport == 8000
    ensures !Step(w, Segment(h, resetOk, answer)).status.Running? <==>
      && Sender(h) !in w.conns
      && ((w.asserts && w.listenState != LISTEN)
          || (h.evtmask / 2 % 2 == 1 && answer in {AssertTrips, PastEnd}))
  {
    hide OnSegment, Accepted, Sound;
    if Sender(h) in w.conns { StepSettles(w, Segment(h, resetOk, answer)); }
  }

  /** A packet that arrives with one reference. It is released as often as it was held exactly when
      it is dropped before its protocol is looked at or its handler returns: then it is deallocated
      once and its count is not driven below zero. A packet that is not TCP is deallocated twice; one
      that handleTcpRx drops is deallocated and then counted down again, from zero; one whose handler
      does not return is never deallocated. All but those that reach a handler are touched after
      their deallocation. */
  lemma FreedOnceExactlyWhen(fate: Fate)
    ensures var c := Journey(fate, Cell(1, 0, 0));
      && (c.frees == 1 && c.refcnt >= 0 <==> fate !in {NotForTcp, TcpDropped, Stopped})
      && (c.frees == 2 <==> fate == NotForTcp)
      && (c.refcnt < 0 <==> fate == TcpDropped)
      && (c.frees == 0 <==> fate == Stopped)
      && (c.late == 0 <==> fate in {Handled, Stopped})
  {
  }

  /** The same for every packet, by what is read of it. */
  lemma PacketFreedOnceExactlyWhen(m: Mbuf, mem: Memory, after: Status)
    ensures var c := Journey(FateOf(m, mem, after), Cell(1, 0, 0));
      c.frees == 1 && c.refcnt >= 0 <==>
        || Cursor(m, 0).Size() < 14 || IpAt(m).Size() < 20
        || !(0x40 <= IpAt(m).RawByte(0) < 0x50)
        || (IpAt(m).RawByte(9) == 6
            && DataOffset(FirstOf(TcpAt(m), mem).left) >= 5
            && FirstOf(TcpAt(m), mem).dport == 8000
            && after.Running?)
  {
    hide FirstOf, LastOf, Cursor.Skip, RawField;
    FreedOnceExactlyWhen(FateOf(m, mem, after));
  }

  /** The fate of a packet in one segment whose length field is right. A TCP packet is handled
      exactly when at least 12 bytes of its header are there, the byte at the data offset's place,
      the first past the segment for a header of 12 bytes, says five or more, and the port is right. */
  lemma OneSegmentFate(m: Mbuf, mem: Memory, after: Status)
    requires m.Seg? && m.next.Null? && m.pktLen == |m.data| && |m.data| >= 24
    ensures var t := 14 + 4 * (m.data[14] % 16);
      FateOf(m, mem, after) ==
        if !(0x40 <= m.data[14] < 0x50) then NotIpv4
        else if m.data[23] != 6 then NotForTcp
        else if |m.data| >= t + 12 && Cursor(m, t).RawByte(12) / 16 >= 5
                && Be16(m.data, t + 2) == 8000
             then (if after.Running? then Handled else Stopped)
        else TcpDropped
  {
    hide BigEndian, FirstOf, LastOf, TcpParseOf, HeaderOf;
    assert IpAt(m) == Cursor(m, ETHER_BYTES);
    if m.data[23] == PROTO_TCP {
      var t := ETHER_BYTES + HeaderLength(m.data[14]);
      var c := TcpAt(m);
      if t < |m.data| {
        assert c == Cursor(m, t);
        if t + 4 <= |m.data| { PortOfCut(c, mem); }
      } else {
        assert Cursor(m.next, 0).Skip(t - |m.data|) == Cursor(Null, 0);
        assert c == Cursor(Null, 0);
      }
      LastSegmentParsesExactlyWhen(IpAt(m), c, mem);
      ParsedExactlyWhen(IpAt(m), c, mem);
    }
  }

  lemma PortOfCut(c: Cursor, mem: Memory)
    requires c.Valid() && c.m.Seg? && c.offset + 4 <= |c.m.data| && c.Size() >= 2
    ensures FirstOf(c, mem).dport == Be16(c.m.data, c.offset + 2)
  {
    hide Cursor.After, Cursor.Load, Cursor.Strays, Cursor.Rest, BigEndian, LeftWord;
    ReadAt(c, 0, 2);
    var d := Cursor(c.m, c.offset + 2);
    d.LoadInSegment(2, Take(Frame(mem, 1), 0, 2), Shift(Frame(mem, 1), 2));
  }

  lemma ParsedExactlyWhen(ip: Cursor, c: Cursor, mem: Memory)
    requires ip.Valid() && ip.m.Seg? && c.Valid()
    ensures TcpParseOf(ip, c, mem).Parsed? <==> DataOffset(FirstOf(c, mem).left) >= TCP_MIN_WORDS
    ensures TcpParseOf(ip, c, mem).Parsed? ==> TcpParseOf(ip, c, mem).header.dport == FirstOf(c, mem).dport
  {
    hide FirstOf, LastOf, AfterFirst, AfterFields, RawField, Cursor.Skip;
  }

  // ---- the path itself ----

  /** Whether the path loads a byte that is not data of the segment it reads from. */
  ghost predicate PathStrays(m: Mbuf, mem: Memory) {
    EarlyStrays(m) || (EarlyFate(m).None? && Ipv4Strays(m, mem))
  }

  ghost predicate EarlyStrays(m: Mbuf) {
    ETHER_BYTES <= Cursor(m, 0).Size() && IP_MIN_BYTES <= IpAt(m).Size() && RawOutside(IpAt(m), 0, 1)
  }

  ghost predicate Ipv4Strays(m: Mbuf, mem: Memory)
    requires IpAt(m).m.Seg?
  {
    RawOutside(IpAt(m), 9, 1) || (IpAt(m).RawByte(9) == PROTO_TCP && ParseStrays(m, mem))
  }

  /** An IPv4 packet is read outside its segments exactly when parsing alone would do so; another
      one exactly when its version byte is not in its segment. */
  lemma PathStraysExactlyWhen(m: Mbuf, mem: Memory)
    ensures PathStrays(m, mem) <==>
      && 14 <= Cursor(m, 0).Size() && 20 <= IpAt(m).Size()
      && if 0x40 <= IpAt(m).RawByte(0) < 0x50 then ParseStrays(m, mem) else Ahead(IpAt(m)) == 0
  {
    hide TcpStrays, Cursor.Skip;
    ParseStraysExactlyWhen(m, mem);
  }

  /** Two packets in one segment with a right length field: a short UDP packet is read in bounds
      and released twice; a TCP packet whose header is cut is read out of bounds and dropped. */
  lemma ShortPacketExamples(m: Mbuf, mem: Memory, after: Status)
    requires m.Seg? && m.next.Null? && m.pktLen == |m.data| && |m.data| >= 24 && m.data[14] == 0x45
    ensures |m.data| == 30 && m.data[23] == 17 ==> FateOf(m, mem, after) == NotForTcp && !PathStrays(m, mem)
    ensures |m.data| == 40 && m.data[23] == 6 ==> FateOf(m, mem, after) == TcpDropped && PathStrays(m, mem)
  {
    hide TcpStrays, ParseStrays, FateOf;
    assert IpAt(m) == Cursor(m, ETHER_BYTES);
    PathStraysExactlyWhen(m, mem);
    OneSegmentStrays(m, mem);
    OneSegmentFate(m, mem, after);
  }

  /** Whether the packet is handed to handleTcpRx and parsed. */
  ghost predicate Dispatched(fate: Fate, r: ParseResult) {
    fate in {TcpDropped, Handled, Stopped} && r.Parsed?
  }

  /** The checks of `processRx` before it looks at the protocol. */
  method ReadIpv4(m: Mbuf) returns (early: Option<Fate>, ip: Cursor, ghost strays: bool)
    ensures early == EarlyFate(m) && strays == EarlyStrays(m)
    ensures early.None? ==> ip == IpAt(m)
  {
    hide RawOutside, Version, Cursor.RawByte, Cursor.Skip, Cursor.Rest, Flat;
    var reader := new RteMbufReader(m);
    strays, ip := false, Cursor(m, 0);
    if reader.itr.Size() < ETHER_BYTES {
      return Some(NoEthernetHeader), ip, strays;
    }
    reader.itr.Skip(ETHER_BYTES);
    ip := Cursor(reader.itr.m, reader.itr.offset);
    if reader.itr.Size() < IP_MIN_BYTES {
      return Some(NoIpHeader), ip, strays;
    }
    strays := RawOutside(ip, 0, 1);
    if Version(ip.RawByte(0)) != 4 {
      return Some(NotIpv4), ip, strays;
    }
    early := None;
  }

  /** `processRx`, which owns the packet from its first line: its fate, what is read of memory
      outside it, what becomes of its count, and the step it makes the state machine take. */
  method ProcessRx(tcp: TcpImpl, m: Mbuf, mem: Memory, resetOk: bool, memory: uint32, pkt: Buf)
    returns (ghost fate: Fate, ghost events: seq<Event>, ghost strays: bool)
    requires tcp.Valid() && tcp.status.Running? && tcp.NoneListens()
    modifies tcp`status, tcp`blocks, tcp.tcbTable, tcp.tcbTable.data, tcp.blocks, pkt
    ensures tcp.Valid() && fresh(tcp.blocks - old(tcp.blocks))
    ensures fate == FateOf(m, mem, tcp.status) && strays == PathStrays(m, mem)
    ensures pkt.Value() == Journey(fate, old(pkt.Value()))
    ensures !Dispatched(fate, ParseOf(m, mem)) ==> events == [] && tcp.View() == old(tcp.View())
    ensures Dispatched(fate, ParseOf(m, mem)) ==>
      && ParseOf(m, mem).header.evtmask < 16
      && events == [Segment(ParseOf(m, mem).header, resetOk, old(tcp.InsertionFor(Sender(ParseOf(m, mem).header))))]
      && tcp.View() == Step(old(tcp.View()), events[0])
  {
    hide ParseOf, EarlyStrays, Ipv4Fate, Ipv4Strays, IpAt, Step, MakeClientId,
         Cell.Freed, Cell.Cleared, Cell.Gained, TcpImpl.View, TcpImpl.Valid, TcpImpl.NoneListens, TcpImpl.InsertionFor;
    var rbuf := new Handle();
    rbuf.OwnWithoutIncrement(pkt);
    var early, ip;
    early, ip, strays := ReadIpv4(m);
    if early.Some? {
      rbuf.Clear();
      return early.value, [], strays;
    }
    ghost var b;
    fate, events, b := SwitchProtocol(tcp, m, ip, mem, resetOk, memory, rbuf);
    strays := strays || b;
  }

  /** The switch that ends `processRx`, on the packet held in `rbuf`. */
  method SwitchProtocol(tcp: TcpImpl, m: Mbuf, ip: Cursor, mem: Memory, resetOk: bool, memory: uint32, rbuf: Handle)
    returns (ghost fate: Fate, ghost events: seq<Event>, ghost strays: bool)
    requires tcp.Valid() && tcp.status.Running? && tcp.NoneListens()
    requires ip == IpAt(m) && ip.m.Seg? && rbuf.data != null
    modifies tcp`status, tcp`blocks, tcp.tcbTable, tcp.tcbTable.data, tcp.blocks, rbuf, rbuf.data
    ensures tcp.Valid() && fresh(tcp.blocks - old(tcp.blocks))
    ensures fate == Ipv4Fate(m, mem, tcp.status) && strays == Ipv4Strays(m, mem)
    ensures old(rbuf.data).Value() == Journey(fate, old(rbuf.data.Value()))
    ensures !Dispatched(fate, ParseOf(m, mem)) ==> events == [] && tcp.View() == old(tcp.View())
    ensures Dispatched(fate, ParseOf(m, mem)) ==>
      && ParseOf(m, mem).header.evtmask < 16
      && events == [Segment(ParseOf(m, mem).header, resetOk, old(tcp.InsertionFor(Sender(ParseOf(m, mem).header))))]
      && tcp.View() == Step(old(tcp.View()), events[0])
  {
    hide ParseOf, ParseStrays, ReachesHandler, RawOutside, Cursor.RawByte, IpAt, Step, MakeClientId,
         Cell.Freed, Cell.Cleared, Cell.Gained, TcpImpl.View, TcpImpl.Valid, TcpImpl.NoneListens, TcpImpl.InsertionFor;
    strays, events := RawOutside(ip, 9, 1), [];
    if ip.RawByte(9) == PROTO_TCP {
      var raw := rbuf.Release();
      ghost var b;
      fate, events, b := ReactorPost(tcp, m, mem, resetOk, memory, raw);
      strays := strays || b;
      return;
    }
    rbuf.data.Set(rbuf.data.Value().Freed());
    rbuf.Clear();
    fate := NotForTcp;
  }

  /** `reactorPost` to the own thread: the service runs and then, if it returns, the packet is freed. */
  method ReactorPost(tcp: TcpImpl, m: Mbuf, mem: Memory, resetOk: bool, memory: uint32, pkt: Buf)
    returns (ghost fate: Fate, ghost events: seq<Event>, ghost strays: bool)
    requires tcp.Valid() && tcp.status.Running? && tcp.NoneListens()
    modifies tcp`status, tcp`blocks, tcp.tcbTable, tcp.tcbTable.data, tcp.blocks, pkt
    ensures tcp.Valid() && fresh(tcp.blocks - old(tcp.blocks))
    ensures fate == if !ReachesHandler(m, mem) then TcpDropped else if tcp.status.Running? then Handled else Stopped
    ensures strays == ParseStrays(m, mem)
    ensures pkt.Value() == Journey(fate, old(pkt.Value()))
    ensures ParseOf(m, mem).Dropped? ==> events == [] && tcp.View() == old(tcp.View())
    ensures ParseOf(m, mem).Parsed? ==>
      && ParseOf(m, mem).header.evtmask < 16
      && events == [Segment(ParseOf(m, mem).header, resetOk, old(tcp.InsertionFor(Sender(ParseOf(m, mem).header))))]
      && tcp.View() == Step(old(tcp.View()), events[0])
  {
    hide ParseOf, ParseStrays, Step, Cell.Freed, Cell.Cleared, Cell.Gained, TcpImpl.View, TcpImpl.Valid,
         TcpImpl.NoneListens, TcpImpl.InsertionFor, MakeClientId;
    events, strays := HandleTcpRx(tcp, m, mem, resetOk, memory, pkt);
    fate := TcpDropped;
    if ReachesHandler(m, mem) {
      fate := if tcp.status.Running? then Handled else Stopped;
    }
    if tcp.status.Running? {
      pkt.Set(pkt.Value().Freed());
    }
  }

  // ---- the loop of a thread ----

  /** What reaches a thread: a received packet, its counted object and the memory its handling finds,
      or a due timer. */
  datatype Input =
    | Received(m: Mbuf, pkt: Buf, mem: Memory, resetOk: bool, memory: uint32)
    | TimerDue(client: uint64, timer: nat)

  /** The packet passes the checks of `processRx` as TCP over IPv4, and its headers parse. */
  ghost predicate Arrives(m: Mbuf, mem: Memory) {
    && 14 <= Cursor(m, 0).Size() && 20 <= IpAt(m).Size()
    && 0x40 <= IpAt(m).RawByte(0) < 0x50 && IpAt(m).RawByte(9) == 6
    && ParseOf(m, mem).Parsed?
  }

  lemma DispatchedExactlyWhen(m: Mbuf, mem: Memory, after: Status)
    ensures Dispatched(FateOf(m, mem, after), ParseOf(m, mem)) <==> Arrives(m, mem)
  {
    hide Cursor.Skip, TcpParseOf;
    EarlyFateExactlyWhen(m);
  }

  /** The events that an input is for the state machine, given the table's answer to an insertion. */
  ghost function EventsOf(input: Input, answer: Insertion): seq<Event> {
    match input
    case Received(m, _, mem, resetOk, _) =>
      if Arrives(m, mem) then [Segment(ParseOf(m, mem).header, resetOk, answer)] else []
    case TimerDue(client, timer) => [Expire(client, timer)]
  }

  /** The events of a sequence of inputs, in order. */
  ghost function AllEventsOf(inputs: seq<Input>, answers: seq<Insertion>): seq<Event>
    requires |answers| == |inputs|
  {
    if inputs == [] then []
    else
      var n := |inputs| - 1;
      AllEventsOf(inputs[..n], answers[..n]) + EventsOf(inputs[n], answers[n])
  }

  /** The client that an input is about. */
  ghost function About(input: Input): uint64 {
    match input
    case Received(m, _, mem, _, _) => if Arrives(m, mem) then Sender(ParseOf(m, mem).header) else 0
    case TimerDue(client, _) => client
  }

  /** The table refuses exactly when it holds 64 connections, and stops an asserting build exactly
      when it holds 63. */
  predicate Answers(w: World, answer: Insertion) {
    && (answer.Refused? <==> |w.conns| == 64)
    && (answer.AssertTrips? <==> w.asserts && |w.conns| == 63)
  }

  lemma TableAnswers(tcp: TcpImpl, k: uint64)
    requires tcp.Valid() && tcp.status.Running?
    ensures Answers(tcp.View(), tcp.InsertionFor(k))
  {
    hide TcpImpl.InsertionFor;
    tcp.AnswerExactlyWhen(k);
    assert tcp.View().conns.Keys == tcp.Blocks().Keys;
    assert |tcp.View().conns| == |tcp.View().conns.Keys| && |tcp.Blocks()| == |tcp.Blocks().Keys|;
  }

  lemma SoundNoneListens(tcp: TcpImpl)
    requires tcp.Valid() && tcp.status.Running? && AllSound(tcp.View().conns)
    ensures tcp.NoneListens()
  {
    forall k | k in tcp.Blocks() ensures tcp.Blocks()[k].state != LISTEN {
      assert Sound(k, tcp.View().conns[k]);
    }
  }

  ghost function Carried(input: Input): set<Buf> {
    if input.Received? then {input.pkt} else {}
  }

  /** One input is exactly its events: a due timer its expiry, a packet that passes the checks and
      parses its segment, with the answer that the table gives, and any other packet nothing. A packet
      is released as its fate says. */
  method Accept(tcp: TcpImpl, input: Input) returns (ghost events: seq<Event>, ghost answer: Insertion)
    requires tcp.Valid() && tcp.status.Running? && AllSound(tcp.View().conns)
    modifies tcp`status, tcp`blocks, tcp.tcbTable, tcp.tcbTable.data, tcp.blocks, Carried(input)
    ensures input.Received? ==>
      input.pkt.Value() == Journey(FateOf(input.m, input.mem, tcp.status), old(input.pkt.Value()))
    ensures tcp.Valid() && fresh(tcp.blocks - old(tcp.blocks))
    ensures answer == old(tcp.InsertionFor(About(input))) && Answers(old(tcp.View()), answer)
    ensures events == EventsOf(input, answer) && (forall e | e in events :: FlagsAsParsed(e))
    ensures tcp.View() == if events == [] then old(tcp.View()) else Step(old(tcp.View()), events[0])
  {
    hide ParseOf, Step, Sound, AllSound, FateOf, Journey, PathStrays, Arrives, Dispatched, Answers,
         TcpImpl.View, TcpImpl.Valid, TcpImpl.NoneListens, TcpImpl.InsertionFor, MakeClientId;
    answer := tcp.InsertionFor(About(input));
    TableAnswers(tcp, About(input));
    match input {
      case Received(m, pkt, mem, resetOk, memory) =>
        SoundNoneListens(tcp);
        ghost var fate, strays;
        fate, events, strays := ProcessRx(tcp, m, mem, resetOk, memory, pkt);
        DispatchedExactlyWhen(m, mem, tcp.status);
      case TimerDue(client, timer) =>
        tcp.Expiry(client, timer);
        events := [Expire(client, timer)];
    }
  }

  lemma RunOn(w: World, events: seq<Event>, more: seq<Event>)
    requires |more| <= 1
    ensures Run(w, events + more) == if more == [] then Run(w, events) else Step(Run(w, events), more[0])
  {
    if more == [] {
      assert events + more == events;
    } else {
      assert events + more == events + [more[0]];
      assert (events + more)[..|events|] == events;
    }
  }

  /** The world that the first inputs of a sequence lead to. */
  ghost function WorldAfter(w: World, inputs: seq<Input>, answers: seq<Insertion>): World
    requires |answers| == |inputs|
  {
    Run(w, AllEventsOf(inputs, answers))
  }

  /** The process is running at each of the first inputs, and the answer for it is one that the
      table can give then. */
  ghost predicate Answered(w: World, inputs: seq<Input>, answers: seq<Insertion>)
    requires |answers| <= |inputs|
  {
    forall i | 0 <= i < |answers| ::
      var v := WorldAfter(w, inputs[..i], answers[..i]);
      v.status.Running? && Answers(v, answers[i])
  }

  lemma AnsweredStep(w: World, inputs: seq<Input>, answers: seq<Insertion>, answer: Insertion)
    requires |answers| < |inputs|
    ensures var v := Run(w, AllEventsOf(inputs[..|answers|], answers));
      Answered(w, inputs, answers) && v.status.Running? && Answers(v, answer) ==>
        Answered(w, inputs, answers + [answer])
    ensures var n := |answers|;
      AllEventsOf(inputs[..n + 1], answers + [answer]) == AllEventsOf(inputs[..n], answers) + EventsOf(inputs[n], answer)
  {
    hide EventsOf, Answers, Run;
    var n := |answers|;
    var all := answers + [answer];
    assert all[..n] == answers && inputs[..n + 1][..n] == inputs[..n];
    if Answered(w, inputs, answers) {
      forall i | 0 <= i < n
        ensures var v := WorldAfter(w, inputs[..i], all[..i]); v.status.Running? && Answers(v, all[i])
      {
        assert all[..i] == answers[..i] && all[i] == answers[i];
      }
    }
  }

  /** What becomes of the count `c` of the packet that is the i-th input. */
  ghost function Outcome(w: World, inputs: seq<Input>, answers: seq<Insertion>, i: nat, c: Cell): Cell
    requires i < |inputs| && inputs[i].Received? && |answers| <= |inputs|
  {
    if i < |answers| then
      Journey(FateOf(inputs[i].m, inputs[i].mem, WorldAfter(w, inputs[..i + 1], answers[..i + 1]).status), c)
    else c
  }

  ghost function Packets(inputs: seq<Input>): set<Buf> {
    set i | 0 <= i < |inputs| && inputs[i].Received? :: inputs[i].pkt
  }

  ghost predicate Separate(inputs: seq<Input>) {
    forall i, j | 0 <= i < j < |inputs| && inputs[i].Received? && inputs[j].Received? :: inputs[i].pkt != inputs[j].pkt
  }

  ghost function Counts(inputs: seq<Input>): map<Buf, Cell>
    reads Packets(inputs)
  {
    map pkt | pkt in Packets(inputs) :: pkt.Value()
  }

  /** Every packet has come from its count in `before` to its outcome. */
  ghost predicate Settled(w: World, inputs: seq<Input>, answers: seq<Insertion>, before: map<Buf, Cell>, now: map<Buf, Cell>)
    requires |answers| <= |inputs|
  {
    before.Keys == now.Keys == Packets(inputs) &&
    forall i: nat | i < |inputs| && inputs[i].Received? ::
      now[inputs[i].pkt] == Outcome(w, inputs, answers, i, before[inputs[i].pkt])
  }

  lemma SettledStep(w: World, inputs: seq<Input>, answers: seq<Insertion>, answer: Insertion,
                    before: map<Buf, Cell>, was: map<Buf, Cell>, now: map<Buf, Cell>)
    requires |answers| < |inputs| && Separate(inputs) && Settled(w, inputs, answers, before, was)
    requires now.Keys == was.Keys
    requires var n := |answers|;
      var v := WorldAfter(w, inputs[..n + 1], answers + [answer]);
      && (forall pkt | pkt in was && pkt !in Carried(inputs[n]) :: now[pkt] == was[pkt])
      && (inputs[n].Received? ==>
            now[inputs[n].pkt] == Journey(FateOf(inputs[n].m, inputs[n].mem, v.status), was[inputs[n].pkt]))
    ensures Settled(w, inputs, answers + [answer], before, now)
  {
    hide FateOf, Journey, WorldAfter;
    var n, all := |answers|, answers + [answer];
    assert all[..n + 1] == all;
    forall i: nat | i < |inputs| && inputs[i].Received?
      ensures now[inputs[i].pkt] == Outcome(w, inputs, all, i, before[inputs[i].pkt])
    {
      if i != n { assert inputs[i].pkt !in Carried(inputs[n]); }
      if i < n { assert all[..i + 1] == answers[..i + 1]; }
    }
  }

  lemma OneEvent(input: Input, answer: Insertion)
    ensures |EventsOf(input, answer)| <= 1
  {
  }

  /** What holds of any run of events with no flag above the low four. */
  lemma RunsOfParsedEvents(w: World, events: seq<Event>)
    requires AllSound(w.conns) && w.status.Running? && forall e | e in events :: FlagsAsParsed(e)
    ensures Run(w, events).status.Running? ==>
      forall k :: AgreeOn(Run(w, events), Run(w, Mine(events, k)), k)
    ensures (forall k | k in w.conns :: w.conns[k].state == SYN_SENT) ==>
      forall k | k in Run(w, events).conns :: Run(w, events).conns[k].state == SYN_SENT
  {
    hide Run, Sound, AgreeOn;
    if Run(w, events).status.Running? {
      forall k ensures AgreeOn(Run(w, events), Run(w, Mine(events, k)), k) {
        ClientsAreIsolated(w, events, k);
      }
    }
    if forall k | k in w.conns :: w.conns[k].state == SYN_SENT {
      forall k | k in Run(w, events).conns ensures Run(w, events).conns[k].state == SYN_SENT {
        ParsedRunsNeverEstablish(w, events, k);
      }
    }
  }

  lemma RunningView(tcp: TcpImpl)
    requires tcp.Valid()
    ensures tcp.View().status == tcp.status
  {
  }

  /** Any interleaving of packets and due timers, of any content. What the thread does is the run of
      the events that its inputs are, in order, to the last unless the process stops, with an answer
      for each that the table could give then. Every packet is released as its fate says. No segment
      carries a flag above the low four; each client's connection is the run of that client's own
      events; and connections that are half-open stay so. */
  method Serve(tcp: TcpImpl, inputs: seq<Input>) returns (ghost events: seq<Event>, ghost answers: seq<Insertion>)
    requires tcp.Valid() && tcp.status.Running? && AllSound(tcp.View().conns) && Separate(inputs)
    modifies tcp`status, tcp`blocks, tcp.tcbTable, tcp.tcbTable.data, tcp.blocks, Packets(inputs)
    ensures tcp.Valid() && tcp.View() == Run(old(tcp.View()), events)
    ensures |answers| <= |inputs|
    ensures forall i: nat | i < |inputs| && inputs[i].Received? ::
      inputs[i].pkt.Value() == Outcome(old(tcp.View()), inputs, answers, i, old(inputs[i].pkt.Value()))
    ensures events == AllEventsOf(inputs[..|answers|], answers)
    ensures tcp.status.Running? ==> |answers| == |inputs|
    ensures Answered(old(tcp.View()), inputs, answers)
    ensures forall e | e in events :: FlagsAsParsed(e)
    ensures tcp.status.Running? ==>
      forall k :: AgreeOn(tcp.View(), Run(old(tcp.View()), Mine(events, k)), k)
    ensures (forall k | k in old(tcp.View()).conns :: old(tcp.View()).conns[k].state == SYN_SENT) ==>
      forall k | k in tcp.View().conns :: tcp.View().conns[k].state == SYN_SENT
  {
    hide Step, Run, AllSound, AgreeOn, Mine, EventsOf, AllEventsOf, Answers, FlagsAsParsed, Outcome, FateOf, Journey,
         Answered, Settled, TcpImpl.View, TcpImpl.Valid, TcpImpl.NoneListens, TcpImpl.InsertionFor;
    ghost var w := tcp.View();
    RunningView(tcp);
    ghost var before := Counts(inputs);
    events, answers := [], [];
    StartOfRun(w, inputs, before);
    for i := 0 to |inputs|
      invariant tcp.Valid() && fresh(tcp.blocks - old(tcp.blocks))
      invariant |answers| == i && events == AllEventsOf(inputs[..i], answers)
      invariant tcp.View() == Run(w, events) && Answered(w, inputs, answers)
      invariant forall e | e in events :: FlagsAsParsed(e)
      invariant Settled(w, inputs, answers, before, Counts(inputs))
    {
      RunningView(tcp);
      if !tcp.status.Running? {
        break;
      }
      RunKeepsSound(w, events);
      ghost var more, answer;
      ghost var was := Counts(inputs);
      more, answer := Accept(tcp, inputs[i]);
      OneEvent(inputs[i], answer);
      RunOn(w, events, more);
      AnsweredStep(w, inputs, answers, answer);
      RunningView(tcp);
      SettledStep(w, inputs, answers, answer, before, was, Counts(inputs));
      events, answers := events + more, answers + [answer];
    }
    RunningView(tcp);
    RunsOfParsedEvents(w, events);
    SettledCounts(w, inputs, answers, before);
  }

  lemma SettledCounts(w: World, inputs: seq<Input>, answers: seq<Insertion>, before: map<Buf, Cell>)
    requires |answers| <= |inputs| && Settled(w, inputs, answers, before, Counts(inputs))
    ensures forall i: nat | i < |inputs| && inputs[i].Received? ::
      inputs[i].pkt in before &&
      inputs[i].pkt.Value() == Outcome(w, inputs, answers, i, before[inputs[i].pkt])
  {
    hide Outcome;
  }

  lemma StartOfRun(w: World, inputs: seq<Input>, before: map<Buf, Cell>)
    requires before.Keys == Packets(inputs)
    ensures AllEventsOf([], []) == [] && Run(w, []) == w
    ensures Answered(w, inputs, []) && Settled(w, inputs, [], before, before)
  {
  }
}
