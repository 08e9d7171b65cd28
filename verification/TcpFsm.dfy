/**
 The connection state machine of tcp/fsm, tcp/tcp_control_block.cc and the dispatch half of
 tcp/tcp_rx.cc as functions on values, and what every run of it keeps.
 */
module TcpFsm {
  import opened Common
  import opened MultiTimer

  datatype TcpState =
    | CLOSED
    | LISTEN
    | SYN_SENT
    | SYN_RCVD
    | ESTABLISHED
    | CLOSE_WAIT
    | FIN_WAIT_1
    | CLOSING
    | LAST_ACK
    | FIN_WAIT_2
    | TIME_WAIT
    | EXCEPTION_HANG

  const CONNECTION_TMR: nat := 1
  const INACTIVITY_TMR: nat := 2
  const FINAL_TMR_1: nat := 3
  const FINAL_TMR_2: nat := 4
  const DEFAULT_MS: uint32 := 100

  const FIN: uint8 := 1
  const SYN: uint8 := 2
  const ACK: uint8 := 16

  /** Whether a mask shares bit `flag`, a power of two. */
  predicate HasFlag(mask: uint8, flag: uint8)
    requires flag > 0
  {
    mask / flag % 2 == 1
  }

  /** The port of the listen block, whose client id is this constant. */
  const LISTEN_CLIENT_ID: uint64 := 8000

  datatype TcpSegmentHeader = TcpSegmentHeader(
    daddr4: uint32, saddr4: uint32, packetSize: uint16,
    sport: uint16, dport: uint16, seqno: uint32, ackno: uint32,
    dataOffset: uint8, evtmask: uint8, window: uint16, checksum: uint16, uptr: uint16,
    numOptionBytes: uint32, totalHeaderBytes: uint32)

  /** `ipv4Addr << 16 | port`: the shifted address leaves the port's bits clear. */
  function MakeClientId(ipv4Addr: uint32, port: uint16): (id: uint64)
    ensures id < 0x1_0000_0000_0000
  {
    ipv4Addr * U16 + port
  }

  lemma ClientIdsDistinct(a: uint32, p: uint16, b: uint32, q: uint16)
    ensures MakeClientId(a, p) == MakeClientId(b, q) <==> a == b && p == q
    ensures MakeClientId(a, p) / 65536 == a && MakeClientId(a, p) % 65536 == p
  {
    assert MakeClientId(a, p) % U16 == p && MakeClientId(b, q) % U16 == q;
  }

  function Next(seqno: uint32): uint32 {
    (seqno + 1) % U32
  }

  // ---- one connection ----

  datatype Tcb = Tcb(state: TcpState, clientId: uint64, expseq: uint32, tmr: Timers) {

    function ChangeState(newState: TcpState, resetOk: bool): Tcb {
      if state == newState then this
      else if newState == EXCEPTION_HANG then
        this.(state := newState, tmr := tmr.Start(FINAL_TMR_2, DEFAULT_MS, resetOk).0)
      else this.(state := newState)
    }

    /** `SYN_SENT` and the like test for an ACK numbered as expected. */
    predicate Expects(h: TcpSegmentHeader) {
      HasFlag(h.evtmask, ACK) && h.seqno == expseq
    }
  }

  /** What a handler does to the connection it is called on. */
  datatype Effect = Keep(tcb: Tcb) | Drop

  function SynSent(t: Tcb, h: TcpSegmentHeader): Effect {
    if t.Expects(h) then Keep(t.ChangeState(ESTABLISHED, false)) else Keep(t)
  }

  function SynRcvd(t: Tcb, h: TcpSegmentHeader, resetOk: bool): Effect {
    if t.Expects(h) then
      var (tmr, ok) := t.tmr.Start(INACTIVITY_TMR, DEFAULT_MS * 100, resetOk);
      var u := t.(tmr := tmr);
      Keep(if ok then u.(expseq := h.seqno).ChangeState(ESTABLISHED, false) else u)
    else Keep(t)
  }

  function Established(t: Tcb, h: TcpSegmentHeader, resetOk: bool): Effect {
    if HasFlag(h.evtmask, FIN) then
      var (tmr, ok) := t.tmr.Start(FINAL_TMR_1, DEFAULT_MS, resetOk);
      var u := t.(tmr := tmr);
      Keep(if ok then u.(expseq := h.seqno).ChangeState(CLOSE_WAIT, false) else u)
    else Keep(t)
  }

  function CloseWait(t: Tcb, h: TcpSegmentHeader, resetOk: bool): Effect {
    if t.Expects(h) then
      var (tmr, ok) := t.tmr.Start(FINAL_TMR_2, DEFAULT_MS, resetOk);
      if ok then Keep(t.(expseq := Next(t.expseq), tmr := tmr).ChangeState(LAST_ACK, false)) else Drop
    else Keep(t)
  }

  function LastAck(t: Tcb, h: TcpSegmentHeader): Effect {
    if t.Expects(h) then Drop else Keep(t)
  }

  /** The handler table, indexed by state; the handlers of the other states do nothing. */
  function OnSegment(t: Tcb, h: TcpSegmentHeader, resetOk: bool): Effect {
    match t.state
    case SYN_SENT => SynSent(t, h)
    case SYN_RCVD => SynRcvd(t, h, resetOk)
    case ESTABLISHED => Established(t, h, resetOk)
    case CLOSE_WAIT => CloseWait(t, h, resetOk)
    case LAST_ACK => LastAck(t, h)
    case _ => Keep(t)
  }

  /** The timer table. Leaving CLOSE_WAIT on a timer arms nothing (tcp_state_machine_close_wait.cc:49-56). */
  function OnTimer(t: Tcb, evt: uint8): Effect {
    if t.state == CLOSE_WAIT && evt == FINAL_TMR_1 then
      Keep(t.(expseq := Next(t.expseq)).ChangeState(LAST_ACK, false))
    else if t.state == LAST_ACK && evt == FINAL_TMR_2 then Drop
    else Keep(t)
  }

  /** A control block just constructed; its `expseq` is whatever the memory held. */
  function NewTcb(clientId: uint64, expseq: uint32): Tcb {
    Tcb(CLOSED, clientId, expseq, Timers(clientId, map[]))
  }

  function Accepted(clientId: uint64, h: TcpSegmentHeader, resetOk: bool): Effect {
    var t := NewTcb(clientId, Next(h.seqno));
    var (tmr, ok) := t.tmr.Start(CONNECTION_TMR, DEFAULT_MS, resetOk);
    if ok then Keep(t.(tmr := tmr).ChangeState(SYN_SENT, false)) else Drop
  }

  /** All segment handlers, in every state: which segments move or erase a connection, the number that
      it expects then, and which one timer is started. ACK is bit 4 of the flags, FIN bit 0. */
  lemma SegmentMovesExactlyWhen(t: Tcb, h: TcpSegmentHeader, resetOk: bool)
    ensures var ack := h.evtmask / 16 % 2 == 1 && h.seqno == t.expseq;
      var fin := h.evtmask % 2 == 1;
      var r := OnSegment(t, h, resetOk);
      && (r.Drop? <==> ack && (t.state == LAST_ACK || (t.state == CLOSE_WAIT && !resetOk)))
      && (r.Keep? ==>
        && r.tcb.clientId == t.clientId && r.tcb.tmr.srcAddr == t.tmr.srcAddr
        && r.tcb.state == (
          if t.state == SYN_SENT && ack then ESTABLISHED
          else if t.state == SYN_RCVD && ack && resetOk then ESTABLISHED
          else if t.state == ESTABLISHED && fin && resetOk then CLOSE_WAIT
          else if t.state == CLOSE_WAIT && ack then LAST_ACK
          else t.state)
        && r.tcb.expseq == (
          if t.state == ESTABLISHED && fin && resetOk then h.seqno
          else if t.state == CLOSE_WAIT && ack then (t.expseq + 1) % 0x1_0000_0000
          else t.expseq)
        && forall id: nat ::
          if (t.state == SYN_RCVD && ack && id == 2) || (t.state == ESTABLISHED && fin && id == 3)
             || (t.state == CLOSE_WAIT && ack && id == 4)
          then (id in r.tcb.tmr.armed <==> resetOk)
               && (resetOk ==> r.tcb.tmr.armed[id] == Cookie(t.tmr.srcAddr, id))
          else (id in r.tcb.tmr.armed <==> id in t.tmr.armed)
               && (id in t.tmr.armed ==> r.tcb.tmr.armed[id] == t.tmr.armed[id]))
  {
    hide Cookie;
  }

  /** All timer handlers, in every state: FINAL_TMR_1, timer 3, moves CLOSE_WAIT to LAST_ACK, and
      FINAL_TMR_2, timer 4, erases LAST_ACK; nothing else happens, and no timer is touched. */
  lemma ExpiryMovesExactlyWhen(t: Tcb, evt: uint8)
    ensures var r := OnTimer(t, evt);
      && (r.Drop? <==> t.state == LAST_ACK && evt == 4)
      && (r.Keep? && t.state == CLOSE_WAIT && evt == 3 ==>
            r.tcb == t.(state := LAST_ACK, expseq := (t.expseq + 1) % 0x1_0000_0000))
      && (r.Keep? && !(t.state == CLOSE_WAIT && evt == 3) ==> r.tcb == t)
  {
  }

  /** An accepted connection: in SYN_SENT, expecting the number after its SYN, with its connection
      timer, timer 1, pending and no other. If that timer does not start, there is no connection. */
  lemma AcceptedExactlyWhen(clientId: uint64, h: TcpSegmentHeader, resetOk: bool)
    ensures var r := Accepted(clientId, h, resetOk);
      && (r.Keep? <==> resetOk)
      && (r.Keep? ==> r.tcb == Tcb(SYN_SENT, clientId, (h.seqno + 1) % 0x1_0000_0000,
                                   Timers(clientId, map[1 := Cookie(clientId, 1)])))
  {
    hide Cookie;
    StartArms(Timers(clientId, map[]), 1, 100, resetOk);
  }

  /** A SYN_RCVD block is opened exactly by an ACK with the expected number for which the inactivity
      timer starts. It never changes the expected number, and disturbs no other timer. */
  lemma SynRcvdOpensExactlyWhen(t: Tcb, h: TcpSegmentHeader, resetOk: bool)
    requires t.state == SYN_RCVD
    ensures SynRcvd(t, h, resetOk).Keep?
    ensures var u := SynRcvd(t, h, resetOk).tcb;
      && u.state == (if t.Expects(h) && resetOk then ESTABLISHED else SYN_RCVD)
      && u.expseq == t.expseq && u.clientId == t.clientId
      && (t.Expects(h) ==> (INACTIVITY_TMR in u.tmr.armed <==> resetOk))
      && (!t.Expects(h) ==> u.tmr == t.tmr)
      && u.tmr.armed - {INACTIVITY_TMR} == t.tmr.armed - {INACTIVITY_TMR}
  {
    StartArms(t.tmr, INACTIVITY_TMR, DEFAULT_MS * 100, resetOk);
  }

  /** A change of state keeps number and owner, is idempotent whatever the timer library answers,
      and disturbs timers only on entry to EXCEPTION_HANG, where FINAL_TMR_2 is left pending exactly
      if it starts. */
  lemma ChangeStateArmsExactlyWhen(t: Tcb, s: TcpState, resetOk: bool, again: bool)
    ensures var u := t.ChangeState(s, resetOk);
      && u.state == s && u.expseq == t.expseq && u.clientId == t.clientId
      && u.ChangeState(s, again) == u
      && (s != EXCEPTION_HANG || t.state == EXCEPTION_HANG ==> u.tmr == t.tmr)
      && (s == EXCEPTION_HANG && t.state != EXCEPTION_HANG ==> (FINAL_TMR_2 in u.tmr.armed <==> resetOk))
      && u.tmr.armed - {FINAL_TMR_2} == t.tmr.armed - {FINAL_TMR_2}
  {
    StartArms(t.tmr, FINAL_TMR_2, DEFAULT_MS, resetOk);
  }

  // ---- a thread's table of connections ----

  /** How `emplace` answers for an absent key: no room, an entry, an address past the end of the
      table, or a failed assertion. */
  datatype Insertion = Refused | Inserted | PastEnd | AssertTrips

  /** Running, stopped by a failed assertion, or beyond what C++ defines after a write through an
      address past the end of the table. */
  datatype Status = Running | Aborted | Undefined

  datatype World = World(conns: map<uint64, Tcb>, listenState: TcpState, asserts: bool, status: Status)

  /** What the environment brings: a parsed segment, with the answers that the timer library and
      the table will give; or the expiry of one timer of one client. */
  datatype Event =
    | Segment(header: TcpSegmentHeader, resetOk: bool, insertion: Insertion)
    | Expire(client: uint64, timer: nat)

  function Client(e: Event): uint64 {
    match e
    case Segment(h, _, _) => MakeClientId(h.saddr4, h.sport)
    case Expire(k, _) => k
  }

  function Settle(conns: map<uint64, Tcb>, key: uint64, effect: Effect): map<uint64, Tcb> {
    match effect
    case Keep(t) => conns[key := t]
    case Drop => conns - {key}
  }

  function Stop(w: World, status: Status): World {
    w.(conns := map[], status := status)
  }

  function Listen(w: World, h: TcpSegmentHeader, resetOk: bool, insertion: Insertion): World {
    if w.asserts && w.listenState != LISTEN then Stop(w, Aborted)
    else if !HasFlag(h.evtmask, SYN) then w
    else
      match insertion
      case Refused => w
      case AssertTrips => Stop(w, Aborted)
      case PastEnd => Stop(w, Undefined)
      case Inserted =>
        var k := MakeClientId(h.saddr4, h.sport);
        w.(conns := Settle(w.conns, k, Accepted(k, h, resetOk)))
  }

  function Deliver(w: World, h: TcpSegmentHeader, resetOk: bool, insertion: Insertion): World {
    if h.dport != LISTEN_CLIENT_ID % U16 then w
    else
      var k := MakeClientId(h.saddr4, h.sport);
      if k !in w.conns then Listen(w, h, resetOk, insertion)
      else
        var t := w.conns[k];
        match OnSegment(t, h, resetOk)
        case Keep(u) => w.(conns := w.conns[k := u])
        case Drop => w.(conns := w.conns - {t.clientId})
  }

  /** The expiry callback: everything it knows is the cookie. */
  function Fire(w: World, cookie: uint64): World {
    var k := CookieClient(cookie);
    if k !in w.conns then w
    else
      var t := w.conns[k];
      match OnTimer(t, CookieTimer(cookie))
      case Keep(u) => w.(conns := w.conns[k := u])
      case Drop => w.(conns := w.conns - {t.clientId})
  }

  function Step(w: World, e: Event): World {
    if w.status != Running then w
    else
      match e
      case Segment(h, resetOk, insertion) => Deliver(w, h, resetOk, insertion)
      case Expire(k, id) =>
        if k in w.conns && id in w.conns[k].tmr.armed then
          var t := w.conns[k];
          var stopped := t.(tmr := t.tmr.(armed := t.tmr.armed - {id}));
          Fire(w.(conns := w.conns[k := stopped]), t.tmr.armed[id])
        else w
  }

  function Run(w: World, events: seq<Event>): World {
    if events == [] then w
    else Step(Run(w, events[..|events| - 1]), events[|events| - 1])
  }

  /** A thread at start-up. The listen block is constructed like any other, so its state is CLOSED. */
  function Boot(asserts: bool): World {
    World(map[], CLOSED, asserts, Running)
  }
}
