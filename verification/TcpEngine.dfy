/**
 The objects behind the state machine: control blocks kept in a FixedDict, the handlers that
 change them in place, and the proof that one call is one step of TcpFsm.
 */
module TcpEngine {
  import opened Common
  import opened FixedTable
  import opened MultiTimer
  import opened TcpFsm
  import opened Autobuf

  const MAX_TCP_CLIENT: nat := 64
  const PRIME: nat := 39

  class TcpControlBlock {
    const clientId: uint64
    var state: TcpState
    var expseq: uint32
    var tmr: Timers

    ghost function Value(): Tcb
      reads this
    {
      Tcb(state, clientId, expseq, tmr)
    }

    /** `memory` is what the member without an initialiser happens to hold. */
    constructor (givenClientId: uint64, memory: uint32)
      ensures Value() == NewTcb(givenClientId, memory)
    {
      clientId, state, expseq := givenClientId, CLOSED, memory;
      tmr := Timers(givenClientId, map[]);
    }

    method Start(id: nat, ms: uint32, resetOk: bool) returns (ok: bool)
      modifies `tmr
      ensures (tmr, ok) == old(tmr).Start(id, ms, resetOk)
    {
      var (t, r) := tmr.Start(id, ms, resetOk);
      tmr, ok := t, r;
    }

    method ChangeState(newState: TcpState, resetOk: bool)
      modifies this
      ensures Value() == old(Value()).ChangeState(newState, resetOk)
    {
      if state == newState {
        return;
      }
      state := newState;
      if newState == EXCEPTION_HANG {
        var _ := Start(FINAL_TMR_2, DEFAULT_MS, resetOk);
      }
    }
  }

  /** The per-thread context: table and listen block. */
  class TcpImpl {
    const tcbTable: FixedDict<TcpControlBlock>
    const listen: TcpControlBlock
    const asserts: bool
    var status: Status
    ghost var blocks: set<TcpControlBlock>

    ghost function Blocks(): map<uint64, TcpControlBlock>
      reads tcbTable, tcbTable.data
    {
      tcbTable.Snapshot().Map()
    }

    /** Every key is the client id of its block, so that mapped blocks are separate objects, and
        none is the listen block. */
    ghost predicate Valid()
      reads this, tcbTable, tcbTable.data
    {
      && tcbTable.Valid()
      && tcbTable.capacity == MAX_TCP_CLIENT && tcbTable.prime == PRIME && tcbTable.asserts == asserts
      && listen !in blocks && listen.clientId == LISTEN_CLIENT_ID
      && (forall k | k in Blocks() :: Blocks()[k] in blocks && Blocks()[k].clientId == k)
    }

    /** No connection is in the listen block's state, which no run brings one to. */
    ghost predicate NoneListens()
      requires Valid()
      reads this, tcbTable, tcbTable.data, blocks
    {
      forall k | k in Blocks() :: Blocks()[k].state != LISTEN
    }

    ghost function View(): World
      requires Valid()
      reads this, tcbTable, tcbTable.data, blocks, listen
    {
      World(if status.Running? then map k | k in Blocks() :: Blocks()[k].Value() else map[],
            listen.state, asserts, status)
    }

    /** How the table would answer an `emplace` of absent client `k`. */
    ghost function InsertionFor(k: uint64): Insertion
      requires Valid()
      reads this, tcbTable, tcbTable.data
    {
      var t := tcbTable.Snapshot();
      if t.cnt >= |t.data| then Refused
      else if asserts && t.cnt + 1 == |t.data| then AssertTrips
      else if exists q: nat | t.Home(k) <= q < |t.data| :: !t.Occupied(q) then Inserted
      else PastEnd
    }

    /** The table's answer, in terms of how many connections it holds and whether the slots from
        the client's home to the end are taken. */
    lemma AnswerExactlyWhen(k: uint64)
      requires Valid()
      ensures InsertionFor(k).Refused? <==> |Blocks()| == MAX_TCP_CLIENT
      ensures InsertionFor(k).AssertTrips? <==> asserts && |Blocks()| == MAX_TCP_CLIENT - 1
      ensures InsertionFor(k).PastEnd? <==>
        && |Blocks()| < (if asserts then MAX_TCP_CLIENT - 1 else MAX_TCP_CLIENT)
        && forall q: nat | CalcPos(k, PRIME, MAX_TCP_CLIENT) <= q < MAX_TCP_CLIENT ::
             tcbTable.Snapshot().Occupied(q)
    {
      hide CalcPos, Table.Map;
      tcbTable.Snapshot().SizesAgree();
    }

    constructor (asserts: bool)
      ensures Valid() && View() == Boot(asserts)
      ensures fresh(tcbTable) && fresh(tcbTable.data) && fresh(listen) && blocks == {}
    {
      tcbTable := new FixedDict<TcpControlBlock>(MAX_TCP_CLIENT, PRIME, asserts);
      listen := new TcpControlBlock(LISTEN_CLIENT_ID, 0);
      this.asserts, status, blocks := asserts, Running, {};
    }

    // The handlers' own assertions are preconditions, so that each holds wherever a handler is called.

    method SynSentCallback(tcb: TcpControlBlock, header: TcpSegmentHeader)
      requires tcb.state == SYN_SENT
      modifies tcb
      ensures Keep(tcb.Value()) == SynSent(old(tcb.Value()), header)
    {
      if HasFlag(header.evtmask, ACK) && header.seqno == tcb.expseq {
        tcb.ChangeState(ESTABLISHED, false);
      }
    }

    method SynRcvdCallback(tcb: TcpControlBlock, header: TcpSegmentHeader, resetOk: bool)
      requires tcb.state == SYN_RCVD
      modifies tcb
      ensures Keep(tcb.Value()) == SynRcvd(old(tcb.Value()), header, resetOk)
    {
      if HasFlag(header.evtmask, ACK) && header.seqno == tcb.expseq {
        var ok := tcb.Start(INACTIVITY_TMR, DEFAULT_MS * 100, resetOk);
        if ok {
          tcb.expseq := header.seqno;
          tcb.ChangeState(ESTABLISHED, false);
        }
      }
    }

    method EstablishedCallback(tcb: TcpControlBlock, header: TcpSegmentHeader, resetOk: bool)
      requires tcb.state == ESTABLISHED
      modifies tcb
      ensures Keep(tcb.Value()) == Established(old(tcb.Value()), header, resetOk)
    {
      if HasFlag(header.evtmask, FIN) {
        var ok := tcb.Start(FINAL_TMR_1, DEFAULT_MS, resetOk);
        if ok {
          tcb.expseq := header.seqno;
          tcb.ChangeState(CLOSE_WAIT, false);
        }
      }
    }

    /** The table after a handler: unchanged, or without the connection it erased. */
    twostate predicate Applied(tcb: TcpControlBlock, effect: Effect)
      reads this, tcbTable, tcbTable.data, tcb
    {
      && Valid()
      && (effect.Keep? ==> tcb.Value() == effect.tcb && Blocks() == old(Blocks()))
      && (effect.Drop? ==> Blocks() == old(Blocks()) - {tcb.clientId})
    }

    method Erase(k: uint64)
      requires Valid()
      modifies tcbTable, tcbTable.data
      ensures Valid() && Blocks() == old(Blocks()) - {k}
    {
      hide CalcPos, Table.Map, Table.Valid, Table.Erased;
      var _ := tcbTable.Erase(k);
      forall k' | k' in Blocks() ensures Blocks()[k'] in blocks && Blocks()[k'].clientId == k' {
        assert k' in old(Blocks()) && Blocks()[k'] == old(Blocks())[k'];
      }
    }

    method CloseWaitCallback(tcb: TcpControlBlock, header: TcpSegmentHeader, resetOk: bool)
      requires Valid() && tcb.state == CLOSE_WAIT
      modifies tcb, tcbTable, tcbTable.data
      ensures Applied(tcb, CloseWait(old(tcb.Value()), header, resetOk))
    {
      if HasFlag(header.evtmask, ACK) && header.seqno == tcb.expseq {
        tcb.expseq := Next(tcb.expseq);
        var ok := tcb.Start(FINAL_TMR_2, DEFAULT_MS, resetOk);
        if ok {
          tcb.ChangeState(LAST_ACK, false);
        } else {
          Erase(tcb.clientId);
        }
      }
    }

    method LastAckCallback(tcb: TcpControlBlock, header: TcpSegmentHeader)
      requires Valid() && tcb.state == LAST_ACK
      modifies tcb, tcbTable, tcbTable.data
      ensures Applied(tcb, LastAck(old(tcb.Value()), header))
    {
      if HasFlag(header.evtmask, ACK) && header.seqno == tcb.expseq {
        Erase(tcb.clientId);
      }
    }

    /** The handlers, of segments and of timers, that do nothing but assert their state and log. */
    method LogOnly(tcb: TcpControlBlock, expected: TcpState)
      requires tcb.state == expected
    {
    }

    /** The handler table, for a connection: the handler of LISTEN is for the listen block. Those of
        CLOSED and EXCEPTION_HANG do not look at the block. */
    method Callback(tcb: TcpControlBlock, header: TcpSegmentHeader, resetOk: bool)
      requires Valid() && tcb.state != LISTEN
      modifies tcb, tcbTable, tcbTable.data
      ensures Applied(tcb, OnSegment(old(tcb.Value()), header, resetOk))
    {
      hide CalcPos, Table.Map, Table.Valid;
      match tcb.state {
        case SYN_SENT => SynSentCallback(tcb, header);
        case SYN_RCVD => SynRcvdCallback(tcb, header, resetOk);
        case ESTABLISHED => EstablishedCallback(tcb, header, resetOk);
        case CLOSE_WAIT => CloseWaitCallback(tcb, header, resetOk);
        case LAST_ACK => LastAckCallback(tcb, header);
        case FIN_WAIT_1 => LogOnly(tcb, FIN_WAIT_1);
        case CLOSING => LogOnly(tcb, CLOSING);
        case FIN_WAIT_2 => LogOnly(tcb, FIN_WAIT_2);
        case TIME_WAIT => LogOnly(tcb, TIME_WAIT);
        case _ =>
      }
    }

    method CloseWaitTimer(tcb: TcpControlBlock, evt: uint8)
      requires Valid() && tcb.state == CLOSE_WAIT
      modifies tcb
      ensures Applied(tcb, OnTimer(old(tcb.Value()), evt))
    {
      hide CalcPos, Table.Map, Table.Valid;
      if evt == FINAL_TMR_1 {
        tcb.expseq := Next(tcb.expseq);
        tcb.ChangeState(LAST_ACK, false);
      }
    }

    method LastAckTimer(tcb: TcpControlBlock, evt: uint8)
      requires Valid() && tcb.state == LAST_ACK
      modifies tcbTable, tcbTable.data
      ensures Applied(tcb, OnTimer(old(tcb.Value()), evt))
    {
      hide CalcPos, Table.Map, Table.Valid;
      if evt == FINAL_TMR_2 {
        Erase(tcb.clientId);
      }
    }

    /** The timer table. */
    method ProcessTimer(tcb: TcpControlBlock, evt: uint8)
      requires Valid()
      modifies tcb, tcbTable, tcbTable.data
      ensures Applied(tcb, OnTimer(old(tcb.Value()), evt))
    {
      hide CalcPos, Table.Map, Table.Valid;
      match tcb.state {
        case CLOSE_WAIT => CloseWaitTimer(tcb, evt);
        case LAST_ACK => LastAckTimer(tcb, evt);
        case CLOSED => LogOnly(tcb, CLOSED);
        case LISTEN => LogOnly(tcb, LISTEN);
        case SYN_SENT => LogOnly(tcb, SYN_SENT);
        case SYN_RCVD => LogOnly(tcb, SYN_RCVD);
        case ESTABLISHED => LogOnly(tcb, ESTABLISHED);
        case FIN_WAIT_1 => LogOnly(tcb, FIN_WAIT_1);
        case CLOSING => LogOnly(tcb, CLOSING);
        case FIN_WAIT_2 => LogOnly(tcb, FIN_WAIT_2);
        case TIME_WAIT => LogOnly(tcb, TIME_WAIT);
        case EXCEPTION_HANG =>
      }
    }

    method CallOn(k: uint64, tcb: TcpControlBlock, header: TcpSegmentHeader, resetOk: bool)
      requires tcb.state != LISTEN
      requires Valid() && status.Running? && k in Blocks() && Blocks()[k] == tcb
      modifies tcb, tcbTable, tcbTable.data
      ensures Valid() && View() == old(View()).(conns :=
        match OnSegment(old(View()).conns[k], header, resetOk)
        case Keep(t) => old(View()).conns[k := t]
        case Drop => old(View()).conns - {k})
    {
      hide CalcPos, Table.Map, Table.Valid, OnSegment, OnTimer;
      ghost var conns := View().conns;
      Callback(tcb, header, resetOk);
      forall k' | k' in Blocks() && k' != k ensures Blocks()[k'].Value() == conns[k'] {
        assert k' in old(Blocks()) && Blocks()[k'] == old(Blocks())[k'];
      }
      assert View().conns == conns - {k} || View().conns == conns[k := tcb.Value()];
    }

    method TimeoutOn(k: uint64, tcb: TcpControlBlock, evt: uint8)
      requires Valid() && status.Running? && k in Blocks() && Blocks()[k] == tcb
      modifies tcb, tcbTable, tcbTable.data
      ensures Valid() && View() == old(View()).(conns :=
        match OnTimer(old(View()).conns[k], evt)
        case Keep(t) => old(View()).conns[k := t]
        case Drop => old(View()).conns - {k})
    {
      hide CalcPos, Table.Map, Table.Valid, OnSegment, OnTimer;
      ghost var conns := View().conns;
      ProcessTimer(tcb, evt);
      forall k' | k' in Blocks() && k' != k ensures Blocks()[k'].Value() == conns[k'] {
        assert k' in old(Blocks()) && Blocks()[k'] == old(Blocks())[k'];
      }
      assert View().conns == conns - {k} || View().conns == conns[k := tcb.Value()];
    }

    method Open(connCb: TcpControlBlock, header: TcpSegmentHeader, resetOk: bool) returns (ok: bool)
      requires connCb.Value() == NewTcb(connCb.clientId, connCb.expseq)
      modifies connCb
      ensures Accepted(connCb.clientId, header, resetOk) == if ok then Keep(connCb.Value()) else Drop
    {
      connCb.expseq := Next(header.seqno);
      ok := connCb.Start(CONNECTION_TMR, DEFAULT_MS, resetOk);
      if ok {
        connCb.ChangeState(SYN_SENT, false);
      }
    }

    /** The accept path once the table holds the new block: roll back if no timer starts. */
    method AcceptOn(k: uint64, connCb: TcpControlBlock, header: TcpSegmentHeader, resetOk: bool)
      requires Valid() && status.Running? && k in Blocks() && Blocks()[k] == connCb
      requires connCb.Value() == NewTcb(k, connCb.expseq)
      modifies connCb, tcbTable, tcbTable.data
      ensures Valid() && View() == old(View()).(conns :=
        Settle(old(View()).conns - {k}, k, Accepted(k, header, resetOk)))
    {
      hide View, Valid, Accepted;
      ghost var conns := View().conns;
      var ok := OpenIn(k, connCb, header, resetOk);
      assert conns[k := connCb.Value()] - {k} == conns - {k};
      assert conns[k := connCb.Value()] == (conns - {k})[k := connCb.Value()];
      if !ok {
        EraseConnection(k);
      }
    }

    method OpenIn(k: uint64, connCb: TcpControlBlock, header: TcpSegmentHeader, resetOk: bool) returns (ok: bool)
      requires Valid() && status.Running? && k in Blocks() && Blocks()[k] == connCb
      requires connCb.Value() == NewTcb(k, connCb.expseq)
      modifies connCb
      ensures Valid() && View() == old(View()).(conns := old(View()).conns[k := connCb.Value()])
      ensures Accepted(k, header, resetOk) == if ok then Keep(connCb.Value()) else Drop
    {
      hide CalcPos, Table.Map, Table.Valid, Accepted;
      ghost var conns := View().conns;
      ok := Open(connCb, header, resetOk);
      forall k' | k' in Blocks() && k' != k ensures Blocks()[k'].Value() == conns[k'] {
        assert Blocks()[k'].clientId == k';
      }
      assert View().conns == conns[k := connCb.Value()];
    }

    method EraseConnection(k: uint64)
      requires Valid() && status.Running?
      modifies tcbTable, tcbTable.data
      ensures Valid() && View() == old(View()).(conns := old(View()).conns - {k})
    {
      hide CalcPos, Table.Map, Table.Valid;
      Erase(k);
      assert View().conns == old(View()).conns - {k};
    }

    /** `emplace(clientId, clientId)`: constructs a block in the table. */
    method Insert(k: uint64, memory: uint32) returns (ret: EmplaceResult)
      requires Valid() && status.Running? && k !in Blocks()
      modifies this`blocks, tcbTable, tcbTable.data
      ensures Valid() && fresh(blocks - old(blocks))
      ensures match old(InsertionFor(k))
              case Refused => ret.NullPtr? && Blocks() == old(Blocks())
              case AssertTrips => ret.AssertFails?
              case PastEnd => ret.SlotPtr? && ret.index >= tcbTable.capacity
              case Inserted =>
                && ret.SlotPtr? && ret.index < tcbTable.capacity && k in Blocks()
                && tcbTable.data[ret.index].content == Some(Entry(k, Blocks()[k]))
                && fresh(Blocks()[k]) && Blocks()[k].Value() == NewTcb(k, memory)
                && Blocks() == old(Blocks())[k := Blocks()[k]]
    {
      hide CalcPos, Table.Map, Table.Valid, Table.Emplaced;
      var cb := new TcpControlBlock(k, memory);
      ret := tcbTable.Emplace(k, cb);
      if !ret.NullPtr? {
        blocks := blocks + {cb};
        assert Blocks() == old(Blocks())[k := cb];
      }
    }

    method ListenCallback(header: TcpSegmentHeader, resetOk: bool, memory: uint32)
      requires Valid() && status.Running?
      requires MakeClientId(header.saddr4, header.sport) !in Blocks()
      modifies this`status, this`blocks, tcbTable, tcbTable.data
      ensures Valid() && fresh(blocks - old(blocks))
      ensures View() == Listen(old(View()), header, resetOk,
                               old(InsertionFor(MakeClientId(header.saddr4, header.sport))))
    {
      hide CalcPos, Table.Map, Table.Valid, Accepted, InsertionFor;
      if asserts && listen.state != LISTEN {
        status := Aborted;
        return;
      }
      if !HasFlag(header.evtmask, SYN) {
        return;
      }
      var clientId := MakeClientId(header.saddr4, header.sport);
      ghost var conns := View().conns;
      var ret := Insert(clientId, memory);
      if ret.NullPtr? {
        assert View().conns == conns;
        return;
      }
      if ret.AssertFails? {
        status := Aborted;
        return;
      }
      if ret.index >= tcbTable.capacity {
        status := Undefined;
        return;
      }
      assert View().conns - {clientId} == conns;
      AcceptOn(clientId, tcbTable.data[ret.index].content.value.value, header, resetOk);
    }

    lemma PortOfListen()
      requires Valid()
      ensures listen.clientId % U16 == LISTEN_CLIENT_ID
    {
    }

    /** The dispatch half of `handleTcpRx`: one call is one step. The caller's handle `rbuf` lets go
        of the packet, and a handler gets a counted handle of its own, which dies when it returns. */
    method Dispatch(header: TcpSegmentHeader, resetOk: bool, memory: uint32, rbuf: Handle)
      requires Valid() && status.Running? && NoneListens() && rbuf.data != null
      modifies this`status, this`blocks, tcbTable, tcbTable.data, blocks, rbuf, rbuf.data
      ensures Valid() && fresh(blocks - old(blocks))
      ensures View() == Step(old(View()), Segment(header, resetOk,
                               old(InsertionFor(MakeClientId(header.saddr4, header.sport)))))
      ensures rbuf.data == null && (header.dport != LISTEN_CLIENT_ID ==> status.Running?)
      ensures old(rbuf.data).Value() == AfterDispatch(old(rbuf.data.Value()), header.dport == LISTEN_CLIENT_ID, status)
    {
      hide Cell.Gained, Cell.Cleared, Step, View, Valid, NoneListens, InsertionFor, Blocks, MakeClientId;
      PortOfListen();
      if header.dport != listen.clientId % U16 {
        StrayPort(View(), header, resetOk, InsertionFor(MakeClientId(header.saddr4, header.sport)));
        rbuf.Clear();
        return;
      }
      var argument := new Handle();
      var raw := rbuf.Release();
      argument.Reset(raw);
      CallHandler(header, resetOk, memory);
      if status.Running? {
        argument.Clear();
      }
    }

    method CallHandler(header: TcpSegmentHeader, resetOk: bool, memory: uint32)
      requires Valid() && status.Running? && NoneListens() && header.dport == LISTEN_CLIENT_ID
      modifies this`status, this`blocks, tcbTable, tcbTable.data, blocks
      ensures Valid() && fresh(blocks - old(blocks))
      ensures View() == Step(old(View()), Segment(header, resetOk,
                               old(InsertionFor(MakeClientId(header.saddr4, header.sport)))))
    {
      hide CalcPos, Table.Map, Table.Valid, OnSegment, Listen;
      var clientId := MakeClientId(header.saddr4, header.sport);
      var tgt := tcbTable.Find(clientId);
      if tgt.None? {
        ListenCallback(header, resetOk, memory);
      } else {
        var tcb := tcbTable.data[tgt.value].content.value.value;
        assert clientId in Blocks() && Blocks()[clientId] == tcb;
        CallOn(clientId, tcb, header, resetOk);
      }
    }

    /** The timer library finds a timer of `client` due, stops it and runs its callback with its cookie. */
    method Expiry(client: uint64, timer: nat)
      requires Valid() && status.Running?
      modifies tcbTable, tcbTable.data, blocks
      ensures Valid() && View() == Step(old(View()), Expire(client, timer))
    {
      hide CalcPos, Table.Map, Table.Valid, OnTimer, OnSegment, InsertionFor, MakeClientId, Cookie;
      var due := tcbTable.Find(client);
      if due.Some? {
        var tcb := tcbTable.data[due.value].content.value.value;
        assert client in Blocks() && Blocks()[client] == tcb && tcb in blocks;
        if timer in tcb.tmr.armed {
          ghost var view := View();
          var cookie := tcb.tmr.armed[timer];
          tcb.tmr := tcb.tmr.(armed := tcb.tmr.armed - {timer});
          forall k' | k' in Blocks() && k' != client ensures Blocks()[k'].Value() == view.conns[k'] {
            assert Blocks()[k'].clientId == k';
          }
          assert View().conns == view.conns[client := tcb.Value()];
          OnTcbTimerExpire(cookie);
        }
      }
    }

    method OnTcbTimerExpire(cookie: uint64)
      requires Valid() && status.Running?
      modifies tcbTable, tcbTable.data, blocks
      ensures Valid() && View() == Fire(old(View()), cookie)
    {
      hide CalcPos, Table.Map, Table.Valid, OnTimer;
      var clientId := CookieClient(cookie);
      var tgt := tcbTable.Find(clientId);
      if tgt.Some? {
        var tcb := tcbTable.data[tgt.value].content.value.value;
        assert clientId in Blocks() && Blocks()[clientId] == tcb && tcb in blocks;
        TimeoutOn(clientId, tcb, CookieTimer(cookie));
      }
    }
  }

  /** What dispatching does to the count of a packet: a handler that does not return never lets go
      of it. */
  function AfterDispatch(c: Cell, handled: bool, status: Status): Cell {
    if !handled then c.Cleared()
    else if status.Running? then c.Gained().Cleared()
    else c.Gained()
  }

  lemma StrayPort(w: World, h: TcpSegmentHeader, resetOk: bool, insertion: Insertion)
    requires h.dport != LISTEN_CLIENT_ID
    ensures Step(w, Segment(h, resetOk, insertion)) == w
  {
  }

  // ---- where clients land in the table ----

  /** With 64 slots and multiplier 39, clients share a home exactly when the low six bits of their
      ports agree; the address plays no part. */
  lemma HomesOfClients(a: uint32, p: uint16, b: uint32, q: uint16)
    ensures CalcPos(MakeClientId(a, p), PRIME, MAX_TCP_CLIENT) == 39 * (p % 64) % 64
    ensures CalcPos(MakeClientId(a, p), PRIME, MAX_TCP_CLIENT) == CalcPos(MakeClientId(b, q), PRIME, MAX_TCP_CLIENT)
      <==> p % 64 == q % 64
  {
    HomeOfClient(a, p);
    HomeOfClient(b, q);
    TimesThirtyNine(p % 64, q % 64);
  }

  /** For other keys the product does wrap, at 64 bits, before the capacity reduces it: 2^63 * 2 is 0
      and has home 0 of 3, where 2^64 without the wrap would have home 1. */
  lemma HomeWraps()
    ensures CalcPos(0x8000_0000_0000_0000, 2, 3) == 0
  {
  }

  lemma HomeOfClient(a: uint32, p: uint16)
    ensures CalcPos(MakeClientId(a, p), PRIME, MAX_TCP_CLIENT) == 39 * (p % 64) % 64
  {
    var key := MakeClientId(a, p);
    assert (key * PRIME) % U64 == key * PRIME;
    assert p == 64 * (p / 64) + p % 64;
    Modulo64(a * 39936 + p / 64 * 39, 39 * (p % 64));
  }

  lemma Modulo64(m: int, r: int)
    ensures (64 * m + r) % 64 == r % 64
  {
  }

  /** 39 is invertible modulo 64: 39 * 23 == 1 + 14 * 64. */
  lemma TimesThirtyNine(x: nat, y: nat)
    requires x < 64 && y < 64
    ensures 39 * x % 64 == 39 * y % 64 <==> x == y
  {
    assert 23 * (39 * x) == x + 64 * (14 * x) && 23 * (39 * y) == y + 64 * (14 * y);
    if 39 * x % 64 == 39 * y % 64 {
      var d := 39 * x / 64 - 39 * y / 64;
      assert 39 * x - 39 * y == 64 * d;
      assert x - y == 64 * (23 * d - 14 * x + 14 * y);
    }
  }

  /** Two clients suffice for an address past the end: ports 41 and 105 both have home 63, the
      last slot, so that the second is put in slot 0 and its pointer is slot 64. */
  lemma SecondClientWraps<V>(t: Table<V>, a: uint32, b: uint32, x: V)
    requires |t.data| == MAX_TCP_CLIENT && t.prime == PRIME
    requires forall q: nat | q < MAX_TCP_CLIENT :: !t.Occupied(q)
    requires t.cnt == 0
    ensures var u := t.Emplaced(MakeClientId(a, 41), x);
      && u.Home(MakeClientId(b, 105)) == 63 && u.Occupied(63)
      && u.Home(MakeClientId(b, 105)) + u.HoleFrom(63, 0) == MAX_TCP_CLIENT
  {
    hide CalcPos;
    HomeOfClient(a, 41);
    HomeOfClient(b, 105);
    var u := t.Emplaced(MakeClientId(a, 41), x);
    forall q ensures !t.Holds(q, MakeClientId(a, 41)) { assert t.Holds(q, MakeClientId(a, 41)) ==> t.Occupied(q); }
    assert t.HoleFrom(63, 0) == 0 by { assert !t.Occupied(Around(63, 0, MAX_TCP_CLIENT)); }
    assert u.Occupied(63);
    assert !t.Occupied(0) && !u.Occupied(0) && Around(63, 1, MAX_TCP_CLIENT) == 0;
  }
}
