/** What every run of the connection state machine keeps, and where the code falls short. */
module TcpRuns {
  import opened Common
  import opened MultiTimer
  import opened TcpFsm

  // ---- the invariant of a connection ----

  /** How far a connection has come; states that no connection enters have no rank. */
  function Rank(s: TcpState): int {
    match s
    case SYN_SENT => 1
    case ESTABLISHED => 2
    case CLOSE_WAIT => 3
    case LAST_ACK => 4
    case _ => -1
  }

  /** A table entry `t` under key `k` between two handler calls. */
  ghost predicate Sound(k: uint64, t: Tcb) {
    && Rank(t.state) > 0
    && t.clientId == k == t.tmr.srcAddr && k < TOP_BYTE
    && (forall id | id in t.tmr.armed :: id < U8 && t.tmr.armed[id] == Cookie(k, id))
    && (t.state == CLOSE_WAIT <==> FINAL_TMR_1 in t.tmr.armed && t.state != LAST_ACK)
    && (FINAL_TMR_2 in t.tmr.armed ==> t.state == LAST_ACK)
  }

  ghost predicate AllSound(conns: map<uint64, Tcb>) {
    forall k | k in conns :: Sound(k, conns[k])
  }

  lemma SegmentKeepsSound(k: uint64, t: Tcb, h: TcpSegmentHeader, resetOk: bool)
    requires Sound(k, t)
    ensures OnSegment(t, h, resetOk).Keep? ==>
      Sound(k, OnSegment(t, h, resetOk).tcb) && Rank(t.state) <= Rank(OnSegment(t, h, resetOk).tcb.state)
  {
  }

  /** After timer `id` has fired, the effect of its callback on the same connection. */
  function Fired(t: Tcb, id: nat): Effect
    requires id < U8
  {
    OnTimer(t.(tmr := t.tmr.(armed := t.tmr.armed - {id})), id)
  }

  lemma FiredKeepsSound(k: uint64, t: Tcb, id: nat)
    requires Sound(k, t) && id in t.tmr.armed
    ensures Fired(t, id).Keep? ==>
      Sound(k, Fired(t, id).tcb) && Rank(t.state) <= Rank(Fired(t, id).tcb.state)
  {
  }

  lemma AcceptedIsSound(k: uint64, h: TcpSegmentHeader, resetOk: bool)
    requires k < TOP_BYTE
    ensures Accepted(k, h, resetOk).Keep? <==> resetOk
    ensures resetOk ==> var t := Accepted(k, h, resetOk).tcb;
      Sound(k, t) && t.state == SYN_SENT && t.expseq == Next(h.seqno)
  {
  }

  /** An expiry reaches its own control block: the cookie decodes to the client that armed it. */
  lemma ExpiryReachesItsOwner(w: World, k: uint64, id: nat)
    requires AllSound(w.conns) && w.status.Running?
    requires k in w.conns && id in w.conns[k].tmr.armed
    ensures id < U8 && Step(w, Expire(k, id)).conns == Settle(w.conns, k, Fired(w.conns[k], id))
  {
    var t := w.conns[k];
    assert Sound(k, t);
    CookieRoundTrip(k, id);
    var w' := w.(conns := w.conns[k := t.(tmr := t.tmr.(armed := t.tmr.armed - {id}))]);
    assert w'.conns - {k} == w.conns - {k};
  }

  /** The effect an event has on its client's connection, when it reaches one. */
  ghost function EffectOf(w: World, e: Event): Effect
    requires AllSound(w.conns) && Client(e) in w.conns
  {
    var t := w.conns[Client(e)];
    match e
    case Segment(h, resetOk, _) =>
      if h.dport == LISTEN_CLIENT_ID % U16 then OnSegment(t, h, resetOk) else Keep(t)
    case Expire(k, id) =>
      assert Sound(k, t);
      if id in t.tmr.armed then Fired(t, id) else Keep(t)
  }

  /** A step is its effect on the event's own client, and nothing else. */
  lemma StepSettles(w: World, e: Event)
    requires AllSound(w.conns) && w.status.Running? && Client(e) in w.conns
    ensures Step(w, e) == w.(conns := Settle(w.conns, Client(e), EffectOf(w, e)))
  {
    hide OnSegment, OnTimer, Cookie;
    var k := Client(e);
    var t := w.conns[k];
    assert Sound(k, t);
    match e
    case Segment(h, resetOk, insertion) => assert w.conns[k := t] == w.conns;
    case Expire(_, id) =>
      assert w.conns[k := t] == w.conns;
      if id in t.tmr.armed { ExpiryReachesItsOwner(w, k, id); }
  }

  lemma EffectKeepsSound(w: World, e: Event)
    requires AllSound(w.conns) && Client(e) in w.conns
    ensures var r := EffectOf(w, e); r.Keep? ==>
      Sound(Client(e), r.tcb) && Rank(w.conns[Client(e)].state) <= Rank(r.tcb.state)
  {
    hide OnSegment, OnTimer, Sound, Rank;
    var k := Client(e);
    var t := w.conns[k];
    assert Sound(k, t);
    match e
    case Segment(h, resetOk, insertion) => SegmentKeepsSound(k, t, h, resetOk);
    case Expire(_, id) => if id in t.tmr.armed { FiredKeepsSound(k, t, id); }
  }

  /** One step: the entries stay sound, only the event's own client is touched, and a connection
      that survives the step has not moved backwards. */
  lemma StepKeepsSound(w: World, e: Event)
    requires AllSound(w.conns)
    ensures var w' := Step(w, e);
      && AllSound(w'.conns)
      && (w'.status.Running? ==> w'.conns - {Client(e)} == w.conns - {Client(e)})
      && (forall k | k in w.conns && k in w'.conns :: Rank(w.conns[k].state) <= Rank(w'.conns[k].state))
      && w'.asserts == w.asserts && w'.listenState == w.listenState
      && (w'.status.Running? ==> w.status.Running?)
      && (w.status.Running? && !w'.status.Running? ==> w'.conns == map[])
  {
    hide OnSegment, Fire, Accepted, Sound, Rank;
    var k := Client(e);
    if w.status.Running? {
      if k in w.conns {
        StepSettles(w, e);
        EffectKeepsSound(w, e);
      } else if e.Segment? {
        AcceptedIsSound(k, e.header, e.resetOk);
      }
    }
  }

  lemma OthersUntouched(w: World, e: Event, k: uint64)
    requires AllSound(w.conns) && Client(e) != k && Step(w, e).status.Running?
    ensures k in Step(w, e).conns <==> k in w.conns
    ensures k in w.conns ==> Step(w, e).conns[k] == w.conns[k]
  {
    hide Step;
    StepKeepsSound(w, e);
    var c := Client(e);
    assert k in w.conns <==> k in w.conns - {c};
    assert k in Step(w, e).conns <==> k in Step(w, e).conns - {c};
    assert k in w.conns ==> (w.conns - {c})[k] == w.conns[k];
    assert k in Step(w, e).conns ==> (Step(w, e).conns - {c})[k] == Step(w, e).conns[k];
  }

  lemma {:induction false} RunKeepsSound(w: World, events: seq<Event>)
    requires AllSound(w.conns)
    ensures AllSound(Run(w, events).conns)
    ensures Run(w, events).asserts == w.asserts && Run(w, events).listenState == w.listenState
    ensures Run(w, events).status.Running? ==> w.status.Running?
    ensures w.status.Running? && !Run(w, events).status.Running? ==> Run(w, events).conns == map[]
  {
    if events != [] {
      var n := |events| - 1;
      RunKeepsSound(w, events[..n]);
      StepKeepsSound(Run(w, events[..n]), events[n]);
    }
  }

  /** While a client stays connected, however long, its connection only moves forward, through
      SYN_SENT, ESTABLISHED, CLOSE_WAIT and LAST_ACK alone. */
  lemma {:induction false} OnlyForward(w: World, events: seq<Event>, k: uint64)
    requires AllSound(w.conns)
    requires forall i | 0 <= i <= |events| :: k in Run(w, events[..i]).conns
    ensures k in w.conns && k in Run(w, events).conns
    ensures 0 < Rank(w.conns[k].state) <= Rank(Run(w, events).conns[k].state)
  {
    assert events[..|events|] == events;
    if events == [] {
      assert Sound(k, w.conns[k]);
    } else {
      var n := |events| - 1;
      forall i | 0 <= i <= n ensures k in Run(w, events[..n][..i]).conns {
        assert events[..n][..i] == events[..i];
      }
      OnlyForward(w, events[..n], k);
      RunKeepsSound(w, events[..n]);
      StepKeepsSound(Run(w, events[..n]), events[n]);
    }
  }

  // ---- isolation between clients ----

  /** The events of one client, in order. */
  function Mine(events: seq<Event>, k: uint64): seq<Event> {
    if events == [] then []
    else
      var n := |events| - 1;
      Mine(events[..n], k) + if Client(events[n]) == k then [events[n]] else []
  }

  ghost predicate AgreeOn(v: World, w: World, k: uint64) {
    && v.status == w.status && v.asserts == w.asserts && v.listenState == w.listenState
    && (k in v.conns <==> k in w.conns)
    && (k in v.conns ==> v.conns[k] == w.conns[k])
  }

  lemma StepIsLocal(v: World, w: World, e: Event)
    requires AllSound(v.conns) && AllSound(w.conns) && AgreeOn(v, w, Client(e))
    ensures AgreeOn(Step(v, e), Step(w, e), Client(e))
  {
    hide OnSegment, OnTimer, Accepted, Sound;
    if v.status.Running? && Client(e) in v.conns {
      StepSettles(v, e);
      StepSettles(w, e);
      assert EffectOf(v, e) == EffectOf(w, e);
    }
  }

  /** A connection is a function of its own client's segments and timers: what every other client
      sends can be deleted from the run without changing it, as long as the process survives. */
  lemma {:induction false} ClientsAreIsolated(w: World, events: seq<Event>, k: uint64)
    requires AllSound(w.conns) && Run(w, events).status.Running?
    ensures AgreeOn(Run(w, events), Run(w, Mine(events, k)), k)
  {
    hide Step;
    if events != [] {
      var n := |events| - 1;
      var v := Run(w, events[..n]);
      RunKeepsSound(w, events[..n]);
      StepKeepsSound(v, events[n]);
      ClientsAreIsolated(w, events[..n], k);
      var mine := Mine(events[..n], k);
      RunKeepsSound(w, mine);
      if Client(events[n]) == k {
        StepIsLocal(v, Run(w, mine), events[n]);
        assert Mine(events, k)[..|mine|] == mine;
      } else {
        OthersUntouched(v, events[n], k);
        assert Mine(events, k) == mine;
      }
    }
  }

  /** A segment that opens a connection if the table takes it. */
  predicate Opens(w: World, h: TcpSegmentHeader) {
    && h.dport == 8000 && MakeClientId(h.saddr4, h.sport) !in w.conns
    && (w.asserts ==> w.listenState == LISTEN) && h.evtmask / 2 % 2 == 1
  }

  /** The one thing that other clients decide for a client is how the table answers its insertion.
      Two worlds that agree on the client stop agreeing exactly when a segment opens a connection
      and the answers differ, a refusal and an entry that is rolled back counting as the same. */
  lemma InsertionDecides(v: World, w: World, h: TcpSegmentHeader, resetOk: bool, a: Insertion, b: Insertion)
    requires AllSound(v.conns) && AllSound(w.conns) && v.status.Running?
    requires AgreeOn(v, w, MakeClientId(h.saddr4, h.sport))
    ensures AgreeOn(Step(v, Segment(h, resetOk, a)), Step(w, Segment(h, resetOk, b)), MakeClientId(h.saddr4, h.sport))
      <==> !Opens(v, h) || a == b || (!resetOk && {a, b} == {Refused, Inserted})
  {
    hide OnSegment, Accepted, Sound;
    var k := MakeClientId(h.saddr4, h.sport);
    if k in v.conns {
      StepSettles(v, Segment(h, resetOk, a));
      StepSettles(w, Segment(h, resetOk, b));
    } else {
      AcceptedIsSound(k, h, resetOk);
    }
  }

  // ---- the sequence-number history of a connection ----

  ghost predicate SegmentAt(events: seq<Event>, i: nat, k: uint64, flag: uint8, seqno: uint32)
    requires flag > 0
  {
    && i < |events| && events[i].Segment? && Client(events[i]) == k
    && events[i].header.dport == 8000
    && HasFlag(events[i].header.evtmask, flag) && events[i].header.seqno == seqno
  }

  /** When the segments were handled that brought a connection where it is, and the sequence
      numbers of its SYN and FIN. */
  datatype Story =
    | Opened(syn: nat, s: uint32)
    | Acked(syn: nat, s: uint32, ack: nat)
    | Finned(syn: nat, s: uint32, ack: nat, fin: nat, f: uint32)
    | Closing(syn: nat, s: uint32, ack: nat, fin: nat, f: uint32, close: nat)

  ghost predicate Explains(events: seq<Event>, k: uint64, st: Story) {
    && SegmentAt(events, st.syn, k, SYN, st.s)
    && (!st.Opened? ==> st.syn < st.ack && SegmentAt(events, st.ack, k, ACK, Next(st.s)))
    && (st.Finned? || st.Closing? ==> st.ack < st.fin && SegmentAt(events, st.fin, k, FIN, st.f))
    && (st.Closing? ==>
          && st.fin < st.close < |events|
          && (events[st.close] == Expire(k, FINAL_TMR_1) || SegmentAt(events, st.close, k, ACK, st.f)))
  }

  /** The state, the expected number and the closing timer that the story leads to. FINAL_TMR_2
      is pending only when an ACK, not FINAL_TMR_1, ended CLOSE_WAIT. */
  ghost predicate Fits(events: seq<Event>, k: uint64, st: Story, t: Tcb) {
    match st
    case Opened(_, s) => t.state == SYN_SENT && t.expseq == Next(s)
    case Acked(_, s, _) => t.state == ESTABLISHED && t.expseq == Next(s)
    case Finned(_, _, _, _, f) => t.state == CLOSE_WAIT && t.expseq == f
    case Closing(_, _, _, _, f, close) =>
      && t.state == LAST_ACK && t.expseq == Next(f) && close < |events|
      && (FINAL_TMR_2 in t.tmr.armed <==> events[close].Segment?)
  }

  /** No expiry of timer `id` of client `k` among the events from `from` on. */
  ghost predicate Silent(events: seq<Event>, from: nat, k: uint64, id: nat) {
    forall i: nat | from <= i < |events| :: events[i] != Expire(k, id)
  }

  /** The timers that the story leaves pending: CONNECTION_TMR from the SYN and FINAL_TMR_1 from the
      FIN, each until its own expiry and whatever else happens, and FINAL_TMR_2 from the ACK that
      ended CLOSE_WAIT. Each carries its own cookie. */
  ghost predicate Pending(events: seq<Event>, k: uint64, st: Story, t: Tcb) {
    && t.tmr.armed.Keys <= {CONNECTION_TMR, FINAL_TMR_1, FINAL_TMR_2}
    && (forall id | id in t.tmr.armed :: t.tmr.armed[id] == Cookie(k, id))
    && (CONNECTION_TMR in t.tmr.armed <==> Silent(events, st.syn, k, CONNECTION_TMR))
    && (FINAL_TMR_1 in t.tmr.armed <==> (st.Finned? || st.Closing?) && Silent(events, st.fin, k, FINAL_TMR_1))
    && (FINAL_TMR_2 in t.tmr.armed <==> st.Closing? && st.close < |events| && events[st.close].Segment?)
  }

  lemma SilentStep(events: seq<Event>, e: Event, from: nat, k: uint64, id: nat)
    requires from <= |events|
    ensures Silent(events + [e], from, k, id) <==> Silent(events, from, k, id) && e != Expire(k, id)
  {
    var all := events + [e];
    assert all[|events|] == e;
    assert forall i: nat | i < |events| :: all[i] == events[i];
  }

  lemma PendingGrows(events: seq<Event>, e: Event, k: uint64, st: Story, t: Tcb)
    requires Explains(events, k, st) && Pending(events, k, st, t) && Client(e) != k
    ensures Pending(events + [e], k, st, t)
  {
    hide Silent, Cookie;
    SilentStep(events, e, st.syn, k, CONNECTION_TMR);
    if st.Finned? || st.Closing? { SilentStep(events, e, st.fin, k, FINAL_TMR_1); }
  }

  lemma PendingStep(w: World, events: seq<Event>, e: Event, st: Story, st': Story)
    requires AllSound(w.conns) && Client(e) in w.conns && EffectOf(w, e).Keep?
    requires var k := Client(e); var t := w.conns[k];
      && Explains(events, k, st) && Fits(events, k, st, t) && Pending(events, k, st, t)
      && st' == if EffectOf(w, e).tcb.state == t.state then st else Extended(st, e, |events|)
    ensures Pending(events + [e], Client(e), st', EffectOf(w, e).tcb)
  {
    hide Silent, Cookie;
    var k := Client(e);
    assert Sound(k, w.conns[k]);
    assert (events + [e])[|events|] == e;
    SilentStep(events, e, st.syn, k, CONNECTION_TMR);
    if st'.Finned? || st'.Closing? {
      if st.Acked? { NothingYet(events, k, FINAL_TMR_1); }
      SilentStep(events, e, st'.fin, k, FINAL_TMR_1);
    }
  }

  lemma NothingYet(events: seq<Event>, k: uint64, id: nat)
    ensures Silent(events, |events|, k, id)
  {
  }

  /** The story after an event, at place `n`, that moves the connection. */
  ghost function Extended(st: Story, e: Event, n: nat): Story {
    match st
    case Opened(syn, s) => Acked(syn, s, n)
    case Acked(syn, s, ack) => Finned(syn, s, ack, n, if e.Segment? then e.header.seqno else 0)
    case Finned(syn, s, ack, fin, f) => Closing(syn, s, ack, fin, f, n)
    case Closing(_, _, _, _, _, _) => st
  }

  lemma StoryGrows(events: seq<Event>, e: Event, k: uint64, st: Story)
    requires Explains(events, k, st)
    ensures Explains(events + [e], k, st)
    ensures forall t :: Fits(events, k, st, t) ==> Fits(events + [e], k, st, t)
  {
  }

  /** One more event in the story of the client it belongs to. */
  lemma StoryStep(w: World, events: seq<Event>, e: Event, st: Story) returns (st': Story)
    requires AllSound(w.conns) && Client(e) in w.conns && EffectOf(w, e).Keep?
    requires Explains(events, Client(e), st) && Fits(events, Client(e), st, w.conns[Client(e)])
    ensures Explains(events + [e], Client(e), st') && st'.syn == st.syn
    ensures Fits(events + [e], Client(e), st', EffectOf(w, e).tcb)
    ensures Pending(events, Client(e), st, w.conns[Client(e)]) ==>
      Pending(events + [e], Client(e), st', EffectOf(w, e).tcb)
  {
    hide Cookie, Pending;
    var k := Client(e);
    var t := w.conns[k];
    var u := EffectOf(w, e).tcb;
    var n := |events|;
    assert Sound(k, t);
    assert (events + [e])[n] == e;
    StoryGrows(events, e, k, st);
    st' := if u.state == t.state then st else Extended(st, e, n);
    if Pending(events, k, st, t) { PendingStep(w, events, e, st, st'); }
  }

  ghost predicate LivesSince(w: World, events: seq<Event>, k: uint64, syn: nat) {
    && syn <= |events| && k !in Run(w, events[..syn]).conns
    && forall i | syn < i <= |events| :: k in Run(w, events[..i]).conns
  }

  lemma LivesOn(w: World, events: seq<Event>, k: uint64, syn: nat)
    requires events != [] && LivesSince(w, events[..|events| - 1], k, syn)
    requires k in Run(w, events).conns
    ensures LivesSince(w, events, k, syn)
  {
    hide Step;
    var n := |events| - 1;
    assert events[..n + 1] == events;
    forall i | syn < i <= n ensures k in Run(w, events[..i]).conns {
      assert events[..n][..i] == events[..i];
    }
    assert events[..n][..syn] == events[..syn];
  }

  /** Every connection of every run has a story: an accepted SYN numbered s, then as its state
      requires an ACK s + 1, a FIN f, and an ACK f or the expiry of FINAL_TMR_1; `expseq` holds
      s + 1, s + 1, f and f + 1 modulo 2^32 in the four states. */
  lemma {:induction false} EveryConnectionHasAStory(w: World, events: seq<Event>, k: uint64) returns (st: Story)
    requires AllSound(w.conns) && w.status.Running? && k !in w.conns && k in Run(w, events).conns
    ensures Explains(events, k, st) && LivesSince(w, events, k, st.syn)
    ensures Fits(events, k, st, Run(w, events).conns[k]) && Pending(events, k, st, Run(w, events).conns[k])
  {
    hide OnSegment, OnTimer, Sound, Explains, Fits, Pending;
    var n := |events| - 1;
    var e := events[n];
    var v := Run(w, events[..n]);
    assert events == events[..n] + [e];
    RunKeepsSound(w, events[..n]);
    RunKeepsSound(w, events);
    if k in v.conns {
      var st0 := EveryConnectionHasAStory(w, events[..n], k);
      if Client(e) == k {
        StepSettles(v, e);
        st := StoryStep(v, events[..n], e, st0);
      } else {
        OthersUntouched(v, e, k);
        StoryGrows(events[..n], e, k, st0);
        PendingGrows(events[..n], e, k, st0, v.conns[k]);
        st := st0;
      }
      LivesOn(w, events, k, st.syn);
    } else {
      st := Birth(w, events, k);
    }
  }

  lemma Birth(w: World, events: seq<Event>, k: uint64) returns (st: Story)
    requires events != [] && w.status.Running? && AllSound(w.conns)
    requires k !in Run(w, events[..|events| - 1]).conns && k in Run(w, events).conns
    ensures st.Opened? && Explains(events, k, st) && LivesSince(w, events, k, st.syn)
    ensures Fits(events, k, st, Run(w, events).conns[k]) && Pending(events, k, st, Run(w, events).conns[k])
  {
    hide OnSegment, Fire, Accepted, Sound, Cookie;
    var n := |events| - 1;
    var e := events[n];
    var v := Run(w, events[..n]);
    RunKeepsSound(w, events[..n]);
    RunKeepsSound(w, events);
    StepKeepsSound(v, e);
    if Client(e) != k { OthersUntouched(v, e, k); }
    AcceptedIsSound(k, e.header, e.resetOk);
    AcceptedExactlyWhen(k, e.header, e.resetOk);
    st := Opened(n, e.header.seqno);
    assert events[..n + 1] == events;
  }

  /** The only ways out of the table, short of a fault: the ACK of the FIN in LAST_ACK, FINAL_TMR_2
      in LAST_ACK, and in CLOSE_WAIT an ACK for which FINAL_TMR_2 cannot be started. */
  lemma DropsExactlyWhen(w: World, e: Event)
    requires AllSound(w.conns) && Client(e) in w.conns
    ensures var t := w.conns[Client(e)]; EffectOf(w, e).Drop? <==>
      || (e.Expire? && e.timer == FINAL_TMR_2 && FINAL_TMR_2 in t.tmr.armed)
      || (e.Segment? && e.header.dport == 8000 && t.Expects(e.header)
          && (t.state == LAST_ACK || (t.state == CLOSE_WAIT && !e.resetOk)))
  {
    hide Cookie;
    assert Sound(Client(e), w.conns[Client(e)]);
  }

  /** A connection that a segment erases in LAST_ACK went through the whole exchange, in order:
      SYN s, ACK s + 1, FIN f, then ACK f or FINAL_TMR_1, and finally ACK f + 1. */
  lemma ErasureEndsTheExchange(w: World, events: seq<Event>, e: Event) returns (st: Story)
    requires AllSound(w.conns) && Client(e) !in w.conns && e.Segment?
    requires var v := Run(w, events); Client(e) in v.conns && v.conns[Client(e)].state == LAST_ACK
    requires Client(e) !in Run(w, events + [e]).conns && Run(w, events + [e]).status.Running?
    ensures st.Closing? && Explains(events, Client(e), st) && LivesSince(w, events, Client(e), st.syn)
    ensures SegmentAt(events + [e], |events|, Client(e), ACK, Next(st.f))
  {
    var v := Run(w, events);
    RunKeepsSound(w, events);
    assert (events + [e])[..|events|] == events;
    assert v.status.Running?;
    StepSettles(v, e);
    DropsExactlyWhen(v, e);
    st := EveryConnectionHasAStory(w, events, Client(e));
  }

  // ---- closing by timers alone ----

  ghost predicate TimersOnly(events: seq<Event>) {
    forall i | 0 <= i < |events| :: events[i].Expire?
  }

  /** A client that falls silent is erased exactly when it was in LAST_ACK with FINAL_TMR_2 pending
      and that timer expires. A connection in CLOSE_WAIT, and one that FINAL_TMR_1 moved to
      LAST_ACK, is therefore never erased by timers, nor is one that never closed. */
  lemma {:induction false} TimersEraseExactlyWhen(w: World, events: seq<Event>, k: uint64)
    requires AllSound(w.conns) && w.status.Running? && k in w.conns && TimersOnly(events)
    ensures Run(w, events).status.Running?
    ensures k !in Run(w, events).conns <==>
      FINAL_TMR_2 in w.conns[k].tmr.armed && Expire(k, FINAL_TMR_2) in events
    ensures k in Run(w, events).conns ==>
      (FINAL_TMR_2 in Run(w, events).conns[k].tmr.armed <==> FINAL_TMR_2 in w.conns[k].tmr.armed)
  {
    hide Cookie, Sound;
    if events != [] {
      var n := |events| - 1;
      var e := events[n];
      var v := Run(w, events[..n]);
      TimersEraseExactlyWhen(w, events[..n], k);
      RunKeepsSound(w, events[..n]);
      assert events == events[..n] + [e];
      if Client(e) != k {
        StepKeepsSound(v, e);
        OthersUntouched(v, e, k);
      } else if k in v.conns {
        StepSettles(v, e);
        DropsExactlyWhen(v, e);
        assert EffectOf(v, e).Keep? ==>
          (FINAL_TMR_2 in EffectOf(v, e).tcb.tmr.armed <==> FINAL_TMR_2 in v.conns[k].tmr.armed);
      }
    }
  }

  /** No segment for the listening port brings client `k` an ACK numbered `seqno`. */
  ghost predicate NeverAcked(events: seq<Event>, k: uint64, seqno: uint32) {
    forall i: nat | i < |events| :: !SegmentAt(events, i, k, ACK, seqno)
  }

  lemma NeverAckedStep(events: seq<Event>, k: uint64, seqno: uint32)
    requires events != []
    ensures var n := |events| - 1;
      NeverAcked(events, k, seqno) <==>
        NeverAcked(events[..n], k, seqno) && !SegmentAt(events, n, k, ACK, seqno)
  {
    var n := |events| - 1;
    forall i: nat | i < n ensures SegmentAt(events[..n], i, k, ACK, seqno) <==> SegmentAt(events, i, k, ACK, seqno) {
    }
  }

  /** A connection that FINAL_TMR_1 moved to LAST_ACK is in the table throughout a run exactly when
      its client sends no ACK with its expected number. Till then its state, its expected number and
      its lack of a closing timer do not change. */
  lemma {:induction false} StuckUntilAcked(w: World, events: seq<Event>, k: uint64)
    requires AllSound(w.conns) && Run(w, events).status.Running? && k in w.conns
    requires w.conns[k].state == LAST_ACK && FINAL_TMR_2 !in w.conns[k].tmr.armed
    ensures NeverAcked(events, k, w.conns[k].expseq) <==>
      forall i: nat | i <= |events| :: k in Run(w, events[..i]).conns
    ensures NeverAcked(events, k, w.conns[k].expseq) ==> Stranded(Run(w, events), w, k)
  {
    hide Step, SegmentAt, Sound;
    assert events[..|events|] == events;
    if events != [] {
      hide NeverAcked, Stranded;
      var n := |events| - 1;
      RunKeepsSound(w, events[..n]);
      StepKeepsSound(Run(w, events[..n]), events[n]);
      NeverAckedStep(events, k, w.conns[k].expseq);
      StuckUntilAcked(w, events[..n], k);
      forall i: nat | i <= n ensures events[..n][..i] == events[..i] {
      }
      if NeverAcked(events[..n], k, w.conns[k].expseq) {
        StrandedStep(w, events, k);
      }
    }
  }

  /** Client `k` is in `v` as it was in `w`: in LAST_ACK, with the same number and no FINAL_TMR_2. */
  ghost predicate Stranded(v: World, w: World, k: uint64) {
    && k in v.conns && k in w.conns && v.conns[k].state == LAST_ACK
    && v.conns[k].expseq == w.conns[k].expseq && FINAL_TMR_2 !in v.conns[k].tmr.armed
  }

  lemma StrandedStep(w: World, events: seq<Event>, k: uint64)
    requires events != [] && Run(w, events).status.Running?
    requires AllSound(Run(w, events[..|events| - 1]).conns) && Stranded(Run(w, events[..|events| - 1]), w, k)
    ensures var n := |events| - 1;
      && (!SegmentAt(events, n, k, ACK, w.conns[k].expseq) ==> Stranded(Run(w, events), w, k))
      && (k in Run(w, events).conns <==> !SegmentAt(events, n, k, ACK, w.conns[k].expseq))
  {
    hide Cookie, Sound;
    var e := events[|events| - 1];
    var v := Run(w, events[..|events| - 1]);
    StepKeepsSound(v, e);
    if Client(e) == k {
      StepSettles(v, e);
      DropsExactlyWhen(v, e);
    } else {
      OthersUntouched(v, e, k);
    }
  }

  // ---- runs of the code as it is built ----

  predicate Addressed(e: Event) {
    e.Segment? && e.header.dport == 8000
  }

  predicate SomeAddressed(events: seq<Event>) {
    exists e | e in events :: Addressed(e)
  }

  /** With assertions compiled in, the first segment for the listening port stops the process:
      the listen block is in state CLOSED where its handler asserts LISTEN. Until then the table
      is empty. */
  lemma {:induction false} AssertingBuildStops(events: seq<Event>)
    ensures Run(Boot(true), events).conns == map[]
    ensures Run(Boot(true), events).status == if SomeAddressed(events) then Aborted else Running
  {
    if events != [] {
      var n := |events| - 1;
      AssertingBuildStops(events[..n]);
      RunKeepsSound(Boot(true), events[..n]);
      assert events == events[..n] + [events[n]];
      assert SomeAddressed(events) <==> SomeAddressed(events[..n]) || Addressed(events[n]);
    }
  }

  /** One step fails an assertion exactly for a SYN that fills the last slot, or for any segment
      that reaches the listen handler while its block is not in state LISTEN. */
  lemma AbortsExactlyWhen(w: World, e: Event)
    requires AllSound(w.conns) && w.status.Running?
    ensures Step(w, e).status == Aborted <==>
      && Addressed(e) && Client(e) !in w.conns
      && ((w.asserts && w.listenState != LISTEN)
          || (e.header.evtmask / 2 % 2 == 1 && e.insertion.AssertTrips?))
  {
    hide OnSegment, Accepted;
    if Client(e) in w.conns { StepSettles(w, e); }
  }

  /** The flags that header parsing lets through (tcp/tcp_rx.cc:84) do not include ACK. */
  predicate FlagsAsParsed(e: Event) {
    e.Segment? ==> e.header.evtmask < 16
  }

  lemma HalfOpenStays(w: World, e: Event)
    requires AllSound(w.conns) && Client(e) in w.conns && w.conns[Client(e)].state == SYN_SENT
    requires FlagsAsParsed(e)
    ensures EffectOf(w, e).Keep? && EffectOf(w, e).tcb.state == SYN_SENT
  {
    hide Cookie;
  }

  /** Without assertions, a run fed by parsed headers only ever holds half-open connections: none
      leaves SYN_SENT and, short of a fault, none is ever erased. */
  lemma {:induction false} ParsedRunsNeverEstablish(w: World, events: seq<Event>, k: uint64)
    requires AllSound(w.conns) && w.status.Running?
    requires k in w.conns ==> w.conns[k].state == SYN_SENT
    requires forall e | e in events :: FlagsAsParsed(e)
    ensures k in Run(w, events).conns ==> Run(w, events).conns[k].state == SYN_SENT
    ensures k in w.conns && Run(w, events).status.Running? ==> k in Run(w, events).conns
  {
    hide OnSegment, OnTimer, Sound, Accepted;
    if events != [] {
      var n := |events| - 1;
      var e := events[n];
      var v := Run(w, events[..n]);
      assert events == events[..n] + [e];
      RunKeepsSound(w, events[..n]);
      StepKeepsSound(v, e);
      ParsedRunsNeverEstablish(w, events[..n], k);
      if v.status.Running? && Step(v, e).status.Running? {
        if Client(e) != k {
          OthersUntouched(v, e, k);
        } else if k in v.conns {
          StepSettles(v, e);
          HalfOpenStays(v, e);
        } else if e.Segment? {
          AcceptedIsSound(k, e.header, e.resetOk);
        }
      }
    }
  }

  /** A segment that finds its timer starting and its insertion succeeding. */
  function Lucky(h: TcpSegmentHeader): Event {
    Segment(h, true, Inserted)
  }

  /** Client `k` sends a segment with the given bit among its flags, whatever else it carries. */
  predicate Sends(k: uint64, h: TcpSegmentHeader, bit: nat)
    requires bit > 0
  {
    h.dport == 8000 && MakeClientId(h.saddr4, h.sport) == k && h.evtmask / bit % 2 == 1
  }

  /** SYN (bit 2), ACK (bit 16) and FIN (bit 1) take a new client from nothing to CLOSE_WAIT. */
  lemma ExchangeOpens(w: World, k: uint64, syn: TcpSegmentHeader, ack: TcpSegmentHeader, fin: TcpSegmentHeader)
    returns (c: World)
    requires AllSound(w.conns) && w.status.Running? && (w.asserts ==> w.listenState == LISTEN) && k !in w.conns
    requires Sends(k, syn, 2) && Sends(k, ack, 16) && Sends(k, fin, 1) && ack.seqno == Next(syn.seqno)
    ensures c == Step(Step(Step(w, Lucky(syn)), Lucky(ack)), Lucky(fin)) && AllSound(c.conns)
    ensures var a := Step(w, Lucky(syn));
      var b := Step(a, Lucky(ack));
      && k in a.conns && a.conns[k].state == SYN_SENT
      && k in b.conns && b.conns[k].state == ESTABLISHED
      && k in c.conns && c.conns[k].state == CLOSE_WAIT && c.conns[k].expseq == fin.seqno
      && c == w.(conns := w.conns[k := c.conns[k]])
  {
    hide Cookie, Sound, Step;
    var a := AcceptStep(w, k, syn);
    ExchangeStep(a, Lucky(ack));
    var b := Step(a, Lucky(ack));
    ExchangeStep(b, Lucky(fin));
    c := Step(b, Lucky(fin));
  }

  /** The exchange does run to its end: from a world without the client and with a listen block
      that passes its check, these five segments take it through the four states and out. */
  lemma ExchangeCompletes(w: World, k: uint64, syn: TcpSegmentHeader, ack: TcpSegmentHeader,
                          fin: TcpSegmentHeader, close: TcpSegmentHeader, last: TcpSegmentHeader)
    requires AllSound(w.conns) && w.status.Running? && (w.asserts ==> w.listenState == LISTEN) && k !in w.conns
    requires Sends(k, syn, 2) && Sends(k, ack, 16) && Sends(k, fin, 1) && ack.seqno == Next(syn.seqno)
    requires Sends(k, close, 16) && close.seqno == fin.seqno && Sends(k, last, 16) && last.seqno == Next(fin.seqno)
    ensures var d := Step(Step(Step(Step(w, Lucky(syn)), Lucky(ack)), Lucky(fin)), Lucky(close));
      && k in d.conns && d.conns[k].state == LAST_ACK
      && Step(d, Lucky(last)) == w
  {
    hide Cookie, Sound, Step;
    var c := ExchangeOpens(w, k, syn, ack, fin);
    ExchangeStep(c, Lucky(close));
    var d := Step(c, Lucky(close));
    ExchangeStep(d, Lucky(last));
    assert Step(d, Lucky(last)).conns == w.conns;
  }

  /** The same exchange up to the FIN, and then silence: FINAL_TMR_1 leaves the connection in
      LAST_ACK with no closing timer, where StuckUntilAcked applies. */
  lemma FinalTimerStrands(w: World, k: uint64, syn: TcpSegmentHeader, ack: TcpSegmentHeader, fin: TcpSegmentHeader)
    requires AllSound(w.conns) && w.status.Running? && (w.asserts ==> w.listenState == LISTEN) && k !in w.conns
    requires Sends(k, syn, 2) && Sends(k, ack, 16) && Sends(k, fin, 1) && ack.seqno == Next(syn.seqno)
    ensures var d := Step(Step(Step(Step(w, Lucky(syn)), Lucky(ack)), Lucky(fin)), Expire(k, FINAL_TMR_1));
      && k in d.conns && d.conns[k].state == LAST_ACK && d.conns[k].expseq == Next(fin.seqno)
      && FINAL_TMR_2 !in d.conns[k].tmr.armed
  {
    hide Cookie, Sound, Step;
    var c := ExchangeOpens(w, k, syn, ack, fin);
    assert Sound(k, c.conns[k]);
    ClosingTimerOnly(k, c.conns[k]);
    ExchangeStep(c, Expire(k, FINAL_TMR_1));
  }

  lemma ClosingTimerOnly(k: uint64, t: Tcb)
    requires Sound(k, t) && t.state == CLOSE_WAIT
    ensures FINAL_TMR_1 in t.tmr.armed && FINAL_TMR_2 !in t.tmr.armed
  {
  }

  lemma AcceptStep(w: World, k: uint64, syn: TcpSegmentHeader) returns (a: World)
    requires AllSound(w.conns) && w.status.Running? && (w.asserts ==> w.listenState == LISTEN) && k !in w.conns
    requires Sends(k, syn, 2)
    ensures a == Step(w, Lucky(syn)) && AllSound(a.conns)
    ensures k in a.conns && a == w.(conns := w.conns[k := a.conns[k]])
      && a.conns[k].state == SYN_SENT && a.conns[k].expseq == Next(syn.seqno)
  {
    a := Step(w, Lucky(syn));
    AcceptedIsSound(k, syn, true);
    StepKeepsSound(w, Lucky(syn));
  }

  lemma ExchangeStep(w: World, e: Event)
    requires AllSound(w.conns) && w.status.Running? && Client(e) in w.conns
    ensures Step(w, e) == w.(conns := Settle(w.conns, Client(e), EffectOf(w, e)))
    ensures AllSound(Step(w, e).conns)
  {
    StepSettles(w, e);
    StepKeepsSound(w, e);
  }
}
