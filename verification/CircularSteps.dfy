/**
 The ring of core/circular.hxx shared between threads: every load and store of a cursor and
 every slot access is one atomic step, and the threads' steps interleave in any order. Atomics
 are sequentially consistent here.
 */
module CircularSteps {
  import opened Common
  import opened Circular

  /** Where a producer stands inside `push`; `popsSeen` counts the pops its read-cursor load saw. */
  datatype Pusher<T> =
    | Idle
    | HaveWp(item: T, wp: nat)
    | HaveBoth(item: T, wp: nat, rp: nat, popsSeen: nat)
    | Fits(item: T, wp: nat)
    | Wrote(item: T, wp: nat)

  /** Where the consumer stands; `pushesSeen` counts the pushes its write-cursor load saw. */
  datatype Popper =
    | Resting
    | HaveWriter(wp: nat, pushesSeen: nat)
    | SawItem
    | Popping(rp: nat)

  datatype Action<T> =
    | StartPush(p: nat, item: T)
    | Continue(p: nat)
    | TestEmpty
    | Compare
    | ReadFront
    | BeginPop
    | EndPop

  /** The shared ring, the threads, and the history: items whose `push` returned 0 in the order
      they were published, the number of pops, and what every `front` returned after how many pops. */
  datatype State<T> = State(
    ring: Ring<T>,
    pushers: seq<Pusher<T>>,
    popper: Popper,
    first: T,
    accepted: seq<T>,
    popped: nat,
    fronts: seq<T>,
    popsBefore: seq<nat>
  ) {

    ghost predicate InFlight(p: nat) {
      p < |pushers| && !pushers[p].Idle?
    }

    /** One atomic step of the thread that `a` names; a step that is not enabled changes nothing. */
    ghost function Step(a: Action<T>): State<T>
      requires ring.Valid()
    {
      match a
      case StartPush(p, item) =>
        if p < |pushers| && pushers[p].Idle? then
          this.(pushers := pushers[p := HaveWp(item, ring.writePos)])
        else this
      case Continue(p) => if p < |pushers| then PushStep(p) else this
      case TestEmpty =>
        if popper.Resting? then this.(popper := HaveWriter(ring.writePos, |accepted|)) else this
      case Compare =>
        if popper.HaveWriter? then
          this.(popper := if Around(ring.readPos, 1, |ring.data|) == popper.wp then Resting else SawItem)
        else this
      case ReadFront =>
        if popper.Resting? || popper.SawItem? then
          this.(fronts := fronts + [ring.data[ring.readPos]], popsBefore := popsBefore + [popped])
        else this
      case BeginPop => if popper.SawItem? then this.(popper := Popping(ring.readPos)) else this
      case EndPop =>
        if popper.Popping? && popper.rp < |ring.data| then
          this.(popper := Resting, popped := popped + 1,
                ring := ring.(readPos := Around(popper.rp, 1, |ring.data|)))
        else this
    }

    ghost function PushStep(p: nat): State<T>
      requires ring.Valid() && p < |pushers|
    {
      match pushers[p]
      case Idle => this
      case HaveWp(item, wp) =>
        this.(pushers := pushers[p := HaveBoth(item, wp, ring.readPos, popped)])
      case HaveBoth(item, wp, rp, _) =>
        this.(pushers := pushers[p := if wp == rp then Idle else Fits(item, wp)])
      case Fits(item, wp) =>
        if wp < |ring.data| then
          this.(pushers := pushers[p := Wrote(item, wp)], ring := ring.(data := ring.data[wp := item]))
        else this
      case Wrote(item, wp) =>
        if wp < |ring.data| then
          this.(pushers := pushers[p := Idle], accepted := accepted + [item],
                ring := ring.(writePos := Around(wp, 1, |ring.data|)))
        else this
    }

    lemma StepKeepsRing(a: Action<T>)
      requires ring.Valid()
      ensures Step(a).ring.Valid() && |Step(a).ring.data| == |ring.data|
      ensures |Step(a).pushers| == |pushers| && Step(a).first == first
    {
    }

    ghost function After(steps: seq<Action<T>>): (s: State<T>)
      requires ring.Valid()
      ensures s.ring.Valid() && |s.ring.data| == |ring.data| && |s.pushers| == |pushers|
      ensures s.first == first
      decreases |steps|
    {
      if steps == [] then this
      else
        StepKeepsRing(steps[0]);
        Step(steps[0]).After(steps[1..])
    }

    /** No push starts while another is in progress. */
    ghost predicate Serialised(steps: seq<Action<T>>)
      requires ring.Valid()
      decreases |steps|
    {
      steps == [] || (
        StepKeepsRing(steps[0]);
        && (steps[0].StartPush? && steps[0].p < |pushers| ==> forall q | InFlight(q) :: q == steps[0].p)
        && Step(steps[0]).Serialised(steps[1..]))
    }

    // ---- the invariant of serialised runs ----

    /** The value under the read cursor, in terms of the history. */
    ghost function PoppedLast(pops: nat): T
      requires pops <= |accepted|
    {
      if pops == 0 then first else accepted[pops - 1]
    }

    ghost predicate Fifo() {
      && ring.Valid()
      && popped <= |accepted|
      && ring.Queue() == accepted[popped..]
      && ring.data[ring.readPos] == PoppedLast(popped)
    }

    ghost predicate FrontExplained(i: nat) {
      i < |fronts| && i < |popsBefore| ==>
        popsBefore[i] <= popped <= |accepted| && fronts[i] == PoppedLast(popsBefore[i])
    }

    ghost predicate FrontsExplained() {
      |fronts| == |popsBefore| && forall i :: FrontExplained(i)
    }

    ghost predicate PusherGood(p: nat)
      requires ring.Valid()
    {
      InFlight(p) ==>
        && pushers[p].wp == ring.writePos
        && (forall q | InFlight(q) :: q == p)
        && match pushers[p]
           case HaveWp(_, _) => true
           case HaveBoth(_, wp, rp, popsSeen) =>
             && popsSeen <= popped
             && |accepted| - popsSeen <= |ring.data| - 1
             && (wp == rp <==> |accepted| - popsSeen == |ring.data| - 1)
           case Fits(_, wp) => wp != ring.readPos
           case Wrote(item, wp) => wp != ring.readPos && ring.data[wp] == item
           case Idle => false
    }

    ghost predicate PopperGood()
      requires ring.Valid()
    {
      match popper
      case Resting => true
      case HaveWriter(wp, pushesSeen) =>
        && popped <= pushesSeen <= |accepted|
        && (Around(ring.readPos, 1, |ring.data|) == wp <==> pushesSeen == popped)
      case SawItem => popped < |accepted|
      case Popping(rp) => rp == ring.readPos && popped < |accepted|
    }

    /** Everything but the producers' copies of the cursors is right. */
    ghost predicate Sane() {
      && Fifo()
      && FrontsExplained()
      && PopperGood()
    }

    ghost predicate Good() {
      Sane() && forall p :: PusherGood(p)
    }

    lemma ConsumerStepKeepsSane(a: Action<T>)
      requires Sane() && !a.StartPush? && !a.Continue?
      ensures Step(a).Sane()
    {
      var s := Step(a);
      hide Ring.Queue;
      ring.PoppedQueue();
      SaneView();
      forall i ensures s.FrontExplained(i) { assert FrontExplained(i); }
    }

    lemma ConsumerStepKeepsGood(a: Action<T>)
      requires Good() && !a.StartPush? && !a.Continue?
      ensures Step(a).Good()
    {
      hide Sane;
      SaneView();
      ring.PoppedQueue();
      ConsumerStepKeepsSane(a);
      var s := Step(a);
      forall p ensures s.PusherGood(p) {
        assert PusherGood(p);
        forall q | s.InFlight(q) ensures q == p || !s.InFlight(p) { assert InFlight(q); }
      }
    }

    lemma GoodRing()
      requires Good()
      ensures ring.Valid()
    {
    }

    lemma SaneView()
      requires Sane()
      ensures ring.Valid() && popped <= |accepted| && popped + ring.Unread() == |accepted|
      ensures popper.Popping? ==> popper.rp == ring.readPos && ring.Unread() > 0
    {
      assert |ring.Queue()| == |accepted[popped..]|;
    }

    /** A step of a producer that neither writes nor publishes. */
    lemma LoadKeepsSane(p: nat)
      requires Sane() && p < |pushers| && !pushers[p].Fits? && !pushers[p].Wrote?
      ensures PushStep(p).Sane()
    {
      forall i ensures PushStep(p).FrontExplained(i) { assert FrontExplained(i); }
    }

    lemma WriteKeepsSane(p: nat)
      requires Sane() && p < |pushers| && pushers[p].Fits?
      requires pushers[p].wp == ring.writePos != ring.readPos
      ensures PushStep(p).Sane()
    {
      var s := PushStep(p);
      ring.WriteMissesUnread(pushers[p].item);
      assert s.ring == ring.(data := ring.data[ring.writePos := pushers[p].item]);
      forall i ensures s.FrontExplained(i) { assert FrontExplained(i); }
    }

    lemma PublishKeepsSane(p: nat)
      requires Sane() && p < |pushers| && pushers[p].Wrote?
      requires pushers[p].wp == ring.writePos != ring.readPos && ring.data[ring.writePos] == pushers[p].item
      ensures PushStep(p).Sane()
    {
      var item := pushers[p].item;
      var s := PushStep(p);
      assert ring.data[ring.writePos := item] == ring.data;
      ring.PushedQueue(item);
      assert s.ring == ring.Pushed(item);
      assert (accepted + [item])[popped..] == accepted[popped..] + [item];
      forall i ensures s.FrontExplained(i) { assert FrontExplained(i); }
    }

    lemma PushStepKeepsGood(p: nat)
      requires Good() && p < |pushers|
      ensures PushStep(p).Good()
    {
      assert PusherGood(p);
      match pushers[p] {
        case Fits(_, _) => WriteKeepsSane(p);
        case Wrote(_, _) => PublishKeepsSane(p);
        case _ => LoadKeepsSane(p);
      }
      hide Sane;
      SaneView();
      ring.PushedQueue(first);
      var s := PushStep(p);
      forall q ensures s.PusherGood(q) {
        assert PusherGood(q);
        forall q' | s.InFlight(q') ensures InFlight(q') {}
      }
    }

    lemma StartKeepsSane(p: nat, item: T)
      requires Sane()
      ensures Step(StartPush(p, item)).Sane()
    {
      forall i ensures Step(StartPush(p, item)).FrontExplained(i) { assert FrontExplained(i); }
    }

    lemma StartKeepsGood(p: nat, item: T)
      requires Good() && (p < |pushers| ==> forall q | InFlight(q) :: q == p)
      ensures Step(StartPush(p, item)).Good()
    {
      hide Sane;
      SaneView();
      StartKeepsSane(p, item);
      var s := Step(StartPush(p, item));
      forall q ensures s.PusherGood(q) {
        assert PusherGood(q);
        forall q' | s.InFlight(q') ensures q' == p || InFlight(q') {}
      }
    }

    lemma {:induction false} RunKeepsGood(steps: seq<Action<T>>)
      requires Good() && Serialised(steps)
      ensures After(steps).Good()
      decreases |steps|
    {
      if steps != [] {
        var a := steps[0];
        match a {
          case StartPush(p, item) => StartKeepsGood(p, item);
          case Continue(p) => if p < |pushers| { PushStepKeepsGood(p); }
          case _ => ConsumerStepKeepsGood(a);
        }
        Step(a).RunKeepsGood(steps[1..]);
      }
    }

    // ---- what a caller sees ----

    /** A refusal means the ring was full when the read cursor was loaded, and an answer of
        `empty` that it was empty when the write cursor was loaded; a stale cursor never makes
        a full ring look free or an empty one look filled. */
    lemma StaleCursorsAreSafe(p: nat)
      requires Good() && p < |pushers|
      ensures pushers[p].HaveBoth? ==>
        (PushStep(p).pushers[p].Idle? <==> |accepted| - pushers[p].popsSeen == |ring.data| - 1)
      ensures pushers[p].HaveBoth? && PushStep(p).pushers[p].Fits? ==> |ring.Queue()| < |ring.data| - 1
      ensures popper.HaveWriter? ==>
        (Step(Compare).popper.Resting? <==> popper.pushesSeen == popped)
      ensures popper.HaveWriter? && Step(Compare).popper.SawItem? ==> ring.Queue() != []
    {
      assert PusherGood(p);
      ring.PushedQueue(first);
    }

    /** The slot a producer writes is neither unread nor the one `front` reads. */
    lemma WriteHitsFreeSlot(p: nat)
      requires Good() && p < |pushers| && pushers[p].Fits?
      ensures PushStep(p).ring.Queue() == ring.Queue()
      ensures PushStep(p).ring.data[ring.readPos] == ring.data[ring.readPos]
    {
      assert PusherGood(p);
      ring.WriteMissesUnread(pushers[p].item);
    }

    /** In any interleaving: the step that ends a pop drops the oldest unread item, counts one pop and
        leaves that item to `front`; no thread but the consumer is touched. */
    lemma EndPopDropsOldest()
      requires Good() && popper.Popping?
      ensures ring.Queue() != []
      ensures var e := Step(EndPop);
        && e.ring.Queue() == ring.Queue()[1..] && e.ring.data[e.ring.readPos] == ring.Queue()[0]
        && e.popper.Resting? && e.popped == popped + 1
        && e.accepted == accepted && e.pushers == pushers && e.fronts == fronts
    {
      SaneView();
      ring.PoppedQueue();
    }

    /** In any interleaving: the step that ends a push appends its item, and a step that refuses one
        touches neither ring nor history. */
    lemma EndPushAppends(p: nat)
      requires Good() && p < |pushers|
      ensures pushers[p].Wrote? ==> var e := PushStep(p);
        && e.ring.Queue() == ring.Queue() + [pushers[p].item] && e.accepted == accepted + [pushers[p].item]
        && e.pushers[p].Idle? && e.popped == popped && e.popper == popper && e.fronts == fronts
      ensures pushers[p].HaveBoth? && PushStep(p).pushers[p].Idle? ==>
        PushStep(p) == this.(pushers := pushers[p := Idle])
    {
      assert PusherGood(p);
      if pushers[p].Wrote? {
        var item := pushers[p].item;
        SaneView();
        assert ring.data[ring.writePos := item] == ring.data;
        ring.PushedQueue(item);
        assert PushStep(p).ring == ring.Pushed(item);
      }
    }

    /** In any interleaving: a consumer that is not popping reads the item popped last, or what slot 0
        held at first, and `front` changes nothing. */
    lemma FrontReadsLastPopped()
      requires Good() && (popper.Resting? || popper.SawItem?)
      ensures var x := if popped == 0 then first else accepted[popped - 1];
        Step(ReadFront) == this.(fronts := fronts + [x], popsBefore := popsBefore + [popped])
    {
    }

    /** A consumer that calls `pop_front` before each `front`. */
    ghost predicate PopsFirst() {
      |fronts| == |popsBefore| && forall i | 0 <= i < |fronts| :: popsBefore[i] == i + 1
    }

    /** A consumer that calls `front` before each `pop_front`, as core/plugin.cc:314-319 does. */
    ghost predicate FrontsFirst() {
      |fronts| == |popsBefore| && forall i | 0 <= i < |fronts| :: popsBefore[i] == i
    }

    lemma PopsFirstDelivers()
      requires Good() && PopsFirst()
      ensures |fronts| <= |accepted| && fronts == accepted[..|fronts|]
    {
      if fronts != [] { assert FrontExplained(|fronts| - 1) && popsBefore[|fronts| - 1] == |fronts|; }
      forall i: nat | i < |fronts| ensures i < |accepted| && fronts[i] == accepted[i] {
        assert FrontExplained(i) && popsBefore[i] == i + 1;
      }
    }

    /** Reading before popping delivers everything one call late, starting with whatever slot 0
        held at first: it delivers in order exactly when all values involved are that one. */
    lemma FrontsFirstLags()
      requires Good() && FrontsFirst()
      ensures |fronts| <= |accepted| + 1 && fronts == ([first] + accepted)[..|fronts|]
      ensures |fronts| <= |accepted| ==>
        (fronts == accepted[..|fronts|] <==> forall i | 0 <= i < |fronts| :: accepted[i] == first)
    {
      if fronts != [] { assert FrontExplained(|fronts| - 1) && popsBefore[|fronts| - 1] == |fronts| - 1; }
      forall i: nat | i < |fronts| ensures i <= |accepted| && fronts[i] == ([first] + accepted)[i] {
        assert FrontExplained(i) && popsBefore[i] == i;
      }
      if |fronts| <= |accepted| {
        if fronts == accepted[..|fronts|] {
          forall i: nat | i < |fronts| ensures accepted[i] == first { ShiftedConstant(i); }
        }
        if forall i | 0 <= i < |fronts| :: accepted[i] == first {
          assert forall i | 0 <= i < |fronts| :: fronts[i] == accepted[i];
        }
      }
    }

    lemma {:induction false} ShiftedConstant(i: nat)
      requires i < |fronts| <= |accepted| && fronts == accepted[..|fronts|]
      requires fronts == ([first] + accepted)[..|fronts|]
      ensures accepted[i] == first
    {
      assert fronts[i] == accepted[i] == ([first] + accepted)[i];
      if i > 0 { ShiftedConstant(i - 1); }
    }
  }

  /** A push that nothing interrupts is the whole call of `BusMpSc.Push`. */
  lemma UninterruptedPush<T>(s: State<T>, p: nat, item: T)
    requires s.ring.Valid() && p < |s.pushers| && s.pushers[p].Idle?
    ensures var e := s.Step(StartPush(p, item)).PushStep(p).PushStep(p).PushStep(p).PushStep(p);
      s.ring.writePos != s.ring.readPos ==>
        e.ring == s.ring.Pushed(item) && e.accepted == s.accepted + [item] && e.pushers == s.pushers
    ensures var r := s.Step(StartPush(p, item)).PushStep(p).PushStep(p);
      s.ring.writePos == s.ring.readPos ==>
        r.ring == s.ring.Pushed(item) && r.accepted == s.accepted && r.pushers == s.pushers
  {
    var a := s.Step(StartPush(p, item)).PushStep(p).PushStep(p);
    if s.ring.writePos != s.ring.readPos {
      assert a.pushers[p] == Fits(item, s.ring.writePos);
      assert a.PushStep(p).PushStep(p).pushers == s.pushers;
    }
  }

  /** `empty` and then `pop_front`, which nothing interrupts, are the whole calls of `BusMpSc.Empty` and
      `BusMpSc.PopFront`: an empty ring is left alone, and any other loses its oldest item. */
  lemma UninterruptedPop<T>(s: State<T>)
    requires s.ring.Valid() && s.popper.Resting?
    ensures var e := s.Step(TestEmpty).Step(Compare);
      && (s.ring.Queue() == [] ==> e == s && e.Step(BeginPop).Step(EndPop) == s)
      && (s.ring.Queue() != [] ==>
            && e == s.(popper := SawItem)
            && e.Step(BeginPop).Step(EndPop) == s.(ring := s.ring.Popped(), popped := s.popped + 1)
            && e.Step(BeginPop).Step(EndPop).ring.Queue() == s.ring.Queue()[1..])
  {
    s.ring.PoppedQueue();
    assert |s.ring.Queue()| == s.ring.Unread();
  }

  /** A consumer that pops one item of a new ring and then reads it gets the item pushed. */
  lemma PopThenFrontDelivers<T>(s: State<T>, p: nat, item: T)
    requires Initial(s) && p < |s.pushers|
    ensures var e := s.Step(StartPush(p, item)).PushStep(p).PushStep(p).PushStep(p).PushStep(p)
                      .Step(TestEmpty).Step(Compare).Step(BeginPop).Step(EndPop);
      e.ring.Queue() == [] && e.popped == 1 && e.Step(ReadFront).fronts == [item]
  {
    UninterruptedPush(s, p, item);
    var a := s.Step(StartPush(p, item)).PushStep(p).PushStep(p).PushStep(p).PushStep(p);
    assert s.ring.Queue() == [];
    s.ring.PushedQueue(item);
    assert a.ring == s.ring.Pushed(item) && a.ring.Queue() == [item] && a.popper.Resting? && a.popped == 0;
    PopOneDelivers(a);
    assert a.fronts == [];
  }

  lemma PopOneDelivers<T>(s: State<T>)
    requires s.ring.Valid() && s.popper.Resting? && |s.ring.Queue()| == 1
    ensures var e := s.Step(TestEmpty).Step(Compare).Step(BeginPop).Step(EndPop);
      && e.ring.Valid() && e.ring.Queue() == [] && e.popped == s.popped + 1
      && e.Step(ReadFront).fronts == s.fronts + s.ring.Queue()
  {
    UninterruptedPop(s);
    s.ring.PoppedQueue();
    hide Ring.Queue;
    assert s.ring.Queue() == [s.ring.Queue()[0]];
  }

  ghost predicate Initial<T>(s: State<T>) {
    && |s.ring.data| >= 2 && s.ring.readPos == 0 && s.ring.writePos == 1
    && (forall p | 0 <= p < |s.pushers| :: s.pushers[p].Idle?)
    && s.popper.Resting? && s.first == s.ring.data[0]
    && s.accepted == [] && s.popped == 0 && s.fronts == [] && s.popsBefore == []
  }

  /** One push into a new ring, then `empty` and `front`: the ring holds the item, and `front`
      returns what slot 0 held at first. */
  lemma FrontMissesTheItem<T>(s: State<T>, p: nat, item: T)
    requires Initial(s) && p < |s.pushers|
    ensures var e := s.Step(StartPush(p, item)).PushStep(p).PushStep(p).PushStep(p).PushStep(p)
                      .Step(TestEmpty).Step(Compare);
      e.popper.SawItem? && e.ring.Queue() == [item] && e.Step(ReadFront).fronts == [s.first]
  {
    UninterruptedPush(s, p, item);
    s.ring.PushedQueue(item);
    assert s.ring.Queue() == [];
    var a := s.Step(StartPush(p, item)).PushStep(p).PushStep(p).PushStep(p).PushStep(p);
    assert a.ring == s.ring.Pushed(item) && a.ring.Queue() == [item];
  }

  /** FIFO for every interleaving in which no two pushes overlap: popped items followed by unread
      ones are the accepted ones in order, for any number of laps and of producers. */
  lemma SerialisedRunsAreFifo<T>(s: State<T>, steps: seq<Action<T>>)
    requires Initial(s) && s.Serialised(steps)
    ensures var e := s.After(steps);
      e.Good() && e.accepted == e.accepted[..e.popped] + e.ring.Queue()
    ensures var e := s.After(steps); e.PopsFirst() ==>
      |e.fronts| <= |e.accepted| && e.fronts == e.accepted[..|e.fronts|]
    ensures var e := s.After(steps); e.FrontsFirst() ==>
      |e.fronts| <= |e.accepted| + 1 && e.fronts == ([e.first] + e.accepted)[..|e.fronts|]
  {
    assert s.ring.Queue() == [];
    s.RunKeepsGood(steps);
    var e := s.After(steps);
    if e.PopsFirst() { e.PopsFirstDelivers(); }
    if e.FrontsFirst() { e.FrontsFirstLags(); }
  }

  /** With one producer every run is serialised. */
  lemma {:induction false} OneProducerIsSerialised<T>(s: State<T>, steps: seq<Action<T>>)
    requires s.ring.Valid() && |s.pushers| == 1
    ensures s.Serialised(steps)
    decreases |steps|
  {
    if steps != [] {
      s.StepKeepsRing(steps[0]);
      OneProducerIsSerialised(s.Step(steps[0]), steps[1..]);
    }
  }

  // ---- why the pushes must not overlap ----

  /** Pushes `p` and `q` both work on write cursor `w`, loaded when `before` items were accepted.
      Whatever is published, the cursors account for one item. Until both are committed to
      publishing, nothing else is wrong. */
  ghost predicate BothClaim<T>(s: State<T>, p: nat, q: nat, w: nat, before: nat) {
    && s.ring.Valid() && w < |s.ring.data| && p != q
    && (forall r: nat | s.InFlight(r) :: (r == p || r == q) && s.pushers[r].wp == w)
    && before <= |s.accepted|
    && s.ring.writePos == (if |s.accepted| == before then w else Around(w, 1, |s.ring.data|))
    && s.popped + s.ring.Unread() == before + (if |s.accepted| == before then 0 else 1)
    && (forall r: nat | s.InFlight(r) && Committed(s, r) && |s.accepted| == before :: s.ring.readPos != w)
    && ViewGood(s)
  }

  /** Producer `r` will publish. */
  ghost predicate Committed<T>(s: State<T>, r: nat) {
    r < |s.pushers| && match s.pushers[r]
                       case Fits(_, _) | Wrote(_, _) => true
                       case HaveBoth(_, wp, rp, _) => rp != wp
                       case _ => false
  }

  /** The pushes of `p` and `q` that are accepted or will be. */
  ghost function Claims<T>(s: State<T>, p: nat, q: nat, before: nat): int {
    |s.accepted| - before + (if Committed(s, p) then 1 else 0) + (if Committed(s, q) then 1 else 0)
  }

  /** As long as at most one of the two is accepted or will be, the ring is a FIFO, and the item
      that has been written is in its slot. */
  ghost predicate SoleClaim<T>(s: State<T>, p: nat, q: nat, w: nat, before: nat)
    requires s.ring.Valid() && w < |s.ring.data|
  {
    Claims(s, p, q, before) <= 1 ==>
      && s.Sane()
      && forall r: nat | s.InFlight(r) && s.pushers[r].Wrote? :: s.ring.data[w] == s.pushers[r].item
  }

  /** The consumer pops only what the cursors say is there. */
  ghost predicate ViewGood<T>(s: State<T>)
    requires s.ring.Valid()
  {
    match s.popper
    case Resting => true
    case HaveWriter(wp, _) => Around(s.ring.readPos, 1, |s.ring.data|) != wp ==> s.ring.Unread() > 0
    case SawItem => s.ring.Unread() > 0
    case Popping(rp) => rp == s.ring.readPos && s.ring.Unread() > 0
  }

  lemma PushKeepsClaims<T>(s: State<T>, p: nat, q: nat, w: nat, before: nat, r: nat)
    requires BothClaim(s, p, q, w, before) && r < |s.pushers|
    ensures BothClaim(s.PushStep(r), p, q, w, before)
  {
    var t := s.PushStep(r);
    if s.InFlight(r) {
      forall x: nat | t.InFlight(x) ensures x == r || (s.InFlight(x) && t.pushers[x] == s.pushers[x]) {}
      match s.pushers[r]
      case Wrote(item, _) =>
        if |s.accepted| == before {
          assert s.ring.readPos != w;
          assert t.ring.Unread() == s.ring.Unread() + 1;
        }
      case _ =>
    }
  }

  lemma PushKeepsSoleClaim<T>(s: State<T>, p: nat, q: nat, w: nat, before: nat, r: nat)
    requires BothClaim(s, p, q, w, before) && SoleClaim(s, p, q, w, before) && r < |s.pushers|
    ensures s.PushStep(r).ring.Valid() && SoleClaim(s.PushStep(r), p, q, w, before)
  {
    hide State.Sane;
    var t := s.PushStep(r);
    if s.InFlight(r) && Claims(t, p, q, before) <= 1 {
      assert Claims(s, p, q, before) <= Claims(t, p, q, before);
      match s.pushers[r] {
        case Fits(_, _) => s.WriteKeepsSane(r);
        case Wrote(_, _) => s.PublishKeepsSane(r);
        case _ => s.LoadKeepsSane(r);
      }
      forall x: nat | t.InFlight(x) && t.pushers[x].Wrote? ensures t.ring.data[w] == t.pushers[x].item {
        if x != r { assert s.InFlight(x) && Committed(s, x) && Committed(t, x); }
      }
    }
  }

  lemma ConsumerKeepsClaims<T>(s: State<T>, p: nat, q: nat, w: nat, before: nat, a: Action<T>)
    requires BothClaim(s, p, q, w, before) && !a.StartPush? && !a.Continue?
    ensures BothClaim(s.Step(a), p, q, w, before)
    ensures SoleClaim(s, p, q, w, before) ==> SoleClaim(s.Step(a), p, q, w, before)
  {
    hide State.Sane;
    var t := s.Step(a);
    assert t.pushers == s.pushers && t.accepted == s.accepted && t.ring.data == s.ring.data;
    assert forall x: nat :: t.InFlight(x) <==> s.InFlight(x);
    if a.EndPop? && s.popper.Popping? {
      assert t.ring.Unread() == s.ring.Unread() - 1;
    }
    if s.Sane() { s.ConsumerStepKeepsSane(a); }
  }

  lemma {:induction false} RunKeepsClaims<T>(s: State<T>, p: nat, q: nat, w: nat, before: nat, steps: seq<Action<T>>)
    requires BothClaim(s, p, q, w, before) && SoleClaim(s, p, q, w, before)
    requires forall a | a in steps :: !a.StartPush?
    ensures BothClaim(s.After(steps), p, q, w, before) && SoleClaim(s.After(steps), p, q, w, before)
    decreases |steps|
  {
    if steps != [] {
      var a := steps[0];
      assert a in steps;
      hide BothClaim, SoleClaim, State.PushStep;
      assert s.ring.Valid() by { ClaimsRing(s, p, q, w, before); }
      if a.Continue? {
        if a.p < |s.pushers| {
          PushKeepsClaims(s, p, q, w, before, a.p);
          PushKeepsSoleClaim(s, p, q, w, before, a.p);
        }
      } else {
        ConsumerKeepsClaims(s, p, q, w, before, a);
      }
      RunKeepsClaims(s.Step(a), p, q, w, before, steps[1..]);
    }
  }

  lemma ClaimsRing<T>(s: State<T>, p: nat, q: nat, w: nat, before: nat)
    requires BothClaim(s, p, q, w, before)
    ensures s.ring.Valid()
  {
  }

  lemma ClaimsStart<T>(s: State<T>, p: nat, q: nat, item: T)
    requires s.Good() && s.InFlight(p) && q < |s.pushers| && !s.InFlight(q)
    ensures var t := s.Step(StartPush(q, item));
      && BothClaim(t, p, q, s.ring.writePos, |s.accepted|)
      && SoleClaim(t, p, q, s.ring.writePos, |s.accepted|)
  {
    hide State.Sane, Ring.Queue, Ring.Pushed;
    s.GoodRing();
    assert s.PusherGood(p);
    s.SaneView();
    SaneViewGood(s);
    s.ring.PushedQueue(s.first);
    s.StartKeepsSane(q, item);
    hide State.PusherGood;
    var t := s.Step(StartPush(q, item));
    forall r: nat | t.InFlight(r) ensures (r == p || r == q) && t.pushers[r].wp == s.ring.writePos {
      assert r == q || s.InFlight(r);
    }
  }

  lemma SaneViewGood<T>(s: State<T>)
    requires s.Sane()
    ensures ViewGood(s)
  {
    s.SaneView();
  }

  /** What the claims say of an end of the run. */
  lemma ClaimsEnd<T>(e: State<T>, p: nat, q: nat, w: nat, before: nat)
    requires BothClaim(e, p, q, w, before) && SoleClaim(e, p, q, w, before)
    ensures e.popped + |e.ring.Queue()| == |e.accepted| <==> |e.accepted| < before + 2
    ensures |e.accepted| == before + 2 ==> e.popped + |e.ring.Queue()| == |e.accepted| - 1
    ensures !e.InFlight(p) && !e.InFlight(q) ==>
      && (e.Good() <==> |e.accepted| < before + 2)
      && (e.popped <= |e.accepted| && e.accepted == e.accepted[..e.popped] + e.ring.Queue()
          <==> |e.accepted| < before + 2)
  {
    assert |e.ring.Queue()| == e.ring.Unread();
    if e.Good() { e.SaneView(); }
    if !e.InFlight(p) && !e.InFlight(q) {
      assert forall r: nat :: !e.InFlight(r);
      assert !Committed(e, p) && !Committed(e, q);
    }
  }

  /** A push that starts while another is in progress, with no third starting: at any time, no item
      is lost exactly when not both have returned 0; once both pushes are over, the popped items and
      the unread ones are the accepted ones in order exactly then, and the state is exactly then as
      good as after a serialised run. */
  lemma OverlapIsFifoExactlyWhen<T>(s: State<T>, p: nat, q: nat, item: T, steps: seq<Action<T>>)
    requires s.Good() && s.InFlight(p) && q < |s.pushers| && !s.InFlight(q)
    requires forall a | a in steps :: !a.StartPush?
    ensures var e := s.Step(StartPush(q, item)).After(steps);
      && (e.popped + |e.ring.Queue()| == |e.accepted| <==> |e.accepted| < |s.accepted| + 2)
      && (|e.accepted| == |s.accepted| + 2 ==> e.popped + |e.ring.Queue()| == |e.accepted| - 1)
      && (!e.InFlight(p) && !e.InFlight(q) ==>
           && (e.Good() <==> |e.accepted| < |s.accepted| + 2)
           && (e.popped <= |e.accepted| && e.accepted == e.accepted[..e.popped] + e.ring.Queue()
               <==> |e.accepted| < |s.accepted| + 2))
  {
    hide BothClaim, SoleClaim, State.Good, State.Step, Ring.Queue;
    s.GoodRing();
    ClaimsStart(s, p, q, item);
    var w := s.ring.writePos;
    var t := s.Step(StartPush(q, item));
    ClaimsRing(t, p, q, w, |s.accepted|);
    RunKeepsClaims(t, p, q, w, |s.accepted|, steps);
    ClaimsEnd(t.After(steps), p, q, w, |s.accepted|);
  }

  /** A concrete overlap in a new ring: both pushes return 0, and the first item is overwritten. */
  lemma OverlapOverwrites<T>(s: State<T>, p: nat, q: nat, a: T, b: T)
    requires Initial(s) && p < |s.pushers| && q < |s.pushers| && p != q
    ensures var t := s.Step(StartPush(p, a)).Step(StartPush(q, b));
      var u := t.PushStep(p).PushStep(p).PushStep(p).PushStep(p);
      var e := u.PushStep(q).PushStep(q).PushStep(q).PushStep(q);
      e.accepted == [a, b] && e.ring.Queue() == [b]
  {
    var t := s.Step(StartPush(p, a)).Step(StartPush(q, b));
    var u := t.PushStep(p).PushStep(p).PushStep(p).PushStep(p);
    assert u.accepted == [a] && u.ring.writePos == Around(1, 1, |s.ring.data|) && u.pushers[q] == HaveWp(b, 1);
    var e := u.PushStep(q).PushStep(q).PushStep(q).PushStep(q);
    assert e.accepted == [a, b] && e.ring.data[1] == b && e.ring.Unread() == 1;
  }
}
