/**
 aroop_autobuf of core/buffer.hxx: handles that share a reference-counted object, and raw
 references that are moved in and out of them.
 */
module Autobuf {
  import opened Common

  /** A counted object: its count, how often it has been deallocated, and how often it was
      touched after that. */
  datatype Cell = Cell(refcnt: int, frees: nat, late: nat) {

    function Touched(): Cell {
      if frees > 0 then this.(late := late + 1) else this
    }

    function Gained(): Cell {
      Touched().(refcnt := refcnt + 1)
    }

    /** `rte_pktmbuf_free`, which is also what `clear` deallocates with: gives up one reference. The
        last one is not counted down, but left at one for the next owner of the memory. */
    function Freed(): Cell {
      if refcnt == 1 then Touched().(frees := frees + 1) else Touched().(refcnt := refcnt - 1)
    }

    /** `clear`: deallocates on a count of one, and only then decrements. */
    function Cleared(): Cell {
      var c := if refcnt == 1 then Freed() else this;
      c.Touched().(refcnt := c.refcnt - 1)
    }
  }

  class Buf {
    const id: nat
    var refcnt: int
    var frees: nat
    var late: nat

    /** An object that the program holds one reference to, as a driver hands out packets. */
    constructor (id: nat)
      ensures this.id == id && Value() == Cell(1, 0, 0)
    {
      this.id, refcnt, frees, late := id, 1, 0, 0;
    }

    function Value(): Cell
      reads this
    {
      Cell(refcnt, frees, late)
    }

    method Set(c: Cell)
      modifies this
      ensures Value() == c
    {
      refcnt, frees, late := c.refcnt, c.frees, c.late;
    }
  }

  class Handle {
    var data: Buf?

    constructor ()
      ensures data == null
    {
      data := null;
    }

    method Clear()
      modifies this, data
      ensures data == null
      ensures old(data) != null ==> old(data).Value() == old(data.Value()).Cleared()
    {
      if data != null {
        data.Set(data.Value().Cleared());
        data := null;
      }
    }

    method Reset(given: Buf?)
      modifies this, data, given
      ensures data == given
      ensures given == old(data) ==> given == null || given.Value() == old(given.Value())
      ensures given != old(data) && old(data) != null ==> old(data).Value() == old(data.Value()).Cleared()
      ensures given != old(data) && given != null ==> given.Value() == old(given.Value()).Gained()
    {
      if given == data {
        return;
      }
      Clear();
      if given != null {
        data := given;
        data.Set(data.Value().Gained());
      }
    }

    /** Takes over a reference that the caller holds. */
    method OwnWithoutIncrement(given: Buf?)
      modifies this, data
      ensures data == given
      ensures old(data) != null ==> old(data).Value() == old(data.Value()).Cleared()
    {
      Clear();
      data := given;
    }

    method MoveFrom(given: Handle)
      modifies this, data, given
      ensures data == old(given.data) && (given != this ==> given.data == null)
      ensures given != this && old(data) != null ==> old(data).Value() == old(data.Value()).Cleared()
      ensures given == this && data != null ==> data.Value() == old(data.Value())
    {
      if given == this {
        return;
      }
      Clear();
      data := given.data;
      given.data := null;
    }

    /** Hands the handle's reference to the caller. */
    method Release() returns (output: Buf?)
      modifies this
      ensures output == old(data) && data == null
    {
      output := data;
      data := null;
    }
  }

  // ---- sequences of operations ----

  /** The objects by number, what each handle holds, and how many references to each object are
      held outside handles. */
  datatype Ledger = Ledger(cells: map<nat, Cell>, handles: seq<Option<nat>>, raws: map<nat, nat>) {

    ghost function OwnersOf(x: nat): set<nat> {
      set h: nat | h < |handles| && handles[h] == Some(x)
    }

    ghost function References(x: nat): nat
      requires x in raws
    {
      |OwnersOf(x)| + raws[x]
    }

    /** The count is the number of references while there are any; the object is deallocated once,
        when there are none. */
    ghost predicate Balanced(x: nat) {
      x in cells && x in raws
      && (References(x) > 0 ==> cells[x].refcnt == References(x))
      && cells[x].frees == (if References(x) == 0 then 1 else 0)
    }

    ghost predicate Sound() {
      && (forall h: nat | h < |handles| && handles[h].Some? :: handles[h].value in cells)
      && (forall x | x in cells :: Balanced(x))
    }

    /** What a program may do: handles in range, live objects, raw references it has. */
    ghost predicate Allowed(op: Operation) {
      match op
      case Clear(h) => h < |handles|
      case Release(h) => h < |handles|
      case Reset(h, given) =>
        h < |handles| && (given.Some? ==> given.value in cells && cells[given.value].frees == 0)
      case Own(h, x) => h < |handles| && x in raws && raws[x] > 0
      case Move(h, g) => h < |handles| && g < |handles|
      case FreeRaw(x) => x in raws && raws[x] > 0
    }

    /** Handle `h` lets go of what it holds. */
    ghost function Let(h: nat): Ledger
      requires h < |handles|
    {
      match handles[h]
      case None => this
      case Some(x) =>
        if x in cells then
          this.(cells := cells[x := cells[x].Cleared()], handles := handles[h := None])
        else this
    }

    ghost function Do(op: Operation): Ledger
      requires Allowed(op)
    {
      match op
      case Clear(h) => Let(h)
      case Release(h) =>
        if handles[h].Some? && handles[h].value in raws then
          var x := handles[h].value;
          this.(handles := handles[h := None], raws := raws[x := raws[x] + 1])
        else this
      case Reset(h, given) =>
        if handles[h] == given then this
        else
          var l := Let(h);
          if given.None? || given.value !in l.cells then l
          else
            var x := given.value;
            l.(handles := l.handles[h := given], cells := l.cells[x := l.cells[x].Gained()])
      case Own(h, x) =>
        var l := Let(h);
        l.(handles := l.handles[h := Some(x)], raws := raws[x := raws[x] - 1])
      case Move(h, g) =>
        if h == g then this
        else
          var l := Let(h);
          l.(handles := l.handles[h := handles[g]][g := None])
      case FreeRaw(x) =>
        if x in cells then
          this.(cells := cells[x := cells[x].Freed()], raws := raws[x := raws[x] - 1])
        else this
    }

    // ---- every operation keeps the balance ----

    lemma OwnersAfter(h: nat, v: Option<nat>, y: nat)
      requires h < |handles|
      ensures |this.(handles := handles[h := v]).OwnersOf(y)| + (if handles[h] == Some(y) then 1 else 0)
           == |OwnersOf(y)| + (if v == Some(y) then 1 else 0)
    {
      var after := this.(handles := handles[h := v]).OwnersOf(y);
      assert after - {h} == OwnersOf(y) - {h};
      SizeWithout(OwnersOf(y), h);
      SizeWithout(after, h);
    }

    /** A handle that holds an object keeps it alive. */
    lemma HeldIsLive(h: nat)
      requires Sound() && h < |handles| && handles[h].Some?
      ensures cells[handles[h].value].frees == 0 && cells[handles[h].value].refcnt > 0
    {
      var x := handles[h].value;
      assert Balanced(x) && h in OwnersOf(x);
    }

    lemma LetSound(h: nat)
      requires Sound() && h < |handles|
      ensures Let(h).Sound() && Let(h).handles == handles[h := None] && Let(h).raws == raws
      ensures Let(h).cells.Keys == cells.Keys
      ensures forall x | x in cells && handles[h] != Some(x) :: Let(h).cells[x] == cells[x]
    {
      if handles[h].Some? {
        HeldIsLive(h);
        forall y | y in cells ensures Let(h).Balanced(y) {
          assert Balanced(y);
          OwnersAfter(h, None, y);
          assert Let(h).OwnersOf(y) == this.(handles := handles[h := None]).OwnersOf(y);
        }
      } else {
        assert handles[h := None] == handles;
      }
    }

    lemma GainSound(h: nat, x: nat)
      requires Sound() && h < |handles| && handles[h].None? && x in cells && cells[x].frees == 0
      ensures this.(handles := handles[h := Some(x)], cells := cells[x := cells[x].Gained()]).Sound()
    {
      var l := this.(handles := handles[h := Some(x)], cells := cells[x := cells[x].Gained()]);
      forall y | y in l.cells ensures l.Balanced(y) {
        assert Balanced(y);
        OwnersAfter(h, Some(x), y);
        assert l.OwnersOf(y) == this.(handles := handles[h := Some(x)]).OwnersOf(y);
      }
    }

    /** A reference changes hands between a handle and the outside; the count stays. */
    lemma TransferSound(h: nat, v: Option<nat>, x: nat, raw: nat)
      requires Sound() && h < |handles| && x in cells
      requires handles[h] == None || handles[h] == Some(x)
      requires v == None || v == Some(x)
      requires raw + (if v == Some(x) then 1 else 0) == raws[x] + (if handles[h] == Some(x) then 1 else 0)
      ensures this.(handles := handles[h := v], raws := raws[x := raw]).Sound()
    {
      var l := this.(handles := handles[h := v], raws := raws[x := raw]);
      forall y | y in l.cells ensures l.Balanced(y) {
        assert Balanced(y);
        OwnersAfter(h, v, y);
        assert l.OwnersOf(y) == this.(handles := handles[h := v]).OwnersOf(y);
      }
    }

    lemma MoveSound(h: nat, g: nat)
      requires Sound() && h < |handles| && g < |handles| && h != g && handles[h].None?
      ensures this.(handles := handles[h := handles[g]][g := None]).Sound()
    {
      var a := this.(handles := handles[h := handles[g]]);
      var l := a.(handles := a.handles[g := None]);
      forall y | y in l.cells ensures l.Balanced(y) {
        assert Balanced(y);
        OwnersAfter(h, handles[g], y);
        a.OwnersAfter(g, None, y);
      }
    }

    lemma FreeRawSound(x: nat)
      requires Sound() && x in cells && raws[x] > 0
      ensures this.(cells := cells[x := cells[x].Freed()], raws := raws[x := raws[x] - 1]).Sound()
    {
      var l := this.(cells := cells[x := cells[x].Freed()], raws := raws[x := raws[x] - 1]);
      forall y | y in l.cells ensures l.Balanced(y) {
        assert Balanced(y);
        assert l.OwnersOf(y) == OwnersOf(y);
      }
    }

    /** The objects that raw references are counted for are the objects there are. */
    ghost predicate Closed() {
      Sound() && raws.Keys == cells.Keys
    }

    lemma DoKeepsClosed(op: Operation)
      requires Closed() && Allowed(op)
      ensures Do(op).Closed() && |Do(op).handles| == |handles|
    {
      hide Ledger.Balanced, Ledger.Let, Ledger.OwnersOf;
      match op
      case Clear(h) => LetSound(h);
      case Release(h) =>
        if handles[h].Some? {
          var x := handles[h].value;
          TransferSound(h, None, x, raws[x] + 1);
        }
      case Reset(h, given) =>
        LetSound(h);
        if handles[h] != given && given.Some? {
          Let(h).GainSound(h, given.value);
        }
      case Own(h, x) =>
        LetSound(h);
        Let(h).TransferSound(h, Some(x), x, raws[x] - 1);
      case Move(h, g) =>
        LetSound(h);
        if h != g {
          Let(h).MoveSound(h, g);
        }
      case FreeRaw(x) => FreeRawSound(x);
    }

    /** Who holds a reference after an operation, where DoKeepsClosed says that the counts follow. */
    lemma DoMovesReferences(op: Operation)
      requires Closed() && Allowed(op)
      ensures Do(op).handles == match op
        case Clear(h) => handles[h := None]
        case Release(h) => handles[h := None]
        case Reset(h, given) => handles[h := given]
        case Own(h, x) => handles[h := Some(x)]
        case Move(h, g) => if h == g then handles else handles[h := handles[g]][g := None]
        case FreeRaw(_) => handles
      ensures Do(op).raws == match op
        case Release(h) => if handles[h].Some? then raws[handles[h].value := raws[handles[h].value] + 1] else raws
        case Own(_, x) => raws[x := raws[x] - 1]
        case FreeRaw(x) => raws[x := raws[x] - 1]
        case _ => raws
    {
      hide Ledger.Balanced, Ledger.OwnersOf;
      match op
      case Clear(h) => LetSound(h);
      case Release(h) => assert handles[h].None? ==> handles[h := None] == handles;
      case Reset(h, given) =>
        LetSound(h);
        assert handles[h] == given ==> handles[h := given] == handles;
        assert handles[h := None][h := given] == handles[h := given];
      case Own(h, x) =>
        LetSound(h);
        assert handles[h := None][h := Some(x)] == handles[h := Some(x)];
      case Move(h, g) =>
        LetSound(h);
        assert h != g ==> handles[h := None][h := handles[g]] == handles[h := handles[g]];
      case FreeRaw(x) =>
    }

    ghost predicate AllowedRun(ops: seq<Operation>)
      decreases |ops|
    {
      ops == [] || (Allowed(ops[0]) && Do(ops[0]).AllowedRun(ops[1..]))
    }

    ghost function Run(ops: seq<Operation>): Ledger
      requires AllowedRun(ops)
      decreases |ops|
    {
      if ops == [] then this else Do(ops[0]).Run(ops[1..])
    }

    /** Over any sequence of operations every count equals the number of references, in handles and
        outside, and every object is deallocated exactly when the last of them goes, once. */
    lemma {:induction false} RunKeepsBalance(ops: seq<Operation>)
      requires Closed() && AllowedRun(ops)
      ensures Run(ops).Closed()
      decreases |ops|
    {
      if ops != [] {
        DoKeepsClosed(ops[0]);
        Do(ops[0]).RunKeepsBalance(ops[1..]);
      }
    }
  }

  datatype Operation =
    | Clear(h: nat)
    | Release(h: nat)
    | Reset(h: nat, given: Option<nat>)
    | Own(h: nat, x: nat)
    | Move(h: nat, g: nat)
    | FreeRaw(x: nat)

  // ---- the ledger is what the handles and objects hold ----

  ghost predicate Proper(bufs: seq<Buf>, handles: seq<Handle>)
    reads handles
  {
    && (forall x: nat | x < |bufs| :: bufs[x].id == x)
    && (forall h: nat, g: nat | h < |handles| && g < |handles| && handles[h] == handles[g] :: h == g)
    && (forall h: nat | h < |handles| && handles[h].data != null ::
          handles[h].data.id < |bufs| && bufs[handles[h].data.id] == handles[h].data)
  }

  ghost function LedgerOf(bufs: seq<Buf>, handles: seq<Handle>, raws: map<nat, nat>): Ledger
    reads bufs, handles
  {
    Ledger(map x: nat | x < |bufs| :: bufs[x].Value(),
           seq(|handles|, h requires 0 <= h < |handles| reads handles =>
             if handles[h].data == null then None else Some(handles[h].data.id)),
           raws)
  }

  ghost predicate Ready(bufs: seq<Buf>, handles: seq<Handle>, raws: map<nat, nat>, op: Operation)
    reads bufs, handles
  {
    && Proper(bufs, handles) && LedgerOf(bufs, handles, raws).Closed()
    && LedgerOf(bufs, handles, raws).Allowed(op)
  }

  ghost predicate Executed(bufs: seq<Buf>, handles: seq<Handle>, before: Ledger, raws: map<nat, nat>, op: Operation)
    requires before.Allowed(op)
    reads bufs, handles
  {
    Proper(bufs, handles) && LedgerOf(bufs, handles, raws) == before.Do(op)
  }

  method ExecuteClear(bufs: seq<Buf>, handles: seq<Handle>, ghost raws: map<nat, nat>, op: Operation)
    requires Ready(bufs, handles, raws, op) && op.Clear?
    modifies bufs, handles
    ensures Executed(bufs, handles, old(LedgerOf(bufs, handles, raws)), raws, op)
  {
    hide Ledger.Sound, Ledger.Balanced, Cell.Cleared, Cell.Gained, Cell.Freed;
    ghost var l := LedgerOf(bufs, handles, raws).Do(op);
    handles[op.h].Clear();
    assert LedgerOf(bufs, handles, raws).cells == l.cells;
    assert LedgerOf(bufs, handles, raws).handles == l.handles;
  }

  method ExecuteReset(bufs: seq<Buf>, handles: seq<Handle>, ghost raws: map<nat, nat>, op: Operation)
    requires Ready(bufs, handles, raws, op) && op.Reset?
    modifies bufs, handles
    ensures Executed(bufs, handles, old(LedgerOf(bufs, handles, raws)), raws, op)
  {
    hide Ledger.Closed, Ledger.Balanced, Cell.Cleared, Cell.Gained, Cell.Freed;
    ghost var l := LedgerOf(bufs, handles, raws).Do(op);
    if op.given.None? {
      handles[op.h].Reset(null);
    } else {
      handles[op.h].Reset(bufs[op.given.value]);
    }
    assert LedgerOf(bufs, handles, raws).cells == l.cells;
    assert LedgerOf(bufs, handles, raws).handles == l.handles;
  }

  method ExecuteOwn(bufs: seq<Buf>, handles: seq<Handle>, ghost raws: map<nat, nat>, op: Operation)
    returns (ghost raws': map<nat, nat>)
    requires Ready(bufs, handles, raws, op) && op.Own?
    modifies bufs, handles
    ensures Executed(bufs, handles, old(LedgerOf(bufs, handles, raws)), raws', op)
  {
    hide Ledger.Sound, Ledger.Balanced, Cell.Cleared, Cell.Gained, Cell.Freed;
    ghost var l := LedgerOf(bufs, handles, raws).Do(op);
    handles[op.h].OwnWithoutIncrement(bufs[op.x]);
    raws' := raws[op.x := raws[op.x] - 1];
    assert LedgerOf(bufs, handles, raws').cells == l.cells;
    assert LedgerOf(bufs, handles, raws').handles == l.handles;
  }

  method ExecuteMove(bufs: seq<Buf>, handles: seq<Handle>, ghost raws: map<nat, nat>, op: Operation)
    requires Ready(bufs, handles, raws, op) && op.Move?
    modifies bufs, handles
    ensures Executed(bufs, handles, old(LedgerOf(bufs, handles, raws)), raws, op)
  {
    hide Ledger.Closed, Ledger.Balanced, Cell.Cleared, Cell.Gained, Cell.Freed;
    ghost var l := LedgerOf(bufs, handles, raws).Do(op);
    handles[op.h].MoveFrom(handles[op.g]);
    assert LedgerOf(bufs, handles, raws).cells == l.cells;
    assert LedgerOf(bufs, handles, raws).handles == l.handles;
  }

  method ExecuteRelease(bufs: seq<Buf>, handles: seq<Handle>, ghost raws: map<nat, nat>, op: Operation)
    returns (ghost raws': map<nat, nat>)
    requires Ready(bufs, handles, raws, op) && op.Release?
    modifies bufs, handles
    ensures Executed(bufs, handles, old(LedgerOf(bufs, handles, raws)), raws', op)
  {
    hide Ledger.Sound, Ledger.Balanced, Cell.Cleared, Cell.Gained, Cell.Freed;
    ghost var l := LedgerOf(bufs, handles, raws).Do(op);
    var x := handles[op.h].Release();
    raws' := if x == null then raws else raws[x.id := raws[x.id] + 1];
    assert LedgerOf(bufs, handles, raws').cells == l.cells;
    assert LedgerOf(bufs, handles, raws').handles == l.handles;
  }

  method ExecuteFreeRaw(bufs: seq<Buf>, handles: seq<Handle>, ghost raws: map<nat, nat>, op: Operation)
    returns (ghost raws': map<nat, nat>)
    requires Ready(bufs, handles, raws, op) && op.FreeRaw?
    modifies bufs, handles
    ensures Executed(bufs, handles, old(LedgerOf(bufs, handles, raws)), raws', op)
  {
    hide Ledger.Sound, Ledger.Balanced, Cell.Cleared, Cell.Gained, Cell.Freed;
    ghost var l := LedgerOf(bufs, handles, raws).Do(op);
    bufs[op.x].Set(bufs[op.x].Value().Freed());
    raws' := raws[op.x := raws[op.x] - 1];
    assert LedgerOf(bufs, handles, raws').cells == l.cells;
    assert LedgerOf(bufs, handles, raws').handles == l.handles;
  }

  /** Each operation on real handles and objects is that operation on the ledger. */
  method Execute(bufs: seq<Buf>, handles: seq<Handle>, ghost raws: map<nat, nat>, op: Operation)
    returns (ghost raws': map<nat, nat>)
    requires Ready(bufs, handles, raws, op)
    modifies bufs, handles
    ensures Executed(bufs, handles, old(LedgerOf(bufs, handles, raws)), raws', op)
  {
    hide LedgerOf, Proper, Ledger.Do;
    raws' := raws;
    match op {
      case Clear(h) => ExecuteClear(bufs, handles, raws, op);
      case Reset(h, given) => ExecuteReset(bufs, handles, raws, op);
      case Move(h, g) => ExecuteMove(bufs, handles, raws, op);
      case Own(h, x) => raws' := ExecuteOwn(bufs, handles, raws, op);
      case Release(h) => raws' := ExecuteRelease(bufs, handles, raws, op);
      case FreeRaw(x) => raws' := ExecuteFreeRaw(bufs, handles, raws, op);
    }
  }

  /** `clear` and `rte_pktmbuf_free` agree on a shared object. On the last reference both deallocate,
      but `clear` goes on to write to the object it has given away, and takes its count from one,
      where `rte_pktmbuf_free` leaves it, to zero. */
  lemma ClearTouchesFreedObject(c: Cell)
    requires c.frees == 0 && c.refcnt > 0
    ensures c.Cleared() == c.Freed() <==> c.refcnt > 1
    ensures c.Cleared().frees == c.Freed().frees
    ensures c.Cleared().late > c.late <==> c.refcnt == 1
    ensures c.Freed().late == c.late
    ensures c.refcnt == 1 ==> c.Cleared().refcnt == 0 && c.Freed().refcnt == 1
  {
  }
}
