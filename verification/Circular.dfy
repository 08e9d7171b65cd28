/**
 core/circular.hxx: a ring with a read cursor moved by the consumer and a write cursor moved by
 producers. The slot under the read cursor is never unread; the unread ones start after it.
 */
module Circular {
  import opened Common

  datatype Ring<T> = Ring(data: seq<T>, readPos: nat, writePos: nat) {

    ghost predicate Valid() {
      |data| >= 2 && readPos < |data| && writePos < |data|
    }

    /** How many elements the cursors say are unread: (writePos - readPos - 1) mod capacity. */
    ghost function Unread(): (n: nat)
      requires Valid()
      ensures n < |data| && Around(readPos, n + 1, |data|) == writePos
    {
      if readPos < writePos then writePos - readPos - 1 else writePos + |data| - readPos - 1
    }

    ghost function Queue(): (q: seq<T>)
      requires Valid()
      ensures |q| == Unread()
      ensures forall t: nat | t < |q| :: q[t] == data[Around(readPos, t + 1, |data|)]
    {
      seq(Unread(), t requires 0 <= t < Unread() => data[Around(readPos, t + 1, |data|)])
    }

    ghost function Pushed(item: T): Ring<T>
      requires Valid()
    {
      if writePos == readPos then this
      else this.(data := data[writePos := item], writePos := Around(writePos, 1, |data|))
    }

    ghost function Popped(): Ring<T>
      requires Valid()
    {
      this.(readPos := Around(readPos, 1, |data|))
    }

    /** A write at the write cursor of a ring that is not full touches neither an unread slot
        nor the slot under the read cursor. */
    lemma WriteMissesUnread(item: T)
      requires Valid() && writePos != readPos
      ensures this.(data := data[writePos := item]).Queue() == Queue()
      ensures data[writePos := item][readPos] == data[readPos]
    {
    }

    lemma PushedQueue(item: T)
      requires Valid()
      ensures writePos == readPos <==> Unread() == |data| - 1
      ensures Pushed(item).Valid() && Pushed(item).data[readPos] == data[readPos]
      ensures Pushed(item).Queue() == if Unread() == |data| - 1 then Queue() else Queue() + [item]
    {
      if writePos != readPos {
        var r := Pushed(item);
        assert r.Unread() == Unread() + 1;
        assert r.Queue()[..Unread()] == Queue();
        assert r.Queue()[Unread()] == item;
        assert r.Queue() == r.Queue()[..Unread()] + [item];
      }
    }

    /** Popping an empty ring turns it into a full one. */
    lemma PoppedQueue()
      requires Valid()
      ensures Popped().Valid()
      ensures Unread() > 0 ==> Popped().Queue() == Queue()[1..] && Popped().data[Popped().readPos] == Queue()[0]
      ensures Unread() == 0 ==> Popped().Unread() == |data| - 1
    {
    }
  }

  /** One thread at a time: each method is a whole call. */
  class BusMpSc<T(0)> {
    const capacity: nat
    const data: array<T>
    var readPos: nat
    var writePos: nat

    ghost function Snapshot(): Ring<T>
      reads this, data
    {
      Ring(data[..], readPos, writePos)
    }

    ghost predicate Valid()
      reads this, data
    {
      data.Length == capacity && Snapshot().Valid()
    }

    constructor (capacity: nat)
      requires capacity >= 2
      ensures this.capacity == capacity && Valid() && fresh(data) && Snapshot().Queue() == []
    {
      this.capacity, readPos, writePos := capacity, 0, 1;
      data := new T[capacity];
    }

    method Push(given: T) returns (r: int)
      requires Valid()
      modifies `writePos, data
      ensures Valid() && Snapshot() == old(Snapshot().Pushed(given))
      ensures r == if |old(Snapshot().Queue())| == capacity - 1 then -1 else 0
      ensures Snapshot().Queue() == old(Snapshot().Queue()) + if r == 0 then [given] else []
    {
      hide Ring.Queue, Ring.Unread;
      ghost var ring := Snapshot();
      ring.PushedQueue(given);
      var wp := writePos;
      var rp := readPos;
      if wp == rp {
        return -1;
      }
      AroundIsModulo(wp, 1, capacity);
      data[wp] := given;
      writePos := (wp + 1) % capacity;
      assert Snapshot() == ring.Pushed(given);
      return 0;
    }

    method PopFront()
      requires Valid()
      modifies `readPos
      ensures Valid() && Snapshot() == old(Snapshot().Popped())
      ensures old(Snapshot().Queue()) != [] ==>
        Snapshot().Queue() == old(Snapshot().Queue())[1..] && data[readPos] == old(Snapshot().Queue())[0]
      ensures old(Snapshot().Queue()) == [] ==> |Snapshot().Queue()| == capacity - 1
    {
      Snapshot().PoppedQueue();
      AroundIsModulo(readPos, 1, capacity);
      var rp := readPos;
      readPos := (rp + 1) % capacity;
    }

    method Empty() returns (r: bool)
      requires Valid()
      ensures r <==> Snapshot().Queue() == []
    {
      var wp := writePos;
      var rp := readPos;
      AroundIsModulo(rp, 1, capacity);
      r := (rp + 1) % capacity == wp;
    }

    /** Reads the slot under the read cursor: the element popped last, not the next unread one. */
    method Front() returns (x: T)
      requires Valid()
      ensures x == data[readPos]
    {
      var rp := readPos;
      x := data[rp];
    }

    /** The newest unread element; on an empty ring, what `Front` reads. */
    method Back() returns (x: T)
      requires Valid()
      ensures var q := Snapshot().Queue(); x == if q == [] then data[readPos] else q[|q| - 1]
    {
      var wp := writePos;
      ghost var q := Snapshot().Queue();
      AroundIsModulo(wp, capacity - 1, capacity);
      x := data[(wp + capacity - 1) % capacity];
      assert Around(wp, capacity - 1, capacity) == Around(readPos, |q|, capacity);
    }
  }
}
