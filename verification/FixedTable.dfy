/**
 core/fixedtable.hxx: a fixed-capacity open-addressing hash table. A lookup walks the slots
 circularly from the key's home and does not stop at a hole: it stops after it has passed as
 many entries of that home as the home's counter `numInserted` records. Erasing therefore
 leaves no tombstones.
 */
module FixedTable {
  import opened Common

  datatype Entry<V> = Entry(key: uint64, value: V)

  datatype Slot<V> = Slot(numInserted: nat, content: Option<Entry<V>>)

  /** How many steps after `pos` slot `q` is met: the inverse of `Around`. */
  function Distance(pos: nat, q: nat, n: nat): (i: nat)
    requires pos < n && q < n
    ensures i < n && Around(pos, i, n) == q
  {
    if pos <= q then q - pos else q + n - pos
  }

  ghost function Range(n: nat): (s: set<nat>)
    ensures |s| == n
    ensures forall q: nat :: q in s <==> q < n
  {
    if n == 0 then {} else Range(n - 1) + {n - 1}
  }

  /** The home slot: the product wraps at 64 bits before the capacity reduces it. */
  function CalcPos(key: uint64, prime: nat, capacity: nat): (pos: nat)
    requires capacity > 0
    ensures pos < capacity
  {
    ((key * prime) % U64) % capacity
  }

  /** What a table holds, as a value: the state of a FixedDict between two calls. */
  datatype Table<V> = Table(data: seq<Slot<V>>, cnt: nat, prime: nat) {

    function Home(key: uint64): (pos: nat)
      requires |data| > 0
      ensures pos < |data|
    {
      CalcPos(key, prime, |data|)
    }

    ghost predicate Holds(q: nat, key: uint64) {
      q < |data| && data[q].content.Some? && data[q].content.value.key == key
    }

    ghost predicate Occupied(q: nat) {
      q < |data| && data[q].content.Some?
    }

    /** Slot `q` holds an entry whose home is `p`. */
    ghost predicate Houses(q: nat, p: nat) {
      Occupied(q) && Home(data[q].content.value.key) == p
    }

    ghost function OccupiedSlots(): set<nat> {
      set q: nat | q < |data| && Occupied(q)
    }

    ghost function HousedBy(p: nat): set<nat> {
      set q: nat | q < |data| && Houses(q, p)
    }

    /** The part of `HousedBy(p)` met in the first `i` steps of a walk from `p`. */
    ghost function Passed(p: nat, i: nat): set<nat>
      requires p < |data|
    {
      set q: nat | q < |data| && Houses(q, p) && Distance(p, q, |data|) < i
    }

    ghost predicate CounterExact(p: nat) {
      p < |data| ==> data[p].numInserted == |HousedBy(p)|
    }

    ghost predicate KeysDistinct() {
      forall q, q', k | Holds(q, k) && Holds(q', k) :: q == q'
    }

    ghost predicate Valid() {
      && |data| > 0
      && cnt == |OccupiedSlots()|
      && (forall p :: CounterExact(p))
      && KeysDistinct()
    }

    ghost predicate Has(key: uint64) {
      exists q :: Holds(q, key)
    }

    /** The answer of a search that looks at every slot. */
    ghost function SlotOf(key: uint64): (r: Option<nat>)
      ensures r.Some? <==> Has(key)
      ensures r.Some? ==> Holds(r.value, key)
    {
      if Has(key) then
        var q :| Holds(q, key); Some(q)
      else
        None
    }

    ghost function Keys(): (s: set<uint64>)
      ensures forall k :: k in s <==> Has(k)
    {
      var s := set q | q in OccupiedSlots() :: data[q].content.value.key;
      assert forall q | q in OccupiedSlots() :: Holds(q, data[q].content.value.key);
      assert forall q, k | Holds(q, k) :: q in OccupiedSlots() && k in s;
      s
    }

    /** The finite map a table stands for. */
    ghost function Map(): map<uint64, V> {
      map k | k in Keys() :: data[SlotOf(k).value].content.value.value
    }

    /** The number of steps from `pos`, at least `i`, to the first hole; |data| if there is none. */
    ghost function HoleFrom(pos: nat, i: nat): (r: nat)
      requires pos < |data| && i <= |data|
      ensures i <= r <= |data|
      ensures r < |data| ==> !Occupied(Around(pos, r, |data|))
      ensures forall t | i <= t < r :: Occupied(Around(pos, t, |data|))
      decreases |data| - i
    {
      if i == |data| then i
      else if data[Around(pos, i, |data|)].content.None? then i
      else HoleFrom(pos, i + 1)
    }

    ghost function Put(q: nat, e: Entry<V>): Table<V>
      requires q < |data|
    {
      this.(data := data[q := data[q].(content := Some(e))])
    }

    ghost function Cleared(q: nat): Table<V>
      requires q < |data|
    {
      this.(data := data[q := data[q].(content := None)])
    }

    /** The table after the counter of home `p` and the total moved by `d`. */
    ghost function Counted(p: nat, d: int): Table<V>
      requires p < |data|
      requires data[p].numInserted + d >= 0 && cnt + d >= 0
    {
      this.(data := data[p := data[p].(numInserted := data[p].numInserted + d)], cnt := cnt + d)
    }

    ghost function Emplaced(key: uint64, value: V): Table<V>
      requires |data| > 0
    {
      if cnt >= |data| then this
      else if Has(key) then Put(SlotOf(key).value, Entry(key, value))
      else
        var i := HoleFrom(Home(key), 0);
        if i == |data| then this
        else Put(Around(Home(key), i, |data|), Entry(key, value)).Counted(Home(key), 1)
    }

    ghost function Erased(key: uint64): Table<V>
      requires Valid()
    {
      if Has(key) then
        HousedCount(SlotOf(key).value);
        Cleared(SlotOf(key).value).Counted(Home(key), -1)
      else this
    }

    /** An entry is counted at its home and in the total. */
    lemma HousedCount(q: nat)
      requires Valid() && Occupied(q)
      ensures cnt > 0 && data[Home(data[q].content.value.key)].numInserted > 0
    {
      var p := Home(data[q].content.value.key);
      assert q in OccupiedSlots();
      assert q in HousedBy(p) && CounterExact(p);
    }

    lemma SlotIsUnique(q: nat, key: uint64)
      requires KeysDistinct() && Holds(q, key)
      ensures SlotOf(key) == Some(q)
    {
      assert Holds(SlotOf(key).value, key);
    }

    // ---- the counted walk ----

    lemma PassedStep(p: nat, i: nat)
      requires p < |data| && i < |data|
      ensures var q := Around(p, i, |data|);
        Passed(p, i + 1) == if Houses(q, p) then Passed(p, i) + {q} else Passed(p, i)
      ensures |Passed(p, i + 1)| == |Passed(p, i)| + if Houses(Around(p, i, |data|), p) then 1 else 0
    {
      var q := Around(p, i, |data|);
      assert Distance(p, q, |data|) == i;
      forall q' | q' in Passed(p, i + 1) && q' !in Passed(p, i) ensures q' == q {
        assert Distance(p, q', |data|) == i;
      }
      assert q !in Passed(p, i);
    }

    /** Once a walk has passed as many entries of its home as there are, none lies ahead. */
    lemma NothingAhead(p: nat, i: nat, q: nat)
      requires p < |data| && i <= |data| && Houses(q, p)
      requires i == |data| || |Passed(p, i)| >= |HousedBy(p)|
      ensures Distance(p, q, |data|) < i
    {
      var rest := HousedBy(p) - Passed(p, i);
      assert HousedBy(p) == Passed(p, i) + rest;
      assert q in HousedBy(p);
      if i < |data| { assert |rest| == 0; }
    }

    lemma NoHoleMeansFull(p: nat)
      requires p < |data| && HoleFrom(p, 0) == |data|
      ensures |OccupiedSlots()| == |data|
    {
      hide CalcPos;
      forall q | q in Range(|data|) ensures q in OccupiedSlots() {
        assert Occupied(Around(p, Distance(p, q, |data|), |data|));
      }
      assert OccupiedSlots() == Range(|data|);
    }

    /** Pigeonhole: below capacity, a circular walk from anywhere meets a hole. */
    lemma HoleExists(p: nat)
      requires Valid() && p < |data| && cnt < |data|
      ensures HoleFrom(p, 0) < |data|
    {
      if HoleFrom(p, 0) == |data| { NoHoleMeansFull(p); }
    }

    // ---- what one update does to the occupied slots and to the homes ----

    ghost predicate AgreesOff(u: Table<V>, q: nat) {
      && |u.data| == |data| && u.prime == prime && q < |data|
      && forall s: nat | s < |data| && s != q :: u.data[s].content == data[s].content
    }

    lemma HousedAfter(u: Table<V>, q: nat, p: nat)
      requires AgreesOff(u, q)
      ensures |u.HousedBy(p)| + (if Houses(q, p) then 1 else 0)
           == |HousedBy(p)| + (if u.Houses(q, p) then 1 else 0)
    {
      hide CalcPos;
      var common := HousedBy(p) - {q};
      forall s: nat ensures s in u.HousedBy(p) - {q} <==> s in common {
        if s < |data| && s != q { assert u.data[s].content == data[s].content; }
      }
      assert u.HousedBy(p) - {q} == common;
      SizeWithout(HousedBy(p), q);
      SizeWithout(u.HousedBy(p), q);
    }

    lemma OccupiedAfter(u: Table<V>, q: nat)
      requires AgreesOff(u, q)
      ensures |u.OccupiedSlots()| + (if Occupied(q) then 1 else 0)
           == |OccupiedSlots()| + (if u.Occupied(q) then 1 else 0)
    {
      var common := OccupiedSlots() - {q};
      forall s: nat ensures s in u.OccupiedSlots() - {q} <==> s in common {
        if s < |data| && s != q { assert u.data[s].content == data[s].content; }
      }
      assert u.OccupiedSlots() - {q} == common;
      SizeWithout(OccupiedSlots(), q);
      SizeWithout(u.OccupiedSlots(), q);
    }

    lemma HoldsAfter(u: Table<V>, q: nat, s: nat, k: uint64)
      requires AgreesOff(u, q) && s != q
      ensures u.Holds(s, k) <==> Holds(s, k)
    {
      if s < |data| { assert u.data[s].content == data[s].content; }
    }

    /** A change of slot `q` keeps the invariant when the counters follow it. */
    lemma ChangeKeepsValid(u: Table<V>, q: nat)
      requires Valid() && AgreesOff(u, q)
      requires u.cnt + (if Occupied(q) then 1 else 0) == cnt + (if u.Occupied(q) then 1 else 0)
      requires forall p: nat | p < |data| ::
        u.data[p].numInserted + (if Houses(q, p) then 1 else 0)
        == data[p].numInserted + (if u.Houses(q, p) then 1 else 0)
      requires forall s, k | u.Holds(q, k) && Holds(s, k) :: s == q
      ensures u.Valid()
    {
      OccupiedAfter(u, q);
      forall p ensures u.CounterExact(p) {
        HousedAfter(u, q, p);
        assert CounterExact(p);
      }
      forall a, b, k | u.Holds(a, k) && u.Holds(b, k) ensures a == b {
        if a != q { HoldsAfter(u, q, a, k); }
        if b != q { HoldsAfter(u, q, b, k); }
      }
    }

    lemma PutFresh(q: nat, e: Entry<V>)
      requires Valid() && q < |data| && !Occupied(q) && !Has(e.key)
      ensures Put(q, e).Counted(Home(e.key), 1).Valid()
    {
      var u := Put(q, e).Counted(Home(e.key), 1);
      assert u.Houses(q, Home(e.key));
      ChangeKeepsValid(u, q);
    }

    lemma PutSameKey(q: nat, e: Entry<V>)
      requires Valid() && Holds(q, e.key)
      ensures Put(q, e).Valid()
    {
      ChangeKeepsValid(Put(q, e), q);
    }

    lemma ClearHeld(q: nat, key: uint64)
      requires Valid() && Holds(q, key)
      ensures cnt > 0 && data[Home(key)].numInserted > 0
      ensures Cleared(q).Counted(Home(key), -1).Valid()
    {
      HousedCount(q);
      ChangeKeepsValid(Cleared(q).Counted(Home(key), -1), q);
    }

    /** Every entry is in `Map`, at its own slot. */
    lemma MapAt(q: nat)
      requires KeysDistinct() && Occupied(q)
      ensures var e := data[q].content.value; e.key in Map() && Map()[e.key] == e.value
    {
      SlotIsUnique(q, data[q].content.value.key);
    }

    // ---- refinement of a finite map, one call at a time ----

    lemma EmplaceRefinesMap(key: uint64, value: V)
      requires Valid()
      ensures var u := Emplaced(key, value);
        && u.Valid() && |u.data| == |data| && u.prime == prime
        && u.Map() == if cnt >= |data| then Map() else Map()[key := value]
    {
      hide CalcPos;
      var u := Emplaced(key, value);
      if cnt < |data| {
        var q: nat;
        if Has(key) {
          q := SlotOf(key).value;
          PutSameKey(q, Entry(key, value));
        } else {
          HoleExists(Home(key));
          q := Around(Home(key), HoleFrom(Home(key), 0), |data|);
          PutFresh(q, Entry(key, value));
        }
        assert u.Holds(q, key);
        forall k | k in u.Map()
          ensures k in Map()[key := value] && u.Map()[k] == Map()[key := value][k]
        {
          var s := u.SlotOf(k).value;
          u.MapAt(s);
          if s != q { MapAt(s); } else { u.SlotIsUnique(q, key); }
        }
        forall k | k in Map()[key := value] ensures k in u.Map() {
          if k == key { u.MapAt(q); } else { u.MapAt(SlotOf(k).value); }
        }
      }
    }

    lemma EraseRefinesMap(key: uint64)
      requires Valid()
      ensures var u := Erased(key);
        u.Valid() && |u.data| == |data| && u.prime == prime && u.Map() == Map() - {key}
    {
      hide CalcPos;
      var u := Erased(key);
      if Has(key) {
        var q := SlotOf(key).value;
        ClearHeld(q, key);
        forall k | k in u.Map()
          ensures k in Map() - {key} && u.Map()[k] == (Map() - {key})[k]
        {
          var s := u.SlotOf(k).value;
          HoldsAfter(u, q, s, k);
          SlotIsUnique(s, k);
          u.MapAt(s);
          MapAt(s);
        }
        forall k | k in Map() - {key} ensures k in u.Map() {
          u.MapAt(SlotOf(k).value);
        }
      }
    }

    /** Where `emplace` puts a key that the table takes. A replaced key stays in its slot. A new one
        goes to the first empty slot on the circle from its home: every slot met before was occupied.
        No other slot changes its content. */
    lemma EmplacePlaces(key: uint64, value: V)
      requires Valid() && cnt < |data|
      ensures var u := Emplaced(key, value); var home := Home(key);
        && |u.data| == |data| && u.Has(key)
        && (forall s: nat | s < |data| && !u.Holds(s, key) :: u.data[s].content == data[s].content)
        && (forall q: nat | u.Holds(q, key) && !Has(key) ::
              && !Occupied(q) && Distance(home, q, |data|) == HoleFrom(home, 0)
              && forall s: nat | s < |data| && Distance(home, s, |data|) < Distance(home, q, |data|) :: Occupied(s))
        && (forall q: nat | Holds(q, key) :: SlotOf(key) == Some(q) && u.Holds(q, key))
    {
      hide CalcPos;
      var u, home := Emplaced(key, value), Home(key);
      if Has(key) {
        var q := SlotOf(key).value;
        assert u.Holds(q, key);
        forall s: nat | Holds(s, key) ensures s == q { SlotIsUnique(s, key); }
      } else {
        HoleExists(home);
        var i := HoleFrom(home, 0);
        var q := Around(home, i, |data|);
        assert u.Holds(q, key);
        forall s: nat | u.Holds(s, key) ensures s == q {
          if s != q { HoldsAfter(u, q, s, key); }
        }
        forall s: nat | s < |data| && Distance(home, s, |data|) < i ensures Occupied(s) {
          assert Occupied(Around(home, Distance(home, s, |data|), |data|));
        }
      }
    }

    lemma EraseClears(key: uint64)
      requires Valid()
      ensures var u := Erased(key); |u.data| == |data| && forall s: nat | s < |data| ::
        u.data[s].content == if Holds(s, key) then None else data[s].content
    {
      hide CalcPos;
      forall s: nat | Holds(s, key) ensures SlotOf(key) == Some(s) { SlotIsUnique(s, key); }
    }

    lemma FindRefinesMap(key: uint64)
      requires Valid()
      ensures SlotOf(key).Some? <==> key in Map()
      ensures SlotOf(key).Some? ==> data[SlotOf(key).value].content == Some(Entry(key, Map()[key]))
    {
    }

    /** What the accept path relies on: erasing a key just emplaced restores every slot, every
        counter and the total, exactly when the key was absent before. */
    lemma RollbackRestores(key: uint64, value: V)
      requires Valid()
      ensures Emplaced(key, value).Valid()
      ensures Emplaced(key, value).Erased(key) == this <==> !Has(key)
    {
      EmplaceRefinesMap(key, value);
      var u := Emplaced(key, value);
      if !Has(key) {
        if cnt < |data| {
          HoleExists(Home(key));
          var q := Around(Home(key), HoleFrom(Home(key), 0), |data|);
          u.SlotIsUnique(q, key);
          assert u.Erased(key).data == data;
        }
      } else {
        u.EraseRefinesMap(key);
        FindRefinesMap(key);
      }
    }

    // ---- the counters and the total agree ----

    ghost function CounterSum(p: nat): nat
      requires p <= |data|
    {
      if p == 0 then 0 else CounterSum(p - 1) + data[p - 1].numInserted
    }

    ghost function HousedBelow(p: nat): set<nat>
      requires |data| > 0
    {
      set q: nat | q < |data| && Occupied(q) && Home(data[q].content.value.key) < p
    }

    lemma {:induction false} CounterSumCounts(p: nat)
      requires Valid() && p <= |data|
      ensures CounterSum(p) == |HousedBelow(p)|
    {
      hide CalcPos;
      if p == 0 {
        assert HousedBelow(0) == {};
      } else {
        CounterSumCounts(p - 1);
        assert CounterExact(p - 1);
        assert HousedBelow(p) == HousedBelow(p - 1) + HousedBy(p - 1);
        assert HousedBelow(p - 1) !! HousedBy(p - 1);
      }
    }

    ghost function KeyAt(q: nat): uint64
      requires Occupied(q)
    {
      data[q].content.value.key
    }

    lemma {:induction false} KeysOfSlots(slots: set<nat>)
      requires KeysDistinct() && forall q | q in slots :: Occupied(q)
      ensures |set q | q in slots :: KeyAt(q)| == |slots|
    {
      var keys := set q | q in slots :: KeyAt(q);
      if slots == {} {
        assert keys == {};
      } else {
        var q :| q in slots;
        KeysOfSlots(slots - {q});
        var rest := set s | s in slots - {q} :: KeyAt(s);
        assert KeyAt(q) !in rest by {
          if s :| s in slots - {q} && KeyAt(s) == KeyAt(q) {
            assert Holds(s, KeyAt(q)) && Holds(q, KeyAt(q));
          }
        }
        assert keys == rest + {KeyAt(q)};
      }
    }

    /** Three ways to count what a table holds agree: mapped keys, `cnt`, the sum of the counters. */
    lemma SizesAgree()
      requires Valid()
      ensures |Map()| == cnt == CounterSum(|data|) <= |data|
    {
      CounterSumCounts(|data|);
      assert HousedBelow(|data|) == OccupiedSlots();
      KeysOfSlots(OccupiedSlots());
      assert (set q | q in OccupiedSlots() :: KeyAt(q)) == Keys() by {
        forall k | k in Keys() ensures k in (set q | q in OccupiedSlots() :: KeyAt(q)) {
          assert KeyAt(SlotOf(k).value) == k;
        }
        forall q | q in OccupiedSlots() ensures KeyAt(q) in Keys() {
          assert Holds(q, KeyAt(q));
        }
      }
      assert Map().Keys == Keys();
      assert OccupiedSlots() <= Range(|data|);
      SubsetSize(OccupiedSlots(), Range(|data|));
    }

    // ---- whole runs ----

    ghost function Apply(op: Op<V>): (Table<V>, Answer<V>)
      requires Valid()
    {
      match op
      case Emplace(k, v) => (Emplaced(k, v), Stored(cnt < |data|))
      case Find(k) =>
        (this, Found(if Has(k) then Some(data[SlotOf(k).value].content.value.value) else None))
      case Erase(k) => (Erased(k), Removed(Has(k)))
    }

    lemma ApplyRefinesMap(op: Op<V>)
      requires Valid()
      ensures Apply(op).0.Valid() && |Apply(op).0.data| == |data|
      ensures (Apply(op).0.Map(), Apply(op).1) == MapApply(Map(), |data|, op)
    {
      hide CalcPos;
      SizesAgree();
      match op
      case Emplace(k, v) => EmplaceRefinesMap(k, v);
      case Find(k) => FindRefinesMap(k);
      case Erase(k) => EraseRefinesMap(k);
    }

    ghost function Run(ops: seq<Op<V>>): (Table<V>, seq<Answer<V>>)
      requires Valid()
      decreases |ops|
    {
      if ops == [] then (this, [])
      else
        ApplyRefinesMap(ops[0]);
        var (u, a) := Apply(ops[0]);
        var (w, rest) := u.Run(ops[1..]);
        (w, [a] + rest)
    }

    /** Any sequence of calls answers, and leaves behind, what a finite map bounded by the
        capacity does. */
    lemma {:induction false} RunRefinesMap(ops: seq<Op<V>>)
      requires Valid()
      ensures Run(ops).0.Valid()
      ensures (Run(ops).0.Map(), Run(ops).1) == MapRun(Map(), |data|, ops)
      decreases |ops|
    {
      hide CalcPos;
      if ops != [] {
        ApplyRefinesMap(ops[0]);
        Apply(ops[0]).0.RunRefinesMap(ops[1..]);
      }
    }
  }

  lemma SubsetSize(a: set<nat>, b: set<nat>)
    requires a <= b
    ensures |a| <= |b|
  {
    assert b == a + (b - a);
  }

  datatype Op<V> = Emplace(key: uint64, value: V) | Find(key: uint64) | Erase(key: uint64)

  datatype Answer<V> = Stored(ok: bool) | Found(value: Option<V>) | Removed(ok: bool)

  /** The reference: a finite map that refuses every insertion, replacement included, once it
      holds `capacity` keys. */
  ghost function MapApply<V>(m: map<uint64, V>, capacity: nat, op: Op<V>): (map<uint64, V>, Answer<V>) {
    match op
    case Emplace(k, v) => if |m| < capacity then (m[k := v], Stored(true)) else (m, Stored(false))
    case Find(k) => (m, Found(if k in m then Some(m[k]) else None))
    case Erase(k) => (m - {k}, Removed(k in m))
  }

  ghost function MapRun<V>(m: map<uint64, V>, capacity: nat, ops: seq<Op<V>>): (map<uint64, V>, seq<Answer<V>>)
    decreases |ops|
  {
    if ops == [] then (m, [])
    else
      var (m', a) := MapApply(m, capacity, ops[0]);
      var (m'', rest) := MapRun(m', capacity, ops[1..]);
      (m'', [a] + rest)
  }

  /** What `emplace` hands back: no pointer, the address of slot `index` (possibly past the end
      of the array), or no return at all because its assertion fails. */
  datatype EmplaceResult = NullPtr | SlotPtr(index: nat) | AssertFails

  /** `asserts` says whether the C assert macro is compiled in (no makefile defines NDEBUG). */
  class FixedDict<V> {
    const capacity: nat
    const prime: nat
    const asserts: bool
    const data: array<Slot<V>>
    var cnt: nat

    ghost function Snapshot(): Table<V>
      reads this, data
    {
      Table(data[..], cnt, prime)
    }

    ghost predicate Valid()
      reads this, data
    {
      data.Length == capacity && Snapshot().Valid()
    }

    constructor (capacity: nat, prime: nat, asserts: bool)
      requires capacity > 0
      ensures this.capacity == capacity && this.prime == prime && this.asserts == asserts
      ensures Valid() && fresh(data) && Snapshot().Map() == map[]
    {
      this.capacity, this.prime, this.asserts, cnt := capacity, prime, asserts, 0;
      data := new Slot<V>[capacity](_ => Slot(0, None));
      new;
      var t := Snapshot();
      assert t.OccupiedSlots() == {};
      forall p ensures t.CounterExact(p) {
        assert t.HousedBy(p) == {};
      }
    }

    /** The counted walk that `emplace`, `find` and `erase` share: it gives the answer of a
        search of every slot, wherever earlier erasures left holes. */
    method Probe(key: uint64) returns (r: Option<nat>)
      requires Valid()
      ensures r == Snapshot().SlotOf(key)
    {
      hide CalcPos;
      ghost var t := Snapshot();
      var pos := CalcPos(key, prime, capacity);
      var numInserted := data[pos].numInserted;
      var i, j := 0, 0;
      assert t.CounterExact(pos);
      assert t.Passed(pos, 0) == {};
      while i < capacity && j < numInserted
        invariant i <= capacity && j == |t.Passed(pos, i)|
        invariant forall s | t.Holds(s, key) :: i <= Distance(pos, s, capacity)
      {
        AroundIsModulo(pos, i, capacity);
        t.PassedStep(pos, i);
        var q := (i + pos) % capacity;
        if data[q].content.Some? {
          var key2 := data[q].content.value.key;
          if key2 == key {
            t.SlotIsUnique(q, key);
            return Some(q);
          }
          var pos2 := CalcPos(key2, prime, capacity);
          if pos2 == pos {
            j := j + 1;
          }
        }
        i := i + 1;
      }
      forall s ensures !t.Holds(s, key) {
        if t.Holds(s, key) { t.NothingAhead(pos, i, s); }
      }
      return None;
    }

    method Find(key: uint64) returns (r: Option<nat>)
      requires Valid()
      ensures r == Snapshot().SlotOf(key)
      ensures r.Some? <==> key in Snapshot().Map()
      ensures r.Some? ==> data[r.value].content == Some(Entry(key, Snapshot().Map()[key]))
    {
      r := Probe(key);
      Snapshot().FindRefinesMap(key);
    }

    /** The table always ends as `Emplaced` says. The pointer handed back does not: the hole is
        found modulo the capacity, and its address is then computed without the modulus. */
    method Emplace(key: uint64, value: V) returns (r: EmplaceResult)
      requires Valid()
      modifies `cnt, data
      ensures Valid() && Snapshot() == old(Snapshot().Emplaced(key, value))
      ensures Snapshot().Map() ==
        if old(cnt) >= capacity then old(Snapshot().Map()) else old(Snapshot().Map())[key := value]
      ensures r.NullPtr? <==> old(cnt) >= capacity
      ensures r.AssertFails? <==>
        asserts && old(cnt) + 1 == capacity && key !in old(Snapshot().Map())
      ensures r.SlotPtr? && r.index < capacity ==> data[r.index].content == Some(Entry(key, value))
      ensures r.SlotPtr? && key in old(Snapshot().Map()) ==> r.index < capacity
      ensures r.SlotPtr? && key !in old(Snapshot().Map()) ==>
        && data[r.index % capacity].content == Some(Entry(key, value))
        && (r.index < capacity <==>
            exists q: nat | Snapshot().Home(key) <= q < capacity :: !old(Snapshot().Occupied(q)))
      ensures r.NullPtr? ==> Snapshot() == old(Snapshot())
      ensures forall s: nat | s < capacity && !Snapshot().Holds(s, key) :: data[s].content == old(data[s].content)
      ensures !r.NullPtr? ==> forall q: nat | old(Snapshot()).Holds(q, key) :: r == SlotPtr(q) && Snapshot().Holds(q, key)
      ensures !r.NullPtr? && key !in old(Snapshot().Map()) ==>
        var home := Snapshot().Home(key);
        forall q: nat | Snapshot().Holds(q, key) ::
          && !old(Snapshot()).Occupied(q)
          && (r.SlotPtr? ==> r.index == home + Distance(home, q, capacity))
          && forall s: nat | s < capacity && Distance(home, s, capacity) < Distance(home, q, capacity) ::
               old(Snapshot()).Occupied(s)
    {
      hide CalcPos, Table.Map, Table.Valid, Table.HoleFrom;
      ghost var t := Snapshot();
      t.EmplaceRefinesMap(key, value);
      t.FindRefinesMap(key);
      if cnt >= capacity {
        return NullPtr;
      }
      t.EmplacePlaces(key, value);
      var found := Probe(key);
      if found.Some? {
        data[found.value] := data[found.value].(content := Some(Entry(key, value)));
        assert Snapshot() == t.Emplaced(key, value);
        return SlotPtr(found.value);
      }
      ghost var home := t.Home(key);
      t.HoleExists(home);
      HoleAhead(t, home, t.HoleFrom(home, 0));
      r := FillHole(key, value);
      assert key in Snapshot().Map();
      ghost var q := Snapshot().SlotOf(key).value;
      assert Snapshot().Holds(q, key) && Distance(home, q, capacity) == t.HoleFrom(home, 0);
      if r.SlotPtr? { AroundIsModulo(home, Distance(home, q, capacity), capacity); }
    }

    /** The second loop of `emplace`, for a key that the first did not find. */
    method FillHole(key: uint64, value: V) returns (r: EmplaceResult)
      requires Valid() && cnt < capacity && !Snapshot().Has(key)
      modifies `cnt, data
      ensures data.Length == capacity && Snapshot() == old(Snapshot().Emplaced(key, value))
      ensures r == if asserts && old(cnt) + 1 == capacity then AssertFails
                   else SlotPtr(Snapshot().Home(key) + old(Snapshot().HoleFrom(Snapshot().Home(key), 0)))
    {
      hide CalcPos, Table.Map;
      ghost var t := Snapshot();
      var pos := CalcPos(key, prime, capacity);
      t.HoleExists(pos);
      var i := 0;
      while i < capacity
        invariant i <= t.HoleFrom(pos, 0)
        invariant Snapshot() == t
      {
        AroundIsModulo(pos, i, capacity);
        var q := (i + pos) % capacity;
        if data[q].content.None? {
          data[q] := data[q].(content := Some(Entry(key, value)));
          data[pos] := data[pos].(numInserted := data[pos].numInserted + 1);
          cnt := cnt + 1;
          assert Snapshot() == t.Emplaced(key, value);
          if asserts && cnt >= capacity {
            return AssertFails;
          }
          return SlotPtr(i + pos);
        }
        i := i + 1;
      }
      assert false;
    }

    method Erase(key: uint64) returns (ok: bool)
      requires Valid()
      modifies `cnt, data
      ensures Valid() && Snapshot() == old(Snapshot().Erased(key))
      ensures Snapshot().Map() == old(Snapshot().Map()) - {key}
      ensures ok <==> key in old(Snapshot().Map())
      ensures forall s: nat | s < capacity ::
        data[s].content == if old(Snapshot()).Holds(s, key) then None else old(data[s].content)
    {
      hide CalcPos, Table.Map;
      ghost var t := Snapshot();
      t.EraseRefinesMap(key);
      t.EraseClears(key);
      t.FindRefinesMap(key);
      var found := Probe(key);
      if found.Some? {
        t.HousedCount(found.value);
        var pos := CalcPos(key, prime, capacity);
        data[found.value] := data[found.value].(content := None);
        data[pos] := data[pos].(numInserted := data[pos].numInserted - 1);
        cnt := cnt - 1;
        assert Snapshot() == t.Erased(key);
      }
      return found.Some?;
    }
  }

  /** The first hole of the circular walk lies before the wrap exactly when some slot from
      `pos` to the end is empty. */
  lemma HoleAhead<V>(t: Table<V>, pos: nat, i: nat)
    requires pos < |t.data| && i == t.HoleFrom(pos, 0) < |t.data|
    ensures pos + i < |t.data| <==> exists q: nat | pos <= q < |t.data| :: !t.Occupied(q)
  {
    if pos + i < |t.data| {
      assert !t.Occupied(pos + i);
    } else {
      forall q: nat | pos <= q < |t.data| ensures t.Occupied(q) {
        assert t.Occupied(Around(pos, q - pos, |t.data|));
      }
    }
  }
}
