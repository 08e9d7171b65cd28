/**
 core/buffer.hxx: a byte cursor over a packet held in a chain of segments, and big-endian reads
 at the cursor.
 */
module Buffer {
  import opened Common

  /** Memory whose contents the code does not determine. */
  type Memory = nat -> uint8

  /** One segment of a packet: its data, the memory that follows the data, and the segment's own
      packet-length field (which only means something in the first segment). */
  datatype Mbuf = Null | Seg(data: seq<uint8>, past: Memory, pktLen: nat, next: Mbuf)

  function Take(mem: Memory, from: nat, n: nat): (s: seq<uint8>)
    ensures |s| == n
  {
    seq(n, i requires 0 <= i => mem(from + i))
  }

  function Shift(mem: Memory, k: nat): Memory {
    (i: nat) => mem(i + k)
  }

  /** The packet's bytes, however they are split. */
  ghost function Flat(m: Mbuf): seq<uint8> {
    match m
    case Null => []
    case Seg(data, _, _, next) => data + Flat(next)
  }

  function Min(a: nat, b: nat): nat {
    if a <= b then a else b
  }

  /** Where an iterator stands. `++` may leave it one place after a segment's data. */
  datatype Cursor = Cursor(m: Mbuf, offset: nat) {

    ghost predicate Valid() {
      m.Seg? ==> offset <= |m.data|
    }

    /** The bytes from the cursor to the end of the packet. */
    ghost function Rest(): seq<uint8>
      requires Valid()
    {
      if m.Null? then [] else m.data[offset..] + Flat(m.next)
    }

    /** `pkt_offset` is never advanced, so this does not depend on `offset`. */
    function Size(): nat {
      if m.Null? then 0 else m.pktLen
    }

    /** The byte `operator*` loads: after the data it is not a byte of the packet. */
    function Byte(): uint8
      requires m.Seg? && offset <= |m.data|
    {
      RawByte(0)
    }

    /** The byte `i` places after the cursor in memory, which need not be data of the segment. */
    function RawByte(i: nat): uint8
      requires m.Seg? && offset <= |m.data|
    {
      if offset + i < |m.data| then m.data[offset + i] else m.past(offset + i - |m.data|)
    }

    function Inc(): Cursor {
      if m.Null? then this
      else if offset < |m.data| then this.(offset := offset + 1)
      else Cursor(m.next, 0)
    }

    ghost function Skip(n: nat): (c: Cursor)
      requires Valid()
      ensures c.Valid()
      decreases m
    {
      if m.Null? || n == 0 then this
      else if offset + n < |m.data| then this.(offset := offset + n)
      else Cursor(m.next, 0).Skip(n - (|m.data| - offset))
    }

    /** Skipping n bytes drops the next n bytes of the packet, or all that are left, whatever the
        segmentation, empty segments included. */
    lemma {:induction false} SkipDrops(n: nat)
      requires Valid()
      ensures Skip(n).Rest() == Rest()[Min(n, |Rest()|)..]
      decreases m
    {
      if m.Seg? && n > 0 && offset + n >= |m.data| {
        var d := |m.data| - offset;
        Cursor(m.next, 0).SkipDrops(n - d);
        assert Cursor(m.next, 0).Rest() == Flat(m.next);
        assert Rest()[d..] == Flat(m.next);
        assert Rest()[Min(n, |Rest()|)..] == Rest()[d..][Min(n - d, |Flat(m.next)|)..];
      }
    }

    /** Two skips are one: the cursors are equal, not only the bytes ahead of them. */
    lemma {:induction false} SkipAdds(a: nat, b: nat)
      requires Valid()
      ensures Skip(a).Skip(b) == Skip(a + b)
      decreases m
    {
      if m.Seg? && a > 0 && offset + a >= |m.data| {
        Cursor(m.next, 0).SkipAdds(a - (|m.data| - offset), b);
      }
    }

    lemma AtEndOfSegment()
      requires m.Seg? && offset == |m.data|
      ensures Cursor(m.next, 0).Rest() == Rest()
    {
    }

    /** `++` is `skip(1)` exactly strictly inside a segment, and where there is nothing left to
        step over. It advances by one byte exactly when the cursor is on a byte of its segment,
        or no byte is left. */
    lemma IncVersusSkip()
      requires Valid()
      ensures Inc().Valid()
      ensures Inc() == Skip(1) <==>
        m.Null? || offset + 1 < |m.data| || (offset == |m.data| && m.next.Null?)
      ensures Inc().Rest() == Rest()[Min(1, |Rest()|)..] <==>
        m.Null? || offset < |m.data| || Rest() == []
    {
      hide Flat;
      if m.Seg? {
        if offset < |m.data| {
          assert Rest()[1..] == m.data[offset + 1..] + Flat(m.next);
        } else {
          AtEndOfSegment();
          Cursor(m.next, 0).SkipShrinks(1);
        }
      }
    }

    lemma {:induction false} SkipShrinks(n: nat)
      requires Valid()
      ensures Skip(n).m == m || Skip(n).m < m
      ensures Skip(n) == this <==> n == 0 || m.Null?
      decreases m
    {
      if m.Seg? && n > 0 && offset + n >= |m.data| {
        Cursor(m.next, 0).SkipShrinks(n - (|m.data| - offset));
      }
    }

    /** `size` is the number of bytes left, for a cursor in the first segment of a packet whose
        length field is right, exactly when the cursor has not moved. */
    lemma SizeVersusRest()
      requires Valid() && m.Seg? && m.pktLen == |Flat(m)|
      ensures Size() == |Rest()| <==> offset == 0
    {
    }

    // ---- where a read leaves the cursor ----

    /** After `operator>>` on a value of w bytes: each width checks `size` and then reads two
        values of half its width. */
    ghost function After(w: nat): (c: Cursor)
      requires Valid() && w in {1, 2, 4, 8}
      ensures c.Valid()
      decreases w
    {
      if Size() < w then this
      else if w == 1 then Inc()
      else After(w / 2).After(w / 2)
    }

    /** The bytes that end in a w-byte variable that held `out`. The halves are read into
        uninitialised locals, which keep what `mem` gave them when their own read is refused. */
    ghost function Load(w: nat, out: seq<uint8>, mem: Memory): (bytes: seq<uint8>)
      requires Valid() && w in {1, 2, 4, 8} && |out| == w
      ensures |bytes| == w
      decreases w
    {
      if Size() < w then out
      else if w == 1 then [Byte()]
      else
        var h := w / 2;
        Load(h, Take(mem, 0, h), Shift(mem, w)) + After(h).Load(h, Take(mem, h, h), Shift(mem, 4 * w))
    }

    /** Whether a read of w bytes loads a byte that is not data of its segment. */
    ghost predicate Strays(w: nat)
      requires Valid() && w in {1, 2, 4, 8}
      decreases w
    {
      Size() >= w &&
      if w == 1 then offset == |m.data| else Strays(w / 2) || After(w / 2).Strays(w / 2)
    }

    /** The next w bytes lie in the cursor's segment, and the length field allows reading them. */
    predicate InSegment(w: nat) {
      m.Seg? && offset + w <= |m.data| && w <= Size()
    }

    lemma {:induction false} AfterInSegment(w: nat)
      requires Valid() && w in {1, 2, 4, 8} && InSegment(w)
      ensures After(w) == Cursor(m, offset + w) && !Strays(w)
      decreases w
    {
      if w > 1 {
        AfterInSegment(w / 2);
        Cursor(m, offset + w / 2).AfterInSegment(w / 2);
      }
    }

    /** A read that the length field allows stays in bounds exactly when its bytes are data of the
        cursor's segment. */
    lemma {:induction false} StraysExactlyWhen(w: nat)
      requires Valid() && w in {1, 2, 4, 8}
      ensures Strays(w) <==> w <= Size() && !InSegment(w)
      decreases w
    {
      if InSegment(w) {
        AfterInSegment(w);
      } else if w > 1 && w <= Size() {
        StraysExactlyWhen(w / 2);
        if InSegment(w / 2) {
          AfterInSegment(w / 2);
          Cursor(m, offset + w / 2).StraysExactlyWhen(w / 2);
        }
      }
    }

    lemma {:induction false} LoadInSegment(w: nat, out: seq<uint8>, mem: Memory)
      requires Valid() && w in {1, 2, 4, 8} && |out| == w && InSegment(w)
      ensures Load(w, out, mem) == m.data[offset..][..w] == Rest()[..w]
      decreases w
    {
      if w > 1 {
        var h := w / 2;
        AfterInSegment(h);
        LoadInSegment(h, Take(mem, 0, h), Shift(mem, w));
        Cursor(m, offset + h).LoadInSegment(h, Take(mem, h, h), Shift(mem, 4 * w));
      }
    }

    /** What `*` and `++` in turn yield: after a segment's data, the byte past it. */
    ghost function Stream(): seq<uint8>
      requires Valid()
      decreases m
    {
      if m.Null? then [] else m.data[offset..] + [m.past(0)] + Cursor(m.next, 0).Stream()
    }

    /** No length field from here on refuses w bytes. */
    ghost predicate SizesAllow(w: nat)
      decreases m
    {
      m.Seg? ==> w <= m.pktLen && Cursor(m.next, 0).SizesAllow(w)
    }

    lemma {:induction false} SizesAllowLess(w: nat, v: nat)
      requires SizesAllow(w) && v <= w
      ensures SizesAllow(v)
      decreases m
    {
      if m.Seg? { Cursor(m.next, 0).SizesAllowLess(w, v); }
    }

    lemma IncStream()
      requires Valid() && m.Seg?
      ensures Stream() != [] && Stream()[0] == Byte()
      ensures Inc().Valid() && Inc().Stream() == Stream()[1..]
    {
      var t := Cursor(m.next, 0).Stream();
      DropFirst(m.data[offset..], [m.past(0)]);
      DropFirst(m.data[offset..] + [m.past(0)], t);
      assert offset < |m.data| ==> m.data[offset..][1..] == m.data[offset + 1..];
      assert offset == |m.data| ==> [m.past(0)] + t == Stream() && ([m.past(0)] + t)[1..] == t;
    }

    /** Unless length fields interfere, every read yields the next bytes of the stream, for every
        segmentation and whatever the uninitialised memory. */
    lemma {:induction false} LoadIsStream(w: nat, out: seq<uint8>, mem: Memory)
      requires Valid() && w in {1, 2, 4, 8} && |out| == w && SizesAllow(w) && w <= |Stream()|
      ensures Load(w, out, mem) == Stream()[..w] && After(w).Stream() == Stream()[w..]
      decreases w
    {
      hide Stream, SizesAllow;
      assert m.Seg? && w <= Size() by { StreamIsSeg(w); }
      if w == 1 {
        IncStream();
      } else {
        var h := w / 2;
        SizesAllowLess(w, h);
        LoadIsStream(h, Take(mem, 0, h), Shift(mem, w));
        SizesAfter(h, h);
        After(h).LoadIsStream(h, Take(mem, h, h), Shift(mem, 4 * w));
        assert Stream()[..w] == Stream()[..h] + Stream()[h..][..h] && Stream()[h..][h..] == Stream()[w..];
      }
    }

    lemma StreamIsSeg(w: nat)
      requires Valid() && SizesAllow(w) && Stream() != []
      ensures m.Seg? && w <= Size()
    {
    }

    lemma {:induction false} SizesAfter(w: nat, v: nat)
      requires Valid() && w in {1, 2, 4, 8} && SizesAllow(v)
      ensures After(w).SizesAllow(v)
      decreases w
    {
      if w > 1 {
        SizesAfter(w / 2, v);
        After(w / 2).SizesAfter(w / 2, v);
      }
    }

    /** The value of a read is right exactly when its bytes are the packet's next ones. Inside one
        segment they are. Across its end they are exactly when the stream, with its byte from past
        the segment, happens to repeat the packet. A read that the length field refuses is right
        exactly when the variable held those bytes before; HalvesAreRight is about the others. */
    lemma ReadIsRight(w: nat, out: seq<uint8>, mem: Memory)
      requires Valid() && w in {1, 2, 4, 8} && |out| == w && w <= |Rest()|
      ensures BigEndian(Load(w, out, mem)) == BigEndian(Rest()[..w]) <==> Load(w, out, mem) == Rest()[..w]
      ensures InSegment(w) ==> Load(w, out, mem) == Rest()[..w]
      ensures SizesAllow(w) ==>
        w <= |Stream()| && (Load(w, out, mem) == Rest()[..w] <==> Stream()[..w] == Rest()[..w])
      ensures SizesAllow(w) && !InSegment(w) && m.past(0) != Rest()[|m.data| - offset] ==>
        Load(w, out, mem) != Rest()[..w]
      ensures Size() < w ==> (Load(w, out, mem) == Rest()[..w] <==> out == Rest()[..w])
    {
      hide Load, After, BigEndian, SizesAllow;
      if InSegment(w) { LoadInSegment(w, out, mem); }
      if Size() < w { RefusedLoad(w, out, mem); }
      if SizesAllow(w) {
        StreamIsLonger();
        LoadIsStream(w, out, mem);
        StreamIsSeg(w);
        assert !InSegment(w) && Stream()[..w] == Rest()[..w] ==> Stream()[..w][|m.data| - offset] == m.past(0);
      }
      if BigEndian(Load(w, out, mem)) == BigEndian(Rest()[..w]) {
        BigEndianInjective(Load(w, out, mem), Rest()[..w]);
      }
    }

    lemma RefusedLoad(w: nat, out: seq<uint8>, mem: Memory)
      requires Valid() && w in {1, 2, 4, 8} && |out| == w && Size() < w
      ensures Load(w, out, mem) == out
    {
    }

    /** A read that the length field allows is right exactly when each half is, from where the first
        half leaves the cursor. A later length field may refuse a half, which is then right exactly
        when the uninitialised local held its bytes. */
    lemma HalvesAreRight(w: nat, out: seq<uint8>, mem: Memory)
      requires Valid() && w in {2, 4, 8} && |out| == w <= Size() && w <= |Rest()|
      ensures var h := w / 2;
        var second, kept := After(h), Take(mem, h, h);
        && (Load(w, out, mem) == Rest()[..w] <==>
             && Load(h, Take(mem, 0, h), Shift(mem, w)) == Rest()[..h]
             && second.Load(h, kept, Shift(mem, 4 * w)) == Rest()[h..w])
        && (second.Size() < h ==> second.Load(h, kept, Shift(mem, 4 * w)) == kept)
    {
      hide Rest;
      var h := w / 2;
      var a, b := Load(h, Take(mem, 0, h), Shift(mem, w)), After(h).Load(h, Take(mem, h, h), Shift(mem, 4 * w));
      assert (a + b)[..h] == a && (a + b)[h..] == b;
      assert Rest()[..w] == Rest()[..h] + Rest()[h..w];
      assert Rest()[..w][..h] == Rest()[..h] && Rest()[..w][h..] == Rest()[h..w];
    }

    lemma {:induction false} StreamIsLonger()
      requires Valid()
      ensures |Stream()| >= |Rest()|
      decreases m
    {
      if m.Seg? {
        Cursor(m.next, 0).StreamIsLonger();
        assert Cursor(m.next, 0).Rest() == Flat(m.next);
      }
    }

    /** A read of w bytes consumes at most w, and exactly w when they all lie in one segment that
        may be read: a read across a segment boundary loses step with the packet. */
    lemma {:induction false} ReadConsumes(w: nat)
      requires Valid() && w in {1, 2, 4, 8}
      ensures After(w).Valid()
      ensures |Rest()| - w <= |After(w).Rest()| <= |Rest()|
      ensures |After(w).Rest()| == |Rest()| - w <==> InSegment(w)
      decreases w
    {
      if Size() >= w {
        if w == 1 {
          IncVersusSkip();
        } else {
          ReadConsumes(w / 2);
          After(w / 2).ReadConsumes(w / 2);
          if InSegment(w / 2) { AfterInSegment(w / 2); }
        }
      }
    }
  }

  lemma DropFirst(a: seq<uint8>, b: seq<uint8>)
    ensures a != [] ==> (a + b)[1..] == a[1..] + b && (a + b)[0] == a[0]
  {
  }

  /** The number that `bytes` spells, most significant byte first. */
  function BigEndian(bytes: seq<uint8>): nat {
    if bytes == [] then 0 else BigEndian(bytes[..|bytes| - 1]) * 256 + bytes[|bytes| - 1]
  }

  lemma {:induction false} BigEndianSplit(a: seq<uint8>, b: seq<uint8>)
    ensures BigEndian(a + b) == BigEndian(a) * Weight(|b|) + BigEndian(b)
  {
    if b == [] {
      assert a + b == a;
    } else {
      var n := |b| - 1;
      BigEndianSplit(a, b[..n]);
      assert (a + b)[..|a + b| - 1] == a + b[..n] && (a + b)[|a + b| - 1] == b[n];
      Distribute(BigEndian(a), Weight(n), BigEndian(b[..n]));
    }
  }

  lemma Distribute(x: nat, y: nat, z: nat)
    ensures 256 * (x * y + z) == x * (256 * y) + 256 * z
  {
  }

  function Weight(n: nat): nat {
    if n == 0 then 1 else 256 * Weight(n - 1)
  }

  lemma {:induction false} BigEndianBound(bytes: seq<uint8>)
    ensures BigEndian(bytes) < Weight(|bytes|)
  {
    if bytes != [] { BigEndianBound(bytes[..|bytes| - 1]); }
  }

  lemma {:induction false} BigEndianInjective(a: seq<uint8>, b: seq<uint8>)
    requires |a| == |b| && BigEndian(a) == BigEndian(b)
    ensures a == b
  {
    if a != [] {
      var n := |a| - 1;
      BigEndianInjective(a[..n], b[..n]);
      assert a == a[..n] + [a[n]] && b == b[..n] + [b[n]];
    }
  }

  /** The w bytes that spell `v`. */
  ghost function Spell(v: nat, w: nat): (bytes: seq<uint8>)
    ensures |bytes| == w
  {
    if w == 0 then [] else Spell(v / 256, w - 1) + [v % 256]
  }

  lemma {:induction false} SpellIsBigEndian(v: nat, w: nat)
    requires v < Weight(w)
    ensures BigEndian(Spell(v, w)) == v
  {
    if w > 0 {
      SpellIsBigEndian(v / 256, w - 1);
      assert Spell(v, w)[..w - 1] == Spell(v / 256, w - 1);
    }
  }

  lemma {:induction false} SpellOfBytes(bytes: seq<uint8>)
    ensures Spell(BigEndian(bytes), |bytes|) == bytes
  {
    if bytes != [] { SpellOfBytes(bytes[..|bytes| - 1]); }
  }

  /** A variable of n bytes that the code does not initialise. */
  function Uninitialised(mem: Memory, from: nat, n: nat): (v: nat)
    ensures v < Weight(n)
    ensures Spell(v, n) == Take(mem, from, n)
  {
    BigEndianBound(Take(mem, from, n));
    SpellOfBytes(Take(mem, from, n));
    BigEndian(Take(mem, from, n))
  }

  class RteMbufIterator {
    var m: Mbuf
    var offset: nat
    var pktOffset: nat

    ghost function At(): Cursor
      reads this
    {
      Cursor(m, offset)
    }

    ghost predicate Valid()
      reads this
    {
      At().Valid() && pktOffset == 0
    }

    constructor (given: Mbuf)
      ensures Valid() && At() == Cursor(given, 0)
    {
      m, offset, pktOffset := given, 0, 0;
    }

    method Inc()
      requires Valid()
      modifies this
      ensures Valid() && At() == old(At()).Inc()
    {
      if m.Seg? {
        if offset < |m.data| {
          offset := offset + 1;
        } else {
          offset := 0;
          m := m.next;
        }
      }
    }

    /** The loop takes from `inc` what each segment still offers; it never takes more than there is. */
    method Skip(givenInc: uint32)
      requires Valid()
      modifies this
      ensures Valid() && At() == old(At()).Skip(givenInc)
      ensures At().Rest() == old(At().Rest())[Min(givenInc, |old(At().Rest())|)..]
    {
      At().SkipDrops(givenInc);
      var inc: nat := givenInc;
      while m.Seg? && inc > 0
        invariant Valid()
        invariant At().Skip(inc) == old(At()).Skip(givenInc)
        decreases m, inc
      {
        if offset + inc < |m.data| {
          offset := offset + inc;
          break;
        } else {
          inc := inc - (|m.data| - offset);
          offset := 0;
          m := m.next;
        }
      }
    }

    function Size(): (n: nat)
      requires Valid()
      reads this
      ensures n == At().Size()
    {
      if m.Null? then 0 else m.pktLen - pktOffset
    }

    /** `operator*`: loads the byte at the cursor without checking it against the segment. */
    function Deref(): (b: uint8)
      requires Valid() && m.Seg?
      reads this
      ensures b == At().Byte()
    {
      Cursor(m, offset).Byte()
    }

    predicate Eof()
      requires Valid()
      reads this
    {
      0 == Size()
    }
  }

  class RteMbufReader {
    const itr: RteMbufIterator

    ghost predicate Valid()
      reads this, itr
    {
      itr.Valid()
    }

    ghost function At(): Cursor
      reads this, itr
    {
      itr.At()
    }

    constructor (given: Mbuf)
      ensures Valid() && fresh(itr) && At() == Cursor(given, 0)
    {
      itr := new RteMbufIterator(given);
    }

    /** Reads of every width: the value loaded, where the cursor is left, and whether a byte
        outside the segment was loaded. `mem` is the memory of the locals of the call. */
    method Read8(out: uint8, mem: Memory) returns (v: uint8, ghost strays: bool)
      requires Valid()
      modifies itr
      ensures Valid() && At() == old(At()).After(1)
      ensures v == BigEndian(old(At()).Load(1, Spell(out, 1), mem))
      ensures strays == old(At()).Strays(1)
    {
      SpellIsBigEndian(out, 1);
      v, strays := out, false;
      if !itr.Eof() {
        v := itr.Deref();
        strays := itr.offset == |itr.m.data|;
        itr.Inc();
        assert [v][..0] == [];
      }
    }

    method Read16(out: uint16, mem: Memory) returns (v: uint16, ghost strays: bool)
      requires Valid()
      modifies itr
      ensures Valid() && At() == old(At()).After(2)
      ensures v == BigEndian(old(At()).Load(2, Spell(out, 2), mem))
      ensures strays == old(At()).Strays(2)
    {
      SpellIsBigEndian(out, 2);
      if itr.Size() < 2 {
        return out, false;
      }
      var hi: uint8 := Uninitialised(mem, 0, 1);
      var lo: uint8 := Uninitialised(mem, 1, 1);
      ghost var a, b;
      ghost var c := At();
      hi, a := Read8(hi, Shift(mem, 2));
      lo, b := Read8(lo, Shift(mem, 8));
      v, strays := hi * 256 + lo, a || b;
      BigEndianSplit(c.Load(1, Take(mem, 0, 1), Shift(mem, 2)),
                     c.After(1).Load(1, Take(mem, 1, 1), Shift(mem, 8)));
    }

    method Read32(out: uint32, mem: Memory) returns (v: uint32, ghost strays: bool)
      requires Valid()
      modifies itr
      ensures Valid() && At() == old(At()).After(4)
      ensures v == BigEndian(old(At()).Load(4, Spell(out, 4), mem))
      ensures strays == old(At()).Strays(4)
    {
      SpellIsBigEndian(out, 4);
      if itr.Size() < 4 {
        return out, false;
      }
      var hi: uint16 := Uninitialised(mem, 0, 2);
      var lo: uint16 := Uninitialised(mem, 2, 2);
      ghost var a, b;
      ghost var c := At();
      hi, a := Read16(hi, Shift(mem, 4));
      lo, b := Read16(lo, Shift(mem, 16));
      v, strays := hi * U16 + lo, a || b;
      BigEndianSplit(c.Load(2, Take(mem, 0, 2), Shift(mem, 4)),
                     c.After(2).Load(2, Take(mem, 2, 2), Shift(mem, 16)));
    }

    method Read64(out: uint64, mem: Memory) returns (v: uint64, ghost strays: bool)
      requires Valid()
      modifies itr
      ensures Valid() && At() == old(At()).After(8)
      ensures v == BigEndian(old(At()).Load(8, Spell(out, 8), mem))
      ensures strays == old(At()).Strays(8)
    {
      SpellIsBigEndian(out, 8);
      if itr.Size() < 8 {
        return out, false;
      }
      var hi: uint32 := Uninitialised(mem, 0, 4);
      var lo: uint32 := Uninitialised(mem, 4, 4);
      ghost var a, b;
      ghost var c := At();
      hi, a := Read32(hi, Shift(mem, 8));
      lo, b := Read32(lo, Shift(mem, 32));
      v, strays := hi * U32 + lo, a || b;
      BigEndianSplit(c.Load(4, Take(mem, 0, 4), Shift(mem, 8)),
                     c.After(4).Load(4, Take(mem, 4, 4), Shift(mem, 32)));
    }
  }
}
