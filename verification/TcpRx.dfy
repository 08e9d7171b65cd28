/** tcp/tcp_rx.cc: parsing the headers of a received packet and handing them to the state machine. */
module TcpRx {
  import opened Common
  import opened Buffer
  import opened TcpFsm
  import opened TcpRuns
  import opened TcpEngine
  import opened Autobuf

  const ETHER_BYTES: nat := 14
  const IP_MIN_BYTES: nat := 20
  const TCP_MIN_WORDS: nat := 5
  const PROTO_TCP: nat := 6

  datatype DropReason = NoEthernet | NoIp | NotTcp | BadDataOffset

  datatype ParseResult = Dropped(why: DropReason) | Parsed(header: TcpSegmentHeader, at: Cursor)

  /** The 20 bytes of a fixed IPv4 header are data of the cursor's segment. */
  predicate RawHeader(c: Cursor) {
    c.m.Seg? && c.offset + IP_MIN_BYTES <= |c.m.data|
  }

  /** The 20 fixed bytes of a TCP header lie in the cursor's segment, whose length field lets the
      widest read of them through. */
  predicate TcpHeaderWhole(c: Cursor) {
    c.m.Seg? && c.offset + 20 <= |c.m.data| && 4 <= c.Size()
  }

  ghost function Next20(c: Cursor): (s: seq<uint8>)
    requires c.m.Seg? && c.offset + 20 <= |c.m.data|
    ensures |s| == 20
  {
    c.m.data[c.offset..][..20]
  }

  function HeaderLength(versionIhl: uint8): (n: nat)
    ensures n <= 60
  {
    4 * (versionIhl % 16)
  }

  /** The two or four bytes of `s` from place `i`, as a number. */
  ghost function Be16(s: seq<uint8>, i: nat): uint16
    requires i + 2 <= |s|
  {
    BigEndianBound(s[i..][..2]);
    BigEndian(s[i..][..2])
  }

  ghost function Be32(s: seq<uint8>, i: nat): uint32
    requires i + 4 <= |s|
  {
    BigEndianBound(s[i..][..4]);
    BigEndian(s[i..][..4])
  }

  function RawBytes(c: Cursor, i: nat, n: nat): (s: seq<uint8>)
    requires c.m.Seg? && c.offset <= |c.m.data|
    ensures |s| == n
  {
    if n == 0 then [] else RawBytes(c, i, n - 1) + [c.RawByte(i + n - 1)]
  }

  /** A field of n bytes read through a raw pointer at the cursor, wherever its bytes lie. */
  function RawField(c: Cursor, i: nat, n: nat): (v: nat)
    requires c.m.Seg? && c.offset <= |c.m.data|
    ensures v < Weight(n)
  {
    BigEndianBound(RawBytes(c, i, n));
    BigEndian(RawBytes(c, i, n))
  }

  /** The field's bytes are not all data of the cursor's segment. */
  predicate RawOutside(c: Cursor, i: nat, n: nat) {
    c.m.Seg? && c.offset + i + n > |c.m.data|
  }

  ghost function IpAt(m: Mbuf): (c: Cursor)
    ensures c.Valid()
  {
    Cursor(m, 0).Skip(ETHER_BYTES)
  }

  ghost function TcpAt(m: Mbuf): (c: Cursor)
    requires IpAt(m).m.Seg?
    ensures c.Valid()
  {
    IpAt(m).Skip(HeaderLength(IpAt(m).RawByte(0)))
  }

  // ---- the field reads ----

  /** The memory of the k-th field read: first the variable, then the locals of the read. */
  function Frame(mem: Memory, k: nat): Memory {
    Shift(mem, 64 * k)
  }

  ghost function Field16(c: Cursor, mem: Memory): (v: uint16)
    requires c.Valid()
  {
    BigEndianBound(c.Load(2, Take(mem, 0, 2), Shift(mem, 2)));
    BigEndian(c.Load(2, Take(mem, 0, 2), Shift(mem, 2)))
  }

  ghost function Field32(c: Cursor, mem: Memory): (v: uint32)
    requires c.Valid()
  {
    BigEndianBound(c.Load(4, Take(mem, 0, 4), Shift(mem, 4)));
    BigEndian(c.Load(4, Take(mem, 0, 4), Shift(mem, 4)))
  }

  /** The word of data offset and flags, which the code initialises to zero. */
  ghost function LeftWord(c: Cursor, mem: Memory): (v: uint16)
    requires c.Valid()
  {
    BigEndianBound(c.Load(2, Spell(0, 2), Shift(mem, 2)));
    BigEndian(c.Load(2, Spell(0, 2), Shift(mem, 2)))
  }

  datatype First = First(sport: uint16, dport: uint16, seqno: uint32, ackno: uint32, left: uint16)

  datatype Last = Last(window: uint16, checksum: uint16, uptr: uint16)

  ghost function AfterFirst(c: Cursor): (d: Cursor)
    requires c.Valid()
    ensures d.Valid()
  {
    c.After(2).After(2).After(4).After(4).After(2)
  }

  ghost function FirstOf(c: Cursor, mem: Memory): First
    requires c.Valid()
  {
    var c1 := c.After(2);
    var c2 := c1.After(2);
    var c3 := c2.After(4);
    var c4 := c3.After(4);
    First(Field16(c, Frame(mem, 0)), Field16(c1, Frame(mem, 1)), Field32(c2, Frame(mem, 2)),
          Field32(c3, Frame(mem, 3)), LeftWord(c4, Frame(mem, 4)))
  }

  ghost predicate FirstStrays(c: Cursor)
    requires c.Valid()
  {
    var c1 := c.After(2);
    var c2 := c1.After(2);
    var c3 := c2.After(4);
    var c4 := c3.After(4);
    c.Strays(2) || c1.Strays(2) || c2.Strays(4) || c3.Strays(4) || c4.Strays(2)
  }

  /** Where the field reads leave the cursor. */
  ghost function AfterFields(c: Cursor): (d: Cursor)
    requires c.Valid()
    ensures d.Valid()
  {
    AfterFirst(c).After(2).After(2).After(2)
  }

  ghost function LastOf(c: Cursor, mem: Memory): Last
    requires c.Valid()
  {
    Last(Field16(c, Frame(mem, 5)), Field16(c.After(2), Frame(mem, 6)),
         Field16(c.After(2).After(2), Frame(mem, 7)))
  }

  ghost predicate LastStrays(c: Cursor)
    requires c.Valid()
  {
    c.Strays(2) || c.After(2).Strays(2) || c.After(2).After(2).Strays(2)
  }

  function DataOffset(left: uint16): nat {
    left / 4096 % 16
  }

  // ---- what parsing returns, for every packet ----

  /** Of the flags only the low four are kept; the fixed TCP bytes are not part of the total. */
  function HeaderOf(ip: Cursor, f: First, l: Last): TcpSegmentHeader
    requires ip.m.Seg? && ip.offset <= |ip.m.data| && DataOffset(f.left) >= TCP_MIN_WORDS
  {
    var options := 4 * (DataOffset(f.left) - TCP_MIN_WORDS);
    TcpSegmentHeader(
      RawField(ip, 16, 4), RawField(ip, 12, 4), RawField(ip, 2, 2),
      f.sport, f.dport, f.seqno, f.ackno, DataOffset(f.left), f.left % 16,
      l.window, l.checksum, l.uptr, options, ETHER_BYTES + HeaderLength(ip.RawByte(0)) + options)
  }

  ghost function TcpParseOf(ip: Cursor, c: Cursor, mem: Memory): (r: ParseResult)
    requires ip.Valid() && ip.m.Seg? && c.Valid()
    ensures r.Parsed? ==> r.at.Valid()
  {
    var f := FirstOf(c, mem);
    if DataOffset(f.left) < TCP_MIN_WORDS then Dropped(BadDataOffset)
    else
      Parsed(HeaderOf(ip, f, LastOf(AfterFirst(c), mem)),
             AfterFields(c).Skip(4 * (DataOffset(f.left) - TCP_MIN_WORDS)))
  }

  ghost function ParseOf(m: Mbuf, mem: Memory): (r: ParseResult)
    ensures r.Parsed? ==> r.at.Valid()
  {
    if Cursor(m, 0).Size() < ETHER_BYTES then Dropped(NoEthernet)
    else if IpAt(m).Size() < IP_MIN_BYTES then Dropped(NoIp)
    else if IpAt(m).RawByte(9) != PROTO_TCP then Dropped(NotTcp)
    else TcpParseOf(IpAt(m), TcpAt(m), mem)
  }

  ghost predicate TcpStrays(c: Cursor, mem: Memory)
    requires c.Valid()
  {
    FirstStrays(c) ||
    (DataOffset(FirstOf(c, mem).left) >= TCP_MIN_WORDS && LastStrays(AfterFirst(c)))
  }

  /** Whether parsing loads a byte that is not data of the segment it reads from. */
  ghost predicate ParseStrays(m: Mbuf, mem: Memory) {
    && ETHER_BYTES <= Cursor(m, 0).Size() && IP_MIN_BYTES <= IpAt(m).Size()
    && (RawOutside(IpAt(m), 9, 1) ||
        (IpAt(m).RawByte(9) == PROTO_TCP &&
         (RawOutside(IpAt(m), 16, 4) || RawOutside(IpAt(m), 12, 4) || RawOutside(IpAt(m), 2, 2)
          || RawOutside(IpAt(m), 0, 1) || TcpStrays(TcpAt(m), mem))))
  }

  method ReadFirst(reader: RteMbufReader, mem: Memory) returns (f: First, ghost strays: bool)
    requires reader.Valid()
    modifies reader.itr
    ensures reader.Valid() && reader.At() == AfterFirst(old(reader.At()))
    ensures f == FirstOf(old(reader.At()), mem) && strays == FirstStrays(old(reader.At()))
  {
    hide Cursor.After, Cursor.Load, Cursor.Strays, BigEndian, Spell;
    ghost var a, b, c, d, e;
    var sport: uint16 := Uninitialised(Frame(mem, 0), 0, 2);
    var dport: uint16 := Uninitialised(Frame(mem, 1), 0, 2);
    var seqno: uint32 := Uninitialised(Frame(mem, 2), 0, 4);
    var ackno: uint32 := Uninitialised(Frame(mem, 3), 0, 4);
    var left: uint16 := 0;
    sport, a := reader.Read16(sport, Shift(Frame(mem, 0), 2));
    dport, b := reader.Read16(dport, Shift(Frame(mem, 1), 2));
    seqno, c := reader.Read32(seqno, Shift(Frame(mem, 2), 4));
    ackno, d := reader.Read32(ackno, Shift(Frame(mem, 3), 4));
    left, e := reader.Read16(left, Shift(Frame(mem, 4), 2));
    f, strays := First(sport, dport, seqno, ackno, left), a || b || c || d || e;
  }

  method ReadLast(reader: RteMbufReader, mem: Memory) returns (l: Last, ghost strays: bool)
    requires reader.Valid()
    modifies reader.itr
    ensures reader.Valid() && reader.At() == old(reader.At()).After(2).After(2).After(2)
    ensures l == LastOf(old(reader.At()), mem) && strays == LastStrays(old(reader.At()))
  {
    hide Cursor.After, Cursor.Load, Cursor.Strays, BigEndian, Spell;
    ghost var a, b, c;
    var window: uint16 := Uninitialised(Frame(mem, 5), 0, 2);
    var checksum: uint16 := Uninitialised(Frame(mem, 6), 0, 2);
    var uptr: uint16 := Uninitialised(Frame(mem, 7), 0, 2);
    window, a := reader.Read16(window, Shift(Frame(mem, 5), 2));
    checksum, b := reader.Read16(checksum, Shift(Frame(mem, 6), 2));
    uptr, c := reader.Read16(uptr, Shift(Frame(mem, 7), 2));
    l, strays := Last(window, checksum, uptr), a || b || c;
  }

  /** From the TCP header on. */
  method ParseTcp(reader: RteMbufReader, ip: Cursor, mem: Memory) returns (r: ParseResult, ghost strays: bool)
    requires reader.Valid() && ip.Valid() && ip.m.Seg?
    modifies reader.itr
    ensures r == TcpParseOf(ip, old(reader.At()), mem) && strays == TcpStrays(old(reader.At()), mem)
    ensures r.Parsed? ==> r.header.evtmask < 16 && 5 <= r.header.dataOffset < 16
  {
    hide Cursor.Skip, Cursor.Rest, FirstOf, LastOf, AfterFirst, FirstStrays, LastStrays, RawField;
    var f, l;
    f, strays := ReadFirst(reader, mem);
    var evtmask, dataOffset := f.left % 16, DataOffset(f.left);
    if dataOffset < TCP_MIN_WORDS {
      return Dropped(BadDataOffset), strays;
    }
    var numOptionBytes := 4 * (dataOffset - TCP_MIN_WORDS);
    ghost var b;
    l, b := ReadLast(reader, mem);
    strays := strays || b;
    reader.itr.Skip(numOptionBytes);
    var total := ETHER_BYTES + HeaderLength(ip.RawByte(0)) + numOptionBytes;
    r := Parsed(TcpSegmentHeader(RawField(ip, 16, 4), RawField(ip, 12, 4), RawField(ip, 2, 2),
                                 f.sport, f.dport, f.seqno, f.ackno, dataOffset, evtmask,
                                 l.window, l.checksum, l.uptr, numOptionBytes, total),
                Cursor(reader.itr.m, reader.itr.offset));
  }

  /** The fields of the IPv4 header and its options, and then the TCP header. */
  method ParseIp(reader: RteMbufReader, ip: Cursor, mem: Memory) returns (r: ParseResult, ghost strays: bool)
    requires reader.Valid() && reader.At() == ip && ip.m.Seg?
    modifies reader.itr
    ensures var c := ip.Skip(HeaderLength(ip.RawByte(0)));
      && r == TcpParseOf(ip, c, mem)
      && strays == (RawOutside(ip, 16, 4) || RawOutside(ip, 12, 4) || RawOutside(ip, 2, 2)
                    || RawOutside(ip, 0, 1) || TcpStrays(c, mem))
    ensures r.Parsed? ==> r.header.evtmask < 16 && 5 <= r.header.dataOffset < 16
  {
    hide Cursor.Skip, Cursor.Rest, Cursor.RawByte, Flat, Min, HeaderLength, TcpParseOf, TcpStrays, RawField, RawOutside;
    // destination, source, total length and header length are read here
    strays := RawOutside(ip, 16, 4) || RawOutside(ip, 12, 4) || RawOutside(ip, 2, 2) || RawOutside(ip, 0, 1);
    reader.itr.Skip(HeaderLength(ip.RawByte(0)));
    ghost var b;
    r, b := ParseTcp(reader, ip, mem);
    strays := strays || b;
  }

  /** The parsing half of `handleTcpRx`. Every outcome is determined by the segments, by the memory
      after them and by the uninitialised memory `mem`. */
  method Parse(m: Mbuf, mem: Memory) returns (r: ParseResult, ghost strays: bool)
    ensures r == ParseOf(m, mem) && strays == ParseStrays(m, mem)
    ensures r.Parsed? ==> r.header.evtmask < 16 && 5 <= r.header.dataOffset < 16
  {
    hide Cursor.Skip, Cursor.Rest, Cursor.RawByte, Flat, Min, HeaderLength, TcpParseOf, TcpStrays, RawField, RawOutside;
    var reader := new RteMbufReader(m);
    strays := false;
    if reader.itr.Size() < ETHER_BYTES {
      return Dropped(NoEthernet), strays;
    }
    reader.itr.Skip(ETHER_BYTES);
    if reader.itr.Size() < IP_MIN_BYTES {
      return Dropped(NoIp), strays;
    }
    var ip := Cursor(reader.itr.m, reader.itr.offset);
    strays := RawOutside(ip, 9, 1);
    if ip.RawByte(9) != PROTO_TCP {
      return Dropped(NotTcp), strays;
    }
    ghost var b;
    r, b := ParseIp(reader, ip, mem);
    strays := strays || b;
  }

  // ---- exactly when parsing reads outside the packet ----

  /** How many bytes of its segment lie ahead of the cursor. */
  function Ahead(c: Cursor): nat
    requires c.Valid()
  {
    if c.m.Null? then 0 else |c.m.data| - c.offset
  }

  /** The bytes that the first reads ask of a segment, and all eight: reads of four bytes are
      refused where the length field is below four. */
  function FirstNeed(c: Cursor): nat {
    if c.Size() >= 4 then 14 else 6
  }

  function FullNeed(c: Cursor): nat {
    if c.Size() >= 4 then 20 else 12
  }

  /** One read of `w` bytes, `k` bytes after `c` in its segment. */
  lemma ReadAt(c: Cursor, k: nat, w: nat)
    requires c.Valid() && c.m.Seg? && k <= Ahead(c) && w in {2, 4}
    ensures var d := Cursor(c.m, c.offset + k);
      if w > c.Size() then !d.Strays(w) && d.After(w) == d
      else if k + w <= Ahead(c) then !d.Strays(w) && d.After(w) == Cursor(c.m, c.offset + k + w)
      else d.Strays(w)
  {
    var d := Cursor(c.m, c.offset + k);
    d.StraysExactlyWhen(w);
    if d.InSegment(w) { d.AfterInSegment(w); }
  }

  lemma FirstStraysExactlyWhen(c: Cursor)
    requires c.Valid()
    ensures FirstStrays(c) <==> c.Size() >= 2 && Ahead(c) < FirstNeed(c)
    ensures c.Size() >= 2 && Ahead(c) >= FirstNeed(c) ==>
      && AfterFirst(c) == Cursor(c.m, c.offset + FirstNeed(c))
      && c.After(2).After(2).After(4).After(4) == Cursor(c.m, c.offset + FirstNeed(c) - 2)
    ensures c.Size() < 2 ==> AfterFirst(c) == c && c.After(2).After(2).After(4).After(4) == c
  {
    if c.Size() >= 2 {
      hide Cursor.Strays, Cursor.After;
      var a := Ahead(c);
      ReadAt(c, 0, 2);
      if a >= 2 { ReadAt(c, 2, 2); }
      if a >= 4 { ReadAt(c, 4, 4); }
      if c.Size() >= 4 {
        if a >= 8 { ReadAt(c, 8, 4); }
        if a >= 12 { ReadAt(c, 12, 2); }
      } else if a >= 4 {
        ReadAt(c, 4, 2);
      }
    }
  }

  lemma LastStraysExactlyWhen(c: Cursor, k: nat)
    requires c.Valid() && c.m.Seg? && k <= Ahead(c) && c.Size() >= 2
    ensures LastStrays(Cursor(c.m, c.offset + k)) <==> Ahead(c) < k + 6
  {
    hide Cursor.Strays, Cursor.After;
    ReadAt(c, k, 2);
    if Ahead(c) >= k + 2 { ReadAt(c, k + 2, 2); }
    if Ahead(c) >= k + 4 { ReadAt(c, k + 4, 2); }
  }

  /** The field reads leave the packet exactly when the segment runs out before the data offset, or,
      with a data offset that lets parsing go on, before the end of the fixed header. */
  lemma TcpStraysExactlyWhen(c: Cursor, mem: Memory)
    requires c.Valid()
    ensures TcpStrays(c, mem) <==>
      && c.Size() >= 2
      && (Ahead(c) < FirstNeed(c) ||
       (DataOffset(Be16(c.m.data[c.offset..], FirstNeed(c) - 2)) >= 5 && Ahead(c) < FullNeed(c)))
  {
    hide Cursor.Strays, Cursor.After, Cursor.Load, FirstStrays, LastStrays, DataOffset, BigEndian;
    FirstStraysExactlyWhen(c);
    if c.Size() >= 2 && Ahead(c) >= FirstNeed(c) {
      LastStraysExactlyWhen(c, FirstNeed(c));
      var d := Cursor(c.m, c.offset + FirstNeed(c) - 2);
      d.LoadInSegment(2, Spell(0, 2), Shift(Frame(mem, 4), 2));
      assert c.m.data[c.offset..][FirstNeed(c) - 2..][..2] == d.m.data[d.offset..][..2];
    } else if c.Size() < 2 {
      LoadRefused(c, mem);
    }
  }

  /** Where the length field refuses every read, the data offset stays zero. */
  lemma LoadRefused(c: Cursor, mem: Memory)
    requires c.Valid() && c.Size() < 2
    ensures DataOffset(FirstOf(c, mem).left) == 0
  {
    hide Cursor.Strays;
    FirstStraysExactlyWhen(c);
    assert FirstOf(c, mem).left == BigEndian(Spell(0, 2));
    SpellIsBigEndian(0, 2);
  }

  /** Parsing leaves the packet exactly when the protocol byte of the IPv4 header is not in its
      segment, or the packet is TCP and the rest of that header is not, or the field reads do. */
  lemma ParseStraysExactlyWhen(m: Mbuf, mem: Memory)
    ensures ParseStrays(m, mem) <==>
      && 14 <= Cursor(m, 0).Size() && 20 <= IpAt(m).Size()
      && (Ahead(IpAt(m)) < 10 ||
          (IpAt(m).RawByte(9) == 6 &&
           (Ahead(IpAt(m)) < 20 || TcpStrays(TcpAt(m), mem))))
  {
    hide TcpStrays;
  }

  /** In one segment whose length field is right: exactly for 20 to 23 bytes, for TCP up to 33
      bytes, and for TCP headers that the segment cuts before the data offset, or before their end
      with a data offset of five or more. */
  lemma OneSegmentStrays(m: Mbuf, mem: Memory)
    requires m.Seg? && m.next.Null? && m.pktLen == |m.data|
    ensures ParseStrays(m, mem) <==>
      20 <= |m.data| &&
      (|m.data| < 24 || (m.data[23] == 6 &&
        (|m.data| < 34 ||
          var t := 14 + 4 * (m.data[14] % 16);
          t < |m.data| && (|m.data| < t + 14 || (m.data[t + 12] / 16 >= 5 && |m.data| < t + 20)))))
  {
    hide TcpStrays, BigEndian;
    ParseStraysExactlyWhen(m, mem);
    if |m.data| <= ETHER_BYTES {
      assert Cursor(m.next, 0).Skip(ETHER_BYTES - |m.data|) == Cursor(Null, 0);
    } else {
      assert IpAt(m) == Cursor(m, ETHER_BYTES);
      if 34 <= |m.data| {
        var t := ETHER_BYTES + HeaderLength(m.data[14]);
        TcpStraysExactlyWhen(TcpAt(m), mem);
        if t < |m.data| {
          assert TcpAt(m) == Cursor(m, t);
          if t + 14 <= |m.data| { DataOffsetByte(m.data[t..], 12); }
        } else {
          assert Cursor(m.next, 0).Skip(t - |m.data|) == Cursor(Null, 0);
          assert TcpAt(m).Size() == 0;
        }
      }
    }
  }

  lemma DataOffsetByte(s: seq<uint8>, i: nat)
    requires i + 2 <= |s|
    ensures DataOffset(Be16(s, i)) == s[i] / 16
  {
    hide BigEndian;
    var b := s[i..][..2];
    BigEndianPair(b);
    assert b[0] == s[i];
    TopNibble(b[0], b[1]);
  }

  lemma TopNibble(x: uint8, y: uint8)
    ensures (x as int * 256 + y) / 4096 % 16 == x / 16
  {
    var q, r := x / 16, x % 16;
    assert x as int * 256 + y == 4096 * q + (256 * r + y);
  }

  lemma BigEndianPair(b: seq<uint8>)
    requires |b| == 2
    ensures BigEndian(b) == b[0] as int * 256 + b[1]
  {
    assert b[..1][..0] == [] && b[..1][0] == b[0];
    assert BigEndian(b[..1]) == b[0];
  }

  // ---- packets as their sender laid them out ----

  /** A TCP segment after section 3.1 of RFC 9293, in an IPv4 packet, in an Ethernet frame. `ihl` is
      the IPv4 header length and `doff` the TCP data offset, in words. */
  datatype Packet = Packet(
    ether: seq<uint8>,
    ihl: nat, tos: uint8, totalLength: uint16, idFragTtl: seq<uint8>, ipChecksum: uint16,
    saddr4: uint32, daddr4: uint32, ipOptions: seq<uint8>,
    sport: uint16, dport: uint16, seqno: uint32, ackno: uint32,
    doff: nat, reserved: nat, flags: uint8, window: uint16, checksum: uint16, uptr: uint16,
    options: seq<uint8>, payload: seq<uint8>
  ) {
    ghost predicate Legal() {
      && |ether| == 14 && 5 <= ihl < 16 && |idFragTtl| == 5 && |ipOptions| == 4 * (ihl - 5)
      && 5 <= doff < 16 && reserved < 16 && |options| == 4 * (doff - 5)
    }

    ghost function Ip20(): (s: seq<uint8>)
      requires Legal()
      ensures |s| == 20
    {
      [64 + ihl, tos] + Spell(totalLength, 2) + idFragTtl + [6] + Spell(ipChecksum, 2)
      + Spell(saddr4, 4) + Spell(daddr4, 4)
    }

    ghost function Tcp20(): (s: seq<uint8>)
      requires Legal()
      ensures |s| == 20
    {
      Spell(sport, 2) + Spell(dport, 2) + Spell(seqno, 4) + Spell(ackno, 4)
      + Spell(doff * 4096 + reserved * 256 + flags, 2)
      + Spell(window, 2) + Spell(checksum, 2) + Spell(uptr, 2)
    }

    ghost function Bytes(): seq<uint8>
      requires Legal()
    {
      ether + (Ip20() + ipOptions) + Tcp20() + options + payload
    }

    /** The record that parsing makes of the packet: every field of the fixed header, but of the
        flags only the low four, and 20 bytes too few in the total. */
    ghost function Header(): TcpSegmentHeader
      requires Legal()
    {
      TcpSegmentHeader(daddr4, saddr4, totalLength, sport, dport, seqno, ackno, doff, flags % 16,
                       window, checksum, uptr, |options|,
                       |ether| + 4 * ihl + |options|)
    }

    lemma Length()
      requires Legal()
      ensures |Bytes()| == |ether| + 4 * ihl + 20 + |options| + |payload|
    {
    }

    lemma AfterEther()
      requires Legal()
      ensures Bytes()[ETHER_BYTES..] == (Ip20() + ipOptions) + (Tcp20() + (options + payload))
    {
      hide Ip20, Tcp20;
      var rest := (Ip20() + ipOptions) + (Tcp20() + (options + payload));
      assert Bytes() == ether + rest;
      assert (ether + rest)[|ether|..] == rest;
    }

    lemma FieldsOfIp()
      requires Legal()
      ensures Ip20()[9] == 6 && HeaderLength(Ip20()[0]) == 4 * ihl
      ensures Be32(Ip20(), 16) == daddr4 && Be32(Ip20(), 12) == saddr4 && Be16(Ip20(), 2) == totalLength
    {
      assert Ip20()[2..][..2] == Spell(totalLength, 2);
      assert Ip20()[12..][..4] == Spell(saddr4, 4);
      assert Ip20()[16..][..4] == Spell(daddr4, 4);
      SpellIsBigEndian(totalLength, 2);
      SpellIsBigEndian(saddr4, 4);
      SpellIsBigEndian(daddr4, 4);
    }

    lemma FieldsOfTcp()
      requires Legal()
      ensures var t := Tcp20();
        && Be16(t, 0) == sport && Be16(t, 2) == dport && Be32(t, 4) == seqno && Be32(t, 8) == ackno
        && Be16(t, 12) == doff * 4096 + reserved * 256 + flags
        && Be16(t, 14) == window && Be16(t, 16) == checksum && Be16(t, 18) == uptr
    {
      var t := Tcp20();
      var word := doff * 4096 + reserved * 256 + flags;
      assert t[0..][..2] == Spell(sport, 2);
      assert t[2..][..2] == Spell(dport, 2);
      assert t[4..][..4] == Spell(seqno, 4);
      assert t[8..][..4] == Spell(ackno, 4);
      assert t[12..][..2] == Spell(word, 2);
      assert t[14..][..2] == Spell(window, 2);
      assert t[16..][..2] == Spell(checksum, 2);
      assert t[18..][..2] == Spell(uptr, 2);
      SpellIsBigEndian(sport, 2);
      SpellIsBigEndian(dport, 2);
      SpellIsBigEndian(seqno, 4);
      SpellIsBigEndian(ackno, 4);
      SpellIsBigEndian(word, 2);
      SpellIsBigEndian(window, 2);
      SpellIsBigEndian(checksum, 2);
      SpellIsBigEndian(uptr, 2);
    }
  }

  lemma Next20IsRest(c: Cursor)
    requires c.Valid() && c.m.Seg? && c.offset + 20 <= |c.m.data|
    ensures |c.Rest()| >= 20 && Next20(c) == c.Rest()[..20]
    ensures Cursor(c.m, c.offset + 20).Rest() == c.Rest()[20..]
  {
    assert c.Rest()[20..] == c.m.data[c.offset + 20..] + Flat(c.m.next);
  }

  /** The field reads consume the 20 bytes of the TCP header exactly when it is whole; a split
      header leaves the reader short of the options. */
  lemma FieldReadsConsume(c: Cursor)
    requires c.Valid()
    ensures |AfterFields(c).Rest()| >= |c.Rest()| - 20
    ensures |AfterFields(c).Rest()| == |c.Rest()| - 20 <==> TcpHeaderWhole(c)
  {
    hide Cursor.After, Cursor.Rest;
    var c1 := c.After(2);
    var c2 := c1.After(2);
    var c3 := c2.After(4);
    var c4 := c3.After(4);
    var c5 := c4.After(2);
    var c6 := c5.After(2);
    var c7 := c6.After(2);
    c.ReadConsumes(2);
    c1.ReadConsumes(2);
    c2.ReadConsumes(4);
    c3.ReadConsumes(4);
    c4.ReadConsumes(2);
    c5.ReadConsumes(2);
    c6.ReadConsumes(2);
    c7.ReadConsumes(2);
    if c.InSegment(2) { c.AfterInSegment(2); }
    if c1.InSegment(2) { c1.AfterInSegment(2); }
    if c2.InSegment(4) { c2.AfterInSegment(4); }
    if c3.InSegment(4) { c3.AfterInSegment(4); }
    if c4.InSegment(2) { c4.AfterInSegment(2); }
    if c5.InSegment(2) { c5.AfterInSegment(2); }
    if c6.InSegment(2) { c6.AfterInSegment(2); }
  }

  /** The field reads of a whole header, whatever the uninitialised memory. */
  lemma FieldsOfWhole(c: Cursor, mem: Memory)
    requires c.Valid() && TcpHeaderWhole(c)
    ensures var t := Next20(c);
      && FirstOf(c, mem) == First(Be16(t, 0), Be16(t, 2), Be32(t, 4), Be32(t, 8), Be16(t, 12))
      && LastOf(AfterFirst(c), mem) == Last(Be16(t, 14), Be16(t, 16), Be16(t, 18))
      && AfterFields(c) == Cursor(c.m, c.offset + 20)
  {
    hide Cursor.After, Cursor.Load, BigEndian, Spell;
    WholeField(c, 0, 2, Take(Frame(mem, 0), 0, 2), Shift(Frame(mem, 0), 2));
    WholeField(c, 2, 2, Take(Frame(mem, 1), 0, 2), Shift(Frame(mem, 1), 2));
    WholeField(c, 4, 4, Take(Frame(mem, 2), 0, 4), Shift(Frame(mem, 2), 4));
    WholeField(c, 8, 4, Take(Frame(mem, 3), 0, 4), Shift(Frame(mem, 3), 4));
    WholeField(c, 12, 2, Spell(0, 2), Shift(Frame(mem, 4), 2));
    WholeField(c, 14, 2, Take(Frame(mem, 5), 0, 2), Shift(Frame(mem, 5), 2));
    WholeField(c, 16, 2, Take(Frame(mem, 6), 0, 2), Shift(Frame(mem, 6), 2));
    WholeField(c, 18, 2, Take(Frame(mem, 7), 0, 2), Shift(Frame(mem, 7), 2));
  }

  lemma WholeField(c: Cursor, k: nat, w: nat, out: seq<uint8>, mem: Memory)
    requires c.Valid() && TcpHeaderWhole(c) && w in {2, 4} && k + w <= 20 && |out| == w
    ensures var d := Cursor(c.m, c.offset + k);
      d.After(w) == Cursor(c.m, c.offset + k + w) && d.Load(w, out, mem) == Next20(c)[k..][..w]
  {
    hide Cursor.After, Cursor.Load, Cursor.Strays, Cursor.Rest;
    var d := Cursor(c.m, c.offset + k);
    d.AfterInSegment(w);
    d.LoadInSegment(w, out, mem);
    Slices(c.m.data, c.offset, 20, k, w);
  }

  lemma Slices(s: seq<uint8>, a: nat, n: nat, k: nat, w: nat)
    requires k + w <= n && a + n <= |s|
    ensures s[a..][..n][k..][..w] == s[a + k..][..w]
  {
  }

  /** What the code reads of the IPv4 header, wherever it reads it, is the packet's. */
  ghost predicate RawRight(m: Mbuf, p: Packet) {
    var c := IpAt(m);
    && c.m.Seg? && c.RawByte(9) == 6 && HeaderLength(c.RawByte(0)) == 4 * p.ihl
    && RawField(c, 16, 4) == p.daddr4 && RawField(c, 12, 4) == p.saddr4
    && RawField(c, 2, 2) == p.totalLength
  }

  ghost predicate Recovered(m: Mbuf, p: Packet, mem: Memory)
    requires p.Legal()
  {
    var r := ParseOf(m, mem);
    r.Parsed? && r.header == p.Header() && r.at.Rest() == p.payload
  }

  lemma IpOfPacket(m: Mbuf, p: Packet)
    requires p.Legal() && Flat(m) == p.Bytes()
    ensures IpAt(m).Rest() == p.Bytes()[ETHER_BYTES..]
    ensures RawHeader(IpAt(m)) ==> Next20(IpAt(m)) == p.Ip20() && RawRight(m, p)
  {
    hide Spell, Packet.Ip20, Packet.Tcp20, Cursor.Skip, BigEndian;
    var c := IpAt(m);
    Cursor(m, 0).SkipDrops(ETHER_BYTES);
    assert Cursor(m, 0).Rest() == Flat(m);
    if RawHeader(c) {
      Next20IsRest(c);
      assert p.Bytes()[ETHER_BYTES..][..20] == p.Ip20();
      p.FieldsOfIp();
      RawInSegment(c, 16, 4);
      RawInSegment(c, 12, 4);
      RawInSegment(c, 2, 2);
      assert c.RawByte(9) == Next20(c)[9] && c.RawByte(0) == Next20(c)[0];
    }
  }

  lemma {:induction false} RawInSegment(c: Cursor, i: nat, n: nat)
    requires c.Valid() && RawHeader(c) && i + n <= 20
    ensures RawBytes(c, i, n) == Next20(c)[i..][..n]
  {
    if n > 0 {
      RawInSegment(c, i, n - 1);
      assert Next20(c)[i..][..n] == Next20(c)[i..][..n - 1] + [Next20(c)[i + n - 1]];
    }
  }

  lemma TcpOfPacket(m: Mbuf, p: Packet)
    requires p.Legal() && Flat(m) == p.Bytes() && RawRight(m, p)
    ensures TcpAt(m).Rest() == p.Tcp20() + (p.options + p.payload)
  {
    hide Packet.Ip20, Packet.Tcp20, Packet.Bytes, Cursor.Skip, Cursor.Rest, RawField, BigEndian;
    IpOfPacket(m, p);
    IpAt(m).SkipDrops(4 * p.ihl);
    p.AfterEther();
    var ip, tcp := p.Ip20() + p.ipOptions, p.Tcp20() + (p.options + p.payload);
    assert (ip + tcp)[|ip|..] == tcp;
  }

  lemma WholeHasHeader(m: Mbuf, p: Packet, mem: Memory)
    requires p.Legal() && Flat(m) == p.Bytes() && RawRight(m, p) && TcpHeaderWhole(TcpAt(m))
    ensures var f := FirstOf(TcpAt(m), mem);
      DataOffset(f.left) == p.doff && HeaderOf(IpAt(m), f, LastOf(AfterFirst(TcpAt(m)), mem)) == p.Header()
    ensures AfterFields(TcpAt(m)) == Cursor(TcpAt(m).m, TcpAt(m).offset + 20)
    ensures AfterFields(TcpAt(m)).Rest() == p.options + p.payload
  {
    hide BigEndian, Spell, Be16, Be32, RawField, Cursor.Skip, Cursor.Rest, Packet.Bytes, FirstOf, LastOf,
         AfterFirst, AfterFields, Packet.Tcp20, Packet.Ip20, Flat, Cursor.RawByte, HeaderLength;
    var c := TcpAt(m);
    TcpOfPacket(m, p);
    Next20IsRest(c);
    assert Next20(c) == p.Tcp20();
    FieldsOfWhole(c, mem);
    p.FieldsOfTcp();
    var word := p.doff * 4096 + p.reserved * 256 + p.flags;
    assert word / 4096 == p.doff && word % 16 == p.flags % 16;
  }

  lemma WholeIsRecovered(m: Mbuf, p: Packet, mem: Memory)
    requires p.Legal() && Flat(m) == p.Bytes() && RawRight(m, p) && TcpHeaderWhole(TcpAt(m))
    requires 14 <= Cursor(m, 0).Size() && 20 <= IpAt(m).Size()
    ensures Recovered(m, p, mem)
  {
    hide HeaderOf, Cursor.Skip, Cursor.Rest, Packet.Bytes, Packet.Header, FirstOf, LastOf, AfterFirst,
         AfterFields, DataOffset;
    WholeHasHeader(m, p, mem);
    AfterFields(TcpAt(m)).SkipDrops(4 * (p.doff - 5));
    assert (p.options + p.payload)[|p.options|..] == p.payload;
  }

  lemma RecoveredIsWhole(m: Mbuf, p: Packet, mem: Memory)
    requires p.Legal() && Flat(m) == p.Bytes()
    ensures Recovered(m, p, mem) ==>
      && 14 <= Cursor(m, 0).Size() && 20 <= IpAt(m).Size()
      && RawRight(m, p) && TcpHeaderWhole(TcpAt(m))
  {
    hide BigEndian, Spell, Be16, Be32, RawField, Cursor.Skip, Cursor.Rest, Packet.Bytes, FirstOf, LastOf, AfterFields;
    if Recovered(m, p, mem) {
      assert RawRight(m, p);
      var c := TcpAt(m);
      TcpOfPacket(m, p);
      AfterFields(c).SkipDrops(4 * (p.doff - 5));
      FieldReadsConsume(c);
    }
  }

  /** Parsing recovers the header of a legal packet and stops at its payload exactly when the code
      reads the right bytes of the IPv4 header and the fixed TCP header lies in one segment whose
      length field allows reading it: for every segmentation, and whatever surrounds the packet. */
  lemma ParseRecoversExactlyWhen(m: Mbuf, p: Packet, mem: Memory)
    requires p.Legal() && Flat(m) == p.Bytes()
    ensures Recovered(m, p, mem) <==>
      && 14 <= Cursor(m, 0).Size() && 20 <= IpAt(m).Size()
      && RawRight(m, p) && TcpHeaderWhole(TcpAt(m))
    ensures RawHeader(IpAt(m)) ==> RawRight(m, p)
    ensures p.Header().totalHeaderBytes + 20 == |p.Bytes()| - |p.payload|
  {
    hide Recovered, RawRight;
    IpOfPacket(m, p);
    p.Length();
    RecoveredIsWhole(m, p, mem);
    if && 14 <= Cursor(m, 0).Size() && 20 <= IpAt(m).Size()
              && RawRight(m, p) && TcpHeaderWhole(TcpAt(m)) {
      WholeIsRecovered(m, p, mem);
    }
  }

  /** A packet in one segment whose length field is right is always recovered. */
  lemma OneSegmentRecovers(m: Mbuf, p: Packet, mem: Memory)
    requires p.Legal() && m.Seg? && m.data == p.Bytes() && m.next.Null? && m.pktLen == |m.data|
    ensures Recovered(m, p, mem)
  {
    hide BigEndian, Spell, Packet.Ip20, Packet.Tcp20;
    assert Flat(m) == p.Bytes();
    p.Length();
    assert IpAt(m) == Cursor(m, ETHER_BYTES);
    ParseRecoversExactlyWhen(m, p, mem);
    assert TcpAt(m) == Cursor(m, ETHER_BYTES + 4 * p.ihl);
  }

  /** Every legal packet is misparsed in some segmentation: here, one that splits the TCP header
      after its sequence number, with the IPv4 header whole and the length field right. */
  lemma SplitPacketIsMisparsed(p: Packet, past: Memory, rest: Mbuf, mem: Memory)
    requires p.Legal() && rest.Seg? && rest.next.Null?
    requires var k := 14 + 4 * p.ihl + 8; k <= |p.Bytes()| && rest.data == p.Bytes()[k..]
    ensures var m := Seg(p.Bytes()[..14 + 4 * p.ihl + 8], past, |p.Bytes()|, rest);
      Flat(m) == p.Bytes() && RawHeader(IpAt(m)) && !Recovered(m, p, mem)
  {
    hide BigEndian, Spell, Packet.Ip20, Packet.Tcp20, Recovered;
    var k := 14 + 4 * p.ihl + 8;
    var m := Seg(p.Bytes()[..k], past, |p.Bytes()|, rest);
    assert Flat(rest) == rest.data;
    assert Flat(m) == p.Bytes();
    assert IpAt(m) == Cursor(m, ETHER_BYTES);
    ParseRecoversExactlyWhen(m, p, mem);
    assert TcpAt(m) == Cursor(m, ETHER_BYTES + 4 * p.ihl);
  }

  /** Of the flags of section 3.1 of RFC 9293, ACK never survives parsing, and the byte as a whole
      does exactly when none of ACK, URG, ECE and CWR is set. */
  lemma FlagsSurvive(p: Packet)
    requires p.Legal()
    ensures p.Header().evtmask == p.flags <==> p.flags < 16
    ensures p.Header().evtmask / 16 % 2 == 0
    ensures p.Header().evtmask / 2 % 2 == p.flags / 2 % 2
    ensures p.Header().evtmask % 2 == p.flags % 2
  {
    hide Packet.Legal;
    LowFlags(p.flags);
  }

  lemma LowFlags(x: uint8)
    ensures x % 16 / 16 == 0 && x % 16 / 2 % 2 == x / 2 % 2 && x % 16 % 2 == x % 2
  {
    var q, r := x / 16, x % 16;
    assert x == 16 * q + r;
    assert x / 2 == 8 * q + r / 2;
  }

  lemma {:induction false} RawAcrossEnd(c: Cursor, i: nat, n: nat)
    requires c.m.Seg? && c.offset <= |c.m.data| <= c.offset + i
    ensures RawBytes(c, i, n) == Take(c.m.past, c.offset + i - |c.m.data|, n)
  {
    if n > 0 { RawAcrossEnd(c, i, n - 1); }
  }

  /** An IPv4 header split after its protocol byte: parsing goes on with what follows the first
      segment in memory as addresses, and reads the TCP header from its right place. The segment is
      handed to the state machine for whatever client that memory names. */
  lemma SplitIpHeaderNamesAnyClient(m: Mbuf, mem: Memory)
    requires m.Seg? && |m.data| == 24 && m.pktLen == 54 && m.data[14] == 0x45 && m.data[23] == 6
    requires m.next.Seg? && |m.next.data| == 30 && m.next.pktLen >= 4
    requires DataOffset(Be16(m.next.data[10..], 12)) >= 5
    ensures ParseStrays(m, mem) && ParseOf(m, mem).Parsed?
    ensures ParseOf(m, mem).header.saddr4 == BigEndian(Take(m.past, 2, 4))
    ensures ParseOf(m, mem).header.sport == Be16(m.next.data[10..], 0)
  {
    hide BigEndian, FirstOf, LastOf, TcpStrays, Be16, DataOffset, AfterFirst, AfterFields, Cursor.Rest, Flat;
    var ip := IpAt(m);
    assert ip == Cursor(m, ETHER_BYTES);
    var c := TcpAt(m);
    assert c == Cursor(m.next, 10) by {
      assert Cursor(m.next, 0).Skip(10) == Cursor(m.next, 10);
    }
    FieldsOfWhole(c, mem);
    assert Next20(c) == m.next.data[10..];
    RawAcrossEnd(ip, 12, 4);
  }

  // ---- headers in the last segment ----

  lemma {:induction false} ReadPastTheEnd(c: Cursor, w: nat)
    requires c.Valid() && c.m.Seg? && c.m.next.Null? && w in {1, 2, 4} && w <= c.Size() && Ahead(c) < w
    ensures c.After(w).m.Null?
    decreases w
  {
    if w > 1 {
      if Ahead(c) < w / 2 {
        ReadPastTheEnd(c, w / 2);
      } else {
        c.AfterInSegment(w / 2);
        ReadPastTheEnd(Cursor(c.m, c.offset + w / 2), w / 2);
      }
    }
  }

  /** `d` is `k` bytes after `c` in the last segment, or the packet has run out before. */
  ghost predicate OnTrack(c: Cursor, d: Cursor, k: nat)
    requires c.Valid()
  {
    if k <= Ahead(c) then d == Cursor(c.m, c.offset + k) else d.m.Null?
  }

  lemma EndStep(c: Cursor, d: Cursor, k: nat, w: nat)
    requires c.Valid() && d.Valid() && c.m.Seg? && c.m.next.Null? && w in {2, 4} && OnTrack(c, d, k)
    ensures OnTrack(c, d.After(w), if w <= c.Size() then k + w else k)
  {
    if d.m.Seg? && w <= c.Size() {
      if k + w <= Ahead(c) { d.AfterInSegment(w); } else { ReadPastTheEnd(d, w); }
    }
  }

  lemma FirstReadsOnTrack(c: Cursor)
    requires c.Valid() && c.m.Seg? && c.m.next.Null? && c.Size() >= 2
    ensures OnTrack(c, c.After(2).After(2).After(4).After(4), FirstNeed(c) - 2)
  {
    hide Cursor.After;
    var c1 := c.After(2);
    var c2 := c1.After(2);
    var c3 := c2.After(4);
    var k := if c.Size() >= 4 then 8 else 4;
    EndStep(c, c, 0, 2);
    EndStep(c, c1, 2, 2);
    EndStep(c, c2, 4, 4);
    EndStep(c, c3, k, 4);
  }

  /** A TCP header in the last segment is accepted exactly when the segment reaches the byte that
      is read as data offset, which may be the one after its data, and that byte says five or more:
      a header cut earlier is always dropped, because the packet has run out when the zeroed word is
      to be read. Reads of four bytes that the length field refuses bring that byte forward. */
  lemma LastSegmentParsesExactlyWhen(ip: Cursor, c: Cursor, mem: Memory)
    requires ip.Valid() && ip.m.Seg? && c.Valid() && (c.m.Seg? ==> c.m.next.Null?)
    ensures TcpParseOf(ip, c, mem).Parsed? <==>
      && c.Size() >= 2 && Ahead(c) >= FirstNeed(c) - 2
      && c.RawByte(FirstNeed(c) - 2) / 16 >= 5
  {
    hide Cursor.After, Cursor.Load, Cursor.Strays, BigEndian, LeftWord, Field16, Field32, LastOf, HeaderOf;
    if c.Size() < 2 {
      LoadRefused(c, mem);
    } else {
      FirstReadsOnTrack(c);
      var d := c.After(2).After(2).After(4).After(4);
      if Ahead(c) < FirstNeed(c) - 2 {
        ZeroWord(d, Frame(mem, 4));
      } else {
        LeftWordTop(d, Frame(mem, 4));
      }
    }
  }

  lemma LeftWordTop(d: Cursor, mem: Memory)
    requires d.Valid() && d.Size() >= 2
    ensures DataOffset(LeftWord(d, mem)) == d.Byte() / 16
  {
    var bytes := d.Load(2, Spell(0, 2), Shift(mem, 2));
    BigEndianPair(bytes);
    TopNibble(bytes[0], bytes[1]);
  }

  lemma ZeroWord(c: Cursor, mem: Memory)
    requires c.Valid() && c.Size() < 2
    ensures LeftWord(c, mem) == 0
  {
    SpellIsBigEndian(0, 2);
  }

  // ---- the whole of handleTcpRx ----

  /** Parsing succeeds, and the destination port it reads is the listening one. */
  ghost predicate ReachesHandler(m: Mbuf, mem: Memory) {
    ParseOf(m, mem).Parsed? && ParseOf(m, mem).header.dport == LISTEN_CLIENT_ID
  }

  function Sender(h: TcpSegmentHeader): uint64 {
    MakeClientId(h.saddr4, h.sport)
  }

  /** A received packet, of which the method owns a reference: parsed and dispatched as one segment
      step, or dropped without effect. */
  method HandleTcpRx(tcp: TcpImpl, m: Mbuf, mem: Memory, resetOk: bool, memory: uint32, pkt: Buf)
    returns (ghost events: seq<Event>, ghost strays: bool)
    requires tcp.Valid() && tcp.status.Running? && tcp.NoneListens()
    modifies tcp`status, tcp`blocks, tcp.tcbTable, tcp.tcbTable.data, tcp.blocks, pkt
    ensures tcp.Valid() && fresh(tcp.blocks - old(tcp.blocks))
    ensures strays == ParseStrays(m, mem)
    ensures ParseOf(m, mem).Parsed? ==> ParseOf(m, mem).header.evtmask < 16
    ensures ParseOf(m, mem).Dropped? ==> events == [] && tcp.View() == old(tcp.View())
    ensures ParseOf(m, mem).Parsed? ==>
      && events == [Segment(ParseOf(m, mem).header, resetOk, old(tcp.InsertionFor(Sender(ParseOf(m, mem).header))))]
      && tcp.View() == Step(old(tcp.View()), events[0])
    ensures pkt.Value() == AfterDispatch(old(pkt.Value()), ReachesHandler(m, mem), tcp.status)
    ensures !ReachesHandler(m, mem) ==> tcp.status.Running?
  {
    hide ParseOf, ParseStrays, Step, Cell.Gained, Cell.Cleared, TcpImpl.View, TcpImpl.Valid, TcpImpl.NoneListens,
         TcpImpl.InsertionFor, MakeClientId;
    var rbuf := new Handle();
    rbuf.OwnWithoutIncrement(pkt);
    var r;
    r, strays := Parse(m, mem);
    events := [];
    if r.Dropped? {
      rbuf.Clear();
      return;
    }
    events := [Segment(r.header, resetOk, tcp.InsertionFor(Sender(r.header)))];
    tcp.Dispatch(r.header, resetOk, memory, rbuf);
  }
}
