/**
 core/multi_timer.hxx: the timers of one control block. Each armed timer hands its callback one
 64-bit cookie that carries the owner's address in the low 56 bits and the timer id above them.
 */
module MultiTimer {
  import opened Common

  const TOP_BYTE: nat := 0x100_0000_0000_0000

  function Pow2(n: nat): nat {
    if n == 0 then 1 else 2 * Pow2(n - 1)
  }

  /** The bitwise or of the low n bits of two numbers. */
  function Or(x: nat, y: nat, n: nat): (r: nat)
    ensures r < Pow2(n)
  {
    if n == 0 then 0
    else 2 * Or(x / 2, y / 2, n - 1) + if x % 2 == 1 || y % 2 == 1 then 1 else 0
  }

  function OrByte(x: uint8, y: uint8): uint8 {
    assert Pow2(8) == U8;
    Or(x, y, 8)
  }

  /** `srcAddr | (0xFF & evt) << 56`. */
  function Cookie(srcAddr: uint64, evt: nat): uint64 {
    OrByte(srcAddr / TOP_BYTE, evt % U8) * TOP_BYTE + srcAddr % TOP_BYTE
  }

  function CookieTimer(cookie: uint64): uint8 {
    cookie / TOP_BYTE
  }

  function CookieClient(cookie: uint64): uint64 {
    cookie % TOP_BYTE
  }

  lemma {:induction false} OrWithZero(y: nat, n: nat)
    requires y < Pow2(n)
    ensures Or(0, y, n) == y
  {
    if n > 0 { OrWithZero(y / 2, n - 1); }
  }

  lemma OrByteWithZero(y: uint8)
    ensures OrByte(0, y) == y
  {
    assert Pow2(8) == U8;
    OrWithZero(y, 8);
  }

  /** Decoding recovers the owner and the timer exactly when the owner leaves the top byte clear
      and the timer id fits in it. */
  lemma CookieRoundTrip(srcAddr: uint64, evt: nat)
    ensures CookieClient(Cookie(srcAddr, evt)) == srcAddr && CookieTimer(Cookie(srcAddr, evt)) == evt
        <==> srcAddr < TOP_BYTE && evt < U8
  {
    hide OrByte;
    OrByteWithZero(evt % U8);
  }

  lemma CookiesDistinct(a: uint64, i: nat, b: uint64, j: nat)
    requires a < TOP_BYTE && b < TOP_BYTE && i < U8 && j < U8
    ensures Cookie(a, i) == Cookie(b, j) <==> a == b && i == j
  {
    CookieRoundTrip(a, i);
    CookieRoundTrip(b, j);
  }

  /** The timers that are pending, each with the cookie its callback will receive. */
  datatype Timers = Timers(srcAddr: uint64, armed: map<nat, uint64>) {

    /** `start`: the tick count is a 32-bit product; a running timer is stopped before it is
        reset, and `resetOk` is what `rte_timer_reset` answers. */
    function Start(id: nat, ms: uint32, resetOk: bool): (Timers, bool) {
      if Ticks(ms) == 0 then (this, false)
      else
        var stopped := this.(armed := armed - {id});
        if resetOk then (stopped.(armed := stopped.armed[id := Cookie(srcAddr, id)]), true)
        else (stopped, false)
    }
  }

  function Ticks(ms: uint32): uint32 {
    (ms * 100) % U32
  }

  /** `start` refuses exactly the multiples of 2^30 milliseconds, zero and three others, and then
      leaves every timer alone; otherwise it leaves its timer armed if and only if it returns true. */
  lemma StartArms(t: Timers, id: nat, ms: uint32, resetOk: bool)
    ensures var (u, ok) := t.Start(id, ms, resetOk);
      && (ms % 0x4000_0000 == 0 ==> u == t && !ok)
      && (ms % 0x4000_0000 != 0 ==> ok == resetOk && (id in u.armed <==> ok))
      && (ok ==> u.armed[id] == Cookie(t.srcAddr, id))
      && u.armed - {id} == t.armed - {id}
  {
    TicksVanish(ms);
  }

  lemma TicksVanish(ms: uint32)
    ensures Ticks(ms) == 0 <==> ms % 0x4000_0000 == 0
  {
    var m, q, r := ms * 100 / U32, ms / 0x4000_0000, ms % 0x4000_0000;
    assert Ticks(ms) == U32 * (25 * q - m) + 100 * r;
    assert r == 0 ==> Ticks(ms) == 0;
  }
}
