/** Types shared by every component of the model. */
module Common {

  datatype Option<+T> = None | Some(value: T)

  /** Bounds of the unsigned C++ integer types; arithmetic on them wraps. */
  const U8: nat := 0x100
  const U16: nat := 0x1_0000
  const U32: nat := 0x1_0000_0000
  const U64: nat := 0x1_0000_0000_0000_0000

  type uint8 = x: nat | x < U8
  type uint16 = x: nat | x < U16
  type uint32 = x: nat | x < U32
  type uint64 = x: nat | x < U64

  lemma SizeWithout(s: set<nat>, q: nat)
    ensures |s - {q}| + (if q in s then 1 else 0) == |s|
  {
  }

  /** `(d + pos) % n` for at most one lap of a circle of `n` places. */
  function Around(pos: nat, d: nat, n: nat): (q: nat)
    requires pos < n && d <= n
    ensures q < n
  {
    if pos + d < n then pos + d else pos + d - n
  }

  lemma AroundIsModulo(pos: nat, d: nat, n: nat)
    requires pos < n && d <= n
    ensures (pos + d) % n == (d + pos) % n == Around(pos, d, n)
  {
    var x := d + pos;
    OneLap(x, n, x / n, x % n);
  }

  lemma OneLap(x: nat, n: nat, k: int, r: nat)
    requires x < 2 * n && r < n && x == n * k + r
    ensures r == if x < n then x else x - n
  {
    Multiples(n, k);
  }

  lemma Multiples(n: nat, k: int)
    ensures k <= 0 ==> n * k <= 0
    ensures k >= 2 ==> n * k >= 2 * n
  {
    if k >= 2 { assert n * k == 2 * n + n * (k - 2); }
  }
}
