/** Bitwise operations of unsigned machine words, defined bit by bit on natural numbers. */
module Bits {

  /** An octet. */
  type byte = b: int | 0 <= b < 256

  const TWO_63 := 0x8000_0000_0000_0000
  const TWO_64 := 0x1_0000_0000_0000_0000

  function Pow2(n: nat): (p: nat)
    ensures p > 0
  {
    if n == 0 then 1 else 2 * Pow2(n - 1)
  }

  /** `x | y` */
  function Or(x: nat, y: nat): nat
    decreases x + y
  {
    if x == 0 && y == 0 then 0
    else 2 * Or(x / 2, y / 2) + (if x % 2 == 1 || y % 2 == 1 then 1 else 0)
  }

  /** `x & y` */
  function And(x: nat, y: nat): nat
    decreases x + y
  {
    if x == 0 || y == 0 then 0
    else 2 * And(x / 2, y / 2) + (if x % 2 == 1 && y % 2 == 1 then 1 else 0)
  }

  /** `x << s` on 64-bit words: bits shifted past the top are lost. */
  function Shl(x: nat, s: nat): nat {
    x * Pow2(s) % TWO_64
  }

  /** `x >> s` on 64-bit words. */
  function Shr(x: nat, s: nat): int {
    x / Pow2(s)
  }

  /** `int64(v)`: the same 64 bits read as two's complement. */
  function ToInt64(v: nat): int
    requires v < TWO_64
  {
    if v < TWO_63 then v else v - TWO_64
  }

  /** `uint64(i)` */
  function ToUint64(i: int): nat
    requires -TWO_63 <= i < TWO_63
  {
    if i >= 0 then i else i + TWO_64
  }

  lemma {:induction false} Pow2Add(a: nat, b: nat)
    ensures Pow2(a + b) == Pow2(a) * Pow2(b)
  {
    if a == 0 {
    } else {
      Pow2Add(a - 1, b);
      assert Pow2(a + b) == 2 * Pow2(a - 1 + b);
      assert 2 * (Pow2(a - 1) * Pow2(b)) == (2 * Pow2(a - 1)) * Pow2(b);
    }
  }

  lemma {:induction false} Pow2Monotone(a: nat, b: nat)
    requires a <= b
    ensures Pow2(a) <= Pow2(b)
  {
    Pow2Add(a, b - a);
    MulMonotone(1, Pow2(b - a), Pow2(a));
  }

  lemma {:induction false} Pow2Values()
    ensures Pow2(7) == 128 && Pow2(8) == 256 && Pow2(63) == TWO_63 && Pow2(64) == TWO_64
  {
    assert Pow2(2) == 4;
    assert Pow2(4) == 16;
    assert Pow2(7) == 8 * Pow2(4);
    Pow2Add(8, 8);
    Pow2Add(16, 16);
    Pow2Add(32, 32);
    assert Pow2(64) == 2 * Pow2(63);
  }

  lemma {:induction false} OrZero(y: nat)
    ensures Or(0, y) == y
  {
    if y == 0 {
    } else {
      OrZero(y / 2);
    }
  }

  /** Or-ing in a word whose low `s` bits are clear is an addition. */
  lemma {:induction false} OrDisjoint(x: nat, y: nat, s: nat)
    requires x < Pow2(s)
    ensures Or(x, y * Pow2(s)) == x + y * Pow2(s)
  {
    if s == 0 {
      OrZero(y);
    } else {
      var z := y * Pow2(s - 1);
      assert y * Pow2(s) == 2 * z;
      OrDisjoint(x / 2, y, s - 1);
    }
  }

  lemma {:induction false} MulMonotone(a: int, b: int, c: nat)
    requires a <= b
    ensures a * c <= b * c
  {
  }

  /** Quotient and remainder are unique. */
  lemma {:induction false} DivModUnique(d: nat, q: nat, r: nat)
    requires r < d
    ensures (q * d + r) / d == q && (q * d + r) % d == r
  {
    var x := q * d + r;
    var k := x / d;
    assert x == d * k + x % d;
    if k < q {
      MulMonotone(k + 1, q, d);
    } else if q < k {
      MulMonotone(q + 1, k, d);
    }
  }

  /** Masking with the low `k` bits is a remainder. */
  lemma {:induction false} AndMask(x: nat, k: nat)
    ensures And(x, Pow2(k) - 1) == x % Pow2(k)
  {
    if k > 0 {
      var m := Pow2(k - 1);
      AndMask(x / 2, k - 1);
      AndOdd(x, m - 1);
      assert 2 * (m - 1) + 1 == Pow2(k) - 1;
      RemainderOfDouble(x, m);
    }
  }

  lemma {:induction false} AndOdd(x: nat, y: nat)
    ensures And(x, 2 * y + 1) == 2 * And(x / 2, y) + x % 2
  {
  }

  lemma {:induction false} RemainderOfDouble(x: nat, m: nat)
    requires m > 0
    ensures x % (2 * m) == 2 * (x / 2 % m) + x % 2
  {
    var q, r := x / 2 / m, x / 2 % m;
    assert x / 2 == m * q + r;
    var s := 2 * r + x % 2;
    assert x == 2 * (m * q) + s;
    assert 2 * (m * q) == q * (2 * m);
    DivModUnique(2 * m, q, s);
  }
}
