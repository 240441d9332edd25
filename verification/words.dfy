/** Machine words: powers of two, masks, and arithmetic that wraps. */
module Words {

  const U32: nat := 0x1_0000_0000
  const U64: nat := 0x1_0000_0000_0000_0000

  function Pow2(t: nat): (r: nat)
    ensures r > 0
  {
    if t == 0 then 1 else 2 * Pow2(t - 1)
  }

  // Quotient and remainder by a number that is not a literal, named so that proofs can treat them as unknown.

  function Div(x: nat, d: nat): nat
    requires d > 0
  {
    x / d
  }

  function Rem(x: nat, d: nat): nat
    requires d > 0
  {
    x % d
  }

  function Wrap(x: nat): nat {
    x % U64
  }

  /** 32-bit words */
  function Wrap32(x: int): nat {
    x % U32
  }

  lemma {:induction false} Wrap32Step(x: int)
    ensures Wrap32(Wrap32(x) + 1) == Wrap32(x + 1) && Wrap32(Wrap32(x) - 1) == Wrap32(x - 1)
    ensures Wrap32(Wrap32(x + 1)) == Wrap32(x + 1)
  {
  }

  lemma {:induction false} Wrap32Zero()
    ensures Wrap32(0) == 0
  {
  }

  /** x - y as words */
  function WrapSub(x: nat, y: nat): nat {
    (x - y) % U64
  }

  lemma {:induction false} DivRem(x: nat, d: nat)
    requires d > 0
    ensures x == Div(x, d) * d + Rem(x, d) && Rem(x, d) < d
  {
  }

  lemma {:induction false} DivRemIs(x: nat, d: nat, q: nat, r: nat)
    requires r < d && x == q * d + r
    ensures Div(x, d) == q && Rem(x, d) == r
  {
    Mod(x, d, q, r);
  }

  lemma {:induction false} WrapSmall(x: nat)
    ensures Wrap(x) < U64 && (x < U64 ==> Wrap(x) == x)
  {
  }

  lemma {:induction false} WrapSum(x: nat, y: nat)
    ensures Wrap(Wrap(x) + y) == Wrap(x + y)
  {
  }

  /** The difference of two wrapped counters. */
  lemma {:induction false} WrapDistance(x: nat, y: nat)
    requires y <= x < y + U64
    ensures WrapSub(Wrap(x), Wrap(y)) == x - y
  {
  }

  /** x & y */
  function And(x: nat, y: nat): nat {
    if x == 0 || y == 0 then 0
    else 2 * And(x / 2, y / 2) + if x % 2 == 1 && y % 2 == 1 then 1 else 0
  }

  /** x ^ y */
  function Xor(x: nat, y: nat): nat {
    if x == 0 && y == 0 then 0 else 2 * Xor(x / 2, y / 2) + if x % 2 != y % 2 then 1 else 0
  }

  /** A mask of bits from bit k on takes nothing of a number below 2^k. */
  lemma {:induction false} AndAbove(x: nat, m: nat, k: nat)
    requires x < Pow2(k)
    ensures And(x, m * Pow2(k)) == 0
  {
    if k > 0 {
      var y := m * Pow2(k);
      assert y == 2 * (m * Pow2(k - 1));
      AndAbove(x / 2, m, k - 1);
    }
  }

  lemma {:induction false} Mod(x: int, d: int, q: int, r: int)
    requires 0 <= r < d && x == q * d + r
    ensures x / d == q && x % d == r
  {
    var e := q - x / d;
    assert x == x / d * d + x % d;
    assert e * d == x % d - r;
    MulSign(e, d);
    assert e == 0;
  }

  lemma {:induction false} MulSign(e: int, d: int)
    requires d > 0
    ensures e >= 1 ==> e * d >= d
    ensures e <= -1 ==> e * d <= -d
  {
  }

  lemma {:induction false} Larger(x: nat, y: nat, z: nat)
    requires y <= z
    ensures x * y <= x * z
  {
  }

  /** Masking with a power of two less one is the remainder. */
  lemma {:induction false} LowBits(x: nat, k: nat)
    ensures And(x, Pow2(k) - 1) == Rem(x, Pow2(k))
  {
    if k > 0 {
      hide Rem; hide And;
      LowBits(x / 2, k - 1);
      Halves(x, Pow2(k - 1));
      AndOdd(x, Pow2(k - 1));
    } else {
      assert Rem(x, 1) == 0;
    }
  }

  lemma {:induction false} AndOdd(x: nat, p: nat)
    requires p > 0
    ensures And(x, 2 * p - 1) == 2 * And(x / 2, p - 1) + x % 2
  {
    assert (2 * p - 1) % 2 == 1 && (2 * p - 1) / 2 == p - 1;
  }

  lemma {:induction false} Halves(x: nat, p: nat)
    requires p > 0
    ensures Rem(x, 2 * p) == 2 * Rem(x / 2, p) + x % 2
  {
    var q, r := x / 2 / p, x / 2 % p;
    assert x / 2 == q * p + r;
    assert x == q * (2 * p) + (2 * r + x % 2);
    Mod(x, 2 * p, q, 2 * r + x % 2);
  }

  lemma {:induction false} PowSum(a: nat, b: nat)
    ensures Pow2(a + b) == Pow2(a) * Pow2(b)
  {
    if a > 0 {
      PowSum(a - 1, b);
      assert a + b - 1 == a - 1 + b;
      assert Pow2(a) * Pow2(b) == 2 * (Pow2(a - 1) * Pow2(b));
    }
  }

  lemma {:induction false} PowGrows(a: nat, b: nat)
    requires a <= b
    ensures Pow2(a) <= Pow2(b)
  {
    if a < b {
      PowGrows(a, b - 1);
    }
  }

  lemma {:induction false} Pow32()
    ensures Pow2(32) == U32 && Pow2(63) == U64 / 2 && Pow2(64) == U64
  {
    assert Pow2(8) == 256;
    PowSum(8, 8);
    PowSum(16, 16);
    PowSum(32, 32);
  }
}
