/** Bits of positions: the bits of a position below its highest one spell the way from the root to it. */
module HeapBits {

  /** x >> d */
  function Shr(x: nat, d: nat): nat {
    if d == 0 then x else Shr(x / 2, d - 1)
  }

  /** x & BIT(d) is not zero. */
  function Bit(x: nat, d: nat): bool {
    Shr(x, d) % 2 == 1
  }

  /** flsuf: the index of the highest set bit. */
  function Flsuf(x: nat): nat {
    if x < 2 then 0 else 1 + Flsuf(x / 2)
  }

  lemma {:induction false} ShrStep(x: nat, d: nat)
    ensures Shr(x, d + 1) == Shr(x, d) / 2
    ensures Shr(x, d) == 2 * Shr(x, d + 1) + if Bit(x, d) then 1 else 0
  {
    if d > 0 {
      ShrStep(x / 2, d - 1);
    }
  }

  /** The walk starts at position 1, and while bits are left it is still above its goal. */
  lemma {:induction false} ShrTop(x: nat)
    requires x >= 1
    ensures Shr(x, Flsuf(x)) == 1
  {
    if x >= 2 {
      ShrTop(x / 2);
    }
  }

  lemma {:induction false} ShrBelow(x: nat, d: nat)
    ensures Shr(x, d) <= x && (d > 0 && x > 0 ==> Shr(x, d) < x)
  {
    if d > 0 {
      ShrBelow(x / 2, d - 1);
    }
  }
}
