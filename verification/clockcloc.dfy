/** Scaling of cycles to nanoseconds (lib/clockcloc.c, include/clockcloc.h): how well a multiplier and a shift
    stand for the quotient to / from, and why the sums of many conversions do not drift. */
module ClockCloc {
  import opened Words

  /** Number of bits of x. */
  function BitLength(x: nat): nat {
    if x == 0 then 0 else 1 + BitLength(x / 2)
  }

  lemma {:induction false} BitBounds(x: nat)
    ensures x < Pow2(BitLength(x)) && (x > 0 ==> Pow2(BitLength(x) - 1) <= x)
  {
    if x > 0 {
      BitBounds(x / 2);
    }
  }

  lemma {:induction false} FewBits(x: nat, k: nat)
    requires x < Pow2(k)
    ensures BitLength(x) <= k
  {
    BitBounds(x);
    if x > 0 && BitLength(x) > k {
      PowGrows(k, BitLength(x) - 1);
    }
  }

  lemma {:induction false} MoreBits(x: nat, k: nat)
    requires x >= Pow2(k)
    ensures BitLength(x) > k
  {
    BitBounds(x);
    if BitLength(x) <= k {
      PowGrows(BitLength(x), k);
    }
  }

  /** How many bits the multiplier may have, for the products with up to most cycles to fit 64 bits. */
  ghost function Room(most: nat): nat
    requires most < U64
  {
    RoomFits(most);
    32 - BitLength(most / U32)
  }

  lemma {:induction false} RoomFits(most: nat)
    requires most < U64
    ensures BitLength(most / U32) <= 32
  {
    Pow32();
    FewBits(most / U32, 32);
  }

  /** to / from scaled by 2^s, rounded to the nearest. */
  ghost function Scaled(from: nat, to: nat, s: nat): nat
    requires from > 0
  {
    Div(to * Pow2(s) + from / 2, from)
  }

  /** None of the products that clock_cloc_mult_shift itself forms wraps. */
  ghost predicate Fits(from: nat, to: nat, maxsec: nat) {
    maxsec * from < U64 && to * U32 + from / 2 < U64
  }

  method MultShift(from: nat, to: nat, maxsec: nat) returns (mult: nat, shift: nat)
    requires 0 < from < U64 && to < U64 && maxsec < U64
    ensures mult < U32 && shift <= 32
    ensures Fits(from, to, maxsec) ==> (shift > 0 <==> Scaled(from, to, 1) < Pow2(Room(maxsec * from)))
    ensures Fits(from, to, maxsec) && shift > 0 ==> Best(from, to, maxsec * from, mult, shift)
    ensures Fits(from, to, maxsec) && shift == 0 ==> mult == Scaled(from, to, 1) % U32
  {
    hide Scaled; hide Room; hide BitLength; hide Div; hide Wrap; hide Pow2; hide Best;
    var sftacc: int := 32;
    ghost var most := Wrap(maxsec * from);
    WrapSmall(maxsec * from);
    var tmp: nat := Wrap(maxsec * from) / U32;
    RoomFits(most);
    RoomIs(most);
    BitStep(tmp);
    while tmp != 0
      invariant sftacc == 32 - BitLength(most / U32) + BitLength(tmp)
    {
      BitStep(tmp);
      tmp := tmp / 2;
      sftacc := sftacc - 1;
    }
    BitStep(0);
    assert sftacc == Room(most);
    Pow32();
    var sft := 32;
    while sft > 0
      invariant 0 <= sft <= 32 
      invariant Fits(from, to, maxsec) ==> forall s :: sft < s <= 32 ==> Scaled(from, to, s) >= Pow2(sftacc)
      invariant Fits(from, to, maxsec) && sft < 32 ==> tmp == Scaled(from, to, sft + 1)
    {
      Attempt(from, to, maxsec, sft);
      tmp := Wrap(to * Pow2(sft));
      tmp := Wrap(tmp + from / 2);
      tmp := Div(tmp, from);
      assert Fits(from, to, maxsec) ==> tmp == Scaled(from, to, sft);
      Quotient(tmp, sftacc);
      if Div(tmp, Pow2(sftacc)) == 0 {
        break;
      }
      sft := sft - 1;
    }
    mult := tmp % U32;
    shift := sft;
    if Fits(from, to, maxsec) {
      assert most == maxsec * from;
      ScaledGrows(from, to);
      if sft > 0 {
        assert tmp == Scaled(from, to, sft) < Pow2(Room(maxsec * from));
        BestIs(from, to, maxsec * from, tmp, sft);
      }
    }
  }

  lemma {:induction false} RoomIs(most: nat)
    requires most < U64
    ensures Room(most) == 32 - BitLength(most / U32) && Room(most) <= 32
  {
    RoomFits(most);
  }

  lemma {:induction false} BitStep(x: nat)
    ensures x > 0 ==> BitLength(x) == 1 + BitLength(x / 2)
    ensures x == 0 ==> BitLength(x) == 0
  {
  }

  lemma {:induction false} Quotient(x: nat, k: nat)
    ensures Div(x, Pow2(k)) == 0 <==> x < Pow2(k)
  {
    hide Div; hide Rem;
    DivRem(x, Pow2(k));
    if x < Pow2(k) {
      DivRemIs(x, Pow2(k), 0, x);
    }
  }

  lemma {:induction false} Attempt(from: nat, to: nat, maxsec: nat, s: nat)
    requires from > 0 && s <= 32
    ensures Fits(from, to, maxsec) ==> Scaled(from, to, s) == Div(Wrap(Wrap(to * Pow2(s)) + from / 2), from)
  {
    hide Div; hide Wrap; hide Pow2;
    if Fits(from, to, maxsec) {
      NoWrap(from, to, s);
    }
  }

  lemma {:induction false} NoWrap(from: nat, to: nat, s: nat)
    requires from > 0 && s <= 32 && to * U32 + from / 2 < U64
    ensures to * Pow2(s) + from / 2 < U64
    ensures Scaled(from, to, s) == Div(Wrap(Wrap(to * Pow2(s)) + from / 2), from)
  {
    hide Div; hide Wrap;
    WrapSmall(to * Pow2(s));
    WrapSmall(to * Pow2(s) + from / 2);
    Pow32();
    PowGrows(s, 32);
    hide Pow2;
    Larger(to, Pow2(s), U32);
  }

  lemma {:induction false} ScaledGrows(from: nat, to: nat)
    requires from > 0
    ensures forall s, s' :: s <= s' ==> Scaled(from, to, s) <= Scaled(from, to, s')
  {
    forall s: nat, s': nat | s <= s' ensures Scaled(from, to, s) <= Scaled(from, to, s') {
      PowGrows(s, s');
      Larger(to, Pow2(s), Pow2(s'));
      Monotone(to * Pow2(s) + from / 2, to * Pow2(s') + from / 2, from);
    }
  }

  lemma {:induction false} Monotone(x: nat, y: nat, d: nat)
    requires x <= y && d > 0
    ensures Div(x, d) <= Div(y, d)
  {
    hide Div; hide Rem;
    DivRem(x, d);
    DivRem(y, d);
    var e := Div(x, d) - Div(y, d);
    assert e * d == (x - Rem(x, d)) - (y - Rem(y, d));
    MulSign(e, d);
  }

  /** What the conversion factor is good for. */
  ghost predicate Best(from: nat, to: nat, most: nat, mult: nat, shift: nat)
    requires from > 0 && most < U64
  {
    // rounded to the nearest
    && -(from as int) <= 2 * (mult * from - to * Pow2(shift)) <= from
    // room for every product
    && (forall cycles: nat :: cycles <= most ==> mult * cycles < U64)
    && mult < Pow2(Room(most))
    // and any larger shift has a multiplier without that room; then the largest product reaches the top bit
    && (forall s :: shift < s <= 32 ==> Scaled(from, to, s) >= Pow2(Room(most)))
    && (most >= U32 ==> forall s :: shift < s <= 32 ==> Scaled(from, to, s) * most >= U64 / 2)
  }

  lemma {:induction false} BestIs(from: nat, to: nat, most: nat, mult: nat, shift: nat)
    requires from > 0 && most < U64 && 0 < shift <= 32
    requires mult == Scaled(from, to, shift) < Pow2(Room(most))
    requires forall s :: shift < s <= 32 ==> Scaled(from, to, s) >= Pow2(Room(most))
    ensures Best(from, to, most, mult, shift) && mult < U32
  {
    hide Scaled; hide Room;
    RoomIs(most);
    Pow32();
    PowGrows(Room(most), 32);
    Rounded(from, to, shift);
    forall cycles: nat | cycles <= most ensures mult * cycles < U64 {
      ProductFits(most, mult, cycles);
    }
    if most >= U32 {
      forall s | shift < s <= 32 ensures Scaled(from, to, s) * most >= U64 / 2 {
        ProductLarge(most, Scaled(from, to, s));
      }
    }
  }

  lemma {:induction false} Rounded(from: nat, to: nat, s: nat)
    requires from > 0
    ensures -(from as int) <= 2 * (Scaled(from, to, s) * from - to * Pow2(s)) <= from
  {
    hide Div; hide Rem; hide Pow2;
    DivRem(to * Pow2(s) + from / 2, from);
  }

  lemma {:induction false} MostBelow(most: nat)
    requires most < U64
    ensures most < Pow2(64 - Room(most)) && Pow2(64 - Room(most)) * Pow2(Room(most)) == U64
    ensures U32 <= Pow2(64 - Room(most))
    ensures most >= U32 ==> 2 * most >= Pow2(64 - Room(most))
  {
    hide Room;
    var b := BitLength(most / U32);
    RoomIs(most);
    BitBounds(most / U32);
    Pow32();
    PowSum(32, b);
    PowSum(64 - Room(most), Room(most));
    assert most / U32 + 1 <= Pow2(b);
    assert most < (most / U32 + 1) * U32;
    PowGrows(32, 32 + b);
  }

  lemma {:induction false} ProductFits(most: nat, mult: nat, cycles: nat)
    requires most < U64 && cycles <= most && mult < Pow2(Room(most))
    ensures mult * cycles + U32 <= U64
  {
    hide Room; hide Pow2;
    RoomIs(most);
    MostBelow(most);
    Below(mult, cycles, Pow2(Room(most)), Pow2(64 - Room(most)));
  }

  lemma {:induction false} Below(x: nat, y: nat, a: nat, b: nat)
    requires x < a && y < b
    ensures x * y + b <= a * b
  {
    assert x * y <= x * b;
    assert (x + 1) * b <= a * b;
  }

  lemma {:induction false} ProductLarge(most: nat, mult: nat)
    requires U32 <= most < U64 && mult >= Pow2(Room(most))
    ensures mult * most >= U64 / 2
  {
    hide Room; hide Pow2;
    RoomIs(most);
    MostBelow(most);
    var p, q := Pow2(Room(most)), Pow2(64 - Room(most));
    Larger(most, p, mult);
    Larger(p, q, 2 * most);
    Half(p, q, most, mult);
  }

  lemma {:induction false} Half(p: nat, q: nat, most: nat, mult: nat)
    requires most * p <= most * mult && p * q <= p * (2 * most) && q * p == U64
    ensures mult * most >= U64 / 2
  {
    assert p * (2 * most) == 2 * (most * p);
  }

  /** When the loop runs out it leaves the multiplier of shift 1 beside shift 0: from 2 Hz to 4 Hz over 2^60
      seconds gives twice the quotient. */
  lemma {:induction false} RunsOut(from: nat, to: nat, maxsec: nat)
    requires from == 2 && to == 4 && maxsec == 0x1000_0000_0000_0000
    ensures Fits(from, to, maxsec)
    ensures Scaled(from, to, 1) == 4 >= Pow2(Room(maxsec * from))
    ensures Scaled(from, to, 0) == 2
  {
    hide Room;
    var most := maxsec * from;
    RoomIs(most);
    PowSum(29, 3);
    Pow32();
    MoreBits(most / U32, 29);
    PowGrows(Room(most), 2);
    assert Pow2(2) == 4 && Pow2(1) == 2;
    DivRemIs(to * Pow2(1) + from / 2, from, 4, 1);
    DivRemIs(to * Pow2(0) + from / 2, from, 2, 1);
  }

  // ----- conversions -----

  method CycleToNsec(cycles: nat, mask: nat, mult: nat, shift: nat, frac: nat) returns (nsec: nat, frac': nat)
    requires cycles < U64 && mask < U64 && mult < U32 && shift < 64 && frac < U64
    ensures forall k: nat :: mask == Pow2(k) - 1 ==> frac' == Rem(Wrap(cycles * mult + frac), Pow2(k))
    ensures mask == Pow2(shift) - 1 ==> nsec * Pow2(shift) + frac' == Wrap(cycles * mult + frac)
    ensures mask == Pow2(shift) - 1 ==> (nsec, frac') == Convert([cycles], mult, shift, frac)
  {
    hide Div; hide Rem; hide Wrap; hide Pow2; hide And; hide Convert;
    var value := Wrap(Wrap(cycles * mult) + frac);
    WrapSum(cycles * mult, frac);
    frac' := And(value, mask);
    nsec := Div(value, Pow2(shift));
    DivRem(value, Pow2(shift));
    forall k: nat | mask == Pow2(k) - 1 ensures frac' == Rem(value, Pow2(k)) {
      LowBits(value, k);
    }
    ConvertOne(cycles, mult, shift, frac);
  }

  lemma {:induction false} ConvertOne(cycles: nat, mult: nat, shift: nat, frac: nat)
    ensures Convert([cycles], mult, shift, frac) ==
            (Div(Wrap(cycles * mult + frac), Pow2(shift)), Rem(Wrap(cycles * mult + frac), Pow2(shift)))
  {
    hide Div; hide Rem; hide Wrap; hide Pow2;
    assert [cycles][..0] == [];
  }

  /** Converting the given numbers of cycles one after the other, the fraction carried along: the nanoseconds
      counted and the fraction left over. */
  ghost function Convert(deltas: seq<nat>, mult: nat, shift: nat, frac: nat): (nat, nat) {
    if deltas == [] then (0, frac)
    else
      var last := |deltas| - 1;
      var (nsec, f) := Convert(deltas[..last], mult, shift, frac);
      var value := Wrap(deltas[last] * mult + f);
      (nsec + Div(value, Pow2(shift)), Rem(value, Pow2(shift)))
  }

  ghost function Sum(deltas: seq<nat>): nat {
    if deltas == [] then 0 else Sum(deltas[..|deltas| - 1]) + deltas[|deltas| - 1]
  }

  /** The product and the carried fraction always fit. */
  ghost predicate Small(deltas: seq<nat>, mult: nat, shift: nat) {
    forall i :: 0 <= i < |deltas| ==> deltas[i] * mult + Pow2(shift) <= U64
  }

  /** No drift: the nanoseconds and the fraction left are those of one exact conversion of all cycles together. */
  lemma {:induction false} NoDrift(deltas: seq<nat>, mult: nat, shift: nat, frac: nat)
    requires Small(deltas, mult, shift) && frac < Pow2(shift)
    ensures var (nsec, f) := Convert(deltas, mult, shift, frac);
            && f < Pow2(shift)
            && nsec * Pow2(shift) + f == Sum(deltas) * mult + frac
            && nsec == Div(Sum(deltas) * mult + frac, Pow2(shift))
  {
    hide Div; hide Rem; hide Wrap; hide Pow2;
    var (nsec, f) := Convert(deltas, mult, shift, frac);
    if deltas != [] {
      var last := |deltas| - 1;
      NoDrift(deltas[..last], mult, shift, frac);
      var (n, g) := Convert(deltas[..last], mult, shift, frac);
      OneMore(n, g, deltas[last], mult, Pow2(shift), Sum(deltas[..last]), frac);
    }
    DivRemIs(Sum(deltas) * mult + frac, Pow2(shift), nsec, f);
  }

  lemma {:induction false} OneMore(nsec: nat, f: nat, delta: nat, mult: nat, p: nat, sum: nat, frac: nat)
    requires f < p && delta * mult + p <= U64 && nsec * p + f == sum * mult + frac
    ensures var value := Wrap(delta * mult + f);
            && (nsec + Div(value, p)) * p + Rem(value, p) == (sum + delta) * mult + frac
            && Rem(value, p) < p
  {
    hide Div; hide Rem; hide Wrap;
    var value := delta * mult + f;
    WrapSmall(value);
    DivRem(value, p);
    assert (nsec + Div(value, p)) * p == nsec * p + Div(value, p) * p;
    assert (sum + delta) * mult == sum * mult + delta * mult;
  }

  /** clock_delta_to_nsec */
  function DeltaToNsec(delta: nat, mult: nat, shift: nat): nat {
    Div(Wrap(delta * mult), Pow2(shift))
  }

  /** However a period is cut into parts, the parts converted with the fraction carried along add up to the
      conversion of the whole period. */
  lemma {:induction false} PartsAddUp(deltas: seq<nat>, mult: nat, shift: nat)
    requires Small(deltas, mult, shift) && Sum(deltas) * mult < U64
    ensures Convert(deltas, mult, shift, 0).0 == DeltaToNsec(Sum(deltas), mult, shift)
  {
    hide Div; hide Rem; hide Wrap; hide Pow2; hide Convert; hide Sum;
    NoDrift(deltas, mult, shift, 0);
    WrapSmall(Sum(deltas) * mult);
  }

  /** A factor chosen by clock_cloc_mult_shift never overflows in clock_cycle_to_nsec, whatever fraction is carried,
      and over any run the time counted is off by at most half a unit of the multiplier for each cycle. */
  lemma {:induction false} KeepsTime(from: nat, to: nat, most: nat, mult: nat, shift: nat, deltas: seq<nat>)
    requires 0 < from && most < U64 && shift <= 32 && Best(from, to, most, mult, shift)
    requires forall i :: 0 <= i < |deltas| ==> deltas[i] <= most
    ensures Small(deltas, mult, shift)
    ensures var (nsec, f) := Convert(deltas, mult, shift, 0);
            var exact := Sum(deltas) * to * Pow2(shift);
            -(Sum(deltas) * from) <= 2 * ((nsec * Pow2(shift) + f) * from - exact) <= Sum(deltas) * from
  {
    hide Room; hide Scaled; hide Convert; hide Sum; hide Pow2;
    AlwaysSmall(from, to, most, mult, shift, deltas);
    NoDrift(deltas, mult, shift, 0);
    var c, p := Sum(deltas), Pow2(shift);
    Scale(c, mult * from - to * p, from);
    Regroup(c, mult, from, to, p);
  }

  lemma {:induction false} Regroup(c: nat, mult: nat, from: nat, to: nat, p: nat)
    ensures c * mult * from - c * to * p == c * (mult * from - to * p)
  {
    assert c * mult * from == c * (mult * from);
    assert c * to * p == c * (to * p);
  }

  lemma {:induction false} AlwaysSmall(from: nat, to: nat, most: nat, mult: nat, shift: nat, deltas: seq<nat>)
    requires 0 < from && most < U64 && shift <= 32 && Best(from, to, most, mult, shift)
    requires forall i :: 0 <= i < |deltas| ==> deltas[i] <= most
    ensures Small(deltas, mult, shift)
  {
    hide Room; hide Scaled;
    Pow32();
    PowGrows(shift, 32);
    hide Pow2;
    forall i | 0 <= i < |deltas| ensures deltas[i] * mult + Pow2(shift) <= U64 {
      ProductFits(most, mult, deltas[i]);
      assert deltas[i] * mult == mult * deltas[i];
    }
  }

  lemma {:induction false} Scale(c: nat, error: int, bound: nat)
    requires -(bound as int) <= 2 * error <= bound
    ensures -(c * bound) <= 2 * (c * error) <= c * bound
  {
    assert c * (2 * error) <= c * bound;
    assert c * -(bound as int) <= c * (2 * error);
  }
}
