/** Double hashing with a prime table size: the probe sequence meets every slot. */
module LibmoProbe {

  ghost predicate Prime(s: nat) {
    s >= 2 && forall d :: 2 <= d < s ==> s % d != 0
  }

  ghost predicate Divides(p: int, x: int)
    requires p > 0
  {
    exists q: int {:trigger q * p} :: x == q * p
  }

  lemma {:induction false} DividesWith(p: int, x: int, q: int)
    requires p > 0 && x == q * p
    ensures Divides(p, x)
  {
  }

  /** Euclid: a prime that divides a product, but not the smaller factor a, divides the other one. */
  lemma {:induction false} Euclid(p: nat, a: nat, b: int)
    requires Prime(p) && 0 < a < p && Divides(p, a * b)
    ensures Divides(p, b)
    decreases a
  {
    if a > 1 {
      var q, r := p / a, p % a;
      assert r != 0 && p == q * a + r;
      var m: int :| a * b == m * p;
      Reduce(p, a, b, q, r, m);
      DividesWith(p, r * b, b - q * m);
      Euclid(p, r, b);
    }
  }

  lemma {:induction false} Reduce(p: int, a: int, b: int, q: int, r: int, m: int)
    requires p == q * a + r && a * b == m * p
    ensures r * b == (b - q * m) * p
  {
    assert r * b == (p - q * a) * b == p * b - q * (a * b);
    assert q * (m * p) == (q * m) * p;
  }

  lemma {:induction false} SmallMultiple(p: int, x: int)
    requires p > 0 && -p < x < p && Divides(p, x)
    ensures x == 0
  {
    var q: int :| x == q * p;
    ZeroMultiple(q, p);
  }

  lemma {:induction false} ZeroMultiple(q: int, p: int)
    requires p > 0 && -p < q * p < p
    ensures q == 0
  {
  }

  /** The slot after k steps. */
  function Slot(start: nat, incr: nat, size: nat, k: nat): nat
    requires size > 0
  {
    (start + k * incr) % size
  }

  /** One step as the code takes it, without a product. */
  lemma {:induction false} SlotStep(start: nat, incr: nat, size: nat, k: nat)
    requires 0 < incr < size
    ensures var e := Slot(start, incr, size, k);
      Slot(start, incr, size, k + 1) == if e >= size - incr then e - (size - incr) else e + incr
  {
    var x := start + k * incr;
    assert start + (k + 1) * incr == x + incr;
    var q, e := x / size, x % size;
    assert x + incr == q * size + (e + incr);
    if e >= size - incr {
      Remainder(x + incr, size, q + 1, e + incr - size);
    } else {
      Remainder(x + incr, size, q, e + incr);
    }
  }

  lemma {:induction false} Remainder(x: nat, size: nat, q: nat, r: nat)
    requires size > 0 && x == q * size + r && r < size
    ensures x % size == r
  {
    DividesWith(size, (x % size) as int - r, q as int - x / size);
    SmallMultiple(size, (x % size) as int - r);
  }

  /** In a table of prime size no slot is met twice in the first size steps. */
  lemma {:induction false} NoRepeat(start: nat, incr: nat, size: nat, j: nat, k: nat)
    requires Prime(size) && 0 < incr < size && j < k < size
    ensures Slot(start, incr, size, j) != Slot(start, incr, size, k)
  {
    var x, y := start + j * incr, start + k * incr;
    if x % size == y % size {
      assert y - x == incr * (k - j);
      DividesWith(size, incr * (k - j), y / size - x / size);
      Euclid(size, incr, k - j);
      SmallMultiple(size, k - j);
    }
  }

  ghost function Visited(start: nat, incr: nat, size: nat, k: nat): set<nat>
    requires size > 0
  {
    if k == 0 then {} else Visited(start, incr, size, k - 1) + {Slot(start, incr, size, k - 1)}
  }

  lemma {:induction false} VisitedAre(start: nat, incr: nat, size: nat, k: nat, e: nat)
    requires size > 0
    ensures e in Visited(start, incr, size, k) <==> exists j: nat :: j < k && Slot(start, incr, size, j) == e
  {
    if k > 0 {
      VisitedAre(start, incr, size, k - 1, e);
      if e in Visited(start, incr, size, k) && e !in Visited(start, incr, size, k - 1) {
        assert Slot(start, incr, size, k - 1) == e;
      }
    }
  }

  lemma {:induction false} VisitedCount(start: nat, incr: nat, size: nat, k: nat)
    requires Prime(size) && 0 < incr < size && k <= size
    ensures |Visited(start, incr, size, k)| == k
    ensures forall e :: e in Visited(start, incr, size, k) ==> e < size
  {
    if k > 0 {
      VisitedCount(start, incr, size, k - 1);
      var e := Slot(start, incr, size, k - 1);
      VisitedAre(start, incr, size, k - 1, e);
      forall j: nat | j < k - 1 ensures Slot(start, incr, size, j) != e {
        NoRepeat(start, incr, size, j, k - 1);
      }
    }
  }

  ghost function Below(n: nat): set<nat> {
    if n == 0 then {} else Below(n - 1) + {n - 1}
  }

  lemma {:induction false} BelowIs(n: nat)
    ensures |Below(n)| == n && forall e: nat :: e in Below(n) <==> e < n
  {
    if n > 0 {
      BelowIs(n - 1);
    }
  }

  lemma {:induction false} SubsetFull<T>(a: set<T>, b: set<T>)
    requires a <= b && |a| == |b|
    ensures a == b
  {
    if a != b {
      var x :| x in b && x !in a;
      SubsetSize(a, b - {x});
    }
  }

  lemma {:induction false} SubsetSize<T>(a: set<T>, b: set<T>)
    requires a <= b
    ensures |a| <= |b|
  {
    assert b == a + (b - a);
  }

  /** Every slot is met within the first size steps. */
  lemma {:induction false} AllMet(start: nat, incr: nat, size: nat, e: nat) returns (k: nat)
    requires Prime(size) && 0 < incr < size && e < size
    ensures k < size && Slot(start, incr, size, k) == e
  {
    var v := Visited(start, incr, size, size);
    VisitedCount(start, incr, size, size);
    BelowIs(size);
    SubsetFull(v, Below(size));
    VisitedAre(start, incr, size, size, e);
    k :| k < size && Slot(start, incr, size, k) == e;
  }

  /** The probe meets slot e at some time. */
  ghost predicate Meets(start: nat, incr: nat, size: nat, e: nat)
    requires size > 0
  {
    exists k: nat :: Slot(start, incr, size, k) == e
  }

  /** After size steps the probe is where it started. */
  lemma {:induction false} Periodic(start: nat, incr: nat, size: nat, k: nat)
    requires size > 0
    ensures Slot(start, incr, size, k + size) == Slot(start, incr, size, k)
  {
    var x := start + k * incr;
    assert start + (k + size) * incr == x / size * size + x % size + size * incr;
    assert (x / size + incr) * size == x / size * size + size * incr;
    Remainder(start + (k + size) * incr, size, x / size + incr, x % size);
  }

  /** The step is a divisor of the size: only its multiples are met. */
  lemma {:induction false} DivisorMisses(size: nat, d: nat, k: nat)
    requires 2 <= d < size && size % d == 0
    ensures Slot(0, d, size, k) != 1
  {
    var m, q, e := size / d, k * d / size, Slot(0, d, size, k);
    assert size == m * d && k * d == q * size + e;
    assert q * size == (q * m) * d;
    assert e == (k - q * m) * d by {
      assert (k - q * m) * d == k * d - (q * m) * d;
    }
    DividesWith(d, e, k - q * m);
    if e == 1 {
      SmallMultiple(d, 1);
    }
  }

  /** With any larger size that is not prime there is an increment with which the probe misses a slot for ever. */
  lemma {:induction false} CompositeMisses(size: nat) returns (d: nat)
    requires size > 3 && !Prime(size)
    ensures 0 < d <= size - 2 && !Meets(0, d, size, 1)
  {
    d :| 2 <= d < size && size % d == 0;
    forall k: nat ensures Slot(0, d, size, k) != 1 {
      DivisorMisses(size, d, k);
    }
    if d == size - 1 {
      Remainder(size, d, 1, 1);
    }
  }

  /** Double hashing with the increments 1 to size - 2 meets every slot if and only if the size is prime. */
  lemma {:induction false} PrimeIffMeets(size: nat)
    requires size > 2
    ensures Prime(size) <==>
      forall start: nat, incr: nat, e: nat :: start < size && 0 < incr <= size - 2 && e < size ==> Meets(start, incr, size, e)
  {
    if Prime(size) {
      forall start: nat, incr: nat, e: nat | start < size && 0 < incr <= size - 2 && e < size
        ensures Meets(start, incr, size, e)
      {
        var k := AllMet(start, incr, size, e);
      }
    } else {
      assert size > 3 by {
        assert size == 3 ==> Prime(size);
      }
      var d := CompositeMisses(size);
      assert !Meets(0, d, size, 1);
    }
  }
}
