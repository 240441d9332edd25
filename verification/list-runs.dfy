/** Which runs list_qsort keeps pending: their lengths are fixed by the bits of the number of nodes taken. */
module ListRuns {
  import opened Words

  /** Lengths of the pending runs made of the bits of c, newest first, bit 0 counting 2^k nodes.  A bit 0
      borrows from the bits above it and stands for two runs that are not joined yet. */
  ghost function RunSizes(c: nat, borrow: bool, k: nat): seq<nat> {
    if c == 0 then []
    else if c % 2 == 1 then (if borrow then [] else [Pow2(k)]) + RunSizes(c / 2, false, k + 1)
    else (if borrow then [Pow2(k)] else [Pow2(k), Pow2(k)]) + RunSizes(c / 2, true, k + 1)
  }

  /** Trailing one bits. */
  ghost function Ones(c: nat): nat {
    if c % 2 == 0 then 0 else 1 + Ones(c / 2)
  }

  /** The bits above the trailing ones. */
  ghost function Rest(c: nat): nat {
    if c % 2 == 0 then c else Rest(c / 2)
  }

  ghost function Sum(s: seq<nat>): nat {
    if s == [] then 0 else s[0] + Sum(s[1..])
  }

  /** Run t and the next older one become one run. */
  ghost function Joined(r: seq<nat>, t: nat): seq<nat>
    requires t + 1 < |r|
  {
    r[..t] + [r[t + 1] + r[t]] + r[t + 2..]
  }

  lemma {:induction false} OddRuns(c: nat, borrow: bool, k: nat)
    requires c % 2 == 1
    ensures RunSizes(c, borrow, k) == if borrow then RunSizes(c / 2, false, k + 1) else [Pow2(k)] + RunSizes(c / 2, false, k + 1)
  {
    hide Pow2;
  }

  lemma {:induction false} EvenRuns(c: nat, borrow: bool, k: nat)
    requires c % 2 == 0 && c > 0
    ensures RunSizes(c, borrow, k)
         == if borrow then [Pow2(k)] + RunSizes(c / 2, true, k + 1) else [Pow2(k), Pow2(k)] + RunSizes(c / 2, true, k + 1)
  {
    hide Pow2;
  }

  lemma {:induction false} Delay(m: nat, k: nat)
    requires m > 0
    ensures RunSizes(m, false, k) == [Pow2(k)] + RunSizes(m, true, k)
  {
    hide Pow2;
    assert [Pow2(k), Pow2(k)] == [Pow2(k)] + [Pow2(k)];
  }

  /** One round: the runs after c nodes give the runs after c + 1, by joining two runs of the same length 2^t,
      t the number of trailing ones of c, unless c is all ones. */
  lemma {:induction false} StepSizes(c: nat, k: nat)
    ensures var t, r := Ones(c), RunSizes(c, false, k);
      if Rest(c) == 0 then |r| == t && RunSizes(c + 1, false, k) == [Pow2(k)] + r
      else (|r| >= t + 2 && r[t] == r[t + 1] == Pow2(k + t)
            && RunSizes(c + 1, false, k) == [Pow2(k)] + Joined(r, t))
  {
    hide RunSizes; hide Pow2; hide Joined;
    if c == 0 {
      NoRuns(k);
      NoRuns(k + 1);
      OddRuns(1, false, k);
    } else if c % 2 == 0 {
      StepEven(c, k);
    } else {
      StepSizes(c / 2, k + 1);
      StepOdd(c, k);
    }
  }

  lemma {:induction false} NoRuns(k: nat)
    ensures RunSizes(0, false, k) == []
  {
  }

  lemma {:induction false} StepEven(c: nat, k: nat)
    requires c % 2 == 0 && c > 0
    ensures var r := RunSizes(c, false, k);
      |r| >= 2 && r[0] == r[1] == Pow2(k) && RunSizes(c + 1, false, k) == [Pow2(k)] + Joined(r, 0)
  {
    hide RunSizes;
    EvenRuns(c, false, k);
    OddRuns(c + 1, false, k);
    Delay(c / 2, k + 1);
    var m := RunSizes(c / 2, true, k + 1);
    assert Joined([Pow2(k), Pow2(k)] + m, 0) == [Pow2(k + 1)] + m;
  }

  lemma {:induction false} StepOdd(c: nat, k: nat)
    requires c % 2 == 1
    requires var t, r := Ones(c / 2), RunSizes(c / 2, false, k + 1);
      if Rest(c / 2) == 0 then |r| == t && RunSizes(c / 2 + 1, false, k + 1) == [Pow2(k + 1)] + r
      else (|r| >= t + 2 && r[t] == r[t + 1] == Pow2(k + 1 + t)
            && RunSizes(c / 2 + 1, false, k + 1) == [Pow2(k + 1)] + Joined(r, t))
    ensures var t, r := Ones(c), RunSizes(c, false, k);
      if Rest(c) == 0 then |r| == t && RunSizes(c + 1, false, k) == [Pow2(k)] + r
      else (|r| >= t + 2 && r[t] == r[t + 1] == Pow2(k + t)
            && RunSizes(c + 1, false, k) == [Pow2(k)] + Joined(r, t))
  {
    hide RunSizes; hide Pow2; hide Joined;
    var u, t, r' := Pow2(k), Ones(c / 2), RunSizes(c / 2, false, k + 1);
    OddRuns(c, false, k);
    EvenRuns(c + 1, false, k);
    Delay(c / 2 + 1, k + 1);
    var m := RunSizes(c / 2 + 1, true, k + 1);
    var x := if Rest(c / 2) == 0 then r' else Joined(r', t);
    SameTail(Pow2(k + 1), m, x);
    assert [u, u] + x == [u] + ([u] + x);
    if Rest(c / 2) != 0 {
      JoinedLater(u, r', t);
    }
  }

  lemma {:induction false} SameTail(u: nat, m: seq<nat>, x: seq<nat>)
    requires [u] + m == [u] + x
    ensures m == x
  {
    assert m == ([u] + m)[1..] && x == ([u] + x)[1..];
  }

  lemma {:induction false} JoinedLater(u: nat, r: seq<nat>, t: nat)
    requires t + 1 < |r|
    ensures Joined([u] + r, t + 1) == [u] + Joined(r, t)
  {
  }

  lemma {:induction false} SumConcat(a: seq<nat>, b: seq<nat>)
    ensures Sum(a + b) == Sum(a) + Sum(b)
  {
    if a == [] {
      assert a + b == b;
    } else {
      SumConcat(a[1..], b);
      assert (a + b)[1..] == a[1..] + b;
    }
  }

  /** The runs hold the nodes taken so far, all of them. */
  lemma {:induction false} SizesTotal(c: nat, borrow: bool, k: nat)
    requires borrow ==> c > 0
    ensures Sum(RunSizes(c, borrow, k)) == Pow2(k) * (if borrow then c - 1 else c)
  {
    hide RunSizes; hide Sum;
    if c == 0 {
      NoRuns(k);
      SumSmall(0);
    } else {
      var u, b := Pow2(k), c % 2 == 0;
      SumSmall(u);
      SizesTotal(c / 2, b, k + 1);
      var r := RunSizes(c / 2, b, k + 1);
      SumConcat([u], r);
      SumConcat([u, u], r);
      if b {
        EvenRuns(c, borrow, k);
        Doubled(u, c / 2 - 1);
      } else {
        OddRuns(c, borrow, k);
        Doubled(u, c / 2);
      }
      Spread(u, c);
    }
  }

  lemma {:induction false} SumSmall(u: nat)
    ensures Sum([]) == 0 && Sum([u]) == u && Sum([u, u]) == u + u
  {
    assert [u, u][1..] == [u] && [u][1..] == [];
  }

  lemma {:induction false} Doubled(u: nat, m: nat)
    ensures 2 * u * m == u * (2 * m)
  {
  }

  lemma {:induction false} Spread(u: nat, c: nat)
    ensures u * (c + 1) == u * c + u && (c >= 1 ==> u * (c - 1) + u == u * c) && (c >= 2 ==> u * (c - 2) + u + u == u * c)
  {
  }
}
