/** What it means to sort stably, and merging, on plain sequences. */
module ListOrder {

  /** The comparator's verdict, as the sort routines use it. */
  ghost predicate Le<T>(cmp: (T, T) -> int, x: T, y: T) {
    cmp(x, y) <= 0
  }

  ghost predicate Same<T>(cmp: (T, T) -> int, x: T, y: T) {
    Le(cmp, x, y) && Le(cmp, y, x)
  }

  /** The comparator is a total preorder on the elements of u. */
  ghost predicate Preorder<T>(cmp: (T, T) -> int, u: seq<T>) {
    && (forall x, y :: x in u && y in u ==> Le(cmp, x, y) || Le(cmp, y, x))
    && (forall x, y, z :: x in u && y in u && z in u && Le(cmp, x, y) && Le(cmp, y, z) ==> Le(cmp, x, z))
  }

  ghost predicate Sorted<T>(cmp: (T, T) -> int, s: seq<T>) {
    forall i, j :: 0 <= i < j < |s| ==> Le(cmp, s[i], s[j])
  }

  /** The elements of s that compare equal to x, in the order of s. */
  ghost function Class<T>(cmp: (T, T) -> int, s: seq<T>, x: T): seq<T> {
    if s == [] then [] else One(cmp, s[0], x) + Class(cmp, s[1..], x)
  }

  ghost function One<T>(cmp: (T, T) -> int, y: T, x: T): seq<T> {
    if Same(cmp, y, x) then [y] else []
  }

  /** r has the elements of s, those that compare equal in the order of s. */
  ghost predicate Stable<T>(cmp: (T, T) -> int, s: seq<T>, r: seq<T>) {
    && multiset(r) == multiset(s)
    && forall x :: x in s ==> Class(cmp, r, x) == Class(cmp, s, x)
  }

  ghost predicate SortOf<T>(cmp: (T, T) -> int, s: seq<T>, r: seq<T>) {
    Sorted(cmp, r) && Stable(cmp, s, r)
  }

  ghost predicate Within<T>(s: seq<T>, u: seq<T>) {
    forall x :: x in s ==> x in u
  }

  lemma {:induction false} WithinCons<T>(s: seq<T>, u: seq<T>)
    requires s != [] && Within(s, u)
    ensures s[0] in s && s[0] in u && Within(s[1..], u) && Within([s[0]], u)
  {
    assert s[0] in s;
    forall x | x in s[1..] ensures x in u {
      assert x in s;
    }
  }

  lemma {:induction false} WithinSame<T>(a: seq<T>, b: seq<T>, u: seq<T>)
    requires multiset(a) == multiset(b) && Within(b, u)
    ensures Within(a, u)
  {
    forall x | x in a ensures x in u {
      assert x in multiset(a) && x in multiset(b) && x in b;
    }
  }

  // ----- classes -----

  lemma {:induction false} ClassConcat<T>(cmp: (T, T) -> int, a: seq<T>, b: seq<T>, x: T)
    ensures Class(cmp, a + b, x) == Class(cmp, a, x) + Class(cmp, b, x)
  {
    hide One;
    if a == [] {
      assert a + b == b;
    } else {
      ClassConcat(cmp, a[1..], b, x);
      assert (a + b)[1..] == a[1..] + b && (a + b)[0] == a[0];
      assert Class(cmp, a, x) == One(cmp, a[0], x) + Class(cmp, a[1..], x);
    }
  }

  lemma {:induction false} ClassNone<T>(cmp: (T, T) -> int, s: seq<T>, x: T)
    requires forall y :: y in s ==> !Same(cmp, y, x)
    ensures Class(cmp, s, x) == []
  {
    if s != [] {
      ClassNone(cmp, s[1..], x);
    }
  }

  lemma {:induction false} ClassSome<T>(cmp: (T, T) -> int, s: seq<T>, x: T)
    requires x in s && Same(cmp, x, x)
    ensures Class(cmp, s, x) != []
  {
    if s[0] != x {
      ClassSome(cmp, s[1..], x);
    }
  }

  /** Two elements in the wrong order can be swapped without touching any class. */
  lemma {:induction false} ClassSwap<T>(cmp: (T, T) -> int, x: T, y: T, z: T, u: seq<T>)
    requires Preorder(cmp, u) && x in u && y in u && z in u && !Le(cmp, x, y)
    ensures Class(cmp, [x, y], z) == Class(cmp, [y, x], z)
  {
    assert [x, y] == [x] + [y] && [y, x] == [y] + [x];
    ClassConcat(cmp, [x], [y], z);
    ClassConcat(cmp, [y], [x], z);
    if Same(cmp, x, z) {
      ClassNone(cmp, [y], z);
    } else {
      ClassNone(cmp, [x], z);
    }
  }

  // ----- merging -----

  /** Take the smaller head, the one of a when they compare equal. */
  ghost function Merge<T>(cmp: (T, T) -> int, a: seq<T>, b: seq<T>): (r: seq<T>)
    ensures |r| == |a| + |b|
  {
    if a == [] then b
    else if b == [] then a
    else if Le(cmp, a[0], b[0]) then [a[0]] + Merge(cmp, a[1..], b)
    else [b[0]] + Merge(cmp, a, b[1..])
  }

  lemma {:induction false} ConsMultiset<T>(x: T, s: seq<T>)
    ensures multiset([x] + s) == multiset{x} + multiset(s)
  {
  }

  lemma {:induction false} MergeMultiset<T>(cmp: (T, T) -> int, a: seq<T>, b: seq<T>)
    ensures multiset(Merge(cmp, a, b)) == multiset(a) + multiset(b)
  {
    hide Le;
    if a == [] || b == [] {
    } else if Le(cmp, a[0], b[0]) {
      MergeMultiset(cmp, a[1..], b);
      ConsMultiset(a[0], a[1..]);
      ConsMultiset(a[0], Merge(cmp, a[1..], b));
      assert a == [a[0]] + a[1..];
    } else {
      MergeMultiset(cmp, a, b[1..]);
      ConsMultiset(b[0], b[1..]);
      ConsMultiset(b[0], Merge(cmp, a, b[1..]));
      assert b == [b[0]] + b[1..];
    }
  }

  lemma {:induction false} MergeFrom<T>(cmp: (T, T) -> int, a: seq<T>, b: seq<T>, x: T)
    ensures x in Merge(cmp, a, b) <==> x in a || x in b
  {
    MergeMultiset(cmp, a, b);
    assert x in Merge(cmp, a, b) <==> x in multiset(Merge(cmp, a, b));
    assert x in a <==> x in multiset(a);
    assert x in b <==> x in multiset(b);
  }

  lemma {:induction false} SortedCons<T>(cmp: (T, T) -> int, x: T, s: seq<T>)
    requires Sorted(cmp, s) && forall y :: y in s ==> Le(cmp, x, y)
    ensures Sorted(cmp, [x] + s)
  {
  }

  lemma {:induction false} SortedHead<T>(cmp: (T, T) -> int, s: seq<T>, u: seq<T>)
    requires Sorted(cmp, s) && s != [] && Preorder(cmp, u) && Within(s, u)
    ensures forall y :: y in s ==> Le(cmp, s[0], y)
    ensures Sorted(cmp, s[1..]) && s[0] in u && Within(s[1..], u)
  {
    WithinCons(s, u);
    assert Le(cmp, s[0], s[0]);
  }

  /** The smaller head is below everything that is still to be merged. */
  lemma {:induction false} HeadBelow<T>(cmp: (T, T) -> int, x: T, a: seq<T>, b: seq<T>, u: seq<T>)
    requires Preorder(cmp, u) && Within(a, u) && Within(b, u) && x in u && b != [] && b[0] in u
    requires (forall y :: y in a ==> Le(cmp, x, y)) && (forall y :: y in b ==> Le(cmp, b[0], y)) && Le(cmp, x, b[0])
    ensures forall y :: y in Merge(cmp, a, b) ==> Le(cmp, x, y)
    ensures forall y :: y in Merge(cmp, b, a) ==> Le(cmp, x, y)
  {
    forall y | y in Merge(cmp, a, b) ensures Le(cmp, x, y) {
      MergeFrom(cmp, a, b, y);
      assert y in b ==> y in u;
    }
    forall y | y in Merge(cmp, b, a) ensures Le(cmp, x, y) {
      MergeFrom(cmp, b, a, y);
      assert y in b ==> y in u;
    }
  }

  lemma {:induction false} MergeSorted<T>(cmp: (T, T) -> int, a: seq<T>, b: seq<T>, u: seq<T>)
    requires Preorder(cmp, u) && Within(a, u) && Within(b, u) && Sorted(cmp, a) && Sorted(cmp, b)
    ensures Sorted(cmp, Merge(cmp, a, b))
  {
    hide Within; hide Sorted; hide Preorder;
    if a != [] && b != [] {
      SortedHead(cmp, a, u);
      SortedHead(cmp, b, u);
      if Le(cmp, a[0], b[0]) {
        MergeSorted(cmp, a[1..], b, u);
        TailBelow(cmp, a);
        HeadBelow(cmp, a[0], a[1..], b, u);
        SortedCons(cmp, a[0], Merge(cmp, a[1..], b));
      } else {
        MergeSorted(cmp, a, b[1..], u);
        TotalAt(cmp, a[0], b[0], u);
        TailBelow(cmp, b);
        HeadBelow(cmp, b[0], b[1..], a, u);
        SortedCons(cmp, b[0], Merge(cmp, a, b[1..]));
      }
    }
  }

  lemma {:induction false} TotalAt<T>(cmp: (T, T) -> int, x: T, y: T, u: seq<T>)
    requires Preorder(cmp, u) && x in u && y in u
    ensures Le(cmp, x, y) || Le(cmp, y, x)
  {
  }

  lemma {:induction false} TailBelow<T>(cmp: (T, T) -> int, s: seq<T>)
    requires s != [] && forall y :: y in s ==> Le(cmp, s[0], y)
    ensures forall y :: y in s[1..] ==> Le(cmp, s[0], y)
  {
    forall y | y in s[1..] ensures Le(cmp, s[0], y) {
      assert y in s;
    }
  }

  lemma {:induction false} MergeClass<T>(cmp: (T, T) -> int, a: seq<T>, b: seq<T>, u: seq<T>, x: T)
    requires Preorder(cmp, u) && Within(a, u) && Within(b, u) && Sorted(cmp, a) && x in u
    ensures Class(cmp, Merge(cmp, a, b), x) == Class(cmp, a, x) + Class(cmp, b, x)
  {
    hide Sorted; hide Within; hide Class; hide Le; hide Preorder; hide Same; hide One;
    if a == [] || b == [] {
      ClassNone(cmp, [], x);
    } else {
      SortedHead(cmp, a, u);
      WithinCons(b, u);
      if Le(cmp, a[0], b[0]) {
        MergeClass(cmp, a[1..], b, u, x);
        ClassCons(cmp, a[0], Merge(cmp, a[1..], b), x);
        ClassCons(cmp, a[0], a[1..], x);
        assert a == [a[0]] + a[1..];
        assert Merge(cmp, a, b) == [a[0]] + Merge(cmp, a[1..], b);
      } else {
        BelowClass(cmp, a, b[0], u, x);
        MergeClass(cmp, a, b[1..], u, x);
        ClassCons(cmp, b[0], Merge(cmp, a, b[1..]), x);
        ClassCons(cmp, b[0], b[1..], x);
        assert b == [b[0]] + b[1..];
        assert Merge(cmp, a, b) == [b[0]] + Merge(cmp, a, b[1..]);
        Regroup(Class(cmp, [b[0]], x), Class(cmp, a, x), Class(cmp, b[1..], x));
      }
    }
  }

  lemma {:induction false} Regroup<T>(y: seq<T>, a: seq<T>, b: seq<T>)
    requires y + a == a + y
    ensures y + (a + b) == a + (y + b)
  {
    assert y + (a + b) == (y + a) + b;
    assert (a + y) + b == a + (y + b);
  }

  lemma {:induction false} ClassCons<T>(cmp: (T, T) -> int, y: T, s: seq<T>, x: T)
    ensures Class(cmp, [y] + s, x) == Class(cmp, [y], x) + Class(cmp, s, x)
  {
    ClassConcat(cmp, [y], s, x);
  }

  /** y is below all of a, so only one of the two can be in the class of x. */
  lemma {:induction false} BelowClass<T>(cmp: (T, T) -> int, a: seq<T>, y: T, u: seq<T>, x: T)
    requires Preorder(cmp, u) && Within(a, u) && a != [] && y in u && x in u && !Le(cmp, a[0], y)
    requires forall z :: z in a ==> Le(cmp, a[0], z)
    ensures Class(cmp, [y], x) + Class(cmp, a, x) == Class(cmp, a, x) + Class(cmp, [y], x)
  {
    if Same(cmp, y, x) {
      forall z | z in a ensures !Same(cmp, z, x) {
        assert a[0] in u && z in u;
      }
      ClassNone(cmp, a, x);
    } else {
      ClassNone(cmp, [y], x);
    }
  }

  // ----- the stable sort of a sequence -----

  /** Insertion sort, the reference: put the first element in front of everything not smaller. */
  ghost function StableSort<T>(cmp: (T, T) -> int, s: seq<T>): seq<T> {
    if s == [] then [] else Insert(cmp, s[0], StableSort(cmp, s[1..]))
  }

  ghost function Insert<T>(cmp: (T, T) -> int, x: T, s: seq<T>): seq<T> {
    if s == [] || Le(cmp, x, s[0]) then [x] + s else [s[0]] + Insert(cmp, x, s[1..])
  }

  lemma {:induction false} InsertMerge<T>(cmp: (T, T) -> int, x: T, s: seq<T>)
    ensures Insert(cmp, x, s) == Merge(cmp, [x], s)
  {
    if s != [] && !Le(cmp, x, s[0]) {
      InsertMerge(cmp, x, s[1..]);
    } else {
      assert [x][1..] == [];
    }
  }

  lemma {:induction false} StableSortMultiset<T>(cmp: (T, T) -> int, s: seq<T>)
    ensures multiset(StableSort(cmp, s)) == multiset(s)
  {
    if s != [] {
      StableSortMultiset(cmp, s[1..]);
      InsertMerge(cmp, s[0], StableSort(cmp, s[1..]));
      MergeMultiset(cmp, [s[0]], StableSort(cmp, s[1..]));
      assert s == [s[0]] + s[1..];
    }
  }

  lemma {:induction false} StableSortOK<T>(cmp: (T, T) -> int, s: seq<T>, u: seq<T>)
    requires Preorder(cmp, u) && Within(s, u)
    ensures Sorted(cmp, StableSort(cmp, s))
    ensures forall x :: x in u ==> Class(cmp, StableSort(cmp, s), x) == Class(cmp, s, x)
  {
    hide Sorted; hide Within; hide Class; hide Le; hide Preorder; hide Merge; hide Insert;
    if s != [] {
      var t := StableSort(cmp, s[1..]);
      WithinCons(s, u);
      StableSortOK(cmp, s[1..], u);
      StableSortMultiset(cmp, s[1..]);
      InsertMerge(cmp, s[0], t);
      WithinSame(t, s[1..], u);
      SortedOne(cmp, s[0]);
      MergeSorted(cmp, [s[0]], t, u);
      assert s == [s[0]] + s[1..];
      forall x | x in u ensures Class(cmp, StableSort(cmp, s), x) == Class(cmp, s, x) {
        MergeClass(cmp, [s[0]], t, u, x);
        ClassCons(cmp, s[0], s[1..], x);
      }
    } else {
      SortedNone(cmp);
    }
  }

  lemma {:induction false} SortedOne<T>(cmp: (T, T) -> int, x: T)
    ensures Sorted(cmp, [x])
  {
  }

  lemma {:induction false} SortedNone<T>(cmp: (T, T) -> int)
    ensures Sorted(cmp, [])
  {
  }

  /** Sorted, with the same classes: the same sequence. */
  lemma {:induction false} SortedUnique<T>(cmp: (T, T) -> int, r: seq<T>, q: seq<T>, u: seq<T>)
    requires Preorder(cmp, u) && Within(r, u) && Within(q, u) && Sorted(cmp, r) && Sorted(cmp, q)
    requires forall x :: x in u ==> Class(cmp, r, x) == Class(cmp, q, x)
    ensures r == q
  {
    hide Sorted; hide Within; hide Class; hide Le; hide Preorder; hide Same;
    if r == [] {
      NoneLeft(cmp, q, u);
    } else {
      HeadFirst(cmp, r, q, u);
      HeadFirst(cmp, q, r, u);
      assert r == [r[0]] + r[1..] && q == [q[0]] + q[1..];
      SortedHead(cmp, r, u);
      SortedHead(cmp, q, u);
      forall x | x in u ensures Class(cmp, r[1..], x) == Class(cmp, q[1..], x) {
        ClassCons(cmp, r[0], r[1..], x);
        ClassCons(cmp, q[0], q[1..], x);
        assert Class(cmp, r, x) == Class(cmp, q, x);
        Cancel(Class(cmp, [r[0]], x), Class(cmp, r[1..], x), Class(cmp, q[1..], x));
      }
      SortedUnique(cmp, r[1..], q[1..], u);
    }
  }

  lemma {:induction false} Cancel<T>(a: seq<T>, b: seq<T>, c: seq<T>)
    requires a + b == a + c
    ensures b == c
  {
    assert b == (a + b)[|a|..] && c == (a + c)[|a|..];
  }

  lemma {:induction false} NoneLeft<T>(cmp: (T, T) -> int, q: seq<T>, u: seq<T>)
    requires Preorder(cmp, u) && Within(q, u) && forall x :: x in u ==> Class(cmp, [], x) == Class(cmp, q, x)
    ensures q == []
  {
    if q != [] {
      WithinCons(q, u);
      assert false;
    }
  }

  /** The first element of one is in the other, so it is not below the other's first; equal classes then start alike. */
  lemma {:induction false} HeadFirst<T>(cmp: (T, T) -> int, r: seq<T>, q: seq<T>, u: seq<T>)
    requires Preorder(cmp, u) && Within(r, u) && Within(q, u) && Sorted(cmp, r) && Sorted(cmp, q) && r != []
    requires forall x :: x in u ==> Class(cmp, r, x) == Class(cmp, q, x)
    ensures q != [] && Le(cmp, q[0], r[0])
    ensures Le(cmp, r[0], q[0]) ==> r[0] == q[0]
  {
    WithinCons(r, u);
    ClassSome(cmp, r, r[0]);
    var i := InClass(cmp, q, r[0]);
    SortedHead(cmp, q, u);
    assert q[i] in q;
    assert Class(cmp, r, r[0])[0] == r[0];
    if Le(cmp, r[0], q[0]) {
      assert Class(cmp, q, r[0])[0] == q[0];
    }
  }

  lemma {:induction false} InClass<T>(cmp: (T, T) -> int, s: seq<T>, x: T) returns (i: nat)
    requires Class(cmp, s, x) != []
    ensures i < |s| && Same(cmp, s[i], x)
  {
    if Same(cmp, s[0], x) {
      i := 0;
    } else {
      i := InClass(cmp, s[1..], x);
      i := i + 1;
    }
  }

  /** For a total preorder, a stably sorted arrangement of s exists and is unique. */
  lemma {:induction false} SortOfUnique<T>(cmp: (T, T) -> int, s: seq<T>, r: seq<T>)
    requires Preorder(cmp, s)
    ensures SortOf(cmp, s, r) <==> r == StableSort(cmp, s)
  {
    hide StableSort; hide Sorted; hide Class;
    StableSortOK(cmp, s, s);
    StableSortMultiset(cmp, s);
    if SortOf(cmp, s, r) {
      WithinSame(r, s, s);
      WithinSame(StableSort(cmp, s), s, s);
      SortedUnique(cmp, r, StableSort(cmp, s), s);
    }
  }
}
