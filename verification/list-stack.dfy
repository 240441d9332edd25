/** The pending runs of list_qsort as sequences, newest run first: together with the nodes not taken yet they
    stay a stable rearrangement of the list. */
module ListStack {
  import opened ListOrder

  ghost predicate Distinct<T>(s: seq<T>) {
    forall i, j :: 0 <= i < j < |s| ==> s[i] != s[j]
  }

  ghost predicate Disjoint<T>(a: seq<T>, b: seq<T>) {
    forall i, j :: 0 <= i < |a| && 0 <= j < |b| ==> a[i] != b[j]
  }

  lemma {:induction false} DistinctConcat<T>(a: seq<T>, b: seq<T>)
    ensures Distinct(a + b) <==> Distinct(a) && Distinct(b) && Disjoint(a, b)
  {
    var c := a + b;
    if Distinct(c) {
      forall i, j | 0 <= i < j < |a| ensures a[i] != a[j] {
        assert c[i] == a[i] && c[j] == a[j];
      }
      forall i, j | 0 <= i < j < |b| ensures b[i] != b[j] {
        assert c[|a| + i] == b[i] && c[|a| + j] == b[j];
      }
      forall i, j | 0 <= i < |a| && 0 <= j < |b| ensures a[i] != b[j] {
        assert c[i] == a[i] && c[|a| + j] == b[j];
      }
    }
    if Distinct(a) && Distinct(b) && Disjoint(a, b) {
      forall i, j | 0 <= i < j < |c| ensures c[i] != c[j] {
        if i < |a| <= j {
          assert a[i] != b[j - |a|];
        }
      }
    }
  }

  lemma {:induction false} DistinctCount<T>(s: seq<T>)
    ensures Distinct(s) <==> forall x :: x in multiset(s) ==> multiset(s)[x] == 1
  {
    if s != [] {
      var t := s[1..];
      DistinctCount(t);
      assert s == [s[0]] + t;
      DistinctConcat([s[0]], t);
      assert multiset(s) == multiset{s[0]} + multiset(t);
      assert s[0] in t <==> s[0] in multiset(t);
      if Distinct(s) {
        assert s[0] !in t;
      }
      if forall x :: x in multiset(s) ==> multiset(s)[x] == 1 {
        assert s[0] in multiset(s) && multiset(s)[s[0]] == 1;
        assert s[0] !in t;
        forall x | x in multiset(t) ensures multiset(t)[x] == 1 {
          assert multiset(s)[x] == 1;
        }
      }
    }
  }

  lemma {:induction false} DistinctSame<T>(a: seq<T>, b: seq<T>)
    requires multiset(a) == multiset(b) && Distinct(b)
    ensures Distinct(a)
  {
    DistinctCount(a);
    DistinctCount(b);
  }

  // ----- all nodes of the runs, in list order -----

  ghost function Cat<T>(runs: seq<seq<T>>): seq<T> {
    if runs == [] then [] else Cat(runs[1..]) + runs[0]
  }

  lemma {:induction false} CatConcat<T>(a: seq<seq<T>>, b: seq<seq<T>>)
    ensures Cat(a + b) == Cat(b) + Cat(a)
  {
    if a == [] {
      assert a + b == b;
    } else {
      CatConcat(a[1..], b);
      assert (a + b)[1..] == a[1..] + b && (a + b)[0] == a[0];
      assert Cat(a) == Cat(a[1..]) + a[0];
      assert Cat(b) + (Cat(a[1..]) + a[0]) == (Cat(b) + Cat(a[1..])) + a[0];
    }
  }

  lemma {:induction false} CatOne<T>(a: seq<T>)
    ensures Cat([a]) == a
  {
    assert Cat([a]) == Cat([a][1..]) + a;
  }

  lemma {:induction false} CatCut<T>(a: seq<seq<T>>, m: seq<T>, b: seq<seq<T>>)
    ensures Cat(a + [m] + b) == Cat(b) + m + Cat(a)
  {
    CatConcat(a + [m], b);
    CatConcat(a, [m]);
    CatOne(m);
    assert Cat(b) + (m + Cat(a)) == Cat(b) + m + Cat(a);
  }

  /** Runs t and t + 1 of the stack replaced by m. */
  ghost function Join<T>(runs: seq<seq<T>>, t: nat, m: seq<T>): (r: seq<seq<T>>)
    requires t + 1 < |runs|
    ensures |r| == |runs| - 1
  {
    runs[..t] + [m] + runs[t + 2..]
  }

  lemma {:induction false} CatJoin<T>(runs: seq<seq<T>>, t: nat, m: seq<T>)
    requires t + 1 < |runs|
    ensures Cat(runs) == Cat(runs[t + 2..]) + (runs[t + 1] + runs[t]) + Cat(runs[..t])
    ensures Cat(Join(runs, t, m)) == Cat(runs[t + 2..]) + m + Cat(runs[..t])
  {
    assert runs == runs[..t] + [runs[t]] + ([runs[t + 1]] + runs[t + 2..]);
    CatCut(runs[..t], runs[t], [runs[t + 1]] + runs[t + 2..]);
    CatConcat([runs[t + 1]], runs[t + 2..]);
    CatOne(runs[t + 1]);
    CatCut(runs[..t], m, runs[t + 2..]);
    var x, y, z, w := Cat(runs[t + 2..]), runs[t + 1], runs[t], Cat(runs[..t]);
    assert ((x + y) + z) + w == (x + (y + z)) + w;
  }

  // ----- the invariant of the sort -----

  /** The pending runs, then what was not taken, are s stably rearranged, each run sorted. */
  ghost predicate Good<T>(cmp: (T, T) -> int, s: seq<T>, runs: seq<seq<T>>, rest: seq<T>) {
    && multiset(Cat(runs) + rest) == multiset(s)
    && (Preorder(cmp, s) ==>
          && (forall i :: 0 <= i < |runs| ==> Sorted(cmp, runs[i]))
          && (forall x :: x in s ==> Class(cmp, Cat(runs) + rest, x) == Class(cmp, s, x)))
  }

  lemma {:induction false} GoodStart<T>(cmp: (T, T) -> int, s: seq<T>)
    ensures Good(cmp, s, [], s)
  {
    assert Cat<T>([]) + s == s;
  }

  lemma {:induction false} GoodPush<T>(cmp: (T, T) -> int, s: seq<T>, runs: seq<seq<T>>, rest: seq<T>)
    requires Good(cmp, s, runs, rest) && rest != []
    ensures Good(cmp, s, [[rest[0]]] + runs, rest[1..])
  {
    var one := [[rest[0]]];
    CatConcat(one, runs);
    CatOne([rest[0]]);
    assert Cat(one + runs) + rest[1..] == Cat(runs) + rest;
  }

  lemma {:induction false} RunWithin<T>(runs: seq<seq<T>>, i: nat, rest: seq<T>, s: seq<T>)
    requires i < |runs| && multiset(Cat(runs) + rest) == multiset(s)
    ensures Within(runs[i], s) && Within(rest, s)
  {
    assert runs == runs[..i] + [runs[i]] + runs[i + 1..];
    CatCut(runs[..i], runs[i], runs[i + 1..]);
    forall x | x in runs[i] || x in rest ensures x in s {
      assert x in Cat(runs) + rest;
      assert x in multiset(Cat(runs) + rest);
    }
  }

  lemma {:induction false} GoodJoin<T>(cmp: (T, T) -> int, s: seq<T>, runs: seq<seq<T>>, rest: seq<T>, t: nat)
    requires Good(cmp, s, runs, rest) && t + 1 < |runs|
    ensures Good(cmp, s, Join(runs, t, Merge(cmp, runs[t + 1], runs[t])), rest)
  {
    hide Class; hide Cat; hide Merge; hide Sorted; hide Preorder; hide Within;
    var a, b, m := runs[t + 1], runs[t], Merge(cmp, runs[t + 1], runs[t]);
    var runs' := Join(runs, t, m);
    CatJoin(runs, t, m);
    var x, w := Cat(runs[t + 2..]), Cat(runs[..t]) + rest;
    assert Cat(runs) + rest == x + (a + b) + w && Cat(runs') + rest == x + m + w;
    MergeMultiset(cmp, a, b);
    MidMultiset(x, a + b, m, w);
    if Preorder(cmp, s) {
      RunWithin(runs, t, rest, s);
      RunWithin(runs, t + 1, rest, s);
      MergeSorted(cmp, a, b, s);
      forall i | 0 <= i < |runs'| ensures Sorted(cmp, runs'[i]) {
        assert i != t ==> runs'[i] == runs[if i < t then i else i + 1];
      }
      forall z | z in s ensures Class(cmp, Cat(runs') + rest, z) == Class(cmp, s, z) {
        MergeClass(cmp, a, b, s, z);
        ClassConcat(cmp, a, b, z);
        ClassMid(cmp, x, a + b, w, z);
        ClassMid(cmp, x, m, w, z);
        assert Class(cmp, Cat(runs) + rest, z) == Class(cmp, s, z);
      }
    }
  }

  lemma {:induction false} MidMultiset<T>(x: seq<T>, m: seq<T>, m': seq<T>, w: seq<T>)
    requires multiset(m) == multiset(m')
    ensures multiset(x + m + w) == multiset(x + m' + w)
  {
  }

  lemma {:induction false} ClassMid<T>(cmp: (T, T) -> int, x: seq<T>, m: seq<T>, w: seq<T>, z: T)
    ensures Class(cmp, x + m + w, z) == Class(cmp, x, z) + Class(cmp, m, z) + Class(cmp, w, z)
  {
    ClassConcat(cmp, x + m, w, z);
    ClassConcat(cmp, x, m, z);
  }

  /** At the end one run is left: the stably sorted list. */
  lemma {:induction false} GoodDone<T>(cmp: (T, T) -> int, s: seq<T>, r: seq<T>)
    requires Good(cmp, s, [r], [])
    ensures multiset(r) == multiset(s) && (Preorder(cmp, s) ==> r == StableSort(cmp, s))
  {
    hide Class; hide Cat; hide StableSort; hide Preorder; hide Sorted;
    CatOne(r);
    assert r + [] == r;
    if Preorder(cmp, s) {
      assert [r][0] == r;
      SortOfUnique(cmp, s, r);
    }
  }

  // ----- no node is in two places -----

  ghost predicate Apart<T>(runs: seq<seq<T>>, rest: seq<T>) {
    && Distinct(rest)
    && (forall i :: 0 <= i < |runs| ==> Distinct(runs[i]) && Disjoint(runs[i], rest))
    && (forall i, k :: 0 <= i < |runs| && 0 <= k < |runs| && i != k ==> Disjoint(runs[i], runs[k]))
  }

  lemma {:induction false} ApartOf<T>(runs: seq<seq<T>>, rest: seq<T>, s: seq<T>)
    requires multiset(Cat(runs) + rest) == multiset(s) && Distinct(s)
    ensures Apart(runs, rest)
  {
    hide Distinct; hide Disjoint;
    DistinctSame(Cat(runs) + rest, s);
    DistinctConcat(Cat(runs), rest);
    forall i | 0 <= i < |runs| ensures Distinct(runs[i]) && Disjoint(runs[i], rest) {
      ApartOne(runs, rest, i);
    }
    forall i, k | 0 <= i < |runs| && 0 <= k < |runs| && i != k ensures Disjoint(runs[i], runs[k]) {
      if i < k {
        ApartTwo(runs, i, k);
      } else {
        ApartTwo(runs, k, i);
        DisjointSwap(runs[k], runs[i]);
      }
    }
  }

  lemma {:induction false} DisjointSwap<T>(a: seq<T>, b: seq<T>)
    requires Disjoint(a, b)
    ensures Disjoint(b, a)
  {
  }

  lemma {:induction false} DisjointPart<T>(a: seq<T>, m: seq<T>, b: seq<T>, r: seq<T>)
    requires Disjoint(a + m + b, r)
    ensures Disjoint(m, r) && Disjoint(r, m)
  {
    forall i, j | 0 <= i < |m| && 0 <= j < |r| ensures m[i] != r[j] {
      assert (a + m + b)[|a| + i] == m[i];
    }
  }

  lemma {:induction false} ApartOne<T>(runs: seq<seq<T>>, rest: seq<T>, i: nat)
    requires Distinct(Cat(runs)) && Disjoint(Cat(runs), rest) && i < |runs|
    ensures Distinct(runs[i]) && Disjoint(runs[i], rest)
  {
    hide Distinct; hide Disjoint; hide Cat;
    assert runs == runs[..i] + [runs[i]] + runs[i + 1..];
    CatCut(runs[..i], runs[i], runs[i + 1..]);
    DistinctConcat(Cat(runs[i + 1..]) + runs[i], Cat(runs[..i]));
    DistinctConcat(Cat(runs[i + 1..]), runs[i]);
    DisjointPart(Cat(runs[i + 1..]), runs[i], Cat(runs[..i]), rest);
  }

  lemma {:induction false} ApartTwo<T>(runs: seq<seq<T>>, i: nat, k: nat)
    requires Distinct(Cat(runs)) && i < k < |runs|
    ensures Disjoint(runs[i], runs[k])
  {
    hide Distinct; hide Disjoint; hide Cat;
    var x, y, young := Cat(runs[k + 1..]), Cat(runs[..k]), runs[..k];
    assert runs == young + [runs[k]] + runs[k + 1..];
    CatCut(young, runs[k], runs[k + 1..]);
    DistinctConcat(x + runs[k], y);
    assert x + runs[k] + [] == x + runs[k];
    DisjointPart(x, runs[k], [], y);
    assert young == young[..i] + [runs[i]] + young[i + 1..];
    CatCut(young[..i], runs[i], young[i + 1..]);
    DisjointPart(Cat(young[i + 1..]), runs[i], Cat(young[..i]), runs[k]);
  }
}
