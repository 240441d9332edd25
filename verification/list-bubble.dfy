/** What the exchanges of list_bsort keep. */
module ListBubble {
  import opened ListOrder
  import opened ListStack

  /** r with its elements k and k + 1 exchanged. */
  ghost function Swapped<T>(r: seq<T>, k: nat): (r': seq<T>)
    requires k + 1 < |r|
    ensures |r'| == |r|
  {
    r[..k] + [r[k + 1], r[k]] + r[k + 2..]
  }

  lemma {:induction false} SwapAt<T>(r: seq<T>, k: nat)
    requires k + 1 < |r|
    ensures var r' := Swapped(r, k);
      && r'[k] == r[k + 1] && r'[k + 1] == r[k]
      && forall i :: 0 <= i < |r| && i != k && i != k + 1 ==> r'[i] == r[i]
  {
  }

  /** From position m on, every element is at least everything before it. */
  ghost predicate Settled<T>(cmp: (T, T) -> int, r: seq<T>, m: nat) {
    forall i, j :: 0 <= i < j < |r| && j >= m ==> Le(cmp, r[i], r[j])
  }

  /** Element k is a maximum of the first k + 1. */
  ghost predicate Max<T>(cmp: (T, T) -> int, r: seq<T>, k: nat)
    requires k < |r|
  {
    forall i :: 0 <= i < k ==> Le(cmp, r[i], r[k])
  }

  lemma {:induction false} MaxStep<T>(cmp: (T, T) -> int, r: seq<T>, k: nat, u: seq<T>)
    requires Preorder(cmp, u) && Within(r, u) && k + 1 < |r| && Max(cmp, r, k)
    ensures Le(cmp, r[k], r[k + 1]) ==> Max(cmp, r, k + 1)
    ensures !Le(cmp, r[k], r[k + 1]) ==> Max(cmp, Swapped(r, k), k + 1)
    ensures Le(cmp, r[k], r[k + 1]) && Sorted(cmp, r[..k + 1]) ==> Sorted(cmp, r[..k + 2])
  {
    SwapAt(r, k);
    forall i | 0 <= i < |r| ensures r[i] in u {
      assert r[i] in r;
    }
    if Le(cmp, r[k], r[k + 1]) {
      forall i | 0 <= i < k + 1 ensures Le(cmp, r[i], r[k + 1]) {
        assert i < k ==> Le(cmp, r[i], r[k]);
      }
      if Sorted(cmp, r[..k + 1]) {
        forall i, j | 0 <= i < j < k + 2 ensures Le(cmp, r[i], r[j]) {
          assert j < k + 1 ==> Le(cmp, r[..k + 1][i], r[..k + 1][j]);
        }
      }
    }
  }

  lemma {:induction false} SettledSwap<T>(cmp: (T, T) -> int, r: seq<T>, k: nat, m: nat)
    requires k + 1 < |r| && k + 1 < m && Settled(cmp, r, m)
    ensures Settled(cmp, Swapped(r, k), m)
  {
    SwapAt(r, k);
    var r' := Swapped(r, k);
    forall i, j | 0 <= i < j < |r'| && j >= m ensures Le(cmp, r'[i], r'[j]) {
      assert r'[j] == r[j] && r'[i] == r[if i == k then k + 1 else if i == k + 1 then k else i];
    }
  }

  /** The end of a pass over the first m elements. */
  lemma {:induction false} PassDone<T>(cmp: (T, T) -> int, r: seq<T>, k: nat, m: nat)
    requires k < |r| && k + 1 == m && Settled(cmp, r, m) && Max(cmp, r, k)
    ensures Settled(cmp, r, m - 1)
    ensures Sorted(cmp, r[..k + 1]) ==> Sorted(cmp, r)
  {
    if Sorted(cmp, r[..k + 1]) {
      forall i, j | 0 <= i < j < |r| ensures Le(cmp, r[i], r[j]) {
        assert j < k + 1 ==> Le(cmp, r[..k + 1][i], r[..k + 1][j]);
      }
    }
  }

  /** Exchanging two neighbours that are strictly out of order is stable. */
  lemma {:induction false} SwapStable<T>(cmp: (T, T) -> int, s: seq<T>, r: seq<T>, k: nat)
    requires k + 1 < |r| && !Le(cmp, r[k], r[k + 1]) && Good(cmp, s, [], r)
    ensures Good(cmp, s, [], Swapped(r, k))
  {
    hide Class; hide Preorder; hide Within; hide Cat; hide Le; hide Swapped; hide Sorted;
    var r' := Swapped(r, k);
    NoCat<T>(r);
    NoCat<T>(r');
    SwapMultiset(r, k);
    if Preorder(cmp, s) {
      RestWithin(cmp, s, r);
      forall z | z in s ensures Class(cmp, r', z) == Class(cmp, s, z) {
        SwapClass(cmp, r, k, z, s);
        assert Class(cmp, Cat([]) + r, z) == Class(cmp, s, z);
      }
    }
  }

  lemma {:induction false} NoCat<T>(r: seq<T>)
    ensures Cat([]) + r == r
  {
  }

  lemma {:induction false} SwapMultiset<T>(r: seq<T>, k: nat)
    requires k + 1 < |r|
    ensures multiset(Swapped(r, k)) == multiset(r)
  {
    assert r == r[..k] + [r[k], r[k + 1]] + r[k + 2..];
    MidMultiset(r[..k], [r[k], r[k + 1]], [r[k + 1], r[k]], r[k + 2..]);
  }

  lemma {:induction false} SwapClass<T>(cmp: (T, T) -> int, r: seq<T>, k: nat, z: T, u: seq<T>)
    requires Preorder(cmp, u) && k + 1 < |r| && r[k] in u && r[k + 1] in u && z in u && !Le(cmp, r[k], r[k + 1])
    ensures Class(cmp, Swapped(r, k), z) == Class(cmp, r, z)
  {
    hide Class; hide Preorder; hide Le;
    var a, x, y, b := r[..k], r[k], r[k + 1], r[k + 2..];
    assert r == a + [x, y] + b;
    ClassSwap(cmp, x, y, z, u);
    ClassMid(cmp, a, [x, y], b, z);
    ClassMid(cmp, a, [y, x], b, z);
  }

  lemma {:induction false} RestWithin<T>(cmp: (T, T) -> int, s: seq<T>, r: seq<T>)
    requires Good(cmp, s, [], r)
    ensures Within(r, s) && |r| == |s| && multiset(r) == multiset(s)
    ensures forall i :: 0 <= i < |r| ==> r[i] in s
  {
    hide Class;
    assert Cat<T>([]) == [] && [] + r == r;
    WithinSame(r, s, s);
    assert |multiset(r)| == |r| && |multiset(s)| == |s|;
    forall i | 0 <= i < |r| ensures r[i] in s {
      assert r[i] in r;
    }
  }

  lemma {:induction false} BubbleDone<T>(cmp: (T, T) -> int, s: seq<T>, r: seq<T>)
    requires Good(cmp, s, [], r)
    ensures multiset(r) == multiset(s)
    ensures Preorder(cmp, s) && Sorted(cmp, r) ==> r == StableSort(cmp, s)
  {
    hide Class; hide Preorder; hide Sorted; hide StableSort;
    RestWithin(cmp, s, r);
    assert Cat<T>([]) == [] && [] + r == r;
    if Preorder(cmp, s) && Sorted(cmp, r) {
      SortOfUnique(cmp, s, r);
    }
  }
}
