/** The order of a binary heap kept as a complete tree, on the sequence of its nodes: position p, counted from 1,
    is element p - 1; its parent is position p / 2, its children are 2p and 2p + 1. */
module HeapOrder {

  ghost predicate Less<T>(cmp: (T, T) -> int, x: T, y: T) {
    cmp(x, y) < 0
  }

  /** The comparator orders the elements of s: never both ways, and being not less is transitive. */
  ghost predicate StrictWeak<T>(cmp: (T, T) -> int, s: seq<T>) {
    && (forall x, y :: x in s && y in s ==> !(Less(cmp, x, y) && Less(cmp, y, x)))
    && (forall x, y, z :: x in s && y in s && z in s && !Less(cmp, x, y) && !Less(cmp, y, z) ==> !Less(cmp, x, z))
  }

  /** The element at position c is not less than the one at position p. */
  ghost predicate Above<T>(cmp: (T, T) -> int, a: seq<T>, p: nat, c: nat)
    requires 1 <= p <= |a| && 1 <= c <= |a|
  {
    !Less(cmp, a[c - 1], a[p - 1])
  }

  ghost predicate Ordered<T>(cmp: (T, T) -> int, a: seq<T>) {
    forall p, c: nat :: 1 <= p && p == c / 2 && c <= |a| ==> Above(cmp, a, p, c)
  }

  /** Ordered but for position h and its parent; the children of h are not below the parent either. */
  ghost predicate OrderedUp<T>(cmp: (T, T) -> int, a: seq<T>, h: nat) {
    && (forall p, c: nat :: 1 <= p && p == c / 2 && c <= |a| && c != h ==> Above(cmp, a, p, c))
    && (forall p, c: nat :: 1 <= p && p == h / 2 && h == c / 2 && c <= |a| ==> Above(cmp, a, p, c))
  }

  /** Ordered but for position h and its children; they are not below the parent of h. */
  ghost predicate OrderedDown<T>(cmp: (T, T) -> int, a: seq<T>, h: nat) {
    && (forall p, c: nat :: 1 <= p && p == c / 2 && c <= |a| && p != h ==> Above(cmp, a, p, c))
    && (forall p, c: nat :: 1 <= p && p == h / 2 && h == c / 2 && c <= |a| ==> Above(cmp, a, p, c))
  }

  /** Ordered but for position h altogether. */
  ghost predicate OrderedHole<T>(cmp: (T, T) -> int, a: seq<T>, h: nat) {
    && (forall p, c: nat :: 1 <= p && p == c / 2 && c <= |a| && p != h && c != h ==> Above(cmp, a, p, c))
    && (forall p, c: nat :: 1 <= p && p == h / 2 && h == c / 2 && c <= |a| ==> Above(cmp, a, p, c))
  }

  /** Positions p and q exchanged. */
  ghost function Exchanged<T>(a: seq<T>, p: nat, q: nat): (b: seq<T>)
    requires 1 <= p <= |a| && 1 <= q <= |a|
    ensures |b| == |a| && multiset(b) == multiset(a)
  {
    a[p - 1 := a[q - 1]][q - 1 := a[p - 1]]
  }

  lemma {:induction false} UpStart<T>(cmp: (T, T) -> int, a: seq<T>, x: T)
    requires Ordered(cmp, a)
    ensures OrderedUp(cmp, a + [x], |a| + 1)
  {
    var b := a + [x];
    forall p, c: nat | 1 <= p && p == c / 2 && c <= |b| && c != |a| + 1 ensures Above(cmp, b, p, c) {
      assert Above(cmp, a, p, c);
    }
  }

  lemma {:induction false} UpDone<T>(cmp: (T, T) -> int, a: seq<T>, h: nat)
    requires OrderedUp(cmp, a, h) && 1 <= h <= |a| && (h > 1 ==> Above(cmp, a, h / 2, h))
    ensures Ordered(cmp, a)
  {
  }

  lemma {:induction false} UpStep<T>(cmp: (T, T) -> int, a: seq<T>, h: nat)
    requires StrictWeak(cmp, a) && OrderedUp(cmp, a, h) && 2 <= h <= |a| && !Above(cmp, a, h / 2, h)
    ensures OrderedUp(cmp, Exchanged(a, h, h / 2), h / 2)
  {
    var q, b := h / 2, Exchanged(a, h, h / 2);
    forall p, c: nat | 1 <= p && p == c / 2 && c <= |b| && c != q ensures Above(cmp, b, p, c) {
      if c == h {
        NotBoth(cmp, a, h, q);
      } else if p == q {
        assert Above(cmp, a, q, c);
        LessLess(cmp, a, h, q, c);
      } else if p == h {
        assert Above(cmp, a, q, c);
      } else {
        assert Above(cmp, a, p, c);
      }
    }
    forall p, c: nat | 1 <= p && p == q / 2 && q == c / 2 && c <= |b| ensures Above(cmp, b, p, c) {
      assert Above(cmp, a, p, q);
      assert c != h ==> Above(cmp, a, q, c);
      if c != h {
        ThroughBoth(cmp, a, p, q, c);
      }
    }
  }

  lemma {:induction false} NotBoth<T>(cmp: (T, T) -> int, a: seq<T>, p: nat, q: nat)
    requires StrictWeak(cmp, a) && 1 <= p <= |a| && 1 <= q <= |a|
    ensures Above(cmp, a, p, q) || Above(cmp, a, q, p)
  {
    assert a[p - 1] in a && a[q - 1] in a;
  }

  lemma {:induction false} ThroughBoth<T>(cmp: (T, T) -> int, a: seq<T>, p: nat, q: nat, r: nat)
    requires StrictWeak(cmp, a) && 1 <= p <= |a| && 1 <= q <= |a| && 1 <= r <= |a|
    requires Above(cmp, a, p, q) && Above(cmp, a, q, r)
    ensures Above(cmp, a, p, r)
  {
    assert a[p - 1] in a && a[q - 1] in a && a[r - 1] in a;
  }

  /** h is less than q, c is not less than q: c is not less than h. */
  lemma {:induction false} LessLess<T>(cmp: (T, T) -> int, a: seq<T>, h: nat, q: nat, c: nat)
    requires StrictWeak(cmp, a) && 1 <= h <= |a| && 1 <= q <= |a| && 1 <= c <= |a|
    requires !Above(cmp, a, q, h) && Above(cmp, a, q, c)
    ensures Above(cmp, a, h, c)
  {
    NotBoth(cmp, a, h, q);
    ThroughBoth(cmp, a, h, q, c);
  }

  /** The last element takes the place of the one at position h. */
  lemma {:induction false} HoleStart<T>(cmp: (T, T) -> int, a: seq<T>, h: nat)
    requires StrictWeak(cmp, a) && Ordered(cmp, a) && 1 <= h < |a|
    ensures OrderedHole(cmp, a[..|a| - 1][h - 1 := a[|a| - 1]], h)
  {
    var b := a[..|a| - 1][h - 1 := a[|a| - 1]];
    forall p, c: nat | 1 <= p && p == c / 2 && c <= |b| && p != h && c != h ensures Above(cmp, b, p, c) {
      assert Above(cmp, a, p, c);
    }
    forall p, c: nat | 1 <= p && p == h / 2 && h == c / 2 && c <= |b| ensures Above(cmp, b, p, c) {
      assert Above(cmp, a, p, h) && Above(cmp, a, h, c);
      ThroughBoth(cmp, a, p, h, c);
    }
  }

  lemma {:induction false} HoleUp<T>(cmp: (T, T) -> int, a: seq<T>, h: nat)
    requires StrictWeak(cmp, a) && OrderedHole(cmp, a, h) && 2 <= h <= |a| && !Above(cmp, a, h / 2, h)
    ensures OrderedUp(cmp, a, h)
  {
    forall p, c: nat | 1 <= p && p == c / 2 && c <= |a| && c != h ensures Above(cmp, a, p, c) {
      if p == h {
        assert Above(cmp, a, h / 2, c);
        LessLess(cmp, a, h, h / 2, c);
      }
    }
  }

  lemma {:induction false} HoleDown<T>(cmp: (T, T) -> int, a: seq<T>, h: nat)
    requires OrderedHole(cmp, a, h) && 1 <= h <= |a| && (h > 1 ==> Above(cmp, a, h / 2, h))
    ensures OrderedDown(cmp, a, h)
  {
  }

  lemma {:induction false} DownDone<T>(cmp: (T, T) -> int, a: seq<T>, h: nat)
    requires OrderedDown(cmp, a, h) && 1 <= h <= |a|
    requires (2 * h <= |a| ==> Above(cmp, a, h, 2 * h)) && (2 * h + 1 <= |a| ==> Above(cmp, a, h, 2 * h + 1))
    ensures Ordered(cmp, a)
  {
    forall p, c: nat | 1 <= p && p == c / 2 && c <= |a| ensures Above(cmp, a, p, c) {
      assert p == h ==> c == 2 * h || c == 2 * h + 1;
    }
  }

  /** The element at h is less than its smaller child s: it is in place. */
  lemma {:induction false} DownStop<T>(cmp: (T, T) -> int, a: seq<T>, h: nat, s: nat)
    requires StrictWeak(cmp, a) && OrderedDown(cmp, a, h) && 1 <= h <= |a|
    requires Smaller(cmp, a, h, s) && !Above(cmp, a, s, h)
    ensures Ordered(cmp, a)
  {
    NotBoth(cmp, a, h, s);
    forall c: nat | c == 2 * h || c == 2 * h + 1 ensures c <= |a| ==> Above(cmp, a, h, c) {
      if c <= |a| {
        assert c != s ==> Above(cmp, a, s, c);
        if c != s {
          ThroughBoth(cmp, a, h, s, c);
        }
      }
    }
    DownDone(cmp, a, h);
  }

  /** s is a child of h, and the other child, if there is one, is not less. */
  ghost predicate Smaller<T>(cmp: (T, T) -> int, a: seq<T>, h: nat, s: nat) {
    && 1 <= h && s / 2 == h && s <= |a|
    && forall c: nat :: c / 2 == h && c <= |a| && c != s ==> Above(cmp, a, s, c)
  }

  lemma {:induction false} DownStep<T>(cmp: (T, T) -> int, a: seq<T>, h: nat, s: nat)
    requires StrictWeak(cmp, a) && OrderedDown(cmp, a, h) && 1 <= h <= |a|
    requires Smaller(cmp, a, h, s) && Above(cmp, a, s, h)
    ensures OrderedDown(cmp, Exchanged(a, s, h), s)
  {
    var b := Exchanged(a, s, h);
    forall p, c: nat | 1 <= p && p == c / 2 && c <= |b| && p != s ensures Above(cmp, b, p, c) {
      if c == s {
        assert p == h;
      } else if p == h {
        assert Above(cmp, a, s, c);
      } else if c == h {
        assert Above(cmp, a, p, s);
      } else {
        assert Above(cmp, a, p, c);
      }
    }
    forall p, c: nat | 1 <= p && p == s / 2 && s == c / 2 && c <= |b| ensures Above(cmp, b, p, c) {
      assert Above(cmp, a, s, c);
    }
  }

  lemma {:induction false} StrictSame<T>(cmp: (T, T) -> int, a: seq<T>, b: seq<T>)
    requires StrictWeak(cmp, a) && multiset(a) == multiset(b)
    ensures StrictWeak(cmp, b)
  {
    forall x | x in b ensures x in a {
      assert x in multiset(b) && x in multiset(a);
    }
  }

  /** The root of a heap is not above any node. */
  lemma {:induction false} RootLeast<T>(cmp: (T, T) -> int, a: seq<T>, p: nat)
    requires StrictWeak(cmp, a) && Ordered(cmp, a) && 1 <= p <= |a|
    ensures Above(cmp, a, 1, p)
  {
    if p == 1 {
      NotBoth(cmp, a, 1, 1);
    } else {
      RootLeast(cmp, a, p / 2);
      assert Above(cmp, a, p / 2, p);
      ThroughBoth(cmp, a, 1, p / 2, p);
    }
  }
}
