/** Positions of the key cursor: from an entry of an inner level down to the leaves. */
module BtreeCursor {
  import opened BtreeTower
  import opened BtreeSteps
  import opened BtreeFill
  import opened BtreeGrowth
  import opened BtreeShrink
  import opened BtreeMaps

  /** How many leaf entries lie left of entry number x of level l (x may be one past the end). */
  ghost function Before<N>(t: Tower<N>, l: nat, x: nat): nat
    requires l < |t|
    decreases l
  {
    if l == 0 then x else if x <= |t[l - 1]| then Before(t, l - 1, Off(t[l - 1], x)) else 0
  }

  lemma {:induction false} BeforeEnd<N>(t: Tower<N>, root: N, K: nat, l: nat)
    requires l < |t| && WF(t[0..], root, K)
    ensures Before(t, l, |Flat(t[l])|) == |Flat(t[0])| && Before(t, l, 0) == 0
    decreases l
  {
    if l > 0 {
      WFUp(t, root, K, 0, l);
      WFUp(t, root, K, 0, l - 1);
      LevelAt(t, root, K, l);
      LevelAt(t, root, K, l - 1);
      assert t[l - 1][..|t[l - 1]|] == t[l - 1] && t[l - 1][..0] == [];
      BeforeEnd(t, root, K, l - 1);
    }
  }

  /** A stored key is covered all the way up. */
  lemma {:induction false} StoredTight<N>(t: Tower<N>, root: N, K: nat, i: nat) returns (j: nat, q: nat)
    requires t != [] && WF(t[0..], root, K) && i < |Flat(t[0])|
    ensures Located(t, root, 0, j, q, Flat(t[0])[i].key) && Off(t[0], j) + q == i
    ensures Tight(Routes(t[1..], root), Flat(t[0])[i].key)
  {
    j, q := InFlat(t[0], i);
    LocatedKey(t, root, K, 0, j, q);
    LevelAt(t, root, K, 0);
    RouteAt(t[0], Routes(t[1..], root), j, q);
    assert Flat(t[0])[Off(t[0], j) + q].key == Flat(t[0])[i].key;
  }

  /** A search that finds no slot in an inner node has found that the key is not in the tree. */
  lemma {:induction false} LookupMiss<N>(t: Tower<N>, root: N, K: nat, l: nat, j: nat, key: nat)
    requires 0 < l < |t| && WF(t[0..], root, K) && UpperNonEmpty(t, 0) && j < |t[l]|
    requires Covers(Routes(t[l + 1..], root), j, key) && IsPos(t[l][j].es, key, |t[l][j].es|)
    ensures !HasKey(Flat(t[0]), key)
  {
    if HasKey(Flat(t[0]), key) {
      var i :| 0 <= i < |Flat(t[0])| && Flat(t[0])[i].key == key;
      var j0, q0 := StoredTight(t, root, K, i);
      WFUp(t, root, K, 0, 1);
      TightUp(t, root, K, 1, l, key);
      WFUp(t, root, K, 0, l);
      LevelAt(t, root, K, l);
      TightStep(t[l], Routes(t[l + 1..], root), K, j, |t[l][j].es|, key);
    }
  }

  /** Entry number x of an inner level points to node x of the level below. */
  lemma {:induction false} DownStep<N>(t: Tower<N>, root: N, K: nat, l: nat, j: nat, q: nat)
    requires 0 < l < |t| && WF(t[0..], root, K) && UpperNonEmpty(t, 0) && j < |t[l]| && q < |t[l][j].es|
    ensures var x := Off(t[l], j) + q;
      && x < |t[l - 1]| && t[l][j].es[q].val == Child(t[l - 1][x].id)
      && NonEmpty(t[l - 1])
      && Off(t[l - 1], x + 1) == Off(t[l - 1], x) + |t[l - 1][x].es|
      && NodeOK(t[l - 1][x], K)
  {
    WFUp(t, root, K, 0, l - 1);
    WFUp(t, root, K, 0, l);
    LevelAt(t, root, K, l - 1);
    LevelAt(t, root, K, l);
    RouteAt(t[l], Routes(t[l + 1..], root), j, q);
    assert LinkedAt(t[l - 1], Routes(t[l..], root), Off(t[l], j) + q);
    OffNext(t[l - 1], Off(t[l], j) + q);
  }

  lemma {:induction false} StoreOK<N>(t: Tower<N>, root: N, K: nat, h: nat, j: nat, q: nat, value: nat)
    requires t != [] && WF(t[0..], root, K) && FillOK(t, 0, [], h) && LeafOK(Flat(t[0])) && value != 0
    requires j < |t[0]| && q < |t[0][j].es|
    ensures var e := Entry(t[0][j].es[q].key, Data(value));
      var t' := t[0 := Put(t[0], j, t[0][j].es[q := e])];
      var i := Off(t[0], j) + q;
      && i < |Flat(t[0])| && Flat(t[0])[i].key == e.key
      && WF(t'[0..], root, K) && FillOK(t', 0, [], h) && LeafOK(Flat(t'[0]))
      && Flat(t'[0]) == Flat(t[0])[i := e]
  {
    var e := Entry(t[0][j].es[q].key, Data(value));
    var es' := t[0][j].es[q := e];
    var t' := t[0 := Put(t[0], j, es')];
    LevelAt(t, root, K, 0);
    StoreFlat(t[0], j, q, e);
    StoreLevel(t[0], Routes(t[1..], root), K, |t| == 1, j, q, e);
    assert t'[1..] == t[1..] && t'[0..] == t' && t[0..] == t;
    assert Sizes(0, t'[0]) == Sizes(0, t[0]);
  }

  lemma {:induction false} StoreFlat<N>(level: Level<N>, j: nat, q: nat, e: Entry<N>)
    requires j < |level| && q < |level[j].es|
    ensures Off(level, j) + q < |Flat(level)| && Flat(level)[Off(level, j) + q] == level[j].es[q]
    ensures Flat(Put(level, j, level[j].es[q := e])) == Flat(level)[Off(level, j) + q := e]
  {
    var ups := seq(|level|, i => Route(0, 0, Null));
    hide LevelRoutes;
    RouteAt(level, ups, j, q);
    PutCut(level, ups, j, level[j].es[q := e]);
  }

  lemma {:induction false} StoreLevel<N>(level: Level<N>, ups: seq<Route<N>>, K: nat, top: bool, j: nat, q: nat, e: Entry<N>)
    requires LevelOK(level, ups, K, top) && j < |level| && q < |level[j].es| && e.key == level[j].es[q].key && e.val != Null
    ensures LevelOK(Put(level, j, level[j].es[q := e]), ups, K, top)
  {
    var level' := Put(level, j, level[j].es[q := e]);
    forall i | 0 <= i < |level'|
      ensures LinkedAt(level', ups, i) && NodeOK(level'[i], K) && (top || level'[i].es != [])
    {
      assert LinkedAt(level, ups, i) && NodeOK(level[i], K) && (top || level[i].es != []);
    }
  }

  /** Leftmost and rightmost nodes of every level follow one another downwards. */
  lemma {:induction false} EdgeStep<N>(t: Tower<N>, root: N, K: nat, l: nat)
    requires 0 < l < |t| && WF(t[0..], root, K) && UpperNonEmpty(t, 0)
    ensures t[l] != [] && t[l - 1] != [] && NonEmpty(t[l - 1])
    ensures t[l][0].es != [] && t[l][0].es[0].val == Child(t[l - 1][0].id)
    ensures var g := t[l][|t[l]| - 1];
      g.es != [] && g.es[|g.es| - 1].val == Child(t[l - 1][|t[l - 1]| - 1].id)
  {
    hide WF; hide Flat; hide Off;
    NotEmpty(t, root, K, l);
    NotEmpty(t, root, K, l - 1);
    var last := |t[l]| - 1;
    assert NonEmpty(t[l]) && t[l][0].es != [] && t[l][last].es != [];
    DownStep(t, root, K, l, 0, 0);
    OffZero(t[l]);
    DownStep(t, root, K, l, last, |t[l][last].es| - 1);
    WFUp(t, root, K, 0, l - 1);
    LastChild(t, root, K, l);
  }

  lemma {:induction false} OffZero<N>(level: Level<N>)
    ensures Off(level, 0) == 0
  {
    assert level[..0] == [];
  }

  lemma {:induction false} LastChild<N>(t: Tower<N>, root: N, K: nat, l: nat)
    requires 0 < l < |t| && WF(t[l - 1..], root, K) && t[l] != []
    ensures Off(t[l], |t[l]| - 1) + |t[l][|t[l]| - 1].es| == |t[l - 1]|
  {
    hide WF; hide Flat; hide Off;
    LevelAt(t, root, K, l - 1);
    LevelAt(t, root, K, l);
    OffNext(t[l], |t[l]| - 1);
    OffAll(t[l]);
  }

  lemma {:induction false} OffAll<N>(level: Level<N>)
    ensures Off(level, |level|) == |Flat(level)|
  {
    assert level[..|level|] == level;
  }

  lemma {:induction false} NotEmpty<N>(t: Tower<N>, root: N, K: nat, l: nat)
    requires l < |t| && WF(t[0..], root, K) && UpperNonEmpty(t, 0)
    ensures t[l] != []
    decreases |t| - l
  {
    WFUp(t, root, K, 0, l);
    LevelAt(t, root, K, l);
    if l + 1 < |t| {
      NotEmpty(t, root, K, l + 1);
      WFUp(t, root, K, 0, l + 1);
      LevelAt(t, root, K, l + 1);
      CutAt(t[l + 1], Routes(t[l + 2..], root), 0);
      assert t[l + 1][0].es != [];
    } else {
      assert t[l + 1..] == [];
    }
  }

  /** First and last entry of the leaves. */
  lemma {:induction false} EdgeEntries<N>(level: Level<N>)
    requires level != [] && NonEmpty(level)
    ensures Flat(level) != [] && Flat(level)[0] == level[0].es[0]
    ensures var g := level[|level| - 1]; Flat(level)[|Flat(level)| - 1] == g.es[|g.es| - 1]
  {
    var last := |level| - 1;
    assert level == level[..last] + [level[last]] + [];
    FlatCut(level[..last], level[last], []);
    assert level[0].es != [] && level[last].es != [];
  }

  lemma {:induction false} SingleFlat<N>(level: Level<N>)
    requires |level| == 1
    ensures Flat(level) == level[0].es
  {
    assert level == [] + [level[0]] + [];
    FlatCut([], level[0], []);
  }

  lemma {:induction false} UpperFrom<N>(t: Tower<N>, lo: nat)
    requires UpperNonEmpty(t, 0)
    ensures UpperNonEmpty(t, lo)
  {
  }

  /** Nothing to the right in this node: the successor is to the right of the node itself. */
  lemma {:induction false} NextUp<N>(t: Tower<N>, root: N, K: nat, lo: nat, j: nat, x: nat)
    requires lo < |t| && WF(t[0..], root, K) && j < |t[lo]| && Off(t[lo], j) + |t[lo][j].es| == x + 1
    ensures lo + 1 < |t| ==> Before(t, lo + 1, j + 1) == Before(t, lo, x + 1)
    ensures lo + 1 == |t| ==> Before(t, lo, x + 1) == |Flat(t[0])|
  {
    OffNext(t[lo], j);
    if lo + 1 == |t| {
      WFUp(t, root, K, 0, lo);
      TopOne(t, root, K, lo);
      SingleFlat(t[lo]);
      assert t[lo][..0] == [];
      BeforeEnd(t, root, K, lo);
    }
  }

  /** Nothing to the left in this node: the predecessor is to the left of the node itself. */
  lemma {:induction false} PrevUp<N>(t: Tower<N>, root: N, K: nat, lo: nat, j: nat, x: nat)
    requires lo < |t| && WF(t[0..], root, K) && j < |t[lo]| && Off(t[lo], j) == x
    ensures lo + 1 < |t| ==> Before(t, lo + 1, j) == Before(t, lo, x)
    ensures lo + 1 == |t| ==> Before(t, lo, x) == 0
  {
    if lo + 1 == |t| {
      WFUp(t, root, K, 0, lo);
      TopOne(t, root, K, lo);
      assert t[lo][..0] == [];
      BeforeEnd(t, root, K, lo);
    }
  }

  lemma {:induction false} BeforeDown<N>(t: Tower<N>, l: nat, x: nat)
    requires 0 < l < |t| && x <= |t[l - 1]|
    ensures Before(t, l, x) == Before(t, l - 1, Off(t[l - 1], x)) && Before(t, 0, x) == x
  {
  }
}
