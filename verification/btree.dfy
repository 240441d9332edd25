/** The B+tree of lib/btree.c: lookup, update, insert, remove, destroy and the key cursor, on blocks in
    memory.  Levels are numbered from 0 at the leaves (the source counts them from 1). */
module Btree {
  import opened BtreeTower
  import opened BtreeSteps
  import opened BtreeFill
  import opened BtreeGrowth
  import opened BtreeShrink
  import opened BtreeMaps
  import opened BtreeCursor
  import opened BtreeNodeSets
  import opened BtreeNodes

  /** -ENOERR, -EALREADY, -ENOMEM, -EINVAL, -ENOENT, or whatever the clash callback answered. */
  datatype Error = Ok | Already | NoMemory | Invalid | NoEntry | Clash(status: int)

  /** What remove_level hands back.  Refused: the remove callback answered with something else than NULL.
      Overrun: the comparison read past the keys of a full leaf and happened to match, so the source goes on with a
      slot that does not exist. */
  datatype Taken = Absent | Removed(value: Slot<BtreeNode>) | Refused(answer: nat) | Overrun

  /** A callback of the tree, which may be missing. */
  datatype Hook<F> = Nothing | Call(f: F)

  /** A key passed by pointer: the caller's own, or slot i of a block in the tree. */
  datatype KeyPtr = Own(k: nat) | InSlot(n: BtreeNode, i: nat)

  ghost predicate InBlock(key: KeyPtr)
    reads if key.InSlot? then {key.n} else {}
  {
    key.InSlot? ==> key.i < |key.n.keys|
  }

  function Load(key: KeyPtr): nat
    requires InBlock(key)
    reads if key.InSlot? then {key.n} else {}
  {
    if key.InSlot? then key.n.keys[key.i] else key.k
  }

  /** The leaf the key belongs to is full of larger keys, and the key read as a word is its first value. */
  ghost predicate OverrunAt(t: BTower, root: BtreeNode, K: nat, key: nat) {
    t != [] && exists j: nat ::
      && j < |t[0]| && Covers(Routes(t[1..], root), j, key)
      && |t[0][j].es| == K && (forall i :: 0 <= i < K ==> t[0][j].es[i].key > key)
      && K > 0 && t[0][j].es[0].val == Data(key)
  }

  /** Some node of the level is full. */
  ghost predicate FullNode<N>(level: Level<N>, K: nat) {
    exists i :: 0 <= i < |level| && |level[i].es| == K
  }

  lemma {:induction false} IsFull<N>(level: Level<N>, i: nat, K: nat)
    requires i < |level| && |level[i].es| == K
    ensures FullNode(level, K)
  {
  }

  type BLevel = Level<BtreeNode>
  type BTower = Tower<BtreeNode>

  ghost predicate HoldsAll(t: BTower, K: nat)
    reads NodesFrom(t, 0)
  {
    forall l, i :: 0 <= l < |t| && 0 <= i < |t[l]| ==>
      t[l][i].id.Holds(t[l][i].es, K)
  }

  /** All nodes but n are as the tower says. */
  ghost predicate HoldsBut(t: BTower, n: BtreeNode, K: nat)
    reads NodesFrom(t, 0) - {n}
  {
    forall l, i :: 0 <= l < |t| && 0 <= i < |t[l]| && t[l][i].id != n ==> t[l][i].id.Holds(t[l][i].es, K)
  }

  /** Levels lo up keep their nodes and sizes; only separators may differ. */
  ghost predicate SameNodes<N>(t: Tower<N>, t': Tower<N>, lo: nat) {
    && |t| == |t'| && lo <= |t|
    && t'[..lo] == t[..lo]
    && forall l :: lo <= l < |t| ==> SameSizes(t[l], t'[l]) && forall i :: 0 <= i < |t[l]| ==> t[l][i].id == t'[l][i].id
  }

  lemma {:induction false} SlotFacts<N>(t: Tower<N>, root: N, K: nat, lo: nat, l: nat, j: nat)
    requires lo < l < |t| && j < |t[l]| && WF(t[lo..], root, K) && UpperNonEmpty(t, lo)
    ensures WF(t[l..], root, K) && NodeOK(t[l][j], K) && t[l][j].es != []
    ensures LevelOK(t[l], Routes(t[l + 1..], root), K, false) && Ordered(Routes(t[l + 1..], root))
    ensures Routes(t[l..], root) == LevelRoutes(t[l], Routes(t[l + 1..], root))
    ensures Linked(t[l - 1], Routes(t[l..], root))
  {
    WFUp(t, root, K, lo, l);
    WFUp(t, root, K, lo, l - 1);
    LevelAt(t, root, K, l);
    LevelAt(t, root, K, l - 1);
  }

  lemma {:induction false} NoLowering<N>(t: Tower<N>, root: N, K: nat, lo: nat, l: nat, j: nat, q: nat, key: nat)
    requires lo < l < |t| && j < |t[l]| && WF(t[lo..], root, K) && UpperNonEmpty(t, lo)
    requires Covers(Routes(t[l + 1..], root), j, key) && IsPos(t[l][j].es, key, q)
    requires Tight(Routes(t[lo + 1..], root), key)
    ensures q < |t[l][j].es|
  {
    SlotFacts(t, root, K, lo, l, j);
    WFUp(t, root, K, lo, lo + 1);
    TightUp(t, root, K, lo + 1, l, key);
    TightStep(t[l], Routes(t[l + 1..], root), K, j, q, key);
  }

  /** What lowering the last separator of node j of level l does to the levels from lo up. */
  lemma {:induction false} LowerTo<N>(t: Tower<N>, root: N, K: nat, lo: nat, l: nat, j: nat, key: nat)
    requires lo <= l < |t| && j < |t[l]| && WF(t[lo..], root, K) && key > 0
    requires LevelOK(t[l], Routes(t[l + 1..], root), K, false) && Ordered(Routes(t[l + 1..], root))
    requires Routes(t[l..], root) == LevelRoutes(t[l], Routes(t[l + 1..], root)) && WF(t[l + 1..], root, K)
    requires Covers(Routes(t[l + 1..], root), j, key) && Routes(t[l + 1..], root)[j].sep <= key
    requires t[l][j].es != [] && IsPos(t[l][j].es, key, |t[l][j].es|)
    ensures var t' := t[l := Put(t[l], j, LowerLast(t[l][j].es, key))];
      && WF(t'[lo..], root, K)
      && Lowered(Routes(t[lo..], root), Routes(t'[lo..], root))
      && (lo < l ==> Routes(t'[lo..], root) == Routes(t[lo..], root))
      && Off(t[l], j) + |t[l][j].es| - 1 < |Routes(t'[l..], root)|
      && Routes(t'[l..], root)[Off(t[l], j) + |t[l][j].es| - 1].sep == key
      && Lowered(Routes(t[l..], root), Routes(t'[l..], root))
  {
    hide Off; hide LevelRoutes; hide LowerLast;
    var t' := t[l := Put(t[l], j, LowerLast(t[l][j].es, key))];
    LowerLevel(t[l], Routes(t[l + 1..], root), K, j, key);
    SuffixStep(t', l);
    assert t'[l + 1..] == t[l + 1..];
    LowerTower(t, t', root, K, lo, l);
  }

  lemma {:induction false} LowerOne<N>(t: Tower<N>, root: N, K: nat, lo: nat, l: nat, j: nat, key: nat)
    requires lo < l < |t| && j < |t[l]| && WF(t[lo..], root, K) && UpperNonEmpty(t, lo) && key > 0
    requires Covers(Routes(t[l + 1..], root), j, key) && Routes(t[l + 1..], root)[j].sep <= key
    requires t[l][j].es != [] && IsPos(t[l][j].es, key, |t[l][j].es|)
    ensures var t' := t[l := Put(t[l], j, LowerLast(t[l][j].es, key))];
      && SameNodes(t, t', lo + 1) && WF(t'[lo..], root, K) && UpperNonEmpty(t', lo)
      && Lowered(Routes(t[lo + 1..], root), Routes(t'[lo + 1..], root))
      && Routes(t'[lo..], root) == Routes(t[lo..], root)
  {
    hide WF; hide Routes; hide Off; hide Lowered; hide LevelOK;
    SlotFacts(t, root, K, lo, l, j);
    WFUp(t, root, K, lo, l + 1);
    LowerTo(t, root, K, lo, l, j, key);
    WFUp(t, root, K, lo, lo + 1);
    LowerTo(t, root, K, lo + 1, l, j, key);
  }

  lemma {:induction false} LowerCovers<N>(t: Tower<N>, root: N, K: nat, lo: nat, l: nat, j: nat, key: nat)
    requires lo < l < |t| && j < |t[l]| && WF(t[lo..], root, K) && UpperNonEmpty(t, lo) && key > 0
    requires Covers(Routes(t[l + 1..], root), j, key) && Routes(t[l + 1..], root)[j].sep <= key
    requires t[l][j].es != [] && IsPos(t[l][j].es, key, |t[l][j].es|)
    ensures var t' := t[l := Put(t[l], j, LowerLast(t[l][j].es, key))];
      var p := Off(t[l], j) + |t[l][j].es| - 1;
      && Covers(Routes(t'[l..], root), p, key) && Routes(t'[l..], root)[p].sep <= key
      && p < |t[l - 1]| && t[l][j].es[|t[l][j].es| - 1].val == Child(t[l - 1][p].id)
  {
    hide WF; hide Routes; hide LevelRoutes; hide Off;
    var es := t[l][j].es;
    SlotFacts(t, root, K, lo, l, j);
    WFUp(t, root, K, lo, l);
    WFUp(t, root, K, lo, l + 1);
    LowerTo(t, root, K, l, l, j, key);
    StepDown(t[l], Routes(t[l + 1..], root), j, |es|, key);
    RouteAt(t[l], Routes(t[l + 1..], root), j, |es| - 1);
    assert LinkedAt(t[l - 1], Routes(t[l..], root), Off(t[l], j) + |es| - 1);
  }

  lemma {:induction false} StepOne<N>(t: Tower<N>, root: N, K: nat, lo: nat, l: nat, j: nat, q: nat, key: nat)
    requires lo < l < |t| && j < |t[l]| && WF(t[lo..], root, K) && UpperNonEmpty(t, lo)
    requires Covers(Routes(t[l + 1..], root), j, key) && IsPos(t[l][j].es, key, q) && q < |t[l][j].es|
    ensures var p := Off(t[l], j) + q;
      && Covers(Routes(t[l..], root), p, key) && Routes(t[l..], root)[p].sep <= key
      && p < |t[l - 1]| && t[l][j].es[q].val == Child(t[l - 1][p].id)
  {
    hide WF; hide UpperNonEmpty; hide LevelRoutes; hide Routes; hide Off; hide Ordered; hide NodeOK; hide NodesOK;
    SlotFacts(t, root, K, lo, l, j);
    StepDown(t[l], Routes(t[l + 1..], root), j, q, key);
    RouteAt(t[l], Routes(t[l + 1..], root), j, q);
    assert LinkedAt(t[l - 1], Routes(t[l..], root), Off(t[l], j) + q);
  }

  lemma {:induction false} NodeFacts<N>(t: Tower<N>, root: N, K: nat, lo: nat, j: nat)
    requires lo < |t| && j < |t[lo]| && WF(t[lo..], root, K)
    ensures NodeOK(t[lo][j], K)
  {
    LevelAt(t, root, K, lo);
  }

  /** What a walk for a key down to level lo may do to the tower: lower separators above lo. */
  ghost predicate Walked<N>(t: Tower<N>, t': Tower<N>, root: N, K: nat, lo: nat, key: nat) {
    && lo < |t| && SameNodes(t, t', lo + 1)
    && (forall k: nat :: NodesFrom(t', k) == NodesFrom(t, k))
    && WF(t'[lo..], root, K) && UpperNonEmpty(t', lo)
    && Lowered(Routes(t[lo + 1..], root), Routes(t'[lo + 1..], root))
    && Routes(t'[lo..], root) == Routes(t[lo..], root)
    && (Tight(Routes(t[lo + 1..], root), key) ==> t' == t)
  }

  lemma {:induction false} WalkedRefl<N>(t: Tower<N>, root: N, K: nat, lo: nat, key: nat)
    requires lo < |t| && WF(t[lo..], root, K) && UpperNonEmpty(t, lo)
    ensures Walked(t, t, root, K, lo, key)
  {
    hide WF; hide Routes;
    SameNodesRefl(t, lo + 1);
  }

  lemma {:induction false} WalkedTrans<N>(t: Tower<N>, t1: Tower<N>, t2: Tower<N>, root: N, K: nat, lo: nat, key: nat)
    requires Walked(t, t1, root, K, lo, key) && Walked(t1, t2, root, K, lo, key)
    ensures Walked(t, t2, root, K, lo, key)
  {
    hide WF; hide Routes; hide SameNodes; hide NodesFrom;
    SameNodesTrans(t, t1, t2, lo + 1);
    LoweredTrans(Routes(t[lo + 1..], root), Routes(t1[lo + 1..], root), Routes(t2[lo + 1..], root));
  }

  /** What a caller of the walk relies on. */
  lemma {:induction false} WalkedFacts<N>(t: Tower<N>, t': Tower<N>, root: N, K: nat, lo: nat, key: nat)
    requires Walked(t, t', root, K, lo, key)
    ensures |t'| == |t| && lo < |t| && t'[lo] == t[lo] && t'[..lo] == t[..lo] && t'[..lo + 1] == t[..lo + 1]
    ensures forall k: nat :: NodesFrom(t', k) == NodesFrom(t, k)
    ensures WF(t'[lo..], root, K) && UpperNonEmpty(t', lo)
    ensures Routes(t'[lo..], root) == Routes(t[lo..], root)
    ensures Tight(Routes(t[lo + 1..], root), key) ==> t' == t
    ensures Count(t') == Count(t)
    ensures Lowered(Routes(t[lo + 1..], root), Routes(t'[lo + 1..], root))
  {
    assert t'[..lo + 1][lo] == t[..lo + 1][lo] && t'[..lo + 1][..lo] == t[..lo + 1][..lo];
    SameCount(t, t');
  }

  lemma {:induction false} WalkedFill<N>(t: Tower<N>, t': Tower<N>, root: N, K: nat, lo: nat, key: nat,
                                         bg: seq<bool>, h: nat, created: bool)
    requires Walked(t, t', root, K, lo, key) && FillOn(t, lo, bg, h, created)
    ensures FillOn(t', lo, bg, h, created)
  {
    WalkedFacts(t, t', root, K, lo, key);
    if !created {
      BigSame(t[lo + 1..], t'[lo + 1..], Sizes(lo, t[lo]), h);
    }
  }

  lemma {:induction false} SameCover<N>(t: Tower<N>, t': Tower<N>, root: N, K: nat, lo: nat, j: nat, j': nat, key: nat)
    requires lo < |t'| && WF(t'[lo..], root, K) && lo < |t|
    requires Lowered(Routes(t[lo + 1..], root), Routes(t'[lo + 1..], root))
    requires Covers(Routes(t[lo + 1..], root), j, key) && Covers(Routes(t'[lo + 1..], root), j', key)
    ensures j == j'
  {
    LevelAt(t', root, K, lo);
    CoversUnique(Routes(t'[lo + 1..], root), j, j', key);
  }

  lemma {:induction false} SameCount<N>(t: Tower<N>, t': Tower<N>)
    requires |t| == |t'| && forall l :: 0 <= l < |t| ==> |t[l]| == |t'[l]|
    ensures Count(t) == Count(t')
  {
    if t != [] {
      SameCount(t[1..], t'[1..]);
    }
  }

  lemma {:induction false} OverrunHere(t0: BTower, t: BTower, root: BtreeNode, K: nat, key: nat, j: nat, q: nat)
    requires t0 != [] && t != [] && t0[0] == t[0] && WF(t[0..], root, K) && K > 0
    requires Lowered(Routes(t0[0 + 1..], root), Routes(t[0 + 1..], root))
    requires j < |t[0]| && Covers(Routes(t[0 + 1..], root), j, key) && IsPos(t[0][j].es, key, q)
    requires NodeOK(t[0][j], K)
    ensures OverrunAt(t0, root, K, key) <==> q == K && t[0][j].es[0].val == Data(key)
  {
    hide WF; hide Routes; hide LevelRoutes; hide Flat; hide LevelOK; hide Desc; hide Ordered;
    LevelAt(t, root, K, 0);
    if OverrunAt(t0, root, K, key) {
      var j': nat :| j' < |t0[0]| && Covers(Routes(t0[1..], root), j', key)
        && |t0[0][j'].es| == K && (forall i :: 0 <= i < K ==> t0[0][j'].es[i].key > key)
        && K > 0 && t0[0][j'].es[0].val == Data(key);
      CoversUnique(Routes(t[1..], root), j, j', key);
    }
    if q == K && t[0][j].es[0].val == Data(key) {
      assert Covers(Routes(t0[1..], root), j, key);
    }
  }

  lemma {:induction false} LocatedFacts<N>(t: Tower<N>, root: N, lo: nat, j: nat, q: nat, k: nat)
    requires Located(t, root, lo, j, q, k)
    ensures lo < |t| && j < |t[lo]| && q < |t[lo][j].es|
  {
  }

  lemma {:induction false} WFDesc<N>(t: Tower<N>, root: N, K: nat)
    requires t != [] && WF(t[0..], root, K)
    ensures Desc(Flat(t[0]))
  {
    LevelAt(t, root, K, 0);
  }

  lemma {:induction false} NoCount<N>(t: Tower<N>)
    ensures t == [] ==> Count(t) == 0
  {
  }

  lemma {:induction false} OneCount<N>(t: Tower<N>)
    requires |t| == 1 && |t[0]| == 1
    ensures Count(t) == 1
  {
    assert Count(t[1..]) == 0;
  }

  lemma {:induction false} LeafNil()
    ensures LeafOK<BtreeNode>([])
  {
  }

  lemma {:induction false} UpperMore<N>(t: Tower<N>, lo: nat)
    requires UpperNonEmpty(t, lo)
    ensures UpperNonEmpty(t, lo + 1)
  {
  }

  lemma {:induction false} SameNodesRefl<N>(t: Tower<N>, lo: nat)
    requires lo <= |t|
    ensures SameNodes(t, t, lo)
  {
  }

  lemma {:induction false} SameNodesTrans<N>(t: Tower<N>, t1: Tower<N>, t2: Tower<N>, lo: nat)
    requires SameNodes(t, t1, lo) && SameNodes(t1, t2, lo)
    ensures SameNodes(t, t2, lo)
  {
  }

  lemma {:induction false} LoweredTrans<N>(r: seq<Route<N>>, r1: seq<Route<N>>, r2: seq<Route<N>>)
    requires Lowered(r, r1) && Lowered(r1, r2)
    ensures Lowered(r, r2)
  {
  }

  class BtreeRoot {
    const keynum: nat
    /** Called with the value in the tree and the new one, and with a value that is to be removed. */
    const clash: Hook<(nat, nat) -> int>
    const remove: Hook<nat -> nat>
    var node: BtreeNode?
    var height: nat
    /** How many more nodes the allocator will hand out. */
    var budget: nat
    ghost var tower: BTower

    ghost function Half(): nat {
      keynum / 2
    }

    /** The tower describes the blocks in memory. */
    ghost predicate Base()
      reads `node, `height, `tower, NodesFrom(tower, 0)
    {
      && keynum >= 4 && keynum % 2 == 0
      && height == |tower|
      && (tower != [] <==> node != null)
      && Distinct(tower)
      && HoldsAll(tower, keynum)
    }

    /** Node j of level l changed to es, and nothing else of the tower did. */
    lemma {:induction false} PutBase(t: BTower, l: nat, j: nat, es: seq<Entry<BtreeNode>>)
      requires Distinct(t) && l < |t| && j < |t[l]| && tower == t[l := Put(t[l], j, es)]
      requires keynum >= 4 && keynum % 2 == 0 && height == |t| && node != null
      requires t[l][j].id.Holds(es, keynum) && HoldsBut(t, t[l][j].id, keynum)
      ensures Base()
      ensures forall k: nat :: NodesFrom(tower, k) == NodesFrom(t, k)
    {
      PutIds(t[l], j, es);
      DistinctReplace(t, l, tower[l], {});
      assert t == tower[l := t[l]];
      DistinctReplace(tower, l, t[l], {});
      forall m, i | 0 <= m < |tower| && 0 <= i < |tower[m]| ensures tower[m][i].id.Holds(tower[m][i].es, keynum) {
        assert t[m][i].id == tower[m][i].id;
        if m != l || i != j {
          DistinctIds(t, m, i, l, j);
        }
      }
    }

    /** Walk down from the root to level lo, lowering the last separator of a node that is above the key. */
    method FindParent(key: nat, lo: nat) returns (n: BtreeNode, ghost j: nat)
      requires Base() && lo < |tower| && key > 0
      requires WF(tower[lo..], node, keynum) && UpperNonEmpty(tower, lo)
      modifies `tower, NodesFrom(tower, lo + 1)
      ensures Base() && Walked(old(tower), tower, node, keynum, lo, key)
      ensures j < |tower[lo]| && n == tower[lo][j].id
      ensures Covers(Routes(tower[lo + 1..], node), j, key) && Routes(tower[lo + 1..], node)[j].sep <= key
    {
      hide WF; hide Routes; hide LevelRoutes; hide UpperNonEmpty; hide HoldsAll; hide Distinct; hide Walked; hide Flat;
      hide Count; hide Lowered; hide Tight; hide Ordered; hide LevelOK; hide Stores;
      WalkedRefl(tower, node, keynum, lo, key);
      n := node;
      j := 0;
      var h := lo + 1;
      ghost var l := |tower| - 1;
      LevelTop(key, lo);
      while h < height
        invariant lo < h <= height && l == height + lo - h
        invariant Base() && Walked(old(tower), tower, node, keynum, lo, key)
        invariant j < |tower[l]| && n == tower[l][j].id
        invariant Covers(Routes(tower[l + 1..], node), j, key) && Routes(tower[l + 1..], node)[j].sep <= key
      {
        ghost var t := tower;
        WalkedFacts(old(tower), t, node, keynum, lo, key);
        NodeAt(t, lo + 1, l, j);
        n, j := DescendOne(key, lo, n, l, j);
        WalkedFacts(t, tower, node, keynum, lo, key);
        WalkedTrans(old(tower), t, tower, node, keynum, lo, key);
        l := l - 1;
        h := h + 1;
      }
    }

    /** One step of the walk: from node j of level l to the child the key belongs to. */
    method DescendOne(key: nat, ghost lo: nat, n: BtreeNode, ghost l: nat, ghost j: nat)
      returns (n': BtreeNode, ghost j': nat)
      requires Base() && lo < l < |tower| && key > 0
      requires WF(tower[lo..], node, keynum) && UpperNonEmpty(tower, lo)
      requires j < |tower[l]| && n == tower[l][j].id
      requires Covers(Routes(tower[l + 1..], node), j, key) && Routes(tower[l + 1..], node)[j].sep <= key
      modifies `tower, n
      ensures Base() && Walked(old(tower), tower, node, keynum, lo, key)
      ensures j' < |tower[l - 1]| && n' == tower[l - 1][j'].id
      ensures Covers(Routes(tower[l..], node), j', key) && Routes(tower[l..], node)[j'].sep <= key
    {
      hide WF; hide Routes; hide LevelRoutes; hide Lowered; hide SameNodes; hide Covers; hide Off; hide UpperNonEmpty;
      hide NodesFrom; hide HoldsAll; hide Distinct; hide Ordered; hide Linked; hide Flat; hide Desc; hide Tight;
      ghost var t, es := tower, tower[l][j].es;
      WalkedRefl(t, node, keynum, lo, key);
      SlotFacts(t, node, keynum, lo, l, j);
      var index := Search(l, n, key, j);
      HoldsAllBut(t, n);
      if index == keynum || n.vals[index] == Null {
        if Tight(Routes(t[lo + 1..], node), key) {
          NoLowering(t, node, keynum, lo, l, j, index, key);
        }
        index := index - 1;
        n.LowerKey(index, key, es, keynum);
        tower := t[l := Put(t[l], j, LowerLast(es, key))];
        PutBase(t, l, j, LowerLast(es, key));
        LowerOne(t, node, keynum, lo, l, j, key);
        LowerCovers(t, node, keynum, lo, l, j, key);
      } else {
        StepOne(t, node, keynum, lo, l, j, index, key);
      }
      j' := Off(t[l], j) + index;
      n' := n.vals[index].node;
    }

    /** The linear search in node j of level l. */
    method Search(ghost l: nat, n: BtreeNode, key: nat, ghost j: nat) returns (index: nat)
      requires Base() && l < |tower| && j < |tower[l]| && n == tower[l][j].id
      ensures Base() && n.Holds(tower[l][j].es, keynum) && IsPos(tower[l][j].es, key, index)
      ensures index < keynum ==> (n.vals[index] == Null <==> index == |tower[l][j].es| || tower[l][j].es[index].val == Null)
    {
      NodeHolds(tower, l, j);
      index := n.FindIndex(key, tower[l][j].es, keynum);
    }

    lemma {:induction false} LevelTop(key: nat, lo: nat)
      requires Base() && lo < |tower| && WF(tower[lo..], node, keynum)
      ensures |tower[|tower| - 1]| == 1 && tower[|tower| - 1][0].id == node
      ensures Covers(Routes(tower[|tower|..], node), 0, key) && Routes(tower[|tower|..], node)[0].sep == 0
    {
      var l := |tower| - 1;
      WFUp(tower, node, keynum, lo, l);
      LevelAt(tower, node, keynum, l);
      assert tower[l + 1..] == [];
      assert LinkedAt(tower[l], Routes(tower[l + 1..], node), 0);
    }

    lemma {:induction false} PushBase(t: BTower, g: View<BtreeNode>)
      requires Distinct(t) && HoldsAll(t, keynum) && g.id !in NodesFrom(t, 0) && g.id.Holds(g.es, keynum)
      requires keynum >= 4 && keynum % 2 == 0 && tower == t + [[g]] && height == |tower| && node != null
      ensures Base()
      ensures forall k: nat :: NodesFrom(tower, k) <= NodesFrom(t, k) + {g.id}
    {
      DistinctPush(t, g);
      forall m, i | 0 <= m < |tower| && 0 <= i < |tower[m]| ensures tower[m][i].id.Holds(tower[m][i].es, keynum) {
        if m < |t| {
          assert t[m][i].id.Holds(t[m][i].es, keynum);
        }
      }
    }

    // ----- allocation -----

    method Alloc() returns (n: BtreeNode?)
      modifies `budget
      ensures n == null <==> old(budget) == 0
      ensures n == null ==> budget == 0
      ensures n != null ==> fresh(n) && n.Holds([], keynum) && budget + 1 == old(budget)
      ensures n != null ==> n !in NodesFrom(tower, 0)
      ensures old(Base()) ==> Base()
    {
      assert forall x :: x in NodesFrom(tower, 0) ==> allocated(x);
      if budget == 0 {
        return null;
      }
      budget := budget - 1;
      n := new BtreeNode(keynum);
    }

    method Free(n: BtreeNode)
      modifies `budget
      ensures budget == old(budget) + 1
      ensures old(Base()) ==> Base()
    {
      budget := budget + 1;
    }

    // ----- insertion -----

    /** A new root over the old one. */
    method Extend() returns (ok: bool)
      requires Base() && (tower != [] ==> RootReady(tower, node) && NodeOK(tower[|tower| - 1][0], keynum))
      modifies `node, `height, `tower, `budget
      ensures !ok ==> Base() && budget == 0 && tower == old(tower) && node == old(node) && height == old(height) && old(budget) == 0
      ensures ok ==> Base() && budget + 1 == old(budget) && fresh(node)
      ensures ok ==> tower == old(tower) + [[View(node,
        if old(tower) == [] then [] else [Entry(LastKey(old(tower)[|old(tower)| - 1][0]), Child(old(node)))])]]
      ensures ok ==> forall k: nat :: NodesFrom(tower, k) <= NodesFrom(old(tower), k) + {node}
    {
      hide Distinct; hide NodesFrom;
      ghost var t := tower;
      ghost var es: seq<Entry<BtreeNode>> := [];
      var n := Alloc();
      if n == null {
        return false;
      }
      if node != null {
        var g: BtreeNode := node;
        ghost var top: View<BtreeNode> := t[|t| - 1][0];
        assert top.id == g && g.Holds(top.es, keynum);
        var index := g.FillIndex(0, top.es, keynum);
        n.SetKey(0, g.keys[index - 1]);
        n.SetValue(0, Child(g));
        es := [Entry(LastKey(top), Child(g))];
      }
      node := n;
      height := height + 1;
      tower := t + [[View(n, es)]];
      PushBase(t, View(n, es));
      ok := true;
    }

    ghost function FlatHere(lo: nat): seq<Entry<BtreeNode>>
      requires lo <= |tower| && (tower != [] ==> node != null)
      reads `node, `tower
    {
      if tower == [] then [] else FlatIn(tower, node, lo)
    }

    ghost function RoutesHere(lo: nat): seq<Route<BtreeNode>>
      requires lo <= |tower| && (tower != [] ==> node != null)
      reads `node, `tower
    {
      if tower == [] then [] else RoutesIn(tower, node, lo)
    }

    lemma {:induction false} SplitBase(t: BTower, lo: nat, j: nat, h: nat, new_: BtreeNode)
      requires Distinct(t) && lo < |t| && j < |t[lo]| && h <= |t[lo][j].es| && new_ !in NodesFrom(t, 0)
      requires tower == t[lo := SplitAt(t[lo], j, h, new_)]
      requires keynum >= 4 && keynum % 2 == 0 && height == |t| && node != null
      requires HoldsBut(t, t[lo][j].id, keynum)
      requires t[lo][j].id.Holds(t[lo][j].es[h..], keynum) && new_.Holds(t[lo][j].es[..h], keynum)
      ensures Base()
      ensures forall k: nat :: k <= lo ==> NodesFrom(tower, k) <= NodesFrom(t, k) + {new_}
      ensures Count(tower) == Count(t) + 1
    {
      NodesBelow(t, t, 0, lo);
      NodesOfLevel(t, lo);
      SplitIds(t[lo], j, h, new_);
      DistinctReplace(t, lo, tower[lo], {new_});
      CountReplace(t, lo, tower[lo]);
      forall m, i | 0 <= m < |tower| && 0 <= i < |tower[m]| ensures tower[m][i].id.Holds(tower[m][i].es, keynum) {
        if m != lo {
          assert t[m][i] == tower[m][i];
          DistinctIds(t, m, i, lo, j);
        } else if i != j && i != j + 1 {
          var o := if i < j then i else i - 1;
          assert t[lo][o] == tower[lo][i];
          DistinctIds(t, lo, o, lo, j);
        }
      }
    }

    /** The new node's separator is in place above; move the upper half of node j over. */
    method SplitNode(lo: nat, n: BtreeNode, fill: nat, new_: BtreeNode, ghost j: nat)
      requires Base() && lo < |tower| && j < |tower[lo]| && n == tower[lo][j].id && fill == |tower[lo][j].es| == keynum
      requires new_ !in NodesFrom(tower, 0) && new_.Holds([], keynum)
      modifies `tower, n, new_
      ensures Base() && tower == old(tower)[lo := SplitAt(old(tower)[lo], j, Half(), new_)]
      ensures forall k: nat :: k <= lo ==> NodesFrom(tower, k) <= NodesFrom(old(tower), k) + {new_}
      ensures Count(tower) == Count(old(tower)) + 1
    {
      hide Distinct; hide Count; hide SplitAt;
      ghost var t, es := tower, tower[lo][j].es;
      NodeAt(t, 0, lo, j);
      assert HoldsBut(t, n, keynum);
      n.SplitInto(new_, fill, es, keynum);
      assert SplitNew(es) == es[..Half()] && SplitOld(es) == es[Half()..];
      tower := t[lo := SplitAt(t[lo], j, Half(), new_)];
      SplitBase(t, lo, j, Half(), new_);
    }

    /** The last part of a split round: t and root are the tower before the call for the level above. */
    method SplitFinish(lo: nat, n: BtreeNode, fill: nat, new_: BtreeNode, ghost key: nat,
                       ghost t: BTower, ghost root: BtreeNode, ghost j: nat, ghost p: nat, ghost bg: seq<bool>)
      returns (ghost j2: nat)
      requires Base() && lo < |tower| && lo < |t| && tower[lo] == t[lo]
      requires WF(t[lo..], root, keynum) && FillOn(t, lo, bg, Half(), false)
      requires j < |t[lo]| && n == t[lo][j].id && fill == |t[lo][j].es| == keynum
      requires Covers(Routes(t[lo + 1..], root), j, key)
      requires new_ !in NodesFrom(tower, 0) && new_.Holds([], keynum)
      requires WF(tower[lo + 1..], node, keynum)
      requires var hk := t[lo][j].es[Half() - 1].key;
        (Covers(RoutesIn(t, root, lo + 1), p, hk)
         && Routes(tower[lo + 1..], node) == InsertAt(RoutesIn(t, root, lo + 1), p, Route(hk, hk, Child(new_))))
      requires p <= |t[lo]| && FillOK(tower, lo + 1, InsertAt(Sizes(lo, t[lo]), p, true), Half())
      modifies `tower, n, new_
      ensures Base() && lo < |tower| == |old(tower)| && tower[..lo] == old(tower)[..lo]
      ensures NodesFrom(tower, lo) <= NodesFrom(old(tower), lo) + {new_}
      ensures WF(tower[lo..], node, keynum) && FillOn(tower, lo, bg, Half(), false)
      ensures Routes(tower[lo..], node) == Routes(t[lo..], root) && Flat(tower[lo]) == Flat(t[lo])
      ensures Count(tower) == Count(old(tower)) + 1
      ensures j2 < |tower[lo]| && |tower[lo][j2].es| < keynum && Covers(Routes(tower[lo + 1..], node), j2, key)
    {
      hide WF; hide Routes; hide LevelRoutes; hide Flat; hide Distinct; hide SplitAt; hide BigOK; hide PartOK; hide Count;
      hide Off; hide RoutesIn; hide FlatIn; hide UpperNonEmpty; hide RootReady; hide NodesFrom; hide HoldsAll; hide FillOn;
      ghost var t1, h := tower, Half();
      SplitNode(lo, n, fill, new_, j);
      SplitDone(t, root, t1, node, keynum, lo, j, h, p, new_, bg);
      FillNonEmpty(t, root, keynum, lo, bg, h);
      j2 := SplitWhere(t, root, t1, node, keynum, lo, j, h, new_, key);
    }

    /** The separator of the new node, the last key that moves, goes into the level above. */
    method Announce(lo: nat, halfkey: nat, new_: BtreeNode, ghost j: nat, ghost bg: seq<bool>)
      returns (err: Error, ghost p: nat)
      requires Base() && lo < |tower| && WF(tower[lo..], node, keynum)
      requires FillOn(tower, lo, bg, Half(), false)
      requires j < |tower[lo]| && |tower[lo][j].es| == keynum && halfkey == tower[lo][j].es[Half() - 1].key
      requires new_ !in NodesFrom(tower, 0) && new_.Holds([], keynum)
      modifies `node, `height, `tower, `budget, NodesFrom(tower, lo + 1)
      ensures Base() && lo < |tower| && tower[lo] == old(tower)[lo] && tower[..lo] == old(tower)[..lo]
      ensures forall x :: x in NodesFrom(tower, lo) && x !in NodesFrom(old(tower), lo) ==> fresh(x)
      ensures new_ !in NodesFrom(tower, 0) && new_.Holds([], keynum)
      ensures budget + Count(tower) == old(budget) + Count(old(tower))
      ensures err == Ok || (err == NoMemory && old(budget) < |old(tower)| - lo)
      ensures err == Ok ==>
        && Covers(RoutesIn(old(tower), old(node), lo + 1), p, halfkey)
        && Routes(tower[lo + 1..], node)
           == InsertAt(RoutesIn(old(tower), old(node), lo + 1), p, Route(halfkey, halfkey, Child(new_)))
        && p <= |tower[lo]| && FillOK(tower, lo + 1, InsertAt(Sizes(lo, tower[lo]), p, true), Half())
        && WF(tower[lo + 1..], node, keynum)
      ensures err != Ok ==>
        && node == old(node) && |tower| == |old(tower)|
        && WF(tower[lo..], node, keynum) && FillOn(tower, lo, bg, Half(), false)
        && Routes(tower[lo..], node) == Routes(old(tower)[lo..], old(node))
      decreases |tower| - lo, 2
    {
      hide WF; hide Routes; hide LevelRoutes; hide Flat; hide Distinct; hide BigOK; hide PartOK; hide Count; hide Off;
      hide RoutesIn; hide FlatIn; hide UpperNonEmpty; hide RootReady; hide Ordered; hide LevelOK; hide NodesFrom; hide FillOn;
      hide HoldsAll; hide Covers; hide Fits; hide FillOK; hide Stores; hide InsertAt; hide Sizes; hide NodeOK; hide LevelRoutes;
      ghost var t, root := tower, node;
      SplitStart(t, root, keynum, lo, j, Half(), bg);
      NodesBelow(t, t, 0, lo + 1);
      var held;
      err, p, held := InsertLevel(lo + 1, halfkey, Child(new_), Sizes(lo, t[lo]));
      ghost var t1 := tower;
      NodesBelow(t, t1, 0, lo + 1);
      NodesBelow(t, t1, lo, lo + 1);
      NodesBelow(t, t, lo, lo + 1);
      assert t1[lo] == t[lo] && t1[..lo] == t[..lo] by {
        assert t1[..lo + 1][lo] == t[..lo + 1][lo] && t1[..lo + 1][..lo] == t[..lo + 1][..lo];
      }
      if err != Ok {
        SplitFailed(t, root, t1, keynum, lo, bg, Half());
      }
    }

    /** The room-making round of insert_level for a full node: allocate, announce the new node's separator
        one level up, move the upper half over.  j2 is the node the key belongs to afterwards. */
    method SplitFull(lo: nat, n: BtreeNode, fill: nat, ghost key: nat, ghost j: nat, ghost bg: seq<bool>)
      returns (err: Error, ghost j2: nat)
      requires Base() && lo < |tower| && WF(tower[lo..], node, keynum)
      requires FillOn(tower, lo, bg, Half(), false)
      requires j < |tower[lo]| && n == tower[lo][j].id && fill == |tower[lo][j].es| == keynum
      requires Covers(Routes(tower[lo + 1..], node), j, key)
      modifies `node, `height, `tower, `budget, NodesFrom(tower, lo)
      ensures Base() && lo < |tower| && tower[..lo] == old(tower)[..lo]
      ensures forall x :: x in NodesFrom(tower, lo) && x !in NodesFrom(old(tower), lo) ==> fresh(x)
      ensures WF(tower[lo..], node, keynum) && FillOn(tower, lo, bg, Half(), false)
      ensures Routes(tower[lo..], node) == Routes(old(tower)[lo..], old(node))
      ensures Flat(tower[lo]) == Flat(old(tower)[lo])
      ensures budget + Count(tower) == old(budget) + Count(old(tower))
      ensures err == Ok || (err == NoMemory && old(budget) < |old(tower)| - lo + 1)
      ensures err == NoMemory ==> node == old(node) && |tower| == |old(tower)| && tower[lo] == old(tower)[lo]
      ensures err == Ok ==> j2 < |tower[lo]| && |tower[lo][j2].es| < keynum && Covers(Routes(tower[lo + 1..], node), j2, key)
      decreases |tower| - lo, 3
    {
      hide WF; hide Routes; hide LevelRoutes; hide Flat; hide Distinct; hide SplitAt; hide BigOK; hide PartOK; hide Count;
      hide Off; hide RoutesIn; hide FlatIn; hide UpperNonEmpty; hide RootReady; hide Ordered; hide LevelOK; hide NodesFrom;
      hide HoldsAll; hide Covers; hide FillOn; hide FillOK; hide InsertAt; hide Sizes;
      ghost var t, root := tower, node;
      NodeAt(t, lo, lo, j);
      NodeHolds(t, lo, j);
      NodesBelow(t, t, lo, lo + 1);
      var fresh_ := Alloc();
      if fresh_ == null {
        return NoMemory, 0;
      }
      var halfkey := n.keys[fill / 2 - 1];
      ghost var p;
      err, p := Announce(lo, halfkey, fresh_, j, bg);
      if err != Ok {
        Free(fresh_);
        return err, 0;
      }
      j2 := SplitFinish(lo, n, fill, fresh_, key, t, root, j, p, bg);
    }

    /** What an insertion works on once its level exists. */
    ghost predicate Ready(lo: nat, bg: seq<bool>, created: bool)
      reads `node, `height, `tower, NodesFrom(tower, 0)
    {
      && Base() && lo < |tower|
      && WF(tower[lo..], node, keynum) && FillOn(tower, lo, bg, Half(), created)
      && UpperNonEmpty(tower, lo) && (lo > 0 ==> NonEmpty(tower[lo]))
    }

    lemma {:induction false} Present(lo: nat, bg: seq<bool>)
      requires Base() && lo < |tower| && WF(tower[lo..], node, keynum) && FillOK(tower, lo, bg, Half())
      ensures Ready(lo, bg, false)
      ensures FlatHere(lo) == Flat(tower[lo]) && RoutesHere(lo) == Routes(tower[lo..], node)
    {
      FillOnOK(tower, lo, bg, Half());
      FillNonEmpty(tower, node, keynum, lo, bg, Half());
    }

    /** The level is missing: put a new root over the old one, or make the first leaf. */
    method AddLevel(lo: nat, ghost bg: seq<bool>) returns (ok: bool, ghost created: bool)
      requires Base() && lo == |tower|
      requires tower != [] ==> FillOK(tower, lo, bg, Half()) && RootReady(tower, node) && NodeOK(tower[lo - 1][0], keynum)
      modifies `node, `height, `tower, `budget
      ensures !ok ==> Base() && budget == 0 && tower == old(tower) && node == old(node) && height == old(height) && old(budget) == 0
      ensures ok ==> Ready(lo, bg, created) && |tower| == lo + 1 && tower[..lo] == old(tower)[..lo]
      ensures ok ==> forall x :: x in NodesFrom(tower, lo) && x !in NodesFrom(old(tower), lo) ==> fresh(x)
      ensures ok ==> budget + Count(tower) == old(budget) + Count(old(tower))
      ensures ok ==> Flat(tower[lo]) == old(FlatHere(lo)) && (lo > 0 ==> Routes(tower[lo..], node) == old(RoutesHere(lo)))
      ensures ok ==> |tower[lo]| == 1 && |tower[lo][0].es| <= 1
    {
      hide Distinct; hide NodesFrom; hide HoldsAll; hide WF; hide Routes; hide Flat; hide FillOn;
      ghost var t, root: BtreeNode? := tower, node;
      ok := Extend();
      created := lo > 0;
      if ok {
        if t == [] {
          AddedLeaf<BtreeNode>(node, keynum, bg, Half());
        } else {
          AddedRoot<BtreeNode>(t, root, node, keynum, bg, Half());
        }
      }
    }

    /** The two linear searches in a node: where the key goes, and how many slots are filled. */
    method Probe(ghost lo: nat, n: BtreeNode, key: nat, ghost j: nat) returns (index: nat, fill: nat)
      requires Base() && lo < |tower| && WF(tower[lo..], node, keynum)
      requires j < |tower[lo]| && n == tower[lo][j].id
      ensures Base() && n.Holds(tower[lo][j].es, keynum)
      ensures IsPos(tower[lo][j].es, key, index) && fill == |tower[lo][j].es|
    {
      NodeHolds(tower, lo, j);
      NodeFacts(tower, node, keynum, lo, j);
      index := n.FindIndex(key, tower[lo][j].es, keynum);
      fill := n.FillIndex(index, tower[lo][j].es, keynum);
    }

    /** Shift the slots of node j of level lo and store the pair. */
    method InsertHere(lo: nat, key: nat, value: Slot<BtreeNode>, n: BtreeNode, index: nat, fill: nat,
                      ghost j: nat, ghost bg: seq<bool>, ghost created: bool) returns (ghost p: nat)
      requires Ready(lo, bg, created) && key > 0 && value != Null
      requires j < |tower[lo]| && n == tower[lo][j].id
      requires Covers(Routes(tower[lo + 1..], node), j, key) && Routes(tower[lo + 1..], node)[j].sep <= key
      requires IsPos(tower[lo][j].es, key, index) && fill == |tower[lo][j].es| < keynum
      requires index < fill ==> tower[lo][j].es[index].key != key
      requires lo > 0 ==> Fits(Routes(tower[lo..], node), key)
      modifies `tower, n
      ensures Base() && |tower| == |old(tower)| && tower[..lo] == old(tower)[..lo]
      ensures forall k: nat :: NodesFrom(tower, k) == NodesFrom(old(tower), k)
      ensures Count(tower) == Count(old(tower))
      ensures WF(tower[lo..], node, keynum) && p <= |Flat(old(tower)[lo])|
      ensures Flat(tower[lo]) == InsertAt(Flat(old(tower)[lo]), p, Entry(key, value))
      ensures lo == 0 ==> FillOK(tower, lo, bg, Half())
      ensures lo > 0 ==>
        && p <= |bg| && FillOK(tower, lo, InsertAt(bg, p, true), Half())
        && Covers(Routes(old(tower)[lo..], node), p, key)
        && Routes(tower[lo..], node) == InsertAt(Routes(old(tower)[lo..], node), p, Route(key, key, value))
    {
      hide WF; hide Routes; hide Flat; hide FillOn; hide FillOK; hide Distinct; hide NodesFrom; hide Off;
      hide Fits; hide UpperNonEmpty; hide Count; hide HoldsAll; hide LevelRoutes; hide NodeOK; hide Covers;
      hide Sizes;
      ghost var t, es, e := tower, tower[lo][j].es, Entry(key, value);
      GrowLevel(t, node, keynum, lo, j, index, e);
      GrowFill(t, lo, bg, Half(), created, j, index, e);
      if lo > 0 {
        FitsInside(t, node, keynum, lo, j, index, key);
      }
      assert HoldsBut(t, n, keynum) by {
        HoldsAllBut(t, n);
      }
      NodeHolds(t, lo, j);
      n.ShiftIn(index, fill, key, value, es, keynum);
      tower := t[lo := Put(t[lo], j, InsertAt(es, index, e))];
      PutBase(t, lo, j, InsertAt(es, index, e));
      CountReplace(t, lo, tower[lo]);
      p := Off(t[lo], j) + index;
      FillOnOK(tower, lo, if lo > 0 then InsertAt(bg, p, true) else bg, Half());
      FillOnOK(tower, lo, bg, Half());
    }

    lemma {:induction false} HoldsAllBut(t: BTower, n: BtreeNode)
      requires HoldsAll(t, keynum)
      ensures HoldsBut(t, n, keynum)
    {
    }

    lemma {:induction false} NodeHolds(t: BTower, l: nat, i: nat)
      requires HoldsAll(t, keynum) && l < |t| && i < |t[l]|
      ensures t[l][i].id.Holds(t[l][i].es, keynum) && t[l][i].id in NodesFrom(t, 0)
    {
    }

    /** The search of insert_level in its level: the node the key belongs to, and where in it. */
    method Arrive(lo: nat, key: nat, ghost bg: seq<bool>, ghost created: bool)
      returns (n: BtreeNode, index: nat, fill: nat, ghost j: nat)
      requires Ready(lo, bg, created) && key > 0
      modifies `tower, NodesFrom(tower, lo + 1)
      ensures Ready(lo, bg, created) && |tower| == |old(tower)|
      ensures tower[lo] == old(tower)[lo] && tower[..lo] == old(tower)[..lo]
      ensures forall k: nat :: NodesFrom(tower, k) == NodesFrom(old(tower), k)
      ensures Count(tower) == Count(old(tower)) && Routes(tower[lo..], node) == Routes(old(tower)[lo..], node)
      ensures Lowered(Routes(old(tower)[lo + 1..], node), Routes(tower[lo + 1..], node))
      ensures j < |tower[lo]| && n == tower[lo][j].id && n in NodesFrom(tower, lo) && n.Holds(tower[lo][j].es, keynum)
      ensures IsPos(tower[lo][j].es, key, index) && fill == |tower[lo][j].es|
      ensures Covers(Routes(tower[lo + 1..], node), j, key) && Routes(tower[lo + 1..], node)[j].sep <= key
    {
      hide WF; hide Routes; hide Flat; hide FillOn; hide Walked; hide Distinct; hide Stores;
      hide UpperNonEmpty; hide Count; hide HoldsAll; hide Lowered; hide IsPos; hide LevelRoutes; hide NodeOK;
      ghost var t := tower;
      n, j := FindParent(key, lo);
      WalkedFacts(t, tower, node, keynum, lo, key);
      NodeAt(tower, lo, lo, j);
      WalkedFill(t, tower, node, keynum, lo, key, bg, Half(), created);
      index, fill := Probe(lo, n, key, j);
    }

    /** The level the insertion is about, made if there is none yet. */
    method Reach(lo: nat, ghost bg: seq<bool>) returns (ok: bool, ghost created: bool)
      requires Base() && lo <= |tower|
      requires tower != [] ==> WF(tower[lo..], node, keynum) && FillOK(tower, lo, bg, Half())
      requires lo > 0 && lo == |tower| ==> RootReady(tower, node) && NodeOK(tower[lo - 1][0], keynum)
      modifies `node, `height, `tower, `budget
      ensures !ok ==> Base() && tower == old(tower) && node == old(node) && lo == |tower| && budget == old(budget) == 0
      ensures ok ==> Ready(lo, bg, created) && lo < |tower| && tower[..lo] == old(tower)[..lo]
      ensures ok ==> forall x :: x in NodesFrom(tower, lo) && x !in NodesFrom(old(tower), lo) ==> fresh(x)
      ensures ok ==> budget + Count(tower) == old(budget) + Count(old(tower))
      ensures ok ==> Flat(tower[lo]) == old(FlatHere(lo)) && (lo > 0 ==> Routes(tower[lo..], node) == old(RoutesHere(lo)))
      ensures ok && lo < |old(tower)| ==> tower == old(tower) && node == old(node) && !created
      ensures ok && lo == |old(tower)| ==> |tower[lo]| == 1 && |tower[lo][0].es| <= 1
    {
      hide WF; hide Routes; hide Flat; hide FillOn; hide FillOK; hide Distinct; hide NodesFrom; hide HoldsAll; hide Count;
      hide RootReady; hide UpperNonEmpty; hide NodeOK;
      if height < lo + 1 {
        ok, created := AddLevel(lo, bg);
      } else {
        Present(lo, bg);
        ok, created := true, false;
      }
    }

    /** The loop of insert_level: find the block for the key, and split it once if it is full.  extended: the level
        was made just now. */
    method Place(lo: nat, key: nat, ghost bg: seq<bool>, ghost created: bool, ghost extended: bool)
      returns (err: Error, n: BtreeNode, index: nat, fill: nat, ghost j: nat, ghost p: nat, held: Slot<BtreeNode>)
      requires Ready(lo, bg, created) && key > 0 && (created ==> extended)
      requires lo > 0 ==> Fits(Routes(tower[lo..], node), key)
      requires extended ==> |tower[lo]| == 1 && |tower[lo][0].es| <= 1
      modifies `node, `height, `tower, `budget, NodesFrom(tower, lo)
      ensures Base() && lo < |tower| && tower[..lo] == old(tower)[..lo]
      ensures forall x :: x in NodesFrom(tower, lo) && x !in NodesFrom(old(tower), lo) ==> fresh(x)
      ensures budget + Count(tower) == old(budget) + Count(old(tower))
      ensures WF(tower[lo..], node, keynum) && Flat(tower[lo]) == Flat(old(tower)[lo])
      ensures Routes(tower[lo..], node) == Routes(old(tower)[lo..], old(node))
      ensures err in {Ok, Already, NoMemory}
      ensures err == NoMemory ==>
        && !extended && old(budget) < |old(tower)| - lo + 1 && FullNode(old(tower)[lo], keynum)
        && forall i :: 0 <= i < |Flat(tower[lo])| ==> Flat(tower[lo])[i].key != key
      ensures err == Already ==> lo == 0 && p < |Flat(tower[0])| && Flat(tower[0])[p] == Entry(key, held)
      ensures err != Ok ==> node == old(node) && |tower| == |old(tower)| && (created || FillOK(tower, lo, bg, Half()))
      ensures err == Ok ==>
        && Ready(lo, bg, created) && j < |tower[lo]| && n == tower[lo][j].id && n in NodesFrom(tower, lo)
        && Covers(Routes(tower[lo + 1..], node), j, key) && Routes(tower[lo + 1..], node)[j].sep <= key
        && IsPos(tower[lo][j].es, key, index) && fill == |tower[lo][j].es| < keynum
        && (index < fill ==> tower[lo][j].es[index].key != key)
      decreases if extended then 0 else |tower| - lo, 4
    {
      hide WF; hide Routes; hide Flat; hide Covers; hide FillOn; hide FillOK; hide Walked; hide Distinct; hide NodesFrom;
      hide Fits; hide RootReady; hide UpperNonEmpty; hide Count; hide RoutesIn; hide FlatIn; hide HoldsAll; hide Lowered;
      hide NodeOK; hide LevelRoutes; hide Sizes; hide Desc; hide Tight; hide FullNode; hide InsertAt;
      ghost var tries: nat := 1;
      j, p, held, err := 0, 0, Null, Ok;
      while true
        invariant err == Ok && lo < |tower| && tower[..lo] == old(tower)[..lo] && Ready(lo, bg, created)
        invariant forall x :: x in NodesFrom(tower, lo) && x !in NodesFrom(old(tower), lo) ==> fresh(x)
        invariant budget + Count(tower) == old(budget) + Count(old(tower))
        invariant Flat(tower[lo]) == Flat(old(tower)[lo])
        invariant Routes(tower[lo..], node) == Routes(old(tower)[lo..], old(node))
        invariant tries == 1 ==> tower == old(tower) && node == old(node)
        invariant tries == 0 ==> !extended && j < |tower[lo]| && |tower[lo][j].es| < keynum
        invariant tries == 0 ==> Covers(Routes(tower[lo + 1..], node), j, key)
        invariant tries == 0 ==> forall i :: 0 <= i < |Flat(tower[lo])| ==> Flat(tower[lo])[i].key != key
        decreases tries
      {
        ghost var t, j0 := tower, j;
        NodesBelow(t, t, lo, lo + 1);
        n, index, fill, j := Arrive(lo, key, bg, created);
        if tries == 0 {
          SameCover(t, tower, node, keynum, lo, j0, j, key);
        }
        if index < fill && n.keys[index] == key {
          FoundIn(tower, node, keynum, lo, j, index, key);
          FillOnOK(tower, lo, bg, Half());
          err, p, held := Already, Off(tower[lo], j) + index, n.vals[index];
          return;
        }
        if fill != keynum {
          return;
        }
        assert !extended;
        IsFull(old(tower)[lo], j, keynum);
        AbsentIn(tower, node, keynum, lo, j, index, key);
        err, j := SplitFull(lo, n, fill, key, j, bg);
        FillOnOK(tower, lo, bg, Half());
        if err != Ok {
          return;
        }
        FillNonEmpty(tower, node, keynum, lo, bg, Half());
        tries := 0;
      }
    }

    /** insert_level: put the pair into level lo, making room upwards. */
    method InsertLevel(lo: nat, key: nat, value: Slot<BtreeNode>, ghost bg: seq<bool>)
      returns (err: Error, ghost p: nat, held: Slot<BtreeNode>)
      requires Base() && lo <= |tower| && key > 0 && value != Null
      requires tower != [] ==> WF(tower[lo..], node, keynum) && FillOK(tower, lo, bg, Half())
      requires lo > 0 ==> Fits(RoutesHere(lo), key)
      requires lo > 0 && lo == |tower| ==> RootReady(tower, node) && NodeOK(tower[lo - 1][0], keynum)
      modifies `node, `height, `tower, `budget, NodesFrom(tower, lo)
      ensures Base() && lo <= |tower| && tower[..lo] == old(tower)[..lo]
      ensures forall x :: x in NodesFrom(tower, lo) && x !in NodesFrom(old(tower), lo) ==> fresh(x)
      ensures tower != [] ==> WF(tower[lo..], node, keynum)
      ensures budget + Count(tower) == old(budget) + Count(old(tower))
      ensures err in {Ok, Already, NoMemory}
      ensures err == NoMemory ==> old(budget) < |old(tower)| - lo + 1
      ensures err == NoMemory && lo < |old(tower)| ==> FullNode(old(tower)[lo], keynum)
      ensures err == NoMemory && lo == 0 ==> forall i :: 0 <= i < |old(FlatHere(lo))| ==> old(FlatHere(lo))[i].key != key
      ensures err == Already ==> lo == 0 < |tower| && p < |Flat(tower[0])| && Flat(tower[0])[p] == Entry(key, held)
      ensures err != Ok ==> node == old(node) && |tower| == |old(tower)|
      ensures err != Ok && tower != [] ==> FillOK(tower, lo, bg, Half())
      ensures err != Ok && lo < |tower| ==>
        Flat(tower[lo]) == Flat(old(tower)[lo]) && Routes(tower[lo..], node) == Routes(old(tower)[lo..], old(node))
      ensures err == Ok ==>
        && lo < |tower| && p <= |old(FlatHere(lo))|
        && Flat(tower[lo]) == InsertAt(old(FlatHere(lo)), p, Entry(key, value))
      ensures err == Ok && lo == 0 ==> FillOK(tower, lo, bg, Half())
      ensures err == Ok && lo > 0 ==>
        && p <= |bg| && FillOK(tower, lo, InsertAt(bg, p, true), Half())
        && Covers(old(RoutesHere(lo)), p, key)
        && Routes(tower[lo..], node) == InsertAt(old(RoutesHere(lo)), p, Route(key, key, value))
      decreases |tower| + 1 - lo, 1
    {
      hide WF; hide Routes; hide Flat; hide Covers; hide FillOn; hide FillOK; hide Walked; hide Distinct; hide NodesFrom;
      hide Fits; hide RootReady; hide UpperNonEmpty; hide Count; hide RoutesIn; hide FlatIn; hide HoldsAll; hide Lowered;
      hide NodeOK; hide LevelRoutes; hide Sizes; hide Desc; hide Tight; hide FullNode; hide InsertAt; hide IsPos;
      var ok;
      ghost var created;
      ghost var extended := lo == |tower|;
      held, p := Null, 0;
      ok, created := Reach(lo, bg);
      if !ok {
        return NoMemory, 0, Null;
      }
      var n, index, fill;
      ghost var j;
      err, n, index, fill, j, p, held := Place(lo, key, bg, created, extended);
      if err == Ok {
        held := Null;
        p := InsertHere(lo, key, value, n, index, fill, j, bg, created);
      }
    }


    // ----- removal -----

    /** Close the gap of slot index in node j of level lo. */
    method TakeOut(lo: nat, n: BtreeNode, index: nat, last: nat, ghost j: nat)
      requires Base() && lo < |tower| && j < |tower[lo]| && n == tower[lo][j].id
      requires index < |tower[lo][j].es| == last + 1
      modifies `tower, n
      ensures Base() && tower == old(tower)[lo := Put(old(tower)[lo], j, RemoveAt(old(tower)[lo][j].es, index))]
      ensures n.Holds(RemoveAt(old(tower)[lo][j].es, index), keynum)
      ensures forall k: nat :: NodesFrom(tower, k) == NodesFrom(old(tower), k)
      ensures Count(tower) == Count(old(tower))
    {
      hide Distinct; hide NodesFrom; hide Count; hide HoldsAll;
      ghost var t, es := tower, tower[lo][j].es;
      HoldsAllBut(t, n);
      NodeHolds(t, lo, j);
      n.ShiftOut(index, last, es, keynum);
      tower := t[lo := Put(t[lo], j, RemoveAt(es, index))];
      PutBase(t, lo, j, RemoveAt(es, index));
      CountReplace(t, lo, tower[lo]);
    }

    lemma {:induction false} DropBase(t: BTower, lo: nat, j: nat)
      requires Distinct(t) && HoldsAll(t, keynum) && lo < |t| && j < |t[lo]| && tower == t[lo := RemoveAt(t[lo], j)]
      requires keynum >= 4 && keynum % 2 == 0 && height == |t| && node != null
      ensures Base() && Count(tower) + 1 == Count(t)
      ensures forall k: nat :: NodesFrom(tower, k) <= NodesFrom(t, k)
    {
      RemoveIds(t[lo], j);
      DistinctReplace(t, lo, tower[lo], {});
      CountReplace(t, lo, tower[lo]);
      forall m, i | 0 <= m < |tower| && 0 <= i < |tower[m]| ensures tower[m][i].id.Holds(tower[m][i].es, keynum) {
        var o := if m == lo && i >= j then i + 1 else i;
        assert tower[m][i] == t[m][o];
      }
      forall k: nat ensures NodesFrom(tower, k) <= NodesFrom(t, k) {
      }
    }

    lemma {:induction false} TailorBase(t: BTower, lo: nat)
      requires Distinct(t) && HoldsAll(t, keynum) && 0 < lo && |t| == lo + 1 && |t[lo]| == 1 && tower == t[..lo]
      requires keynum >= 4 && keynum % 2 == 0 && height == lo && node != null
      ensures Base() && Count(tower) + 1 == Count(t)
      ensures forall k: nat :: NodesFrom(tower, k) <= NodesFrom(t, k)
    {
      assert t == t[..lo] + [t[lo]];
      CountConcat(t[..lo], [t[lo]]);
      assert [t[lo]][1..] == [] && Count([t[lo]][1..]) == 0;
      forall l, m | 0 <= l < m < |tower| ensures Ids(tower[l]) !! Ids(tower[m]) {
        assert Ids(t[l]) !! Ids(t[m]);
      }
      forall m, i | 0 <= m < |tower| && 0 <= i < |tower[m]| ensures tower[m][i].id.Holds(tower[m][i].es, keynum) {
        assert t[m][i].id.Holds(t[m][i].es, keynum);
      }
      forall k: nat, x | x in NodesFrom(tower, k) ensures x in NodesFrom(t, k) {
        var l, i :| k <= l < |tower| && 0 <= i < |tower[l]| && tower[l][i].id == x;
        assert t[l][i].id == x;
      }
    }

    /** btree_tailor: the only child of the root becomes the root. */
    method Tailor(ghost lo: nat)
      requires Base() && |tower| == lo + 1 && |tower[lo]| == 1 && tower[lo][0].id == node
      requires lo > 0 ==> |tower[lo][0].es| == 1 && tower[lo][0].es[0].val.Child?
      modifies `node, `height, `tower, `budget
      ensures Base() && budget + Count(tower) == old(budget) + Count(old(tower))
      ensures forall k: nat :: NodesFrom(tower, k) <= NodesFrom(old(tower), k)
      ensures lo == 0 ==> tower == old(tower) && node == old(node)
      ensures lo > 0 ==> tower == old(tower)[..lo] && node == old(tower)[lo][0].es[0].val.node
    {
      hide Distinct; hide Count;
      if height < 2 {
        return;
      }
      ghost var t := tower;
      NodeHolds(t, lo, 0);
      var old_: BtreeNode := node;
      height := height - 1;
      node := old_.vals[0].node;
      Free(old_);
      tower := t[..lo];
      TailorBase(t, lo);
    }

    /** Copy the entries of node l + 1 behind those of node l. */
    method MoveOver(lo: nat, lnode: BtreeNode, lfill: nat, rnode: BtreeNode, rfill: nat, ghost l: nat)
      requires Base() && lo < |tower| && l + 1 < |tower[lo]| && lnode == tower[lo][l].id && rnode == tower[lo][l + 1].id
      requires lfill == |tower[lo][l].es| && rfill == |tower[lo][l + 1].es| && lfill + rfill <= keynum
      modifies `tower, lnode
      ensures Base()
      ensures tower == old(tower)[lo := Put(old(tower)[lo], l, old(tower)[lo][l].es + old(tower)[lo][l + 1].es)]
      ensures forall k: nat :: NodesFrom(tower, k) == NodesFrom(old(tower), k)
      ensures Count(tower) == Count(old(tower))
    {
      hide Distinct; hide NodesFrom; hide Count; hide HoldsAll;
      ghost var t, es, fs := tower, tower[lo][l].es, tower[lo][l + 1].es;
      HoldsAllBut(t, lnode);
      NodeHolds(t, lo, l);
      NodeHolds(t, lo, l + 1);
      DistinctIds(t, lo, l, lo, l + 1);
      lnode.Append(lfill, rnode, rfill, es, fs, keynum);
      tower := t[lo := Put(t[lo], l, es + fs)];
      PutBase(t, lo, l, es + fs);
      CountReplace(t, lo, tower[lo]);
    }

    /** Exchange the values of slots index and index + 1 of node j of level lo. */
    method Exchange(lo: nat, n: BtreeNode, index: nat, first: Slot<BtreeNode>, second: Slot<BtreeNode>, ghost j: nat)
      requires Base() && lo < |tower| && j < |tower[lo]| && n == tower[lo][j].id && index + 1 < |tower[lo][j].es|
      requires first == tower[lo][j].es[index + 1].val && second == tower[lo][j].es[index].val
      modifies `tower, n
      ensures Base() && tower == old(tower)[lo := Put(old(tower)[lo], j, SwapSlots(old(tower)[lo][j].es, index))]
      ensures n.Holds(SwapSlots(old(tower)[lo][j].es, index), keynum)
      ensures forall k: nat :: NodesFrom(tower, k) == NodesFrom(old(tower), k)
      ensures Count(tower) == Count(old(tower))
    {
      hide Distinct; hide NodesFrom; hide Count; hide HoldsAll;
      ghost var t, es := tower, tower[lo][j].es;
      HoldsAllBut(t, n);
      NodeHolds(t, lo, j);
      n.SwapValues(index, first, second, es, keynum);
      tower := t[lo := Put(t[lo], j, SwapSlots(es, index))];
      PutBase(t, lo, j, SwapSlots(es, index));
      CountReplace(t, lo, tower[lo]);
    }

    /** The block of node j of level lo is no longer part of the tree. */
    method Discard(lo: nat, n: BtreeNode, ghost j: nat)
      requires Base() && lo < |tower| && j < |tower[lo]| && n == tower[lo][j].id
      modifies `tower, `budget
      ensures Base() && tower == old(tower)[lo := RemoveAt(old(tower)[lo], j)]
      ensures budget + Count(tower) == old(budget) + Count(old(tower))
      ensures forall k: nat :: NodesFrom(tower, k) <= NodesFrom(old(tower), k)
    {
      hide Distinct; hide Count;
      ghost var t := tower;
      Free(n);
      tower := t[lo := RemoveAt(t[lo], j)];
      DropBase(t, lo, j);
    }

    /** rebalance_merge: rnode is emptied into lnode and leaves the tree. */
    method RebalanceMerge(lo: nat, lnode: BtreeNode, lfill: nat, rnode: BtreeNode, rfill: nat, parent: BtreeNode, index: nat,
                          ghost l: nat, ghost jp: nat, ghost x: nat, ghost bgU: seq<bool>, ghost bg: seq<bool>)
      requires Base() && lo + 1 < |tower| && WF(tower[lo + 1..], node, keynum)
      requires LevelOK(tower[lo], Routes(tower[lo + 1..], node), keynum, false)
      requires l + 1 < |tower[lo]| && lnode == tower[lo][l].id && rnode == tower[lo][l + 1].id
      requires lfill == |tower[lo][l].es| && rfill == |tower[lo][l + 1].es| && lfill + rfill <= keynum
      requires (x == l || x == l + 1) && |tower[lo][x].es| < Half()
      requires jp < |tower[lo + 1]| && parent == tower[lo + 1][jp].id && index + 1 < |tower[lo + 1][jp].es|
      requires Off(tower[lo + 1], jp) + index == l
      requires BigOK(tower[lo + 1..], bgU, Half()) && Grown(bgU, BothBig(Sizes(lo, tower[lo]), l))
      requires Thinned(lo, tower[lo], bg, Half(), x)
      modifies `node, `height, `tower, `budget, NodesFrom(tower, lo)
      ensures Base() && lo < |tower| && tower[..lo] == old(tower)[..lo]
      ensures NodesFrom(tower, lo) <= NodesFrom(old(tower), lo)
      ensures budget + Count(tower) == old(budget) + Count(old(tower))
      ensures WF(tower[lo..], node, keynum) && FillOK(tower, lo, bg, Half())
      ensures Lifted(LevelRoutes(old(tower)[lo], Routes(old(tower)[lo + 1..], old(node))), Routes(tower[lo..], node))
      ensures Flat(tower[lo]) == Flat(old(tower)[lo])
      decreases |tower| - lo, 0
    {
      hide WF; hide Routes; hide LevelRoutes; hide Flat; hide Distinct; hide BigOK; hide PartOK; hide Count; hide Off;
      hide Thinned; hide FillOK; hide Shrunk; hide Lifted; hide NodesFrom; hide HoldsAll; hide Located; hide Seg; hide Linked;
      hide AllChild; hide Grown; hide Ordered; hide MayGo;
      ghost var t, root, K, h := tower, node, keynum, Half();
      LevelAt(t, root, K, lo + 1);
      MergeVals(t, root, K, lo, l, jp, index);
      NodesBelow(t, t, lo, lo + 1);
      NodeAt(t, lo, lo, l);
      NodeAt(t, lo, lo + 1, jp);
      MoveOver(lo, lnode, lfill, rnode, rfill, l);
      Exchange(lo + 1, parent, index, Child(rnode), Child(lnode), jp);
      ghost var t2 := tower;
      MergeStart(t, t2, root, K, lo, l, jp, index, bgU, h);
      InnerChild(t, root, K, lo, t[lo]);
      SwapChild(t[lo + 1], jp, index);
      ghost var p;
      var taken;
      taken, p := RemoveLevel(lo + 1, InSlot(parent, index), BothBig(Sizes(lo, t[lo]), l), jp, index);
      ghost var t3 := tower;
      NodesBelow(t2, t3, lo, lo + 1);
      NodesBelow(t2, t2, lo, lo + 1);
      assert t3[lo] == t2[lo] && t3[..lo] == t2[..lo] by {
        assert t3[..lo + 1][lo] == t2[..lo + 1][lo] && t3[..lo + 1][..lo] == t2[..lo + 1][..lo];
      }
      Discard(lo, rnode, l + 1);
      MergeShape(t[lo], l);
      MergeDone(t, root, t3, node, K, lo, l, x, bg, h);
    }

    /** The child in slot i of a parent one level up, and how many entries it has. */
    method Neighbour(lo: nat, parent: BtreeNode, i: nat, ghost jp: nat, ghost l: nat) returns (n: BtreeNode, fill: nat)
      requires Base() && lo + 1 < |tower| && WF(tower[lo + 1..], node, keynum)
      requires LevelOK(tower[lo], Routes(tower[lo + 1..], node), keynum, false)
      requires jp < |tower[lo + 1]| && parent == tower[lo + 1][jp].id && i < |tower[lo + 1][jp].es|
      requires Off(tower[lo + 1], jp) + i == l
      ensures Base() && l < |tower[lo]| && n == tower[lo][l].id && fill == |tower[lo][l].es|
    {
      hide WF; hide Routes; hide Flat; hide Off; hide LevelRoutes; hide Distinct;
      NodeHolds(tower, lo + 1, jp);
      ChildVal(tower, node, keynum, lo, l, jp, i);
      n := parent.vals[i].node;
      NodeHolds(tower, lo, l);
      fill := n.FillIndex(0, tower[lo][l].es, keynum);
    }

    /** remove_rebalance: node j of level lo fell below half; level0 is the level before its entry q went. */
    method RemoveRebalance(lo: nat, key: KeyPtr, child: BtreeNode, fill: nat,
                           ghost j: nat, ghost q: nat, ghost level0: BLevel, ghost bg: seq<bool>)
      requires Base() && lo + 1 < |tower| && WF(tower[lo + 1..], node, keynum) && UpperNonEmpty(tower, lo)
      requires j < |tower[lo]| == |level0| && child == tower[lo][j].id
      requires q < |level0[j].es| == fill + 1 <= Half() && tower[lo] == Put(level0, j, RemoveAt(level0[j].es, q))
      requires LevelOK(level0, Routes(tower[lo + 1..], node), keynum, false)
      requires BigOK(tower[lo + 1..], Sizes(lo, level0), Half()) && Thinned(lo, tower[lo], bg, Half(), j)
      requires InBlock(key) && Load(key) > 0 && (fill == 0 ==> key.Own?)
      requires Covers(Routes(tower[lo + 1..], node), j, Load(key)) && Routes(tower[lo + 1..], node)[j].sep <= Load(key)
      modifies `node, `height, `tower, `budget, NodesFrom(tower, lo)
      ensures Base() && node != null && lo < |tower| && tower[..lo] == old(tower)[..lo]
      ensures NodesFrom(tower, lo) <= NodesFrom(old(tower), lo)
      ensures budget + Count(tower) == old(budget) + Count(old(tower))
      ensures WF(tower[lo..], node, keynum) && FillOK(tower, lo, bg, Half())
      ensures Shrunk(LevelRoutes(level0, Routes(old(tower)[lo + 1..], old(node))), Routes(tower[lo..], node),
                     Off(level0, j) + q, q + 1 < |level0[j].es|)
      ensures Flat(tower[lo]) == Flat(old(tower)[lo])
      decreases |tower| - lo, 2
    {
      hide WF; hide Routes; hide LevelRoutes; hide Flat; hide Distinct; hide BigOK; hide PartOK; hide Count; hide Off;
      hide Thinned; hide FillOK; hide Shrunk; hide Lifted; hide NodesFrom; hide HoldsAll; hide Seg; hide Linked; hide Tight;
      hide LevelOK; hide Grown;
      ghost var t, root, K, h := tower, node, keynum, Half();
      NodesBelow(t, t, lo, lo + 1);
      NodesBelow(t, t, lo, lo + 2);
      ghost var jp, qp := Locate(t, root, K, lo, j, Load(key));
      if fill == 0 {
        RemoveEmpty(lo, key, child, j, q, level0, bg, jp, qp);
      } else {
        RebalanceSmall(lo, key, child, fill, j, q, level0, bg, jp, qp);
      }
    }

    /** The parent node of node j of level lo, found by a key the node covers, and the slot that names the node. */
    method ParentSlot(lo: nat, k: nat, ghost j: nat, ghost jp: nat, ghost qp: nat)
      returns (parent: BtreeNode, index: nat, pfill: nat)
      requires Base() && lo + 1 < |tower| && WF(tower[lo + 1..], node, keynum) && UpperNonEmpty(tower, lo)
      requires Located(tower, node, lo + 1, jp, qp, k) && Tight(Routes(tower[lo + 2..], node), k)
      modifies `tower, NodesFrom(tower, lo + 2)
      ensures Base() && tower == old(tower)
      ensures parent == tower[lo + 1][jp].id && index == qp && pfill == |tower[lo + 1][jp].es|
    {
      hide WF; hide Routes; hide LevelRoutes; hide Flat; hide Distinct; hide Count; hide Off;
      hide NodesFrom; hide HoldsAll; hide Tight; hide LevelOK; hide Covers; hide IsPos; hide Lowered; hide Ordered;
      ghost var t := tower;
      UpperMore(t, lo);
      ghost var jp': nat;
      parent, jp' := FindParent(k, lo + 1);
      WalkedFacts(t, tower, node, keynum, lo + 1, k);
      index, pfill := Probe(lo + 1, parent, k, jp');
      LocatedUnique(t, node, keynum, lo + 1, jp, qp, jp', index, k);
    }

    /** A node that still has entries: merge it into the left neighbour, or the right one into it, if they fit. */
    method RebalanceSmall(lo: nat, key: KeyPtr, child: BtreeNode, fill: nat,
                          ghost j: nat, ghost q: nat, ghost level0: BLevel, ghost bg: seq<bool>, ghost jp: nat, ghost qp: nat)
      requires Base() && lo + 1 < |tower| && WF(tower[lo + 1..], node, keynum) && UpperNonEmpty(tower, lo)
      requires j < |tower[lo]| == |level0| && child == tower[lo][j].id
      requires q < |level0[j].es| == fill + 1 <= Half() && fill > 0 && tower[lo] == Put(level0, j, RemoveAt(level0[j].es, q))
      requires LevelOK(level0, Routes(tower[lo + 1..], node), keynum, false)
      requires BigOK(tower[lo + 1..], Sizes(lo, level0), Half()) && Thinned(lo, tower[lo], bg, Half(), j)
      requires InBlock(key) && Located(tower, node, lo + 1, jp, qp, Load(key)) && Off(tower[lo + 1], jp) + qp == j
      requires Tight(Routes(tower[lo + 2..], node), Load(key))
      modifies `node, `height, `tower, `budget, NodesFrom(tower, lo)
      ensures Base() && node != null && lo < |tower| && tower[..lo] == old(tower)[..lo]
      ensures NodesFrom(tower, lo) <= NodesFrom(old(tower), lo)
      ensures budget + Count(tower) == old(budget) + Count(old(tower))
      ensures WF(tower[lo..], node, keynum) && FillOK(tower, lo, bg, Half())
      ensures Shrunk(LevelRoutes(level0, Routes(old(tower)[lo + 1..], old(node))), Routes(tower[lo..], node),
                     Off(level0, j) + q, q + 1 < |level0[j].es|)
      ensures Flat(tower[lo]) == Flat(old(tower)[lo])
      decreases |tower| - lo, 1
    {
      hide WF; hide Routes; hide LevelRoutes; hide Flat; hide Distinct; hide BigOK; hide PartOK; hide Count; hide Off;
      hide Thinned; hide FillOK; hide Shrunk; hide Lifted; hide NodesFrom; hide HoldsAll; hide Seg; hide Linked; hide Tight;
      hide LevelOK; hide Grown; hide Covers; hide IsPos; hide Lowered; hide Ordered; hide SameSizes; hide Located;
      hide BothBig; hide Stores;
      ghost var t, root, K, h := tower, node, keynum, Half();
      NodesBelow(t, t, lo, lo + 1);
      NodesBelow(t, t, lo, lo + 2);
      Small(t, root, K, lo, level0, j, q);
      LocatedFacts(t, root, lo + 1, jp, qp, Load(key));
      var parent, index, pfill := ParentSlot(lo, Load(key), j, jp, qp);
      if index > 0 {
        var left, nfill := Neighbour(lo, parent, index - 1, jp, j - 1);
        if fill + nfill <= keynum {
          SizesGrown(lo, level0, t[lo], j, j - 1);
          RebalanceMerge(lo, left, nfill, child, fill, parent, index - 1, j - 1, jp, j, Sizes(lo, level0), bg);
          SmallDone(t, root, lo, level0, j, q, Routes(tower[lo..], node));
          return;
        }
      }
      if index + 1 < pfill {
        var right, nfill := Neighbour(lo, parent, index + 1, jp, j + 1);
        if fill + nfill <= keynum {
          SizesGrown(lo, level0, t[lo], j, j);
          RebalanceMerge(lo, child, fill, right, nfill, parent, index, j, jp, j, Sizes(lo, level0), bg);
          SmallDone(t, root, lo, level0, j, q, Routes(tower[lo..], node));
          return;
        }
      }
      KeepFill(t, lo, level0, j, h, jp, qp, bg);
      SmallKept(t, root, K, lo, level0, j, q);
    }

    /** A node that lost its last entry: take its own entry out of the level above, then free it. */
    method RemoveEmpty(lo: nat, key: KeyPtr, child: BtreeNode,
                       ghost j: nat, ghost q: nat, ghost level0: BLevel, ghost bg: seq<bool>, ghost jp: nat, ghost qp: nat)
      requires Base() && lo + 1 < |tower| && WF(tower[lo + 1..], node, keynum)
      requires j < |tower[lo]| == |level0| && child == tower[lo][j].id
      requires q < |level0[j].es| == 1 && tower[lo] == Put(level0, j, RemoveAt(level0[j].es, q))
      requires LevelOK(level0, Routes(tower[lo + 1..], node), keynum, false)
      requires BigOK(tower[lo + 1..], Sizes(lo, level0), Half()) && Thinned(lo, tower[lo], bg, Half(), j)
      requires key.Own? && Located(tower, node, lo + 1, jp, qp, Load(key)) && Off(tower[lo + 1], jp) + qp == j
      modifies `node, `height, `tower, `budget, NodesFrom(tower, lo)
      ensures Base() && node != null && lo < |tower| && tower[..lo] == old(tower)[..lo]
      ensures NodesFrom(tower, lo) <= NodesFrom(old(tower), lo)
      ensures budget + Count(tower) == old(budget) + Count(old(tower))
      ensures WF(tower[lo..], node, keynum) && FillOK(tower, lo, bg, Half())
      ensures Shrunk(LevelRoutes(level0, Routes(old(tower)[lo + 1..], old(node))), Routes(tower[lo..], node),
                     Off(level0, j) + q, q + 1 < |level0[j].es|)
      ensures Flat(tower[lo]) == Flat(old(tower)[lo])
      decreases |tower| - lo, 0
    {
      hide WF; hide Routes; hide LevelRoutes; hide Flat; hide Distinct; hide BigOK; hide PartOK; hide Count; hide Off;
      hide Thinned; hide FillOK; hide Shrunk; hide NodesFrom; hide HoldsAll; hide Seg; hide Linked;
      hide Without; hide AllChild;
      ghost var t, root, K, h := tower, node, keynum, Half();
      assert RemoveAt(level0[j].es, q) == [];
      NodesBelow(t, t, lo, lo + 1);
      DropStart(t, root, K, lo, level0, j, h, jp, qp);
      InnerChild(t, root, K, lo, level0);
      ghost var p;
      var taken;
      taken, p := RemoveLevel(lo + 1, key, Without(lo, t[lo], j), jp, qp);
      ghost var t1 := tower;
      NodesBelow(t, t1, lo, lo + 1);
      assert t1[lo] == t[lo] && t1[..lo] == t[..lo] by {
        assert t1[..lo + 1][lo] == t[..lo + 1][lo] && t1[..lo + 1][..lo] == t[..lo + 1][..lo];
      }
      RoutesOrdered(t[lo + 1..], root, K);
      DropMono(Routes(t[lo + 1..], root), Routes(t1[lo + 1..], node), j, qp + 1 < |t[lo + 1][jp].es|);
      Discard(lo, child, j);
      DropDone(t, root, t1, node, K, lo, level0, j, bg, h);
    }

    /** The root, node j of its level in t, just went from two entries to one. */
    method TailorRoot(lo: nat, ghost index: nat, ghost fill: nat, ghost t: BTower, ghost j: nat, ghost bg1: seq<bool>, ghost p: nat)
      requires Base() && |t| == lo + 1 && |t[lo]| == 1 && j == 0 && |t[lo][j].es| == fill == 2 && index < 2
      requires t[lo][0].id == node && tower == t[lo := Put(t[lo], j, RemoveAt(t[lo][j].es, index))]
      requires WF(tower[lo..], node, keynum) && Thinned(lo, tower[lo], bg1, Half(), j)
      requires lo > 0 ==> AllChild(t[lo]) && Shrunk(Routes(t[lo..], node), Routes(tower[lo..], node), p, index + 1 < fill)
      requires BigOK(tower[lo + 1..], Sizes(lo, t[lo]), Half())
      modifies `node, `height, `tower, `budget
      ensures Base() && node != null && lo <= |tower| && tower[..lo] == old(tower)[..lo] && tower != []
      ensures NodesFrom(tower, lo) <= NodesFrom(old(tower), lo)
      ensures budget + Count(tower) == old(budget) + Count(old(tower))
      ensures WF(tower[lo..], node, keynum) && FillOK(tower, lo, bg1, Half())
      ensures lo > 0 ==> Shrunk(Routes(t[lo..], old(node)), Routes(tower[lo..], node), p, index + 1 < fill)
      ensures lo == 0 ==> tower == old(tower)
    {
      hide WF; hide Routes; hide LevelRoutes; hide Flat; hide FillOK; hide Distinct; hide NodesFrom; hide Off;
      hide Seg; hide Count; hide HoldsAll; hide Shrunk; hide AllChild; hide BigOK; hide PartOK; hide Thinned; hide LevelOK;
      if lo > 0 {
        TailorUse(t, tower, lo, index);
        TailorDone(tower, node, tower[lo][0].es[0].val.node, keynum, lo, Routes(t[lo..], node), p, index + 1 < fill, bg1, Half());
      } else {
        ShrinkDone(tower, lo, t[lo], bg1, Half(), j);
      }
      Tailor(lo);
    }

    /** The second half of remove_level: close the gap, then restore the levels above. */
    method Evict(lo: nat, key: KeyPtr, n: BtreeNode, index: nat, fill: nat, ghost j: nat, ghost bg: seq<bool>)
      returns (ghost p: nat)
      requires Base() && lo < |tower| && WF(tower[lo..], node, keynum) && FillOK(tower, lo, bg, Half())
      requires UpperNonEmpty(tower, lo) && j < |tower[lo]| && n == tower[lo][j].id && index < |tower[lo][j].es| == fill
      requires lo > 0 ==> |bg| == |Flat(tower[lo])| && MayGo(Seg(tower[lo], bg, j), index) && AllChild(tower[lo])
      requires InBlock(key) && Load(key) > 0
      requires key.InSlot? ==> lo > 0 && key.n == n && key.i == index && index + 1 < fill
      requires key.Own? ==> Covers(Routes(tower[lo + 1..], node), j, key.k) && Routes(tower[lo + 1..], node)[j].sep <= key.k
      modifies `node, `height, `tower, `budget, NodesFrom(tower, lo)
      ensures Base() && node != null && lo <= |tower| && tower[..lo] == old(tower)[..lo] && tower != []
      ensures NodesFrom(tower, lo) <= NodesFrom(old(tower), lo)
      ensures budget + Count(tower) == old(budget) + Count(old(tower))
      ensures WF(tower[lo..], node, keynum) && p == Off(old(tower)[lo], j) + index
      ensures lo > 0 ==>
        && p < |bg| && FillOK(tower, lo, RemoveAt(bg, p), Half())
        && Shrunk(Routes(old(tower)[lo..], old(node)), Routes(tower[lo..], node), p, index + 1 < |old(tower)[lo][j].es|)
      ensures lo == 0 ==>
        && FillOK(tower, lo, bg, Half())
        && p < |Flat(old(tower)[0])| && Flat(tower[0]) == RemoveAt(Flat(old(tower)[0]), p)
      decreases |tower| - lo, 3
    {
      hide WF; hide Routes; hide LevelRoutes; hide Flat; hide Covers; hide FillOK; hide Distinct; hide NodesFrom; hide Off;
      hide Seg; hide Count; hide HoldsAll; hide Shrunk; hide MayGo; hide AllChild; hide BigOK; hide PartOK; hide Thinned;
      hide LevelOK; hide Grown; hide Ordered; hide Located; hide RemoveAt; hide Lifted; hide RootReady; hide Desc;
      ghost var t, h := tower, Half();
      ShrinkFill(t, lo, bg, h, j, index);
      RemoveFlat(t[lo], j, index);
      if fill > 1 || lo + 1 == |t| {
        ShrinkLevel(t, node, keynum, lo, j, index);
      }
      if lo + 1 < |t| {
        EvictStart(t, node, keynum, lo, bg, h, j, index);
      } else {
        EvictTop(t, node, keynum, lo, h);
      }
      var last := fill - 1;
      p := Off(t[lo], j) + index;
      ghost var bg1 := if lo > 0 then RemoveAt(bg, p) else bg;
      NodeAt(t, lo, lo, j);
      TakeOut(lo, n, index, last, j);
      ghost var t1 := tower;
      assert t1[lo + 1..] == t[lo + 1..] && t1[..lo] == t[..lo];
      if last < keynum / 2 {
        if lo + 1 < height {
          RemoveRebalance(lo, key, n, last, j, index, t[lo], bg1);
          return;
        } else if last == 1 {
          TailorRoot(lo, index, fill, t, j, bg1, p);
          return;
        }
      }
      ShrinkDone(t1, lo, t[lo], bg1, h, j);
    }

    /** remove_level: take the entry the key leads to out of level lo and restore the levels above.  Above the
        leaves the caller knows the entry: number gq of node gj. */
    method RemoveLevel(lo: nat, key: KeyPtr, ghost bg: seq<bool>, ghost gj: nat, ghost gq: nat)
      returns (taken: Taken, ghost p: nat)
      requires Base() && lo < |tower| && WF(tower[lo..], node, keynum) && FillOK(tower, lo, bg, Half())
      requires InBlock(key) && Load(key) > 0
      requires lo > 0 ==> Located(tower, node, lo, gj, gq, Load(key))
      requires lo > 0 ==> |bg| == |Flat(tower[lo])| && MayGo(Seg(tower[lo], bg, gj), gq)
      requires lo > 0 ==> AllChild(tower[lo])
      requires key.InSlot? ==> lo > 0 && key.n == tower[lo][gj].id && key.i == gq && gq + 1 < |tower[lo][gj].es|
      modifies `node, `height, `tower, `budget, NodesFrom(tower, lo)
      ensures Base() && node != null && lo <= |tower| && tower[..lo] == old(tower)[..lo] && tower != []
      ensures NodesFrom(tower, lo) <= NodesFrom(old(tower), lo)
      ensures budget + Count(tower) == old(budget) + Count(old(tower))
      ensures WF(tower[lo..], node, keynum)
      ensures lo > 0 ==>
        && taken == Removed(Null) && p == Off(old(tower)[lo], gj) + gq
        && p < |bg| && FillOK(tower, lo, RemoveAt(bg, p), Half())
        && Shrunk(Routes(old(tower)[lo..], old(node)), Routes(tower[lo..], node), p, gq + 1 < |old(tower)[lo][gj].es|)
      ensures lo == 0 ==> FillOK(tower, lo, bg, Half())
      ensures lo == 0 && taken.Removed? ==>
        && p < |Flat(old(tower)[0])| && Flat(old(tower)[0])[p] == Entry(old(Load(key)), taken.value)
        && Flat(tower[0]) == RemoveAt(Flat(old(tower)[0]), p)
        && (remove.Call? ==> remove.f(Word(taken.value)) == 0)
      ensures lo == 0 && taken.Refused? ==>
        && p < |Flat(old(tower)[0])| && Flat(old(tower)[0])[p].key == old(Load(key)) && Flat(tower[0]) == Flat(old(tower)[0])
        && remove.Call? && taken.answer == remove.f(Word(Flat(old(tower)[0])[p].val)) != 0
      ensures lo == 0 && (taken.Absent? || taken.Overrun?) ==>
        && Flat(tower[0]) == Flat(old(tower)[0])
        && forall i :: 0 <= i < |Flat(old(tower)[0])| ==> Flat(old(tower)[0])[i].key != old(Load(key))
      ensures lo == 0 ==> (taken.Overrun? <==> OverrunAt(old(tower), old(node), keynum, old(Load(key))))
      decreases |tower| - lo, 4
    {
      hide WF; hide Routes; hide Flat; hide Covers; hide FillOK; hide Walked; hide Distinct; hide NodesFrom; hide Off; hide Seg;
      hide UpperNonEmpty; hide Count; hide HoldsAll; hide Lowered; hide Shrunk; hide MayGo; hide AllChild; hide OverrunAt;
      var k := Load(key);
      ghost var t0 := tower;
      WalkStart(t0, node, keynum, lo, bg, Half(), gj, gq, k);
      NodesBelow(t0, t0, lo, lo + 1);
      var n, j := FindParent(k, lo);
      ghost var t := tower;
      WalkedFacts(t0, t, node, keynum, lo, k);
      WalkedFill(t0, t, node, keynum, lo, k, bg, Half(), false);
      FillOnOK(t, lo, bg, Half());
      NodeAt(t, lo, lo, j);
      var index, fill := Probe(lo, n, k, j);
      if lo > 0 {
        LocatedUnique(t, node, keynum, lo, gj, gq, j, index, k);
        NodeAt(t0, lo + 1, lo, gj);
      } else {
        NodeFacts(t, node, keynum, lo, j);
        OverrunHere(t0, t, node, keynum, k, j, index);
      }
      taken := Removed(Null);
      if lo == 0 {
        if index == keynum {
          // the compared slot lies behind the keys: it is the first value
          AbsentIn(t, node, keynum, lo, j, index, k);
          return if n.vals[0] == Data(k) then Overrun else Absent, 0;
        }
        if n.keys[index] != k {
          AbsentIn(t, node, keynum, lo, j, index, k);
          return Absent, 0;
        }
        FoundAt(t, node, keynum, lo, j, index);
        taken := Removed(n.vals[index]);
        var word := Word(n.vals[index]);
        if remove.Call? && remove.f(word) != 0 {
          return Refused(remove.f(word)), Off(t[lo], j) + index;
        }
      }
      p := Evict(lo, key, n, index, fill, j, bg);
    }

    // ----- the tree as a map -----

    ghost predicate Valid()
      reads `node, `height, `tower, NodesFrom(tower, 0)
    {
      && Base()
      && (tower != [] ==>
            WF(tower[0..], node, keynum) && FillOK(tower, 0, [], Half()) && LeafOK(Flat(tower[0])))
    }

    /** The entries of the leaves, largest key first. */
    ghost function Entries(): seq<Entry<BtreeNode>>
      reads `tower
    {
      if tower == [] then [] else Flat(tower[0])
    }

    ghost function Contents(): map<nat, nat>
      reads `tower
    {
      MapOf(Entries())
    }

    constructor (keynum: nat, budget: nat, clash: Hook<(nat, nat) -> int>, remove: Hook<nat -> nat>)
      requires keynum >= 4 && keynum % 2 == 0
      ensures Valid() && Contents() == map[] && this.keynum == keynum && this.budget == budget && tower == []
      ensures this.clash == clash && this.remove == remove
    {
      this.keynum := keynum;
      this.clash := clash;
      this.remove := remove;
      this.budget := budget;
      node := null;
      height := 0;
      tower := [];
    }

    lemma {:induction false} EntriesDesc()
      requires Valid()
      ensures Desc(Entries()) && LeafOK(Entries())
    {
      if tower != [] {
        LevelAt(tower, node, keynum, 0);
      }
    }

    /** btree_insert */
    method Insert(key: nat, value: nat) returns (err: Error)
      requires Valid() && key != 0
      modifies this, NodesFrom(tower, 0)
      ensures Valid()
      ensures value == 0 ==> err == Invalid
      ensures value != 0 && key in old(Contents()) ==>
                err == if clash.Nothing? then Already else Clash(clash.f(old(Contents())[key], value))
      ensures value != 0 && key !in old(Contents()) ==> err == Ok || (err == NoMemory && old(budget) <= old(height))
      ensures err == NoMemory && old(tower) != [] ==> FullNode(old(tower)[0], keynum)
      ensures Contents() == if err == Ok then old(Contents())[key := value] else old(Contents())
      ensures budget + Count(tower) == old(budget) + old(Count(tower))
      ensures fresh(NodesFrom(tower, 0) - old(NodesFrom(tower, 0)))
    {
      hide WF; hide Routes; hide Flat; hide FillOK; hide Distinct; hide NodesFrom; hide Count; hide HoldsAll; hide MapOf;
      hide LeafOK; hide Desc; hide Fits; hide RoutesIn; hide RootReady; hide FullNode;
      if value == 0 {
        return Invalid;
      }
      ghost var es := Entries();
      assert FlatHere(0) == es;
      EntriesDesc();
      LeafNil();
      ghost var p;
      var held;
      err, p, held := InsertLevel(0, key, Data(value), []);
      MapKeys(es, key);
      if err == Already {
        HeldAt(es, p, key, held);
        if clash.Call? {
          err := Clash(clash.f(held.word, value));
        }
      }
      if err == Ok {
        WFDesc(tower, node, keynum);
        LeafInsert(es, p, key, value);
      }
    }

    /** What Valid says about the levels. */
    lemma {:induction false} ValidFacts()
      requires Valid() && tower != []
      ensures WF(tower[0..], node, keynum) && UpperNonEmpty(tower, 0) && (|tower| > 1 ==> NonEmpty(tower[0]))
      ensures |tower[|tower| - 1]| == 1 && tower[|tower| - 1][0].id == node
      ensures Desc(Flat(tower[0])) && LeafOK(Flat(tower[0]))
      ensures FillOn(tower, 0, [], Half(), false)
    {
      FillOnOK(tower, 0, [], Half());
      FillNonEmpty(tower, node, keynum, 0, [], Half());
      WFUp(tower, node, keynum, 0, |tower| - 1);
      TopOne(tower, node, keynum, |tower| - 1);
      WFDesc(tower, node, keynum);
    }

    /** bnode_lookup: down to the leaf the key belongs to, changing nothing. */
    method FindLeaf(key: nat) returns (n: BtreeNode?, ghost j: nat)
      requires Valid() && key != 0
      ensures Valid()
      ensures n == null ==> !HasKey(Entries(), key)
      ensures n != null ==> tower != [] && j < |tower[0]| && n == tower[0][j].id && Covers(Routes(tower[1..], node), j, key)
    {
      hide WF; hide Routes; hide Flat; hide FillOK; hide Distinct; hide Off; hide Covers; hide Count; hide UpperNonEmpty;
      hide NodesFrom; hide HoldsAll; hide LeafOK; hide Desc; hide LevelOK; hide Ordered; hide Linked; hide LevelRoutes; hide HasKey;
      if height == 0 {
        NoKey(key);
        return null, 0;
      }
      ValidFacts();
      LevelTop(key, 0);
      n := node;
      j := 0;
      var h: nat := height - 1;
      while h != 0
        invariant h < height && Valid()
        invariant n != null && j < |tower[h]| && n == tower[h][j].id && Covers(Routes(tower[h + 1..], node), j, key)
      {
        SlotFacts(tower, node, keynum, 0, h, j);
        ghost var es := tower[h][j].es;
        var index := Search(h, n, key, j);
        if index == keynum || n.vals[index] == Null {
          LookupMiss(tower, node, keynum, h, j, key);
          return null, 0;
        }
        StepOne(tower, node, keynum, 0, h, j, index, key);
        j := Off(tower[h], j) + index;
        n := n.vals[index].node;
        h := h - 1;
      }
    }

    lemma {:induction false} NoKey(key: nat)
      requires tower == []
      ensures !HasKey(Entries(), key)
    {
    }

    /** The slot of the key in the leaf it belongs to, or keynum. */
    method FindSlot(n: BtreeNode, key: nat, ghost j: nat) returns (index: nat)
      requires Valid() && key != 0 && tower != [] && j < |tower[0]| && n == tower[0][j].id
      requires Covers(Routes(tower[1..], node), j, key)
      ensures Valid()
      ensures index == keynum ==> !HasKey(Entries(), key)
      ensures index != keynum ==>
        && index < |tower[0][j].es| && tower[0][j].es[index].key == key && n.Holds(tower[0][j].es, keynum)
        && Off(tower[0], j) + index < |Entries()| && Entries()[Off(tower[0], j) + index] == tower[0][j].es[index]
    {
      hide WF; hide Routes; hide Flat; hide FillOK; hide Distinct; hide Off; hide Covers; hide Count; hide UpperNonEmpty; hide LeafOK;
      ValidFacts();
      ghost var es := tower[0][j].es;
      NodeFacts(tower, node, keynum, 0, j);
      index := n.KeyIndex(key, es, keynum);
      if index == keynum {
        ghost var q := FindPos(es, key);
        AbsentIn(tower, node, keynum, 0, j, q, key);
      } else {
        FoundAt(tower, node, keynum, 0, j, index);
      }
    }

    /** btree_lookup; 0 is NULL. */
    method Lookup(key: nat) returns (value: nat)
      requires Valid() && key != 0
      ensures Valid() && value == if key in Contents() then Contents()[key] else 0
    {
      hide WF; hide Routes; hide Flat; hide FillOK; hide Distinct; hide Off; hide Covers; hide Count; hide MapOf; hide HasKey;
      MapKeys(Entries(), key);
      EntriesDesc();
      var n, j := FindLeaf(key);
      if n == null {
        return 0;
      }
      var index := FindSlot(n, key, j);
      if index == keynum {
        return 0;
      }
      ghost var i := Off(tower[0], j) + index;
      MapAt(Entries(), i);
      LeafAt(Entries(), i);
      value := n.vals[index].word;
    }

    lemma {:induction false} LeafAt(es: seq<Entry<BtreeNode>>, i: nat)
      requires LeafOK(es) && i < |es|
      ensures es[i].val.Data? && es[i].val.word != 0
    {
    }

    /** btree_update; storing NULL would cut the leaf short, callers pass a value. */
    method Update(key: nat, value: nat) returns (err: Error)
      requires Valid() && key != 0 && value != 0
      modifies `tower, NodesFrom(tower, 0)
      ensures Valid() && height == old(height) && node == old(node)
      ensures err == if key in old(Contents()) then Ok else NoEntry
      ensures Contents() == if err == Ok then old(Contents())[key := value] else old(Contents())
      ensures NodesFrom(tower, 0) == old(NodesFrom(tower, 0)) && Count(tower) == old(Count(tower))
    {
      hide WF; hide Routes; hide Flat; hide FillOK; hide Distinct; hide Off; hide Covers; hide Count; hide MapOf; hide HasKey;
      hide NodesFrom; hide LeafOK; hide HoldsAll;
      MapKeys(Entries(), key);
      EntriesDesc();
      var n, j := FindLeaf(key);
      if n == null {
        return NoEntry;
      }
      var index := FindSlot(n, key, j);
      if index == keynum {
        return NoEntry;
      }
      ghost var t, i := tower, Off(tower[0], j) + index;
      MapAt(Entries(), i);
      NodeAt(t, 0, 0, j);
      Store(n, index, value, j);
      MapUpdate(Flat(t[0]), i, Data(value));
      err := Ok;
    }

    lemma {:induction false} HeldAt(es: seq<Entry<BtreeNode>>, p: nat, key: nat, held: Slot<BtreeNode>)
      requires Desc(es) && LeafOK(es) && p < |es| && es[p] == Entry(key, held)
      ensures held.Data? && key in MapOf(es) && MapOf(es)[key] == held.word
    {
      MapAt(es, p);
    }

    /** Overwrite the value in one leaf slot. */
    method Store(n: BtreeNode, index: nat, value: nat, ghost j: nat)
      requires Valid() && tower != [] && j < |tower[0]| && n == tower[0][j].id && index < |tower[0][j].es| && value != 0
      modifies `tower, n
      ensures Valid() && tower != []
      ensures NodesFrom(tower, 0) == NodesFrom(old(tower), 0) && Count(tower) == Count(old(tower))
      ensures var i := Off(old(tower)[0], j) + index;
        && i < |Flat(old(tower)[0])|
        && Flat(tower[0]) == Flat(old(tower)[0])[i := Entry(Flat(old(tower)[0])[i].key, Data(value))]
    {
      hide WF; hide Routes; hide Flat; hide FillOK; hide Distinct; hide NodesFrom; hide HoldsAll; hide Count;
      hide Off; hide LeafOK;
      ghost var t, es := tower, tower[0][j].es;
      NodeHolds(t, 0, j);
      HoldsAllBut(t, n);
      n.SetValue(index, Data(value));
      ghost var es' := es[index := Entry(es[index].key, Data(value))];
      tower := t[0 := Put(t[0], j, es')];
      PutBase(t, 0, j, es');
      CountReplace(t, 0, tower[0]);
      StoreOK(t, node, keynum, Half(), j, index, value);
    }

    /** btree_remove.  A key that is not there can overrun: the source would go on with a slot behind the block, and the
        model stops at that point, so that what is said of the tree then is no claim about the source. */
    method Remove(key: nat) returns (taken: Taken)
      requires Valid() && key != 0
      modifies this, NodesFrom(tower, 0)
      ensures Valid()
      ensures key in old(Contents()) ==>
                (var v := old(Contents())[key];
                 if remove.Call? && remove.f(v) != 0 then taken == Refused(remove.f(v)) && Contents() == old(Contents())
                 else taken == Removed(Data(v)) && Contents() == old(Contents()) - {key})
      ensures key !in old(Contents()) ==> (taken.Absent? || taken.Overrun?) && Contents() == old(Contents())
      ensures forall i :: 0 <= i < |old(Entries())| && old(Entries())[i].key == key && taken.Removed? ==>
                Entries() == RemoveAt(old(Entries()), i)
      ensures taken.Overrun? <==> old(tower != [] && OverrunAt(tower, node, keynum, key))
      ensures taken.Overrun? ==> key in old(Contents()).Values
      ensures budget + Count(tower) == old(budget) + old(Count(tower))
      ensures NodesFrom(tower, 0) <= old(NodesFrom(tower, 0))
    {
      hide WF; hide Routes; hide Flat; hide FillOK; hide Distinct; hide NodesFrom; hide Count; hide HoldsAll; hide MapOf;
      hide LeafOK; hide Desc; hide OverrunAt; hide Shrunk; hide Located; hide Seg; hide MayGo; hide AllChild;
      EntriesDesc();
      MapKeys(Entries(), key);
      if height == 0 {
        NoKey(key);
        return Absent;
      }
      ghost var es, t, root := Entries(), tower, node;
      OverrunValue(t, root, key);
      ghost var p;
      taken, p := RemoveLevel(0, Own(key), [], 0, 0);
      MapKeys(es, key);
      if taken.Removed? {
        LeafRemove(es, p);
        OnlyAt(es, p);
      } else if taken.Refused? {
        HeldAt(es, p, key, es[p].val);
      }
    }

    lemma {:induction false} OnlyAt(es: seq<Entry<BtreeNode>>, p: nat)
      requires Desc(es) && p < |es|
      ensures forall i :: 0 <= i < |es| && es[i].key == es[p].key ==> i == p
    {
    }

    lemma {:induction false} OverrunValue(t: BTower, root: BtreeNode, key: nat)
      requires Valid() && t == tower && t != [] && root == node
      ensures OverrunAt(t, root, keynum, key) ==> key in Contents().Values
    {
      if OverrunAt(t, root, keynum, key) {
        var j: nat :| j < |t[0]| && Covers(Routes(t[1..], root), j, key)
          && |t[0][j].es| == keynum && (forall i :: 0 <= i < keynum ==> t[0][j].es[i].key > key)
          && keynum > 0 && t[0][j].es[0].val == Data(key);
        EntriesDesc();
        FoundAt(t, root, keynum, 0, j, 0);
        MapAt(Entries(), Off(t[0], j));
      }
    }

    // ----- the key cursor -----

    /** Where a cursor call stands: the value found, 0 for NULL, and the key left in the caller's buffer. */
    ghost predicate Shows(value: nat, key: nat, i: nat)
      reads `tower
    {
      i < |Entries()| && Entries()[i] == Entry(key, Data(value)) && value != 0
    }

    /** btree_first */
    method First(key0: nat) returns (value: nat, key: nat)
      requires Valid()
      ensures Valid()
      ensures if Entries() == [] then value == 0 && key == (if tower == [] then key0 else 0) else Shows(value, key, 0)
    {
      hide WF; hide Routes; hide Flat; hide FillOK; hide Distinct; hide Count; hide UpperNonEmpty; hide LeafOK; hide MapOf;
      if height == 0 {
        return 0, key0;
      }
      ValidFacts();
      var n: BtreeNode := node;
      var h: nat := height - 1;
      while h != 0
        invariant h < height && Valid() && tower[h] != [] && n == tower[h][0].id
        invariant h < height - 1 ==> NonEmpty(tower[h])
      {
        EdgeStep(tower, node, keynum, h);
        NodeHolds(tower, h, 0);
        n := n.vals[0].node;
        h := h - 1;
      }
      NodeHolds(tower, 0, 0);
      if height > 1 {
        EdgeEntries(tower[0]);
      } else {
        SingleFlat(tower[0]);
      }
      if Entries() != [] {
        LeafAt(Entries(), 0);
      }
      key := n.keys[0];
      value := if n.vals[0] == Null then 0 else n.vals[0].word;
    }

    /** btree_last.  A tree whose entries were all removed keeps an empty root block: the source goes astray and reads
        the slot in front of the first one, and the model stops. */
    method Last(key0: nat) returns (value: nat, key: nat, astray: bool)
      requires Valid()
      ensures Valid() && (astray <==> tower != [] && Entries() == [])
      ensures if Entries() == [] then value == 0 && key == key0 else Shows(value, key, |Entries()| - 1)
    {
      hide WF; hide Routes; hide Flat; hide FillOK; hide Distinct; hide Count; hide UpperNonEmpty; hide LeafOK; hide MapOf;
      hide Stores; hide NodesFrom; hide HoldsAll; hide Desc;
      astray := false;
      if height == 0 {
        return 0, key0, false;
      }
      ValidFacts();
      if Entries() == [] {
        OneBlock();
      }
      var n: BtreeNode := node;
      var h: nat := height - 1;
      while h != 0
        invariant h < height && Valid() && tower[h] != [] && n == tower[h][|tower[h]| - 1].id
        invariant h < height - 1 ==> NonEmpty(tower[h])
      {
        EdgeStep(tower, node, keynum, h);
        var child;
        key, child := LastSlot(n, h, |tower[h]| - 1);
        n := child.node;
        h := h - 1;
      }
      if height > 1 {
        EdgeEntries(tower[0]);
      } else {
        SingleFlat(tower[0]);
      }
      var fill := Filled(n, 0, |tower[0]| - 1);
      if fill == 0 {
        return 0, key0, true;
      }
      LeafAt(Entries(), |Entries()| - 1);
      var last;
      key, last := LastSlot(n, 0, |tower[0]| - 1);
      value := last.word;
    }

    /** The last filled slot of node j of level l. */
    method LastSlot(n: BtreeNode, ghost l: nat, ghost j: nat) returns (key: nat, value: Slot<BtreeNode>)
      requires Valid() && l < |tower| && j < |tower[l]| && n == tower[l][j].id && tower[l][j].es != []
      ensures Valid() && Entry(key, value) == tower[l][j].es[|tower[l][j].es| - 1]
    {
      var fill := Filled(n, l, j);
      key, value := n.keys[fill - 1], n.vals[fill - 1];
    }

    /** How many slots of node j of level l are filled. */
    method Filled(n: BtreeNode, ghost l: nat, ghost j: nat) returns (fill: nat)
      requires Valid() && l < |tower| && j < |tower[l]| && n == tower[l][j].id
      ensures Valid() && n.Holds(tower[l][j].es, keynum) && fill == |tower[l][j].es|
    {
      NodeHolds(tower, l, j);
      WFUp(tower, node, keynum, 0, l);
      NodeFacts(tower, node, keynum, l, j);
      fill := n.FillIndex(0, tower[l][j].es, keynum);
    }

    lemma {:induction false} CursorStart(lo: nat, key: nat, x: nat) returns (gj: nat, gq: nat)
      requires Valid() && lo < |tower| && key != 0
      requires if lo == 0 then x < |Entries()| && Entries()[x].key == key
               else Covers(Routes(tower[lo..], node), x, key) && Routes(tower[lo..], node)[x].sep <= key
      ensures Located(tower, node, lo, gj, gq, key) && Off(tower[lo], gj) + gq == x
      ensures Tight(Routes(tower[lo + 1..], node), key)
    {
      ValidFacts();
      if lo == 0 {
        gj, gq := StoredTight(tower, node, keynum, x);
      } else {
        WFUp(tower, node, keynum, 0, lo);
        UpperFrom(tower, lo - 1);
        gj, gq := Locate(tower, node, keynum, lo - 1, x, key);
      }
    }

    /** One level of the upward walk of a cursor: find the node of the key and its slot, changing nothing. */
    method CursorAt(lo: nat, key: nat, ghost x: nat) returns (n: BtreeNode, index: nat, fill: nat, ghost j: nat)
      requires Valid() && lo < |tower| && key != 0
      requires if lo == 0 then Entries() != [] ==> x < |Entries()| && Entries()[x].key == key
               else Covers(Routes(tower[lo..], node), x, key) && Routes(tower[lo..], node)[x].sep <= key
      modifies `tower, NodesFrom(tower, lo + 1)
      ensures Valid() && tower == old(tower)
      ensures j < |tower[lo]| && n == tower[lo][j].id && fill == |tower[lo][j].es| && n.Holds(tower[lo][j].es, keynum)
      ensures if Entries() != [] then Off(tower[lo], j) + index == x && index < fill else |tower| == 1 && index == fill == 0
      ensures Covers(Routes(tower[lo + 1..], node), j, key) && Routes(tower[lo + 1..], node)[j].sep <= key
    {
      hide WF; hide Routes; hide Flat; hide FillOK; hide Distinct; hide Off; hide Count; hide UpperNonEmpty; hide LeafOK;
      hide NodesFrom; hide HoldsAll; hide Covers; hide IsPos; hide Desc;
      hide Tight; hide Lowered; hide Walked; hide FillOn;
      ValidFacts();
      ghost var t, gj, gq := tower, 0, 0;
      if Entries() == [] {
        OneBlock();
      } else {
        gj, gq := CursorStart(lo, key, x);
      }
      WFUp(t, node, keynum, 0, lo);
      UpperFrom(t, lo);
      n, j := FindParent(key, lo);
      WalkedFacts(t, tower, node, keynum, lo, key);
      index, fill := Probe(lo, n, key, j);
      if Entries() == [] {
        assert tower == t;
      } else {
        LocatedUnique(t, node, keynum, lo, gj, gq, j, index, key);
      }
    }

    lemma {:induction false} NextStart(i: nat)
      requires tower != []
      ensures Before(tower, 0, i + 1) == i + 1 && Before(tower, 0, i) == i
    {
    }

    lemma {:induction false} UpBound(lo: nat, j: nat, key: nat)
      requires Valid() && lo < |tower| && Covers(Routes(tower[lo + 1..], node), j, key)
      ensures lo + 1 < |tower| ==> j < |Flat(tower[lo + 1])|
    {
      WFUp(tower, node, keynum, 0, lo + 1);
      if lo + 1 < |tower| {
        LevelAt(tower, node, keynum, lo + 1);
      }
    }

    /** A tree without entries is a single empty block. */
    lemma {:induction false} OneBlock()
      requires Valid() && tower != [] && Entries() == []
      ensures |tower| == 1 && |tower[0]| == 1 && tower[0][0].es == []
    {
      ValidFacts();
      if |tower| > 1 {
        EdgeStep(tower, node, keynum, 1);
        EdgeEntries(tower[0]);
      } else {
        SingleFlat(tower[0]);
      }
    }

    /** btree_next, called with a stored key (or 0, or on a tree without entries). */
    method Next(key0: nat, ghost i: nat) returns (value: nat, key: nat)
      requires Valid() && (key0 != 0 && Entries() != [] ==> i < |Entries()| && Entries()[i].key == key0)
      modifies `tower, NodesFrom(tower, 0)
      ensures Valid() && tower == old(tower)
      ensures if key0 != 0 && i + 1 < |Entries()| then Shows(value, key, i + 1) else value == 0 && key == key0
    {
      hide WF; hide Routes; hide Flat; hide FillOK; hide Distinct; hide Off; hide Count; hide UpperNonEmpty; hide LeafOK;
      hide NodesFrom; hide HoldsAll; hide Before; hide Desc;
      if key0 == 0 {
        return 0, key0;
      }
      var lo: nat, index: nat, fill: nat := 0, 0, 0;
      var n: BtreeNode? := null;
      ghost var j: nat, x: nat := 0, i;
      if tower != [] {
        NextStart(i);
      }
      while lo < height
        invariant Valid() && tower == old(tower) && lo <= height
        invariant Entries() == [] ==> lo == 0 || lo == height
        invariant Entries() != [] && lo < height ==> x < |Flat(tower[lo])| && Before(tower, lo, x + 1) == i + 1
        invariant lo == 0 ==> x == i
        invariant 0 < lo < height ==> Covers(Routes(tower[lo..], node), x, key0) && Routes(tower[lo..], node)[x].sep <= key0
        invariant Entries() != [] && lo == height ==> i + 1 == |Entries()|
      {
        NodesBelow(tower, tower, 0, lo + 1);
        n, index, fill, j := CursorAt(lo, key0, x);
        index := index + 1;
        if index < fill {
          break;
        }
        ValidFacts();
        if Entries() != [] {
          NextUp(tower, node, keynum, lo, j, x);
          UpBound(lo, j, key0);
        }
        x := j;
        lo := lo + 1;
      }
      if lo == height {
        return 0, key0;
      }
      key, value := NextDown(n, lo, index, j, i);
    }

    /** Down along the first slots. */
    method NextDown(n0: BtreeNode, lo0: nat, index0: nat, ghost j0: nat, ghost i: nat) returns (key: nat, value: nat)
      requires Valid() && lo0 < |tower| && j0 < |tower[lo0]| && n0 == tower[lo0][j0].id && index0 < |tower[lo0][j0].es|
      requires Before(tower, lo0, Off(tower[lo0], j0) + index0) == i + 1
      ensures Valid() && Shows(value, key, i + 1)
    {
      hide WF; hide Routes; hide Flat; hide FillOK; hide Distinct; hide Off; hide Count; hide UpperNonEmpty; hide LeafOK;
      hide NodesFrom; hide HoldsAll; hide Before; hide Desc; hide Shows;
      var n, lo: nat, index: nat := n0, lo0, index0;
      ghost var j: nat := j0;
      while lo != 0
        invariant Valid() && lo < |tower|
        invariant j < |tower[lo]| && n == tower[lo][j].id && index < |tower[lo][j].es|
        invariant Before(tower, lo, Off(tower[lo], j) + index) == i + 1
      {
        ValidFacts();
        DownStep(tower, node, keynum, lo, j, index);
        BeforeDown(tower, lo, Off(tower[lo], j) + index);
        NodeHolds(tower, lo, j);
        n := n.vals[index].node;
        j := Off(tower[lo], j) + index;
        index := 0;
        lo := lo - 1;
      }
      NextStart(Off(tower[0], j) + index);
      key, value := TakeOutKey(n, index, j);
    }

    /** The pair stored in slot index of leaf j. */
    method TakeOutKey(n: BtreeNode, index: nat, ghost j: nat) returns (key: nat, value: nat)
      requires Valid() && tower != [] && j < |tower[0]| && n == tower[0][j].id && index < |tower[0][j].es|
      ensures Valid() && Shows(value, key, Off(tower[0], j) + index)
    {
      hide WF; hide Routes; hide Flat; hide FillOK; hide Distinct; hide Off; hide Count; hide UpperNonEmpty; hide LeafOK;
      hide NodesFrom; hide HoldsAll; hide Desc; hide LevelRoutes;
      ValidFacts();
      NodeHolds(tower, 0, j);
      FoundAt(tower, node, keynum, 0, j, index);
      LeafAt(Entries(), Off(tower[0], j) + index);
      key := n.keys[index];
      value := n.vals[index].word;
    }

    /** btree_prev, called with a stored key (or 0, or on a tree without entries). */
    method Prev(key0: nat, ghost i: nat) returns (value: nat, key: nat)
      requires Valid() && (key0 != 0 && Entries() != [] ==> i < |Entries()| && Entries()[i].key == key0)
      modifies `tower, NodesFrom(tower, 0)
      ensures Valid() && tower == old(tower)
      ensures if key0 != 0 && Entries() != [] && i > 0 then Shows(value, key, i - 1) else value == 0 && key == key0
    {
      hide WF; hide Routes; hide Flat; hide FillOK; hide Distinct; hide Off; hide Count; hide UpperNonEmpty; hide LeafOK;
      hide NodesFrom; hide HoldsAll; hide Before; hide Desc;
      if key0 == 0 {
        return 0, key0;
      }
      var lo: nat, index: nat, fill: nat := 0, 0, 0;
      var n: BtreeNode? := null;
      ghost var j: nat, x: nat := 0, i;
      if tower != [] {
        NextStart(i);
      }
      while lo < height
        invariant Valid() && tower == old(tower) && lo <= height
        invariant Entries() == [] ==> lo == 0 || lo == height
        invariant Entries() != [] && lo < height ==> x < |Flat(tower[lo])| && Before(tower, lo, x) == i
        invariant lo == 0 ==> x == i
        invariant 0 < lo < height ==> Covers(Routes(tower[lo..], node), x, key0) && Routes(tower[lo..], node)[x].sep <= key0
        invariant Entries() != [] && lo == height ==> i == 0
      {
        NodesBelow(tower, tower, 0, lo + 1);
        n, index, fill, j := CursorAt(lo, key0, x);
        if index != 0 {
          index := index - 1;
          break;
        }
        ValidFacts();
        if Entries() != [] {
          PrevUp(tower, node, keynum, lo, j, x);
          UpBound(lo, j, key0);
        }
        x := j;
        lo := lo + 1;
      }
      if lo == height {
        return 0, key0;
      }
      key, value := PrevDown(n, lo, index, j, i);
    }

    /** Down along the rightmost slots. */
    method PrevDown(n0: BtreeNode, lo0: nat, index0: nat, ghost j0: nat, ghost i: nat) returns (key: nat, value: nat)
      requires Valid() && lo0 < |tower| && j0 < |tower[lo0]| && n0 == tower[lo0][j0].id && index0 < |tower[lo0][j0].es|
      requires Before(tower, lo0, Off(tower[lo0], j0) + index0 + 1) == i
      ensures Valid() && i > 0 && Shows(value, key, i - 1)
    {
      hide WF; hide Routes; hide Flat; hide FillOK; hide Distinct; hide Off; hide Count; hide UpperNonEmpty; hide LeafOK;
      hide NodesFrom; hide HoldsAll; hide Before;
      var n, lo: nat, index: nat := n0, lo0, index0;
      ghost var j: nat := j0;
      while lo != 0
        invariant Valid() && lo < |tower|
        invariant j < |tower[lo]| && n == tower[lo][j].id && index < |tower[lo][j].es|
        invariant Before(tower, lo, Off(tower[lo], j) + index + 1) == i
      {
        ValidFacts();
        DownStep(tower, node, keynum, lo, j, index);
        BeforeDown(tower, lo, Off(tower[lo], j) + index + 1);
        NodeHolds(tower, lo, j);
        n := n.vals[index].node;
        j := Off(tower[lo], j) + index;
        lo := lo - 1;
        var fill := Filled(n, lo, j);
        index := fill - 1;
      }
      NextStart(Off(tower[0], j) + index);
      key, value := TakeOutKey(n, index, j);
    }

    /** The pairs of the tree, largest key first. */
    ghost function Pairs(): (r: seq<(nat, nat)>)
      reads `tower
      ensures |r| == |Entries()|
    {
      var es := Entries();
      seq(|es|, i requires 0 <= i < |es| => (es[i].key, Word(es[i].val)))
    }

    /** btree_for_each: every pair exactly once, in strictly descending order of keys. */
    method ForEach() returns (visited: seq<(nat, nat)>)
      requires Valid()
      modifies `tower, NodesFrom(tower, 0)
      ensures Valid() && tower == old(tower)
      ensures visited == Pairs()
    {
      hide WF; hide Routes; hide Flat; hide FillOK; hide Distinct; hide Count; hide LeafOK; hide NodesFrom; hide HoldsAll;
      var value, key := First(0);
      visited := [];
      EntriesDesc();
      while value != 0
        invariant Valid() && tower == old(tower)
        invariant |visited| <= |Entries()| && visited == Pairs()[..|visited|]
        invariant if value != 0 then Shows(value, key, |visited|) else |visited| == |Entries()|
        decreases |Entries()| - |visited|
      {
        KeyPositive(|visited|);
        visited := visited + [(key, value)];
        value, key := Next(key, |visited| - 1);
      }
    }

    /** btree_for_each_reverse: the exact reverse; on a tree that never had entries, or still has some. */
    method ForEachReverse() returns (visited: seq<(nat, nat)>, astray: bool)
      requires Valid()
      modifies `tower, NodesFrom(tower, 0)
      ensures Valid() && tower == old(tower) && (astray <==> tower != [] && Entries() == [])
      ensures |visited| == |Pairs()| && forall i :: 0 <= i < |visited| ==> visited[i] == Pairs()[|visited| - 1 - i]
    {
      hide WF; hide Routes; hide Flat; hide FillOK; hide Distinct; hide Count; hide LeafOK; hide NodesFrom; hide HoldsAll;
      var value, key;
      value, key, astray := Last(0);
      visited := [];
      EntriesDesc();
      ghost var n := |Entries()|;
      while value != 0
        invariant Valid() && tower == old(tower) && n == |Entries()|
        invariant |visited| <= n && forall i :: 0 <= i < |visited| ==> visited[i] == Pairs()[n - 1 - i]
        invariant if value != 0 then |visited| < n && Shows(value, key, n - 1 - |visited|) else |visited| == n
        decreases n - |visited|
      {
        KeyPositive(n - 1 - |visited|);
        visited := visited + [(key, value)];
        value, key := Prev(key, n - |visited|);
      }
    }

    lemma {:induction false} KeyPositive(i: nat)
      requires Valid() && i < |Entries()|
      ensures Entries()[i].key > 0
    {
      var j, q := InFlat(tower[0], i);
      NodeFacts(tower, node, keynum, 0, j);
    }

    /** btree_destroy: remove every entry behind a cursor that is one step ahead, then free the last block.
        Every block the tree ever took goes back to the allocator. */
    method Destroy()
      requires Valid() && (remove.Call? ==> forall v :: remove.f(v) == 0)
      modifies this, NodesFrom(tower, 0)
      ensures Valid() && tower == [] && node == null && Contents() == map[]
      ensures budget == old(budget) + old(Count(tower))
    {
      hide WF; hide Routes; hide Flat; hide FillOK; hide Distinct; hide LeafOK; hide NodesFrom; hide HoldsAll;
      hide OverrunAt; hide MapOf; hide Count;
      var value, key := First(0);
      var tkey := key;
      var tval;
      if value != 0 {
        KeyPositive(0);
      }
      tval, tkey := Next(tkey, 0);
      while value != 0
        invariant Valid() && budget + Count(tower) == old(budget) + old(Count(tower))
        invariant NodesFrom(tower, 0) <= old(NodesFrom(tower, 0))
        invariant value != 0 ==> Shows(value, key, 0)
        invariant value != 0 ==> if |Entries()| > 1 then Shows(tval, tkey, 1) else tval == 0 && tkey == key
        invariant value == 0 ==> Entries() == []
        decreases |Entries()|, value
      {
        KeyPositive(0);
        EntriesDesc();
        MapAt(Entries(), 0);
        ghost var es := Entries();
        var taken := Remove(key);
        assert Entries() == RemoveAt(es, 0) == es[1..];
        key := tkey;
        value := tval;
        if value != 0 {
          KeyPositive(0);
        }
        tval, tkey := Next(tkey, 0);
      }
      if node != null {
        OneBlock();
        OneCount(tower);
        Free(node);
      } else {
        NoCount(tower);
      }
      node := null;
      height := 0;
      tower := [];
      EmptyValid();
    }

    lemma {:induction false} EmptyValid()
      requires tower == [] && node == null && height == 0 && keynum >= 4 && keynum % 2 == 0
      ensures Valid() && Contents() == map[] && Count(tower) == 0
    {
    }
  }
}
