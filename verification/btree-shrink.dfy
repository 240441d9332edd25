/** Removal, merging and root shrinking seen on the whole tower, as the removal routine needs them. */
module BtreeShrink {
  import opened BtreeTower
  import opened BtreeSteps
  import opened BtreeFill
  import opened BtreeNodeSets
  import opened BtreeGrowth

  /** A search for k in the levels from lo up ends at entry q of node j of level lo. */
  ghost predicate Located<N>(t: Tower<N>, root: N, lo: nat, j: nat, q: nat, k: nat) {
    && lo < |t| && j < |t[lo]| && k > 0
    && Covers(Routes(t[lo + 1..], root), j, k) && Routes(t[lo + 1..], root)[j].sep <= k
    && IsPos(t[lo][j].es, k, q) && q < |t[lo][j].es|
  }

  /** Where the entry of node j of level lo is kept. */
  lemma {:induction false} Locate<N>(t: Tower<N>, root: N, K: nat, lo: nat, j: nat, k: nat) returns (j': nat, q': nat)
    requires lo + 1 < |t| && WF(t[lo + 1..], root, K) && UpperNonEmpty(t, lo) && k > 0
    requires Covers(Routes(t[lo + 1..], root), j, k) && Routes(t[lo + 1..], root)[j].sep <= k
    ensures Located(t, root, lo + 1, j', q', k) && Off(t[lo + 1], j') + q' == j
    ensures Tight(Routes(t[lo + 1..], root), k) && Tight(Routes(t[lo + 2..], root), k)
  {
    LevelAt(t, root, K, lo + 1);
    var ups := Routes(t[lo + 2..], root);
    j' := CoverExists(t, root, K, lo + 2, k);
    q' := FindPos(t[lo + 1][j'].es, k);
    TightStep(t[lo + 1], ups, K, j', q', k);
    StepDown(t[lo + 1], ups, j', q', k);
    CoversUnique(Routes(t[lo + 1..], root), j, Off(t[lo + 1], j') + q', k);
  }

  /** Every stored key is found where it is stored. */
  lemma {:induction false} LocatedKey<N>(t: Tower<N>, root: N, K: nat, lo: nat, j: nat, q: nat)
    requires lo < |t| && WF(t[lo..], root, K) && j < |t[lo]| && q < |t[lo][j].es|
    ensures Located(t, root, lo, j, q, t[lo][j].es[q].key)
  {
    LevelAt(t, root, K, lo);
    assert LinkedAt(t[lo], Routes(t[lo + 1..], root), j) && NodeOK(t[lo][j], K);
  }

  lemma {:induction false} LocatedUnique<N>(t: Tower<N>, root: N, K: nat, lo: nat, j: nat, q: nat, j': nat, q': nat, k: nat)
    requires lo < |t| && WF(t[lo..], root, K) && Located(t, root, lo, j, q, k)
    requires j' < |t[lo]| && Covers(Routes(t[lo + 1..], root), j', k) && IsPos(t[lo][j'].es, k, q')
    ensures j' == j && q' == q
  {
    LevelAt(t, root, K, lo);
    CoversUnique(Routes(t[lo + 1..], root), j, j', k);
  }

  // ----- taking an entry out of a node -----

  lemma {:induction false} ShrinkLevel<N>(t: Tower<N>, root: N, K: nat, lo: nat, j: nat, q: nat)
    requires lo < |t| && WF(t[lo..], root, K) && j < |t[lo]| && q < |t[lo][j].es|
    requires |t[lo][j].es| > 1 || lo + 1 == |t|
    ensures var t' := t[lo := Put(t[lo], j, RemoveAt(t[lo][j].es, q))];
      var p := Off(t[lo], j) + q;
      && WF(t'[lo..], root, K)
      && p < |Flat(t[lo])| && Flat(t'[lo]) == RemoveAt(Flat(t[lo]), p)
      && (|t[lo][j].es| > 1 ==> Shrunk(Routes(t[lo..], root), Routes(t'[lo..], root), p, q + 1 < |t[lo][j].es|))
  {
    hide Off; hide LevelRoutes; hide Flat; hide Shrunk;
    var t' := t[lo := Put(t[lo], j, RemoveAt(t[lo][j].es, q))];
    var ups, top := Routes(t[lo + 1..], root), lo + 1 == |t|;
    LevelAt(t, root, K, lo);
    RemoveOK(t[lo], ups, K, top, j, q);
    RemoveFlat(t[lo], j, q);
    if |t[lo][j].es| > 1 {
      RemoveEntry(t[lo], ups, K, top, j, q);
    }
    SuffixStep(t', lo);
    assert t'[lo + 1..] == t[lo + 1..];
  }

  /** The fill facts about a level one of whose nodes just lost entry p. */
  ghost predicate Thinned<N>(lo: nat, level: Level<N>, bg: seq<bool>, h: nat, j: nat) {
    lo > 0 ==>
      && j < |level| && PartOK(level, bg, h) && |bg| == |Flat(level)|
      && (level[j].es != [] ==> HasTrue(Seg(level, bg, j)))
  }

  lemma {:induction false} ShrinkFill<N>(t: Tower<N>, lo: nat, bg: seq<bool>, h: nat, j: nat, q: nat)
    requires lo < |t| && FillOK(t, lo, bg, h) && j < |t[lo]| && q < |t[lo][j].es| && h >= 2
    requires lo > 0 ==> |bg| == |Flat(t[lo])| && MayGo(Seg(t[lo], bg, j), q)
    ensures lo > 0 ==> Off(t[lo], j) + q < |bg|
    ensures var level' := Put(t[lo], j, RemoveAt(t[lo][j].es, q));
      && Thinned(lo, level', if lo > 0 then RemoveAt(bg, Off(t[lo], j) + q) else bg, h, j)
      && BigOK(t[lo + 1..], Sizes(lo, t[lo]), h)
      && (lo > 0 ==> BigOK(t[lo + 1..], Bigs(t[lo]), h) && PartOK(t[lo], bg, h))
  {
    hide BigOK; hide PartOK; hide Flat; hide Seg; hide Off; hide FillOK; hide MayGo; hide HasTrue;
    FillOnOK(t, lo, bg, h);
    if lo > 0 {
      PartRemove(t[lo], bg, h, j, q);
    }
  }

  /** The node kept two entries or more: nothing else to do. */
  lemma {:induction false} ShrinkDone<N>(t': Tower<N>, lo: nat, level: Level<N>, bg': seq<bool>, h: nat, j: nat)
    requires lo < |t'| && j < |t'[lo]| == |level| && Thinned(lo, t'[lo], bg', h, j)
    requires BigOK(t'[lo + 1..], Sizes(lo, level), h)
    requires lo == 0 || (|t'[lo][j].es| >= 2 && t'[lo] == Put(level, j, t'[lo][j].es) && |level[j].es| >= 2)
    ensures FillOK(t', lo, bg', h)
  {
    FillOnOK(t', lo, bg', h);
    assert Sizes(lo, t'[lo]) == Sizes(lo, level);
  }

  /** A top level of one node with one entry offers one route, bounded by 0. */
  lemma {:induction false} TailorRoutes<N>(t: Tower<N>, root: N, root1: N, K: nat, lo: nat)
    requires |t| == lo + 1 && WF(t[lo..], root, K)
    requires |t[lo]| == 1 && |t[lo][0].es| == 1 && t[lo][0].es[0].val == Child(root1)
    ensures Lifted(Routes(t[lo..], root), [Route(0, 0, Child(root1))])
  {
    LevelAt(t, root, K, lo);
    assert t[lo + 1..] == [];
    var ups := Routes(t[lo + 1..], root);
    assert ups == [Route(0, 0, Child(root))];
    hide Routes; hide LevelRoutes; hide Flat; hide WF;
    SingleRoutes(t[lo], ups);
  }

  lemma {:induction false} SingleRoutes<N>(level: Level<N>, ups: seq<Route<N>>)
    requires |level| == |ups| == 1
    ensures LevelRoutes(level, ups) == NodeRoutes(level[0].es, ups[0].elb) && Flat(level) == level[0].es
  {
    FlatEmpty<N>();
    assert level == [] + [level[0]] + [] && ups == [] + [ups[0]] + [];
    RoutesCut([], level[0], [], [], ups[0], []);
    FlatCut([], level[0], []);
  }

  lemma {:induction false} TailorFill<N>(lo: nat, level: Level<N>, bg': seq<bool>, h: nat)
    requires 0 < lo && |level| == 1 && |level[0].es| == 1 && Thinned(lo, level, bg', h, 0)
    ensures bg' == [true]
  {
    var ups: seq<Route<N>> := [Route(0, 0, Null)];
    SingleRoutes(level, ups);
    assert level[..0] == [] && Flat(level[..0]) == [];
    assert Off(level, 0) == 0;
    assert Seg(level, bg', 0) == bg';
  }

  /** The root is left with one child: the child becomes the root. */
  lemma {:induction false} TailorDone<N>(t: Tower<N>, root: N, root1: N, K: nat, lo: nat, r: seq<Route<N>>, p: nat, keep: bool,
                                         bg': seq<bool>, h: nat)
    requires 0 < lo && |t| == lo + 1 && WF(t[lo..], root, K)
    requires |t[lo]| == 1 && |t[lo][0].es| == 1 && t[lo][0].es[0].val == Child(root1)
    requires Shrunk(r, Routes(t[lo..], root), p, keep) && Thinned(lo, t[lo], bg', h, 0)
    ensures t[..lo][lo..] == []
    ensures Shrunk(r, Routes(t[..lo][lo..], root1), p, keep) && FillOK(t[..lo], lo, bg', h)
    ensures WF(t[..lo][lo..], root1, K)
  {
    assert t[..lo][lo..] == [];
    hide Shrunk; hide Thinned; hide LevelRoutes; hide Flat; hide Lifted;
    TailorRoutes(t, root, root1, K, lo);
    assert Routes<N>([], root1) == [Route(0, 0, Child(root1))];
    ShrunkLifted(r, Routes(t[lo..], root), [Route(0, 0, Child(root1))], p, keep);
    TailorFill(lo, t[lo], bg', h);
  }

  // ----- dropping an empty node -----

  /** The sizes handed to the level above when node j is about to go. */
  ghost function Without<N>(lo: nat, level: Level<N>, j: nat): (r: seq<bool>)
    requires j < |level|
    ensures |r| == |level|
  {
    Sizes(lo, level)[j := false]
  }

  lemma {:induction false} DropStart<N>(t: Tower<N>, root: N, K: nat, lo: nat, level0: Level<N>, j: nat, h: nat, jp: nat, qp: nat)
    requires lo + 1 < |t| && j < |t[lo]| == |level0| && |level0[j].es| == 1 && t[lo] == Put(level0, j, [])
    requires BigOK(t[lo + 1..], Sizes(lo, level0), h) && h >= 2
    requires jp < |t[lo + 1]| && qp < |t[lo + 1][jp].es| && Off(t[lo + 1], jp) + qp == j
    ensures FillOK(t, lo + 1, Without(lo, t[lo], j), h)
    ensures |Without(lo, t[lo], j)| == |Flat(t[lo + 1])| && MayGo(Seg(t[lo + 1], Without(lo, t[lo], j), jp), qp)
  {
    hide Flat; hide Off; hide PartOK; hide Windows; hide Seg;
    var inner, bg := t[lo + 1], Sizes(lo, level0);
    SuffixStep(t, lo + 1);
    PartLength(inner, bg, h);
    SegAt(inner, bg, jp);
    SegAt(inner, bg[j := false], jp);
    SegCut(inner, bg, jp, h);
    assert Without(lo, t[lo], j) == bg[j := false];
    SegCut(inner, bg[j := false], jp, h);
    if lo == 0 {
      PartUnset(inner, bg, h, jp, qp);
    } else {
      assert bg[j := false] == bg;
    }
  }

  lemma {:induction false} DropDone<N>(t: Tower<N>, root: N, t1: Tower<N>, root1: N, K: nat, lo: nat, level0: Level<N>, j: nat,
                                       bg': seq<bool>, h: nat)
    requires lo < |t| && lo < |t1| && j < |t[lo]| == |level0| && |level0[j].es| == 1 && t[lo] == Put(level0, j, [])
    requires LevelOK(level0, Routes(t[lo + 1..], root), K, false) && t1[lo] == t[lo]
    requires WF(t1[lo + 1..], root1, K) && Shrunk(Routes(t[lo + 1..], root), Routes(t1[lo + 1..], root1), j, false)
    requires FillOK(t1, lo + 1, RemoveAt(Without(lo, t[lo], j), j), h) && Thinned(lo, t[lo], bg', h, j)
    ensures var t' := t1[lo := RemoveAt(t[lo], j)];
      && WF(t'[lo..], root1, K) && FillOK(t', lo, bg', h)
      && Off(level0, j) < |LevelRoutes(level0, Routes(t[lo + 1..], root))|
      && Shrunk(LevelRoutes(level0, Routes(t[lo + 1..], root)), Routes(t'[lo..], root1), Off(level0, j), false)
      && Flat(t'[lo]) == Flat(t[lo])
  {
    var t' := t1[lo := RemoveAt(t[lo], j)];
    var ups, ups' := Routes(t[lo + 1..], root), Routes(t1[lo + 1..], root1);
    DropShape(t[lo], level0, j);
    hide LevelRoutes; hide Flat; hide Shrunk; hide PartOK;
    DropOK(level0, ups, ups', K, j);
    DropRoutes(level0, ups, ups', j);
    SuffixStep(t', lo);
    assert t'[lo + 1..] == t1[lo + 1..];
    if lo > 0 {
      PartDrop(t[lo], bg', h, j);
    }
    DropSizes(lo, t[lo], j);
    FillOnOK(t', lo, bg', h);
  }

  lemma {:induction false} DropSizes<N>(lo: nat, level: Level<N>, j: nat)
    requires j < |level|
    ensures Sizes(lo, RemoveAt(level, j)) == RemoveAt(Without(lo, level, j), j)
  {
    var a, b := Sizes(lo, RemoveAt(level, j)), RemoveAt(Without(lo, level, j), j);
    forall i | 0 <= i < |a| ensures a[i] == b[i] {
    }
  }

  lemma {:induction false} DropShape<N>(level: Level<N>, level0: Level<N>, j: nat)
    requires j < |level| == |level0| && level == Put(level0, j, [])
    ensures RemoveAt(level, j) == RemoveAt(level0, j)
    ensures Flat(RemoveAt(level, j)) == Flat(level)
  {
    assert level == level[..j] + [level[j]] + level[j+1..];
    FlatCut(level[..j], level[j], level[j+1..]);
    FlatConcat(level[..j], level[j+1..]);
  }

  // ----- merging neighbours -----

  ghost function BothBig(bg: seq<bool>, l: nat): (r: seq<bool>)
    requires l + 1 < |bg|
    ensures |r| == |bg|
  {
    bg[l := true][l + 1 := true]
  }

  /** Before the call for the level above: lnode has taken over the entries, the parent's slots are swapped. */
  lemma {:induction false} MergeStart<N>(t: Tower<N>, t': Tower<N>, root: N, K: nat, lo: nat, l: nat, jp: nat, qp: nat,
                                         bgU: seq<bool>, h: nat)
    requires lo + 1 < |t| && l + 1 < |t[lo]| && WF(t[lo + 1..], root, K)
    requires jp < |t[lo + 1]| && qp + 1 < |t[lo + 1][jp].es| && Off(t[lo + 1], jp) + qp == l
    requires BigOK(t[lo + 1..], bgU, h) && Grown(bgU, BothBig(Sizes(lo, t[lo]), l))
    requires |t'| == |t| && t'[lo + 2..] == t[lo + 2..]
    requires t'[lo + 1] == Put(t[lo + 1], jp, SwapSlots(t[lo + 1][jp].es, qp))
    ensures WF(t'[lo + 1..], root, K)
      && Located(t', root, lo + 1, jp, qp, t[lo + 1][jp].es[qp].key)
      && l + 1 < |Routes(t[lo + 1..], root)|
      && Routes(t'[lo + 1..], root) == SwapVals(Routes(t[lo + 1..], root), l)
      && FillOK(t', lo + 1, BothBig(Sizes(lo, t[lo]), l), h)
      && |Sizes(lo, t[lo])| == |Flat(t'[lo + 1])| && MayGo(Seg(t'[lo + 1], BothBig(Sizes(lo, t[lo]), l), jp), qp)
      && Off(t'[lo + 1], jp) == Off(t[lo + 1], jp)
  {
    hide Flat; hide LevelRoutes; hide BigOK; hide PartOK; hide Off; hide Seg; hide FillOK; hide Located; hide MayGo;
    LevelAt(t, root, K, lo + 1);
    SwapLevel(t[lo + 1], Routes(t[lo + 2..], root), K, lo + 2 == |t|, jp, qp);
    SwapRoutes(t[lo + 1], Routes(t[lo + 2..], root), jp, qp);
    SuffixStep(t', lo + 1);
    SuffixStep(t, lo + 1);
    MergeFill(t, t', lo, l, jp, qp, bgU, h);
    LocatedKey(t', root, K, lo + 1, jp, qp);
  }

  lemma {:induction false} MergeFill<N>(t: Tower<N>, t': Tower<N>, lo: nat, l: nat, jp: nat, qp: nat, bgU: seq<bool>, h: nat)
    requires lo + 1 < |t| && l + 1 < |t[lo]| && jp < |t[lo + 1]| && qp + 1 < |t[lo + 1][jp].es|
    requires Off(t[lo + 1], jp) + qp == l && |t'| == |t| && t'[lo + 2..] == t[lo + 2..]
    requires t'[lo + 1] == Put(t[lo + 1], jp, SwapSlots(t[lo + 1][jp].es, qp))
    requires BigOK(t[lo + 1..], bgU, h) && Grown(bgU, BothBig(Sizes(lo, t[lo]), l))
    ensures FillOK(t', lo + 1, BothBig(Sizes(lo, t[lo]), l), h)
    ensures Off(t'[lo + 1], jp) == Off(t[lo + 1], jp)
    ensures |Sizes(lo, t[lo])| == |Flat(t'[lo + 1])| && MayGo(Seg(t'[lo + 1], BothBig(Sizes(lo, t[lo]), l), jp), qp)
  {
    hide Flat; hide PartOK;
    var bgM := BothBig(Sizes(lo, t[lo]), l);
    SuffixStep(t', lo + 1);
    SuffixStep(t, lo + 1);
    BigGrown(t[lo + 1..], bgU, bgM, h);
    var u, u' := t[lo + 1..], t'[lo + 1..];
    assert u == [t[lo + 1]] + t[lo + 2..] && u' == [t'[lo + 1]] + t[lo + 2..];
    BigSame(u, u', bgM, h);
    PartLength(t'[lo + 1], bgM, h);
    assert t'[lo + 1][..jp] == t[lo + 1][..jp];
    SegCut(t'[lo + 1], bgM, jp, h);
  }

  lemma {:induction false} MergeDone<N>(t: Tower<N>, root: N, t1: Tower<N>, root1: N, K: nat, lo: nat, l: nat, x: nat,
                                        bg': seq<bool>, h: nat)
    requires lo < |t| && lo < |t1| && l + 1 < |t[lo]| && (x == l || x == l + 1)
    requires LevelOK(t[lo], Routes(t[lo + 1..], root), K, false) && Ordered(Routes(t[lo + 1..], root))
    requires |t[lo][l].es| + |t[lo][l + 1].es| <= K && |t[lo][x].es| < h && h >= 2
    requires WF(t1[lo + 1..], root1, K) && Shrunk(SwapVals(Routes(t[lo + 1..], root), l), Routes(t1[lo + 1..], root1), l, true)
    requires FillOK(t1, lo + 1, RemoveAt(BothBig(Sizes(lo, t[lo]), l), l), h) && Thinned(lo, t[lo], bg', h, x)
    ensures var t' := t1[lo := MergeAt(t[lo], l)];
      && WF(t'[lo..], root1, K) && FillOK(t', lo, bg', h)
      && Lifted(LevelRoutes(t[lo], Routes(t[lo + 1..], root)), Routes(t'[lo..], root1))
      && Flat(t'[lo]) == Flat(t[lo])
  {
    var t' := t1[lo := MergeAt(t[lo], l)];
    var ups, ups' := Routes(t[lo + 1..], root), Routes(t1[lo + 1..], root1);
    hide LevelRoutes; hide Flat; hide Shrunk; hide PartOK; hide Lifted; hide Ordered;
    MergeOK(t[lo], ups, ups', K, l);
    MergeRoutes(t[lo], ups, ups', K, l);
    MergeFlat(t[lo], l);
    SuffixStep(t', lo);
    assert t'[lo + 1..] == t1[lo + 1..];
    if lo > 0 {
      PartMerge(t[lo], bg', h, l, x);
    }
    MergeSizes(lo, t[lo], l);
    FillOnOK(t', lo, bg', h);
  }

  lemma {:induction false} MergeSizes<N>(lo: nat, level: Level<N>, l: nat)
    requires l + 1 < |level| && NonEmpty(level)
    ensures Sizes(lo, MergeAt(level, l)) == RemoveAt(BothBig(Sizes(lo, level), l), l)
  {
    var a, b := MergeAt(level, l), RemoveAt(BothBig(Sizes(lo, level), l), l);
    assert level[l].es != [] && level[l + 1].es != [];
    forall i | 0 <= i < |a| ensures Sizes(lo, a)[i] == b[i] {
      if i < l {
        assert a[i] == level[i];
      } else if i > l {
        assert a[i] == level[i + 1];
      }
    }
  }

  // ----- leaving a small node alone -----

  /** No neighbour has room, so a node down to one entry stands between full ones. */
  lemma {:induction false} KeepFill<N>(t: Tower<N>, lo: nat, level0: Level<N>, j: nat, h: nat, jp: nat, qp: nat, bg': seq<bool>)
    requires lo + 1 < |t| && j < |t[lo]| == |level0| && t[lo] == Put(level0, j, t[lo][j].es)
    requires 1 <= |t[lo][j].es| && |t[lo][j].es| + 1 == |level0[j].es| && h >= 2
    requires BigOK(t[lo + 1..], Sizes(lo, level0), h) && Thinned(lo, t[lo], bg', h, j)
    requires jp < |t[lo + 1]| && qp < |t[lo + 1][jp].es| && Off(t[lo + 1], jp) + qp == j
    requires qp > 0 ==> j > 0 && |t[lo][j].es| + |t[lo][j - 1].es| > 2 * h
    requires qp + 1 < |t[lo + 1][jp].es| ==> j + 1 < |t[lo]| && |t[lo][j].es| + |t[lo][j + 1].es| > 2 * h
    ensures FillOK(t, lo, bg', h)
  {
    hide Flat; hide PartOK; hide Off; hide Seg;
    FillOnOK(t, lo, bg', h);
    KeepSizes(t, lo, level0, j, h, jp, qp);
  }

  lemma {:induction false} KeepSizes<N>(t: Tower<N>, lo: nat, level0: Level<N>, j: nat, h: nat, jp: nat, qp: nat)
    requires lo + 1 < |t| && j < |t[lo]| == |level0| && t[lo] == Put(level0, j, t[lo][j].es)
    requires 1 <= |t[lo][j].es| && |t[lo][j].es| + 1 == |level0[j].es| && h >= 2
    requires BigOK(t[lo + 1..], Sizes(lo, level0), h)
    requires jp < |t[lo + 1]| && qp < |t[lo + 1][jp].es| && Off(t[lo + 1], jp) + qp == j
    requires qp > 0 ==> j > 0 && |t[lo][j].es| + |t[lo][j - 1].es| > 2 * h
    requires qp + 1 < |t[lo + 1][jp].es| ==> j + 1 < |t[lo]| && |t[lo][j].es| + |t[lo][j + 1].es| > 2 * h
    ensures BigOK(t[lo + 1..], Sizes(lo, t[lo]), h)
  {
    hide Flat; hide PartOK; hide Off; hide Seg;
    if lo == 0 || |t[lo][j].es| >= 2 {
      assert Sizes(lo, t[lo]) == Sizes(lo, level0);
    } else {
      SuffixStep(t, lo + 1);
      assert PartOK(t[lo + 1], Bigs(level0), h);
      hide BigOK;
      KeepPart(t[lo + 1], t[lo], level0, j, h, jp, qp);
      KeepBig(t, lo, h);
    }
  }

  lemma {:induction false} KeepBig<N>(t: Tower<N>, lo: nat, h: nat)
    requires 0 < lo && lo + 1 < |t| && PartOK(t[lo + 1], Bigs(t[lo]), h) && BigOK(t[lo + 1..][1..], Bigs(t[lo + 1]), h)
    ensures BigOK(t[lo + 1..], Sizes(lo, t[lo]), h)
  {
    hide PartOK;
  }

  lemma {:induction false} KeepPart<N>(inner: Level<N>, level: Level<N>, level0: Level<N>, j: nat, h: nat, jp: nat, qp: nat)
    requires PartOK(inner, Bigs(level0), h) && h >= 2
    requires j < |level| == |level0| && level == Put(level0, j, level[j].es) && |level[j].es| == 1
    requires jp < |inner| && qp < |inner[jp].es| && Off(inner, jp) + qp == j
    requires qp > 0 ==> j > 0 && |level[j].es| + |level[j - 1].es| > 2 * h
    requires qp + 1 < |inner[jp].es| ==> j + 1 < |level| && |level[j].es| + |level[j + 1].es| > 2 * h
    ensures PartOK(inner, Bigs(level), h)
  {
    hide Flat; hide PartOK; hide Off; hide Seg;
    var bg := Bigs(level0);
    PartLength(inner, bg, h);
    SegAt(inner, bg, jp);
    PartUnset(inner, bg, h, jp, qp);
    assert Bigs(level) == bg[j := false];
  }

  lemma {:induction false} SegAt<N>(level: Level<N>, bg: seq<bool>, j: nat)
    requires j < |level| && |bg| == |Flat(level)|
    ensures Off(level, j) + |level[j].es| <= |bg|
    ensures forall i :: 0 <= i < |level[j].es| ==> Seg(level, bg, j)[i] == bg[Off(level, j) + i]
  {
    assert level == level[..j] + [level[j]] + level[j+1..];
    FlatCut(level[..j], level[j], level[j+1..]);
  }

  lemma {:induction false} MergeShape<N>(level: Level<N>, l: nat)
    requires l + 1 < |level|
    ensures RemoveAt(Put(level, l, level[l].es + level[l + 1].es), l + 1) == MergeAt(level, l)
  {
  }

  /** The two slots of the parent name the two neighbours. */
  lemma {:induction false} MergeVals<N>(t: Tower<N>, root: N, K: nat, lo: nat, l: nat, jp: nat, qp: nat)
    requires lo + 1 < |t| && l + 1 < |t[lo]| && WF(t[lo + 1..], root, K) && Linked(t[lo], Routes(t[lo + 1..], root))
    requires jp < |t[lo + 1]| && qp + 1 < |t[lo + 1][jp].es| && Off(t[lo + 1], jp) + qp == l
    ensures t[lo + 1][jp].es[qp].val == Child(t[lo][l].id) && t[lo + 1][jp].es[qp + 1].val == Child(t[lo][l + 1].id)
  {
    hide WF; hide LevelRoutes; hide Flat; hide Off; hide Routes; hide Ordered; hide Desc; hide Put; hide NodesOK;
    LevelAt(t, root, K, lo + 1);
    RouteAt(t[lo + 1], Routes(t[lo + 2..], root), jp, qp);
    RouteAt(t[lo + 1], Routes(t[lo + 2..], root), jp, qp + 1);
    assert LinkedAt(t[lo], Routes(t[lo + 1..], root), l) && LinkedAt(t[lo], Routes(t[lo + 1..], root), l + 1);
  }

  lemma {:induction false} ChildVal<N>(t: Tower<N>, root: N, K: nat, lo: nat, l: nat, jp: nat, qp: nat)
    requires lo + 1 < |t| && WF(t[lo + 1..], root, K) && LevelOK(t[lo], Routes(t[lo + 1..], root), K, false)
    requires jp < |t[lo + 1]| && qp < |t[lo + 1][jp].es| && Off(t[lo + 1], jp) + qp == l
    ensures l < |t[lo]| && t[lo + 1][jp].es[qp].val == Child(t[lo][l].id)
    ensures forall i :: 0 <= i < |t[lo][l].es| ==> t[lo][l].es[i].val != Null
  {
    hide WF; hide LevelRoutes; hide Flat; hide Off; hide Routes; hide Ordered; hide Desc;
    LevelAt(t, root, K, lo + 1);
    RouteAt(t[lo + 1], Routes(t[lo + 2..], root), jp, qp);
    assert LinkedAt(t[lo], Routes(t[lo + 1..], root), l) && NodeOK(t[lo][l], K);
  }

  lemma {:induction false} DropMono<N>(r: seq<Route<N>>, r': seq<Route<N>>, p: nat, keep: bool)
    requires Shrunk(r, r', p, keep) && Ordered(r)
    ensures Shrunk(r, r', p, false)
  {
  }

  lemma {:induction false} SizesGrown<N>(lo: nat, level0: Level<N>, level: Level<N>, j: nat, l: nat)
    requires j < |level0| == |level| && level == Put(level0, j, level[j].es) && l + 1 < |level| && (j == l || j == l + 1)
    ensures Grown(Sizes(lo, level0), BothBig(Sizes(lo, level), l))
  {
  }

  /** A node that still has entries after the loss. */
  lemma {:induction false} Small<N>(t: Tower<N>, root: N, K: nat, lo: nat, level0: Level<N>, j: nat, q: nat)
    requires lo + 1 < |t| && WF(t[lo + 1..], root, K) && LevelOK(level0, Routes(t[lo + 1..], root), K, false)
    requires j < |t[lo]| == |level0| && q < |level0[j].es| && |level0[j].es| > 1
    requires t[lo] == Put(level0, j, RemoveAt(level0[j].es, q))
    ensures LevelOK(t[lo], Routes(t[lo + 1..], root), K, false) && Ordered(Routes(t[lo + 1..], root))
    ensures Shrunk(LevelRoutes(level0, Routes(t[lo + 1..], root)), LevelRoutes(t[lo], Routes(t[lo + 1..], root)),
                   Off(level0, j) + q, q + 1 < |level0[j].es|)
    ensures |t[lo]| == |Routes(t[lo + 1..], root)| && Linked(t[lo], Routes(t[lo + 1..], root))
  {
    var ups := Routes(t[lo + 1..], root);
    RoutesOrdered(t[lo + 1..], root, K);
    hide Off; hide LevelRoutes; hide Flat; hide Shrunk;
    RemoveOK(level0, ups, K, false, j, q);
    RemoveEntry(level0, ups, K, false, j, q);
  }

  lemma {:induction false} SmallDone<N>(t: Tower<N>, root: N, lo: nat, level0: Level<N>, j: nat, q: nat, r: seq<Route<N>>)
    requires lo + 1 < |t| && j < |level0| && q < |level0[j].es|
    requires Shrunk(LevelRoutes(level0, Routes(t[lo + 1..], root)), LevelRoutes(t[lo], Routes(t[lo + 1..], root)),
                    Off(level0, j) + q, q + 1 < |level0[j].es|)
    requires Lifted(LevelRoutes(t[lo], Routes(t[lo + 1..], root)), r)
    ensures Shrunk(LevelRoutes(level0, Routes(t[lo + 1..], root)), r, Off(level0, j) + q, q + 1 < |level0[j].es|)
  {
    ShrunkLifted(LevelRoutes(level0, Routes(t[lo + 1..], root)), LevelRoutes(t[lo], Routes(t[lo + 1..], root)), r,
                 Off(level0, j) + q, q + 1 < |level0[j].es|);
  }

  lemma {:induction false} SmallKept<N>(t: Tower<N>, root: N, K: nat, lo: nat, level0: Level<N>, j: nat, q: nat)
    requires lo + 1 < |t| && WF(t[lo + 1..], root, K) && LevelOK(t[lo], Routes(t[lo + 1..], root), K, false)
    requires j < |level0| && q < |level0[j].es|
    requires Shrunk(LevelRoutes(level0, Routes(t[lo + 1..], root)), LevelRoutes(t[lo], Routes(t[lo + 1..], root)),
                    Off(level0, j) + q, q + 1 < |level0[j].es|)
    ensures WF(t[lo..], root, K)
    ensures Shrunk(LevelRoutes(level0, Routes(t[lo + 1..], root)), Routes(t[lo..], root),
                   Off(level0, j) + q, q + 1 < |level0[j].es|)
  {
    SuffixStep(t, lo);
  }

  /** The entries of an inner level all point to nodes. */
  ghost predicate AllChild<N>(level: Level<N>) {
    forall i, q :: 0 <= i < |level| && 0 <= q < |level[i].es| ==> level[i].es[q].val.Child?
  }

  lemma {:induction false} InnerChild<N>(t: Tower<N>, root: N, K: nat, lo: nat, level: Level<N>)
    requires lo + 1 < |t| && WF(t[lo + 1..], root, K) && Linked(level, Routes(t[lo + 1..], root))
    ensures AllChild(t[lo + 1])
  {
    LevelAt(t, root, K, lo + 1);
    var inner := t[lo + 1];
    forall i, q | 0 <= i < |inner| && 0 <= q < |inner[i].es| ensures inner[i].es[q].val.Child? {
      RouteAt(inner, Routes(t[lo + 2..], root), i, q);
      assert LinkedAt(level, Routes(t[lo + 1..], root), Off(inner, i) + q);
    }
  }

  lemma {:induction false} SwapChild<N>(level: Level<N>, j: nat, q: nat)
    requires AllChild(level) && j < |level| && q + 1 < |level[j].es|
    ensures AllChild(Put(level, j, SwapSlots(level[j].es, q)))
  {
  }

  /** A root above the leaves has two entries or more. */
  lemma {:induction false} RootTwo<N>(t: Tower<N>, root: N, K: nat, lo: nat, h: nat)
    requires 0 < lo && |t| == lo + 1 && WF(t[lo..], root, K) && BigOK(t[lo + 1..], Sizes(lo, t[lo]), h)
    ensures |t[lo]| == 1 && |t[lo][0].es| >= 2
  {
    LevelAt(t, root, K, lo);
    assert t[lo + 1..] == [] && Sizes(lo, t[lo]) == [true];
    assert Bigs(t[lo])[0];
  }

  lemma {:induction false} TopOne<N>(t: Tower<N>, root: N, K: nat, lo: nat)
    requires |t| == lo + 1 && WF(t[lo..], root, K)
    ensures |t[lo]| == 1 && t[lo][0].id == root
  {
    LevelAt(t, root, K, lo);
    assert t[lo + 1..] == [];
    assert LinkedAt(t[lo], Routes(t[lo + 1..], root), 0);
  }

  /** Above the leaves the key to remove is already covered, so the walk lowers nothing. */
  lemma {:induction false} WalkStart<N>(t: Tower<N>, root: N, K: nat, lo: nat, bg: seq<bool>, h: nat, j: nat, q: nat, k: nat)
    requires lo < |t| && WF(t[lo..], root, K) && FillOK(t, lo, bg, h)
    requires lo > 0 ==> Located(t, root, lo, j, q, k)
    ensures UpperNonEmpty(t, lo) && FillOn(t, lo, bg, h, false)
    ensures lo > 0 ==> Tight(Routes(t[lo + 1..], root), k)
  {
    FillOnOK(t, lo, bg, h);
    FillNonEmpty(t, root, K, lo, bg, h);
  }

  /** Around taking entry q out of node j: what the rebalancing works on. */
  lemma {:induction false} EvictStart<N>(t: Tower<N>, root: N, K: nat, lo: nat, bg: seq<bool>, h: nat, j: nat, q: nat)
    requires lo + 1 < |t| && WF(t[lo..], root, K) && FillOK(t, lo, bg, h) && UpperNonEmpty(t, lo)
    requires j < |t[lo]| && q < |t[lo][j].es| && h >= 2
    ensures LevelOK(t[lo], Routes(t[lo + 1..], root), K, false) && WF(t[lo + 1..], root, K)
    ensures Routes(t[lo..], root) == LevelRoutes(t[lo], Routes(t[lo + 1..], root))
    ensures q + 1 < |t[lo][j].es| ==>
      var k := t[lo][j].es[q + 1].key;
      k > 0 && Covers(Routes(t[lo + 1..], root), j, k) && Routes(t[lo + 1..], root)[j].sep <= k
    ensures BigOK(t[lo + 1..], Sizes(lo, t[lo]), h)
  {
    FillOnOK(t, lo, bg, h);
    FillNonEmpty(t, root, K, lo, bg, h);
    LevelAt(t, root, K, lo);
    if q + 1 < |t[lo][j].es| {
      LocatedKey(t, root, K, lo, j, q + 1);
    }
  }

  lemma {:induction false} FoundAt<N>(t: Tower<N>, root: N, K: nat, lo: nat, j: nat, q: nat)
    requires lo < |t| && WF(t[lo..], root, K) && j < |t[lo]| && q < |t[lo][j].es|
    ensures Off(t[lo], j) + q < |Flat(t[lo])| && Flat(t[lo])[Off(t[lo], j) + q] == t[lo][j].es[q]
    ensures t[lo][j].es[q].key > 0
  {
    LevelAt(t, root, K, lo);
    assert NodeOK(t[lo][j], K);
    RouteAt(t[lo], Routes(t[lo + 1..], root), j, q);
  }

  lemma {:induction false} EvictTop<N>(t: Tower<N>, root: N, K: nat, lo: nat, h: nat)
    requires |t| == lo + 1 && WF(t[lo..], root, K) && BigOK(t[lo + 1..], Sizes(lo, t[lo]), h)
    ensures |t[lo]| == 1 && t[lo][0].id == root && (lo > 0 ==> |t[lo][0].es| >= 2)
  {
    TopOne(t, root, K, lo);
    if lo > 0 {
      RootTwo(t, root, K, lo, h);
    }
  }

  lemma {:induction false} TailorUse<N>(t: Tower<N>, t1: Tower<N>, lo: nat, q: nat)
    requires lo < |t| && |t[lo]| == 1 && |t[lo][0].es| == 2 && q < 2 && AllChild(t[lo])
    requires t1 == t[lo := Put(t[lo], 0, RemoveAt(t[lo][0].es, q))]
    ensures |t1[lo]| == 1 && |t1[lo][0].es| == 1 && t1[lo][0].es[0].val.Child?
  {
    assert t[lo][0].es[1 - q].val.Child?;
  }
}
