/** Insertion and splitting seen on the whole tower, as the insertion routine needs them. */
module BtreeGrowth {
  import opened BtreeTower
  import opened BtreeSteps
  import opened BtreeFill
  import opened BtreeNodeSets

  /** Every level above lo has entries in every node. */
  ghost predicate UpperNonEmpty<N>(t: Tower<N>, lo: nat) {
    forall l :: lo < l < |t| ==> NonEmpty(t[l])
  }

  /** The top level is the root alone, with entries: it can be put under a new root. */
  ghost predicate RootReady<N>(t: Tower<N>, root: N) {
    t != [] && |t[|t| - 1]| == 1 && t[|t| - 1][0].id == root && t[|t| - 1][0].es != []
  }

  ghost function LastKey<N>(g: View<N>): nat
    requires g.es != []
  {
    g.es[|g.es| - 1].key
  }

  /** The entries an insertion at level lo goes into; a level that does not exist yet is about to be
      created with the root as its only child. */
  ghost function FlatIn<N>(t: Tower<N>, root: N, lo: nat): seq<Entry<N>>
    requires lo <= |t|
  {
    if lo < |t| then Flat(t[lo])
    else if RootReady(t, root) then [Entry(LastKey(t[lo - 1][0]), Child(root))] else []
  }

  ghost function RoutesIn<N>(t: Tower<N>, root: N, lo: nat): seq<Route<N>>
    requires lo <= |t|
  {
    if lo < |t| then Routes(t[lo..], root)
    else if RootReady(t, root) then [Route(LastKey(t[lo - 1][0]), 0, Child(root))] else []
  }

  /** The key belongs strictly above the separator of the route that covers it. */
  ghost predicate Fits<N>(r: seq<Route<N>>, key: nat) {
    exists p: nat :: Covers(r, p, key) && r[p].sep < key
  }

  lemma {:induction false} ExtendOK<N>(t: Tower<N>, root: N, root': N, K: nat, key: nat)
    requires RootReady(t, root) && key > 0 && K >= 1 && key == LastKey(t[|t| - 1][0])
    ensures var t' := t + [[View(root', [Entry(key, Child(root))])]];
      && WF(t'[|t|..], root', K)
      && Routes(t'[|t|..], root') == RoutesIn(t, root, |t|)
      && Flat(t'[|t|]) == FlatIn(t, root, |t|)
  {
    var g := View(root', [Entry(key, Child(root))]);
    var t' := t + [[g]];
    assert t'[|t|..] == [[g]] && [[g]][1..] == [];
    assert LinkedAt([g], Routes<N>([], root'), 0);
    assert LevelRoutes([g], Routes<N>([], root')) == NodeRoutes(g.es, 0) + LevelRoutes([], []) == NodeRoutes(g.es, 0);
    assert Flat([g]) == g.es + Flat([]) == g.es;
  }

  lemma {:induction false} ExtendEmpty<N>(root: N, K: nat)
    ensures WF([[View(root, [])]], root, K) && Flat<N>([View(root, [])]) == []
    ensures Routes([[View(root, [])]], root) == []
  {
    var g: View<N> := View(root, []);
    assert [[g]][1..] == [];
    assert LinkedAt([g], Routes<N>([], root), 0);
    assert Flat([g]) == g.es + Flat([]) == [];
    assert LevelRoutes([g], Routes<N>([], root)) == NodeRoutes(g.es, 0) + LevelRoutes([], []) == [];
  }

  lemma {:induction false} AddedLeaf<N>(root: N, K: nat, bg: seq<bool>, h: nat)
    ensures var t: Tower<N> := [[View(root, [])]];
      && t[0..] == t && t[..0] == [] && Count(t) == 1
      && WF(t, root, K) && FillOn(t, 0, bg, h, false) && UpperNonEmpty(t, 0) && Flat(t[0]) == []
  {
    ExtendEmpty(root, K);
    var t: Tower<N> := [[View(root, [])]];
    assert t[1..] == [];
    assert Count(t[1..]) == 0;
    assert AllBig(1) == [true];
  }

  lemma {:induction false} AddedRoot<N>(t: Tower<N>, root: N, root': N, K: nat, bg: seq<bool>, h: nat)
    requires RootReady(t, root) && NodeOK(t[|t| - 1][0], K) && K >= 1 && FillOK(t, |t|, bg, h)
    ensures var t' := t + [[View(root', [Entry(LastKey(t[|t| - 1][0]), Child(root))])]];
      && t'[..|t|] == t && Count(t') == Count(t) + 1
      && WF(t'[|t|..], root', K) && FillOn(t', |t|, bg, h, true) && UpperNonEmpty(t', |t|) && NonEmpty(t'[|t|])
      && Routes(t'[|t|..], root') == RoutesIn(t, root, |t|) && Flat(t'[|t|]) == FlatIn(t, root, |t|)
  {
    var top := [View(root', [Entry(LastKey(t[|t| - 1][0]), Child(root))])];
    ExtendOK(t, root, root', K, LastKey(t[|t| - 1][0]));
    CountConcat(t, [top]);
    var one: Tower<N> := [top];
    assert one[1..] == [] && Count(one[1..]) == 0;
    assert t[|t|..] == [] && bg == [true];
    assert [true][..1] == [true] && [true][1..] == [] && top[1..] == [];
  }

  // ----- inserting into a node with room -----

  lemma {:induction false} GrowLevel<N>(t: Tower<N>, root: N, K: nat, lo: nat, j: nat, q: nat, e: Entry<N>)
    requires lo < |t| && WF(t[lo..], root, K) && j < |t[lo]|
    requires Covers(Routes(t[lo + 1..], root), j, e.key) && Routes(t[lo + 1..], root)[j].sep <= e.key
    requires |t[lo][j].es| < K && e.key > 0 && e.val != Null
    requires IsPos(t[lo][j].es, e.key, q) && (q < |t[lo][j].es| ==> t[lo][j].es[q].key != e.key)
    ensures var t' := t[lo := Put(t[lo], j, InsertAt(t[lo][j].es, q, e))];
      var p := Off(t[lo], j) + q;
      && WF(t'[lo..], root, K)
      && p <= |Flat(t[lo])| == |Routes(t[lo..], root)|
      && Flat(t'[lo]) == InsertAt(Flat(t[lo]), p, e)
      && (q < |t[lo][j].es| ==>
            Routes(t'[lo..], root) == InsertAt(Routes(t[lo..], root), p, Route(e.key, e.key, e.val)))
  {
    hide Off; hide LevelRoutes; hide Flat; hide Covers;
    var t' := t[lo := Put(t[lo], j, InsertAt(t[lo][j].es, q, e))];
    var ups, top := Routes(t[lo + 1..], root), lo + 1 == |t|;
    LevelAt(t, root, K, lo);
    InsertOK(t[lo], ups, K, top, j, q, e);
    InsertEntry(t[lo], ups, K, top, j, q, e);
    SuffixStep(t', lo);
    assert t'[lo + 1..] == t[lo + 1..];
  }

  /** Above the leaves the new entry never becomes the last one of its node. */
  lemma {:induction false} FitsInside<N>(t: Tower<N>, root: N, K: nat, lo: nat, j: nat, q: nat, key: nat)
    requires lo < |t| && WF(t[lo..], root, K) && j < |t[lo]| && NonEmpty(t[lo])
    requires Covers(Routes(t[lo + 1..], root), j, key) && IsPos(t[lo][j].es, key, q)
    requires Fits(Routes(t[lo..], root), key)
    ensures q < |t[lo][j].es| && t[lo][j].es[q].key < key
    ensures Covers(Routes(t[lo..], root), Off(t[lo], j) + q, key)
  {
    hide WF; hide Routes; hide LevelRoutes; hide Off; hide Flat; hide Desc; hide Ordered;
    var r, ups := Routes(t[lo..], root), Routes(t[lo + 1..], root);
    LevelAt(t, root, K, lo);
    var p: nat :| Covers(r, p, key) && r[p].sep < key;
    TightStep(t[lo], ups, K, j, q, key);
    StepDown(t[lo], ups, j, q, key);
    CoversUnique(r, p, Off(t[lo], j) + q, key);
    RouteAt(t[lo], ups, j, q);
  }

  lemma {:induction false} FoundIn<N>(t: Tower<N>, root: N, K: nat, lo: nat, j: nat, q: nat, key: nat)
    requires lo < |t| && WF(t[lo..], root, K) && j < |t[lo]| && q < |t[lo][j].es| && t[lo][j].es[q].key == key
    ensures Off(t[lo], j) + q < |Flat(t[lo])| && Flat(t[lo])[Off(t[lo], j) + q] == t[lo][j].es[q]
    ensures Covers(Routes(t[lo + 1..], root), j, key) && IsPos(t[lo][j].es, key, q) && lo > 0 && NonEmpty(t[lo])
      ==> !Fits(Routes(t[lo..], root), key)
  {
    LevelAt(t, root, K, lo);
    RouteAt(t[lo], Routes(t[lo + 1..], root), j, q);
    if Covers(Routes(t[lo + 1..], root), j, key) && IsPos(t[lo][j].es, key, q) && NonEmpty(t[lo])
       && Fits(Routes(t[lo..], root), key) {
      FitsInside(t, root, K, lo, j, q, key);
    }
  }

  /** The search in the covering node decides for the whole level. */
  lemma {:induction false} AbsentIn<N>(t: Tower<N>, root: N, K: nat, lo: nat, j: nat, q: nat, key: nat)
    requires lo < |t| && WF(t[lo..], root, K) && j < |t[lo]|
    requires Covers(Routes(t[lo + 1..], root), j, key) && IsPos(t[lo][j].es, key, q)
    requires q < |t[lo][j].es| ==> t[lo][j].es[q].key != key
    ensures forall i :: 0 <= i < |Flat(t[lo])| ==>
      if i < Off(t[lo], j) + q then Flat(t[lo])[i].key > key else Flat(t[lo])[i].key < key
    ensures Off(t[lo], j) + q <= |Flat(t[lo])|
  {
    LevelAt(t, root, K, lo);
    CutAt(t[lo], Routes(t[lo + 1..], root), j);
    PosInLevel(t[lo], Routes(t[lo + 1..], root), K, j, q, key);
  }

  /** The fill invariant while an insertion is on its way; a root just created holds a single entry. */
  ghost predicate FillOn<N>(t: Tower<N>, lo: nat, bg: seq<bool>, h: nat, created: bool)
    requires lo < |t|
  {
    && (lo > 0 ==> PartOK(t[lo], bg, h))
    && (if created then |t| == lo + 1 && lo > 0 && |t[lo]| == 1 && |t[lo][0].es| == 1
        else BigOK(t[lo + 1..], Sizes(lo, t[lo]), h))
  }

  lemma {:induction false} FillOnOK<N>(t: Tower<N>, lo: nat, bg: seq<bool>, h: nat)
    requires lo < |t|
    ensures FillOK(t, lo, bg, h) <==> FillOn(t, lo, bg, h, false)
  {
    SuffixStep(t, lo);
  }

  lemma {:induction false} GrowFill<N>(t: Tower<N>, lo: nat, bg: seq<bool>, h: nat, created: bool, j: nat, q: nat, e: Entry<N>)
    requires lo < |t| && FillOn(t, lo, bg, h, created) && j < |t[lo]| && q <= |t[lo][j].es| && h >= 2
    requires lo > 0 ==> t[lo][j].es != []
    ensures var t' := t[lo := Put(t[lo], j, InsertAt(t[lo][j].es, q, e))];
      && (lo > 0 ==> Off(t[lo], j) + q <= |bg|)
      && FillOn(t', lo, if lo > 0 then InsertAt(bg, Off(t[lo], j) + q, true) else bg, h, false)
  {
    hide BigOK; hide PartOK; hide Off;
    var t' := t[lo := Put(t[lo], j, InsertAt(t[lo][j].es, q, e))];
    assert t'[lo + 1..] == t[lo + 1..];
    if lo > 0 {
      PartInsert(t[lo], bg, h, j, q, e);
    }
    if created {
      assert Sizes(lo, t'[lo]) == [true] && t'[lo + 1..] == [];
      BigTop<N>(h);
    } else {
      BigGrown(t[lo + 1..], Sizes(lo, t[lo]), Sizes(lo, t'[lo]), h);
    }
  }

  lemma {:induction false} BigTop<N>(h: nat)
    ensures BigOK<N>([], [true], h)
  {
  }

  // ----- splitting -----

  /** The new node's separator, the last key of the upper half, fits into the level above. */
  lemma {:induction false} HalfFits<N>(t: Tower<N>, root: N, K: nat, lo: nat, j: nat, h: nat)
    requires lo < |t| && WF(t[lo..], root, K) && j < |t[lo]| && 0 < h < |t[lo][j].es|
    requires UpperNonEmpty(t, lo) && NonEmpty(t[lo])
    ensures var hk := t[lo][j].es[h - 1].key;
      && hk > 0
      && Covers(RoutesIn(t, root, lo + 1), j, hk) && RoutesIn(t, root, lo + 1)[j].sep < hk
      && (lo + 1 == |t| ==> RootReady(t, root) && j == 0)
      && LevelOK(t[lo], RoutesIn(t, root, lo + 1), K, false)
      && Ordered(RoutesIn(t, root, lo + 1))
      && Routes(t[lo..], root) == LevelRoutes(t[lo], RoutesIn(t, root, lo + 1))
  {
    var ups := Routes(t[lo + 1..], root);
    LevelAt(t, root, K, lo);
    assert LinkedAt(t[lo], ups, j) && NodeOK(t[lo][j], K);
    if lo + 1 == |t| {
      assert t[lo + 1..] == [];
      var r := RoutesIn(t, root, lo + 1);
      assert LinkedAt(t[lo], r, 0);
      RoutesByBound(t[lo], ups, r);
    }
  }

  /** The two halves of a split node share its keys at the separator. */
  lemma {:induction false} SplitCover<N>(ups: seq<Route<N>>, j: nat, x: Route<N>, key: nat)
    requires Covers(ups, j, key) && (j > 0 ==> x.elb < ups[j - 1].elb) && ups[j].elb <= x.elb
    ensures Covers(InsertAt(ups, j, x), if key >= x.elb then j else j + 1, key)
  {
  }

  /** t1 is the tower after the new separator went into the levels above lo. */
  lemma {:induction false} SplitTower<N>(t: Tower<N>, root: N, t1: Tower<N>, root1: N, K: nat, lo: nat, j: nat, h: nat, new_: N)
    requires lo < |t| && WF(t[lo..], root, K) && j < |t[lo]| && 0 < h < |t[lo][j].es|
    requires UpperNonEmpty(t, lo) && NonEmpty(t[lo])
    requires lo < |t1| && t1[lo] == t[lo] && WF(t1[lo + 1..], root1, K)
    requires j <= |RoutesIn(t, root, lo + 1)|
    requires Routes(t1[lo + 1..], root1)
          == InsertAt(RoutesIn(t, root, lo + 1), j, Route(t[lo][j].es[h - 1].key, t[lo][j].es[h - 1].key, Child(new_)))
    ensures var t' := t1[lo := SplitAt(t[lo], j, h, new_)];
      && WF(t'[lo..], root1, K)
      && Routes(t'[lo..], root1) == Routes(t[lo..], root)
      && Flat(t'[lo]) == Flat(t[lo])
      && NonEmpty(t'[lo])
  {
    var base := RoutesIn(t, root, lo + 1);
    HalfFits(t, root, K, lo, j, h);
    hide LevelRoutes; hide RoutesIn; hide Covers; hide Flat; hide SplitAt;
    SplitOK(t[lo], base, K, j, h, new_);
    SplitRoutes(t[lo], base, K, j, h, new_);
    var t' := t1[lo := SplitAt(t[lo], j, h, new_)];
    SuffixStep(t', lo);
    assert t'[lo + 1..] == t1[lo + 1..];
  }

  lemma {:induction false} SplitFill<N>(t1: Tower<N>, level: Level<N>, lo: nat, bg: seq<bool>, h: nat, j: nat, new_: N)
    requires lo < |t1| && j < |level| && |level[j].es| == 2 * h && h >= 2
    requires lo > 0 ==> PartOK(level, bg, h)
    requires BigOK(t1[lo + 1..], InsertAt(Sizes(lo, level), j, true), h)
    ensures FillOn(t1[lo := SplitAt(level, j, h, new_)], lo, bg, h, false)
  {
    hide BigOK; hide PartOK;
    var t' := t1[lo := SplitAt(level, j, h, new_)];
    assert t'[lo + 1..] == t1[lo + 1..];
    if lo > 0 {
      PartSplit(level, bg, h, j, new_);
    }
    assert Sizes(lo, t'[lo]) == InsertAt(Sizes(lo, level), j, true);
  }

  /** Inner roots have two entries or more, so no level of a tower of two or more levels has empty nodes. */
  lemma {:induction false} FillNonEmpty<N>(t: Tower<N>, root: N, K: nat, lo: nat, bg: seq<bool>, h: nat)
    requires lo < |t| && WF(t[lo..], root, K) && FillOn(t, lo, bg, h, false)
    ensures UpperNonEmpty(t, lo)
    ensures lo > 0 || |t| > 1 ==> NonEmpty(t[lo])
    decreases |t| - lo
  {
    LevelAt(t, root, K, lo);
    if lo + 1 < |t| {
      SuffixStep(t, lo + 1);
      FillNonEmpty(t, root, K, lo + 1, Sizes(lo, t[lo]), h);
    } else if lo > 0 {
      assert t[lo + 1..] == [];
      assert Bigs(t[lo]) == [true];
      assert |t[lo][0].es| >= 2;
    }
  }

  // ----- the round of a split, before and after the call for the level above -----

  lemma {:induction false} SplitStart<N>(t: Tower<N>, root: N, K: nat, lo: nat, j: nat, h: nat, bg: seq<bool>)
    requires lo < |t| && WF(t[lo..], root, K) && j < |t[lo]| && 0 < h < |t[lo][j].es|
    requires FillOn(t, lo, bg, h, false)
    ensures t[lo][j].es[h - 1].key > 0 && Fits(RoutesIn(t, root, lo + 1), t[lo][j].es[h - 1].key)
    ensures WF(t[lo + 1..], root, K) && FillOK(t, lo + 1, Sizes(lo, t[lo]), h)
    ensures lo + 1 == |t| ==> RootReady(t, root) && NodeOK(t[lo][0], K)
  {
    SplitNonEmpty(t, root, K, lo, j, bg, h);
    HalfFits(t, root, K, lo, j, h);
    LevelAt(t, root, K, lo);
  }

  lemma {:induction false} SplitNonEmpty<N>(t: Tower<N>, root: N, K: nat, lo: nat, j: nat, bg: seq<bool>, h: nat)
    requires lo < |t| && WF(t[lo..], root, K) && FillOn(t, lo, bg, h, false)
    requires j < |t[lo]| && t[lo][j].es != []
    ensures UpperNonEmpty(t, lo) && NonEmpty(t[lo])
  {
    FillNonEmpty(t, root, K, lo, bg, h);
    LevelAt(t, root, K, lo);
    if lo + 1 == |t| {
      assert t[lo + 1..] == [];
    }
  }

  lemma {:induction false} SplitFailed<N>(t: Tower<N>, root: N, t1: Tower<N>, K: nat, lo: nat, bg: seq<bool>, h: nat)
    requires lo < |t| == |t1| && WF(t[lo..], root, K) && FillOn(t, lo, bg, h, false)
    requires t1[lo] == t[lo] && WF(t1[lo + 1..], root, K) && FillOK(t1, lo + 1, Sizes(lo, t[lo]), h)
    requires lo + 1 < |t| ==> Routes(t1[lo + 1..], root) == Routes(t[lo + 1..], root)
    ensures WF(t1[lo..], root, K) && FillOn(t1, lo, bg, h, false) && Routes(t1[lo..], root) == Routes(t[lo..], root)
  {
    LevelAt(t, root, K, lo);
    SuffixStep(t1, lo);
    if lo + 1 == |t| {
      assert t[lo + 1..] == [] == t1[lo + 1..];
    }
  }

  lemma {:induction false} SplitDone<N>(t: Tower<N>, root: N, t1: Tower<N>, root1: N, K: nat, lo: nat, j: nat, h: nat,
                                        p: nat, new_: N, bg: seq<bool>)
    requires lo < |t| && WF(t[lo..], root, K) && FillOn(t, lo, bg, h, false) && h >= 2
    requires j < |t[lo]| && |t[lo][j].es| == 2 * h
    requires lo < |t1| && t1[lo] == t[lo] && WF(t1[lo + 1..], root1, K)
    requires var hk := t[lo][j].es[h - 1].key;
      (Covers(RoutesIn(t, root, lo + 1), p, hk)
       && Routes(t1[lo + 1..], root1) == InsertAt(RoutesIn(t, root, lo + 1), p, Route(hk, hk, Child(new_))))
    requires p <= |t[lo]| && FillOK(t1, lo + 1, InsertAt(Sizes(lo, t[lo]), p, true), h)
    ensures p == j && j < |RoutesIn(t, root, lo + 1)|
    ensures var t' := t1[lo := SplitAt(t[lo], j, h, new_)];
      && WF(t'[lo..], root1, K) && FillOn(t', lo, bg, h, false)
      && Routes(t'[lo..], root1) == Routes(t[lo..], root) && Flat(t'[lo]) == Flat(t[lo])
  {
    SplitNonEmpty(t, root, K, lo, j, bg, h);
    HalfFits(t, root, K, lo, j, h);
    hide WF; hide BigOK; hide PartOK; hide RoutesIn; hide Routes; hide Flat; hide SplitAt;
    CoversUnique(RoutesIn(t, root, lo + 1), p, j, t[lo][j].es[h - 1].key);
    SplitTower(t, root, t1, root1, K, lo, j, h, new_);
    SplitFill(t1, t[lo], lo, bg, h, j, new_);
  }

  lemma {:induction false} SplitWhere<N>(t: Tower<N>, root: N, t1: Tower<N>, root1: N, K: nat, lo: nat, j: nat, h: nat,
                                         new_: N, key: nat) returns (j2: nat)
    requires lo < |t| && WF(t[lo..], root, K) && j < |t[lo]| && 0 < h && |t[lo][j].es| == 2 * h
    requires UpperNonEmpty(t, lo)
    requires lo < |t1| && t1[lo] == t[lo] && Covers(Routes(t[lo + 1..], root), j, key)
    requires j < |RoutesIn(t, root, lo + 1)|
    requires var hk := t[lo][j].es[h - 1].key;
      Routes(t1[lo + 1..], root1) == InsertAt(RoutesIn(t, root, lo + 1), j, Route(hk, hk, Child(new_)))
    ensures var t' := t1[lo := SplitAt(t[lo], j, h, new_)];
      j2 < |t'[lo]| && |t'[lo][j2].es| == h && Covers(Routes(t'[lo + 1..], root1), j2, key)
  {
    var ups, base, hk := Routes(t[lo + 1..], root), RoutesIn(t, root, lo + 1), t[lo][j].es[h - 1].key;
    LevelAt(t, root, K, lo);
    assert LinkedAt(t[lo], ups, j) && NodeOK(t[lo][j], K);
    if lo + 1 == |t| {
      assert t[lo + 1..] == [] && |t[lo]| == 1;
      assert LinkedAt(t[lo], ups, 0);
    }
    assert Covers(base, j, key);
    SplitCover(base, j, Route(hk, hk, Child(new_)), key);
    j2 := if key >= hk then j else j + 1;
    var t' := t1[lo := SplitAt(t[lo], j, h, new_)];
    assert t'[lo + 1..] == t1[lo + 1..];
  }
}
