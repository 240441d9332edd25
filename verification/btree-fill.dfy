/** The fill invariant that keeps an inner root from ever running empty.

    Deletion merges a node that falls below h = keynum / 2 entries with a neighbour when the two fit into
    one node, and never moves single entries between neighbours.  So a node may be left with one entry,
    even next to other such nodes.  What does hold: every inner node with two or more children has a child
    with at least two entries among its first h children, and one among its last h.  A child is "big"
    when it holds two or more entries; leaves always count as big, for a leaf root may run empty.
    The root of a tree of two or more levels is itself big. */
module BtreeFill {
  import opened BtreeTower
  import opened BtreeSteps

  ghost predicate Windows(s: seq<bool>, h: nat) {
    |s| >= 2 ==>
      && (exists i :: 0 <= i < |s| && i < h && s[i])
      && (exists i :: 0 <= i < |s| && i >= |s| - h && s[i])
  }

  /** bg tells for every entry of the level whether the child it points to is big. */
  ghost predicate PartOK<N>(level: Level<N>, bg: seq<bool>, h: nat) {
    if level == [] then bg == []
    else
      var n := |level[0].es|;
      n <= |bg| && Windows(bg[..n], h) && PartOK(level[1..], bg[n..], h)
  }

  ghost function Bigs<N>(level: Level<N>): (r: seq<bool>)
    ensures |r| == |level|
  {
    seq(|level|, i requires 0 <= i < |level| => |level[i].es| >= 2)
  }

  ghost function AllBig(n: nat): (r: seq<bool>)
    ensures |r| == n
  {
    seq(n, i => true)
  }

  /** What the nodes of level number lo count as for the level above. */
  ghost function Sizes<N>(lo: nat, level: Level<N>): (r: seq<bool>)
    ensures |r| == |level|
  {
    if lo == 0 then AllBig(|level|) else Bigs(level)
  }

  ghost predicate BigOK<N>(u: Tower<N>, bg: seq<bool>, h: nat) {
    if u == [] then bg == [true] else PartOK(u[0], bg, h) && BigOK(u[1..], Bigs(u[0]), h)
  }

  /** The invariant from level lo up; the entries of level lo itself point to children sized bg. */
  ghost predicate FillOK<N>(t: Tower<N>, lo: nat, bg: seq<bool>, h: nat)
    requires lo <= |t|
  {
    if lo == 0 then (t != [] ==> BigOK(t[1..], AllBig(|t[0]|), h)) else BigOK(t[lo..], bg, h)
  }

  // ----- cutting a level at a node -----

  lemma {:induction false} PartLength<N>(level: Level<N>, bg: seq<bool>, h: nat)
    requires PartOK(level, bg, h)
    ensures |bg| == |Flat(level)|
  {
    if level != [] {
      PartLength(level[1..], bg[|level[0].es|..], h);
    }
  }

  lemma {:induction false} PartConcat<N>(a: Level<N>, b: Level<N>, ba: seq<bool>, bb: seq<bool>, h: nat)
    requires |ba| == |Flat(a)|
    ensures PartOK(a + b, ba + bb, h) <==> PartOK(a, ba, h) && PartOK(b, bb, h)
  {
    if a == [] {
      assert a + b == b && ba + bb == bb;
    } else {
      var n := |a[0].es|;
      assert (a + b)[1..] == a[1..] + b && (ba + bb)[n..] == ba[n..] + bb && (ba + bb)[..n] == ba[..n];
      PartConcat(a[1..], b, ba[n..], bb, h);
    }
  }

  lemma {:induction false} PartOne<N>(g: View<N>, s: seq<bool>, h: nat)
    requires |s| == |g.es|
    ensures PartOK([g], s, h) <==> Windows(s, h)
  {
    assert s[..|s|] == s && s[|s|..] == [] && [g][1..] == [];
  }

  lemma {:induction false} PartCut<N>(a: Level<N>, g: View<N>, b: Level<N>, ba: seq<bool>, s: seq<bool>, bb: seq<bool>, h: nat)
    requires |ba| == |Flat(a)| && |s| == |g.es|
    ensures PartOK(a + [g] + b, ba + s + bb, h) <==> PartOK(a, ba, h) && Windows(s, h) && PartOK(b, bb, h)
  {
    FlatCut(a, g, []);
    assert a + [g] + [] == a + [g];
    PartConcat(a + [g], b, ba + s, bb, h);
    PartConcat(a, [g], ba, s, h);
    PartOne(g, s, h);
  }

  /** The three parts of bg around node j. */
  ghost function Seg<N>(level: Level<N>, bg: seq<bool>, j: nat): (r: seq<bool>)
    requires j < |level| && |bg| == |Flat(level)|
    ensures |r| == |level[j].es|
  {
    assert level == level[..j] + [level[j]] + level[j+1..];
    FlatCut(level[..j], level[j], level[j+1..]);
    bg[Off(level, j)..Off(level, j) + |level[j].es|]
  }

  lemma {:induction false} SegCut<N>(level: Level<N>, bg: seq<bool>, j: nat, h: nat)
    requires j < |level| && |bg| == |Flat(level)|
    ensures Off(level, j) + |level[j].es| <= |bg|
    ensures bg == bg[..Off(level, j)] + Seg(level, bg, j) + bg[Off(level, j) + |level[j].es|..]
    ensures PartOK(level, bg, h) <==>
      && PartOK(level[..j], bg[..Off(level, j)], h)
      && Windows(Seg(level, bg, j), h)
      && PartOK(level[j+1..], bg[Off(level, j) + |level[j].es|..], h)
  {
    var s := Seg(level, bg, j);
    assert level == level[..j] + [level[j]] + level[j+1..];
    FlatCut(level[..j], level[j], level[j+1..]);
    PartCut(level[..j], level[j], level[j+1..], bg[..Off(level, j)], s, bg[Off(level, j) + |level[j].es|..], h);
  }

  // ----- monotone in the sizes, and only the number of entries matters -----

  ghost predicate Grown(bg: seq<bool>, bg': seq<bool>) {
    |bg| == |bg'| && forall i :: 0 <= i < |bg| && bg[i] ==> bg'[i]
  }

  lemma {:induction false} WindowsGrown(s: seq<bool>, s': seq<bool>, h: nat)
    requires Windows(s, h) && Grown(s, s')
    ensures Windows(s', h)
  {
  }

  lemma {:induction false} PartGrown<N>(level: Level<N>, bg: seq<bool>, bg': seq<bool>, h: nat)
    requires PartOK(level, bg, h) && Grown(bg, bg')
    ensures PartOK(level, bg', h)
  {
    if level != [] {
      var n := |level[0].es|;
      WindowsGrown(bg[..n], bg'[..n], h);
      PartGrown(level[1..], bg[n..], bg'[n..], h);
    }
  }

  lemma {:induction false} BigGrown<N>(u: Tower<N>, bg: seq<bool>, bg': seq<bool>, h: nat)
    requires BigOK(u, bg, h) && Grown(bg, bg')
    ensures BigOK(u, bg', h)
  {
    if u == [] {
      assert bg' == [true];
    } else {
      PartGrown(u[0], bg, bg', h);
    }
  }

  ghost predicate SameSizes<N>(level: Level<N>, level': Level<N>) {
    |level| == |level'| && forall i :: 0 <= i < |level| ==> |level[i].es| == |level'[i].es|
  }

  lemma {:induction false} PartSame<N>(level: Level<N>, level': Level<N>, bg: seq<bool>, h: nat)
    requires PartOK(level, bg, h) && SameSizes(level, level')
    ensures PartOK(level', bg, h)
  {
    if level != [] {
      PartSame(level[1..], level'[1..], bg[|level[0].es|..], h);
    }
  }

  lemma {:induction false} BigSame<N>(u: Tower<N>, u': Tower<N>, bg: seq<bool>, h: nat)
    requires BigOK(u, bg, h) && |u| == |u'| && forall i :: 0 <= i < |u| ==> SameSizes(u[i], u'[i])
    ensures BigOK(u', bg, h)
  {
    if u != [] {
      PartSame(u[0], u'[0], bg, h);
      assert Bigs(u[0]) == Bigs(u'[0]);
      BigSame(u[1..], u'[1..], Bigs(u[0]), h);
    }
  }

  // ----- inserting a big child, splitting a full node -----

  lemma {:induction false} WindowsInsert(s: seq<bool>, h: nat, q: nat)
    requires Windows(s, h) && q <= |s| && h >= 2 && |s| >= 1
    ensures Windows(InsertAt(s, q, true), h)
  {
    var s' := InsertAt(s, q, true);
    assert s'[q];
    if |s| >= 2 {
      var i :| 0 <= i < |s| && i < h && s[i];
      var k :| 0 <= k < |s| && k >= |s| - h && s[k];
      assert s'[if i < q then i else i + 1] && s'[if k < q then k else k + 1];
    }
  }

  lemma {:induction false} PartInsert<N>(level: Level<N>, bg: seq<bool>, h: nat, j: nat, q: nat, e: Entry<N>)
    requires PartOK(level, bg, h) && j < |level| && q <= |level[j].es| && level[j].es != [] && h >= 2
    ensures Off(level, j) + q <= |bg|
    ensures PartOK(Put(level, j, InsertAt(level[j].es, q, e)), InsertAt(bg, Off(level, j) + q, true), h)
  {
    hide Flat; hide PartOK; hide Windows;
    PartLength(level, bg, h);
    SegCut(level, bg, j, h);
    var s, a, b := Seg(level, bg, j), bg[..Off(level, j)], bg[Off(level, j) + |level[j].es|..];
    WindowsInsert(s, h, q);
    InsertMid(a, s, b, q, true);
    var level' := Put(level, j, InsertAt(level[j].es, q, e));
    assert level' == level[..j] + [level'[j]] + level[j+1..];
    PartCut(level[..j], level'[j], level[j+1..], a, InsertAt(s, q, true), b, h);
  }

  lemma {:induction false} WindowsHalves(s: seq<bool>, h: nat)
    requires Windows(s, h) && |s| == 2 * h && h >= 2
    ensures Windows(s[..h], h) && Windows(s[h..], h)
  {
    var i :| 0 <= i < |s| && i < h && s[i];
    var k :| 0 <= k < |s| && k >= |s| - h && s[k];
    assert s[..h][i] && s[h..][k - h];
  }

  lemma {:induction false} PartSplit<N>(level: Level<N>, bg: seq<bool>, h: nat, j: nat, new_: N)
    requires PartOK(level, bg, h) && j < |level| && |level[j].es| == 2 * h && h >= 2
    ensures PartOK(SplitAt(level, j, h, new_), bg, h)
  {
    hide Flat; hide PartOK; hide Windows;
    PartLength(level, bg, h);
    SegCut(level, bg, j, h);
    var s, a, b := Seg(level, bg, j), bg[..Off(level, j)], bg[Off(level, j) + |level[j].es|..];
    WindowsHalves(s, h);
    var x, y := View(new_, level[j].es[..h]), View(level[j].id, level[j].es[h..]);
    PartCut(level[..j], x, [], a, s[..h], [], h);
    FlatCut(level[..j], x, []);
    PartNil<N>(h);
    assert level[..j] + [x] + [] == level[..j] + [x] && a + s[..h] + [] == a + s[..h];
    FlatNil<N>();
    PartCut(level[..j] + [x], y, level[j+1..], a + s[..h], s[h..], b, h);
    assert SplitAt(level, j, h, new_) == level[..j] + [x] + [y] + level[j+1..];
    assert a + s[..h] + s[h..] == a + s;
  }

  lemma {:induction false} PartNil<N>(h: nat)
    ensures PartOK<N>([], [], h)
  {
  }

  lemma {:induction false} FlatNil<N>()
    ensures Flat<N>([]) == []
  {
  }

  // ----- removing an entry -----

  ghost predicate HasTrue(s: seq<bool>) {
    exists i :: 0 <= i < |s| && s[i]
  }

  /** An entry may go if its child is not big, or if the next entry of the same node has a big child. */
  ghost predicate MayGo(s: seq<bool>, q: nat)
    requires q < |s|
  {
    s[q] ==> q + 1 < |s| && s[q + 1]
  }

  lemma {:induction false} WindowsRemove(s: seq<bool>, h: nat, q: nat)
    requires Windows(s, h) && q < |s| && h >= 2 && MayGo(s, q)
    ensures Windows(RemoveAt(s, q), h)
    ensures |s| > 1 ==> HasTrue(RemoveAt(s, q))
  {
    if |s| >= 2 {
      var s' := RemoveAt(s, q);
      var i :| 0 <= i < |s| && i < h && s[i];
      var k :| 0 <= k < |s| && k >= |s| - h && s[k];
      assert s'[if i <= q then i else i - 1];
      assert s'[if k <= q then k else k - 1];
    }
  }

  lemma {:induction false} PartRemove<N>(level: Level<N>, bg: seq<bool>, h: nat, j: nat, q: nat)
    requires PartOK(level, bg, h) && j < |level| && q < |level[j].es| && h >= 2
    requires |bg| == |Flat(level)| && MayGo(Seg(level, bg, j), q)
    ensures Off(level, j) + q < |bg|
    ensures PartOK(Put(level, j, RemoveAt(level[j].es, q)), RemoveAt(bg, Off(level, j) + q), h)
    ensures Off(Put(level, j, RemoveAt(level[j].es, q)), j) == Off(level, j)
    ensures |RemoveAt(bg, Off(level, j) + q)| == |Flat(Put(level, j, RemoveAt(level[j].es, q)))|
    ensures |level[j].es| > 1 ==>
      HasTrue(Seg(Put(level, j, RemoveAt(level[j].es, q)), RemoveAt(bg, Off(level, j) + q), j))
  {
    hide Flat; hide PartOK; hide Windows;
    SegCut(level, bg, j, h);
    var s, a, b := Seg(level, bg, j), bg[..Off(level, j)], bg[Off(level, j) + |level[j].es|..];
    WindowsRemove(s, h, q);
    RemoveMid(a, s, b, q);
    var level' := Put(level, j, RemoveAt(level[j].es, q));
    assert level' == level[..j] + [level'[j]] + level[j+1..];
    PartCut(level[..j], level'[j], level[j+1..], a, RemoveAt(s, q), b, h);
    assert level'[..j] == level[..j];
    RemoveFlat(level, j, q);
    assert Seg(level', RemoveAt(bg, Off(level, j) + q), j) == RemoveAt(s, q);
  }

  // ----- dropping an empty node, merging neighbours -----

  lemma {:induction false} PartDrop<N>(level: Level<N>, bg: seq<bool>, h: nat, j: nat)
    requires PartOK(level, bg, h) && j < |level| && level[j].es == []
    ensures PartOK(RemoveAt(level, j), bg, h)
  {
    hide Flat; hide PartOK; hide Windows;
    PartLength(level, bg, h);
    SegCut(level, bg, j, h);
    var a, b := bg[..Off(level, j)], bg[Off(level, j)..];
    PartConcat(level[..j], level[j+1..], a, b, h);
    assert a + b == bg && level[..j] + level[j+1..] == RemoveAt(level, j);
  }

  lemma {:induction false} WindowsMerge(s: seq<bool>, t: seq<bool>, h: nat)
    requires Windows(s, h) && Windows(t, h) && s != [] && t != [] && h >= 2
    requires (|s| < h && HasTrue(s)) || (|t| < h && HasTrue(t))
    ensures Windows(s + t, h)
  {
    var st := s + t;
    if |s| < h && HasTrue(s) {
      var i :| 0 <= i < |s| && s[i];
      assert st[i];
      if |t| >= 2 {
        var k :| 0 <= k < |t| && k >= |t| - h && t[k];
        assert st[|s| + k];
      }
    } else {
      var i :| 0 <= i < |t| && t[i];
      assert st[|s| + i];
      if |s| >= 2 {
        var k :| 0 <= k < |s| && k < h && s[k];
        assert st[k];
      }
    }
  }

  lemma {:induction false} PartMerge<N>(level: Level<N>, bg: seq<bool>, h: nat, l: nat, x: nat)
    requires PartOK(level, bg, h) && l + 1 < |level| && h >= 2 && (x == l || x == l + 1)
    requires level[l].es != [] && level[l + 1].es != [] && |bg| == |Flat(level)|
    requires |level[x].es| < h && HasTrue(Seg(level, bg, x))
    ensures PartOK(MergeAt(level, l), bg, h)
  {
    hide Flat; hide PartOK; hide Windows; hide Off; hide Seg; hide HasTrue;
    SegCut(level, bg, l, h);
    SegCut(level, bg, l + 1, h);
    OffNext(level, l);
    var a, s, t := bg[..Off(level, l)], Seg(level, bg, l), Seg(level, bg, l + 1);
    var b := bg[Off(level, l + 1) + |t|..];
    WindowsMerge(s, t, h);
    var g := View(level[l].id, level[l].es + level[l + 1].es);
    OffPrefix(level, l);
    PartCut(level[..l], g, level[l+2..], a, s + t, b, h);
    SegPair(level, bg, l);
    assert MergeAt(level, l) == level[..l] + [g] + level[l+2..];
  }

  lemma {:induction false} OffPrefix<N>(level: Level<N>, l: nat)
    requires l <= |level|
    ensures |Flat(level[..l])| == Off(level, l)
  {
  }

  lemma {:induction false} SegPair<N>(level: Level<N>, bg: seq<bool>, l: nat)
    requires l + 1 < |level| && |bg| == |Flat(level)|
    ensures Off(level, l) + |level[l].es| == Off(level, l + 1) && Off(level, l + 1) + |level[l + 1].es| <= |bg|
    ensures bg == bg[..Off(level, l)] + (Seg(level, bg, l) + Seg(level, bg, l + 1)) + bg[Off(level, l + 1) + |level[l + 1].es|..]
  {
    hide Flat;
    OffNext(level, l);
    assert level == level[..l + 1] + [level[l + 1]] + level[l + 2..];
    FlatCut(level[..l + 1], level[l + 1], level[l + 2..]);
  }

  // ----- a child shrinks to one entry between full neighbours -----

  lemma {:induction false} WindowsUnset(s: seq<bool>, h: nat, q: nat)
    requires Windows(s, h) && q < |s| && h >= 2
    requires (q > 0 ==> s[q - 1]) && (q + 1 < |s| ==> s[q + 1])
    ensures Windows(s[q := false], h)
  {
    if |s| >= 2 {
      var s' := s[q := false];
      var i :| 0 <= i < |s| && i < h && s[i];
      var k :| 0 <= k < |s| && k >= |s| - h && s[k];
      assert s'[if i != q then i else if q > 0 then q - 1 else q + 1];
      assert s'[if k != q then k else if q + 1 < |s| then q + 1 else q - 1];
    }
  }

  lemma {:induction false} PartUnset<N>(level: Level<N>, bg: seq<bool>, h: nat, j: nat, q: nat)
    requires PartOK(level, bg, h) && j < |level| && q < |level[j].es| && h >= 2
    requires |bg| == |Flat(level)|
    requires q > 0 ==> Seg(level, bg, j)[q - 1]
    requires q + 1 < |level[j].es| ==> Seg(level, bg, j)[q + 1]
    ensures Off(level, j) + q < |bg| && PartOK(level, bg[Off(level, j) + q := false], h)
  {
    hide Flat; hide PartOK; hide Windows;
    SegCut(level, bg, j, h);
    var s, a, b := Seg(level, bg, j), bg[..Off(level, j)], bg[Off(level, j) + |level[j].es|..];
    WindowsUnset(s, h, q);
    assert level == level[..j] + [level[j]] + level[j+1..];
    PartCut(level[..j], level[j], level[j+1..], a, s[q := false], b, h);
    assert bg[Off(level, j) + q := false] == a + s[q := false] + b;
  }
}
