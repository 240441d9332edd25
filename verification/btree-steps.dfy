/** What each local change to a level of the tower does to the level and to the routes it offers:
    inserting an entry, splitting a node, removing an entry, dropping an empty node, merging two
    neighbours.  All statements are about one level and the routes above it. */
module BtreeSteps {
  import opened BtreeTower

  // ----- changes in the middle of a sequence -----

  lemma {:induction false} InsertMid<T>(a: seq<T>, m: seq<T>, b: seq<T>, q: nat, x: T)
    requires q <= |m|
    ensures InsertAt(a + m + b, |a| + q, x) == a + InsertAt(m, q, x) + b
  {
  }

  lemma {:induction false} RemoveMid<T>(a: seq<T>, m: seq<T>, b: seq<T>, q: nat)
    requires q < |m|
    ensures RemoveAt(a + m + b, |a| + q) == a + RemoveAt(m, q) + b
  {
  }

  // ----- inserting an entry -----

  lemma {:induction false} InsertNode<N>(g: View<N>, K: nat, elb: nat, q: nat, e: Entry<N>)
    requires NodeOK(g, K) && |g.es| < K && e.key > 0 && e.val != Null
    requires IsPos(g.es, e.key, q) && (q < |g.es| ==> g.es[q].key != e.key)
    ensures NodeOK(View(g.id, InsertAt(g.es, q, e)), K)
    ensures q < |g.es| ==>
      NodeRoutes(InsertAt(g.es, q, e), elb) == InsertAt(NodeRoutes(g.es, elb), q, Route(e.key, e.key, e.val))
  {
  }

  lemma {:induction false} InsertOK<N>(level: Level<N>, ups: seq<Route<N>>, K: nat, top: bool, j: nat, q: nat, e: Entry<N>)
    requires LevelOK(level, ups, K, top) && Covers(ups, j, e.key) && ups[j].sep <= e.key
    requires |level[j].es| < K && e.key > 0 && e.val != Null
    requires IsPos(level[j].es, e.key, q) && (q < |level[j].es| ==> level[j].es[q].key != e.key)
    ensures LevelOK(Put(level, j, InsertAt(level[j].es, q, e)), ups, K, top)
  {
    hide Desc; hide NodeRoutes;
    var level' := Put(level, j, InsertAt(level[j].es, q, e));
    forall i | 0 <= i < |level'|
      ensures LinkedAt(level', ups, i) && NodeOK(level'[i], K) && (top || level'[i].es != [])
    {
      assert LinkedAt(level, ups, i) && NodeOK(level[i], K) && (top || level[i].es != []);
      if i == j {
        InsertNode(level[j], K, 0, q, e);
      }
    }
  }

  lemma {:induction false} InsertEntry<N>(level: Level<N>, ups: seq<Route<N>>, K: nat, top: bool, j: nat, q: nat, e: Entry<N>)
    requires LevelOK(level, ups, K, top) && Covers(ups, j, e.key) && ups[j].sep <= e.key
    requires |level[j].es| < K && e.key > 0 && e.val != Null
    requires IsPos(level[j].es, e.key, q) && (q < |level[j].es| ==> level[j].es[q].key != e.key)
    ensures Off(level, j) + q <= |Flat(level)| == |LevelRoutes(level, ups)|
    ensures Flat(Put(level, j, InsertAt(level[j].es, q, e))) == InsertAt(Flat(level), Off(level, j) + q, e)
    ensures q < |level[j].es| ==>
      LevelRoutes(Put(level, j, InsertAt(level[j].es, q, e)), ups)
      == InsertAt(LevelRoutes(level, ups), Off(level, j) + q, Route(e.key, e.key, e.val))
  {
    hide Flat; hide LevelRoutes; hide NodeRoutes; hide Off; hide Put; hide Desc;
    assert NodeOK(level[j], K);
    InsertNode(level[j], K, ups[j].elb, q, e);
    PutCut(level, ups, j, InsertAt(level[j].es, q, e));
    InsertMid(Flat(level[..j]), level[j].es, Flat(level[j+1..]), q, e);
    if q < |level[j].es| {
      InsertMid(LevelRoutes(level[..j], ups[..j]), NodeRoutes(level[j].es, ups[j].elb),
                LevelRoutes(level[j+1..], ups[j+1..]), q, Route(e.key, e.key, e.val));
    }
  }

  lemma {:induction false} FlatEmpty<N>()
    ensures Flat<N>([]) == [] && LevelRoutes<N>([], []) == []
  {
  }

  lemma {:induction false} TwoCut<N>(a: Level<N>, s: View<N>, t: View<N>, b: Level<N>,
                  ua: seq<Route<N>>, x: Route<N>, y: Route<N>, ub: seq<Route<N>>)
    requires |a| == |ua| && |b| == |ub|
    ensures Flat(a + [s] + [t] + b) == Flat(a) + (s.es + t.es) + Flat(b)
    ensures LevelRoutes(a + [s] + [t] + b, ua + [x] + [y] + ub)
         == LevelRoutes(a, ua) + (NodeRoutes(s.es, x.elb) + NodeRoutes(t.es, y.elb)) + LevelRoutes(b, ub)
  {
    hide Flat; hide LevelRoutes; hide NodeRoutes;
    FlatCut(a + [s], t, b);
    FlatCut(a, s, []);
    FlatEmpty<N>();
    RoutesCut(a + [s], t, b, ua + [x], y, ub);
    RoutesCut(a, s, [], ua, x, []);
    assert a + [s] + [] == a + [s] && ua + [x] + [] == ua + [x];
  }

  // ----- splitting a full node: the upper half moves to a new left neighbour -----

  ghost function SplitAt<N>(level: Level<N>, j: nat, h: nat, new_: N): (r: Level<N>)
    requires j < |level| && h <= |level[j].es|
    ensures |r| == |level| + 1
    ensures forall i :: 0 <= i < j ==> r[i] == level[i]
    ensures r[j] == View(new_, level[j].es[..h]) && r[j + 1] == View(level[j].id, level[j].es[h..])
    ensures forall i :: j + 1 < i < |r| ==> r[i] == level[i - 1]
  {
    level[..j] + [View(new_, level[j].es[..h]), View(level[j].id, level[j].es[h..])] + level[j+1..]
  }

  lemma {:induction false} SplitOK<N>(level: Level<N>, ups: seq<Route<N>>, K: nat, j: nat, h: nat, new_: N)
    requires LevelOK(level, ups, K, false) && j < |level| && 0 < h < |level[j].es|
    requires j > 0 ==> ups[j].sep < ups[j - 1].elb
    ensures var hk := level[j].es[h - 1].key;
      LevelOK(SplitAt(level, j, h, new_), InsertAt(ups, j, Route(hk, hk, Child(new_))), K, false)
  {
    hide SplitAt; hide Desc;
    var hk := level[j].es[h - 1].key;
    var level', ups' := SplitAt(level, j, h, new_), InsertAt(ups, j, Route(hk, hk, Child(new_)));
    forall i | 0 <= i < |level'| ensures LinkedAt(level', ups', i) && NodeOK(level'[i], K) && level'[i].es != [] {
      if i == j || i == j + 1 {
        SplitPair(level, ups, level', ups', K, j, h, new_);
      } else {
        SplitRest(level, ups, level', ups', K, j, i);
      }
    }
  }

  /** The nodes that were not split: only the one right of the halves has a new route before it. */
  lemma {:induction false} SplitRest<N>(level: Level<N>, ups: seq<Route<N>>, level': Level<N>, ups': seq<Route<N>>,
                                        K: nat, j: nat, i: nat)
    requires LevelOK(level, ups, K, false) && j < |level| && |level'| == |ups'| == |level| + 1
    requires i < |level'| && i != j && i != j + 1
    requires (i < j ==> level'[i] == level[i] && ups'[i] == ups[i]) && (i > 0 && i < j ==> ups'[i - 1] == ups[i - 1])
    requires i > j ==> level'[i] == level[i - 1] && ups'[i] == ups[i - 1] && ups'[i - 1] == ups[i - 2]
    ensures LinkedAt(level', ups', i) && NodeOK(level'[i], K) && level'[i].es != []
  {
    hide Desc;
    var o := if i < j then i else i - 1;
    assert LinkedAt(level, ups, o) && NodeOK(level[o], K) && level[o].es != [];
  }

  lemma {:induction false} SplitPair<N>(level: Level<N>, ups: seq<Route<N>>, level': Level<N>, ups': seq<Route<N>>,
                                        K: nat, j: nat, h: nat, new_: N)
    requires |level| == |ups| && j < |level| && |level'| == |ups'| == |level| + 1
    requires NodeOK(level[j], K) && LinkedAt(level, ups, j) && 0 < h < |level[j].es|
    requires j > 0 ==> ups[j].sep < ups[j - 1].elb && ups'[j - 1] == ups[j - 1]
    requires level'[j] == View(new_, level[j].es[..h]) && level'[j + 1] == View(level[j].id, level[j].es[h..])
    requires ups'[j] == Route(level[j].es[h - 1].key, level[j].es[h - 1].key, Child(new_)) && ups'[j + 1] == ups[j]
    ensures LinkedAt(level', ups', j) && NodeOK(level'[j], K) && level'[j].es != []
    ensures LinkedAt(level', ups', j + 1) && NodeOK(level'[j + 1], K) && level'[j + 1].es != []
  {
    SplitNodeOK(level[j].es, h);
  }

  lemma {:induction false} SplitNodeOK<N>(es: seq<Entry<N>>, h: nat)
    requires Desc(es) && 0 < h < |es|
    ensures Desc(es[..h]) && Desc(es[h..])
    ensures es[h..][0].key < es[h - 1].key && es[h..][|es| - h - 1] == es[|es| - 1]
  {
  }

  lemma {:induction false} SplitRoutes<N>(level: Level<N>, ups: seq<Route<N>>, K: nat, j: nat, h: nat, new_: N)
    requires |level| == |ups| && j < |level| && 0 < h < |level[j].es|
    ensures Flat(SplitAt(level, j, h, new_)) == Flat(level)
    ensures var hk := level[j].es[h - 1].key;
      LevelRoutes(SplitAt(level, j, h, new_), InsertAt(ups, j, Route(hk, hk, Child(new_)))) == LevelRoutes(level, ups)
  {
    var es, hk := level[j].es, level[j].es[h - 1].key;
    var s, t := View(new_, es[..h]), View(level[j].id, es[h..]);
    var x := Route(hk, hk, Child(new_));
    var a, b, ua, ub := level[..j], level[j+1..], ups[..j], ups[j+1..];
    CutAt(level, ups, j);
    assert SplitAt(level, j, h, new_) == (a + [s]) + [t] + b;
    assert InsertAt(ups, j, x) == (ua + [x]) + [ups[j]] + ub;
    TwoCut(a, s, t, b, ua, x, ups[j], ub);
    SplitNodeRoutes(es, h, ups[j].elb);
  }

  lemma {:induction false} SplitNodeRoutes<N>(es: seq<Entry<N>>, h: nat, elb: nat)
    requires 0 < h < |es|
    ensures NodeRoutes(es[..h], es[h - 1].key) + NodeRoutes(es[h..], elb) == NodeRoutes(es, elb)
    ensures es[..h] + es[h..] == es
  {
  }

  // ----- removing an entry -----

  /** r' is r without route p.  The bound of the route before p may fall to p's, unless keep. */
  ghost predicate Shrunk<N>(r: seq<Route<N>>, r': seq<Route<N>>, p: nat, keep: bool) {
    && p < |r| == |r'| + 1
    && (forall i :: 0 <= i < p ==>
          r'[i].val == r[i].val && r'[i].sep <= r[i].sep
          && r'[i].elb >= if i == p - 1 && !keep then r[p].elb else r[i].elb)
    && (forall i :: p <= i < |r'| ==> r'[i].val == r[i + 1].val && r'[i].sep <= r[i + 1].sep && r'[i].elb >= r[i + 1].elb)
  }

  /** Same pointers, separators not above and bounds not below the old ones. */
  ghost predicate Lifted<N>(r: seq<Route<N>>, r': seq<Route<N>>) {
    && |r| == |r'|
    && forall i :: 0 <= i < |r| ==> r'[i].val == r[i].val && r'[i].sep <= r[i].sep && r'[i].elb >= r[i].elb
  }

  lemma {:induction false} RemoveNode<N>(g: View<N>, K: nat, x: Route<N>, q: nat)
    requires NodeOK(g, K) && q < |g.es| && x.elb <= x.sep <= g.es[|g.es| - 1].key
    ensures NodeOK(View(g.id, RemoveAt(g.es, q)), K)
    ensures Shrunk(NodeRoutes(g.es, x.elb), NodeRoutes(RemoveAt(g.es, q), x.elb), q, q + 1 < |g.es|)
  {
  }

  lemma {:induction false} RemoveOK<N>(level: Level<N>, ups: seq<Route<N>>, K: nat, top: bool, j: nat, q: nat)
    requires LevelOK(level, ups, K, top) && Ordered(ups) && j < |level| && q < |level[j].es|
    requires |level[j].es| > 1 || top
    ensures LevelOK(Put(level, j, RemoveAt(level[j].es, q)), ups, K, top)
  {
    hide Desc; hide Shrunk; hide NodeRoutes;
    var level' := Put(level, j, RemoveAt(level[j].es, q));
    forall i | 0 <= i < |level'|
      ensures LinkedAt(level', ups, i) && NodeOK(level'[i], K) && (top || level'[i].es != [])
    {
      assert LinkedAt(level, ups, i) && NodeOK(level[i], K) && (top || level[i].es != []);
      if i == j {
        RemoveNode(level[j], K, ups[j], q);
        assert level'[j] == View(level[j].id, RemoveAt(level[j].es, q));
        RemoveLinked(level[j].es, q, ups[j].sep);
      }
    }
  }

  lemma {:induction false} RemoveLinked<N>(es: seq<Entry<N>>, q: nat, sep: nat)
    requires Desc(es) && q < |es| && sep <= es[|es| - 1].key
    ensures var fs := RemoveAt(es, q); fs != [] ==> sep <= fs[|fs| - 1].key && fs[0].key <= es[0].key
  {
  }

  /** Also when the node ends up empty; the first entry of its level is the only one whose predecessor
      lies in another node. */
  lemma {:induction false} RemoveEntry<N>(level: Level<N>, ups: seq<Route<N>>, K: nat, top: bool, j: nat, q: nat)
    requires LevelOK(level, ups, K, top) && Ordered(ups) && j < |level| && q < |level[j].es|
    requires |level[j].es| > 1
    ensures Off(level, j) + q < |Flat(level)| == |LevelRoutes(level, ups)|
    ensures Flat(Put(level, j, RemoveAt(level[j].es, q))) == RemoveAt(Flat(level), Off(level, j) + q)
    ensures Shrunk(LevelRoutes(level, ups), LevelRoutes(Put(level, j, RemoveAt(level[j].es, q)), ups),
                   Off(level, j) + q, q + 1 < |level[j].es|)
  {
    hide Flat; hide LevelRoutes; hide NodeRoutes; hide Off; hide Put; hide Desc; hide Shrunk; hide RemoveAt;
    assert LinkedAt(level, ups, j) && NodeOK(level[j], K);
    RemoveNode(level[j], K, ups[j], q);
    PutCut(level, ups, j, RemoveAt(level[j].es, q));
    RemoveMid(Flat(level[..j]), level[j].es, Flat(level[j+1..]), q);
    ShrunkMid(LevelRoutes(level[..j], ups[..j]), NodeRoutes(level[j].es, ups[j].elb),
              NodeRoutes(RemoveAt(level[j].es, q), ups[j].elb), LevelRoutes(level[j+1..], ups[j+1..]), q, q + 1 < |level[j].es|);
  }

  lemma {:induction false} ShrunkMid<N>(a: seq<Route<N>>, m: seq<Route<N>>, m': seq<Route<N>>, b: seq<Route<N>>, q: nat, keep: bool)
    requires Shrunk(m, m', q, keep) && (q > 0 || keep || a == [])
    ensures Shrunk(a + m + b, a + m' + b, |a| + q, keep)
  {
  }

  lemma {:induction false} RemoveFlat<N>(level: Level<N>, j: nat, q: nat)
    requires j < |level| && q < |level[j].es|
    ensures Off(level, j) + q < |Flat(level)|
    ensures Flat(Put(level, j, RemoveAt(level[j].es, q))) == RemoveAt(Flat(level), Off(level, j) + q)
  {
    var ups := seq(|level|, i => Route(0, 0, Null));
    PutCut(level, ups, j, RemoveAt(level[j].es, q));
    RemoveMid(Flat(level[..j]), level[j].es, Flat(level[j+1..]), q);
  }

  lemma {:induction false} ShrunkLifted<N>(r: seq<Route<N>>, r1: seq<Route<N>>, r2: seq<Route<N>>, p: nat, keep: bool)
    requires Shrunk(r, r1, p, keep) && Lifted(r1, r2)
    ensures Shrunk(r, r2, p, keep)
  {
  }

  // ----- bounds that rise above lift the bounds below -----

  lemma {:induction false} RoutesLift<N>(level: Level<N>, ups: seq<Route<N>>, ups': seq<Route<N>>)
    requires |level| == |ups| == |ups'|
    requires forall i :: 0 <= i < |ups| ==> ups[i].elb <= ups'[i].elb
    ensures Lifted(LevelRoutes(level, ups), LevelRoutes(level, ups'))
  {
    if level != [] {
      RoutesLift(level[1..], ups[1..], ups'[1..]);
    }
  }

  // ----- dropping a node that lost its only entry -----

  lemma {:induction false} DropOK<N>(level: Level<N>, ups: seq<Route<N>>, ups': seq<Route<N>>, K: nat, j: nat)
    requires LevelOK(level, ups, K, false) && j < |level| && Shrunk(ups, ups', j, false)
    ensures LevelOK(RemoveAt(level, j), ups', K, false)
  {
    var level' := RemoveAt(level, j);
    forall i | 0 <= i < |level'| ensures LinkedAt(level', ups', i) && NodeOK(level'[i], K) && level'[i].es != [] {
      var o := if i < j then i else i + 1;
      assert LinkedAt(level, ups, o) && NodeOK(level[o], K) && level[o].es != [];
    }
  }

  /** Lifted, except that the last bound is only known to be at least x. */
  ghost predicate LiftedBut<N>(r: seq<Route<N>>, r': seq<Route<N>>, x: nat) {
    && |r| == |r'|
    && forall i :: 0 <= i < |r| ==>
      r'[i].val == r[i].val && r'[i].sep <= r[i].sep && r'[i].elb >= if i == |r| - 1 then x else r[i].elb
  }

  /** The routes of the nodes before j: only the very last bound can fall, and to x. */
  lemma {:induction false} DropPrefix<N>(a: Level<N>, ua: seq<Route<N>>, ua': seq<Route<N>>, x: nat)
    requires |a| == |ua| == |ua'| && NonEmpty(a)
    requires forall i :: 0 <= i < |ua| ==> ua'[i].elb >= if i == |ua| - 1 then x else ua[i].elb
    ensures LiftedBut(LevelRoutes(a, ua), LevelRoutes(a, ua'), x)
  {
    if a != [] {
      var n := |a| - 1;
      RoutesCut(a[..n], a[n], [], ua[..n], ua[n], []);
      RoutesCut(a[..n], a[n], [], ua'[..n], ua'[n], []);
      RoutesLift(a[..n], ua[..n], ua'[..n]);
      assert a[..n] + [a[n]] + [] == a && ua[..n] + [ua[n]] + [] == ua && ua'[..n] + [ua'[n]] + [] == ua';
      assert a[n].es != [];
      var m, m' := NodeRoutes(a[n].es, ua[n].elb), NodeRoutes(a[n].es, ua'[n].elb);
      LowLast(LevelRoutes(a[..n], ua[..n]), LevelRoutes(a[..n], ua'[..n]), m, m', x);
      assert LevelRoutes(a, ua) == LevelRoutes(a[..n], ua[..n]) + m;
      assert LevelRoutes(a, ua') == LevelRoutes(a[..n], ua'[..n]) + m';
    }
  }

  lemma {:induction false} LowLast<N>(a: seq<Route<N>>, a': seq<Route<N>>, m: seq<Route<N>>, m': seq<Route<N>>, x: nat)
    requires Lifted(a, a') && m != [] && LiftedBut(m, m', x)
    ensures LiftedBut(a + m, a' + m', x)
  {
  }

  lemma {:induction false} DropRoutes<N>(level: Level<N>, ups: seq<Route<N>>, ups': seq<Route<N>>, j: nat)
    requires |level| == |ups| && NonEmpty(level) && j < |level| && |level[j].es| == 1
    requires Shrunk(ups, ups', j, false)
    ensures Off(level, j) < |LevelRoutes(level, ups)|
    ensures Shrunk(LevelRoutes(level, ups), LevelRoutes(RemoveAt(level, j), ups'), Off(level, j), false)
  {
    hide Flat; hide LevelRoutes; hide Off; hide NodeRoutes;
    CutAt(level, ups, j);
    var a, b := level[..j], level[j+1..];
    DropPrefix(a, ups[..j], ups'[..j], ups[j].elb);
    RoutesLift(b, ups[j+1..], ups'[j..]);
    RoutesConcat(a, b, ups'[..j], ups'[j..]);
    assert ups' == ups'[..j] + ups'[j..];
    OneRoute(level[j].es, ups[j].elb);
    DropMid(LevelRoutes(a, ups[..j]), LevelRoutes(a, ups'[..j]), NodeRoutes(level[j].es, ups[j].elb),
            LevelRoutes(b, ups[j+1..]), LevelRoutes(b, ups'[j..]));
  }

  lemma {:induction false} OneRoute<N>(es: seq<Entry<N>>, elb: nat)
    requires |es| == 1
    ensures |NodeRoutes(es, elb)| == 1 && NodeRoutes(es, elb)[0].elb == elb
  {
  }

  lemma {:induction false} DropMid<N>(a: seq<Route<N>>, a': seq<Route<N>>, m: seq<Route<N>>, b: seq<Route<N>>, b': seq<Route<N>>)
    requires |m| == 1 && LiftedBut(a, a', m[0].elb) && Lifted(b, b')
    ensures Shrunk(a + m + b, a' + b', |a|, false)
  {
  }

  // ----- merging two neighbours: the right one is emptied into the left one -----

  ghost function SwapVals<N>(r: seq<Route<N>>, p: nat): (r': seq<Route<N>>)
    requires p + 1 < |r|
    ensures |r'| == |r|
  {
    r[p := r[p].(val := r[p + 1].val)][p + 1 := r[p + 1].(val := r[p].val)]
  }

  ghost function SwapSlots<N>(es: seq<Entry<N>>, q: nat): (es': seq<Entry<N>>)
    requires q + 1 < |es|
    ensures |es'| == |es|
  {
    es[q := Entry(es[q].key, es[q + 1].val)][q + 1 := Entry(es[q + 1].key, es[q].val)]
  }

  lemma {:induction false} SwapLevel<N>(level: Level<N>, ups: seq<Route<N>>, K: nat, top: bool, j: nat, q: nat)
    requires LevelOK(level, ups, K, top) && j < |level| && q + 1 < |level[j].es|
    ensures LevelOK(Put(level, j, SwapSlots(level[j].es, q)), ups, K, top)
  {
    hide Desc; hide SwapSlots;
    SwapNode(level[j].es, q);
    var level' := Put(level, j, SwapSlots(level[j].es, q));
    forall i | 0 <= i < |level'|
      ensures LinkedAt(level', ups, i) && NodeOK(level'[i], K) && (top || level'[i].es != [])
    {
      assert LinkedAt(level, ups, i) && NodeOK(level[i], K) && (top || level[i].es != []);
    }
  }

  lemma {:induction false} SwapNode<N>(es: seq<Entry<N>>, q: nat)
    requires q + 1 < |es|
    ensures Desc(es) ==> Desc(SwapSlots(es, q))
    ensures forall i :: 0 <= i < |es| ==> SwapSlots(es, q)[i].key == es[i].key
    ensures (forall i :: 0 <= i < |es| ==> es[i].val != Null) ==> forall i :: 0 <= i < |es| ==> SwapSlots(es, q)[i].val != Null
  {
  }

  lemma {:induction false} SwapRoutes<N>(level: Level<N>, ups: seq<Route<N>>, j: nat, q: nat)
    requires |level| == |ups| && j < |level| && q + 1 < |level[j].es|
    ensures Off(level, j) + q + 1 < |LevelRoutes(level, ups)|
    ensures LevelRoutes(Put(level, j, SwapSlots(level[j].es, q)), ups)
         == SwapVals(LevelRoutes(level, ups), Off(level, j) + q)
  {
    hide Flat; hide LevelRoutes;
    PutCut(level, ups, j, SwapSlots(level[j].es, q));
    assert NodeRoutes(SwapSlots(level[j].es, q), ups[j].elb) == SwapVals(NodeRoutes(level[j].es, ups[j].elb), q);
    SwapMid(LevelRoutes(level[..j], ups[..j]), NodeRoutes(level[j].es, ups[j].elb), LevelRoutes(level[j+1..], ups[j+1..]), q);
  }

  lemma {:induction false} SwapMid<N>(a: seq<Route<N>>, m: seq<Route<N>>, b: seq<Route<N>>, q: nat)
    requires q + 1 < |m|
    ensures SwapVals(a + m + b, |a| + q) == a + SwapVals(m, q) + b
  {
    var r := a + m + b;
    assert r[|a| + q] == m[q] && r[|a| + q + 1] == m[q + 1];
  }

  ghost function MergeAt<N>(level: Level<N>, l: nat): (r: Level<N>)
    requires l + 1 < |level|
    ensures |r| == |level| - 1
  {
    level[..l] + [View(level[l].id, level[l].es + level[l + 1].es)] + level[l+2..]
  }

  lemma {:induction false} MergeDesc<N>(es: seq<Entry<N>>, fs: seq<Entry<N>>, x: nat)
    requires Desc(es) && Desc(fs) && es != [] && fs != []
    requires fs[0].key < x <= es[|es| - 1].key
    ensures Desc(es + fs)
  {
  }

  lemma {:induction false} MergeOK<N>(level: Level<N>, ups: seq<Route<N>>, ups': seq<Route<N>>, K: nat, l: nat)
    requires LevelOK(level, ups, K, false) && Ordered(ups) && l + 1 < |level|
    requires |level[l].es| + |level[l + 1].es| <= K
    requires Shrunk(SwapVals(ups, l), ups', l, true)
    ensures LevelOK(MergeAt(level, l), ups', K, false)
  {
    hide Desc;
    var level' := MergeAt(level, l);
    MergeNode(level, ups, K, l);
    forall i | 0 <= i < |level'| ensures LinkedAt(level', ups', i) && NodeOK(level'[i], K) && level'[i].es != [] {
      if i < l {
        assert LinkedAt(level, ups, i) && level'[i] == level[i] && NodeOK(level[i], K) && level[i].es != [];
        assert i > 0 ==> ups'[i - 1].elb >= ups[i - 1].elb;
      } else if i == l {
        assert level'[i] == View(level[l].id, level[l].es + level[l + 1].es);
        assert LinkedAt(level, ups, l) && LinkedAt(level, ups, l + 1) && level[l].es != [] && level[l + 1].es != [];
      } else {
        assert LinkedAt(level, ups, i + 1) && level'[i] == level[i + 1] && NodeOK(level[i + 1], K) && level[i + 1].es != [];
      }
    }
  }

  lemma {:induction false} MergeNode<N>(level: Level<N>, ups: seq<Route<N>>, K: nat, l: nat)
    requires LevelOK(level, ups, K, false) && Ordered(ups) && l + 1 < |level|
    requires |level[l].es| + |level[l + 1].es| <= K
    ensures NodeOK(View(level[l].id, level[l].es + level[l + 1].es), K)
  {
    assert LinkedAt(level, ups, l) && LinkedAt(level, ups, l + 1) && NodeOK(level[l], K) && NodeOK(level[l + 1], K);
    assert level[l].es != [] && level[l + 1].es != [];
    MergeDesc(level[l].es, level[l + 1].es, ups[l].elb);
  }

  lemma {:induction false} MergeFlat<N>(level: Level<N>, l: nat)
    requires l + 1 < |level|
    ensures Flat(MergeAt(level, l)) == Flat(level)
  {
    var a, b, g := level[..l], level[l+2..], View(level[l].id, level[l].es + level[l + 1].es);
    var ua, ub, x := seq(|a|, i => Route(0, 0, Null)), seq(|b|, i => Route(0, 0, Null)), Route(0, 0, Null);
    assert level == a + [level[l]] + [level[l + 1]] + b;
    TwoCut(a, level[l], level[l + 1], b, ua, x, x, ub);
    FlatCut(a, g, b);
  }

  lemma {:induction false} MergeNodeRoutes<N>(es: seq<Entry<N>>, fs: seq<Entry<N>>, x: nat, y: nat, z: nat)
    requires es != [] && fs != [] && x <= es[|es| - 1].key && y <= z
    ensures Lifted(NodeRoutes(es, x) + NodeRoutes(fs, y), NodeRoutes(es + fs, z))
  {
  }

  lemma {:induction false} MergeRoutes<N>(level: Level<N>, ups: seq<Route<N>>, ups': seq<Route<N>>, K: nat, l: nat)
    requires LevelOK(level, ups, K, false) && Ordered(ups) && l + 1 < |level|
    requires Shrunk(SwapVals(ups, l), ups', l, true)
    ensures Lifted(LevelRoutes(level, ups), LevelRoutes(MergeAt(level, l), ups'))
  {
    hide Flat; hide LevelRoutes; hide NodeRoutes; hide Lifted; hide Desc;
    var a, b := level[..l], level[l+2..];
    var es, fs := level[l].es, level[l + 1].es;
    assert LinkedAt(level, ups, l) && es != [] && fs != [];
    assert level == a + [level[l]] + [level[l + 1]] + b && ups == ups[..l] + [ups[l]] + [ups[l + 1]] + ups[l+2..];
    TwoCut(a, level[l], level[l + 1], b, ups[..l], ups[l], ups[l + 1], ups[l+2..]);
    RoutesCut(a, View(level[l].id, es + fs), b, ups'[..l], ups'[l], ups'[l+1..]);
    assert ups' == ups'[..l] + [ups'[l]] + ups'[l+1..];
    RoutesLift(a, ups[..l], ups'[..l]);
    RoutesLift(b, ups[l+2..], ups'[l+1..]);
    MergeNodeRoutes(es, fs, ups[l].elb, ups[l + 1].elb, ups'[l].elb);
    LiftedThree(LevelRoutes(a, ups[..l]), LevelRoutes(a, ups'[..l]),
                NodeRoutes(es, ups[l].elb) + NodeRoutes(fs, ups[l + 1].elb), NodeRoutes(es + fs, ups'[l].elb),
                LevelRoutes(b, ups[l+2..]), LevelRoutes(b, ups'[l+1..]));
  }

  lemma {:induction false} LiftedThree<N>(a: seq<Route<N>>, a': seq<Route<N>>, m: seq<Route<N>>, m': seq<Route<N>>,
                       b: seq<Route<N>>, b': seq<Route<N>>)
    requires Lifted(a, a') && Lifted(m, m') && Lifted(b, b')
    ensures Lifted(a + m + b, a' + m' + b')
  {
  }
}
