/** The abstract shape of lib/btree.c's tree: a tower of levels.

    Level 0 holds the leaves and the last level holds the root.  A level lists its nodes from the
    largest keys to the smallest; a node is its pointer and the entries in its filled slots.  All
    entries of a level, node after node, are exactly one per node of the level below: the entry of
    node i carries its pointer and its separator key.  Leaf depth is therefore equal by construction.

    Routing needs one more number per entry.  A search for a key smaller than every separator of an
    inner node goes to the node's last child (and lowers that child's separator to the key), so the
    keys that reach an entry are bounded from below not by its separator but by its "effective lower
    bound": its own key, except that the last entry of a node inherits the bound of the node. */
module BtreeTower {

  datatype Slot<N> = Null | Data(word: nat) | Child(node: N)
  datatype Entry<N> = Entry(key: nat, val: Slot<N>)
  datatype View<N> = View(id: N, es: seq<Entry<N>>)
  datatype Route<N> = Route(sep: nat, elb: nat, val: Slot<N>)
  type Level<N> = seq<View<N>>
  type Tower<N> = seq<Level<N>>

  // ----- sequences -----

  ghost function InsertAt<T>(s: seq<T>, i: nat, x: T): (r: seq<T>)
    requires i <= |s|
    ensures |r| == |s| + 1
    ensures forall j :: 0 <= j < |r| ==> r[j] == if j < i then s[j] else if j == i then x else s[j - 1]
  {
    s[..i] + [x] + s[i..]
  }

  ghost function RemoveAt<T>(s: seq<T>, i: nat): (r: seq<T>)
    requires i < |s|
    ensures |r| == |s| - 1
    ensures forall j :: 0 <= j < |r| ==> r[j] == if j < i then s[j] else s[j + 1]
  {
    s[..i] + s[i+1..]
  }

  // ----- a level and what it routes to -----

  ghost function Flat<N>(level: Level<N>): seq<Entry<N>> {
    if level == [] then [] else level[0].es + Flat(level[1..])
  }

  ghost function NodeRoutes<N>(es: seq<Entry<N>>, elb: nat): (r: seq<Route<N>>)
    ensures |r| == |es|
  {
    seq(|es|, i requires 0 <= i < |es| =>
      Route(es[i].key, if i < |es| - 1 then es[i].key else elb, es[i].val))
  }

  ghost function LevelRoutes<N>(level: Level<N>, ups: seq<Route<N>>): seq<Route<N>> {
    if level == [] || ups == [] then []
    else NodeRoutes(level[0].es, ups[0].elb) + LevelRoutes(level[1..], ups[1..])
  }

  /** The routes a tower suffix offers to the level below it; no levels at all means a root pointer. */
  ghost function Routes<N>(u: Tower<N>, root: N): seq<Route<N>> {
    if u == [] then [Route(0, 0, Child(root))] else LevelRoutes(u[0], Routes(u[1..], root))
  }

  // ----- ordering invariants -----

  ghost predicate Desc<N>(es: seq<Entry<N>>) {
    forall i, j :: 0 <= i < j < |es| ==> es[i].key > es[j].key
  }

  ghost predicate NodeOK<N>(g: View<N>, K: nat) {
    && |g.es| <= K
    && Desc(g.es)
    && forall i :: 0 <= i < |g.es| ==> g.es[i].key > 0 && g.es[i].val != Null
  }

  ghost predicate Ordered<N>(r: seq<Route<N>>) {
    && (forall i :: 0 <= i < |r| ==> r[i].elb <= r[i].sep)
    && (forall i, j :: 0 <= i < j < |r| ==> r[j].sep < r[i].elb)
  }

  /** Node i is the one its route points to; separator <= its keys < the bound of the previous route. */
  ghost predicate LinkedAt<N>(level: Level<N>, ups: seq<Route<N>>, i: nat)
    requires i < |level| == |ups|
  {
    && ups[i].val == Child(level[i].id)
    && (level[i].es != [] ==> ups[i].sep <= level[i].es[|level[i].es| - 1].key)
    && (level[i].es != [] && i > 0 ==> level[i].es[0].key < ups[i - 1].elb)
  }

  ghost predicate Linked<N>(level: Level<N>, ups: seq<Route<N>>) {
    && |level| == |ups|
    && forall i :: 0 <= i < |level| ==> LinkedAt(level, ups, i)
  }

  ghost predicate NodesOK<N>(level: Level<N>, K: nat) {
    forall i :: 0 <= i < |level| ==> NodeOK(level[i], K)
  }

  ghost predicate NonEmpty<N>(level: Level<N>) {
    forall i :: 0 <= i < |level| ==> level[i].es != []
  }

  ghost predicate LevelOK<N>(level: Level<N>, ups: seq<Route<N>>, K: nat, top: bool) {
    Linked(level, ups) && NodesOK(level, K) && (top || NonEmpty(level))
  }

  ghost predicate WF<N>(u: Tower<N>, root: N, K: nat) {
    u != [] ==> WF(u[1..], root, K) && LevelOK(u[0], Routes(u[1..], root), K, |u| == 1)
  }

  /** Route p is the one a search for k takes. */
  ghost predicate Covers<N>(r: seq<Route<N>>, p: nat, k: nat) {
    p < |r| && r[p].elb <= k && (p > 0 ==> k < r[p - 1].elb)
  }

  // ----- algebra of Flat and LevelRoutes -----

  lemma {:induction false} FlatConcat<N>(a: Level<N>, b: Level<N>)
    ensures Flat(a + b) == Flat(a) + Flat(b)
  {
    if a == [] {
      assert a + b == b;
    } else {
      FlatConcat(a[1..], b);
      assert (a + b)[1..] == a[1..] + b;
      assert Flat(a + b) == a[0].es + (Flat(a[1..]) + Flat(b));
    }
  }

  lemma {:induction false} RoutesConcat<N>(a: Level<N>, b: Level<N>, ua: seq<Route<N>>, ub: seq<Route<N>>)
    requires |a| == |ua| && |b| == |ub|
    ensures LevelRoutes(a + b, ua + ub) == LevelRoutes(a, ua) + LevelRoutes(b, ub)
  {
    if a == [] {
      assert a + b == b && ua + ub == ub;
    } else {
      RoutesConcat(a[1..], b, ua[1..], ub);
      assert (a + b)[1..] == a[1..] + b && (ua + ub)[1..] == ua[1..] + ub;
    }
  }

  lemma {:induction false} RoutesFlat<N>(level: Level<N>, ups: seq<Route<N>>)
    requires |level| == |ups|
    ensures |LevelRoutes(level, ups)| == |Flat(level)|
    ensures forall p :: 0 <= p < |Flat(level)| ==>
      LevelRoutes(level, ups)[p].sep == Flat(level)[p].key && LevelRoutes(level, ups)[p].val == Flat(level)[p].val
  {
    if level != [] {
      RoutesFlat(level[1..], ups[1..]);
    }
  }

  /** Node j cut out of its level, the form every local change is stated in. */
  lemma {:induction false} FlatCut<N>(a: Level<N>, g: View<N>, b: Level<N>)
    ensures Flat(a + [g] + b) == Flat(a) + g.es + Flat(b)
  {
    FlatConcat(a + [g], b);
    FlatConcat(a, [g]);
    assert Flat([g]) == g.es + Flat([]) == g.es;
  }

  lemma {:induction false} RoutesCut<N>(a: Level<N>, g: View<N>, b: Level<N>, ua: seq<Route<N>>, x: Route<N>, ub: seq<Route<N>>)
    requires |a| == |ua| && |b| == |ub|
    ensures LevelRoutes(a + [g] + b, ua + [x] + ub)
         == LevelRoutes(a, ua) + NodeRoutes(g.es, x.elb) + LevelRoutes(b, ub)
    ensures |LevelRoutes(a, ua)| == |Flat(a)|
  {
    RoutesConcat(a + [g], b, ua + [x], ub);
    RoutesConcat(a, [g], ua, [x]);
    assert LevelRoutes([g], [x]) == NodeRoutes(g.es, x.elb) + LevelRoutes([], []) == NodeRoutes(g.es, x.elb);
    RoutesFlat(a, ua);
  }

  /** Only the bounds of the routes above matter for the routes below. */
  lemma {:induction false} RoutesByBound<N>(level: Level<N>, ups: seq<Route<N>>, ups': seq<Route<N>>)
    requires |level| == |ups| == |ups'|
    requires forall i :: 0 <= i < |ups| ==> ups[i].elb == ups'[i].elb
    ensures LevelRoutes(level, ups) == LevelRoutes(level, ups')
  {
    if level != [] {
      RoutesByBound(level[1..], ups[1..], ups'[1..]);
    }
  }

  // ----- the order is inherited level by level -----

  lemma {:induction false} OrderedTail<N>(r: seq<Route<N>>)
    requires Ordered(r) && r != []
    ensures Ordered(r[1..])
  {
  }

  lemma {:induction false} LevelTail<N>(level: Level<N>, ups: seq<Route<N>>, K: nat)
    requires LevelOK(level, ups, K, false) && level != []
    ensures LevelOK(level[1..], ups[1..], K, false)
  {
    forall i | 0 <= i < |level[1..]| ensures LinkedAt(level[1..], ups[1..], i) {
      assert LinkedAt(level, ups, i + 1);
    }
  }

  lemma {:induction false} RoutesBelow<N>(level: Level<N>, ups: seq<Route<N>>, K: nat, b: nat)
    requires LevelOK(level, ups, K, false) && Ordered(ups)
    requires level != [] ==> level[0].es[0].key < b
    ensures forall p :: 0 <= p < |LevelRoutes(level, ups)| ==> LevelRoutes(level, ups)[p].sep < b
  {
    if level != [] {
      assert LinkedAt(level, ups, 0) && NodeOK(level[0], K);
      if |level| > 1 {
        assert LinkedAt(level, ups, 1);
      }
      LevelTail(level, ups, K);
      RoutesBelow(level[1..], ups[1..], K, b);
    }
  }

  lemma {:induction false} NodeRoutesOrdered<N>(g: View<N>, x: Route<N>, K: nat)
    requires NodeOK(g, K) && g.es != [] && x.elb <= x.sep <= g.es[|g.es| - 1].key
    ensures Ordered(NodeRoutes(g.es, x.elb))
    ensures forall i :: 0 <= i < |g.es| ==> x.elb <= NodeRoutes(g.es, x.elb)[i].elb
  {
  }

  lemma {:induction false} LevelRoutesOrdered<N>(level: Level<N>, ups: seq<Route<N>>, K: nat)
    requires LevelOK(level, ups, K, false) && Ordered(ups)
    ensures Ordered(LevelRoutes(level, ups))
  {
    if level != [] {
      OrderedTail(ups);
      LevelTail(level, ups, K);
      LevelRoutesOrdered(level[1..], ups[1..], K);
      assert LinkedAt(level, ups, 0) && NodeOK(level[0], K);
      if |level| > 1 {
        assert LinkedAt(level, ups, 1);
      }
      RoutesBelow(level[1..], ups[1..], K, ups[0].elb);
      NodeRoutesOrdered(level[0], ups[0], K);
    }
  }

  lemma {:induction false} RoutesOrdered<N>(u: Tower<N>, root: N, K: nat)
    requires WF(u, root, K)
    ensures Ordered(Routes(u, root))
  {
    if u != [] {
      RoutesOrdered(u[1..], root, K);
      var ups := Routes(u[1..], root);
      if NonEmpty(u[0]) {
        LevelRoutesOrdered(u[0], ups, K);
      } else {
        assert u[1..] == [] && |u[0]| == 1;
        assert LevelRoutes(u[0], ups) == NodeRoutes([], 0) + LevelRoutes([], []);
      }
    }
  }

  lemma {:induction false} FlatDesc<N>(u: Tower<N>, root: N, K: nat)
    requires u != [] && WF(u, root, K)
    ensures |Flat(u[0])| == |Routes(u, root)|
    ensures forall p :: 0 <= p < |Flat(u[0])| ==> Routes(u, root)[p].sep == Flat(u[0])[p].key
    ensures forall p :: 0 <= p < |Flat(u[0])| ==> Routes(u, root)[p].val == Flat(u[0])[p].val
    ensures Desc(Flat(u[0]))
  {
    RoutesOrdered(u, root, K);
    RoutesFlat(u[0], Routes(u[1..], root));
  }

  // ----- positions -----

  ghost function Off<N>(level: Level<N>, j: nat): nat
    requires j <= |level|
  {
    |Flat(level[..j])|
  }

  ghost function Put<N>(level: Level<N>, j: nat, es: seq<Entry<N>>): (r: Level<N>)
    requires j < |level|
    ensures |r| == |level|
  {
    level[j := View(level[j].id, es)]
  }

  /** q is the first slot whose key is not above k: the result of the linear search in one node. */
  ghost predicate IsPos<N>(es: seq<Entry<N>>, k: nat, q: nat) {
    && q <= |es|
    && (forall i :: 0 <= i < q ==> es[i].key > k)
    && (q < |es| ==> es[q].key <= k)
  }

  lemma {:induction false} CutAt<N>(level: Level<N>, ups: seq<Route<N>>, j: nat)
    requires j < |level| == |ups|
    ensures Off(level, j) + |level[j].es| <= |Flat(level)|
    ensures Flat(level) == Flat(level[..j]) + level[j].es + Flat(level[j+1..])
    ensures LevelRoutes(level, ups)
         == LevelRoutes(level[..j], ups[..j]) + NodeRoutes(level[j].es, ups[j].elb) + LevelRoutes(level[j+1..], ups[j+1..])
    ensures |LevelRoutes(level[..j], ups[..j])| == Off(level, j)
    ensures |LevelRoutes(level, ups)| == |Flat(level)|
  {
    assert level == level[..j] + [level[j]] + level[j+1..];
    assert ups == ups[..j] + [ups[j]] + ups[j+1..];
    FlatCut(level[..j], level[j], level[j+1..]);
    RoutesCut(level[..j], level[j], level[j+1..], ups[..j], ups[j], ups[j+1..]);
    RoutesFlat(level, ups);
  }

  /** Replacing the entries of one node replaces its share of the entries and routes of the level. */
  lemma {:induction false} PutCut<N>(level: Level<N>, ups: seq<Route<N>>, j: nat, es: seq<Entry<N>>)
    requires j < |level| == |ups|
    ensures var a, b, ra, rb := Flat(level[..j]), Flat(level[j+1..]),
                                LevelRoutes(level[..j], ups[..j]), LevelRoutes(level[j+1..], ups[j+1..]);
      && |a| == |ra| == Off(level, j) && |b| == |rb|
      && Flat(level) == a + level[j].es + b && Flat(Put(level, j, es)) == a + es + b
      && LevelRoutes(level, ups) == ra + NodeRoutes(level[j].es, ups[j].elb) + rb
      && LevelRoutes(Put(level, j, es), ups) == ra + NodeRoutes(es, ups[j].elb) + rb
  {

    CutAt(level, ups, j);
    CutAt(Put(level, j, es), ups, j);
    RoutesFlat(level[j+1..], ups[j+1..]);
    assert Put(level, j, es)[..j] == level[..j] && Put(level, j, es)[j+1..] == level[j+1..];
  }

  lemma {:induction false} OffNext<N>(level: Level<N>, j: nat)
    requires j < |level|
    ensures Off(level, j + 1) == Off(level, j) + |level[j].es|
  {
    assert level[..j + 1] == level[..j] + [level[j]] + [];
    FlatCut(level[..j], level[j], []);
  }

  /** The last route of a node carries the node's own bound. */
  lemma {:induction false} LastBound<N>(level: Level<N>, ups: seq<Route<N>>, j: nat)
    requires j < |level| == |ups| && level[j].es != []
    ensures Off(level, j + 1) <= |LevelRoutes(level, ups)|
    ensures Off(level, j + 1) > 0 && LevelRoutes(level, ups)[Off(level, j + 1) - 1].elb == ups[j].elb
  {
    OffNext(level, j);
    CutAt(level, ups, j);
  }

  lemma {:induction false} RouteAt<N>(level: Level<N>, ups: seq<Route<N>>, j: nat, q: nat)
    requires j < |level| == |ups| && q < |level[j].es|
    ensures Off(level, j) + q < |LevelRoutes(level, ups)| == |Flat(level)|
    ensures LevelRoutes(level, ups)[Off(level, j) + q] == NodeRoutes(level[j].es, ups[j].elb)[q]
    ensures Flat(level)[Off(level, j) + q] == level[j].es[q]
  {
    CutAt(level, ups, j);
  }

  /** One step down: the slot found in a covering node, or its last slot, covers the key below. */
  lemma {:induction false} StepDown<N>(level: Level<N>, ups: seq<Route<N>>, j: nat, q: nat, k: nat)
    requires |level| == |ups| && NonEmpty(level) && Covers(ups, j, k)
    requires IsPos(level[j].es, k, q)
    ensures Covers(LevelRoutes(level, ups), Off(level, j) + if q < |level[j].es| then q else q - 1, k)
  {
    hide Flat; hide LevelRoutes; hide Off;
    var q' := if q < |level[j].es| then q else q - 1;
    RouteAt(level, ups, j, q');
    if q' > 0 {
      RouteAt(level, ups, j, q' - 1);
    } else if j > 0 {
      LastBound(level, ups, j - 1);
    } else {
      OffStart(level);
    }
  }

  lemma {:induction false} OffStart<N>(level: Level<N>)
    ensures Off(level, 0) == 0
  {
    assert level[..0] == [];
  }

  /** The position found in a covering node is the position in the whole level. */
  lemma {:induction false} PosInLevel<N>(level: Level<N>, ups: seq<Route<N>>, K: nat, j: nat, q: nat, k: nat)
    requires Linked(level, ups) && NodesOK(level, K) && Ordered(ups) && Desc(Flat(level))
    requires Covers(ups, j, k) && IsPos(level[j].es, k, q)
    ensures Off(level, j) + |level[j].es| <= |Flat(level)|
    ensures forall i :: 0 <= i < Off(level, j) + q ==> Flat(level)[i].key > k
    ensures q < |level[j].es| ==> Flat(level)[Off(level, j) + q].key == level[j].es[q].key
    ensures forall i :: Off(level, j) + q <= i < |Flat(level)| && (i == Off(level, j) + q ==> q == |level[j].es|) ==>
      Flat(level)[i].key < k
  {
    hide Flat; hide LevelRoutes; hide NodeRoutes; hide LinkedAt; hide Ordered; hide Desc;
    CutAt(level, ups, j);
    assert NodeOK(level[j], K);
    AllAbove(level, ups, K, j, k);
    AllBelow(level, ups, K, j, k, level[j+1..]);
    PosMid(Flat(level[..j]), level[j].es, Flat(level[j+1..]), q, k);
  }

  lemma {:induction false} PosMid<N>(a: seq<Entry<N>>, es: seq<Entry<N>>, b: seq<Entry<N>>, q: nat, k: nat)
    requires Desc(es) && IsPos(es, k, q)
    requires (forall i :: 0 <= i < |a| ==> a[i].key > k) && (forall i :: 0 <= i < |b| ==> b[i].key < k)
    ensures forall i :: 0 <= i < |a| + q ==> (a + es + b)[i].key > k
    ensures q < |es| ==> (a + es + b)[|a| + q].key == es[q].key
    ensures forall i :: |a| + q <= i < |a + es + b| && (i == |a| + q ==> q == |es|) ==> (a + es + b)[i].key < k
  {
  }

  lemma {:induction false} InFlat<N>(level: Level<N>, i: nat) returns (j: nat, q: nat)
    requires i < |Flat(level)|
    ensures j < |level| && q < |level[j].es| && Flat(level)[i] == level[j].es[q]
  {
    if i < |level[0].es| {
      j, q := 0, i;
    } else {
      j, q := InFlat(level[1..], i - |level[0].es|);
      j := j + 1;
    }
  }

  lemma {:induction false} AllAbove<N>(level: Level<N>, ups: seq<Route<N>>, K: nat, j: nat, k: nat)
    requires Linked(level, ups) && NodesOK(level, K) && Ordered(ups) && Covers(ups, j, k)
    ensures forall i :: 0 <= i < |Flat(level[..j])| ==> Flat(level[..j])[i].key > k
  {
    forall i | 0 <= i < |Flat(level[..j])| ensures Flat(level[..j])[i].key > k {
      var l, q := InFlat(level[..j], i);
      assert LinkedAt(level, ups, l) && NodeOK(level[l], K);
      assert level[l].es[q].key >= level[l].es[|level[l].es| - 1].key;
      assert l < j - 1 ==> ups[j - 1].sep < ups[l].elb;
    }
  }

  lemma {:induction false} AllBelow<N>(level: Level<N>, ups: seq<Route<N>>, K: nat, j: nat, k: nat, b: Level<N>)
    requires Linked(level, ups) && NodesOK(level, K) && Ordered(ups) && Covers(ups, j, k)
    requires b == level[j+1..]
    ensures forall i :: 0 <= i < |Flat(b)| ==> Flat(b)[i].key < k
  {
    forall i | 0 <= i < |Flat(b)| ensures Flat(b)[i].key < k {
      var l, q := InFlat(b, i);
      assert LinkedAt(level, ups, j + 1 + l) && NodeOK(level[j + 1 + l], K);
      assert level[j + 1 + l].es[q].key <= level[j + 1 + l].es[0].key;
      assert j < j + l ==> ups[j + l].sep < ups[j].elb;
    }
  }

  lemma {:induction false} CoversUnique<N>(r: seq<Route<N>>, p: nat, p': nat, k: nat)
    requires Ordered(r) && Covers(r, p, k) && Covers(r, p', k)
    ensures p == p'
  {
  }

  ghost predicate Tight<N>(r: seq<Route<N>>, k: nat) {
    exists p: nat :: Covers(r, p, k) && r[p].sep <= k
  }

  /** A key the lower routes cover without lowering needs no lowering in the node above either. */
  lemma {:induction false} TightStep<N>(level: Level<N>, ups: seq<Route<N>>, K: nat, j: nat, q: nat, k: nat)
    requires LevelOK(level, ups, K, false) && Ordered(ups) && Covers(ups, j, k)
    requires IsPos(level[j].es, k, q)
    requires Tight(LevelRoutes(level, ups), k)
    ensures q < |level[j].es| && ups[j].sep <= k
  {
    hide LevelRoutes; hide Flat; hide Off;
    var r := LevelRoutes(level, ups);
    var p: nat :| Covers(r, p, k) && r[p].sep <= k;
    LevelRoutesOrdered(level, ups, K);
    StepDown(level, ups, j, q, k);
    var q' := if q < |level[j].es| then q else q - 1;
    CoversUnique(r, p, Off(level, j) + q', k);
    RouteAt(level, ups, j, q');
    assert LinkedAt(level, ups, j) && NodeOK(level[j], K);
  }

  // ----- towers by index -----

  lemma {:induction false} SuffixStep<N>(t: Tower<N>, i: nat)
    requires i < |t|
    ensures t[i..][1..] == t[i+1..] && t[i..][0] == t[i]
  {
  }

  lemma {:induction false} WFUp<N>(t: Tower<N>, root: N, K: nat, lo: nat, i: nat)
    requires lo <= i <= |t| && WF(t[lo..], root, K)
    ensures WF(t[i..], root, K)
    decreases i - lo
  {
    if lo < i {
      SuffixStep(t, lo);
      WFUp(t, root, K, lo + 1, i);
    }
  }

  lemma {:induction false} LevelAt<N>(t: Tower<N>, root: N, K: nat, i: nat)
    requires i < |t| && WF(t[i..], root, K)
    ensures WF(t[i+1..], root, K)
    ensures LevelOK(t[i], Routes(t[i+1..], root), K, i + 1 == |t|)
    ensures Ordered(Routes(t[i+1..], root)) && Ordered(Routes(t[i..], root))
    ensures Routes(t[i..], root) == LevelRoutes(t[i], Routes(t[i+1..], root))
    ensures |Flat(t[i])| == |Routes(t[i..], root)| && Desc(Flat(t[i]))
    ensures forall p :: 0 <= p < |Flat(t[i])| ==> Routes(t[i..], root)[p].sep == Flat(t[i])[p].key
    ensures forall p :: 0 <= p < |Flat(t[i])| ==> Routes(t[i..], root)[p].val == Flat(t[i])[p].val
  {
    SuffixStep(t, i);
    RoutesOrdered(t[i+1..], root, K);
    RoutesOrdered(t[i..], root, K);
    FlatDesc(t[i..], root, K);
  }

  /** Some route covers k at every height. */
  lemma {:induction false} CoverExists<N>(t: Tower<N>, root: N, K: nat, i: nat, k: nat) returns (p: nat)
    requires i <= |t| && WF(t[i..], root, K)
    requires forall l :: i <= l < |t| ==> NonEmpty(t[l])
    ensures Covers(Routes(t[i..], root), p, k)
    decreases |t| - i
  {
    if i == |t| {
      p := 0;
    } else {
      LevelAt(t, root, K, i);
      var j := CoverExists(t, root, K, i + 1, k);
      var q := FindPos(t[i][j].es, k);
      StepDown(t[i], Routes(t[i+1..], root), j, q, k);
      p := Off(t[i], j) + if q < |t[i][j].es| then q else q - 1;
    }
  }

  lemma {:induction false} FindPos<N>(es: seq<Entry<N>>, k: nat) returns (q: nat)
    ensures IsPos(es, k, q)
  {
    if es == [] || es[0].key <= k {
      q := 0;
    } else {
      q := FindPos(es[1..], k);
      assert forall i :: 0 < i < |es| ==> es[i] == es[1..][i - 1];
      q := q + 1;
    }
  }

  lemma {:induction false} TightUp<N>(t: Tower<N>, root: N, K: nat, lo: nat, i: nat, k: nat)
    requires lo <= i <= |t| && WF(t[lo..], root, K)
    requires forall l :: lo <= l < |t| ==> NonEmpty(t[l])
    requires Tight(Routes(t[lo..], root), k)
    ensures Tight(Routes(t[i..], root), k)
    decreases i - lo
  {
    if lo < i {
      LevelAt(t, root, K, lo);
      var j := CoverExists(t, root, K, lo + 1, k);
      var q := FindPos(t[lo][j].es, k);
      TightStep(t[lo], Routes(t[lo+1..], root), K, j, q, k);
      TightUp(t, root, K, lo + 1, i, k);
    }
  }

  // ----- lowering the last separator of a node -----

  /** Same pointers and bounds, separators at most the old ones. */
  ghost predicate Lowered<N>(r: seq<Route<N>>, r': seq<Route<N>>) {
    && |r| == |r'|
    && forall i :: 0 <= i < |r| ==> r'[i].val == r[i].val && r'[i].elb == r[i].elb && r'[i].sep <= r[i].sep
  }

  ghost function LowerLast<N>(es: seq<Entry<N>>, k: nat): (r: seq<Entry<N>>)
    requires es != []
    ensures |r| == |es|
  {
    es[|es| - 1 := Entry(k, es[|es| - 1].val)]
  }

  lemma {:induction false} LowerNode<N>(g: View<N>, K: nat, elb: nat, k: nat)
    requires NodeOK(g, K) && g.es != [] && elb <= k && 0 < k && IsPos(g.es, k, |g.es|)
    ensures NodeOK(View(g.id, LowerLast(g.es, k)), K)
    ensures Lowered(NodeRoutes(g.es, elb), NodeRoutes(LowerLast(g.es, k), elb))
  {
  }

  lemma {:induction false} LowerLevelOK<N>(level: Level<N>, ups: seq<Route<N>>, K: nat, j: nat, k: nat)
    requires LevelOK(level, ups, K, false) && Ordered(ups) && Covers(ups, j, k) && ups[j].sep <= k
    requires 0 < k && IsPos(level[j].es, k, |level[j].es|)
    ensures LevelOK(Put(level, j, LowerLast(level[j].es, k)), ups, K, false)
  {
    var level' := Put(level, j, LowerLast(level[j].es, k));
    forall i | 0 <= i < |level'| ensures LinkedAt(level', ups, i) && NodeOK(level'[i], K) && level'[i].es != [] {
      assert LinkedAt(level, ups, i) && NodeOK(level[i], K) && level[i].es != [];
      if i == j {
        LowerNode(level[j], K, ups[j].elb, k);
      }
    }
  }

  lemma {:induction false} LowerLevel<N>(level: Level<N>, ups: seq<Route<N>>, K: nat, j: nat, k: nat)
    requires LevelOK(level, ups, K, false) && Ordered(ups) && Covers(ups, j, k) && ups[j].sep <= k
    requires 0 < k && IsPos(level[j].es, k, |level[j].es|)
    ensures LevelOK(Put(level, j, LowerLast(level[j].es, k)), ups, K, false)
    ensures Lowered(LevelRoutes(level, ups), LevelRoutes(Put(level, j, LowerLast(level[j].es, k)), ups))
    ensures Off(level, j) + |level[j].es| - 1 < |LevelRoutes(level, ups)|
    ensures LevelRoutes(Put(level, j, LowerLast(level[j].es, k)), ups)[Off(level, j) + |level[j].es| - 1].sep == k
  {
    hide Flat; hide LevelRoutes;
    LowerLevelOK(level, ups, K, j, k);
    LowerNode(level[j], K, ups[j].elb, k);
    PutCut(level, ups, j, LowerLast(level[j].es, k));
    LoweredMid(LevelRoutes(level[..j], ups[..j]), NodeRoutes(level[j].es, ups[j].elb),
               NodeRoutes(LowerLast(level[j].es, k), ups[j].elb), LevelRoutes(level[j+1..], ups[j+1..]));
  }

  lemma {:induction false} LoweredMid<N>(a: seq<Route<N>>, m: seq<Route<N>>, m': seq<Route<N>>, b: seq<Route<N>>)
    requires Lowered(m, m')
    ensures Lowered(a + m + b, a + m' + b)
    ensures forall i :: 0 <= i < |m'| ==> (a + m' + b)[|a| + i] == m'[i]
  {
  }

  lemma {:induction false} LinkedLowered<N>(level: Level<N>, r: seq<Route<N>>, r': seq<Route<N>>)
    requires Linked(level, r) && Lowered(r, r')
    ensures Linked(level, r')
  {
    forall i | 0 <= i < |level| ensures LinkedAt(level, r', i) {
      assert LinkedAt(level, r, i);
    }
  }

  /** Lowering a separator at height l keeps everything below it, down to lo. */
  lemma {:induction false} LowerTower<N>(t: Tower<N>, t': Tower<N>, root: N, K: nat, lo: nat, l: nat)
    requires lo <= l < |t| == |t'| && WF(t[lo..], root, K) && WF(t'[l..], root, K)
    requires forall i :: lo <= i < l ==> t'[i] == t[i]
    requires Lowered(Routes(t[l..], root), Routes(t'[l..], root))
    ensures WF(t'[lo..], root, K) && Lowered(Routes(t[lo..], root), Routes(t'[lo..], root))
    ensures lo < l ==> Routes(t'[lo..], root) == Routes(t[lo..], root)
    decreases l - lo
  {
    if lo < l {
      LevelAt(t, root, K, lo);
      LowerTower(t, t', root, K, lo + 1, l);
      SuffixStep(t', lo);
      LinkedLowered(t[lo], Routes(t[lo+1..], root), Routes(t'[lo+1..], root));
      RoutesByBound(t[lo], Routes(t[lo+1..], root), Routes(t'[lo+1..], root));
      assert LevelOK(t'[lo], Routes(t'[lo+1..], root), K, false);
    }
  }
}
