/** Interval search of include/segtree.h: a search tree ordered by start points whose nodes know the largest end
    point below them.  First and next enumerate the intervals that meet a given one, in order, none skipped. */
module SegTree {
  import opened TreeIter

  /** The subtree fields hold the true maxima, and the tree is ordered by start points. */
  ghost predicate MaxOK(t: Tree)
    reads Nodes(t, In)
  {
    t.Bin? ==>
      (NodesWithin(t);
       && IsMax(Nodes(t, In), t.n.subtree) && MaxOK(t.l) && MaxOK(t.r))
  }

  ghost predicate IsMax(s: seq<TreeNode>, m: int)
    reads s
  {
    && (forall i :: 0 <= i < |s| ==> s[i].last <= m)
    && (exists i :: 0 <= i < |s| && s[i].last == m)
  }

  ghost predicate Sorted(s: seq<TreeNode>)
    reads s
  {
    forall i, j :: 0 <= i < j < |s| ==> s[i].start <= s[j].start
  }

  ghost predicate Valid(t: Tree)
    reads Nodes(t, In)
  {
    Linked(t, null) && MaxOK(t) && Sorted(Nodes(t, In))
  }

  /** The interval of the node meets the one from start to end. */
  predicate Meets(n: TreeNode, start: int, end: int)
    reads n
  {
    n.start <= end && start <= n.last
  }

  ghost predicate NoneIn(t: Tree, start: int, end: int, from: int, to: int)
    requires 0 <= from <= to <= |Nodes(t, In)|
    reads Nodes(t, In)
  {
    forall i :: from <= i < to ==> !Meets(Nodes(t, In)[i], start, end)
  }

  /** r is the first match from position i on. */
  ghost predicate FirstFrom(t: Tree, start: int, end: int, i: int, r: TreeNode?, k: int)
    reads Nodes(t, In)
  {
    && 0 <= i <= k <= |Nodes(t, In)| && NoneIn(t, start, end, i, k)
    && if k == |Nodes(t, In)| then r == null else r == Nodes(t, In)[k] && Meets(Nodes(t, In)[k], start, end)
  }

  lemma {:induction false} PartMax(t: Tree, s: Tree, a: int)
    requires MaxOK(t) && Part(t, s, In, a) && s.Bin?
    ensures 0 <= a && a + Size(s) <= |Nodes(t, In)|
    ensures forall i :: a <= i < a + Size(s) ==> Nodes(t, In)[i].last <= s.n.subtree
    ensures exists i :: a <= i < a + Size(s) && Nodes(t, In)[i].last == s.n.subtree
    decreases t
  {
    hide Nodes; hide Part; hide Size;
    PartNodes(t, s, In, a);
    PartMaxOK(t, s, a);
    var i :| 0 <= i < |Nodes(s, In)| && Nodes(s, In)[i].last == s.n.subtree;
    assert Nodes(t, In)[a + i].last == s.n.subtree;
    forall i | a <= i < a + Size(s) ensures Nodes(t, In)[i].last <= s.n.subtree {
      assert Nodes(t, In)[a + (i - a)] == Nodes(s, In)[i - a];
    }
  }

  lemma {:induction false} PartMaxOK(t: Tree, s: Tree, a: int)
    requires MaxOK(t) && Part(t, s, In, a) && s.Bin?
    ensures IsMax(Nodes(s, In), s.n.subtree)
    decreases t
  {
    if !(s == t && a == 0) {
      if Part(t.l, s, In, a - LeftAt(In)) {
        PartMaxOK(t.l, s, a - LeftAt(In));
      } else {
        PartMaxOK(t.r, s, a - RightAt(t.l, In));
      }
    }
  }

  lemma {:induction false} NoneYet(t: Tree, start: int, end: int, s: Tree, a: int)
    requires Part(t, s, In, a)
    ensures 0 <= a <= |Nodes(t, In)| && NoneIn(t, start, end, a, a)
  {
    PartNodes(t, s, In, a);
  }

  /** All end points of a side are too early. */
  ghost predicate Early(side: Tree, start: int)
    reads if side.Bin? then {side.n} else {}
  {
    side.Bin? ==> side.n.subtree < start
  }

  lemma {:induction false} SkipSide(t: Tree, start: int, end: int, side: Tree, from: int, b: int)
    requires MaxOK(t) && Part(t, side, In, b) && Early(side, start)
    requires 0 <= from <= b <= |Nodes(t, In)| && NoneIn(t, start, end, from, b)
    ensures b + Size(side) <= |Nodes(t, In)| && NoneIn(t, start, end, from, b + Size(side))
    ensures forall i :: b <= i < b + Size(side) ==> Nodes(t, In)[i].last < start
  {
    hide Nodes; hide Part; hide MaxOK;
    PartNodes(t, side, In, b);
    if side.Bin? {
      PartMax(t, side, b);
    }
  }

  lemma {:induction false} SkipLeft(t: Tree, start: int, end: int, s: Tree, from: int, a: int)
    requires MaxOK(t) && Part(t, s, In, a) && s.Bin? && Early(s.l, start)
    requires 0 <= from <= a <= |Nodes(t, In)| && NoneIn(t, start, end, from, a)
    ensures a + Size(s.l) < |Nodes(t, In)| && Nodes(t, In)[a + Size(s.l)] == s.n
    ensures NoneIn(t, start, end, from, a + Size(s.l))
    ensures forall i :: a <= i < a + Size(s.l) ==> Nodes(t, In)[i].last < start
  {
    hide Nodes; hide Part; hide MaxOK; hide NoneIn; hide Size;
    PartSides(t, s, In, a);
    SkipSide(t, start, end, s.l, from, a);
    TopAt(t, s, a);
  }

  lemma {:induction false} TopAt(t: Tree, s: Tree, a: int)
    requires Part(t, s, In, a) && s.Bin?
    ensures 0 <= a && a + Size(s.l) < |Nodes(t, In)| && Nodes(t, In)[a + Size(s.l)] == s.n
    ensures a + Size(s) <= |Nodes(t, In)| && Size(s) == Size(s.l) + 1 + Size(s.r)
  {
    hide Nodes; hide Part; hide Size;
    PartNodes(t, s, In, a);
    Parts(s, In);
    assert Nodes(t, In)[a + RootAt(s, In)] == s.n;
  }

  lemma {:induction false} SkipRoot(t: Tree, start: int, end: int, s: Tree, from: int, a: int)
    requires Part(t, s, In, a) && s.Bin? && !Meets(s.n, start, end)
    requires 0 <= from <= a + Size(s.l) < |Nodes(t, In)| && NoneIn(t, start, end, from, a + Size(s.l))
    ensures a + Size(s.l) + 1 <= |Nodes(t, In)| && NoneIn(t, start, end, from, a + Size(s.l) + 1)
  {
    hide Nodes; hide Part; hide Size;
    TopAt(t, s, a);
  }

  /** The left side was skipped, the node does not meet, and on the right there is nothing either: then there is
      no match behind, for the late end point below the node belongs to an interval that starts too late. */
  lemma {:induction false} NothingLeft(t: Tree, start: int, end: int, s: Tree, from: int, a: int)
    requires Valid(t) && Part(t, s, In, a) && s.Bin? && s.n.subtree >= start && Early(s.l, start)
    requires 0 <= from <= a && a + Size(s.l) < |Nodes(t, In)| && NoneIn(t, start, end, from, a + Size(s.l))
    requires s.n.start > end || (s.n.last < start && Early(s.r, start))
    ensures NoneIn(t, start, end, from, |Nodes(t, In)|)
  {
    hide Nodes; hide Part; hide Size; hide MaxOK; hide Linked;
    TopAt(t, s, a);
    var top := a + Size(s.l);
    if s.n.start > end {
      forall i | from <= i < |Nodes(t, In)| ensures !Meets(Nodes(t, In)[i], start, end) {
        assert i > top ==> Nodes(t, In)[top].start <= Nodes(t, In)[i].start;
      }
    } else {
      PartSides(t, s, In, a);
      NoneYet(t, start, end, s.l, a);
      SkipSide(t, start, end, s.l, a, a);
      NoneYet(t, start, end, s.r, top + 1);
      SkipSide(t, start, end, s.r, top + 1, top + 1);
      PartMax(t, s, a);
      assert false;
    }
  }

  /** The search below a node that has a late enough end point below it; s starts at position a. */
  method Search(node0: TreeNode, start: int, end: int, ghost t: Tree, ghost s0: Tree, ghost a0: int)
    returns (r: TreeNode?, ghost k: int)
    requires Valid(t) && Part(t, s0, In, a0) && s0.Bin? && node0 == s0.n && node0.subtree >= start
    ensures Valid(t) && FirstFrom(t, start, end, a0, r, k)
  {
    hide Nodes; hide Linked; hide Part; hide Size; hide MaxOK; hide Sorted; hide NoneIn;
    var node := node0;
    ghost var s, a := s0, a0;
    NoneYet(t, start, end, s, a);
    while true
      invariant Valid(t) && Part(t, s, In, a) && s.Bin? && node == s.n && node.subtree >= start
      invariant 0 <= a0 <= a <= |Nodes(t, In)| && NoneIn(t, start, end, a0, a)
      decreases s
    {
      PartLinked(t, s, In, a, null);
      PartSides(t, s, In, a);
      if node.left != null && node.left.subtree >= start {
        node := node.left;
        s := s.l;
      } else {
        SkipLeft(t, start, end, s, a0, a);
        if node.start <= end && start <= node.last {
          k := a + RootAt(s, In);
          return node, k;
        }
        if node.start <= end && node.right != null && node.right.subtree >= start {
          SkipRoot(t, start, end, s, a0, a);
          a := a + RightAt(s.l, In);
          node := node.right;
          s := s.r;
        } else {
          NothingLeft(t, start, end, s, a0, a);
          k := |Nodes(t, In)|;
          return null, k;
        }
      }
    }
  }

  method First(root: TreeNode?, start: int, end: int, ghost t: Tree) returns (r: TreeNode?, ghost k: int)
    requires Valid(t) && root == Root(t)
    ensures Valid(t) && FirstFrom(t, start, end, 0, r, k)
  {
    hide Nodes; hide Linked; hide Part; hide Size; hide MaxOK; hide Sorted; hide NoneIn; hide After;
    PartHere(t, In);
    NoneYet(t, start, end, t, 0);
    k := |Nodes(t, In)|;
    if root == null {
      NodesSize(t, In);
      NilSize(t);
      NoneFrom(t, start, end, 0);
      return null, k;
    }
    if root.subtree < start {
      EarlyTree(t, start, end);
      return null, k;
    }
    var leftmost := Lowest(root, t);
    if leftmost.start > end {
      NoneFrom(t, start, end, 0);
      LateTop(t, start, end, 0, 0);
      return null, k;
    }
    r, k := Search(root, start, end, t, t, 0);
  }

  /** The leftmost node, which the cached root keeps a pointer to. */
  method Lowest(root: TreeNode, ghost t: Tree) returns (node: TreeNode)
    requires Valid(t) && root == Root(t)
    ensures Valid(t) && |Nodes(t, In)| > 0 && node == Nodes(t, In)[0]
  {
    hide Nodes; hide Linked; hide MaxOK; hide Sorted; hide After;
    Leftmost(t);
    assert allocated(Nodes(t, In));
    node := InFirst(root, t);
  }

  lemma {:induction false} EarlyTree(t: Tree, start: int, end: int)
    requires MaxOK(t) && Early(t, start)
    ensures NoneIn(t, start, end, 0, |Nodes(t, In)|)
  {
    hide Nodes; hide Part; hide MaxOK;
    PartHere(t, In);
    NoneYet(t, start, end, t, 0);
    SkipSide(t, start, end, t, 0, 0);
    NodesSize(t, In);
  }

  lemma {:induction false} Leftmost(t: Tree)
    requires t.Bin?
    ensures |Nodes(t, In)| > 0 && After(t, In, -1) == Nodes(t, In)[0]
  {
    hide Nodes;
    PartHere(t, In);
    TopAt(t, t, 0);
  }

  /** The inner loop of next: up to the first node whose left side was left behind. */
  method ClimbRight(node0: TreeNode, ghost t: Tree, ghost s0: Tree, ghost a0: int)
    returns (up: TreeNode?, ghost p: Tree, ghost b: int)
    requires Valid(t) && Part(t, s0, In, a0) && s0.Bin? && node0 == s0.n
    ensures Valid(t) && 0 <= a0 && a0 + Size(s0) <= |Nodes(t, In)|
    ensures up == null ==> a0 + Size(s0) == |Nodes(t, In)|
    ensures up != null ==> p.Bin? && Part(t, p, In, b) && up == p.n && b + Size(p.l) == a0 + Size(s0)
  {
    hide Nodes; hide Linked; hide Part; hide Size; hide MaxOK; hide Sorted;
    var node := node0;
    ghost var s, a := s0, a0;
    while true
      invariant Valid(t) && Part(t, s, In, a) && s.Bin? && node == s.n && a + Size(s) == a0 + Size(s0)
      decreases |Nodes(t, In)| - Size(s)
    {
      PartNodes(t, s0, In, a0);
      PartNodes(t, s, In, a);
      p, b := PartUp(t, s, In, a, null);
      up := node.parent;
      if up == null {
        return;
      }
      PartLinked(t, p, In, b, null);
      PartNodes(t, p, In, b);
      PartSides(t, p, In, b);
      if up.right != node {
        return;
      }
      node, s, a := up, p, b;
    }
  }

  /** From a node at position i to the next match. */
  method Next(node0: TreeNode, start: int, end: int, ghost t: Tree, ghost i: nat) returns (r: TreeNode?, ghost k: int)
    requires Valid(t) && i < |Nodes(t, In)| && node0 == Nodes(t, In)[i]
    ensures Valid(t) && FirstFrom(t, start, end, i + 1, r, k)
  {
    hide Nodes; hide Linked; hide Part; hide Size; hide MaxOK; hide Sorted; hide NoneIn;
    var node := node0;
    ghost var s, a := PartOf(t, In, i);
    ghost var cur := a + Size(s.l) + 1;
    TopAt(t, s, a);
    NoneFrom(t, start, end, i + 1);
    while true
      invariant Valid(t) && Part(t, s, In, a) && s.Bin? && node == s.n && cur == a + Size(s.l) + 1
      invariant 0 <= i + 1 <= cur <= |Nodes(t, In)| && NoneIn(t, start, end, i + 1, cur)
      decreases |Nodes(t, In)| - cur
    {
      PartLinked(t, s, In, a, null);
      PartSides(t, s, In, a);
      TopAt(t, s, a);
      if node.right != null && node.right.subtree >= start {
        assert allocated(Nodes(t, In));
        r, k := Search(node.right, start, end, t, s.r, cur);
        NoneJoin(t, start, end, i + 1, cur, k);
        return;
      }
      SkipSide(t, start, end, s.r, i + 1, cur);
      var up;
      ghost var p, b;
      assert allocated(Nodes(t, In));
      up, p, b := ClimbRight(node, t, s, a);
      if up == null {
        return null, |Nodes(t, In)|;
      }
      TopAt(t, p, b);
      if end < up.start {
        LateTop(t, start, end, i + 1, b + Size(p.l));
        return null, |Nodes(t, In)|;
      }
      if start <= up.last {
        return up, b + Size(p.l);
      }
      SkipRoot(t, start, end, p, i + 1, b);
      node, s, a := up, p, b;
      cur := a + Size(s.l) + 1;
    }
  }

  lemma {:induction false} NoneFrom(t: Tree, start: int, end: int, i: int)
    requires 0 <= i <= |Nodes(t, In)|
    ensures NoneIn(t, start, end, i, i)
  {
  }

  lemma {:induction false} NoneJoin(t: Tree, start: int, end: int, i: int, j: int, k: int)
    requires 0 <= i <= j <= k <= |Nodes(t, In)| && NoneIn(t, start, end, i, j) && NoneIn(t, start, end, j, k)
    ensures NoneIn(t, start, end, i, k)
  {
    hide Nodes;
  }

  lemma {:induction false} LateTop(t: Tree, start: int, end: int, from: int, top: int)
    requires Sorted(Nodes(t, In)) && 0 <= from <= top < |Nodes(t, In)| && Nodes(t, In)[top].start > end
    requires NoneIn(t, start, end, from, top)
    ensures NoneIn(t, start, end, from, |Nodes(t, In)|)
  {
    hide Nodes;
    forall i | from <= i < |Nodes(t, In)| ensures !Meets(Nodes(t, In)[i], start, end) {
      assert i > top ==> Nodes(t, In)[top].start <= Nodes(t, In)[i].start;
    }
  }

  /** The matches of a traversal, in order. */
  ghost function Matches(s: seq<TreeNode>, start: int, end: int): seq<TreeNode>
    reads s
  {
    if s == [] then []
    else
      var n := |s| - 1;
      Matches(s[..n], start, end) + if Meets(s[n], start, end) then [s[n]] else []
  }

  lemma {:induction false} MatchesSkip(s: seq<TreeNode>, start: int, end: int, i: int, k: int)
    requires 0 <= i <= k <= |s| && forall j :: i <= j < k ==> !Meets(s[j], start, end)
    ensures Matches(s[..k], start, end) == Matches(s[..i], start, end)
  {
    if i < k {
      MatchesSkip(s, start, end, i, k - 1);
      assert s[..k][..k - 1] == s[..k - 1];
    }
  }

  lemma {:induction false} MatchesTake(s: seq<TreeNode>, start: int, end: int, k: int)
    requires 0 <= k < |s| && Meets(s[k], start, end)
    ensures Matches(s[..k + 1], start, end) == Matches(s[..k], start, end) + [s[k]]
  {
    assert s[..k + 1][..k] == s[..k];
  }

  /** segtree_for_each: exactly the intervals that meet, each once, in order of their start points. */
  method ForEach(root: TreeNode?, start: int, end: int, ghost t: Tree) returns (visited: seq<TreeNode>)
    requires Valid(t) && root == Root(t)
    ensures visited == Matches(Nodes(t, In), start, end)
  {
    hide Nodes; hide Valid; hide Matches;
    ghost var s := Nodes(t, In);
    visited := [];
    var pos;
    ghost var k;
    pos, k := First(root, start, end, t);
    MatchesNone(start, end);
    assert s[..0] == [];
    MatchesSkip(s, start, end, 0, k);
    while pos != null
      invariant Valid(t) && 0 <= k <= |s| && visited == Matches(s[..k], start, end)
      invariant if k == |s| then pos == null else pos == s[k] && Meets(s[k], start, end)
      decreases |s| - k
    {
      MatchesTake(s, start, end, k);
      visited := visited + [pos];
      ghost var i := k;
      assert allocated(Nodes(t, In));
      pos, k := Next(pos, start, end, t, i);
      MatchesSkip(s, start, end, i + 1, k);
    }
    assert s[..|s|] == s;
  }

  lemma {:induction false} MatchesNone(start: int, end: int)
    ensures Matches([], start, end) == []
  {
  }
}
