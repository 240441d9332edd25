/** The iterators of include/titer.h on a binary tree with parent pointers: inorder, preorder and postorder
    successors, and the inorder predecessor.  The tree is not changed. */
module TreeIter {

  class TreeNode {
    var parent: TreeNode?
    var left: TreeNode?
    var right: TreeNode?
    /** An interval, and the largest end point in the subtree: used by the interval trees only. */
    var start: int
    var last: int
    var subtree: int
  }

  /** The shape of the tree below a link. */
  datatype Tree = Nil | Bin(l: Tree, n: TreeNode, r: Tree)

  datatype Order = In | Pre | Post

  function Root(t: Tree): TreeNode? {
    if t.Bin? then t.n else null
  }

  /** The nodes in the order of the traversal. */
  ghost function Nodes(t: Tree, o: Order): seq<TreeNode> {
    match t
    case Nil => []
    case Bin(l, n, r) =>
      match o
      case In => Nodes(l, o) + [n] + Nodes(r, o)
      case Pre => [n] + Nodes(l, o) + Nodes(r, o)
      case Post => Nodes(l, o) + Nodes(r, o) + [n]
  }

  ghost function Size(t: Tree): nat {
    match t
    case Nil => 0
    case Bin(l, _, r) => Size(l) + 1 + Size(r)
  }

  lemma {:induction false} NodesWithin(t: Tree)
    requires t.Bin?
    ensures t.n in Nodes(t, In)
    ensures forall i :: 0 <= i < |Nodes(t.l, In)| ==> Nodes(t.l, In)[i] in Nodes(t, In)
    ensures forall i :: 0 <= i < |Nodes(t.r, In)| ==> Nodes(t.r, In)[i] in Nodes(t, In)
  {
    var a := Nodes(t.l, In);
    assert Nodes(t, In)[|a|] == t.n;
    forall i | 0 <= i < |a| ensures a[i] in Nodes(t, In) {
      assert Nodes(t, In)[i] == a[i];
    }
    forall i | 0 <= i < |Nodes(t.r, In)| ensures Nodes(t.r, In)[i] in Nodes(t, In) {
      assert Nodes(t, In)[|a| + 1 + i] == Nodes(t.r, In)[i];
    }
  }

  /** All links are as the shape says. */
  ghost predicate Linked(t: Tree, parent: TreeNode?)
    reads Nodes(t, In)
  {
    match t
    case Nil => true
    case Bin(l, n, r) =>
      NodesWithin(t);
      && n.parent == parent && n.left == Root(l) && n.right == Root(r) && (n.left == n.right ==> n.left == null)
      && Linked(l, n) && Linked(r, n)
  }

  lemma {:induction false} NodesSize(t: Tree, o: Order)
    ensures |Nodes(t, o)| == Size(t)
  {
    match t {
      case Nil =>
      case Bin(l, _, r) =>
        NodesSize(l, o);
        NodesSize(r, o);
    }
  }

  /** Where the parts of a tree start in its traversal. */
  ghost function LeftAt(o: Order): nat {
    if o.Pre? then 1 else 0
  }

  ghost function RightAt(l: Tree, o: Order): nat {
    if o.Post? then Size(l) else Size(l) + 1
  }

  ghost function RootAt(t: Tree, o: Order): nat
    requires t.Bin?
  {
    match o
    case In => Size(t.l)
    case Pre => 0
    case Post => Size(t.l) + Size(t.r)
  }

  lemma {:induction false} Parts(t: Tree, o: Order)
    requires t.Bin?
    ensures |Nodes(t, o)| == Size(t) && Nodes(t, o)[RootAt(t, o)] == t.n
    ensures Size(t) == Size(t.l) + 1 + Size(t.r)
    ensures (t.l.Nil? ==> Size(t.l) == 0) && (t.r.Nil? ==> Size(t.r) == 0)
    ensures forall i :: 0 <= i < Size(t.l) ==> |Nodes(t.l, o)| == Size(t.l) && Nodes(t, o)[LeftAt(o) + i] == Nodes(t.l, o)[i]
    ensures forall i :: 0 <= i < Size(t.r) ==> |Nodes(t.r, o)| == Size(t.r) && Nodes(t, o)[RightAt(t.l, o) + i] == Nodes(t.r, o)[i]
  {
    NodesSize(t.l, o);
    NodesSize(t.r, o);
  }

  /** s is the part of t whose traversal starts at position a. */
  ghost predicate Part(t: Tree, s: Tree, o: Order, a: int)
    decreases t
  {
    || (s == t && a == 0)
    || (t.Bin? && (Part(t.l, s, o, a - LeftAt(o)) || Part(t.r, s, o, a - RightAt(t.l, o))))
  }

  lemma {:induction false} PartNodes(t: Tree, s: Tree, o: Order, a: int)
    requires Part(t, s, o, a)
    ensures 0 <= a && a + Size(s) <= Size(t) == |Nodes(t, o)| && |Nodes(s, o)| == Size(s)
    ensures forall i :: 0 <= i < Size(s) ==> Nodes(t, o)[a + i] == Nodes(s, o)[i]
    decreases t
  {
    hide Nodes; hide Size; hide Part;
    NodesSize(t, o);
    NodesSize(s, o);
    if !(s == t && a == 0) {
      PartCases(t, s, o, a);
      NodesSize(t.l, o);
      NodesSize(t.r, o);
      Sizes(t);
      Parts(t, o);
      if Part(t.l, s, o, a - LeftAt(o)) {
        PartNodes(t.l, s, o, a - LeftAt(o));
        Shifted(Nodes(t, o), Nodes(t.l, o), Nodes(s, o), LeftAt(o), a - LeftAt(o));
      } else {
        PartNodes(t.r, s, o, a - RightAt(t.l, o));
        Shifted(Nodes(t, o), Nodes(t.r, o), Nodes(s, o), RightAt(t.l, o), a - RightAt(t.l, o));
      }
    }
  }

  lemma {:induction false} PartCases(t: Tree, s: Tree, o: Order, a: int)
    requires Part(t, s, o, a) && !(s == t && a == 0)
    ensures t.Bin? && (Part(t.l, s, o, a - LeftAt(o)) || Part(t.r, s, o, a - RightAt(t.l, o)))
  {
  }

  lemma {:induction false} Shifted<T>(whole: seq<T>, side: seq<T>, part: seq<T>, off: nat, b: int)
    requires 0 <= b && b + |part| <= |side| && off + |side| <= |whole|
    requires forall i :: 0 <= i < |side| ==> whole[off + i] == side[i]
    requires forall i :: 0 <= i < |part| ==> side[b + i] == part[i]
    ensures forall i :: 0 <= i < |part| ==> whole[off + b + i] == part[i]
  {
    forall i | 0 <= i < |part| ensures whole[off + b + i] == part[i] {
      assert whole[off + (b + i)] == side[b + i];
    }
  }

  lemma {:induction false} NilSize(t: Tree)
    ensures t.Nil? ==> Size(t) == 0
  {
  }

  lemma {:induction false} Sizes(t: Tree)
    requires t.Bin?
    ensures Size(t) == Size(t.l) + 1 + Size(t.r)
  {
  }

  /** The part with a given node on top. */
  lemma {:induction false} PartOf(t: Tree, o: Order, i: nat) returns (s: Tree, a: int)
    requires i < |Nodes(t, o)|
    ensures s.Bin? && Part(t, s, o, a) && s.n == Nodes(t, o)[i] && i == a + RootAt(s, o)
    decreases t
  {
    hide Nodes; hide Part; hide Size;
    NodesSize(t, o);
    NilSize(t);
    Sizes(t);
    NodesSize(t.l, o);
    NodesSize(t.r, o);
    Parts(t, o);
    PartHere(t, o);
    if i == RootAt(t, o) {
      s, a := t, 0;
    } else if LeftAt(o) <= i < LeftAt(o) + Size(t.l) {
      s, a := PartOf(t.l, o, i - LeftAt(o));
      PartIn(t, s, o, a);
      a := a + LeftAt(o);
    } else {
      s, a := PartOf(t.r, o, i - RightAt(t.l, o));
      PartIn(t, s, o, a);
      a := a + RightAt(t.l, o);
    }
  }

  /** A part of a side is a part of the whole. */
  lemma {:induction false} PartIn(t: Tree, s: Tree, o: Order, a: int)
    requires t.Bin?
    ensures Part(t.l, s, o, a) ==> Part(t, s, o, a + LeftAt(o))
    ensures Part(t.r, s, o, a) ==> Part(t, s, o, a + RightAt(t.l, o))
  {
    assert a + LeftAt(o) - LeftAt(o) == a && a + RightAt(t.l, o) - RightAt(t.l, o) == a;
  }

  /** One step up: the part around a part. */
  lemma {:induction false} PartUp(t: Tree, s: Tree, o: Order, a: int, top: TreeNode?) returns (p: Tree, b: int)
    requires Part(t, s, o, a) && s.Bin? && Linked(t, top)
    ensures s == t && a == 0 ==> s.n.parent == top
    ensures !(s == t && a == 0) ==>
      && p.Bin? && Part(t, p, o, b) && s.n.parent == p.n
      && ((p.l == s && a == b + LeftAt(o)) || (p.r == s && a == b + RightAt(p.l, o)))
    decreases t
  {
    if s == t && a == 0 {
      p, b := t, 0;
    } else if Part(t.l, s, o, a - LeftAt(o)) {
      if s == t.l && a - LeftAt(o) == 0 {
        p, b := t, 0;
      } else {
        p, b := PartUp(t.l, s, o, a - LeftAt(o), t.n);
        b := b + LeftAt(o);
      }
    } else {
      var c := a - RightAt(t.l, o);
      if s == t.r && c == 0 {
        p, b := t, 0;
      } else {
        p, b := PartUp(t.r, s, o, c, t.n);
        b := b + RightAt(t.l, o);
      }
    }
  }

  /** The links of the top of a part. */
  lemma {:induction false} PartLinked(t: Tree, s: Tree, o: Order, a: int, top: TreeNode?)
    requires Part(t, s, o, a) && s.Bin? && Linked(t, top)
    ensures s.n.left == Root(s.l) && s.n.right == Root(s.r) && (s.n.left == s.n.right ==> s.n.left == null)
    decreases t
  {
    if !(s == t && a == 0) {
      if Part(t.l, s, o, a - LeftAt(o)) {
        PartLinked(t.l, s, o, a - LeftAt(o), t.n);
      } else {
        PartLinked(t.r, s, o, a - RightAt(t.l, o), t.n);
      }
    }
  }

  lemma {:induction false} PartTrans(t: Tree, s: Tree, q: Tree, o: Order, a: int, b: int)
    requires Part(t, s, o, a) && Part(s, q, o, b)
    ensures Part(t, q, o, a + b)
    decreases t
  {
    if !(s == t && a == 0) {
      if Part(t.l, s, o, a - LeftAt(o)) {
        PartTrans(t.l, s, q, o, a - LeftAt(o), b);
        PartIn(t, q, o, a - LeftAt(o) + b);
      } else {
        PartTrans(t.r, s, q, o, a - RightAt(t.l, o), b);
        PartIn(t, q, o, a - RightAt(t.l, o) + b);
      }
    }
  }

  lemma {:induction false} PartHere(t: Tree, o: Order)
    ensures Part(t, t, o, 0)
  {
  }

  lemma {:induction false} PartSides(t: Tree, s: Tree, o: Order, a: int)
    requires Part(t, s, o, a) && s.Bin?
    ensures Part(t, s.l, o, a + LeftAt(o)) && Part(t, s.r, o, a + RightAt(s.l, o))
    ensures Size(s) == Size(s.l) + 1 + Size(s.r)
    ensures (s.l.Nil? ==> Size(s.l) == 0) && (s.r.Nil? ==> Size(s.r) == 0)
  {
    PartHere(s.l, o);
    PartHere(s.r, o);
    assert LeftAt(o) - LeftAt(o) == 0 && RightAt(s.l, o) - RightAt(s.l, o) == 0;
    assert Part(s, s.l, o, LeftAt(o)) && Part(s, s.r, o, RightAt(s.l, o));
    hide Part;
    PartTrans(t, s, s.l, o, a, LeftAt(o));
    PartTrans(t, s, s.r, o, a, RightAt(s.l, o));
  }

  // ----- the iterators; i is the position of the node -----

  method LeftFar(node0: TreeNode, ghost t: Tree, ghost s0: Tree, ghost a: int, ghost top: TreeNode?) returns (node: TreeNode)
    requires Linked(t, top) && Part(t, s0, In, a) && s0.Bin? && node0 == s0.n
    ensures Linked(t, top)
    ensures 0 <= a < |Nodes(t, In)| && node == Nodes(t, In)[a]
  {
    hide Nodes; hide Linked; hide Part; hide Size;
    node := node0;
    ghost var s := s0;
    PartLinked(t, s, In, a, top);
    while node.left != null
      invariant Linked(t, top)
      invariant Part(t, s, In, a) && s.Bin? && node == s.n && node.left == Root(s.l)
      decreases s
    {
      PartSides(t, s, In, a);
      node := node.left;
      s := s.l;
      PartLinked(t, s, In, a, top);
    }
    PartNodes(t, s, In, a);
    Parts(s, In);
  }

  method RightFar(node0: TreeNode, ghost t: Tree, ghost s0: Tree, ghost a0: int, ghost top: TreeNode?) returns (node: TreeNode)
    requires Linked(t, top) && Part(t, s0, In, a0) && s0.Bin? && node0 == s0.n
    ensures Linked(t, top)
    ensures 0 < a0 + Size(s0) <= |Nodes(t, In)| && node == Nodes(t, In)[a0 + Size(s0) - 1]
  {
    hide Nodes; hide Linked; hide Part; hide Size;
    node := node0;
    ghost var s, a := s0, a0;
    PartLinked(t, s, In, a, top);
    while node.right != null
      invariant Linked(t, top)
      invariant Part(t, s, In, a) && s.Bin? && node == s.n && node.right == Root(s.r)
      invariant a + Size(s) == a0 + Size(s0)
      decreases s
    {
      PartSides(t, s, In, a);
      node := node.right;
      a := a + RightAt(s.l, In);
      s := s.r;
      PartLinked(t, s, In, a, top);
    }
    PartNodes(t, s, In, a);
    Parts(s, In);
  }

  method LeftDeep(node0: TreeNode?, ghost t: Tree, ghost s0: Tree, ghost a: int, ghost top: TreeNode?) returns (node: TreeNode?)
    requires Linked(t, top) && Part(t, s0, Post, a) && node0 == Root(s0)
    ensures Linked(t, top)
    ensures if s0.Nil? then node == null else 0 <= a < |Nodes(t, Post)| && node == Nodes(t, Post)[a]
  {
    hide Nodes; hide Linked; hide Part; hide Size;
    node := node0;
    ghost var s := s0;
    while node != null
      invariant Linked(t, top)
      invariant Part(t, s, Post, a) && node == Root(s) && (s0.Bin? ==> s.Bin?)
      decreases s
    {
      PartLinked(t, s, Post, a, top);
      PartSides(t, s, Post, a);
      if node.left != null {
        node := node.left;
        s := s.l;
      } else if node.right != null {
        node := node.right;
        s := s.r;
      } else {
        PartNodes(t, s, Post, a);
        Parts(s, Post);
        return;
      }
    }
  }

  /** What follows a position in a traversal, or null at its end. */
  ghost function After(t: Tree, o: Order, i: int): TreeNode?
    requires -1 <= i < |Nodes(t, o)|
  {
    if i + 1 < |Nodes(t, o)| then Nodes(t, o)[i + 1] else null
  }

  method InFirst(root: TreeNode?, ghost t: Tree) returns (node: TreeNode?)
    requires Linked(t, null) && root == Root(t)
    ensures Linked(t, null)
    ensures node == After(t, In, -1)
  {
    NodesSize(t, In);
    if root == null {
      return null;
    }
    node := LeftFar(root, t, t, 0, null);
  }

  method InLast(root: TreeNode?, ghost t: Tree) returns (node: TreeNode?)
    requires Linked(t, null) && root == Root(t)
    ensures Linked(t, null)
    ensures if t.Nil? then node == null else |Nodes(t, In)| > 0 && node == Nodes(t, In)[|Nodes(t, In)| - 1]
  {
    NodesSize(t, In);
    if root == null {
      return null;
    }
    node := RightFar(root, t, t, 0, null);
  }

  method InNext(node0: TreeNode?, ghost t: Tree, ghost i: nat) returns (next: TreeNode?)
    requires Linked(t, null) && (node0 != null ==> i < |Nodes(t, In)| && Nodes(t, In)[i] == node0)
    ensures Linked(t, null)
    ensures if node0 == null then next == null else next == After(t, In, i)
  {
    hide Nodes; hide Linked; hide Part; hide Size;
    if node0 == null {
      return null;
    }
    var node: TreeNode := node0;
    ghost var s, a := PartOf(t, In, i);
    PartLinked(t, s, In, a, null);
    PartSides(t, s, In, a);
    PartNodes(t, s, In, a);
    if node.right != null {
      next := LeftFar(node.right, t, s.r, a + RightAt(s.l, In), null);
      return;
    }
    next := ClimbNext(node, t, i, s, a);
  }

  /** No right child: up to the first ancestor on the right. */
  method ClimbNext(node0: TreeNode, ghost t: Tree, ghost i: nat, ghost s0: Tree, ghost a0: int) returns (next: TreeNode?)
    requires Linked(t, null) && Part(t, s0, In, a0) && s0.Bin? && node0 == s0.n && a0 + Size(s0) == i + 1
    requires i < |Nodes(t, In)|
    ensures Linked(t, null) && next == After(t, In, i)
  {
    hide Nodes; hide Linked; hide Part; hide Size;
    var node := node0;
    ghost var s, a := s0, a0;
    while true
      invariant Linked(t, null)
      invariant Part(t, s, In, a) && s.Bin? && node == s.n && a + Size(s) == i + 1
      decreases |Nodes(t, In)| - Size(s)
    {
      ghost var p, b := PartUp(t, s, In, a, null);
      PartNodes(t, s, In, a);
      next := node.parent;
      if next == null {
        return;
      }
      PartLinked(t, p, In, b, null);
      PartNodes(t, p, In, b);
      Parts(p, In);
      if node == next.left {
        return;
      }
      node, s, a := next, p, b;
    }
  }

  method InPrev(node0: TreeNode?, ghost t: Tree, ghost i: nat) returns (prev: TreeNode?)
    requires Linked(t, null) && (node0 != null ==> i < |Nodes(t, In)| && Nodes(t, In)[i] == node0)
    ensures Linked(t, null)
    ensures if node0 == null || i == 0 then prev == null else prev == Nodes(t, In)[i - 1]
  {
    hide Nodes; hide Linked; hide Part; hide Size;
    if node0 == null {
      return null;
    }
    var node: TreeNode := node0;
    ghost var s, a := PartOf(t, In, i);
    PartLinked(t, s, In, a, null);
    PartSides(t, s, In, a);
    PartNodes(t, s, In, a);
    if node.left != null {
      prev := RightFar(node.left, t, s.l, a, null);
      return;
    }
    prev := ClimbPrev(node, t, i, s, a);
  }

  /** No left child: up to the first ancestor on the left. */
  method ClimbPrev(node0: TreeNode, ghost t: Tree, ghost i: nat, ghost s0: Tree, ghost a0: int) returns (prev: TreeNode?)
    requires Linked(t, null) && Part(t, s0, In, a0) && s0.Bin? && node0 == s0.n && a0 == i
    ensures Linked(t, null)
    ensures if i == 0 then prev == null else i - 1 < |Nodes(t, In)| && prev == Nodes(t, In)[i - 1]
  {
    hide Nodes; hide Linked; hide Part; hide Size;
    var node := node0;
    ghost var s, a := s0, a0;
    while true
      invariant Linked(t, null)
      invariant Part(t, s, In, a) && s.Bin? && node == s.n && a == i
      decreases |Nodes(t, In)| - Size(s)
    {
      ghost var p, b := PartUp(t, s, In, a, null);
      PartNodes(t, s, In, a);
      prev := node.parent;
      if prev == null {
        return;
      }
      PartLinked(t, p, In, b, null);
      PartNodes(t, p, In, b);
      Parts(p, In);
      if node == prev.right {
        return;
      }
      node, s, a := prev, p, b;
    }
  }

  method PreNext(node0: TreeNode?, ghost t: Tree, ghost i: nat) returns (next: TreeNode?)
    requires Linked(t, null) && (node0 != null ==> i < |Nodes(t, Pre)| && Nodes(t, Pre)[i] == node0)
    ensures Linked(t, null)
    ensures if node0 == null then next == null else next == After(t, Pre, i)
  {
    hide Nodes; hide Linked; hide Part; hide Size;
    if node0 == null {
      return null;
    }
    var node: TreeNode := node0;
    ghost var s, a := PartOf(t, Pre, i);
    PartLinked(t, s, Pre, a, null);
    PartSides(t, s, Pre, a);
    PartNodes(t, s, Pre, a);
    if node.left != null {
      PreTop(t, s.l, a + 1);
      return node.left;
    }
    if node.right != null {
      PreTop(t, s.r, a + RightAt(s.l, Pre));
      return node.right;
    }
    next := PreClimb(node, t, i, s, a);
  }

  /** No children: up to the first ancestor with another subtree on the right. */
  method PreClimb(node0: TreeNode, ghost t: Tree, ghost i: nat, ghost s0: Tree, ghost a0: int) returns (next: TreeNode?)
    requires Linked(t, null) && Part(t, s0, Pre, a0) && s0.Bin? && node0 == s0.n && a0 + Size(s0) == i + 1
    requires i < |Nodes(t, Pre)|
    ensures Linked(t, null) && next == After(t, Pre, i)
  {
    hide Nodes; hide Linked; hide Part; hide Size;
    var node := node0;
    ghost var s, a := s0, a0;
    while true
      invariant Linked(t, null)
      invariant Part(t, s, Pre, a) && s.Bin? && node == s.n && a + Size(s) == i + 1
      decreases |Nodes(t, Pre)| - Size(s)
    {
      ghost var p, b := PartUp(t, s, Pre, a, null);
      PartNodes(t, s, Pre, a);
      var parent := node.parent;
      if parent == null {
        return null;
      }
      PartLinked(t, p, Pre, b, null);
      PartNodes(t, p, Pre, b);
      PartSides(t, p, Pre, b);
      if parent.right != null && node != parent.right {
        PreTop(t, p.r, b + RightAt(p.l, Pre));
        return parent.right;
      }
      node, s, a := parent, p, b;
    }
  }

  lemma {:induction false} PreTop(t: Tree, s: Tree, a: int)
    requires Part(t, s, Pre, a) && s.Bin?
    ensures 0 <= a < |Nodes(t, Pre)| && Nodes(t, Pre)[a] == s.n
  {
    PartNodes(t, s, Pre, a);
    Parts(s, Pre);
  }

  method PostFirst(root: TreeNode?, ghost t: Tree) returns (node: TreeNode?)
    requires Linked(t, null) && root == Root(t)
    ensures Linked(t, null)
    ensures node == After(t, Post, -1)
  {
    NodesSize(t, Post);
    node := LeftDeep(root, t, t, 0, null);
  }

  /** Behind a left part comes the right one, if there is one, else the node above. */
  lemma {:induction false} PostAfter(t: Tree, s: Tree, a: int, p: Tree, b: int)
    requires Part(t, p, Post, b) && p.Bin? && s.Bin?
    requires (p.l == s && a == b) || (p.r == s && a == b + Size(p.l))
    ensures 0 <= b && a + Size(s) < |Nodes(t, Post)|
    ensures p.l == s && a == b && p.r.Bin? ==> b + RightAt(p.l, Post) == a + Size(s)
    ensures (p.r == s && a == b + Size(p.l)) || p.r.Nil? ==> Nodes(t, Post)[a + Size(s)] == p.n
  {
    hide Nodes; hide Part; hide Size;
    PartNodes(t, p, Post, b);
    Parts(p, Post);
    assert Nodes(p, Post)[Size(p.l) + Size(p.r)] == p.n;
    assert Nodes(t, Post)[b + (Size(p.l) + Size(p.r))] == p.n;
  }

  method PostNext(node0: TreeNode?, ghost t: Tree, ghost i: nat) returns (next: TreeNode?)
    requires Linked(t, null) && (node0 != null ==> i < |Nodes(t, Post)| && Nodes(t, Post)[i] == node0)
    ensures Linked(t, null)
    ensures if node0 == null then next == null else next == After(t, Post, i)
  {
    hide Nodes; hide Linked; hide Part; hide Size;
    if node0 == null {
      return null;
    }
    ghost var s, a := PartOf(t, Post, i);
    Sizes(s);
    ghost var p, b := PartUp(t, s, Post, a, null);
    var parent := node0.parent;
    PartNodes(t, s, Post, a);
    if parent != null {
      PartLinked(t, p, Post, b, null);
      PartSides(t, p, Post, b);
      PostAfter(t, s, a, p, b);
      if node0 == parent.left && parent.right != null {
        next := LeftDeep(parent.right, t, p.r, b + RightAt(p.l, Post), null);
        return;
      }
    }
    return parent;
  }

  // ----- whole traversals -----

  /** First, then next until null: the traversal, each node once. */
  method WalkIn(root: TreeNode?, ghost t: Tree) returns (visited: seq<TreeNode>)
    requires Linked(t, null) && root == Root(t)
    ensures Linked(t, null)
    ensures visited == Nodes(t, In)
  {
    hide Nodes; hide Linked; hide Part; hide Size;
    visited := [];
    var node := InFirst(root, t);
    while node != null
      invariant Linked(t, null) && |visited| <= |Nodes(t, In)| && visited == Nodes(t, In)[..|visited|]
      invariant node == After(t, In, |visited| - 1)
      decreases |Nodes(t, In)| - |visited|
    {
      visited := visited + [node];
      node := InNext(node, t, |visited| - 1);
    }
  }

  method WalkPre(root: TreeNode?, ghost t: Tree) returns (visited: seq<TreeNode>)
    requires Linked(t, null) && root == Root(t)
    ensures Linked(t, null)
    ensures visited == Nodes(t, Pre)
  {
    hide Linked;
    visited := [];
    NodesSize(t, Pre);
    var node := root;
    while node != null
      invariant Linked(t, null) && |visited| <= |Nodes(t, Pre)| && visited == Nodes(t, Pre)[..|visited|]
      invariant node == After(t, Pre, |visited| - 1)
      decreases |Nodes(t, Pre)| - |visited|
    {
      visited := visited + [node];
      node := PreNext(node, t, |visited| - 1);
    }
  }

  method WalkPost(root: TreeNode?, ghost t: Tree) returns (visited: seq<TreeNode>)
    requires Linked(t, null) && root == Root(t)
    ensures Linked(t, null)
    ensures visited == Nodes(t, Post)
  {
    hide Nodes; hide Linked; hide Part; hide Size;
    visited := [];
    var node := PostFirst(root, t);
    while node != null
      invariant Linked(t, null) && |visited| <= |Nodes(t, Post)| && visited == Nodes(t, Post)[..|visited|]
      invariant node == After(t, Post, |visited| - 1)
      decreases |Nodes(t, Post)| - |visited|
    {
      visited := visited + [node];
      node := PostNext(node, t, |visited| - 1);
    }
  }
}
