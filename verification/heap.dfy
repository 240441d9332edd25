/** The pointer-linked binary heap of lib/heap.c and include/heap.h.

    The nodes form a complete binary tree.  The ghost field arr lists them by position, position p, counted
    from 1, at index p - 1; the links follow from the positions. */
module Heap {
  import opened HeapOrder
  import opened HeapBits

  class HeapNode {
    var parent: HeapNode?
    var left: HeapNode?
    var right: HeapNode?
  }

  type Cmp = (HeapNode, HeapNode) -> int

  ghost function At(a: seq<HeapNode>, p: nat): HeapNode? {
    if 1 <= p <= |a| then a[p - 1] else null
  }

  ghost function Nth(a: seq<HeapNode>, p: nat): HeapNode
    requires 1 <= p <= |a|
  {
    a[p - 1]
  }

  ghost predicate Distinct(a: seq<HeapNode>) {
    forall i, j :: 0 <= i < j < |a| ==> a[i] != a[j]
  }

  /** The downward links of the node at position p. */
  ghost predicate Down(a: seq<HeapNode>, p: nat)
    requires 1 <= p <= |a|
    reads Nth(a, p)`left, Nth(a, p)`right
  {
    Nth(a, p).left == At(a, 2 * p) && Nth(a, p).right == At(a, 2 * p + 1)
  }

  ghost predicate Up(a: seq<HeapNode>, p: nat)
    requires 1 <= p <= |a|
    reads Nth(a, p)`parent
  {
    Nth(a, p).parent == At(a, p / 2)
  }

  ghost predicate Shape(a: seq<HeapNode>)
    reads a
  {
    forall p: nat :: 1 <= p <= |a| ==> Down(a, p) && Up(a, p)
  }

  // ----- parent_swap, in four steps: h is the position of the node, q that of its parent -----

  /** The children of the node go to the parent. */
  ghost predicate UpA(a: seq<HeapNode>, h: nat, p: nat)
    requires 2 <= h <= |a| && 1 <= p <= |a|
    reads Nth(a, p)`parent
  {
    Nth(a, p).parent == if p / 2 == h then Nth(a, h / 2) else At(a, p / 2)
  }

  /** The sibling of the node goes to the node. */
  ghost predicate UpB(a: seq<HeapNode>, h: nat, p: nat)
    requires 2 <= h <= |a| && 1 <= p <= |a|
    reads Nth(a, p)`parent
  {
    Nth(a, p).parent
    == if p / 2 == h then Nth(a, h / 2) else if p / 2 == h / 2 && p != h then Nth(a, h) else At(a, p / 2)
  }

  method MoveChildren(parent: HeapNode, node: HeapNode, ghost a: seq<HeapNode>, ghost h: nat)
    requires Shape(a) && Distinct(a) && 2 <= h <= |a| && node == Nth(a, h) && parent == Nth(a, h / 2)
    modifies a`parent
    ensures forall p: nat :: 1 <= p <= |a| ==> Down(a, p) && UpA(a, h, p)
  {
    assert Down(a, h);
    assert forall p: nat :: 1 <= p <= |a| ==> Up(a, p);
    if node.left != null {
      node.left.parent := parent;
    }
    if node.right != null {
      node.right.parent := parent;
    }
    forall p: nat | 1 <= p <= |a| ensures Down(a, p) && UpA(a, h, p) {
      assert old(Down(a, p));
      assert old(Up(a, p));
      assert p / 2 == h ==> p == 2 * h || p == 2 * h + 1;
      assert p / 2 != h ==> Nth(a, p) != node.left && Nth(a, p) != node.right;
    }
  }

  /** The parent takes the old links of the node. */
  method TakeLinks(parent: HeapNode, node: HeapNode, left: HeapNode?, right: HeapNode?, ghost a: seq<HeapNode>, ghost h: nat)
    requires Distinct(a) && 2 <= h <= |a| && node == Nth(a, h) && parent == Nth(a, h / 2)
    requires forall p: nat :: 1 <= p <= |a| && p != h && p != h / 4 ==> Down(a, p)
    requires forall p: nat :: 1 <= p <= |a| && p != h ==> UpB(a, h, p)
    modifies parent
    ensures parent.left == left && parent.right == right && parent.parent == node
    ensures forall p: nat :: 1 <= p <= |a| && p != h && p != h / 2 && p != h / 4 ==> Down(a, p)
    ensures forall p: nat :: 1 <= p <= |a| && p != h && p != h / 2 ==> UpB(a, h, p)
    ensures node.left == old(node.left) && node.right == old(node.right) && node.parent == old(node.parent)
    ensures h / 4 >= 1 ==> Nth(a, h / 4).left == old(Nth(a, h / 4).left) && Nth(a, h / 4).right == old(Nth(a, h / 4).right)
  {
    parent.left := left;
    parent.right := right;
    parent.parent := node;
    forall p: nat | 1 <= p <= |a| && p != h && p != h / 2 ensures UpB(a, h, p) && (p != h / 4 ==> Down(a, p)) {
      assert old(UpB(a, h, p)) && (p != h / 4 ==> old(Down(a, p)));
      assert Nth(a, p) != parent;
    }
  }

  /** The node takes the parent as a child in its own place, and the sibling as the other one. */
  method TakeSide(parent: HeapNode, node: HeapNode, ghost a: seq<HeapNode>, ghost h: nat)
    requires Distinct(a) && 2 <= h <= |a| && node == Nth(a, h) && parent == Nth(a, h / 2)
    requires forall p: nat :: 1 <= p <= |a| ==> Down(a, p) && UpA(a, h, p)
    modifies node`left, node`right, a`parent
    ensures forall p: nat :: 1 <= p <= |a| && p != h ==> Down(a, p)
    ensures forall p: nat :: 1 <= p <= |a| ==> UpB(a, h, p)
    ensures var q := h / 2;
      && node.left == (if 2 * q == h then parent else At(a, 2 * q))
      && node.right == if 2 * q + 1 == h then parent else At(a, 2 * q + 1)
  {
    ghost var q := h / 2;
    assert h == 2 * q || h == 2 * q + 1;
    assert Down(a, q);
    if parent.left == node {
      node.left := parent;
      node.right := parent.right;
      if node.right != null {
        parent.right.parent := node;
      }
    } else {
      node.right := parent;
      node.left := parent.left;
      if node.left != null {
        parent.left.parent := node;
      }
    }
    forall p: nat | 1 <= p <= |a| ensures UpB(a, h, p) {
      assert old(UpA(a, h, p));
      assert p / 2 == q ==> p == 2 * q || p == 2 * q + 1;
      assert p / 2 != q ==> Nth(a, p) != parent.left && Nth(a, p) != parent.right;
    }
  }

  lemma {:induction false} NodeLinks(a: seq<HeapNode>, p: nat)
    requires Shape(a) && 1 <= p <= |a|
    ensures var n := Nth(a, p); n.left == At(a, 2 * p) && n.right == At(a, 2 * p + 1) && n.parent == At(a, p / 2)
  {
    assert Down(a, p) && Up(a, p);
  }

  lemma {:induction false} ExchangedAt(a: seq<HeapNode>, h: nat, q: nat, p: nat)
    requires 1 <= h <= |a| && 1 <= q <= |a|
    ensures At(Exchanged(a, h, q), p) == At(a, if p == h then q else if p == q then h else p)
  {
  }

  lemma {:induction false} ExchangedDistinct(a: seq<HeapNode>, h: nat, q: nat)
    requires 1 <= h <= |a| && 1 <= q <= |a| && Distinct(a)
    ensures Distinct(Exchanged(a, h, q))
  {
  }

  lemma {:induction false} RelinkedDown(a: seq<HeapNode>, h: nat)
    requires 2 <= h <= |a| && Distinct(a)
    requires forall p: nat :: 1 <= p <= |a| && p != h && p != h / 2 && p != h / 4 ==> Down(a, p)
    requires h / 4 >= 1 ==> var g := Nth(a, h / 4);
      && g.left == (if h / 2 == 2 * (h / 4) then Nth(a, h) else At(a, 2 * (h / 4)))
      && g.right == if h / 2 == 2 * (h / 4) + 1 then Nth(a, h) else At(a, 2 * (h / 4) + 1)
    requires var n, q := Nth(a, h), h / 2;
      && n.left == (if 2 * q == h then Nth(a, q) else At(a, 2 * q))
      && n.right == if 2 * q + 1 == h then Nth(a, q) else At(a, 2 * q + 1)
    requires var n := Nth(a, h / 2); n.left == At(a, 2 * h) && n.right == At(a, 2 * h + 1)
    ensures forall p: nat :: 1 <= p <= |a| ==> Down(Exchanged(a, h, h / 2), p)
  {
    var b, q := Exchanged(a, h, h / 2), h / 2;
    forall p: nat | 1 <= p <= |a| ensures Down(b, p) {
      ExchangedAt(a, h, q, 2 * p);
      ExchangedAt(a, h, q, 2 * p + 1);
      ExchangedAt(a, h, q, p);
      if p == h || p == q {
      } else if p == h / 4 {
      } else {
        assert Down(a, p) && Nth(b, p) == Nth(a, p);
      }
    }
  }

  lemma {:induction false} RelinkedUp(a: seq<HeapNode>, h: nat)
    requires 2 <= h <= |a| && Distinct(a)
    requires forall p: nat :: 1 <= p <= |a| && p != h && p != h / 2 ==> UpB(a, h, p)
    requires Nth(a, h).parent == At(a, h / 4) && Nth(a, h / 2).parent == Nth(a, h)
    ensures forall p: nat :: 1 <= p <= |a| ==> Up(Exchanged(a, h, h / 2), p)
  {
    var b, q := Exchanged(a, h, h / 2), h / 2;
    forall p: nat | 1 <= p <= |a| ensures Up(b, p) {
      ExchangedAt(a, h, q, p / 2);
      ExchangedAt(a, h, q, p);
      if p != h && p != q {
        assert UpB(a, h, p) && Nth(b, p) == Nth(a, p);
      }
    }
  }

  method SetParent(node: HeapNode, gparent: HeapNode?, ghost a: seq<HeapNode>, ghost h: nat)
    requires Distinct(a) && 2 <= h <= |a| && node == Nth(a, h)
    requires forall p: nat :: 1 <= p <= |a| ==> UpB(a, h, p) && (p != h ==> Down(a, p))
    modifies node`parent
    ensures node.parent == gparent && forall p: nat :: 1 <= p <= |a| && p != h ==> UpB(a, h, p) && Down(a, p)
  {
    node.parent := gparent;
    forall p: nat | 1 <= p <= |a| && p != h ensures UpB(a, h, p) && Down(a, p) {
      assert old(UpB(a, h, p)) && old(Down(a, p)) && Nth(a, p) != node;
    }
  }

  /** The children of the node at h go to the node x that takes its place. */
  ghost predicate UpC(a: seq<HeapNode>, h: nat, x: HeapNode, p: nat)
    requires 1 <= h <= |a| && 1 <= p <= |a|
    reads Nth(a, p)`parent
  {
    Nth(a, p).parent == if p / 2 == h then x else At(a, p / 2)
  }

  method AdoptChildren(x: HeapNode, node: HeapNode, ghost a: seq<HeapNode>, ghost h: nat)
    requires Shape(a) && Distinct(a) && 1 <= h <= |a| && node == Nth(a, h) && x !in a
    modifies a`parent
    ensures forall p: nat :: 1 <= p <= |a| ==> Down(a, p) && UpC(a, h, x, p)
    ensures node.parent == old(node.parent) && x.parent == old(x.parent)
  {
    NodeLinks(a, h);
    if node.left != null {
      node.left.parent := x;
    }
    if node.right != null {
      node.right.parent := x;
    }
    forall p: nat | 1 <= p <= |a| ensures Down(a, p) && UpC(a, h, x, p) {
      assert old(Up(a, p)) && old(Down(a, p));
      assert p / 2 == h ==> p == 2 * h || p == 2 * h + 1;
      assert p / 2 != h ==> Nth(a, p) != node.left && Nth(a, p) != node.right;
    }
  }

  lemma {:induction false} Replaced(a: seq<HeapNode>, h: nat, x: HeapNode)
    requires Distinct(a) && 1 <= h <= |a| && x !in a
    requires forall p: nat :: 1 <= p <= |a| ==> UpC(a, h, x, p) && (p != h / 2 ==> Down(a, p))
    requires h / 2 >= 1 ==> var g := Nth(a, h / 2);
      && g.left == (if h == 2 * (h / 2) then x else At(a, 2 * (h / 2)))
      && g.right == if h == 2 * (h / 2) + 1 then x else At(a, 2 * (h / 2) + 1)
    requires x.left == At(a, 2 * h) && x.right == At(a, 2 * h + 1) && x.parent == At(a, h / 2)
    ensures Distinct(a[h - 1 := x]) && Shape(a[h - 1 := x])
  {
    var b := a[h - 1 := x];
    forall p: nat | 1 <= p <= |b| ensures Down(b, p) && Up(b, p) {
      if p != h {
        assert UpC(a, h, x, p) && (p != h / 2 ==> Down(a, p)) && Nth(b, p) == Nth(a, p);
      }
    }
  }

  method Poison(node: HeapNode)
    modifies node
    ensures node.left == null && node.right == null && node.parent == null
  {
    node.left := null;
    node.right := null;
    node.parent := null;
  }

  class HeapRoot {
    var node: HeapNode?
    var count: nat
    ghost var arr: seq<HeapNode>

    ghost predicate Valid()
      reads this, arr
    {
      count == |arr| && node == At(arr, 1) && Distinct(arr) && Shape(arr)
    }

    constructor ()
      ensures Valid() && arr == []
    {
      node, count, arr := null, 0, [];
    }

    /** The grandparent, or the root pointer, takes the node in the place of the parent. */
    method HookUp(parent: HeapNode, node: HeapNode, gparent: HeapNode?, ghost a: seq<HeapNode>, ghost h: nat)
      requires Distinct(a) && 2 <= h <= |a| && node == Nth(a, h) && parent == Nth(a, h / 2)
      requires gparent == At(a, h / 4) && this.node == At(a, 1)
      requires forall p: nat :: 1 <= p <= |a| && p != h ==> Down(a, p) && UpB(a, h, p)
      modifies this`node, a`left, a`right
      ensures this.node == if h / 2 == 1 then node else At(a, 1)
      ensures forall p: nat :: 1 <= p <= |a| && p != h ==> UpB(a, h, p) && (p != h / 4 ==> Down(a, p))
      ensures node.left == old(node.left) && node.right == old(node.right)
      ensures h / 4 >= 1 ==> var g := Nth(a, h / 4);
        && g.left == (if h / 2 == 2 * (h / 4) then node else At(a, 2 * (h / 4)))
        && g.right == if h / 2 == 2 * (h / 4) + 1 then node else At(a, 2 * (h / 4) + 1)
    {
      if gparent == null {
        this.node := node;
      } else {
        assert gparent == Nth(a, h / 4) && Down(a, h / 4);
        if gparent.left == parent {
          gparent.left := node;
        } else {
          gparent.right := node;
        }
      }
      forall p: nat | 1 <= p <= |a| && p != h ensures UpB(a, h, p) && (p != h / 4 ==> Down(a, p)) {
        assert old(UpB(a, h, p)) && old(Down(a, p)) && (p != h / 4 ==> Nth(a, p) != gparent);
      }
    }

    /** parent_swap: exchange a node with its parent by relinking. */
    method ParentSwap(parent: HeapNode, node: HeapNode, ghost h: nat)
      requires Valid() && 2 <= h <= |arr| && node == arr[h - 1] && parent == arr[h / 2 - 1]
      modifies this, arr
      ensures Valid() && arr == Exchanged(old(arr), h, h / 2) && count == old(count)
    {
      hide Distinct; hide Exchanged; hide Down; hide Up; hide UpB; hide UpA;
      ghost var a, q := arr, h / 2;
      NodeLinks(a, h);
      NodeLinks(a, q);
      var gparent := parent.parent;
      var left, right := node.left, node.right;
      MoveChildren(parent, node, a, h);
      TakeSide(parent, node, a, h);
      SetParent(node, gparent, a, h);
      HookUp(parent, node, gparent, a, h);
      TakeLinks(parent, node, left, right, a, h);
      ExchangedAt(a, h, q, 1);
      arr := Exchanged(a, h, q);
      RelinkedDown(a, h);
      RelinkedUp(a, h);
      ExchangedDistinct(a, h, q);
    }

    /** heap_fixup: the node rises until its parent is not above it. */
    method Fixup(node: HeapNode, cmp: Cmp, ghost h0: nat)
      requires Valid() && 1 <= h0 <= |arr| && node == Nth(arr, h0)
      modifies this, arr
      ensures Valid() && multiset(arr) == multiset(old(arr)) && count == old(count)
      ensures StrictWeak(cmp, old(arr)) && OrderedUp(cmp, old(arr), h0) ==> Ordered(cmp, arr)
    {
      hide StrictWeak; hide OrderedUp; hide Ordered; hide Exchanged;
      ghost var h, a0 := h0, arr;
      ghost var ordered := StrictWeak(cmp, arr) && OrderedUp(cmp, arr, h);
      NodeLinks(arr, h);
      var parent := node.parent;
      while parent != null
        invariant Valid() && multiset(arr) == multiset(a0) && count == old(count)
        invariant 1 <= h <= |arr| && node == Nth(arr, h) && parent == At(arr, h / 2)
        invariant ordered ==> StrictWeak(cmp, arr) && OrderedUp(cmp, arr, h)
        decreases h
      {
        if cmp(node, parent) >= 0 {
          break;
        }
        SameNodes(arr, a0);
        if ordered {
          UpStep(cmp, arr, h);
          StrictSame(cmp, arr, Exchanged(arr, h, h / 2));
        }
        ExchangedAt(arr, h, h / 2, h / 2);
        ParentSwap(parent, node, h);
        h := h / 2;
        NodeLinks(arr, h);
        parent := node.parent;
      }
      if ordered {
        UpDone(cmp, arr, h);
      }
    }

    /** heap_erase: the node that took over position h rises or sinks to where it belongs. */
    method Erase(node: HeapNode, cmp: Cmp, ghost h0: nat)
      requires Valid() && 1 <= h0 <= |arr| && node == Nth(arr, h0)
      modifies this, arr
      ensures Valid() && multiset(arr) == multiset(old(arr)) && count == old(count)
      ensures StrictWeak(cmp, old(arr)) && OrderedHole(cmp, old(arr), h0) ==> Ordered(cmp, arr)
    {
      hide StrictWeak; hide OrderedUp; hide Ordered; hide OrderedDown; hide OrderedHole; hide Exchanged; hide Smaller;
      ghost var h, a0 := h0, arr;
      ghost var ordered := StrictWeak(cmp, arr) && OrderedHole(cmp, arr, h);
      NodeLinks(arr, h);
      var successor := node.parent;
      if successor != null {
        var result := cmp(node, successor);
        if result < 0 {
          if ordered {
            HoleUp(cmp, arr, h);
          }
          Fixup(node, cmp, h);
          return;
        }
      }
      if ordered {
        HoleDown(cmp, arr, h);
      }
      SiftDown(node, cmp, h);
    }

    /** The loop of heap_erase: the node sinks below every smaller child. */
    method SiftDown(node: HeapNode, cmp: Cmp, ghost h0: nat)
      requires Valid() && 1 <= h0 <= |arr| && node == Nth(arr, h0)
      modifies this, arr
      ensures Valid() && multiset(arr) == multiset(old(arr)) && count == old(count)
      ensures StrictWeak(cmp, old(arr)) && OrderedDown(cmp, old(arr), h0) ==> Ordered(cmp, arr)
    {
      hide StrictWeak; hide OrderedUp; hide Ordered; hide OrderedDown; hide OrderedHole; hide Exchanged; hide Smaller;
      hide Shape; hide Distinct;
      ghost var h, a0 := h0, arr;
      ghost var ordered := StrictWeak(cmp, arr) && OrderedDown(cmp, arr, h);
      while true
        invariant Valid() && multiset(arr) == multiset(a0) && count == old(count)
        invariant 1 <= h <= |arr| && node == Nth(arr, h)
        invariant ordered ==> StrictWeak(cmp, arr) && OrderedDown(cmp, arr, h)
        decreases |arr| - h
      {
        NodeLinks(arr, h);
        var child1 := node.left;
        var child2 := node.right;
        if child1 == null && child2 == null {
          if ordered {
            DownDone(cmp, arr, h);
          }
          return;
        }
        var successor := PickChild(node, child1, child2, cmp, h);
        ghost var c := if successor == node.left then 2 * h else 2 * h + 1;
        if ordered {
          PickedSmaller(cmp, arr, h, c);
        }
        if cmp(node, successor) < 0 {
          if ordered {
            DownStop(cmp, arr, h, c);
          }
          return;
        }
        SameNodes(arr, a0);
        if ordered {
          DownStep(cmp, arr, h, c);
          StrictSame(cmp, arr, Exchanged(arr, c, h));
        }
        ExchangedAt(arr, c, h, c);
        ParentSwap(node, successor, c);
        h := c;
      }
    }

    /** The smaller child.  With only one of the two the source takes the left one either way; in a complete tree
        there is no right child without a left one. */
    method PickChild(node: HeapNode, child1: HeapNode?, child2: HeapNode?, cmp: Cmp, ghost h: nat) returns (successor: HeapNode)
      requires Valid() && 1 <= h <= |arr| && node == Nth(arr, h)
      requires child1 == node.left && child2 == node.right && (child1 != null || child2 != null)
      ensures 2 * h <= |arr| && (successor == Nth(arr, 2 * h) || (2 * h + 1 <= |arr| && successor == Nth(arr, 2 * h + 1)))
      ensures 2 * h + 1 <= |arr| ==>
        successor == if Less(cmp, Nth(arr, 2 * h), Nth(arr, 2 * h + 1)) then Nth(arr, 2 * h) else Nth(arr, 2 * h + 1)
    {
      NodeLinks(arr, h);
      var pick := child1;
      if child2 != null && child1 != null {
        if cmp(child1, child2) < 0 {
          pick := child1;
        } else {
          pick := child2;
        }
      }
      successor := pick;
    }

    // ----- finding positions -----

    /** The walk of heap_find and of the level-order iterator: from the root by the bits of x below its highest. */
    method Descend(x: nat) returns (node: HeapNode?)
      requires Valid()
      ensures node == if x > 0 then At(arr, x) else this.node
    {
      var depth := Flsuf(x);
      node := this.node;
      ghost var p: nat := 1;
      if x > 0 {
        ShrTop(x);
      }
      while node != null && depth > 0
        invariant if x > 0 then p == Shr(x, depth) else depth == 0 && p == 1
        invariant p >= 1
        invariant node == At(arr, p)
        decreases depth
      {
        depth := depth - 1;
        ShrStep(x, depth);
        NodeLinks(arr, p);
        if Bit(x, depth) {
          node := node.right;
          p := 2 * p + 1;
        } else {
          node := node.left;
          p := 2 * p;
        }
      }
      ShrBelow(x, depth);
    }

    /** heap_find: always the node at the last position, whatever index is asked for. */
    method Find(index: nat) returns (node: HeapNode?)
      requires Valid()
      ensures node == At(arr, count)
      ensures 1 <= index <= |arr| ==> (node == At(arr, index) <==> index == count)
    {
      node := Descend(count);
    }

    /** heap_parent: the link of the first free position. */
    method ParentOf() returns (link: Link, parent: HeapNode?)
      requires Valid()
      ensures parent == At(arr, (count + 1) / 2)
      ensures if parent == null then link == Root && count == 0
              else link == if (count + 1) % 2 == 1 then RightOf(parent) else LeftOf(parent)
    {
      ghost var x := count + 1;
      var depth := Flsuf(count + 1);
      link := Root;
      parent := null;
      if node == null {
        return;
      }
      ShrTop(x);
      ghost var p: nat := 1;
      while depth > 0
        invariant p == Shr(x, depth) >= 1 && ValueOf(link) == At(arr, p)
        invariant parent == At(arr, p / 2)
        invariant p > 1 ==> parent != null && link == if p % 2 == 1 then RightOf(parent) else LeftOf(parent)
        invariant depth > 0 ==> p <= count
        invariant depth == 0 ==> p == x
        decreases depth
      {
        parent := ValueOf(link);
        NodeLinks(arr, p);
        depth := depth - 1;
        ShrStep(x, depth);
        ShrBelow(x, depth);
        if Bit(count + 1, depth) {
          link := RightOf(parent);
          p := 2 * p + 1;
        } else {
          link := LeftOf(parent);
          p := 2 * p;
        }
      }
    }

    /** The node a link points to. */
    function ValueOf(link: Link): HeapNode?
      reads this, if link.Root? then {} else {link.node}
    {
      match link
      case Root => node
      case LeftOf(n) => n.left
      case RightOf(n) => n.right
    }

    // ----- inserting -----

    /** heap_link */
    method LinkNode(parent: HeapNode?, link: Link, node: HeapNode)
      requires Valid() && node !in arr && parent == At(arr, (count + 1) / 2)
      requires if parent == null then link == Root && count == 0
               else link == if (count + 1) % 2 == 1 then RightOf(parent) else LeftOf(parent)
      modifies this, arr, node
      ensures Valid() && arr == old(arr) + [node]
    {
      ghost var a, x := arr, count + 1;
      match link {
        case Root => this.node := node;
        case LeftOf(n) => n.left := node;
        case RightOf(n) => n.right := node;
      }
      node.parent := parent;
      node.left := null;
      node.right := null;
      count := count + 1;
      arr := a + [node];
      forall p: nat | 1 <= p <= x ensures Down(arr, p) && Up(arr, p) {
        if p < x {
          assert old(Down(a, p)) && old(Up(a, p));
          assert Nth(arr, p) == Nth(a, p) && Nth(a, p) in a;
        }
      }
    }

    /** heap_insert; the counter is an unsigned int. */
    method Insert(node: HeapNode, cmp: Cmp)
      requires Valid() && node !in arr && count < 0xFFFF_FFFF
      modifies this, arr, node
      ensures Valid() && multiset(arr) == multiset(old(arr)) + multiset{node}
      ensures StrictWeak(cmp, old(arr) + [node]) && Ordered(cmp, old(arr)) ==> Ordered(cmp, arr)
    {
      hide StrictWeak; hide OrderedUp; hide Ordered;
      var link, parent := ParentOf();
      LinkNode(parent, link, node);
      if Ordered(cmp, old(arr)) {
        UpStart(cmp, old(arr), node);
      }
      Fixup(node, cmp, count);
    }

    // ----- removing -----

    /** Cut the last position off the tree. */
    method CutLast(last: HeapNode, parent: HeapNode)
      requires Valid() && count >= 2 && last == Nth(arr, count) && parent == Nth(arr, count / 2)
      modifies this`count, this`arr, parent`left, parent`right
      ensures Valid() && arr == old(arr)[..old(count) - 1] && node == old(node)
    {
      ghost var a, n := arr, count;
      NodeLinks(a, n / 2);
      if parent.left == last {
        parent.left := null;
      } else {
        parent.right := null;
      }
      count := count - 1;
      arr := a[..n - 1];
      forall p: nat | 1 <= p <= n - 1 ensures Down(arr, p) && Up(arr, p) {
        assert old(Down(a, p)) && old(Up(a, p));
        assert Nth(arr, p) == Nth(a, p) && (p != n / 2 ==> Nth(a, p) != parent);
      }
    }

    /** The node that left the tree takes over the place and the links of node h. */
    method TakeOver(successor: HeapNode, node: HeapNode, ghost h: nat)
      requires Valid() && 1 <= h <= |arr| && node == Nth(arr, h) && successor !in arr
      modifies this, arr, successor
      ensures Valid() && arr == old(arr)[h - 1 := successor] && count == old(count)
      ensures node.left == old(node.left) && node.right == old(node.right) && node.parent == old(node.parent)
    {
      hide Distinct; hide Shape; hide Down; hide Up; hide UpC;
      ghost var a := arr;
      NodeLinks(a, h);
      successor.left := node.left;
      successor.right := node.right;
      successor.parent := node.parent;
      AdoptChildren(successor, node, a, h);
      ReplaceLink(node, successor, a, h);
      arr := a[h - 1 := successor];
      Replaced(a, h, successor);
    }

    /** The link to the node, in its parent or in the root, goes to the successor. */
    method ReplaceLink(node: HeapNode, successor: HeapNode, ghost a: seq<HeapNode>, ghost h: nat)
      requires Distinct(a) && 1 <= h <= |a| && node == Nth(a, h) && successor !in a && this.node == At(a, 1)
      requires node.parent == At(a, h / 2)
      requires forall p: nat :: 1 <= p <= |a| ==> Down(a, p) && UpC(a, h, successor, p)
      modifies this`node, a`left, a`right
      ensures this.node == if h == 1 then successor else At(a, 1)
      ensures forall p: nat :: 1 <= p <= |a| ==> UpC(a, h, successor, p) && (p != h / 2 ==> Down(a, p))
      ensures node.left == old(node.left) && node.right == old(node.right)
      ensures h / 2 >= 1 ==> var g := Nth(a, h / 2);
        && g.left == (if h == 2 * (h / 2) then successor else At(a, 2 * (h / 2)))
        && g.right == if h == 2 * (h / 2) + 1 then successor else At(a, 2 * (h / 2) + 1)
    {
      var parent := node.parent;
      assert h / 2 >= 1 ==> Down(a, h / 2);
      if parent == null {
        this.node := successor;
      } else {
        if node == parent.left {
          parent.left := successor;
        } else if node == parent.right {
          parent.right := successor;
        }
      }
      forall p: nat | 1 <= p <= |a| ensures UpC(a, h, successor, p) && (p != h / 2 ==> Down(a, p)) {
        assert old(UpC(a, h, successor, p)) && old(Down(a, p)) && (p != h / 2 ==> Nth(a, p) != parent);
      }
    }

    /** heap_remove: the last node of the tree takes the place of the removed one and is handed back, unless it
        is the removed one itself. */
    method RemoveNode(node: HeapNode, ghost h: nat) returns (successor: HeapNode?)
      requires Valid() && 1 <= h <= |arr| && node == Nth(arr, h)
      modifies this, arr
      ensures Valid()
      ensures var n := |old(arr)|; var cut := old(arr)[..n - 1];
        if h == n then arr == cut && successor == null
        else arr == cut[h - 1 := old(arr)[n - 1]] && successor == old(arr)[n - 1]
    {
      ghost var a, n := arr, |arr|;
      successor := Find(count);
      NodeLinks(a, n);
      if successor.parent == null {
        this.node := null;
        successor := null;
        count := count - 1;
        arr := [];
      } else {
        var parent: HeapNode := successor.parent;
        CutLast(successor, parent);
        if node == successor {
          successor := null;
          return;
        }
        TakeOver(successor, node, h);
      }
    }

    /** heap_delete; the links of the deleted node are poisoned. */
    method Delete(node: HeapNode, cmp: Cmp, ghost h: nat)
      requires Valid() && 1 <= h <= |arr| && node == Nth(arr, h)
      modifies this, arr
      ensures Valid() && node !in arr && multiset(old(arr)) == multiset(arr) + multiset{node}
      ensures node.left == null && node.right == null && node.parent == null
      ensures StrictWeak(cmp, old(arr)) && Ordered(cmp, old(arr)) ==> Ordered(cmp, arr)
    {
      hide StrictWeak; hide OrderedHole; hide Ordered; hide Shape; hide Distinct; hide At;
      ghost var a, n := arr, |arr|;
      DeleteFacts(a, h);
      var rebalance := RemoveNode(node, h);
      if StrictWeak(cmp, a) && Ordered(cmp, a) {
        CutOrder(cmp, a, h);
      }
      if rebalance != null {
        Erase(rebalance, cmp, h);
      }
      Gone(arr, a, node);
      Poison(node);
    }

    // ----- level-order iteration -----

    method LevelFirst() returns (first: HeapNode?, index: nat)
      requires Valid()
      ensures index == 0 && first == At(arr, 1)
    {
      index := 0;
      first := node;
    }

    method LevelNext(index0: nat) returns (next: HeapNode?, index: nat)
      requires Valid()
      ensures index == index0 + 1 && next == At(arr, index + 1)
    {
      index := index0 + 1;
      next := Descend(index + 1);
    }

    /** heap_for_each: every node, by position. */
    method ForEach() returns (visited: seq<HeapNode>)
      requires Valid()
      ensures visited == arr
    {
      visited := [];
      var pos, index := LevelFirst();
      while pos != null
        invariant index <= |arr| && visited == arr[..index] && pos == At(arr, index + 1)
        decreases |arr| - index
      {
        visited := visited + [pos];
        pos, index := LevelNext(index);
      }
    }
  }

  /** A link to a node: the root pointer, or a child field. */
  datatype Link = Root | LeftOf(node: HeapNode) | RightOf(node: HeapNode)

  lemma {:induction false} PickedSmaller(cmp: Cmp, a: seq<HeapNode>, h: nat, c: nat)
    requires StrictWeak(cmp, a) && 1 <= h && 2 * h <= |a| && (c == 2 * h || c == 2 * h + 1) && c <= |a|
    requires 2 * h + 1 <= |a| ==>
      Nth(a, c) == if Less(cmp, Nth(a, 2 * h), Nth(a, 2 * h + 1)) then Nth(a, 2 * h) else Nth(a, 2 * h + 1)
    requires Distinct(a)
    ensures Smaller(cmp, a, h, c)
  {
    forall d: nat | d / 2 == h && d <= |a| && d != c ensures Above(cmp, a, c, d) {
      assert d == 2 * h || d == 2 * h + 1;
      assert Nth(a, 2 * h) in a && Nth(a, 2 * h + 1) in a;
    }
  }

  lemma {:induction false} DeleteFacts(a: seq<HeapNode>, h: nat)
    requires 1 <= h <= |a|
    ensures var cut := a[..|a| - 1];
      && (h == |a| ==> multiset(a) == multiset(cut) + multiset{Nth(a, h)})
      && (h < |a| ==> multiset(a) == multiset(cut[h - 1 := a[|a| - 1]]) + multiset{Nth(a, h)})
  {
    assert a == a[..|a| - 1] + [a[|a| - 1]];
  }

  lemma {:induction false} CutOrder(cmp: Cmp, a: seq<HeapNode>, h: nat)
    requires 1 <= h <= |a| && StrictWeak(cmp, a) && Ordered(cmp, a)
    ensures var cut := a[..|a| - 1];
      if h == |a| then Ordered(cmp, cut)
      else StrictWeak(cmp, cut[h - 1 := a[|a| - 1]]) && OrderedHole(cmp, cut[h - 1 := a[|a| - 1]], h)
  {
    var cut := a[..|a| - 1];
    if h == |a| {
      forall p, c: nat | 1 <= p && p == c / 2 && c <= |cut| ensures Above(cmp, cut, p, c) {
        assert Above(cmp, a, p, c);
      }
    } else {
      HoleStart(cmp, a, h);
      var b := cut[h - 1 := a[|a| - 1]];
      forall x | x in b ensures x in a {
      }
    }
  }

  lemma {:induction false} Gone(b: seq<HeapNode>, a: seq<HeapNode>, x: HeapNode)
    requires Distinct(a) && multiset(a) == multiset(b) + multiset{x}
    ensures x !in b
  {
    DistinctCount(a, x);
    assert x in b <==> x in multiset(b);
  }

  lemma {:induction false} DistinctCount(a: seq<HeapNode>, x: HeapNode)
    requires Distinct(a)
    ensures multiset(a)[x] <= 1
  {
    if a != [] {
      DistinctCount(a[1..], x);
      assert a == [a[0]] + a[1..];
      assert a[0] == x ==> x !in a[1..];
    }
  }

  lemma {:induction false} SameNodes(a: seq<HeapNode>, b: seq<HeapNode>)
    requires multiset(a) == multiset(b)
    ensures |a| == |b| && forall i :: 0 <= i < |a| ==> a[i] in b
  {
    assert |multiset(a)| == |a| && |multiset(b)| == |b|;
    forall i | 0 <= i < |a| ensures a[i] in b {
      assert a[i] in multiset(a) && a[i] in multiset(b);
    }
  }
}
