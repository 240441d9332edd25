/** The cache of lib/lru-cache.c: nodes move between four lists and the chains of a hash index.  Lists and chains are
    sequences, first node first. */
module LruCache {
  import opened Words

  /** LRC_FREE_TAG */
  const FREE: nat := U32 - 1

  class LrcNode {
    var refcnt: nat
    var tag: nat
    var uncommitted: bool

    constructor ()
      ensures refcnt == 0 && tag == FREE && !uncommitted
    {
      refcnt, tag, uncommitted := 0, FREE, false;
    }
  }

  /** list_del */
  function Without<T(==)>(s: seq<T>, n: T): seq<T> {
    if s == [] then []
    else if s[0] == n then s[1..]
    else [s[0]] + Without(s[1..], n)
  }

  lemma {:induction false} WithoutBag<T>(s: seq<T>, n: T)
    ensures multiset(Without(s, n)) == multiset(s) - multiset{n}
    ensures n !in s ==> Without(s, n) == s
  {
    if s != [] {
      assert s == [s[0]] + s[1..];
      if s[0] != n {
        WithoutBag(s[1..], n);
      }
    }
  }

  /** A falling sequence that loses a node is still falling. */
  lemma {:induction false} WithoutFalls<T>(s: seq<T>, n: T, rank: map<T, int>)
    requires Falling(s, rank)
    ensures Falling(Without(s, n), rank) && forall m <- Without(s, n) :: m in s
  {
    if s != [] {
      FallingTail(s, rank);
      if s[0] != n {
        hide Falling;
        var rest := Without(s[1..], n);
        WithoutFalls(s[1..], n, rank);
        forall m | m in rest ensures m in s {
          assert m in s[1..];
        }
        FallingCons(s[0], rest, rank);
      }
    }
  }

  lemma {:induction false} FallingTail<T>(s: seq<T>, rank: map<T, int>)
    requires Falling(s, rank) && s != []
    ensures Falling(s[1..], rank) && s[0] in rank
    ensures forall m <- s[1..] :: m in rank && rank[m] < rank[s[0]]
  {
  }

  lemma {:induction false} FallingCons<T>(n: T, rest: seq<T>, rank: map<T, int>)
    requires Falling(rest, rank) && n in rank && forall m <- rest :: m in rank && rank[m] < rank[n]
    ensures Falling([n] + rest, rank)
  {
  }

  /** From first to last the ranks fall. */
  ghost predicate Falling<T>(s: seq<T>, rank: map<T, int>) {
    && (forall n <- s :: n in rank)
    && forall i, j :: 0 <= i < j < |s| ==> rank[s[j]] < rank[s[i]]
  }

  class LrcHead {
    var lru: seq<LrcNode>
    var using: seq<LrcNode>
    var freed: seq<LrcNode>
    var changing: seq<LrcNode>
    var taghash: seq<seq<LrcNode>>
    const nmask: nat
    const maxPending: nat
    var dirty: bool
    var starving: bool
    var used: nat
    var pending: nat
    var changed: nat
    var hits: nat
    var misses: nat
    var starve: nat

    /** All nodes; when each was put last; how often a committed node that nobody referred to was obtained from using. */
    ghost const nodes: set<LrcNode>
    ghost const bits: nat
    ghost var stamp: map<LrcNode, int>
    ghost var clock: int
    ghost var revived: nat

    /** No node has been obtained yet. */
    ghost predicate Untouched()
      reads this
    {
      lru == [] && using == [] && changing == [] && !dirty && !starving && used == 0 && revived == 0
    }

    /** lrc_hash_slot */
    function Slot(tag: nat): nat {
      And(tag, nmask)
    }

    ghost predicate Lists()
      reads this`lru, this`using, this`freed, this`changing
    {
      Partition(lru, using, freed, changing, nodes)
    }

    /** What being on a list says of a node. */
    ghost predicate Standing()
      reads this`lru, this`using, this`freed, this`changing, nodes
    {
      && (forall n <- lru :: n in nodes && n.refcnt == 0 && !n.uncommitted && n.tag < FREE)
      && (forall n <- using :: n in nodes && !n.uncommitted && n.tag < FREE)
      && (forall n <- freed :: n in nodes && n.refcnt == 0 && !n.uncommitted && n.tag == FREE)
      && (forall n <- changing :: n in nodes && n.uncommitted && n.tag < FREE)
    }

    /** A node is in the chain of its tag, once, if it has one; but no chain has x. */
    ghost predicate HashedBut(x: LrcNode?)
      reads this`taghash, nodes`tag
    {
      && |taghash| == nmask + 1 == Pow2(bits)
      && (forall n <- nodes :: n != x && n.tag < FREE ==>
            Slot(n.tag) < |taghash| && multiset(taghash[Slot(n.tag)])[n] == 1)
      && (forall b :: 0 <= b < |taghash| ==>
            forall n <- taghash[b] :: n in nodes && n != x && n.tag < FREE && Slot(n.tag) == b)
    }

    ghost predicate Hashed()
      reads this`taghash, nodes`tag
    {
      HashedBut(null)
    }

    ghost predicate TagsUnique()
      reads nodes`tag
    {
      forall n <- nodes, m <- nodes :: n.tag == m.tag < FREE ==> n == m
    }

    ghost predicate Counts()
      reads this`lru, this`using, this`freed, this`changing, this`pending, this`used, this`revived, this`starving
    {
      && pending == |changing| <= maxPending
      && used == Wrap32(|changing| + |using| + revived)
      && (starving ==> lru == [] && freed == [])
    }

    /** The lru list runs from the last put to the first. */
    ghost predicate Aged()
      reads this`lru, this`stamp, this`clock
    {
      (forall n <- lru :: n in stamp && stamp[n] < clock) && Falling(lru, stamp)
    }

    ghost predicate Valid()
      reads this, nodes
    {
      Lists() && Standing() && Hashed() && TagsUnique() && Counts() && Aged()
    }

    /** r is what a search through all nodes would give; uncommitted ones are wanted only with change. */
    ghost predicate IsFound(r: LrcNode?, tag: nat, change: bool)
      reads this, nodes
    {
      if r == null then forall n <- nodes :: n.tag == tag < FREE ==> n.uncommitted && !change
      else r in nodes && r.tag == tag < FREE && (r.uncommitted ==> change)
    }

    /** lrc_find_change */
    method FindChange(tag: nat, change: bool) returns (r: LrcNode?)
      requires Valid() && tag < U32
      ensures IsFound(r, tag, change)
    {
      LowBits(tag, bits);
      DivRem(tag, Pow2(bits));
      var chain := taghash[Slot(tag)];
      var i := 0;
      while i < |chain|
        invariant 0 <= i <= |chain|
        invariant forall j :: 0 <= j < i ==> chain[j].tag != tag
      {
        var walk := chain[i];
        if walk.tag == tag {
          if !walk.uncommitted || change {
            return walk;
          }
          break;
        }
        i := i + 1;
      }
      return null;
    }

    /** list_del on whichever list the node is on. */
    method Delist(n: LrcNode)
      modifies this`lru, this`using, this`freed, this`changing
      ensures lru == Without(old(lru), n) && using == Without(old(using), n)
      ensures freed == Without(old(freed), n) && changing == Without(old(changing), n)
    {
      lru, using := Without(lru, n), Without(using, n);
      freed, changing := Without(freed, n), Without(changing, n);
    }

    lemma {:induction false} SlotInside(tag: nat)
      requires |taghash| == nmask + 1 == Pow2(bits)
      ensures Slot(tag) < |taghash|
    {
      hide And; hide Pow2; hide Rem;
      LowBits(tag, bits);
      DivRem(tag, Pow2(bits));
    }

    /** hlist_del, if the node is hashed */
    method Unhash(node: LrcNode)
      requires Hashed() && node in nodes
      modifies this`taghash
      ensures HashedBut(node)
    {
      hide And; hide Pow2; hide Without; hide Slot;
      var b := Slot(node.tag);
      SlotInside(node.tag);
      if node in taghash[b] {
        WithoutBag(taghash[b], node);
        ghost var was := taghash[b];
        taghash := taghash[b := Without(taghash[b], node)];
        forall n | n in taghash[b] ensures n in was && n != node {
          assert n in multiset(taghash[b]);
        }
      }
    }

    /** hlist_head_add */
    method Rehash(node: LrcNode)
      requires HashedBut(node) && node in nodes && node.tag < FREE
      modifies this`taghash
      ensures Hashed()
    {
      hide And; hide Pow2; hide Slot;
      var b := Slot(node.tag);
      SlotInside(node.tag);
      ghost var was := taghash[b];
      taghash := taghash[b := [node] + taghash[b]];
      assert multiset(taghash[b]) == multiset{node} + multiset(was);
      assert node !in was;
    }

    /** The node has another tag now, and is in no chain. */
    twostate lemma HashedStill(node: LrcNode)
      requires old(HashedBut(node)) && taghash == old(taghash)
      requires forall n <- nodes :: n != node ==> n.tag == old(n.tag)
      ensures HashedBut(node)
    {
      hide And; hide Pow2; hide Slot;
    }

    /** A node leaves its chain, takes a tag, and enters the chain of that tag unless it is the free tag. */
    method Retag(node: LrcNode, tag: nat)
      requires Hashed() && TagsUnique() && node in nodes
      requires tag == FREE || (tag < FREE && forall n <- nodes :: n.tag != tag)
      modifies this`taghash, node`tag
      ensures Hashed() && TagsUnique() && node.tag == tag
    {
      hide And; hide Pow2; hide Slot; hide HashedBut;
      Unhash(node);
      label Unhashed:
      node.tag := tag;
      HashedStill@Unhashed(node);
      if tag == FREE {
        FreeHashed(node);
      } else {
        Rehash(node);
      }
    }

    lemma {:induction false} FreeHashed(node: LrcNode)
      requires HashedBut(node) && node.tag == FREE
      ensures Hashed()
    {
      hide And; hide Pow2; hide Slot;
    }

    /** The lists once a node has moved from the freed or the lru list to the changing list. */
    lemma {:induction false} ClaimLists(node: LrcNode)
      requires Lists() && Aged() && (node in lru || node in freed)
      ensures Partition(Without(lru, node), using, Without(freed, node), [node] + changing, nodes)
      ensures Without(using, node) == using && Without(changing, node) == changing
      ensures node in nodes && node !in using && node !in changing
      ensures Falling(Without(lru, node), stamp)
      ensures forall m <- Without(lru, node) :: m in lru && m != node
      ensures forall m <- Without(freed, node) :: m in freed && m != node
      ensures node !in lru ==> Without(lru, node) == lru
      ensures node !in freed ==> Without(freed, node) == freed
    {
      hide Falling; hide Without; hide Partition;
      Shuffled(lru, using, freed, changing, nodes);
      if node in freed {
        Leaving(freed, changing, lru, using, nodes, node);
      } else {
        Leaving(lru, changing, freed, using, nodes, node);
      }
      Shuffled(Without(lru, node), using, Without(freed, node), [node] + changing, nodes);
      WithoutFalls(lru, node, stamp);
    }

    /** The tag of a node nobody refers to is changed, and the node awaits the commit. */
    method Claim(node: LrcNode, tag: nat)
      requires Lists() && Standing() && Hashed() && TagsUnique() && Aged()
      requires (node in lru || node in freed) && tag < FREE && forall n <- nodes :: n.tag != tag
      modifies this`lru, this`using, this`freed, this`changing, this`taghash, node`tag, node`uncommitted
      ensures Lists() && Standing() && Hashed() && TagsUnique() && Aged()
      ensures node in nodes && node.tag == tag && node.uncommitted
      ensures changing == [node] + old(changing) && using == old(using)
      ensures lru == Without(old(lru), node) && freed == Without(old(freed), node)
    {
      hide Hashed; hide TagsUnique; hide Falling; hide Without; hide Partition;
      ClaimLists(node);
      Retag(node, tag);
      node.uncommitted := true;
      Delist(node);
      changing := [node] + changing;
    }

    /** lrc_unused_change: a free node, or else the node that was put longest ago. */
    method UnusedChange(tag: nat) returns (node: LrcNode)
      requires Lists() && Standing() && Hashed() && TagsUnique() && Aged()
      requires !(lru == [] && freed == []) && tag < FREE && forall n <- nodes :: n.tag != tag
      modifies this`lru, this`using, this`freed, this`changing, this`taghash, nodes`tag, nodes`uncommitted
      ensures Lists() && Standing() && Hashed() && TagsUnique() && Aged()
      ensures node in nodes && node.refcnt == 0 && node.tag == tag && node.uncommitted
      ensures changing == [node] + old(changing) && using == old(using)
      ensures lru == Without(old(lru), node) && freed == Without(old(freed), node)
      ensures Picked(node, old(freed), old(lru), stamp)
      ensures forall n <- nodes :: n != node ==> n.tag == old(n.tag) && n.uncommitted == old(n.uncommitted)
    {
      hide Hashed; hide TagsUnique; hide Falling; hide Without; hide Partition; hide And; hide Pow2; hide Slot;
      if freed != [] {
        node := freed[0];
      } else {
        node := lru[|lru| - 1];
        LastLeast(lru, stamp);
      }
      Claim(node, tag);
    }

    /** lrc_obtain, with the two flags apart */
    method Obtain(tag: nat, change: bool, uncommitted: bool) returns (node: LrcNode?)
      requires Valid() && tag < FREE
      modifies this`lru, this`using, this`freed, this`changing, this`taghash, this`dirty, this`starving
      modifies this`used, this`pending, this`hits, this`misses, this`starve, this`revived
      modifies nodes`tag, nodes`uncommitted, nodes`refcnt
      ensures Valid()
      // refused
      ensures old(starving) ==>
                && node == null && starve == Wrap(old(starve) + 1) && starving && dirty == old(dirty)
                && hits == old(hits) && misses == old(misses)
      ensures !old(starving) ==> starve == old(starve)
      ensures node == null ==> lru == old(lru) && using == old(using) && freed == old(freed) && changing == old(changing)
      ensures node == null ==> used == old(used) && pending == old(pending) && taghash == old(taghash)
      ensures node != null ==> !old(starving) && node in nodes && node.tag == tag
      // a miss
      ensures !old(starving) && (forall n <- nodes :: old(n.tag) != tag) ==>
                && misses == Wrap(old(misses) + 1) && hits == old(hits) && dirty == (old(dirty) || change)
                && (node != null <==> change && !(old(lru) == [] && old(freed) == []) && old(pending) < maxPending)
                && (starving <==> change && old(lru) == [] && old(freed) == [])
                && (node != null ==> Recycled(node, old(freed), old(lru), old(changing)) && old(node.refcnt) == node.refcnt == 0 && using == old(using))
      // a hit
      ensures forall f <- nodes :: !old(starving) && old(f.tag) == tag ==>
                && hits == Wrap(old(hits) + 1) && misses == old(misses) && !starving && pending == old(pending)
                && dirty == old(dirty) && taghash == old(taghash)
                && freed == old(freed) && changing == old(changing)
                && node == (if old(f.uncommitted) && !uncommitted then null else f)
                && (node != null ==> f.refcnt == Wrap32(old(f.refcnt) + 1))
                && (!old(f.uncommitted) ==> using == [f] + Without(old(using), f) && lru == Without(old(lru), f))
                && (old(f.uncommitted) ==> using == old(using) && lru == old(lru))
      // how the counter of used nodes departs from the lists
      ensures node == null || old(node.tag) != tag ==> revived == old(revived)
      ensures forall f <- nodes :: !old(starving) && old(f.tag) == tag ==>
                revived == old(revived) + if !old(f.uncommitted) && old(f in using && f.refcnt == 0) then 1 else 0
      // nobody else is touched, and a node that is referred to keeps its tag
      ensures forall n <- nodes :: n != node ==> n.tag == old(n.tag) && n.uncommitted == old(n.uncommitted) && n.refcnt == old(n.refcnt)
      ensures forall n <- nodes :: old(n.refcnt) > 0 ==> n.tag == old(n.tag)
    {
      hide Lists; hide Standing; hide Hashed; hide Counts; hide Aged; hide TagsUnique; hide Recycled; hide Without;
      if starving {
        starve := Wrap(starve + 1);
        return null;
      }
      node := FindChange(tag, true);
      Unique(node, tag);
      if node == null {
        node := Miss(tag, change);
      } else {
        hits := Wrap(hits + 1);
        node := Hit(node, uncommitted);
      }
    }

    lemma {:induction false} Unique(r: LrcNode?, tag: nat)
      requires TagsUnique() && IsFound(r, tag, true) && tag < FREE
      ensures forall n <- nodes :: n.tag == tag <==> n == r
    {
    }

    /** Where the recycled node comes from, and where it is now. */
    ghost predicate Recycled(node: LrcNode, freed0: seq<LrcNode>, lru0: seq<LrcNode>, changing0: seq<LrcNode>)
      reads this, node
    {
      && Picked(node, freed0, lru0, stamp) && node.uncommitted
      && changing == [node] + changing0 && pending == |changing| && lru == Without(lru0, node) && freed == Without(freed0, node)
    }

    /** The branch of lrc_obtain for a tag that no node has. */
    method Miss(tag: nat, change: bool) returns (node: LrcNode?)
      requires Valid() && tag < FREE && !starving && forall n <- nodes :: n.tag != tag
      modifies this`lru, this`using, this`freed, this`changing, this`taghash, this`dirty, this`starving
      modifies this`used, this`pending, this`misses, nodes`tag, nodes`uncommitted
      ensures Valid() && misses == Wrap(old(misses) + 1) && dirty == (old(dirty) || change)
      ensures node != null <==> change && !(old(lru) == [] && old(freed) == []) && old(pending) < maxPending
      ensures starving <==> change && old(lru) == [] && old(freed) == []
      ensures node == null ==> lru == old(lru) && using == old(using) && freed == old(freed) && changing == old(changing)
      ensures node == null ==> used == old(used) && pending == old(pending) && taghash == old(taghash)
      ensures node != null ==>
                && node in nodes && node.tag == tag && node.refcnt == 0 && using == old(using)
                && Recycled(node, old(freed), old(lru), old(changing))
      ensures forall n <- nodes :: n != node ==> n.tag == old(n.tag) && n.uncommitted == old(n.uncommitted)
    {
      hide Lists; hide Standing; hide Hashed; hide Aged; hide TagsUnique; hide Picked; hide Wrap32; hide Without;
      misses := Wrap(misses + 1);
      if !change {
        return null;
      }
      dirty := true;
      if lru == [] && freed == [] {
        starving := true;
        return null;
      }
      if pending >= maxPending {
        return null;
      }
      Wrap32Step(|changing| + |using| + revived);
      node := UnusedChange(tag);
      starving := false;
      pending := pending + 1;
      used := Wrap32(used + 1);
    }

    /** The branch of lrc_obtain for a tag that a node has. */
    method Hit(held: LrcNode, uncommitted: bool) returns (node: LrcNode?)
      requires Valid() && held in nodes && held.tag < FREE
      modifies this`lru, this`using, this`freed, this`changing, this`used, this`revived, held`refcnt
      ensures Valid() && freed == old(freed) && changing == old(changing)
      ensures node == (if held.uncommitted && !uncommitted then null else held)
      ensures node != null ==> held.refcnt == Wrap32(old(held.refcnt) + 1)
      ensures node == null ==> held.refcnt == old(held.refcnt) && used == old(used)
      ensures !held.uncommitted ==> using == [held] + Without(old(using), held) && lru == Without(old(lru), held)
      ensures held.uncommitted ==> using == old(using) && lru == old(lru) && used == old(used)
      ensures revived == old(revived) + if !held.uncommitted && old(held in using && held.refcnt == 0) then 1 else 0
    {
      hide Hashed; hide TagsUnique; hide Partition; hide Wrap32; hide Without; hide Falling;
      OnSomeList(held);
      if held.uncommitted {
        if !uncommitted {
          return null;
        }
        held.refcnt := Wrap32(held.refcnt + 1);
        return held;
      }
      Refer(held);
      return held;
    }

    lemma {:induction false} OnSomeList(n: LrcNode)
      requires Lists() && n in nodes
      ensures n in lru || n in using || n in freed || n in changing
    {
      assert (multiset(lru) + multiset(using) + multiset(freed) + multiset(changing))[n] == 1;
    }

    /** One more reference to a committed node, which moves to the front of the using list.  When it was there already
        and nobody referred to it, it is counted as used a second time. */
    method Refer(node: LrcNode)
      requires Valid() && (node in lru || node in using)
      modifies this`lru, this`using, this`freed, this`changing, this`used, this`revived, node`refcnt
      ensures Valid() && freed == old(freed) && changing == old(changing)
      ensures node.refcnt == Wrap32(old(node.refcnt) + 1)
      ensures using == [node] + Without(old(using), node) && lru == Without(old(lru), node)
      ensures revived == old(revived) + if old(node in using && node.refcnt == 0) then 1 else 0
    {
      hide Hashed; hide TagsUnique; hide Partition; hide Wrap32; hide Without; hide Falling;
      Wrap32Step(|changing| + |using| + revived);
      ReferLists(node);
      if node.refcnt == 0 {
        used := Wrap32(used + 1);
        if node in using {
          revived := revived + 1;
        }
      }
      node.refcnt := Wrap32(node.refcnt + 1);
      ToUsing(node);
    }

    /** list_move to the using list */
    method ToUsing(node: LrcNode)
      requires Lists() && Aged() && (node in lru || node in using)
      requires (forall n <- lru :: n in nodes && (n != node ==> n.refcnt == 0) && !n.uncommitted && n.tag < FREE)
      requires (forall n <- using :: n in nodes && !n.uncommitted && n.tag < FREE)
      modifies this`lru, this`using, this`freed, this`changing
      ensures Lists() && Aged() && freed == old(freed) && changing == old(changing)
      ensures using == [node] + Without(old(using), node) && lru == Without(old(lru), node)
      ensures (forall n <- lru :: n in nodes && n.refcnt == 0 && !n.uncommitted && n.tag < FREE)
      ensures (forall n <- using :: n in nodes && !n.uncommitted && n.tag < FREE)
      ensures node !in freed && node !in changing && |using| == |old(using)| + if node in old(using) then 0 else 1
    {
      hide Partition; hide Without; hide Falling;
      ReferLists(node);
      Delist(node);
      using := [node] + using;
    }

    lemma {:induction false} ReferLists(node: LrcNode)
      requires Lists() && Aged() && (node in lru || node in using)
      ensures Partition(Without(lru, node), [node] + Without(using, node), freed, changing, nodes)
      ensures Without(freed, node) == freed && Without(changing, node) == changing
      ensures node in nodes && node !in freed && node !in changing
      ensures Falling(Without(lru, node), stamp)
      ensures |[node] + Without(using, node)| == |using| + if node in using then 0 else 1
      ensures forall m <- Without(lru, node) :: m in lru && m != node
      ensures forall m <- Without(using, node) :: m in using && m != node
      ensures node in lru <==> node !in using
    {
      hide Falling; hide Without; hide Partition;
      Shuffled(lru, using, freed, changing, nodes);
      if node in using {
        Leaving(using, lru, freed, changing, nodes, node);
        Shuffled(Without(lru, node), [node] + Without(using, node), freed, changing, nodes);
      } else {
        Leaving(lru, using, freed, changing, nodes, node);
      }
      WithoutFalls(lru, node, stamp);
    }

    /** lrc_del, for a node that is referred to, or on the lru list, or on the using list while the cache does not
        starve.  In the last case the counter of used nodes keeps counting it. */
    method Del(node: LrcNode) returns (busy: bool)
      requires Valid() && node in nodes && (node.refcnt > 0 || node in lru || (node in using && !starving))
      modifies this`lru, this`using, this`freed, this`changing, this`taghash, this`revived, node`tag
      ensures Valid() && busy == (node.refcnt > 0) && changing == old(changing)
      ensures busy ==>
                && lru == old(lru) && using == old(using) && freed == old(freed) && taghash == old(taghash)
                && node.tag == old(node.tag) && revived == old(revived)
      ensures !busy ==>
                && node.tag == FREE && freed == [node] + old(freed)
                && lru == Without(old(lru), node) && using == Without(old(using), node)
                && revived == old(revived) + if node in old(using) then 1 else 0
    {
      hide Hashed; hide TagsUnique; hide Lists; hide Aged; hide Without; hide Counts; hide Standing;
      busy := node.refcnt > 0;
      if !busy {
        Free(node);
      }
    }

    method Free(node: LrcNode)
      requires Valid() && (node in lru || (node in using && node.refcnt == 0 && !starving))
      modifies this`lru, this`using, this`freed, this`changing, this`taghash, this`revived, node`tag
      ensures Valid() && changing == old(changing)
      ensures node.tag == FREE && freed == [node] + old(freed)
      ensures lru == Without(old(lru), node) && using == Without(old(using), node)
      ensures revived == old(revived) + if node in old(using) then 1 else 0
    {
      hide Hashed; hide TagsUnique; hide Partition; hide Wrap32; hide Without; hide Falling;
      DelLists(node);
      if node in using {
        revived := revived + 1;
      }
      Retag(node, FREE);
      Delist(node);
      freed := [node] + freed;
    }

    /** The lists once a node has moved from the lru or the using list to the freed list. */
    lemma {:induction false} DelLists(node: LrcNode)
      requires Lists() && Aged() && (node in lru || node in using)
      ensures Partition(Without(lru, node), Without(using, node), [node] + freed, changing, nodes)
      ensures Without(freed, node) == freed && Without(changing, node) == changing
      ensures node in nodes && node !in freed && node !in changing && (node in lru <==> node !in using)
      ensures |Without(using, node)| == |using| - if node in using then 1 else 0
      ensures Falling(Without(lru, node), stamp)
      ensures forall m <- Without(lru, node) :: m in lru && m != node
      ensures forall m <- Without(using, node) :: m in using && m != node
    {
      hide Falling; hide Without; hide Partition;
      Shuffled(lru, using, freed, changing, nodes);
      if node in lru {
        Leaving(lru, freed, using, changing, nodes, node);
      } else {
        Leaving(using, freed, lru, changing, nodes, node);
      }
      Shuffled(Without(lru, node), Without(using, node), [node] + freed, changing, nodes);
      WithoutFalls(lru, node, stamp);
    }

    /** lrc_committed */
    method Committed()
      requires Valid()
      modifies this`lru, this`using, this`freed, this`changing, this`changed, this`pending, nodes`uncommitted
      ensures Valid() && pending == 0 && changing == [] && lru == old(lru) && freed == old(freed)
      ensures using == Reversed(old(changing)) + old(using)
      ensures Wrap32(changed) == Wrap32(old(changed) + |old(changing)|)
      ensures forall n <- nodes :: !n.uncommitted
    {
      hide Hashed; hide TagsUnique; hide Lists; hide Aged; hide Wrap32; hide Without; hide Reversed;
      ghost var was := changing;
      ghost var i := 0;
      ReversedNone(was, using);
      while changing != []
        invariant Lists() && Standing() && Hashed() && TagsUnique() && Aged()
        invariant lru == old(lru) && freed == old(freed) && pending == old(pending)
        invariant used == Wrap32(|changing| + |using| + revived)
        invariant 0 <= i <= |was| && changing == was[i..] && using == Reversed(was[..i]) + old(using)
        invariant Wrap32(changed) == Wrap32(old(changed) + i)
        decreases |changing|
      {
        Wrap32Step(changed);
        Wrap32Step(old(changed) + i);
        CommitOne();
        ReversedOne(was, i, old(using));
        i := i + 1;
      }
      assert was[..i] == was;
      pending := 0;
      AllCommitted();
    }

    lemma {:induction false} AllCommitted()
      requires Lists() && Standing() && changing == []
      ensures forall n <- nodes :: !n.uncommitted
    {
      forall n | n in nodes ensures !n.uncommitted {
        OnSomeList(n);
      }
    }

    /** One turn of the loop of lrc_committed. */
    method CommitOne()
      requires Lists() && Standing() && Hashed() && TagsUnique() && Aged() && changing != []
      modifies this`lru, this`using, this`freed, this`changing, this`changed, nodes`uncommitted
      ensures Lists() && Standing() && Hashed() && TagsUnique() && Aged()
      ensures lru == old(lru) && freed == old(freed) && changing == old(changing)[1..]
      ensures using == [old(changing)[0]] + old(using) && changed == Wrap32(old(changed) + 1)
    {
      hide Hashed; hide TagsUnique; hide Partition; hide Wrap32; hide Without; hide Falling;
      var node := changing[0];
      Shuffled(lru, using, freed, changing, nodes);
      Leaving(changing, using, lru, freed, nodes, node);
      Shuffled(lru, [node] + using, freed, Without(changing, node), nodes);
      WithoutHead(changing);
      Delist(node);
      using := [node] + using;
      node.uncommitted := false;
      changed := Wrap32(changed + 1);
    }

    /** lrc_create and lrc_reset, for nodes already allocated and their number rounded up to a power of two */
    constructor (k: nat, maxpend: nat, given: seq<LrcNode>)
      requires k >= 1 && |given| == Pow2(k) && Distinct(given)
      modifies given
      ensures Valid() && nodes == (Elements(given)) && maxPending == maxpend && nmask == Pow2(k) - 1
      ensures freed == Reversed(given) && Untouched()
    {
      nmask := Pow2(k) - 1;
      maxPending := maxpend;
      nodes := Elements(given);
      bits := k;
      lru, using, freed, changing := [], [], [], [];
      taghash := NoChains(Pow2(k));
      dirty, starving := false, false;
      used, pending, changed, hits, misses, starve := 0, 0, 0, 0, 0, 0;
      stamp, clock, revived := map[], 0, 0;
      new;
      hide Pow2; hide Reversed; hide And; hide Hashed; hide TagsUnique; hide Partition; hide Wrap32; hide Distinct; hide Standing;
      hide Elements; hide NoChains; hide Lists; hide Aged; hide Falling;
      Setup(given);
      Wrap32Zero();
    }

    method Setup(given: seq<LrcNode>)
      requires lru == [] && using == [] && freed == [] && changing == [] && Distinct(given) && nodes == Elements(given)
      requires nmask + 1 == Pow2(bits) && taghash == NoChains(Pow2(bits))
      modifies this`freed, given
      ensures Lists() && Standing() && Hashed() && TagsUnique() && Aged() && freed == Reversed(given)
    {
      hide Pow2; hide Reversed; hide Hashed; hide TagsUnique; hide Partition; hide Distinct; hide Standing; hide Elements; hide NoChains;
      FreeAll(given);
      AllFreed(given, nodes);
      AllStanding(given);
      NoneHashed(given);
    }

    /** The loop that clears all nodes and puts them on the freed list. */
    method FreeAll(given: seq<LrcNode>)
      requires freed == []
      modifies this`freed, given
      ensures freed == Reversed(given)
      ensures forall n <- given :: n.refcnt == 0 && n.tag == FREE && !n.uncommitted
    {
      hide Reversed;
      ReversedNone(given, []);
      var count := 0;
      while count < |given|
        invariant 0 <= count <= |given| && freed == Reversed(given[..count])
        invariant forall i :: 0 <= i < count ==> given[i].refcnt == 0 && given[i].tag == FREE && !given[i].uncommitted
      {
        var node := given[count];
        node.refcnt, node.tag, node.uncommitted := 0, FREE, false;
        freed := [node] + freed;
        ReversedOne(given, count, []);
        count := count + 1;
      }
      assert given[..count] == given;
    }

    lemma {:induction false} AllStanding(given: seq<LrcNode>)
      requires lru == [] && using == [] && changing == [] && nodes == Elements(given)
      requires forall n <- given :: n.refcnt == 0 && n.tag == FREE && !n.uncommitted
      requires forall n <- freed :: n in given
      ensures Standing()
    {
    }

    lemma {:induction false} NoneHashed(given: seq<LrcNode>)
      requires nmask + 1 == Pow2(bits) && taghash == NoChains(Pow2(bits))
      requires nodes == Elements(given) && forall n <- given :: n.tag == FREE
      ensures Hashed() && TagsUnique()
    {
      hide And; hide Pow2; hide Slot;
    }

    /** lrc_put, unless it gives up the last reference to a node that is not committed yet */
    method Put(node: LrcNode) returns (left: nat)
      requires Valid() && node.refcnt > 0 && (node in using || (node in changing && node.refcnt > 1))
      modifies this`lru, this`using, this`freed, this`changing, this`used, this`starving, this`stamp, this`clock
      modifies node`refcnt
      ensures Valid() && left == node.refcnt == old(node.refcnt) - 1
      ensures if left == 0 then
                && lru == [node] + old(lru) && using == Without(old(using), node) && !starving
                && stamp == old(stamp)[node := old(clock)] && clock == old(clock) + 1
              else
                stamp == old(stamp) && lru == old(lru) && using == old(using) && starving == old(starving)
      ensures freed == old(freed) && changing == old(changing)
    {
      hide Hashed; hide TagsUnique; hide Lists; hide Counts; hide Aged;
      node.refcnt := node.refcnt - 1;
      if node.refcnt == 0 {
        Retire(node);
      }
      left := node.refcnt;
    }

    /** The last reference is gone: the node becomes the newest of the lru list. */
    method Retire(node: LrcNode)
      requires Valid() && node in using && node.refcnt == 0
      modifies this`lru, this`using, this`freed, this`changing, this`used, this`starving, this`stamp, this`clock
      ensures Valid() && lru == [node] + old(lru) && using == Without(old(using), node) && !starving
      ensures stamp == old(stamp)[node := old(clock)] && clock == old(clock) + 1
      ensures freed == old(freed) && changing == old(changing)
    {
      hide Hashed; hide TagsUnique; hide Falling; hide Without; hide Wrap32; hide Partition;
      Wrap32Step(|changing| + |using| + revived);
      Shuffled(lru, using, freed, changing, nodes);
      Leaving(using, lru, freed, changing, nodes, node);
      Shuffled([node] + lru, Without(using, node), freed, changing, nodes);
      OldOrder(lru, node, stamp, clock);
      starving := false;
      Delist(node);
      lru := [node] + lru;
      used := Wrap32(used - 1);
      stamp, clock := stamp[node := clock], clock + 1;
      assert Standing();
    }
  }

  /** The counter of used nodes is exact if and only if no node was revived, as long as it does not wrap. */
  lemma {:induction false} UsedExact(c: LrcHead)
    requires c.Valid() && |c.changing| + |c.using| + c.revived < U32
    ensures c.used == |c.changing| + |c.using| <==> c.revived == 0
  {
  }

  /** What a user does while waiting: ask, commit what is pending, or give a reference back that is not the last. */
  datatype Try = Ask(tag: nat, change: bool, uncommitted: bool) | Commit | GiveBack(node: LrcNode)

  method TryOnce(c: LrcHead, t: Try) returns (node: LrcNode?)
    requires c.Valid() && c.starving && (t.Ask? ==> t.tag < FREE) && (t.GiveBack? ==> t.node in c.nodes)
    modifies c, c.nodes
    ensures c.Valid() && c.starving && node == null
    ensures c.starve == if t.Ask? then Wrap(old(c.starve) + 1) else old(c.starve)
    ensures c.hits == old(c.hits) && c.misses == old(c.misses) && c.dirty == old(c.dirty)
    ensures forall n <- c.nodes :: n.tag == old(n.tag) && n.refcnt <= old(n.refcnt)
  {
    hide LrcHead.Lists; hide LrcHead.Standing; hide LrcHead.Hashed; hide LrcHead.TagsUnique; hide LrcHead.Aged; hide Without;
    node := null;
    match t {
      case Ask(tag, change, uncommitted) =>
        node := c.Obtain(tag, change, uncommitted);
      case Commit =>
        c.Committed();
      case GiveBack(n) =>
        if n.refcnt > 1 && (n in c.using || n in c.changing) {
          var left := c.Put(n);
        }
    }
  }

  /** Once starving, a cache refuses every request and counts it, until somebody gives up a last reference: whatever else
      is tried changes no list but the changing one, no tag, and finds nothing. */
  method Starve(c: LrcHead, tries: seq<Try>) returns (got: seq<LrcNode?>)
    requires c.Valid() && c.starving
    requires forall t <- tries :: (t.Ask? ==> t.tag < FREE) && (t.GiveBack? ==> t.node in c.nodes)
    modifies c, c.nodes
    ensures c.Valid() && c.starving && c.lru == [] && c.freed == []
    ensures |got| == |tries| && forall i :: 0 <= i < |got| ==> got[i] == null
    ensures Asked(tries) > 0 ==> c.starve == Wrap(old(c.starve) + Asked(tries))
    ensures c.hits == old(c.hits) && c.misses == old(c.misses) && c.dirty == old(c.dirty)
    ensures forall n <- c.nodes :: n.tag == old(n.tag) && n.refcnt <= old(n.refcnt)
  {
    hide LrcHead.Lists; hide LrcHead.Standing; hide LrcHead.Hashed; hide LrcHead.TagsUnique; hide LrcHead.Aged;
    got := [];
    while |got| < |tries|
      invariant |got| <= |tries| && c.Valid() && c.starving
      invariant forall i :: 0 <= i < |got| ==> got[i] == null
      invariant if Asked(tries[..|got|]) == 0 then c.starve == old(c.starve) else c.starve == Wrap(old(c.starve) + Asked(tries[..|got|]))
      invariant c.hits == old(c.hits) && c.misses == old(c.misses) && c.dirty == old(c.dirty)
      invariant forall n <- c.nodes :: n.tag == old(n.tag) && n.refcnt <= old(n.refcnt)
    {
      assert tries[|got|] in tries;
      var node := TryOnce(c, tries[|got|]);
      AskedStep(tries, |got|);
      WrapSum(old(c.starve) + Asked(tries[..|got|]), 1);
      got := got + [node];
    }
    assert tries[..|got|] == tries;
  }

  ghost function Asked(tries: seq<Try>): nat {
    if tries == [] then 0 else Asked(tries[..|tries| - 1]) + if tries[|tries| - 1].Ask? then 1 else 0
  }

  lemma {:induction false} AskedStep(tries: seq<Try>, i: nat)
    requires i < |tries|
    ensures Asked(tries[..i + 1]) == Asked(tries[..i]) + if tries[i].Ask? then 1 else 0
  {
    assert tries[..i + 1][..i] == tries[..i];
  }

  method TwoFree() returns (c: LrcHead)
    ensures fresh(c) && fresh(c.nodes) && c.Valid() && c.Untouched() && c.maxPending == 1
    ensures c.freed != [] && !c.starving && c.pending == 0 && forall n <- c.nodes :: n.tag == FREE && n.refcnt == 0
  {
    hide LrcHead.Valid; hide Reversed;
    var a := new LrcNode();
    var b := new LrcNode();
    var given := [a, b];
    assert given[0] == a;
    c := new LrcHead(1, 1, given);
    AllFree(c, given);
  }

  /** A run on which a single node is counted twice: obtained as a miss, committed, and obtained again. */
  method CountedTwice() returns (c: LrcHead)
    ensures fresh(c) && c.Valid() && c.used == 2 && |c.using| == 1 && c.changing == []
  {
    hide LrcHead.Lists; hide LrcHead.Hashed; hide LrcHead.TagsUnique; hide LrcHead.Aged; hide LrcHead.Standing;
    hide Reversed; hide Picked; hide Without;
    c := TwoFree();
    var node := c.Obtain(5, true, false);
    ghost var first: LrcNode := node;
    ReversedSingle(first);
    assert c.changing == [first] && c.using == [];
    c.Committed();
    assert c.using == [first] && first.refcnt == 0 && first.tag == 5;
    node := c.Obtain(5, true, false);
  }

  /** In a cache whose other lists are empty every node is free. */
  lemma {:induction false} AllFree(c: LrcHead, given: seq<LrcNode>)
    requires c.Valid() && c.Untouched() && c.nodes == Elements(given) && given != []
    ensures c.freed != [] && !c.starving && c.pending == 0 && c.using == [] && c.changing == [] && c.lru == []
    ensures forall n <- c.nodes :: n.tag == FREE && n.refcnt == 0
  {
    hide LrcHead.Hashed; hide LrcHead.TagsUnique; hide LrcHead.Aged; hide LrcHead.Lists;
    forall n | n in c.nodes ensures n in c.freed {
      c.OnSomeList(n);
    }
    assert given[0] in c.nodes;
  }

  lemma {:induction false} ReversedSingle<T>(n: T)
    ensures Reversed([n]) == [n] && Without([n], n) == []
  {
    assert [n][..0] == [];
  }

  /** The node to recycle: a free one while there is one, and else the last of the lru list, put before all others. */
  ghost predicate Picked<T>(node: T, freed: seq<T>, lru: seq<T>, stamp: map<T, int>) {
    if freed != [] then node == freed[0]
    else lru != [] && node == lru[|lru| - 1] && forall m <- lru :: m in stamp && node in stamp && stamp[node] <= stamp[m]
  }

  /** Every node is on exactly one list, once. */
  ghost predicate Partition<T>(a: seq<T>, b: seq<T>, c: seq<T>, d: seq<T>, nodes: set<T>) {
    multiset(a) + multiset(b) + multiset(c) + multiset(d) == multiset(nodes)
  }

  lemma {:induction false} Shuffled<T>(lru: seq<T>, using: seq<T>, freed: seq<T>, changing: seq<T>, nodes: set<T>)
    ensures Partition(lru, using, freed, changing, nodes) <==> Partition(using, lru, freed, changing, nodes)
    ensures Partition(lru, using, freed, changing, nodes) <==> Partition(freed, changing, lru, using, nodes)
    ensures Partition(lru, using, freed, changing, nodes) <==> Partition(lru, changing, freed, using, nodes)
    ensures Partition(lru, using, freed, changing, nodes) <==> Partition(lru, freed, using, changing, nodes)
    ensures Partition(lru, using, freed, changing, nodes) <==> Partition(changing, using, lru, freed, nodes)
    ensures Partition(lru, using, freed, changing, nodes) <==> Partition(using, freed, lru, changing, nodes)
  {
    var a, b, c, d := multiset(lru), multiset(using), multiset(freed), multiset(changing);
    assert a + b + c + d == b + a + c + d;
    assert a + b + c + d == c + d + a + b;
    assert a + b + c + d == a + d + c + b;
    assert a + b + c + d == a + c + b + d;
    assert a + b + c + d == d + b + a + c;
    assert a + b + c + d == b + c + a + d;
  }

  lemma {:induction false} LastLeast<T>(s: seq<T>, rank: map<T, int>)
    requires Falling(s, rank) && s != []
    ensures s[|s| - 1] in rank && forall m <- s :: m in rank && rank[s[|s| - 1]] <= rank[m]
  {
  }

  /** A node that is on list a is on no other; what is left when it goes. */
  lemma {:induction false} Leaving<T>(a: seq<T>, b: seq<T>, c: seq<T>, d: seq<T>, nodes: set<T>, n: T)
    requires Partition(a, b, c, d, nodes) && n in a
    ensures n in nodes && n !in b && n !in c && n !in d && n !in Without(a, n)
    ensures Without(b, n) == b && Without(c, n) == c && Without(d, n) == d
    ensures |Without(a, n)| == |a| - 1 && forall m <- Without(a, n) :: m in a
    ensures Partition(Without(a, n), [n] + b, c, d, nodes) && Partition([n] + Without(a, n), b, c, d, nodes)
  {
    hide Without; hide Partition;
    OnlyOne(a, b, c, d, nodes, n);
    WithoutBag(a, n);
    WithoutBag(b, n);
    WithoutBag(c, n);
    WithoutBag(d, n);
    assert |multiset(Without(a, n))| == |multiset(a)| - 1;
    forall m | m in Without(a, n) ensures m in a {
      assert m in multiset(Without(a, n));
    }
    Placed(a, b, c, d, nodes, n);
  }

  lemma {:induction false} OnlyOne<T>(a: seq<T>, b: seq<T>, c: seq<T>, d: seq<T>, nodes: set<T>, n: T)
    requires Partition(a, b, c, d, nodes) && n in a
    ensures n in nodes && n !in b && n !in c && n !in d && multiset(a)[n] == 1
  {
    assert (multiset(a) + multiset(b) + multiset(c) + multiset(d))[n] <= 1;
  }

  lemma {:induction false} Placed<T>(a: seq<T>, b: seq<T>, c: seq<T>, d: seq<T>, nodes: set<T>, n: T)
    requires Partition(a, b, c, d, nodes) && n in a
    ensures Partition(Without(a, n), [n] + b, c, d, nodes) && Partition([n] + Without(a, n), b, c, d, nodes)
  {
    hide Without;
    WithoutBag(a, n);
    var rest := Without(a, n);
    assert multiset([n] + b) == multiset{n} + multiset(b);
    assert multiset([n] + rest) == multiset{n} + multiset(rest);
    assert multiset(a) == multiset(rest) + multiset{n};
  }

  lemma {:induction false} WithoutHead<T>(s: seq<T>)
    requires s != []
    ensures Without(s, s[0]) == s[1..]
  {
  }

  /** The order in which nodes end up that are moved to the front one by one. */
  ghost function Reversed<T>(s: seq<T>): (r: seq<T>)
    ensures |r| == |s|
  {
    if s == [] then [] else [s[|s| - 1]] + Reversed(s[..|s| - 1])
  }

  lemma {:induction false} ReversedNone<T>(s: seq<T>, t: seq<T>)
    ensures Reversed(s[..0]) == [] && Reversed(s[..0]) + t == t
  {
  }

  lemma {:induction false} ReversedOne<T>(s: seq<T>, i: nat, t: seq<T>)
    requires i < |s|
    ensures Reversed(s[..i + 1]) == [s[i]] + Reversed(s[..i])
    ensures [s[i]] + (Reversed(s[..i]) + t) == Reversed(s[..i + 1]) + t
  {
    assert s[..i + 1][..i] == s[..i];
  }

  ghost function Elements<T>(s: seq<T>): set<T> {
    set n | n in s
  }

  function NoChains(n: nat): seq<seq<LrcNode>> {
    seq(n, _ => [])
  }

  ghost predicate Distinct<T>(s: seq<T>) {
    forall i, j :: 0 <= i < j < |s| ==> s[i] != s[j]
  }

  lemma {:induction false} AllFreed<T>(s: seq<T>, nodes: set<T>)
    requires Distinct(s) && nodes == Elements(s)
    ensures Partition([], [], Reversed(s), [], nodes) && forall n <- Reversed(s) :: n in s
  {
    hide Reversed;
    ReversedBag(s, nodes);
  }

  lemma {:induction false} ReversedBag<T>(s: seq<T>, nodes: set<T>)
    requires Distinct(s)
    requires nodes == Elements(s)
    ensures multiset(Reversed(s)) == multiset(nodes) && forall n <- Reversed(s) :: n in s
  {
    if s != [] {
      var last := s[|s| - 1];
      var front := s[..|s| - 1];
      assert s == front + [last] && last !in front;
      ReversedBag(front, nodes - {last});
      assert multiset(nodes) == multiset(nodes - {last}) + multiset{last};
    }
  }

  /** A node put now goes before all others. */
  lemma {:induction false} OldOrder<T>(s: seq<T>, n: T, rank: map<T, int>, clock: int)
    requires Falling(s, rank) && n !in s && forall m <- s :: m in rank && rank[m] < clock
    ensures Falling([n] + s, rank[n := clock])
  {
  }
}
