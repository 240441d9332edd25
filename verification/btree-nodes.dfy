/** One block of the B+tree: keynum keys and keynum values, filled from slot 0, the rest zero. */
module BtreeNodes {
  import opened BtreeTower
  import opened BtreeSteps

  /** keynum slots that store exactly es, in order from slot 0. */
  ghost predicate Stores<N>(keys: seq<nat>, vals: seq<Slot<N>>, es: seq<Entry<N>>, keynum: nat) {
    && |keys| == |vals| == keynum && |es| <= keynum
    && (forall i :: 0 <= i < |es| ==> keys[i] == es[i].key && vals[i] == es[i].val)
    && (forall i :: |es| <= i < keynum ==> keys[i] == 0 && vals[i] == Null)
  }

  /** The old node after count rounds of a split: half slots come down, what they leave is cleared to z. */
  ghost function Halved<T>(s: seq<T>, count: nat, half: nat, z: T): (r: seq<T>)
    requires count <= half && half + half <= |s|
    ensures |r| == |s|
  {
    seq(|s|, i requires 0 <= i < |s| => if i < count then s[i + half] else if half <= i < half + count then z else s[i])
  }

  lemma {:induction false} HalvedStep<T>(s: seq<T>, count: nat, half: nat, z: T)
    requires count < half && half + half <= |s|
    ensures Halved(s, count, half, z)[count + half] == s[count + half] && Halved(s, count, half, z)[count] == s[count]
    ensures Halved(s, count, half, z)[count := s[count + half]][count + half := z] == Halved(s, count + 1, half, z)
  {
  }

  lemma {:induction false} FrontStep<T>(s: seq<T>, t: seq<T>, count: nat)
    requires count < |s| == |t|
    ensures (s[..count] + t[count..])[count := s[count]] == s[..count + 1] + t[count + 1..]
  {
  }

  /** What a split leaves in the new left node; a node of odd size also hands over its very last entry. */
  ghost function SplitNew<N>(es: seq<Entry<N>>): seq<Entry<N>> {
    es[..|es| / 2] + if |es| % 2 == 1 then [es[|es| - 1]] else []
  }

  /** What a split leaves in the old node. */
  ghost function SplitOld<N>(es: seq<Entry<N>>): seq<Entry<N>> {
    es[|es| / 2..|es| / 2 * 2]
  }

  /** Read left to right, the two halves of a node are in order exactly when its size is even: layouts with
      an odd number of keys put the smallest entry of the node to the left of larger ones. */
  lemma {:induction false} SplitInOrderIffEven<N>(es: seq<Entry<N>>)
    requires Desc(es) && |es| >= 2
    ensures Desc(SplitNew(es) + SplitOld(es)) <==> |es| % 2 == 0
    ensures |es| % 2 == 0 ==> SplitNew(es) + SplitOld(es) == es
  {
    var h, r := |es| / 2, SplitNew(es) + SplitOld(es);
    if |es| % 2 == 1 {
      assert r[h] == es[|es| - 1] && r[h + 1] == es[h];
    } else {
      assert r == es;
    }
  }

  lemma {:induction false} SplitStores<N>(ks: seq<nat>, vs: seq<Slot<N>>, ks': seq<nat>, vs': seq<Slot<N>>, es: seq<Entry<N>>)
    requires Stores(ks, vs, es, |es|) && Stores(ks', vs', [], |es|)
    ensures var h, n := |es| / 2, |es|;
      var a, b, c, d := ks[..h] + ks'[h..], vs[..h] + vs'[h..], Halved(ks, h, h, 0), Halved(vs, h, h, Null);
      if n % 2 == 0 then Stores(a, b, SplitNew(es), n) && Stores(c, d, SplitOld(es), n)
      else Stores(a[h := c[n - 1]], b[h := d[n - 1]], SplitNew(es), n) && Stores(c[n - 1 := 0], d[n - 1 := Null], SplitOld(es), n)
  {
  }

  class BtreeNode {
    var keys: seq<nat>
    var vals: seq<Slot<BtreeNode>>

    /** A node fresh from the allocator is cleared. */
    constructor (keynum: nat)
      ensures keys == seq(keynum, i => 0) && vals == seq(keynum, i => Null)
      ensures Holds([], keynum)
    {
      keys, vals := seq(keynum, i => 0), seq(keynum, i => Null);
    }

    /** The block stores exactly es, in order from slot 0. */
    ghost predicate Holds(es: seq<Entry<BtreeNode>>, keynum: nat)
      reads this
    {
      Stores(keys, vals, es, keynum)
    }

    method SetKey(index: nat, key: nat)
      requires index < |keys|
      modifies `keys
      ensures keys == old(keys)[index := key]
    {
      keys := keys[index := key];
    }

    method SetValue(index: nat, value: Slot<BtreeNode>)
      requires index < |vals|
      modifies `vals
      ensures vals == old(vals)[index := value]
    {
      vals := vals[index := value];
    }

    method ClearIndex(index: nat)
      requires index < |vals| == |keys|
      modifies this
      ensures keys == old(keys)[index := 0] && vals == old(vals)[index := Null]
    {
      SetValue(index, Null);
      SetKey(index, 0);
    }

    /** First empty slot from start on. */
    method FillIndex(start: nat, ghost es: seq<Entry<BtreeNode>>, ghost K: nat) returns (index: nat)
      requires Holds(es, K) && start <= |es| && (forall i :: 0 <= i < |es| ==> es[i].val != Null)
      ensures index == |es|
    {
      index := start;
      while index < |keys|
        invariant start <= index <= |es|
      {
        if vals[index] == Null {
          break;
        }
        index := index + 1;
      }
    }

    /** First slot whose key is not above the searched one; empty slots hold key 0. */
    method FindIndex(key: nat, ghost es: seq<Entry<BtreeNode>>, ghost K: nat) returns (index: nat)
      requires Holds(es, K)
      ensures IsPos(es, key, index)
    {
      index := 0;
      while index < |keys|
        invariant index <= |es|
        invariant forall i :: 0 <= i < index ==> es[i].key > key
      {
        if keys[index] <= key {
          break;
        }
        index := index + 1;
      }
    }

    /** The slot of the key, or keynum. */
    method KeyIndex(key: nat, ghost es: seq<Entry<BtreeNode>>, ghost K: nat) returns (index: nat)
      requires Holds(es, K) && Desc(es) && key > 0
      ensures index < |keys| ==> index < |es| && es[index].key == key
      ensures index >= |keys| ==> index == |keys| && forall i :: 0 <= i < |es| ==> es[i].key != key
    {
      index := 0;
      while index < |keys|
        invariant index <= |es|
        invariant forall i :: 0 <= i < index ==> es[i].key > key
      {
        if keys[index] < key {
          break;
        } else if keys[index] == key {
          return;
        }
        index := index + 1;
      }
      index := |keys|;
    }

    /** Shift the slots from index on up by one and store the pair. */
    method ShiftIn(index: nat, fill: nat, key: nat, value: Slot<BtreeNode>, ghost es: seq<Entry<BtreeNode>>, ghost K: nat)
      requires Holds(es, K) && index <= fill == |es| < K
      modifies this
      ensures Holds(InsertAt(es, index, Entry(key, value)), K)
    {
      ShiftUp(index, fill, es, K);
      SetKey(index, key);
      SetValue(index, value);
    }

    /** The loop of the shift: slot index is free afterwards. */
    method ShiftUp(index: nat, fill: nat, ghost es: seq<Entry<BtreeNode>>, ghost K: nat)
      requires Holds(es, K) && index <= fill == |es| < K
      modifies this
      ensures |keys| == |vals| == K
      ensures forall i :: 0 <= i < index ==> keys[i] == es[i].key && vals[i] == es[i].val
      ensures forall i :: index < i <= fill ==> keys[i] == es[i - 1].key && vals[i] == es[i - 1].val
      ensures forall i :: fill < i < K ==> keys[i] == 0 && vals[i] == Null
    {
      var count := fill;
      while count > index
        invariant index <= count <= fill && |keys| == |vals| == K
        invariant forall i :: 0 <= i < count ==> keys[i] == es[i].key && vals[i] == es[i].val
        invariant forall i :: count < i <= fill ==> keys[i] == es[i - 1].key && vals[i] == es[i - 1].val
        invariant forall i :: fill < i < K ==> keys[i] == 0 && vals[i] == Null
      {
        SetKey(count, keys[count - 1]);
        SetValue(count, vals[count - 1]);
        count := count - 1;
      }
    }

    /** Shift the slots after index down by one and clear the last filled one. */
    method ShiftOut(index: nat, last: nat, ghost es: seq<Entry<BtreeNode>>, ghost K: nat)
      requires Holds(es, K) && index < |es| == last + 1
      modifies this
      ensures Holds(RemoveAt(es, index), K)
    {
      var count := index;
      while count < last
        invariant index <= count <= last && |keys| == |vals| == K
        invariant forall i :: 0 <= i < count ==>
          keys[i] == RemoveAt(es, index)[i].key && vals[i] == RemoveAt(es, index)[i].val
        invariant forall i :: count <= i < |es| ==> keys[i] == es[i].key && vals[i] == es[i].val
        invariant forall i :: |es| <= i < K ==> keys[i] == 0 && vals[i] == Null
      {
        SetKey(count, keys[count + 1]);
        SetValue(count, vals[count + 1]);
        count := count + 1;
      }
      ClearIndex(count);
    }

    /** One round of the split: slot count goes to new_, slot count + half comes down. */
    method SplitSlot(new_: BtreeNode, count: nat, half: nat)
      requires new_ != this && count < half && count + half < |keys| == |vals| == |new_.keys| == |new_.vals|
      modifies this, new_
      ensures new_.keys == old(new_.keys)[count := old(keys[count])]
      ensures new_.vals == old(new_.vals)[count := old(vals[count])]
      ensures keys == old(keys)[count := old(keys[count + half])][count + half := 0]
      ensures vals == old(vals)[count := old(vals[count + half])][count + half := Null]
    {
      new_.SetKey(count, keys[count]);
      new_.SetValue(count, vals[count]);
      SetKey(count, keys[count + half]);
      SetValue(count, vals[count + half]);
      ClearIndex(count + half);
    }

    /** The rounds of the split, told by where every slot ends up. */
    method SplitLoop(new_: BtreeNode, half: nat)
      requires new_ != this && half + half <= |keys| == |vals| == |new_.keys| == |new_.vals|
      modifies this, new_
      ensures |new_.keys| == |new_.vals| == old(|keys|)
      ensures new_.keys == old(keys)[..half] + old(new_.keys)[half..]
      ensures new_.vals == old(vals)[..half] + old(new_.vals)[half..]
      ensures keys == Halved(old(keys), half, half, 0) && vals == Halved(old(vals), half, half, Null)
    {
      ghost var ks, vs, ks', vs' := keys, vals, new_.keys, new_.vals;
      var count := 0;
      while count < half
        invariant 0 <= count <= half
        invariant new_.keys == ks[..count] + ks'[count..] && new_.vals == vs[..count] + vs'[count..]
        invariant keys == Halved(ks, count, half, 0) && vals == Halved(vs, count, half, Null)
      {
        HalvedStep(ks, count, half, 0);
        HalvedStep(vs, count, half, Null);
        FrontStep(ks, ks', count);
        FrontStep(vs, vs', count);
        SplitSlot(new_, count, half);
        count := count + 1;
      }
    }

    /** Split a full node into the empty node new_. */
    method SplitInto(new_: BtreeNode, fill: nat, ghost es: seq<Entry<BtreeNode>>, ghost K: nat)
      requires new_ != this && Holds(es, K) && new_.Holds([], K) && fill == |es| == K
      modifies this, new_
      ensures new_.Holds(SplitNew(es), K) && Holds(SplitOld(es), K)
    {
      var half := fill / 2;
      SplitStores(keys, vals, new_.keys, new_.vals, es);
      SplitLoop(new_, half);
      if fill % 2 == 1 {
        new_.SetKey(half, keys[fill - 1]);
        new_.SetValue(half, vals[fill - 1]);
        ClearIndex(fill - 1);
      }
    }

    /** Append the slots of another node. */
    method Append(lfill: nat, rnode: BtreeNode, rfill: nat,
                  ghost es: seq<Entry<BtreeNode>>, ghost fs: seq<Entry<BtreeNode>>, ghost K: nat)
      requires rnode != this && Holds(es, K) && rnode.Holds(fs, K) && lfill == |es| && rfill == |fs|
      requires lfill + rfill <= K
      modifies this
      ensures Holds(es + fs, K)
    {
      var count := 0;
      while count < rfill
        invariant 0 <= count <= rfill && |keys| == |vals| == K && rnode.Holds(fs, K)
        invariant forall i :: 0 <= i < lfill + count ==> keys[i] == (es + fs)[i].key && vals[i] == (es + fs)[i].val
        invariant forall i :: lfill + count <= i < K ==> keys[i] == 0 && vals[i] == Null
      {
        SetKey(lfill + count, rnode.keys[count]);
        SetValue(lfill + count, rnode.vals[count]);
        count := count + 1;
      }
    }

    method LowerKey(index: nat, key: nat, ghost es: seq<Entry<BtreeNode>>, ghost K: nat)
      requires Holds(es, K) && index + 1 == |es|
      modifies `keys
      ensures Holds(LowerLast(es, key), K)
    {
      SetKey(index, key);
    }

    method SwapValues(index: nat, first: Slot<BtreeNode>, second: Slot<BtreeNode>,
                      ghost es: seq<Entry<BtreeNode>>, ghost K: nat)
      requires Holds(es, K) && index + 1 < |es| && first == es[index + 1].val && second == es[index].val
      modifies `vals
      ensures Holds(SwapSlots(es, index), K)
    {
      SetValue(index, first);
      SetValue(index + 1, second);
    }
  }
}
