/** A tree that four insertions reach and on which btree_remove of a key it does not hold goes astray. */
module BtreeOverrun {
  import opened BtreeTower
  import opened BtreeSteps
  import opened BtreeFill
  import opened BtreeGrowth
  import opened BtreeShrink
  import opened BtreeMaps
  import opened BtreeCursor
  import opened BtreeNodeSets
  import opened BtreeNodes
  import opened Btree

  lemma {:induction false} MapSize<N>(es: seq<Entry<N>>)
    requires Desc(es)
    ensures |MapOf(es)| == |es|
  {
    if es != [] {
      MapSize(es[1..]);
      MapKeys(es[1..], es[0].key);
    }
  }

  /** No leaf can be full while the whole tree holds fewer keys than one block. */
  lemma {:induction false} NoneFull(t: BtreeRoot)
    requires t.Valid() && t.tower != [] && |t.Contents()| < t.keynum
    ensures !FullNode(t.tower[0], t.keynum)
  {
    hide Flat; hide Routes; hide MapOf; hide Off; hide HoldsAll; hide Distinct; hide NodesFrom; hide LevelRoutes;
    LevelAt(t.tower, t.node, t.keynum, 0);
    MapSize(t.Entries());
    forall j | 0 <= j < |t.tower[0]| ensures |t.tower[0][j].es| != t.keynum {
      CutAt(t.tower[0], Routes(t.tower[1..], t.node), j);
    }
  }

  /** A tree of one block is one leaf. */
  lemma {:induction false} OneLeaf(t: BtreeRoot)
    requires t.Valid() && t.tower != [] && Count(t.tower) <= 1
    ensures |t.tower| == 1 && |t.tower[0]| == 1 && t.tower[0][0].es == t.Entries()
  {
    hide Btree.BtreeRoot.Valid; hide WF; hide Count; hide Flat; hide UpperNonEmpty; hide NonEmpty;
    t.ValidFacts();
    CountMore(t.tower, |t.tower| - 1);
    if |t.tower| > 1 {
      EdgeStep(t.tower, t.node, t.keynum, 1);
    } else {
      SingleFlat(t.tower[0]);
    }
  }

  lemma {:induction false} CountMore<N>(t: Tower<N>, l: nat)
    requires l < |t|
    ensures Count(t) >= |t[l]| && (l > 0 ==> Count(t) >= |t[0]| + |t[l]|)
  {
    if l > 0 {
      CountMore(t[1..], l - 1);
    }
  }

  /** On one full leaf of larger keys, the first value of which is the key read as a word, the removal overruns. */
  lemma {:induction false} FullLeafOverruns(t: BtreeRoot, key: nat)
    requires t.Valid() && t.tower != [] && Count(t.tower) <= 1 && |t.Entries()| == t.keynum
    requires (forall i :: 0 <= i < |t.Entries()| ==> t.Entries()[i].key > key) && t.Entries()[0].val == Data(key)
    ensures OverrunAt(t.tower, t.node, t.keynum, key)
  {
    hide HoldsAll; hide Distinct; hide NodesFrom; hide WF; hide Flat;
    OneLeaf(t);
    assert t.tower[1..] == [];
    assert Covers(Routes(t.tower[1..], t.node), 0, key);
  }

  lemma {:induction false} Shape(t: BtreeRoot)
    requires t.Valid()
    ensures t.height == |t.tower| && (t.tower == [] ==> NodesFrom(t.tower, 0) == {} && t.Contents() == map[])
    ensures Count(t.tower) >= 0 && (t.tower == [] ==> Count(t.tower) == 0)
  {
  }

  /** An insertion that needs no block but the first one. */
  method Add(t: BtreeRoot, key: nat, value: nat)
    requires t.Valid() && key != 0 && value != 0 && key !in t.Contents()
    requires |t.Contents()| < t.keynum && t.budget + Count(t.tower) == 1
    modifies t, NodesFrom(t.tower, 0)
    ensures t.Valid() && t.Contents() == old(t.Contents())[key := value] && t.budget + Count(t.tower) == 1
    ensures fresh(NodesFrom(t.tower, 0) - old(NodesFrom(t.tower, 0)))
  {
    hide Btree.BtreeRoot.Valid; hide Btree.BtreeRoot.Contents; hide FullNode; hide Count; hide NodesFrom; hide MapOf;
    Shape(t);
    if t.tower != [] {
      NoneFull(t);
    }
    var err := t.Insert(key, value);
  }

  /** Blocks of four keys, and memory for one block: after the keys 10, 9, 8 and 7 were inserted, 10 with the value 5,
      the removal of the key 5 overruns. */
  method Overruns() returns (t: BtreeRoot, taken: Taken)
    ensures fresh(t) && t.Valid() && 5 !in t.Contents() && taken == Overrun
  {
    hide Btree.BtreeRoot.Valid; hide Btree.BtreeRoot.Contents; hide OverrunAt; hide Count; hide NodesFrom;
    t := new BtreeRoot(4, 1, Nothing, Nothing);
    Shape(t);
    Add(t, 10, 5);
    Add(t, 9, 1);
    Add(t, 8, 1);
    Add(t, 7, 1);
    assert t.Contents() == map[10 := 5, 9 := 1, 8 := 1, 7 := 1];
    FourOverrun(t);
    taken := t.Remove(5);
  }

  lemma {:induction false} FourOverrun(t: BtreeRoot)
    requires t.Valid() && t.keynum == 4 && Count(t.tower) <= 1 && t.Contents() == map[10 := 5, 9 := 1, 8 := 1, 7 := 1]
    ensures t.tower != [] && OverrunAt(t.tower, t.node, t.keynum, 5)
  {
    hide Btree.BtreeRoot.Valid; hide OverrunAt; hide Count; hide NodesFrom; hide MapOf; hide Flat;
    Shape(t);
    var es := t.Entries();
    t.EntriesDesc();
    MapSize(es);
    AllKeys(es);
    MapKeys(es, 10);
    MapAt(es, 0);
    assert es[0].key == 10;
    FullLeafOverruns(t, 5);
  }

  lemma {:induction false} AllKeys<N>(es: seq<Entry<N>>)
    ensures forall i :: 0 <= i < |es| ==> es[i].key in MapOf(es)
  {
    forall i | 0 <= i < |es| ensures es[i].key in MapOf(es) {
      MapKeys(es, es[i].key);
    }
  }
}
