/** The finite map a tree denotes: the entries of its leaves. */
module BtreeMaps {
  import opened BtreeTower
  import opened BtreeSteps

  function Word<N>(s: Slot<N>): nat {
    if s.Data? then s.word else 0
  }

  ghost function MapOf<N>(es: seq<Entry<N>>): map<nat, nat> {
    if es == [] then map[] else MapOf(es[1..])[es[0].key := Word(es[0].val)]
  }

  ghost predicate HasKey<N>(es: seq<Entry<N>>, k: nat) {
    exists i :: 0 <= i < |es| && es[i].key == k
  }

  /** Leaf values are words other than NULL. */
  ghost predicate LeafOK<N>(es: seq<Entry<N>>) {
    forall i :: 0 <= i < |es| ==> es[i].val.Data? && es[i].val.word != 0
  }

  lemma {:induction false} MapKeys<N>(es: seq<Entry<N>>, k: nat)
    ensures k in MapOf(es) <==> HasKey(es, k)
  {
    if es != [] {
      MapKeys(es[1..], k);
      if HasKey(es[1..], k) {
        var i :| 0 <= i < |es[1..]| && es[1..][i].key == k;
        assert es[i + 1].key == k;
      }
      if HasKey(es, k) && es[0].key != k {
        var i :| 0 <= i < |es| && es[i].key == k;
        assert es[1..][i - 1].key == k;
      }
    }
  }

  lemma {:induction false} MapAt<N>(es: seq<Entry<N>>, i: nat)
    requires Desc(es) && i < |es|
    ensures es[i].key in MapOf(es) && MapOf(es)[es[i].key] == Word(es[i].val)
  {
    if i > 0 {
      MapAt(es[1..], i - 1);
      assert es[0].key > es[i].key;
    }
  }

  lemma {:induction false} MapInsert<N>(es: seq<Entry<N>>, p: nat, e: Entry<N>)
    requires p <= |es| && Desc(InsertAt(es, p, e))
    ensures Desc(es) && e.key !in MapOf(es)
    ensures MapOf(InsertAt(es, p, e)) == MapOf(es)[e.key := Word(e.val)]
  {
    hide MapOf; hide HasKey; hide Desc; hide Word;
    var es' := InsertAt(es, p, e);
    InsertDesc(es, p, e);
    MapKeys(es, e.key);
    var m, m' := MapOf(es)[e.key := Word(e.val)], MapOf(es');
    forall k: nat ensures k in m <==> k in m' {
      MapKeys(es, k);
      MapKeys(es', k);
      KeyInsert(es, p, e, k);
    }
    forall k | k in m' ensures m[k] == m'[k] {
      MapKeys(es', k);
      ValueInsert(es, p, e, k);
    }
  }

  lemma {:induction false} KeyInsert<N>(es: seq<Entry<N>>, p: nat, e: Entry<N>, k: nat)
    requires p <= |es|
    ensures HasKey(InsertAt(es, p, e), k) <==> HasKey(es, k) || k == e.key
  {
    var es' := InsertAt(es, p, e);
    if HasKey(es, k) {
      var i :| 0 <= i < |es| && es[i].key == k;
      assert es'[if i < p then i else i + 1].key == k;
    }
    if HasKey(es', k) {
      var i :| 0 <= i < |es'| && es'[i].key == k;
      assert i != p ==> es[if i < p then i else i - 1].key == k;
    }
    assert es'[p].key == e.key;
  }

  lemma {:induction false} ValueInsert<N>(es: seq<Entry<N>>, p: nat, e: Entry<N>, k: nat)
    requires p <= |es| && Desc(InsertAt(es, p, e)) && HasKey(InsertAt(es, p, e), k)
    ensures k in MapOf(InsertAt(es, p, e)) && (k != e.key ==> k in MapOf(es))
    ensures MapOf(InsertAt(es, p, e))[k] == if k == e.key then Word(e.val) else MapOf(es)[k]
  {
    hide MapOf;
    var es' := InsertAt(es, p, e);
    InsertDesc(es, p, e);
    var i :| 0 <= i < |es'| && es'[i].key == k;
    MapAt(es', i);
    if i != p {
      MapAt(es, if i < p then i else i - 1);
    }
    assert es'[p] == e;
  }

  lemma {:induction false} LeafInsert<N>(es: seq<Entry<N>>, p: nat, key: nat, value: nat)
    requires p <= |es| && LeafOK(es) && value != 0 && Desc(InsertAt(es, p, Entry(key, Data(value))))
    ensures LeafOK(InsertAt(es, p, Entry(key, Data(value)))) && key !in MapOf(es)
    ensures MapOf(InsertAt(es, p, Entry(key, Data(value)))) == MapOf(es)[key := value]
  {
    MapInsert(es, p, Entry(key, Data(value)));
  }

  lemma {:induction false} LeafRemove<N>(es: seq<Entry<N>>, p: nat)
    requires p < |es| && LeafOK(es) && Desc(es)
    ensures LeafOK(RemoveAt(es, p)) && es[p].key in MapOf(es) && es[p].val == Data(MapOf(es)[es[p].key])
    ensures MapOf(RemoveAt(es, p)) == MapOf(es) - {es[p].key}
  {
    MapRemove(es, p);
  }

  lemma {:induction false} InsertDesc<N>(es: seq<Entry<N>>, p: nat, e: Entry<N>)
    requires p <= |es| && Desc(InsertAt(es, p, e))
    ensures Desc(es) && !HasKey(es, e.key)
  {
    var es' := InsertAt(es, p, e);
    forall i, j | 0 <= i < j < |es| ensures es[i].key > es[j].key {
      assert es'[if i < p then i else i + 1].key > es'[if j < p then j else j + 1].key;
    }
    forall i | 0 <= i < |es| ensures es[i].key != e.key {
      assert es'[if i < p then i else i + 1] == es[i] && es'[p] == e;
    }
  }

  lemma {:induction false} MapRemove<N>(es: seq<Entry<N>>, p: nat)
    requires p < |es| && Desc(es)
    ensures es[p].key in MapOf(es) && MapOf(es)[es[p].key] == Word(es[p].val)
    ensures MapOf(RemoveAt(es, p)) == MapOf(es) - {es[p].key}
  {
    var es' := RemoveAt(es, p);
    assert InsertAt(es', p, es[p]) == es;
    MapAt(es, p);
    MapInsert(es', p, es[p]);
  }

  lemma {:induction false} MapUpdate<N>(es: seq<Entry<N>>, p: nat, v: Slot<N>)
    requires p < |es| && Desc(es)
    ensures MapOf(es[p := Entry(es[p].key, v)]) == MapOf(es)[es[p].key := Word(v)]
    ensures Desc(es[p := Entry(es[p].key, v)])
  {
    hide MapOf; hide HasKey;
    var e, es' := Entry(es[p].key, v), es[p := Entry(es[p].key, v)];
    MapRemove(es, p);
    assert InsertAt(RemoveAt(es, p), p, e) == es';
    UpdateDesc(es, p, v);
    MapInsert(RemoveAt(es, p), p, e);
  }

  lemma {:induction false} UpdateDesc<N>(es: seq<Entry<N>>, p: nat, v: Slot<N>)
    requires p < |es| && Desc(es)
    ensures Desc(es[p := Entry(es[p].key, v)])
  {
  }
}
