/** Which nodes a tower consists of, and how many. */
module BtreeNodeSets {
  import opened BtreeTower
  import opened BtreeSteps

  ghost function Ids<N>(level: Level<N>): set<N> {
    set i | 0 <= i < |level| :: level[i].id
  }

  ghost function NodesFrom<N>(t: Tower<N>, lo: nat): set<N> {
    set l, i | lo <= l < |t| && 0 <= i < |t[l]| :: t[l][i].id
  }

  ghost predicate DistinctLevel<N>(level: Level<N>) {
    forall i, j :: 0 <= i < j < |level| ==> level[i].id != level[j].id
  }

  /** No node stands twice in the tower. */
  ghost predicate Distinct<N>(t: Tower<N>) {
    && (forall l :: 0 <= l < |t| ==> DistinctLevel(t[l]))
    && (forall l, m :: 0 <= l < m < |t| ==> Ids(t[l]) !! Ids(t[m]))
  }

  ghost function Count<N>(t: Tower<N>): nat {
    if t == [] then 0 else |t[0]| + Count(t[1..])
  }

  lemma {:induction false} DistinctAt<N>(t: Tower<N>, l: nat, i: nat, m: nat, j: nat)
    requires Distinct(t) && l < |t| && m < |t| && i < |t[l]| && j < |t[m]|
    requires t[l][i].id == t[m][j].id
    ensures l == m && i == j
  {
    assert t[l][i].id in Ids(t[l]) && t[m][j].id in Ids(t[m]);
  }

  lemma {:induction false} DistinctIds<N>(t: Tower<N>, l: nat, i: nat, m: nat, j: nat)
    requires Distinct(t) && l < |t| && m < |t| && i < |t[l]| && j < |t[m]| && (l != m || i != j)
    ensures t[l][i].id != t[m][j].id
  {
    if t[l][i].id == t[m][j].id {
      DistinctAt(t, l, i, m, j);
    }
  }

  lemma {:induction false} NodeAt<N>(t: Tower<N>, lo: nat, l: nat, i: nat)
    requires l < |t| && i < |t[l]|
    ensures lo <= l ==> t[l][i].id in NodesFrom(t, lo)
    ensures Distinct(t) && t[l][i].id in NodesFrom(t, lo) ==> lo <= l
  {
    if Distinct(t) && t[l][i].id in NodesFrom(t, lo) {
      var m, j :| lo <= m < |t| && 0 <= j < |t[m]| && t[m][j].id == t[l][i].id;
      DistinctAt(t, l, i, m, j);
    }
  }

  /** Replacing one level keeps the nodes distinct when the new ones come from it or from outside. */
  lemma {:induction false} DistinctReplace<N>(t: Tower<N>, lo: nat, level: Level<N>, extra: set<N>)
    requires Distinct(t) && lo < |t| && DistinctLevel(level)
    requires Ids(level) <= Ids(t[lo]) + extra && extra !! NodesFrom(t, 0)
    ensures Distinct(t[lo := level])
    ensures forall k: nat :: k <= lo ==> NodesFrom(t[lo := level], k) <= NodesFrom(t, k) + extra
    ensures forall k: nat :: k > lo ==> NodesFrom(t[lo := level], k) == NodesFrom(t, k)
  {
    var t' := t[lo := level];
    forall l, m | 0 <= l < m < |t'| ensures Ids(t'[l]) !! Ids(t'[m]) {
      assert Ids(t[l]) !! Ids(t[m]);
      forall n | n in extra ensures n !in Ids(t[l]) && n !in Ids(t[m]) {
      }
    }
    forall k: nat | k <= lo ensures NodesFrom(t', k) <= NodesFrom(t, k) + extra {
      forall n | n in NodesFrom(t', k) ensures n in NodesFrom(t, k) + extra {
        var l, i :| k <= l < |t'| && 0 <= i < |t'[l]| && t'[l][i].id == n;
        if l == lo {
          assert n in Ids(level);
        } else {
          assert t[l][i].id == n;
        }
      }
    }
    forall k: nat | k > lo ensures NodesFrom(t', k) == NodesFrom(t, k) {
      forall n ensures n in NodesFrom(t', k) <==> n in NodesFrom(t, k) {
        if n in NodesFrom(t', k) {
          var l, i :| k <= l < |t'| && 0 <= i < |t'[l]| && t'[l][i].id == n;
          assert t[l][i].id == n;
        }
        if n in NodesFrom(t, k) {
          var l, i :| k <= l < |t| && 0 <= i < |t[l]| && t[l][i].id == n;
          assert t'[l][i].id == n;
        }
      }
    }
  }

  lemma {:induction false} NodesOfLevel<N>(t: Tower<N>, lo: nat)
    requires lo < |t|
    ensures NodesFrom(t, lo) == Ids(t[lo]) + NodesFrom(t, lo + 1)
  {
    forall n ensures n in NodesFrom(t, lo) <==> n in Ids(t[lo]) + NodesFrom(t, lo + 1) {
      if n in NodesFrom(t, lo) {
        var l, i :| lo <= l < |t| && 0 <= i < |t[l]| && t[l][i].id == n;
      }
      if n in Ids(t[lo]) {
        var i :| 0 <= i < |t[lo]| && t[lo][i].id == n;
        assert t[lo][i].id in NodesFrom(t, lo);
      }
    }
  }

  /** Nodes of the levels both towers share, and nodes of the levels above. */
  lemma {:induction false} NodesBelow<N>(t: Tower<N>, t': Tower<N>, k: nat, lo: nat)
    requires k <= lo <= |t| && lo <= |t'| && t'[..lo] == t[..lo]
    ensures NodesFrom(t', k) <= NodesFrom(t, k) + NodesFrom(t', lo)
    ensures NodesFrom(t', lo) <= NodesFrom(t', k)
  {
    forall n | n in NodesFrom(t', k) ensures n in NodesFrom(t, k) + NodesFrom(t', lo) {
      var l, i :| k <= l < |t'| && 0 <= i < |t'[l]| && t'[l][i].id == n;
      if l < lo {
        assert t[..lo][l] == t'[..lo][l];
        assert t[l][i].id == n;
      }
    }
  }

  lemma {:induction false} DistinctPush<N>(t: Tower<N>, g: View<N>)
    requires Distinct(t) && g.id !in NodesFrom(t, 0)
    ensures Distinct(t + [[g]])
    ensures forall k: nat :: NodesFrom(t + [[g]], k) <= NodesFrom(t, k) + {g.id}
  {
    var t' := t + [[g]];
    forall l, m | 0 <= l < m < |t'| ensures Ids(t'[l]) !! Ids(t'[m]) {
      if m < |t| {
        assert Ids(t[l]) !! Ids(t[m]);
      }
    }
    forall k: nat, n | n in NodesFrom(t', k) ensures n in NodesFrom(t, k) + {g.id} {
      var l, i :| k <= l < |t'| && 0 <= i < |t'[l]| && t'[l][i].id == n;
      if l < |t| {
        assert t[l][i].id == n;
      }
    }
  }

  lemma {:induction false} PutIds<N>(level: Level<N>, j: nat, es: seq<Entry<N>>)
    requires j < |level|
    ensures Ids(Put(level, j, es)) == Ids(level)
    ensures DistinctLevel(level) ==> DistinctLevel(Put(level, j, es))
  {
    var level' := Put(level, j, es);
    assert forall i :: 0 <= i < |level| ==> level'[i].id == level[i].id;
    forall n ensures n in Ids(level') <==> n in Ids(level) {
      if n in Ids(level) {
        var i :| 0 <= i < |level| && level[i].id == n;
        assert level'[i].id == n;
      }
    }
  }

  lemma {:induction false} SplitIds<N>(level: Level<N>, j: nat, h: nat, new_: N)
    requires j < |level| && h <= |level[j].es| && new_ !in Ids(level) && DistinctLevel(level)
    ensures Ids(SplitAt(level, j, h, new_)) <= Ids(level) + {new_}
    ensures DistinctLevel(SplitAt(level, j, h, new_))
  {
    var level' := SplitAt(level, j, h, new_);
    assert forall i :: 0 <= i < |level| ==> level[i].id in Ids(level);
    forall i | 0 <= i < |level'| ensures level'[i].id == if i < j then level[i].id else if i == j then new_ else level[i - 1].id {
    }
  }

  lemma {:induction false} RemoveIds<N>(level: Level<N>, j: nat)
    requires j < |level| && DistinctLevel(level)
    ensures Ids(RemoveAt(level, j)) <= Ids(level) && DistinctLevel(RemoveAt(level, j))
  {
    var level' := RemoveAt(level, j);
    forall i | 0 <= i < |level'| ensures level'[i] == if i < j then level[i] else level[i + 1] {
    }
  }

  lemma {:induction false} CountReplace<N>(t: Tower<N>, lo: nat, level: Level<N>)
    requires lo < |t|
    ensures Count(t[lo := level]) + |t[lo]| == Count(t) + |level|
  {
    if lo > 0 {
      CountReplace(t[1..], lo - 1, level);
      assert t[lo := level][1..] == t[1..][lo - 1 := level];
    } else {
      assert t[0 := level][1..] == t[1..];
    }
  }

  lemma {:induction false} CountConcat<N>(t: Tower<N>, u: Tower<N>)
    ensures Count(t + u) == Count(t) + Count(u)
  {
    if t == [] {
      assert t + u == u;
    } else {
      CountConcat(t[1..], u);
      assert (t + u)[1..] == t[1..] + u;
    }
  }
}
