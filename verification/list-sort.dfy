/** The two list sorts of lib/list-sort.c on a circular doubly linked list.

    list_qsort is a bottom-up merge sort: nodes are taken one by one from the list, cut at its end, and
    pushed as runs of one node on a stack of pending runs that is threaded through the prev links of the
    runs' first nodes; the bits of the node counter say which two runs to join before each push. */
module ListSort {
  import opened ListOrder
  import opened ListRuns
  import opened Words
  import opened ListStack
  import opened ListBubble

  class ListNode {
    var prev: ListNode?
    var next: ListNode?
  }

  type Cmp = (ListNode, ListNode) -> int

  const WORD: nat := 0x1_0000_0000

  /** The nodes of s follow one another through next; the last one points to end. */
  ghost predicate Chain(s: seq<ListNode>, end: ListNode?)
    reads s`next
  {
    Linked(s) && (s != [] ==> s[|s| - 1].next == end)
  }

  /** Consecutive nodes are linked; where the last one points is open. */
  ghost predicate Linked(s: seq<ListNode>)
    reads s`next
  {
    forall i, j :: 0 <= i && j == i + 1 && j < |s| ==> s[i].next == s[j]
  }

  /** Consecutive nodes are linked both ways. */
  ghost predicate Both(c: seq<ListNode>)
    reads c
  {
    forall i, j :: 0 <= i && j == i + 1 && j < |c| ==> c[i].next == c[j] && c[j].prev == c[i]
  }

  /** c is a circular list: next and prev agree all the way round. */
  ghost predicate Ring(c: seq<ListNode>)
    reads c
  {
    c != [] && Both(c) && c[|c| - 1].next == c[0] && c[0].prev == c[|c| - 1]
  }

  // ----- list_merge -----

  /** Which link a tail pointer stands for: the variable for the first node, or the next field of the last. */
  ghost predicate TailAt(tail: ListNode?, first: ListNode, m: seq<ListNode>) {
    if m == [] then tail == null else tail == m[|m| - 1] && first == m[0]
  }

  /** The state of a merge: m is done, ra and rb are left. */
  ghost predicate Merging(m: seq<ListNode>, ra: seq<ListNode>, rb: seq<ListNode>)
    reads m`next, ra`next, rb`next
  {
    && Linked(m) && Chain(ra, null) && Chain(rb, null)
    && Distinct(m) && Distinct(ra) && Distinct(rb) && Disjoint(m, ra) && Disjoint(m, rb) && Disjoint(ra, rb)
  }

  /** Put the head of ra behind m and step on. */
  method MoveHead(tail: ListNode?, x: ListNode, first: ListNode,
                  ghost m: seq<ListNode>, ghost ra: seq<ListNode>, ghost rb: seq<ListNode>)
    returns (first': ListNode, rest: ListNode?)
    requires Merging(m, ra, rb) && ra != [] && x == ra[0] && TailAt(tail, first, m)
    modifies (if tail == null then {} else {tail})`next
    ensures Merging(m + [x], ra[1..], rb) && TailAt(x, first', m + [x])
    ensures rest == if |ra| > 1 then ra[1] else null
  {
    assert tail != null ==> tail in m;
    assert forall i :: 0 <= i < |ra| ==> ra[i] in ra && ra[i] != tail;
    assert forall i :: 0 <= i < |rb| ==> rb[i] in rb && rb[i] != tail;
    assert Chain(ra[1..], null) && ra[0].next == if |ra| > 1 then ra[1] else null;
    first' := first;
    if tail == null {
      first' := x;
    } else {
      tail.next := x;
    }
    rest := x.next;
    MovedHead(m, ra, rb);
  }

  lemma {:induction false} MovedHead<T>(m: seq<T>, ra: seq<T>, rb: seq<T>)
    requires Distinct(m) && Distinct(ra) && Disjoint(m, ra) && Disjoint(m, rb) && Disjoint(ra, rb) && ra != []
    ensures Distinct(m + [ra[0]]) && Distinct(ra[1..]) && Disjoint(m + [ra[0]], ra[1..]) && Disjoint(m + [ra[0]], rb)
    ensures Disjoint(ra[1..], rb)
  {
    assert ra == [ra[0]] + ra[1..];
    DistinctConcat([ra[0]], ra[1..]);
    DistinctConcat(m, [ra[0]]);
  }

  /** One chain is used up: the other one is what follows. */
  method LinkRest(tail: ListNode, x: ListNode, ghost m: seq<ListNode>, ghost rb: seq<ListNode>)
    requires Merging(m, rb, []) && m != [] && tail == m[|m| - 1] && rb != [] && x == rb[0]
    modifies tail`next
    ensures Chain(m + rb, null)
  {
    tail.next := x;
    assert forall i :: 0 <= i < |rb| ==> rb[i] in rb;
  }

  /** Join two sorted chains; of equal nodes those of sa come first.  Only next links change. */
  method ListMerge(cmp: Cmp, a0: ListNode, b0: ListNode, ghost sa: seq<ListNode>, ghost sb: seq<ListNode>)
    returns (node: ListNode)
    requires sa != [] && sb != [] && a0 == sa[0] && b0 == sb[0]
    requires Chain(sa, null) && Chain(sb, null) && Distinct(sa + sb)
    modifies sa`next, sb`next
    ensures node == Merge(cmp, sa, sb)[0] && Chain(Merge(cmp, sa, sb), null)
  {
    hide Chain; hide Linked; hide Distinct; hide Disjoint; hide Merge; hide Merging;
    var a: ListNode?, b: ListNode?, tail: ListNode? := a0, b0, null;
    node := a0;
    ghost var m: seq<ListNode>, i: nat, j: nat := [], 0, 0;
    MergeInit(sa, sb);
    while true
      invariant i < |sa| && j < |sb| && a == sa[i] && b == sb[j]
      invariant Merging(m, sa[i..], sb[j..]) && TailAt(tail, node, m)
      invariant Merge(cmp, sa, sb) == m + Merge(cmp, sa[i..], sb[j..])
      invariant tail == null || tail in sa || tail in sb
      decreases |sa| - i + |sb| - j
    {
      MergeHead(cmp, m, sa, sb, i, j);
      if cmp(a, b) <= 0 {
        var last: ListNode := a;
        node, a := MoveHead(tail, last, node, m, sa[i..], sb[j..]);
        tail, m, i := last, m + [last], i + 1;
        if a == null {
          MergeNone(cmp, sb[j..]);
          MergingSwap(m, sa[i..], sb[j..]);
          LinkRest(tail, b, m, sb[j..]);
          break;
        }
      } else {
        MergingSwap(m, sa[i..], sb[j..]);
        var last: ListNode := b;
        node, b := MoveHead(tail, last, node, m, sb[j..], sa[i..]);
        tail, m, j := last, m + [last], j + 1;
        if b == null {
          MergeNone(cmp, sa[i..]);
          LinkRest(tail, a, m, sa[i..]);
          break;
        }
        MergingSwap(m, sb[j..], sa[i..]);
      }
    }
  }

  lemma {:induction false} MergeInit(sa: seq<ListNode>, sb: seq<ListNode>)
    requires Chain(sa, null) && Chain(sb, null) && Distinct(sa + sb)
    ensures Merging([], sa[0..], sb[0..]) && sa[0..] == sa && sb[0..] == sb
  {
    DistinctConcat(sa, sb);
  }

  lemma {:induction false} MergingSwap(m: seq<ListNode>, ra: seq<ListNode>, rb: seq<ListNode>)
    requires Merging(m, ra, rb)
    ensures Merging(m, rb, ra)
  {
  }

  lemma {:induction false} MergeNone<T>(cmp: (T, T) -> int, s: seq<T>)
    ensures Merge(cmp, [], s) == s == Merge(cmp, s, [])
  {
  }

  /** Where the next node of the merge comes from. */
  lemma {:induction false} MergeHead<T>(cmp: (T, T) -> int, m: seq<T>, sa: seq<T>, sb: seq<T>, i: nat, j: nat)
    requires i < |sa| && j < |sb|
    ensures sa[i..][0] == sa[i] && sa[i..][1..] == sa[i + 1..] && sb[j..][0] == sb[j] && sb[j..][1..] == sb[j + 1..]
    ensures cmp(sa[i], sb[j]) <= 0 ==>
      m + Merge(cmp, sa[i..], sb[j..]) == (m + [sa[i]]) + Merge(cmp, sa[i + 1..], sb[j..])
    ensures cmp(sa[i], sb[j]) > 0 ==>
      m + Merge(cmp, sa[i..], sb[j..]) == (m + [sb[j]]) + Merge(cmp, sa[i..], sb[j + 1..])
    ensures (i + 1 == |sa| ==> sa[i + 1..] == []) && (j + 1 == |sb| ==> sb[j + 1..] == [])
  {
    assert sa[i..][1..] == sa[i + 1..] && sb[j..][1..] == sb[j + 1..];
  }

  // ----- list_finish -----

  /** The state of the last merge: c, from the head of the list on, is done in both directions. */
  ghost predicate Closing(c: seq<ListNode>, ra: seq<ListNode>, rb: seq<ListNode>)
    reads c, ra`next, rb`next
  {
    && c != [] && Both(c) && Chain(ra, null) && Chain(rb, null)
    && Distinct(c) && Distinct(ra) && Distinct(rb) && Disjoint(c, ra) && Disjoint(c, rb) && Disjoint(ra, rb)
  }

  lemma {:induction false} ClosingSwap(c: seq<ListNode>, ra: seq<ListNode>, rb: seq<ListNode>)
    requires Closing(c, ra, rb)
    ensures Closing(c, rb, ra)
  {
  }

  /** Put the head of ra behind c, linked both ways, and step on. */
  method CloseHead(tail: ListNode, x: ListNode, ghost c: seq<ListNode>, ghost ra: seq<ListNode>, ghost rb: seq<ListNode>)
    returns (rest: ListNode?)
    requires Closing(c, ra, rb) && ra != [] && x == ra[0] && tail == c[|c| - 1]
    modifies tail`next, x`prev
    ensures Closing(c + [x], ra[1..], rb)
    ensures rest == if |ra| > 1 then ra[1] else null
  {
    assert tail in c && x in ra && x !in c;
    assert forall i :: 0 <= i < |ra| ==> ra[i] in ra && ra[i] != tail;
    assert forall i :: 0 <= i < |rb| ==> rb[i] in rb && rb[i] != tail;
    assert forall i :: 0 <= i < |c| ==> c[i] in c && c[i] != x;
    tail.next := x;
    x.prev := tail;
    rest := x.next;
    MovedHead(c, ra, rb);
  }

  /** The rest of the last merge: one chain is left; it gets its prev links and the ring is closed. */
  method CloseRest(cmp: Cmp, head: ListNode, tail0: ListNode, b0: ListNode, ghost c0: seq<ListNode>, ghost rb: seq<ListNode>)
    requires Closing(c0, rb, []) && c0[0] == head && tail0 == c0[|c0| - 1] && rb != [] && b0 == rb[0]
    modifies tail0`next, head`prev, rb
    ensures Ring(c0 + rb)
  {
    hide Distinct; hide Disjoint; hide Chain; hide Both;
    var tail, b: ListNode?, count: nat := tail0, b0, 0;
    ghost var c, i: nat := c0, 0;
    assert c0 + rb == c0 + [] + rb;
    while b != null
      invariant i <= |rb| && c == c0 + rb[..i] && Closing(c, rb[i..], [])
      invariant b == (if i < |rb| then rb[i] else null) && tail == c[|c| - 1]
      invariant tail == tail0 || tail in rb
      decreases |rb| - i
    {
      count := (count + 1) % 256;
      if count == 0 {
        var _ := cmp(b, b);
      }
      var last: ListNode := b;
      b := CloseHead(tail, last, c, rb[i..], []);
      tail := last;
      assert rb[i..][1..] == rb[i + 1..] && rb[..i + 1] == rb[..i] + [last];
      c, i := c + [last], i + 1;
    }
    assert rb[..i] == rb && c == c0 + rb;
    CloseRing(head, tail, c);
  }

  method CloseRing(head: ListNode, tail: ListNode, ghost c: seq<ListNode>)
    requires c != [] && Both(c) && Distinct(c) && c[0] == head && tail == c[|c| - 1]
    modifies head`prev, tail`next
    ensures Ring(c)
  {
    tail.next := head;
    head.prev := tail;
  }

  /** The last merge, into the list itself. */
  method ListFinish(cmp: Cmp, head: ListNode, a0: ListNode, b0: ListNode, ghost sa: seq<ListNode>, ghost sb: seq<ListNode>)
    requires sa != [] && sb != [] && a0 == sa[0] && b0 == sb[0]
    requires Chain(sa, null) && Chain(sb, null) && Distinct([head] + (sa + sb))
    modifies head, sa, sb
    ensures Ring([head] + Merge(cmp, sa, sb))
  {
    hide Chain; hide Linked; hide Distinct; hide Disjoint; hide Both; hide Ring; hide Merge;
    var a: ListNode?, b: ListNode?, tail := a0, b0, head;
    ghost var c: seq<ListNode>, i: nat, j: nat, rest: seq<ListNode> := [head], 0, 0, [];
    CloseInit(head, sa, sb);
    while true
      invariant i < |sa| && j < |sb| && a == sa[i] && b == sb[j]
      invariant Closing(c, sa[i..], sb[j..]) && c[0] == head && tail == c[|c| - 1]
      invariant [head] + Merge(cmp, sa, sb) == c + Merge(cmp, sa[i..], sb[j..])
      invariant tail == head || tail in sa || tail in sb
      decreases |sa| - i + |sb| - j
    {
      MergeHead(cmp, c, sa, sb, i, j);
      assert tail in c && sa[i] in sa && sb[j] in sb;
      if cmp(a, b) <= 0 {
        var last: ListNode := a;
        a := CloseHead(tail, last, c, sa[i..], sb[j..]);
        tail, c, i := last, c + [last], i + 1;
        if a == null {
          MergeNone(cmp, sb[j..]);
          ClosingSwap(c, sa[i..], sb[j..]);
          rest := sb[j..];
          assert sa[i..] == [] && Within(rest, sa + sb);
          break;
        }
      } else {
        ClosingSwap(c, sa[i..], sb[j..]);
        var last: ListNode := b;
        b := CloseHead(tail, last, c, sb[j..], sa[i..]);
        tail, c, j := last, c + [last], j + 1;
        ClosingSwap(c, sb[j..], sa[i..]);
        if b == null {
          MergeNone(cmp, sa[i..]);
          b := a;
          rest := sa[i..];
          assert sb[j..] == [] && Within(rest, sa + sb);
          break;
        }
      }
    }
    assert forall k :: 0 <= k < |rest| ==> rest[k] in sa || rest[k] in sb;
    CloseRest(cmp, head, tail, b, c, rest);
  }

  lemma {:induction false} CloseInit(head: ListNode, sa: seq<ListNode>, sb: seq<ListNode>)
    requires Chain(sa, null) && Chain(sb, null) && Distinct([head] + (sa + sb))
    ensures Closing([head], sa[0..], sb[0..]) && sa[0..] == sa && sb[0..] == sb
  {
    DistinctConcat([head], sa + sb);
    DistinctConcat(sa, sb);
    DisjointSwap([head], sa + sb);
    assert [] + sa + sb == sa + sb == sa + sb + [];
    DisjointPart([], sa, sb, [head]);
    DisjointPart(sa, sb, [], [head]);
  }

  // ----- list_qsort -----

  /** The first node of run k; null past the oldest run. */
  ghost function Top(runs: seq<seq<ListNode>>, k: nat): ListNode? {
    if k < |runs| && runs[k] != [] then runs[k][0] else null
  }

  ghost predicate AllIn(a: seq<ListNode>, s: seq<ListNode>) {
    forall j :: 0 <= j < |a| ==> a[j] in s
  }

  /** The stack of pending runs in memory: each a chain, their first nodes linked through prev. */
  ghost predicate Stack(pending: ListNode?, runs: seq<seq<ListNode>>, s: seq<ListNode>)
    reads s
  {
    && pending == Top(runs, 0)
    && (forall i :: 0 <= i < |runs| ==> runs[i] != [] && AllIn(runs[i], s))
    && (forall i :: 0 <= i < |runs| ==> Chain(runs[i], null))
    && (forall i, k :: 0 <= i < |runs| && k == i + 1 ==> runs[i][0].prev == Top(runs, k))
  }

  /** list_merge of runs t + 1 and t; the other chains stay as they are. */
  method MergeRuns(cmp: Cmp, a: ListNode, b: ListNode, ghost runs: seq<seq<ListNode>>, ghost t: nat, ghost rest: seq<ListNode>)
    returns (m: ListNode)
    requires t + 1 < |runs| && Apart(runs, rest) && Distinct(runs[t + 1] + runs[t])
    requires (forall i :: 0 <= i < |runs| ==> runs[i] != [] && Chain(runs[i], null)) && Chain(rest, null)
    requires a == runs[t + 1][0] && b == runs[t][0]
    modifies runs[t + 1]`next, runs[t]`next
    ensures m == Merge(cmp, runs[t + 1], runs[t])[0] && Chain(Merge(cmp, runs[t + 1], runs[t]), null)
    ensures forall i :: 0 <= i < |runs| && i != t && i != t + 1 ==> Chain(runs[i], null)
    ensures Chain(rest, null)
  {
    hide Merge; hide Linked; hide Distinct;
    m := ListMerge(cmp, a, b, runs[t + 1], runs[t]);
    forall i | 0 <= i < |runs| && i != t && i != t + 1 ensures Chain(runs[i], null) {
    }
  }

  /** Join run t with the next older one; up is the first node of run t - 1, or null for the top of the stack. */
  method JoinRuns(cmp: Cmp, pending: ListNode, up: ListNode?, ghost runs: seq<seq<ListNode>>, ghost t: nat,
                  ghost s: seq<ListNode>, ghost rest: seq<ListNode>)
    returns (pending': ListNode, ghost runs': seq<seq<ListNode>>)
    requires Good(cmp, s, runs, rest) && Distinct(s) && Stack(pending, runs, s) && Chain(rest, null)
    requires t + 1 < |runs| && up == if t == 0 then null else runs[t - 1][0]
    modifies s
    ensures runs' == Join(runs, t, Merge(cmp, runs[t + 1], runs[t]))
    ensures Stack(pending', runs', s) && Chain(rest, null)
  {
    hide Merge; hide Cat; hide Class; hide Linked; hide Chain; hide Good; hide Distinct; hide Disjoint;
    assert forall i, k :: 0 <= i < |runs| && k == i + 1 ==> runs[i][0].prev == Top(runs, k);
    JoinFacts(cmp, pending, runs, t, s, rest);
    pending' := pending;
    var b: ListNode := if up == null then pending else up.prev;
    var a: ListNode := b.prev;
    ghost var sa, sb := runs[t + 1], runs[t];
    var m := MergeRuns(cmp, a, b, runs, t, rest);
    ghost var sm := Merge(cmp, sa, sb);
    m.prev := a.prev;
    if up == null {
      pending' := m;
    } else {
      up.prev := m;
    }
    runs' := Join(runs, t, sm);
    forall i, k | 0 <= i < |runs'| && k == i + 1 ensures runs'[i][0].prev == Top(runs', k) {
      assert Top(runs', k) == if k < t then Top(runs, k) else if k == t then m else Top(runs, k + 1);
    }
  }

  lemma {:induction false} JoinFacts(cmp: Cmp, pending: ListNode, runs: seq<seq<ListNode>>, t: nat,
                                     s: seq<ListNode>, rest: seq<ListNode>)
    requires Good(cmp, s, runs, rest) && Distinct(s) && Stack(pending, runs, s) && t + 1 < |runs|
    ensures Apart(runs, rest) && Distinct(runs[t + 1] + runs[t])
    ensures t > 0 ==> runs[t - 1][0].prev == runs[t][0]
    ensures t == 0 ==> pending == runs[t][0]
    ensures runs[t][0].prev == runs[t + 1][0] && runs[t + 1][0].prev == Top(runs, t + 2)
    ensures forall i :: 0 <= i < |runs| && i != t && i != t + 1 ==>
      runs[i][0] != Merge(cmp, runs[t + 1], runs[t])[0] && (t > 0 && i != t - 1 ==> runs[i][0] != runs[t - 1][0])
    ensures AllIn(Merge(cmp, runs[t + 1], runs[t]), s)
  {
    hide Distinct; hide Chain; hide Merge; hide Cat; hide Class; hide Sorted; hide Preorder;
    var sa, sb := runs[t + 1], runs[t];
    var m := Merge(cmp, sa, sb);
    forall j | 0 <= j < |m| ensures m[j] in s {
      MergeFrom(cmp, sa, sb, m[j]);
    }
    MergeFrom(cmp, sa, sb, m[0]);
    ApartOf(runs, rest, s);
    DistinctConcat(runs[t + 1], runs[t]);
    assert Top(runs, t) == runs[t][0] && Top(runs, t + 1) == runs[t + 1][0];
    assert t > 0 ==> runs[t - 1][0].prev == Top(runs, t);
    assert Top(runs, t + 2) == runs[t + 1][0].prev;
  }

  /** The newest runs have the lengths the bits of count say.  A list of 2^32 nodes or more wraps the counter;
      the runs pending by then are longer and stay below. */
  ghost predicate Fits(runs: seq<seq<ListNode>>, count: nat) {
    var sizes := RunSizes(count, false, 0);
    |sizes| <= |runs| && forall i :: 0 <= i < |sizes| ==> |runs[i]| == sizes[i]
  }

  /** Fewer nodes than the counter can count: the pending runs are those of the bits of the counter, and no more. */
  ghost predicate Exactly(runs: seq<seq<ListNode>>, count: nat) {
    Fits(runs, count) && |runs| == |RunSizes(count, false, 0)|
  }

  lemma {:induction false} NoMoreRuns(cmp: Cmp, s: seq<ListNode>, runs: seq<seq<ListNode>>, rest: seq<ListNode>, count: nat)
    requires Good(cmp, s, runs, rest) && Fits(runs, count) && forall i :: 0 <= i < |runs| ==> runs[i] != []
    ensures |rest| <= |s| && (|s| - |rest| == count ==> Exactly(runs, count))
  {
    hide RunSizes; hide Class; hide Preorder;
    var sizes := RunSizes(count, false, 0);
    var k := |sizes|;
    SizesTotal(count, false, 0);
    assert Pow2(0) == 1;
    CatSizes(runs[..k], sizes);
    assert runs == runs[..k] + runs[k..];
    CatConcat(runs[..k], runs[k..]);
    assert |multiset(Cat(runs) + rest)| == |multiset(s)|;
    if k < |runs| {
      CatSome(runs[k..]);
    }
  }

  lemma {:induction false} CatSizes<T>(runs: seq<seq<T>>, sizes: seq<nat>)
    requires |runs| == |sizes| && forall i :: 0 <= i < |runs| ==> |runs[i]| == sizes[i]
    ensures |Cat(runs)| == Sum(sizes)
  {
    if runs != [] {
      CatSizes(runs[1..], sizes[1..]);
    }
  }

  lemma {:induction false} CatSome<T>(runs: seq<seq<T>>)
    requires runs != [] && runs[0] != []
    ensures Cat(runs) != []
  {
  }

  /** Before a push: follow the trailing one bits of the counter down the stack; if bits are left, the two runs
      found there have equal length and are joined. */
  method Settle(cmp: Cmp, count: nat, pending: ListNode?, ghost runs: seq<seq<ListNode>>,
                ghost s: seq<ListNode>, ghost rest: seq<ListNode>)
    returns (pending': ListNode?, ghost runs': seq<seq<ListNode>>)
    requires Good(cmp, s, runs, rest) && Distinct(s) && Stack(pending, runs, s) && Chain(rest, null) && Fits(runs, count)
    modifies s
    ensures Good(cmp, s, runs', rest) && Stack(pending', runs', s) && Chain(rest, null)
    ensures var t := Ones(count);
      if Rest(count) == 0 then runs' == runs
      else (t + 1 < |runs| && |runs[t]| == |runs[t + 1]| == Pow2(t)
            && runs' == Join(runs, t, Merge(cmp, runs[t + 1], runs[t])))
  {
    hide Good; hide Distinct; hide Chain; hide RunSizes; hide Merge; hide Pow2; hide Joined;
    StepSizes(count, 0);
    var up: ListNode?, bits := null, count;
    ghost var t: nat := 0;
    while bits % 2 == 1
      invariant Ones(count) == t + Ones(bits) && Rest(count) == Rest(bits)
      invariant t <= |runs| && up == if t == 0 then null else runs[t - 1][0]
      decreases bits
    {
      assert up == null || up.prev == Top(runs, t);
      up := if up == null then pending else up.prev;
      bits := bits / 2;
      t := t + 1;
    }
    pending', runs' := pending, runs;
    if bits != 0 {
      pending', runs' := JoinRuns(cmp, pending, up, runs, t, s, rest);
      GoodJoin(cmp, s, runs, rest, t);
    }
  }

  /** Take the next node of the list as a run of its own. */
  method Push(cmp: Cmp, pending: ListNode?, node: ListNode, ghost runs: seq<seq<ListNode>>,
              ghost s: seq<ListNode>, ghost rest: seq<ListNode>)
    returns (pending': ListNode, next: ListNode?)
    requires Good(cmp, s, runs, rest) && Distinct(s) && Stack(pending, runs, s) && Chain(rest, null)
    requires rest != [] && node == rest[0]
    modifies s
    ensures Good(cmp, s, [[node]] + runs, rest[1..]) && Stack(pending', [[node]] + runs, s) && Chain(rest[1..], null)
    ensures next == if |rest| > 1 then rest[1] else null
  {
    hide Good; hide Distinct; hide Linked;
    PushFacts(cmp, runs, s, rest);
    assert forall i, k :: 0 <= i < |runs| && k == i + 1 ==> runs[i][0].prev == Top(runs, k);
    node.prev := pending;
    pending' := node;
    next := StepOn(node, runs, rest);
    ghost var runs': seq<seq<ListNode>> := [[node]] + runs;
    GoodPush(cmp, s, runs, rest);
    forall i | 0 <= i < |runs'| ensures runs'[i] != [] && AllIn(runs'[i], s) && Chain(runs'[i], null) {
      assert i > 0 ==> runs'[i] == runs[i - 1];
    }
    forall i, k | 0 <= i < |runs'| && k == i + 1 ensures runs'[i][0].prev == Top(runs', k) {
      assert Top(runs', k) == Top(runs, k - 1);
    }
  }

  /** node = node->next; cut the node off behind. */
  method StepOn(node: ListNode, ghost runs: seq<seq<ListNode>>, ghost rest: seq<ListNode>) returns (next: ListNode?)
    requires Apart(runs, rest) && Chain(rest, null) && rest != [] && node == rest[0]
    requires forall i :: 0 <= i < |runs| ==> Chain(runs[i], null)
    modifies node`next
    ensures Chain(rest[1..], null) && Chain([node], null)
    ensures forall i :: 0 <= i < |runs| ==> Chain(runs[i], null)
    ensures next == if |rest| > 1 then rest[1] else null
  {
    assert Chain(rest[1..], null);
    next := node.next;
    node.next := null;
  }

  lemma {:induction false} PushFacts(cmp: Cmp, runs: seq<seq<ListNode>>, s: seq<ListNode>, rest: seq<ListNode>)
    requires Good(cmp, s, runs, rest) && Distinct(s) && rest != [] && forall i :: 0 <= i < |runs| ==> runs[i] != []
    ensures Apart(runs, rest) && rest[0] in s && forall i :: 0 <= i < |runs| ==> runs[i][0] != rest[0]
  {
    hide Class; hide Cat;
    ApartOf(runs, rest, s);
    assert (Cat(runs) + rest)[|Cat(runs)|] == rest[0];
    assert rest[0] in multiset(Cat(runs) + rest);
  }

  lemma {:induction false} FitsPush(runs: seq<seq<ListNode>>, runs': seq<seq<ListNode>>, count: nat, cmp: Cmp, x: ListNode)
    requires Fits(runs, count) && count < WORD
    requires var t := Ones(count);
      if Rest(count) == 0 then runs' == runs
      else t + 1 < |runs| && runs' == Join(runs, t, Merge(cmp, runs[t + 1], runs[t]))
    ensures Fits([[x]] + runs', Inc(count))
  {
    hide RunSizes; hide Merge; hide Ones; hide Rest;
    StepSizes(count, 0);
    assert Pow2(0) == 1;
    if Inc(count) == 0 {
      NoRuns(0);
    }
  }

  lemma {:induction false} DrainInit(top: ListNode, runs: seq<seq<ListNode>>, s: seq<ListNode>)
    requires Stack(top, runs, s) && |runs| >= 2
    ensures Stack(runs[1][0], runs[1..], s) && [runs[0]] + runs[1..] == runs && Top(runs, 1) == runs[1][0]
    ensures top == runs[0][0] && runs[0] != [] && Chain(runs[0], null) && AllIn(runs[0], s)
  {
    StackTail(top, runs, s);
  }

  lemma {:induction false} StackTail(top: ListNode?, runs: seq<seq<ListNode>>, s: seq<ListNode>)
    requires Stack(top, runs, s) && runs != []
    ensures Stack(Top(runs, 1), runs[1..], s)
  {
    hide Chain;
    var t: seq<seq<ListNode>> := runs[1..];
    forall i, k | 0 <= i < |t| && k == i + 1 ensures t[i][0].prev == Top(t, k) {
      assert runs[i + 1][0].prev == Top(runs, k + 1);
    }
  }

  lemma {:induction false} JoinTop(cmp: Cmp, s: seq<ListNode>, acc: seq<ListNode>, older: seq<seq<ListNode>>)
    requires Good(cmp, s, [acc] + older, []) && older != []
    ensures Good(cmp, s, [Merge(cmp, older[0], acc)] + older[1..], [])
  {
    hide Good; hide Merge;
    var runs := [acc] + older;
    GoodJoin(cmp, s, runs, [], 0);
    assert runs[1] == older[0] && runs[0] == acc && runs[2..] == older[1..];
    assert Join(runs, 0, Merge(cmp, runs[1], runs[0])) == [Merge(cmp, older[0], acc)] + older[1..];
  }

  lemma {:induction false} DrainFacts(cmp: Cmp, s: seq<ListNode>, acc: seq<ListNode>, older: seq<seq<ListNode>>)
    requires Good(cmp, s, [acc] + older, []) && Distinct(s) && older != [] && AllIn(acc, s) && AllIn(older[0], s)
    ensures Apart([acc] + older, []) && Distinct(older[0] + acc)
    ensures AllIn(Merge(cmp, older[0], acc), s)
  {
    hide Class; hide Cat; hide Distinct; hide Merge;
    ApartOf([acc] + older, [], s);
    assert ([acc] + older)[0] == acc && ([acc] + older)[1] == older[0];
    DistinctConcat(older[0], acc);
    var m := Merge(cmp, older[0], acc);
    forall j | 0 <= j < |m| ensures m[j] in s {
      MergeFrom(cmp, older[0], acc, m[j]);
    }
  }

  lemma {:induction false} NoChain()
    ensures Chain([], null)
  {
  }

  lemma {:induction false} LastFacts(head: ListNode, s: seq<ListNode>, acc: seq<ListNode>, older: seq<seq<ListNode>>)
    requires Distinct([head] + s) && AllIn(acc, s) && older != [] && AllIn(older[0], s) && Distinct(older[0] + acc)
    ensures Distinct([head] + (older[0] + acc))
  {
    DistinctConcat([head], s);
    forall j | 0 <= j < |older[0] + acc| ensures (older[0] + acc)[j] != head {
      var k :| 0 <= k < |s| && s[k] == (older[0] + acc)[j];
      assert ([head] + s)[0] == head && ([head] + s)[k + 1] == s[k];
    }
    DistinctConcat([head], older[0] + acc);
  }

  /** One merge of the drain: the newest run with the next older one. */
  method DrainOne(cmp: Cmp, pending: ListNode, node: ListNode, ghost next: ListNode,
                  ghost acc: seq<ListNode>, ghost older: seq<seq<ListNode>>, ghost s: seq<ListNode>)
    returns (m: ListNode)
    requires Good(cmp, s, [acc] + older, []) && Distinct(s) && older != [] && Stack(pending, older, s)
    requires acc != [] && node == acc[0] && Chain(acc, null) && AllIn(acc, s) && next == Top(older, 1)
    modifies s`next
    ensures Stack(next, older[1..], s) && m == Merge(cmp, older[0], acc)[0] && Chain(Merge(cmp, older[0], acc), null)
    ensures AllIn(Merge(cmp, older[0], acc), s) && Good(cmp, s, [Merge(cmp, older[0], acc)] + older[1..], [])
  {
    hide Good; hide Distinct; hide Chain; hide Linked; hide Merge; hide Disjoint;
    ghost var runs := [acc] + older;
    DrainFacts(cmp, s, acc, older);
    StackTail(pending, older, s);
    assert runs[0] == acc && runs[1] == older[0];
    NoChain();
    m := MergeRuns(cmp, pending, node, runs, 0, []);
    JoinTop(cmp, s, acc, older);
    forall i | 0 <= i < |older[1..]| ensures Chain(older[1..][i], null) {
      assert older[1..][i] == runs[i + 2];
    }
  }

  /** Join the pending runs from the newest to the oldest; the last merge goes into the list. */
  method Drain(cmp: Cmp, head: ListNode, top: ListNode, ghost runs: seq<seq<ListNode>>, ghost s: seq<ListNode>)
    returns (ghost r: seq<ListNode>)
    requires Good(cmp, s, runs, []) && Distinct([head] + s) && Stack(top, runs, s) && |runs| >= 2
    modifies head, s
    ensures Good(cmp, s, [r], []) && Ring([head] + r)
  {
    hide Good; hide Distinct; hide Chain; hide Linked; hide Both; hide Merge; hide Ring; hide Disjoint;
    DistinctConcat([head], s);
    assert top.prev == Top(runs, 1) && forall i, k :: 0 <= i < |runs| && k == i + 1 ==> runs[i][0].prev == Top(runs, k);
    var node: ListNode := top;
    var pending: ListNode := node.prev;
    ghost var acc, older := runs[0], runs[1..];
    DrainInit(top, runs, s);
    while true
      invariant older != [] && Stack(pending, older, s) && acc != [] && node == acc[0] && Chain(acc, null) && AllIn(acc, s)
      invariant Good(cmp, s, [acc] + older, [])
      decreases |older|
    {
      var next := pending.prev;
      assert next == Top(older, 1);
      if next == null {
        break;
      }
      node := DrainOne(cmp, pending, node, next, acc, older, s);
      pending := next;
      acc, older := Merge(cmp, older[0], acc), older[1..];
    }
    assert older[1..] == [];
    DrainFacts(cmp, s, acc, older);
    LastFacts(head, s, acc, older);
    ListFinish(cmp, head, pending, node, older[0], acc);
    JoinTop(cmp, s, acc, older);
    r := Merge(cmp, older[0], acc);
    assert [r] + [] == [r];
  }

  /** First and last node of the ring. */
  lemma {:induction false} Ends(head: ListNode, s: seq<ListNode>)
    requires Ring([head] + s) && Distinct([head] + s)
    ensures head.next == (if s == [] then head else s[0]) && head.prev == (if s == [] then head else s[|s| - 1])
    ensures head.next == head.prev <==> |s| <= 1
    ensures Distinct(s) && head !in s && Linked(s)
  {
    var c := [head] + s;
    forall i, j | 0 <= i && j == i + 1 && j < |s| ensures s[i].next == s[j] {
      assert c[i + 1].next == c[j + 1];
    }
    assert s != [] ==> c[1] == s[0] && c[|s|] == s[|s| - 1];
    DistinctConcat([head], s);
  }

  lemma {:induction false} SmallSorted<T>(cmp: (T, T) -> int, s: seq<T>)
    requires |s| <= 1
    ensures StableSort(cmp, s) == s
  {
  }

  lemma {:induction false} SmallBits()
    ensures Rest(0) == 0 && Rest(1) == 0
  {
  }

  method CutEnd(last: ListNode, ghost s: seq<ListNode>)
    requires Linked(s) && Distinct(s) && s != [] && last == s[|s| - 1]
    modifies last`next
    ensures Chain(s, null)
  {
    last.next := null;
  }

  lemma {:induction false} QsortInit(cmp: Cmp, s: seq<ListNode>)
    ensures Good(cmp, s, [], s) && Stack(null, [], s) && Fits([], 0) && Exactly([], 0)
  {
    GoodStart(cmp, s);
    NoRuns(0);
  }

  /** list_qsort: the nodes of the list stably sorted, for every total preorder; for any comparator at all,
      the same nodes in some order. */
  method ListQsort(head: ListNode, cmp: Cmp, ghost s: seq<ListNode>) returns (ghost r: seq<ListNode>)
    requires Ring([head] + s) && Distinct([head] + s)
    modifies head, s
    ensures Ring([head] + r) && multiset(r) == multiset(s)
    ensures Preorder(cmp, s) ==> r == StableSort(cmp, s)
  {
    hide Good; hide Distinct; hide Linked; hide Class; hide StableSort; hide Preorder; hide Merge; hide Disjoint;
    hide RunSizes; hide Fits; hide Exactly; hide Ones; hide Rest; hide Chain; hide Both;
    var pending: ListNode? := null;
    var node: ListNode? := head.next;
    var count: nat := 0;
    Ends(head, s);
    if node == head.prev {
      SmallSorted(cmp, s);
      return s;
    }
    CutEnd(head.prev, s);
    ghost var runs: seq<seq<ListNode>>, rest := [], s;
    QsortInit(cmp, s);
    while node != null
      invariant Good(cmp, s, runs, rest) && Stack(pending, runs, s) && Chain(rest, null)
      invariant node == if rest == [] then null else rest[0]
      invariant Fits(runs, count) && count < WORD
      invariant |runs| >= 2 || count == |runs| == |s| - |rest|
      invariant |rest| <= |s| && (|s| - |rest| < WORD ==> count == |s| - |rest|)
      invariant count == |s| - |rest| ==> Exactly(runs, count)
      decreases |rest|
    {
      ghost var before := runs;
      SmallBits();
      pending, runs := Settle(cmp, count, pending, runs, s, rest);
      FitsPush(before, runs, count, cmp, node);
      pending, node := Push(cmp, pending, node, runs, s, rest);
      runs, rest := [[rest[0]]] + runs, rest[1..];
      count := Inc(count);
      NoMoreRuns(cmp, s, runs, rest, count);
    }
    r := Drain(cmp, head, pending, runs, s);
    GoodDone(cmp, s, r);
  }

  // ----- list_bsort -----

  /** list_del */
  method ListDel(node: ListNode, ghost c: seq<ListNode>, ghost k: nat)
    requires Ring(c) && Distinct(c) && 1 <= k < |c| && node == c[k]
    modifies c
    ensures Ring(c[..k] + c[k + 1..]) && node.next == null && node.prev == null
  {
    assert c[k - 1] in c && c[if k + 1 < |c| then k + 1 else 0] in c;
    node.prev.next := node.next;
    node.next.prev := node.prev;
    node.next := null;
    node.prev := null;
  }

  /** list_replace: a node outside the ring takes the place of node k. */
  method ListReplace(node: ListNode, new_: ListNode, ghost c: seq<ListNode>, ghost k: nat)
    requires Ring(c) && Distinct(c) && 1 <= k < |c| && node == c[k] && new_ !in c
    modifies c, new_
    ensures Ring(c[k := new_])
  {
    assert c[k - 1] in c && c[if k + 1 < |c| then k + 1 else 0] in c;
    new_.prev := node.prev;
    new_.next := node.next;
    new_.prev.next := new_;
    new_.next.prev := new_;
  }

  /** list_add: a node outside the ring goes behind node k. */
  method ListAdd(node: ListNode, new_: ListNode, ghost c: seq<ListNode>, ghost k: nat)
    requires Ring(c) && Distinct(c) && k < |c| && node == c[k] && new_ !in c
    modifies c, new_
    ensures Ring(c[..k + 1] + [new_] + c[k + 1..])
  {
    assert c[if k + 1 < |c| then k + 1 else 0] in c;
    var next := node.next;
    node.next := new_;
    next.prev := new_;
    new_.prev := node;
    new_.next := next;
  }

  /** list_swap for a node and the one right before it: unlink the earlier one, put it in the place of the later
      one, and link the later one where the earlier one was. */
  method ListSwap(node1: ListNode, node2: ListNode, ghost c: seq<ListNode>, ghost k: nat)
    requires Ring(c) && Distinct(c) && 1 <= k && k + 1 < |c| && node1 == c[k + 1] && node2 == c[k]
    modifies c
    ensures Ring(Swapped(c, k))
  {
    hide Ring; hide Both; hide Distinct; hide Swapped;
    RingBefore(c, k);
    var before: ListNode := node2.prev;
    ghost var d := c[..k] + c[k + 1..];
    ghost var e := d[k := node2];
    SwapDistinct(c, k);
    ListDel(node2, c, k);
    ListReplace(node1, node2, d, k);
    if before == node1 {
      before := node2;
    }
    ListAdd(before, node1, e, k - 1);
    SwapSplice(c, k);
  }

  lemma {:induction false} RingBefore(c: seq<ListNode>, k: nat)
    requires Ring(c) && 1 <= k < |c|
    ensures c[k].prev == c[k - 1]
  {
    assert k == (k - 1) + 1;
  }

  lemma {:induction false} SwapSplice<T>(c: seq<T>, k: nat)
    requires 1 <= k && k + 1 < |c|
    ensures var e := (c[..k] + c[k + 1..])[k := c[k]]; e[..k - 1 + 1] + [c[k + 1]] + e[k - 1 + 1..] == Swapped(c, k)
  {
  }

  lemma {:induction false} SwapDistinct(c: seq<ListNode>, k: nat)
    requires Distinct(c) && 1 <= k && k + 1 < |c|
    ensures var d := c[..k] + c[k + 1..];
      && d[k] == c[k + 1] && d[k - 1] == c[k - 1] && Distinct(d) && c[k] !in d && Distinct(d[k := c[k]]) && c[k + 1] !in d[k := c[k]]
      && c[k - 1] != c[k + 1] && AllIn(d, c) && AllIn(d[k := c[k]], c)
  {
    var d := c[..k] + c[k + 1..];
    assert forall i :: 0 <= i < |d| ==> d[i] == if i < k then c[i] else c[i + 1];
  }

  /** Where a walk through the ring stands: prev is element k, walk the one after it. */
  ghost predicate At(head: ListNode, r: seq<ListNode>, k: nat, prev: ListNode?, walk: ListNode?) {
    if r == [] then prev == walk == head
    else k < |r| && prev == r[k] && walk == if k + 1 < |r| then r[k + 1] else head
  }

  /** The state of the list during list_bsort. */
  ghost predicate Bubbling(cmp: Cmp, head: ListNode, s: seq<ListNode>, r: seq<ListNode>)
    reads head, r
  {
    Ring([head] + r) && Distinct([head] + r) && Good(cmp, s, [], r)
  }

  /** One node of a pass: element k + 1 meets the largest so far, element k. */
  method Visit(cmp: Cmp, head: ListNode, prev: ListNode, walk: ListNode, ghost s: seq<ListNode>, ghost r: seq<ListNode>, ghost k: nat)
    returns (ghost r': seq<ListNode>, prev': ListNode, swap: bool)
    requires Bubbling(cmp, head, s, r) && At(head, r, k, prev, walk) && walk != head
    modifies head, s
    ensures Bubbling(cmp, head, s, r') && |r'| == |r| && k + 1 < |r| && At(head, r', k + 1, prev', old(walk.next))
    ensures swap == !Le(cmp, r[k], r[k + 1]) && r' == if swap then Swapped(r, k) else r
  {
    NextAt(cmp, head, s, r, k, prev, walk);
    hide Good; hide Distinct; hide Both; hide Ring; hide Swapped;
    RestWithin(cmp, s, r);
    r' := r;
    swap := cmp(prev, walk) > 0;
    if !swap {
      prev' := walk;
    } else {
      SwapFacts(head, r, k);
      ListSwap(walk, prev, [head] + r, k + 1);
      r' := Swapped(r, k);
      SwapAt(r, k);
      prev' := prev;
      SwapStable(cmp, s, r, k);
    }
  }

  lemma {:induction false} SwapFacts(head: ListNode, r: seq<ListNode>, k: nat)
    requires k + 1 < |r| && Distinct([head] + r)
    ensures Swapped([head] + r, k + 1) == [head] + Swapped(r, k)
    ensures Distinct([head] + Swapped(r, k))
    ensures ([head] + r)[k + 1] == r[k] && ([head] + r)[k + 2] == r[k + 1]
    ensures Swapped(r, k)[k + 1] == r[k] && |Swapped(r, k)| == |r| && (k + 2 < |r| ==> Swapped(r, k)[k + 2] == r[k + 2])
  {
    hide Distinct;
    SwapAt(r, k);
    SwapMultiset(r, k);
    MultisetCons(head, r, Swapped(r, k));
    DistinctSame([head] + Swapped(r, k), [head] + r);
  }

  lemma {:induction false} MultisetCons<T>(x: T, a: seq<T>, b: seq<T>)
    requires multiset(a) == multiset(b)
    ensures multiset([x] + a) == multiset([x] + b)
  {
  }

  /** What a pass knows about the first k + 1 of m elements. */
  ghost predicate Passed(cmp: Cmp, r: seq<ListNode>, k: nat, m: nat, swapped: bool) {
    r != [] ==> k < |r| && k + 1 <= m <= |r| && Settled(cmp, r, m) && Max(cmp, r, k) && (!swapped ==> Sorted(cmp, r[..k + 1]))
  }

  lemma {:induction false} PassedStep(cmp: Cmp, head: ListNode, s: seq<ListNode>, r: seq<ListNode>, k: nat, m: nat, swapped: bool)
    requires Preorder(cmp, s) && Bubbling(cmp, head, s, r) && Passed(cmp, r, k, m, swapped) && k + 1 < m && r != []
    ensures var swap := !Le(cmp, r[k], r[k + 1]);
      Passed(cmp, if swap then Swapped(r, k) else r, k + 1, m, swapped || swap)
  {
    hide Good; hide Preorder; hide Sorted;
    RestWithin(cmp, s, r);
    MaxStep(cmp, r, k, s);
    if !Le(cmp, r[k], r[k + 1]) {
      SettledSwap(cmp, r, k, m);
    }
  }

  /** Visit, and what it does for the pass. */
  method PassStep(cmp: Cmp, head: ListNode, prev: ListNode, walk: ListNode, swapped: bool,
                  ghost s: seq<ListNode>, ghost r: seq<ListNode>, ghost k: nat, ghost m: nat)
    returns (ghost r': seq<ListNode>, prev': ListNode, swapped': bool)
    requires Bubbling(cmp, head, s, r) && At(head, r, k, prev, walk) && walk != head
    modifies head, s
    ensures Bubbling(cmp, head, s, r') && |r'| == |r| && k + 1 < |r| && At(head, r', k + 1, prev', old(walk.next))
    ensures swapped ==> swapped'
    ensures Preorder(cmp, s) && Passed(cmp, r, k, m, swapped) && k + 1 < m ==> Passed(cmp, r', k + 1, m, swapped')
  {
    hide Bubbling; hide At; hide Passed; hide Preorder; hide Swapped; hide Le;
    if Preorder(cmp, s) && Passed(cmp, r, k, m, swapped) && k + 1 < m && r != [] {
      PassedStep(cmp, head, s, r, k, m, swapped);
    }
    var swap;
    r', prev', swap := Visit(cmp, head, prev, walk, s, r, k);
    swapped' := swapped || swap;
  }

  /** One pass.  The first one counts the nodes; a later one stops in front of the nodes known to be in place. */
  method Pass(cmp: Cmp, head: ListNode, record: bool, number0: nat, ghost s: seq<ListNode>, ghost r0: seq<ListNode>)
    returns (ghost r: seq<ListNode>, swapped: bool, number: nat)
    requires Bubbling(cmp, head, s, r0) && number0 < WORD && (record ==> number0 == 1)
    requires Preorder(cmp, s) && |s| <= WORD && !record ==> 1 <= number0 <= |r0| && Settled(cmp, r0, number0)
    modifies head, s
    ensures Bubbling(cmp, head, s, r) && number < WORD
    ensures !record ==> number == number0 && (swapped ==> number >= 2)
    ensures Preorder(cmp, s) && |s| <= WORD ==>
      if swapped then (var m := Dec(number); 1 <= m <= |r| && Settled(cmp, r, m)) else Sorted(cmp, r)
  {
    hide Good; hide Distinct; hide Both; hide Ring; hide Swapped; hide Settled; hide Sorted; hide Max; hide Preorder; hide Le;
    hide At; hide Passed; hide Bubbling; hide Inc; hide Dec; hide Wrap;
    WrapOne();
    ghost var sane := Preorder(cmp, s) && |s| <= WORD;
    r, swapped, number := r0, false, number0;
    var count := 1;
    BubblingSize(cmp, head, s, r);
    FirstAt(cmp, head, s, r);
    var prev: ListNode := head.next;
    var walk: ListNode := prev.next;
    ghost var k: nat, m: nat := 0, if record then |r0| else number0;
    if sane {
      PassStart(cmp, r, m, record);
    }
    while walk != head
      invariant Bubbling(cmp, head, s, r) && |r| == |r0| == |s| && At(head, r, k, prev, walk)
      invariant record ==> number == Wrap(k + 1)
      invariant !record ==> number == number0 && count == k + 1 && (swapped ==> number >= 2)
      invariant sane ==> Passed(cmp, r, k, m, swapped)
      invariant swapped ==> k >= 1 && r != []
      decreases |r| - k
    {
      NextAt(cmp, head, s, r, k, prev, walk);
      var tmp: ListNode := walk.next;
      if record {
        IncWrap(k + 1);
        number := Inc(number);
      } else {
        count := count + 1;
        if count - 1 >= number {
          break;
        }
      }
      r, prev, swapped := PassStep(cmp, head, prev, walk, swapped, s, r, k, m);
      k := k + 1;
      walk := tmp;
    }
    NextAt(cmp, head, s, r, k, prev, walk);
    SmallMod(k + 1);
    if sane {
      PassedBounds(cmp, r, k, m, swapped);
      PassEnd(cmp, r, k, m, swapped, number);
    }
  }

  /** Every node leads to the next one, the last one to the head. */
  lemma {:induction false} RingNext(head: ListNode, r: seq<ListNode>, i: nat)
    requires Ring([head] + r) && Distinct([head] + r)
    ensures head.next == if r == [] then head else r[0]
    ensures i < |r| ==> r[i].next == (if i + 1 < |r| then r[i + 1] else head) && r[i] != head
  {
    var c := [head] + r;
    if i < |r| {
      assert c[i + 1] == r[i] && c[0] == head;
      assert i + 1 < |r| ==> c[i + 2] == r[i + 1] && c[i + 1].next == c[i + 2];
    }
    assert r != [] ==> c[0].next == c[1];
  }

  lemma {:induction false} BubblingSize(cmp: Cmp, head: ListNode, s: seq<ListNode>, r: seq<ListNode>)
    requires Bubbling(cmp, head, s, r)
    ensures |r| == |s|
  {
    RestWithin(cmp, s, r);
  }

  lemma {:induction false} FirstAt(cmp: Cmp, head: ListNode, s: seq<ListNode>, r: seq<ListNode>)
    requires Bubbling(cmp, head, s, r)
    ensures head.next != null && head.next.next != null && At(head, r, 0, head.next, head.next.next)
  {
    RingNext(head, r, 0);
  }

  /** A walk that is not back at the head stands on element k + 1; the tmp pointer of the loop is its successor. */
  lemma {:induction false} NextAt(cmp: Cmp, head: ListNode, s: seq<ListNode>, r: seq<ListNode>, k: nat, prev: ListNode?, walk: ListNode)
    requires Bubbling(cmp, head, s, r) && At(head, r, k, prev, walk)
    ensures walk != head <==> k + 1 < |r|
    ensures walk.next == (if k + 2 < |r| then r[k + 2] else if r == [] || walk != head then head else r[0])
  {
    RingNext(head, r, k + 1);
  }

  lemma {:induction false} PassStart(cmp: Cmp, r: seq<ListNode>, m: nat, record: bool)
    requires if record then m == |r| else (1 <= m <= |r| && Settled(cmp, r, m))
    ensures Passed(cmp, r, 0, m, false)
  {
  }

  lemma {:induction false} PassedBounds(cmp: Cmp, r: seq<ListNode>, k: nat, m: nat, swapped: bool)
    requires Passed(cmp, r, k, m, swapped)
    ensures r != [] ==> k + 1 <= m <= |r|
  {
  }

  /** ++ on an unsigned int. */
  function Inc(x: nat): (y: nat)
    ensures y < WORD
  {
    (x + 1) % WORD
  }

  /** -- on an unsigned int. */
  function Dec(x: nat): (y: nat)
    ensures y < WORD
  {
    (x + WORD - 1) % WORD
  }

  /** What counting n times leaves in an unsigned int. */
  ghost function Wrap(n: nat): (x: nat)
    ensures x < WORD
  {
    n % WORD
  }

  lemma {:induction false} IncWrap(n: nat)
    ensures Inc(Wrap(n)) == Wrap(n + 1)
  {
  }

  lemma {:induction false} WrapOne()
    ensures Wrap(1) == 1
  {
  }

  lemma {:induction false} SmallMod(x: nat)
    ensures x <= WORD ==> Wrap(x) == if x == WORD then 0 else x
  {
  }

  lemma {:induction false} PassEnd(cmp: Cmp, r: seq<ListNode>, k: nat, m: nat, swapped: bool, number: nat)
    requires Passed(cmp, r, k, m, swapped) && (r != [] ==> k + 1 == m) && |r| <= WORD
    requires swapped ==> k >= 1 && r != [] && number == if m == WORD then 0 else m
    ensures swapped ==> var m' := Dec(number); 1 <= m' <= |r| && Settled(cmp, r, m')
    ensures !swapped ==> Sorted(cmp, r)
  {
    if swapped {
      assert Dec(number) == m - 1;
    }
    if r != [] {
      PassDone(cmp, r, k, m);
    }
  }

  /** list_bsort: bubble sort, each pass one node shorter than the last.  The number of nodes is counted in 32
      bits, so beyond 2^32 nodes only the permutation is left of the promise. */
  method ListBsort(head: ListNode, cmp: Cmp, ghost s: seq<ListNode>) returns (ghost r: seq<ListNode>)
    requires Ring([head] + s) && Distinct([head] + s)
    modifies head, s
    ensures Ring([head] + r) && multiset(r) == multiset(s)
    ensures Preorder(cmp, s) && |s| <= WORD ==> r == StableSort(cmp, s)
  {
    hide Good; hide Distinct; hide Settled; hide Sorted; hide Preorder; hide StableSort; hide Ring;
    r := s;
    var record, swapped, number: nat := true, true, 1;
    GoodStart(cmp, s);
    while swapped
      invariant Bubbling(cmp, head, s, r)
      invariant number < WORD && (record ==> number == 1 && swapped)
      invariant Preorder(cmp, s) && |s| <= WORD ==>
        (!record && swapped ==> 1 <= number <= |r| && Settled(cmp, r, number)) && (!swapped ==> Sorted(cmp, r))
      decreases if record then 2 else if swapped then 1 else 0, number
    {
      r, swapped, number := Pass(cmp, head, record, number, s, r);
      record := false;
      number := Dec(number);
    }
    BubbleDone(cmp, s, r);
  }
}
