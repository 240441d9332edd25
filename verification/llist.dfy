/** The lock-free list of lib/llist.c and include/llist.h as a step machine: any number of producers in llist_split
    and one consumer in llist_del or llist_destroy, every access to shared memory a step of its own.  Whatever the
    interleaving, the results are those of a stack on which whole batches are pushed in one step. */
module LList {

  datatype Option<T> = None | Some(value: T)

  /** Nodes are numbers, 0 is NULL. */
  type Node = nat

  /** Where a producer stands: about to read the head, about to write end->next, about to swing the head. */
  datatype Producer =
    | Fresh(batch: seq<Node>)
    | Read(batch: seq<Node>, first: Node)
    | Linked(batch: seq<Node>, first: Node)

  /** Where the consumer stands in llist_del. */
  datatype Consumer = Rest | Holding(entry: Node) | Looking(entry: Node, next: Node)

  /** The shared memory, and which nodes belong to nobody's push: free nodes may be written and pushed again. */
  datatype State = State(head: Node, next: map<Node, Node>, producers: map<nat, Producer>, consumer: Consumer, free: set<Node>)

  datatype Action =
    | Scribble(node: Node, link: Node)
    | Start(p: nat, batch: seq<Node>)
    | Load(p: nat)
    | Store(p: nat)
    | Swing(p: nat)
    | Take
    | Peek
    | Pull
    | Drain(nodes: seq<Node>)

  /** What a step returns to its caller, if it ends a call. */
  datatype Event =
    | Quiet
    | Pushed(batch: seq<Node>, wasEmpty: bool)
    | Popped(node: Node)
    | Drained(nodes: seq<Node>)

  predicate Distinct(s: seq<Node>) {
    forall i, j :: 0 <= i < j < |s| ==> s[i] != s[j]
  }

  /** The links lead from each node to the next. */
  predicate Path(next: map<Node, Node>, s: seq<Node>) {
    forall i :: 0 <= i < |s| - 1 ==> s[i] in next && next[s[i]] == s[i + 1]
  }

  /** The list that starts at head is s. */
  predicate Chain(next: map<Node, Node>, head: Node, s: seq<Node>) {
    && head == (if s == [] then 0 else s[0])
    && Path(next, s)
    && (s != [] ==> s[|s| - 1] in next && next[s[|s| - 1]] == 0)
  }

  predicate Enabled(s: State, a: Action) {
    match a
    case Scribble(n, _) => n in s.free
    case Start(p, batch) =>
      p !in s.producers && batch != [] && Distinct(batch) && (forall n <- batch :: n in s.free) && Path(s.next, batch)
    case Load(p) => p in s.producers && s.producers[p].Fresh? && s.producers[p].batch != []
    case Store(p) => p in s.producers && s.producers[p].Read? && s.producers[p].batch != []
    case Swing(p) => p in s.producers && s.producers[p].Linked? && s.producers[p].batch != []
    case Take => s.consumer.Rest?
    case Peek => s.consumer.Holding? && s.consumer.entry in s.next
    case Pull => s.consumer.Looking?
    case Drain(nodes) => s.consumer.Rest? && Chain(s.next, s.head, nodes)
  }

  function Next(s: State, a: Action): State
    requires Enabled(s, a)
  {
    match a
    case Scribble(n, link) => s.(next := s.next[n := link])
    case Start(p, batch) => s.(producers := s.producers[p := Fresh(batch)], free := s.free - (set n <- batch))
    case Load(p) => s.(producers := s.producers[p := Read(s.producers[p].batch, s.head)])
    case Store(p) =>
      var Read(batch, first) := s.producers[p];
      s.(next := s.next[batch[|batch| - 1] := first], producers := s.producers[p := Linked(batch, first)])
    case Swing(p) =>
      var Linked(batch, first) := s.producers[p];
      if s.head == first then s.(head := batch[0], producers := s.producers - {p})
      else s.(producers := s.producers[p := Fresh(batch)])
    case Take => if s.head == 0 then s else s.(consumer := Holding(s.head))
    case Peek => s.(consumer := Looking(s.consumer.entry, s.next[s.consumer.entry]))
    case Pull =>
      var Looking(entry, next) := s.consumer;
      if s.head == entry then s.(head := next, consumer := Rest, free := s.free + {entry})
      else if s.head == 0 then s.(consumer := Rest)
      else s.(consumer := Holding(s.head))
    case Drain(nodes) => s.(head := 0, free := s.free + (set n <- nodes))
  }

  function Emit(s: State, a: Action): Event
    requires Enabled(s, a)
  {
    match a
    case Swing(p) =>
      if s.head == s.producers[p].first then Pushed(s.producers[p].batch, s.producers[p].first == 0) else Quiet
    case Take => if s.head == 0 then Popped(0) else Quiet
    case Pull =>
      if s.head == s.consumer.entry then Popped(s.consumer.entry) else if s.head == 0 then Popped(0) else Quiet
    case Drain(nodes) => Drained(nodes)
    case _ => Quiet
  }

  // ----- the stack the list stands for -----

  /** A stack takes the event, or the event is none that a stack would show. */
  ghost function Apply(stack: seq<Node>, e: Event): Option<seq<Node>> {
    match e
    case Quiet => Some(stack)
    case Pushed(batch, wasEmpty) => if wasEmpty == (stack == []) then Some(batch + stack) else None
    case Popped(n) =>
      if stack == [] then (if n == 0 then Some([]) else None)
      else if n == stack[0] then Some(stack[1..]) else None
    case Drained(nodes) => if nodes == stack then Some([]) else None
  }

  ghost function Replay(events: seq<Event>): Option<seq<Node>> {
    if events == [] then Some([])
    else
      var last := |events| - 1;
      match Replay(events[..last])
      case None => None
      case Some(stack) => Apply(stack, events[last])
  }

  ghost predicate Apart(s: seq<Node>, t: seq<Node>) {
    forall n <- s :: n !in t
  }

  ghost predicate ProducerOK(next: map<Node, Node>, stack: seq<Node>, free: set<Node>, t: Producer) {
    && t.batch != [] && Distinct(t.batch) && Path(next, t.batch)
    && (forall n <- t.batch :: n != 0 && n in next && n !in free && n !in stack)
    && (t.Linked? ==> next[t.batch[|t.batch| - 1]] == t.first)
  }

  ghost predicate Owned(s: State, stack: seq<Node>, n: Node) {
    n in stack || n in s.free || exists p :: p in s.producers && n in s.producers[p].batch
  }

  ghost predicate FreeOK(next: map<Node, Node>, stack: seq<Node>, free: set<Node>) {
    && (forall n <- stack :: n != 0 && n !in free)
    && (forall n <- free :: n != 0 && n in next)
  }

  ghost predicate ProducersOK(next: map<Node, Node>, stack: seq<Node>, free: set<Node>, producers: map<nat, Producer>) {
    forall p <- producers :: ProducerOK(next, stack, free, producers[p])
  }

  ghost predicate AllApart(producers: map<nat, Producer>) {
    forall p <- producers, q <- producers :: p != q ==> Apart(producers[p].batch, producers[q].batch)
  }

  ghost predicate AllOwned(s: State, stack: seq<Node>) {
    forall n <- s.next :: Owned(s, stack, n)
  }

  ghost predicate ConsumerOK(next: map<Node, Node>, stack: seq<Node>, consumer: Consumer) {
    match consumer
    case Rest => true
    case Holding(entry) => entry in stack && entry in next
    case Looking(entry, link) => entry in stack && entry in next && next[entry] == link
  }

  /** The list is the stack; every node is on it, in one producer's hands, or free; and what the producers and the
      consumer remember is still so. */
  ghost predicate Inv(s: State, stack: seq<Node>) {
    && Chain(s.next, s.head, stack) && Distinct(stack)
    && FreeOK(s.next, stack, s.free)
    && ProducersOK(s.next, stack, s.free, s.producers) && AllApart(s.producers)
    && AllOwned(s, stack)
    && ConsumerOK(s.next, stack, s.consumer)
  }

  ghost predicate Init(s: State) {
    s.head == 0 && s.producers == map[] && s.consumer == Rest && s.free == s.next.Keys && 0 !in s.free
  }

  ghost predicate Kept(s: State, a: Action, stack: seq<Node>)
    requires Enabled(s, a)
  {
    Apply(stack, Emit(s, a)).Some? && Inv(Next(s, a), Apply(stack, Emit(s, a)).value)
  }

  /** Every step shows the stack an event that it takes, and leaves the list that the stack then is. */
  lemma {:induction false} StepKeeps(s: State, a: Action, stack: seq<Node>)
    requires Inv(s, stack) && Enabled(s, a)
    ensures Kept(s, a, stack)
  {
    hide Inv; hide Kept;
    match a {
      case Scribble(n, link) => ScribbleKeeps(s, a, stack, n, link);
      case Start(p, batch) => StartKeeps(s, a, stack, p, batch);
      case Load(p) => LoadKeeps(s, a, stack, p);
      case Store(p) => StoreKeeps(s, a, stack, p);
      case Swing(p) => SwingKeeps(s, a, stack, p);
      case Take => TakeKeeps(s, a, stack);
      case Peek => PeekKeeps(s, a, stack);
      case Pull => PullKeeps(s, a, stack);
      case Drain(nodes) => DrainKeeps(s, a, stack, nodes);
    }
  }

  // ----- a link is written in a node that is not on the list -----

  lemma {:induction false} ChainSame(next: map<Node, Node>, head: Node, s: seq<Node>, n: Node, link: Node)
    requires Chain(next, head, s) && n !in s
    ensures Chain(next[n := link], head, s)
  {
  }

  lemma {:induction false} ProducerSame(next: map<Node, Node>, stack: seq<Node>, free: set<Node>, t: Producer, n: Node, link: Node)
    requires ProducerOK(next, stack, free, t) && n !in t.batch
    ensures ProducerOK(next[n := link], stack, free, t)
  {
  }

  lemma {:induction false} ScribbleKeeps(s: State, a: Action, stack: seq<Node>, n: Node, link: Node)
    requires Inv(s, stack) && Enabled(s, a) && a == Scribble(n, link)
    ensures Kept(s, a, stack)
  {
    hide Chain; hide ProducerOK; hide Distinct; hide Apart; hide Owned;
    var s' := Next(s, a);
    ChainSame(s.next, s.head, stack, n, link);
    forall p | p in s.producers ensures ProducerOK(s'.next, stack, s.free, s.producers[p]) {
      FreeApart(s.next, stack, s.free, s.producers[p], n);
      ProducerSame(s.next, stack, s.free, s.producers[p], n, link);
    }
    forall m | m in s'.next ensures Owned(s', stack, m) {
      OwnedSame(s, s', stack, m);
    }
  }

  lemma {:induction false} FreeApart(next: map<Node, Node>, stack: seq<Node>, free: set<Node>, t: Producer, n: Node)
    requires ProducerOK(next, stack, free, t) && n in free
    ensures n !in t.batch
  {
  }

  /** Batches and the free set stay the same. */
  lemma {:induction false} OwnedSame(s: State, s': State, stack: seq<Node>, n: Node)
    requires Owned(s, stack, n) && s'.free == s.free && s'.producers.Keys == s.producers.Keys
    requires forall p <- s.producers :: s'.producers[p].batch == s.producers[p].batch
    ensures Owned(s', stack, n)
  {
  }

  lemma {:induction false} StartKeeps(s: State, a: Action, stack: seq<Node>, p: nat, batch: seq<Node>)
    requires Inv(s, stack) && Enabled(s, a) && a == Start(p, batch)
    ensures Kept(s, a, stack)
  {
    hide Chain; hide Distinct; hide Path;
    var s' := Next(s, a);
    assert ProducerOK(s.next, stack, s'.free, Fresh(batch));
    forall q | q in s.producers ensures ProducerOK(s.next, stack, s'.free, s.producers[q]) {
    }
    forall n | n in s.next ensures Owned(s', stack, n) {
      assert Owned(s, stack, n);
      if n in batch {
        assert s'.producers[p].batch == batch;
      } else if n !in stack && n !in s.free {
        var q :| q in s.producers && n in s.producers[q].batch;
        assert q in s'.producers && s'.producers[q] == s.producers[q];
      }
    }
    forall q | q in s.producers ensures Apart(batch, s.producers[q].batch) && Apart(s.producers[q].batch, batch) {
      assert ProducerOK(s.next, stack, s.free, s.producers[q]);
    }
  }

  lemma {:induction false} LoadKeeps(s: State, a: Action, stack: seq<Node>, p: nat)
    requires Inv(s, stack) && Enabled(s, a) && a == Load(p)
    ensures Kept(s, a, stack)
  {
    var s' := Next(s, a);
    ProducerMoves(s, s', stack, p);
    hide Chain; hide Distinct; hide Path; hide AllOwned; hide AllApart; hide ProducersOK;
  }

  /** A producer takes a step that leaves its batch as it is. */
  lemma {:induction false} ProducerMoves(s: State, s': State, stack: seq<Node>, p: nat)
    requires ProducersOK(s.next, stack, s.free, s.producers) && AllApart(s.producers) && AllOwned(s, stack)
    requires p in s.producers && s'.producers.Keys == s.producers.Keys
    requires s'.producers == s.producers[p := s'.producers[p]] && s'.producers[p].batch == s.producers[p].batch
    requires s'.free == s.free && s'.next.Keys == s.next.Keys
    requires ProducerOK(s'.next, stack, s.free, s'.producers[p])
    requires forall n <- s.next :: n !in s.producers[p].batch ==> s'.next[n] == s.next[n]
    ensures ProducersOK(s'.next, stack, s.free, s'.producers) && AllApart(s'.producers) && AllOwned(s', stack)
  {
    forall q | q in s.producers ensures ProducerOK(s'.next, stack, s.free, s'.producers[q]) {
      if q != p {
        BatchSame(s.next, s'.next, stack, s.free, s.producers[q], s.producers[p].batch);
      }
    }
    hide ProducerOK; hide Apart; hide Owned;
    forall m | m in s'.next ensures Owned(s', stack, m) {
      OwnedSame(s, s', stack, m);
    }
  }

  lemma {:induction false} BatchSame(next: map<Node, Node>, next': map<Node, Node>, stack: seq<Node>, free: set<Node>, t: Producer, batch: seq<Node>)
    requires ProducerOK(next, stack, free, t) && Apart(t.batch, batch) && next'.Keys == next.Keys
    requires forall n <- next :: n !in batch ==> next'[n] == next[n]
    ensures ProducerOK(next', stack, free, t)
  {
    assert forall i :: 0 <= i < |t.batch| ==> t.batch[i] in t.batch;
  }

  lemma {:induction false} StoreKeeps(s: State, a: Action, stack: seq<Node>, p: nat)
    requires Inv(s, stack) && Enabled(s, a) && a == Store(p)
    ensures Kept(s, a, stack)
  {
    hide Chain; hide Distinct; hide AllOwned; hide AllApart; hide ProducersOK; hide ProducerOK; hide Path;
    var s' := Next(s, a);
    var t := s.producers[p];
    var end := t.batch[|t.batch| - 1];
    ProducerAt(s, stack, p);
    StoredOK(s.next, stack, s.free, t, t.first);
    ChainSame(s.next, s.head, stack, end, t.first);
    ProducerMoves(s, s', stack, p);
    assert ConsumerOK(s'.next, stack, s.consumer);
    assert FreeOK(s'.next, stack, s'.free);
  }

  lemma {:induction false} ProducerAt(s: State, stack: seq<Node>, p: nat)
    requires ProducersOK(s.next, stack, s.free, s.producers) && p in s.producers
    ensures ProducerOK(s.next, stack, s.free, s.producers[p])
  {
  }

  lemma {:induction false} StoredOK(next: map<Node, Node>, stack: seq<Node>, free: set<Node>, t: Producer, first: Node)
    requires ProducerOK(next, stack, free, t) && t.batch != []
    ensures ProducerOK(next[t.batch[|t.batch| - 1] := first], stack, free, Linked(t.batch, first))
    ensures t.batch[|t.batch| - 1] in t.batch && t.batch[|t.batch| - 1] !in stack && t.batch[|t.batch| - 1] in next
  {
  }

  lemma {:induction false} SwingKeeps(s: State, a: Action, stack: seq<Node>, p: nat)
    requires Inv(s, stack) && Enabled(s, a) && a == Swing(p)
    ensures Kept(s, a, stack)
  {
    hide Chain; hide Distinct; hide AllOwned; hide AllApart; hide ProducersOK; hide Path; hide ProducerOK;
    var s' := Next(s, a);
    var t := s.producers[p];
    ProducerAt(s, stack, p);
    if s.head == t.first {
      HeadIn(s, stack);
      PushChain(s.next, s.head, stack, s.free, t);
      PushRest(s, s', stack, p);
      assert Emit(s, a) == Pushed(t.batch, t.first == 0);
      assert ConsumerOK(s'.next, t.batch + stack, s.consumer);
    } else {
      FreshOK(s.next, stack, s.free, t);
      ProducerMoves(s, s', stack, p);
    }
  }

  lemma {:induction false} FreshOK(next: map<Node, Node>, stack: seq<Node>, free: set<Node>, t: Producer)
    requires ProducerOK(next, stack, free, t)
    ensures ProducerOK(next, stack, free, Fresh(t.batch))
  {
  }

  lemma {:induction false} PushChain(next: map<Node, Node>, head: Node, stack: seq<Node>, free: set<Node>, t: Producer)
    requires Chain(next, head, stack) && Distinct(stack) && ProducerOK(next, stack, free, t)
    requires t.Linked? && t.first == head
    ensures Chain(next, t.batch[0], t.batch + stack) && Distinct(t.batch + stack)
  {
    var all := t.batch + stack;
    forall i | 0 <= i < |all| - 1 ensures all[i] in next && next[all[i]] == all[i + 1] {
      if i < |t.batch| {
        assert t.batch[i] in t.batch;
      }
    }
    forall i, j | 0 <= i < j < |all| ensures all[i] != all[j] {
      if i < |t.batch| <= j {
        assert t.batch[i] in t.batch && stack[j - |t.batch|] in stack;
      }
    }
    assert t.batch[|t.batch| - 1] in t.batch;
  }

  lemma {:induction false} PushRest(s: State, s': State, stack: seq<Node>, p: nat)
    requires FreeOK(s.next, stack, s.free) && ProducersOK(s.next, stack, s.free, s.producers)
    requires AllApart(s.producers) && AllOwned(s, stack) && p in s.producers
    requires s' == s.(head := s'.head, producers := s.producers - {p})
    ensures var stack' := s.producers[p].batch + stack;
            && FreeOK(s'.next, stack', s'.free) && ProducersOK(s'.next, stack', s'.free, s'.producers)
            && AllApart(s'.producers) && AllOwned(s', stack')
  {
    hide Distinct; hide Path;
    var stack' := s.producers[p].batch + stack;
    assert ProducerOK(s.next, stack, s.free, s.producers[p]);
    forall q | q in s'.producers ensures ProducerOK(s.next, stack', s.free, s.producers[q]) {
      assert ProducerOK(s.next, stack, s.free, s.producers[q]);
      assert Apart(s.producers[q].batch, s.producers[p].batch);
    }
    forall n | n in s.next ensures Owned(s', stack', n) {
      assert Owned(s, stack, n);
      if n !in stack' && n !in s.free {
        var q :| q in s.producers && n in s.producers[q].batch;
        assert q in s'.producers && s'.producers[q] == s.producers[q];
      }
    }
  }

  lemma {:induction false} TakeKeeps(s: State, a: Action, stack: seq<Node>)
    requires Inv(s, stack) && Enabled(s, a) && a.Take?
    ensures Kept(s, a, stack)
  {
    hide Distinct; hide AllApart; hide ProducersOK;
    HeadIn(s, stack);
    forall n | n in s.next ensures Owned(Next(s, a), stack, n) {
      OwnedSame(s, Next(s, a), stack, n);
    }
  }

  lemma {:induction false} HeadIn(s: State, stack: seq<Node>)
    requires Inv(s, stack)
    ensures s.head == 0 <==> stack == []
    ensures s.head != 0 ==> s.head == stack[0] && s.head in stack && s.head in s.next
  {
    hide ProducersOK; hide AllApart; hide AllOwned;
    if stack != [] {
      assert stack[0] in stack;
      if |stack| > 1 {
        assert Path(s.next, stack) && stack[0] in s.next;
      }
    }
  }

  lemma {:induction false} PeekKeeps(s: State, a: Action, stack: seq<Node>)
    requires Inv(s, stack) && Enabled(s, a) && a.Peek?
    ensures Kept(s, a, stack)
  {
    hide Distinct; hide AllApart; hide ProducersOK; hide Chain;
    forall n | n in s.next ensures Owned(Next(s, a), stack, n) {
      OwnedSame(s, Next(s, a), stack, n);
    }
  }

  lemma {:induction false} PullKeeps(s: State, a: Action, stack: seq<Node>)
    requires Inv(s, stack) && Enabled(s, a) && a.Pull?
    ensures Kept(s, a, stack)
  {
    var s' := Next(s, a);
    HeadIn(s, stack);
    if s.head == s.consumer.entry {
      PopChain(s.next, stack);
      PopRest(s, s', stack, stack[1..]);
      assert stack == [stack[0]] + stack[1..];
      hide Chain; hide Distinct; hide Path; hide AllOwned; hide AllApart; hide ProducersOK;
    } else {
      forall n | n in s.next ensures Owned(s', stack, n) {
        OwnedSame(s, s', stack, n);
      }
      hide Chain; hide Distinct; hide Path; hide Owned; hide AllApart; hide ProducersOK;
    }
  }

  lemma {:induction false} PopChain(next: map<Node, Node>, stack: seq<Node>)
    requires stack != [] && Chain(next, stack[0], stack) && Distinct(stack)
    ensures stack[0] in next && Chain(next, next[stack[0]], stack[1..]) && Distinct(stack[1..])
    ensures stack[0] !in stack[1..]
  {
    if |stack| > 1 {
      assert stack[0] in next && next[stack[0]] == stack[1];
    }
  }

  /** The nodes at the front of the stack are freed. */
  lemma {:induction false} PopRest(s: State, s': State, stack: seq<Node>, stack': seq<Node>)
    requires FreeOK(s.next, stack, s.free) && ProducersOK(s.next, stack, s.free, s.producers) && AllOwned(s, stack)
    requires s' == s.(head := s'.head, consumer := s'.consumer, free := s'.free)
    requires forall n <- stack' :: n in stack && n !in s'.free
    requires forall n <- stack :: n in s.next
    requires forall n :: n in s'.free <==> n in s.free || (n in stack && n !in stack')
    ensures FreeOK(s'.next, stack', s'.free) && ProducersOK(s'.next, stack', s'.free, s'.producers) && AllOwned(s', stack')
  {
    hide Distinct; hide Path;
    forall q | q in s.producers ensures ProducerOK(s.next, stack', s'.free, s.producers[q]) {
      assert ProducerOK(s.next, stack, s.free, s.producers[q]);
    }
    forall n | n in s.next ensures Owned(s', stack', n) {
      assert Owned(s, stack, n);
      if n !in stack && n !in s.free {
        var q :| q in s.producers && n in s.producers[q].batch;
        assert q in s'.producers && s'.producers[q] == s.producers[q];
      }
    }
  }

  lemma {:induction false} DrainKeeps(s: State, a: Action, stack: seq<Node>, nodes: seq<Node>)
    requires Inv(s, stack) && Enabled(s, a) && a == Drain(nodes)
    ensures Kept(s, a, stack)
  {
    var s' := Next(s, a);
    NullNowhere(s, stack);
    OneChain(s.next, s.head, nodes, stack);
    PopRest(s, s', stack, []);
    hide Distinct; hide Path; hide AllOwned; hide AllApart; hide ProducersOK;
  }

  lemma {:induction false} NullNowhere(s: State, stack: seq<Node>)
    requires Inv(s, stack)
    ensures 0 !in s.next
  {
    hide Chain; hide Distinct; hide Path; hide AllApart;
    forall p | p in s.producers ensures 0 !in s.producers[p].batch {
      assert ProducerOK(s.next, stack, s.free, s.producers[p]);
    }
    assert !Owned(s, stack, 0);
  }

  /** The links determine the list. */
  lemma {:induction false} OneChain(next: map<Node, Node>, head: Node, s: seq<Node>, t: seq<Node>)
    requires Chain(next, head, s) && Chain(next, head, t) && 0 !in next
    ensures s == t
  {
    hide Chain;
    ChainNodes(next, head, s);
    ChainNodes(next, head, t);
    OneFront(next, head, s, t, if |s| < |t| then |s| else |t|);
    if |s| < |t| {
      EndsAt(next, head, s, t);
      assert false;
    } else if |t| < |s| {
      EndsAt(next, head, t, s);
      assert false;
    }
  }

  lemma {:induction false} ChainNodes(next: map<Node, Node>, head: Node, s: seq<Node>)
    requires Chain(next, head, s) && 0 !in next
    ensures forall i :: 0 <= i < |s| ==> s[i] != 0
  {
    forall i | 0 <= i < |s| ensures s[i] in next {
    }
  }

  lemma {:induction false} EndsAt(next: map<Node, Node>, head: Node, s: seq<Node>, t: seq<Node>)
    requires Chain(next, head, s) && Chain(next, head, t) && |s| < |t| && t[..|s|] == s
    ensures t[|s|] == 0
  {
    if s != [] {
      assert t[|s| - 1] == t[..|s|][|s| - 1] == s[|s| - 1];
    }
  }

  lemma {:induction false} OneFront(next: map<Node, Node>, head: Node, s: seq<Node>, t: seq<Node>, k: nat)
    requires Chain(next, head, s) && Chain(next, head, t) && k <= |s| && k <= |t|
    ensures s[..k] == t[..k]
  {
    if k > 0 {
      OneFront(next, head, s, t, k - 1);
      if k > 1 {
        assert s[k - 2] == s[..k - 1][k - 2] == t[..k - 1][k - 2] == t[k - 2];
      } else {
        assert s != [] && t != [];
      }
      assert s[k - 1] == t[k - 1];
      assert s[..k] == s[..k - 1] + [s[k - 1]] && t[..k] == t[..k - 1] + [t[k - 1]];
    }
  }

  // ----- runs -----

  /** A run of the machine: states, and the steps between them. */
  ghost predicate Run(states: seq<State>, actions: seq<Action>) {
    && |states| == |actions| + 1
    && Init(states[0])
    && forall i {:trigger actions[i]} :: 0 <= i < |actions| ==>
         Enabled(states[i], actions[i]) && states[i + 1] == Next(states[i], actions[i])
  }

  ghost function Events(states: seq<State>, actions: seq<Action>): (events: seq<Event>)
    requires Run(states, actions)
    ensures |events| == |actions|
  {
    seq(|actions|, i requires 0 <= i < |actions| => Emit(states[i], actions[i]))
  }

  /** Over every run the calls return what a stack would have returned, had each call taken effect in one step, and
      the list in memory is that stack. */
  lemma {:induction false} Atomic(states: seq<State>, actions: seq<Action>)
    requires Run(states, actions)
    ensures Replay(Events(states, actions)).Some?
    ensures Inv(states[|actions|], Replay(Events(states, actions)).value)
  {
    hide Inv; hide Init; hide Enabled; hide Next; hide Emit; hide Apply;
    var events := Events(states, actions);
    if actions == [] {
      InitInv(states[0]);
    } else {
      var last := |actions| - 1;
      var before := states[..last + 1];
      assert before[0] == states[0];
      assert Run(before, actions[..last]);
      Atomic(before, actions[..last]);
      assert events[..last] == Events(before, actions[..last]);
      StepKeeps(states[last], actions[last], Replay(events[..last]).value);
    }
  }

  lemma {:induction false} InitInv(s: State)
    requires Init(s)
    ensures Inv(s, [])
  {
  }

  /** Nodes that an event puts on the stack, and nodes that it delivers. */
  ghost function In(e: Event): multiset<Node> {
    match e
    case Pushed(batch, _) => multiset(batch)
    case _ => multiset{}
  }

  ghost function Out(e: Event): multiset<Node> {
    match e
    case Popped(n) => if n == 0 then multiset{} else multiset{n}
    case Drained(nodes) => multiset(nodes)
    case _ => multiset{}
  }

  ghost function AllIn(events: seq<Event>): multiset<Node> {
    if events == [] then multiset{} else AllIn(events[..|events| - 1]) + In(events[|events| - 1])
  }

  ghost function AllOut(events: seq<Event>): multiset<Node> {
    if events == [] then multiset{} else AllOut(events[..|events| - 1]) + Out(events[|events| - 1])
  }

  ghost function TrueResults(events: seq<Event>): nat {
    if events == [] then 0
    else
      var e := events[|events| - 1];
      TrueResults(events[..|events| - 1]) + if e.Pushed? && e.wasEmpty then 1 else 0
  }

  /** How often the stack left off being empty. */
  ghost function Fillings(events: seq<Event>): nat
    requires Replay(events).Some?
  {
    if events == [] then 0
    else
      var before := events[..|events| - 1];
      Fillings(before) + if Replay(before).value == [] && Replay(events).value != [] then 1 else 0
  }

  ghost predicate ProperBatch(e: Event) {
    e.Pushed? ==> e.batch != [] && 0 !in e.batch
  }

  lemma {:induction false} ApplyConserves(stack: seq<Node>, e: Event)
    requires 0 !in stack && ProperBatch(e) && Apply(stack, e).Some?
    ensures var stack' := Apply(stack, e).value;
            && multiset(stack) + In(e) == multiset(stack') + Out(e) && 0 !in stack'
            && (stack == [] && stack' != [] <==> e.Pushed? && e.wasEmpty)
  {
    if e.Popped? && stack != [] {
      assert stack == [stack[0]] + stack[1..];
      assert stack[0] in stack;
    }
  }

  /** What was pushed is what was delivered and what is still on the stack. */
  lemma {:induction false} Conserved(events: seq<Event>)
    requires Replay(events).Some? && forall e <- events :: ProperBatch(e)
    ensures AllIn(events) == AllOut(events) + multiset(Replay(events).value)
    ensures 0 !in Replay(events).value
    ensures TrueResults(events) == Fillings(events)
  {
    hide In; hide Out; hide Apply; hide ProperBatch;
    if events != [] {
      var last := |events| - 1;
      assert events[last] in events;
      Conserved(events[..last]);
      var stack, e := Replay(events[..last]).value, events[last];
      ApplyConserves(stack, e);
      assert Replay(events) == Apply(stack, e);
      assert AllIn(events) == AllOut(events[..last]) + (multiset(stack) + In(e));
    }
  }

  /** In any run no node is lost or delivered more often than it was pushed, and llist_split returned true exactly as
      often as the list was filled. */
  lemma {:induction false} NoneLost(states: seq<State>, actions: seq<Action>)
    requires Run(states, actions)
    ensures var events := Events(states, actions);
            && Replay(events).Some?
            && AllIn(events) == AllOut(events) + multiset(Replay(events).value)
            && TrueResults(events) == Fillings(events)
  {
    hide Inv; hide Init; hide Enabled; hide Next; hide Emit; hide Apply; hide AllIn; hide AllOut; hide ProperBatch;
    var events := Events(states, actions);
    Atomic(states, actions);
    forall e | e in events ensures ProperBatch(e) {
      var i :| 0 <= i < |events| && events[i] == e;
      var before := states[..i + 1];
      assert before[0] == states[0];
      assert Run(before, actions[..i]);
      Atomic(before, actions[..i]);
      Proper(states[i], actions[i], Replay(Events(before, actions[..i])).value);
    }
    Conserved(events);
  }

  lemma {:induction false} Proper(s: State, a: Action, stack: seq<Node>)
    requires Inv(s, stack) && Enabled(s, a)
    ensures ProperBatch(Emit(s, a))
  {
    hide Chain; hide Distinct; hide Path; hide AllOwned; hide AllApart;
    if a.Swing? {
      assert ProducerOK(s.next, stack, s.free, s.producers[a.p]);
    }
  }

  // ----- every call ends by pushing its own batch -----

  /** A producer keeps its batch until the step that pushes it, and leaves in no other way. */
  lemma {:induction false} LeavesByPush(s: State, a: Action, p: nat)
    requires Enabled(s, a) && p in s.producers
    ensures if p in Next(s, a).producers then Next(s, a).producers[p].batch == s.producers[p].batch && !(a.Start? && a.p == p)
            else a == Swing(p) && Emit(s, a).Pushed? && Emit(s, a).batch == s.producers[p].batch
    ensures p in Next(s, a).producers ==> !(a == Swing(p) && Emit(s, a).Pushed?)
  {
  }

  lemma {:induction false} EntersByStart(s: State, a: Action, p: nat)
    requires Enabled(s, a) && p !in s.producers
    ensures if p in Next(s, a).producers then a.Start? && a == Start(p, Next(s, a).producers[p].batch)
            else !(a.Start? && a.p == p)
    ensures a != Swing(p)
  {
  }

  /** The consumer too ends a call of llist_del only with a result: a node, or NULL for an empty list. */
  lemma {:induction false} ConsumerAnswers(s: State, a: Action)
    requires Enabled(s, a)
    ensures s.consumer != Rest && Next(s, a).consumer == Rest ==> a == Pull && Emit(s, a).Popped?
    ensures a == Take ==> (Emit(s, a).Popped? <==> Next(s, a).consumer == Rest)
    ensures a == Pull ==> (Emit(s, a).Popped? <==> Next(s, a).consumer == Rest)
    ensures s.consumer != Next(s, a).consumer ==> a in {Take, Peek, Pull}
  {
  }

  /** How often p began a call, and how often a step of p pushed a batch. */
  ghost function Starts(actions: seq<Action>, p: nat): nat {
    if actions == [] then 0
    else
      var a := actions[|actions| - 1];
      Starts(actions[..|actions| - 1], p) + if a.Start? && a.p == p then 1 else 0
  }

  ghost function Pushes(states: seq<State>, actions: seq<Action>, p: nat): nat
    requires Run(states, actions)
  {
    if actions == [] then 0
    else
      var last := |actions| - 1;
      RunFront(states, actions);
      Pushes(states[..last + 1], actions[..last], p)
      + if actions[last] == Swing(p) && Emit(states[last], actions[last]).Pushed? then 1 else 0
  }

  lemma {:induction false} RunFront(states: seq<State>, actions: seq<Action>)
    requires Run(states, actions) && actions != []
    ensures Run(states[..|actions|], actions[..|actions| - 1])
    ensures Enabled(states[|actions| - 1], actions[|actions| - 1])
    ensures states[|actions|] == Next(states[|actions| - 1], actions[|actions| - 1])
    ensures states[..|actions|][|actions| - 1] == states[|actions| - 1]
  {
    hide Init; hide Enabled; hide Next;
    assert states[..|actions|][0] == states[0];
    assert actions[|actions| - 1] == actions[|actions| - 1];
  }

  /** Each call pushes once, and only the one that is still under way has not. */
  lemma {:induction false} EachCallPushes(states: seq<State>, actions: seq<Action>, p: nat)
    requires Run(states, actions)
    ensures Starts(actions, p) == Pushes(states, actions, p) + if p in states[|actions|].producers then 1 else 0
    decreases |actions|
  {
    hide Enabled; hide Next; hide Emit;
    if actions != [] {
      var last := |actions| - 1;
      RunFront(states, actions);
      EachCallPushes(states[..last + 1], actions[..last], p);
      if p in states[last].producers {
        LeavesByPush(states[last], actions[last], p);
      } else {
        EntersByStart(states[last], actions[last], p);
      }
    }
  }

  /** What a producer holds, and so what it pushes, is the batch of a call it began. */
  lemma {:induction false} HeldAsStarted(states: seq<State>, actions: seq<Action>, p: nat) returns (i: nat)
    requires Run(states, actions) && p in states[|actions|].producers
    ensures i < |actions| && actions[i] == Start(p, states[|actions|].producers[p].batch)
    ensures forall j :: i < j < |actions| ==> !(actions[j].Start? && actions[j].p == p)
    decreases |actions|
  {
    hide Enabled; hide Next; hide Emit;
    if actions == [] {
      assert false;
    }
    var last := |actions| - 1;
    RunFront(states, actions);
    if p in states[last].producers {
      LeavesByPush(states[last], actions[last], p);
      i := HeldAsStarted(states[..last + 1], actions[..last], p);
      assert forall j :: 0 <= j < last ==> actions[..last][j] == actions[j];
    } else {
      EntersByStart(states[last], actions[last], p);
      i := last;
    }
  }

  // ----- progress -----

  /** Actions of one producer. */
  predicate By(a: Action, p: nat) {
    (a.Start? || a.Load? || a.Store? || a.Swing?) && a.p == p
  }

  lemma {:induction false} QuietStep(s: State, a: Action, p: nat)
    requires Enabled(s, a)
    ensures Emit(s, a) == Quiet ==> Next(s, a).head == s.head
    ensures !By(a, p) && p in s.producers ==>
              p in Next(s, a).producers && Next(s, a).producers[p] == s.producers[p]
    ensures a == Store(p) && p in s.producers && !s.producers[p].Fresh? ==>
              p in Next(s, a).producers && Next(s, a).producers[p] == Linked(s.producers[p].batch, s.producers[p].first)
  {
  }

  /** From where p loaded the head, as long as nothing took effect, the head is still what p loaded. */
  lemma {:induction false} HeadStands(states: seq<State>, actions: seq<Action>, p: nat, i: nat, j: nat)
    requires Run(states, actions) && i < j <= |actions| && actions[i] == Load(p)
    requires forall k :: i < k < j ==> By(actions[k], p) ==> actions[k] == Store(p)
    requires forall k :: i < k < j ==> Emit(states[k], actions[k]) == Quiet
    ensures states[j].head == states[i].head
    ensures p in states[j].producers && !states[j].producers[p].Fresh? && states[j].producers[p].first == states[i].head
    decreases j
  {
    hide Emit; hide Init;
    assert Enabled(states[i], actions[i]);
    if j > i + 1 {
      hide Enabled; hide Next;
      HeadStands(states, actions, p, i, j - 1);
      QuietStep(states[j - 1], actions[j - 1], p);
    }
  }

  lemma {:induction false} SwingWorks(s: State, p: nat)
    requires Enabled(s, Swing(p))
    ensures s.head == s.producers[p].first ==> Emit(s, Swing(p)) != Quiet
  {
  }

  /** Lock freedom: when the cmpxchg of a producer fails, some other call took effect since it loaded the head. */
  lemma {:induction false} FailsOnlyBehindAnother(states: seq<State>, actions: seq<Action>, p: nat, i: nat, j: nat)
      returns (k: nat)
    requires Run(states, actions) && i < j < |actions| && actions[i] == Load(p) && actions[j] == Swing(p)
    requires forall k :: i < k < j ==> By(actions[k], p) ==> actions[k] == Store(p)
    requires Emit(states[j], actions[j]) == Quiet
    ensures i < k < j && !By(actions[k], p) && Emit(states[k], actions[k]) != Quiet
  {
    if k' :| i < k' < j && Emit(states[k'], actions[k']) != Quiet {
      k := k';
      if By(actions[k], p) {
        assert false;
      }
    } else {
      SwingWorks(states[j], p);
      HeadStands(states, actions, p, i, j);
      assert false;
    }
  }
}
