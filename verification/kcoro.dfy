/** The coroutine scheduler of kernel/kcoro.c as a machine of steps: works wait in a ready tree ordered by
    virtual time or in a blocked tree ordered by timeout, and at most one of a worker's works runs.

    A context switch is a step of its own: it ends with another work as the running one, or with the scheduler
    loop having the worker back.  The trees are kept as sequences in key order. */
module Kcoro {

  datatype State = Ready | Block | Exited

  class Work {
    var state: State
    var vtime: nat
    var start: nat
    var timeout: nat
    var dyprio: nat
  }

  /** -ETIMEDOUT */
  const TIMED_OUT: int := -110

  const KTIME_MAX: nat := 0x7FFF_FFFF_FFFF_FFFF

  /** How a call of the scheduler ends for the work that made it. */
  datatype Switch = Continues | SwitchedTo(next: Work) | BackToScheduler

  /** Which of the two trees: ordered by virtual time, or by timeout. */
  datatype Order = ByVtime | ByTimeout

  function Key(w: Work, order: Order): nat
    reads w`vtime, w`timeout
  {
    if order.ByVtime? then w.vtime else w.timeout
  }

  /** Insertion into a tree: behind every work whose key is not larger. */
  function Inserted(s: seq<Work>, w: Work, order: Order): (r: seq<Work>)
    reads s`vtime, s`timeout, w`vtime, w`timeout
  {
    if s == [] || Key(w, order) < Key(s[0], order) then [w] + s else [s[0]] + Inserted(s[1..], w, order)
  }

  ghost predicate Sorted(s: seq<Work>, order: Order)
    reads s`vtime, s`timeout
  {
    forall i, j :: 0 <= i < j < |s| ==> Key(s[i], order) <= Key(s[j], order)
  }

  lemma {:induction false} InsertedIs(s: seq<Work>, w: Work, order: Order)
    ensures multiset(Inserted(s, w, order)) == multiset(s) + multiset{w}
    ensures |Inserted(s, w, order)| == |s| + 1
  {
    if s == [] || Key(w, order) < Key(s[0], order) {
    } else {
      InsertedIs(s[1..], w, order);
      assert s == [s[0]] + s[1..];
    }
  }

  /** A work goes behind all whose key is not larger, so works with equal keys stay in the order they came in. */
  ghost predicate Behind(s: seq<Work>, r: seq<Work>, w: Work, order: Order)
    reads s`vtime, s`timeout, w`vtime, w`timeout
  {
    exists k ::
      && 0 <= k <= |s| && r == s[..k] + [w] + s[k..]
      && (forall i :: 0 <= i < k ==> Key(s[i], order) <= Key(w, order))
      && (forall i :: k <= i < |s| ==> Key(w, order) < Key(s[i], order))
  }

  lemma {:induction false} InsertedBehind(s: seq<Work>, w: Work, order: Order)
    requires Sorted(s, order)
    ensures Behind(s, Inserted(s, w, order), w, order)
  {
    var k := PlaceOf(s, w, order);
  }

  lemma {:induction false} PlaceOf(s: seq<Work>, w: Work, order: Order) returns (k: nat)
    requires Sorted(s, order)
    ensures k <= |s| && Inserted(s, w, order) == s[..k] + [w] + s[k..]
    ensures forall i :: 0 <= i < k ==> Key(s[i], order) <= Key(w, order)
    ensures forall i :: k <= i < |s| ==> Key(w, order) < Key(s[i], order)
  {
    if s == [] || Key(w, order) < Key(s[0], order) {
      k := 0;
      assert [w] + s == s[..0] + [w] + s[0..];
    } else {
      var t := s[1..];
      assert forall i :: 0 <= i < |t| ==> t[i] == s[i + 1];
      var j := PlaceOf(t, w, order);
      k := j + 1;
      Spliced(s, j, w);
      forall i | 0 <= i < |s| ensures if i < k then Key(s[i], order) <= Key(w, order) else Key(w, order) < Key(s[i], order) {
        assert i > 0 ==> s[i] == t[i - 1];
      }
    }
  }

  lemma {:induction false} Spliced(s: seq<Work>, j: nat, w: Work)
    requires s != [] && j < |s|
    ensures [s[0]] + (s[1..][..j] + [w] + s[1..][j..]) == s[..j + 1] + [w] + s[j + 1..]
  {
  }

  lemma {:induction false} InsertedSorted(s: seq<Work>, w: Work, order: Order)
    requires Sorted(s, order)
    ensures Sorted(Inserted(s, w, order), order)
    ensures Key(Inserted(s, w, order)[0], order) == if s == [] || Key(w, order) < Key(s[0], order) then Key(w, order) else Key(s[0], order)
  {
    if s == [] || Key(w, order) < Key(s[0], order) {
    } else {
      InsertedSorted(s[1..], w, order);
    }
  }

  // ----- how long a work may have to wait -----

  /** How far the work is behind virtual time x, counting x itself. */
  ghost function Short(w: Work, x: nat): nat
    reads w`vtime
  {
    if w.vtime <= x then x + 1 - w.vtime else 0
  }

  ghost function Lag(s: seq<Work>, x: nat): nat
    reads s`vtime
  {
    if s == [] then 0 else Short(s[0], x) + Lag(s[1..], x)
  }

  lemma {:induction false} InsertedLag(s: seq<Work>, w: Work, order: Order, x: nat)
    ensures Lag(Inserted(s, w, order), x) == Lag(s, x) + Short(w, x)
  {
    if s == [] || Key(w, order) < Key(s[0], order) {
      assert ([w] + s)[1..] == s;
    } else {
      InsertedLag(s[1..], w, order, x);
      assert ([s[0]] + Inserted(s[1..], w, order))[1..] == Inserted(s[1..], w, order);
    }
  }

  /** A work has run for some time with a priority. */
  datatype Slice = Slice(work: Work, prio: nat, time: nat)

  ghost function Time(slices: seq<Slice>): nat {
    if slices == [] then 0 else Time(slices[..|slices| - 1]) + slices[|slices| - 1].time
  }

  ghost function Charged(slices: seq<Slice>, w: Work, weigh: (nat, nat) -> nat): nat {
    if slices == [] then 0
    else
      var s := slices[|slices| - 1];
      Charged(slices[..|slices| - 1], w, weigh) + if s.work == w then weigh(s.prio, s.time) else 0
  }

  class Worker {
    var ready: seq<Work>
    var blocked: seq<Work>
    var mvtime: nat
    var curr: Work?
    /** The work the scheduler loop has got back and not looked at yet. */
    var back: Work?
    /** Works that were activated and not destroyed. */
    ghost var started: set<Work>

    /** The two trees are in order, hold no work twice, and mvtime is the least virtual time that is ready. */
    ghost predicate Trees()
      reads this, ready, blocked
    {
      && Sorted(ready, ByVtime) && Sorted(blocked, ByTimeout) && Distinct(ready + blocked)
      && (forall i :: 0 <= i < |ready| ==> ready[i].state == Ready)
      && (forall i :: 0 <= i < |blocked| ==> blocked[i].state == Block)
      && (ready != [] ==> mvtime == ready[0].vtime)
    }

    /** The works in the trees. */
    ghost function Waiting(): set<Work>
      reads this
    {
      Works(ready) + Works(blocked)
    }

    /** Every started work is in exactly one place: ready, blocked, running, or finished and in the hands of the
        scheduler loop. */
    ghost predicate Valid()
      reads this, started, ready, blocked
    {
      && Trees()
      && started == Waiting() + (if curr != null then {curr} else {}) + (if back != null then {back} else {})
      && (curr != null ==> curr !in Waiting() && back == null)
      && (back != null ==> (back.state == Block <==> back in blocked) && back !in ready)
    }

    constructor ()
      ensures Valid() && started == {} && curr == null && back == null
    {
      ready, blocked, mvtime, curr, back, started := [], [], 0, null, null, {};
    }

    /** worker_update */
    method Update()
      modifies `mvtime
      ensures mvtime == if ready != [] then ready[0].vtime else if curr != null then curr.vtime else 0
    {
      if ready != [] {
        mvtime := ready[0].vtime;
      } else if curr != null {
        mvtime := curr.vtime;
      } else {
        mvtime := 0;
      }
    }

    /** kcoro_enqueue */
    method Enqueue(work: Work)
      requires Trees() && work !in Waiting() && work.state == Ready
      modifies `ready, `mvtime
      ensures Trees() && ready == Inserted(old(ready), work, ByVtime) && Works(ready) == Works(old(ready)) + {work}
      ensures Behind(old(ready), ready, work, ByVtime)
      ensures ready != [] && mvtime == ready[0].vtime && forall i :: 0 <= i < |ready| ==> mvtime <= ready[i].vtime
    {
      hide Distinct; hide Inserted; hide Sorted; hide Behind;
      InsertedWorks(ready, work, ByVtime);
      InsertedSorted(ready, work, ByVtime);
      InsertedDistinct(ready, blocked, work);
      InsertedBehind(ready, work, ByVtime);
      ready := Inserted(ready, work, ByVtime);
      Update();
      LeastReady();
    }

    /** kcoro_dequeue of the work that was picked. */
    method Dequeue(work: Work)
      requires Trees() && ready != [] && work == ready[0]
      modifies `ready, `mvtime
      ensures Trees() && ready == old(ready)[1..] && Works(ready) == Works(old(ready)) - {work} && work !in Waiting()
      ensures forall i :: 0 <= i < |ready| ==> work.vtime <= mvtime <= ready[i].vtime
      ensures mvtime == if ready != [] then ready[0].vtime else if curr != null then curr.vtime else 0
    {
      DistinctTail(ready, blocked);
      forall i | 1 <= i < |ready| ensures work.vtime <= ready[i].vtime {
        assert Key(ready[0], ByVtime) <= Key(ready[i], ByVtime);
      }
      ready := ready[1..];
      Update();
      LeastReady();
    }

    /** No blocked work is due. */
    ghost predicate Calm(tick: nat)
      reads `blocked, blocked`timeout
    {
      forall i :: 0 <= i < |blocked| ==> blocked[i].timeout > tick
    }

    method WakeOne(work: Work)
      requires Trees() && blocked != [] && work == blocked[0]
      modifies `ready, `blocked, `mvtime, work`state
      ensures Trees() && blocked == old(blocked)[1..] && Waiting() == old(Waiting()) && ready != []
    {
      hide Distinct; hide Inserted; hide Behind;
      WakeFacts(ready, blocked);
      blocked := blocked[1..];
      work.state := Ready;
      Enqueue(work);
    }

    /** kcoro_timeout_wakeup: every work whose timeout has come is ready now. */
    method TimeoutWakeup(tick: nat)
      requires Trees()
      modifies `ready, `blocked, `mvtime, blocked`state
      ensures Trees() && Waiting() == old(Waiting())
      ensures forall w :: w in Works(blocked) <==> w in Works(old(blocked)) && w.timeout > tick
      ensures old(Calm(tick)) ==> ready == old(ready) && blocked == old(blocked)
      ensures ready == [] ==> mvtime == old(mvtime)
    {
      hide Distinct; hide Inserted; hide Sorted;
      ghost var b0, r0 := blocked, ready;
      ghost var k := 0;
      while blocked != []
        invariant Trees() && 0 <= k <= |b0| && blocked == b0[k..]
        invariant Waiting() == Works(r0) + Works(b0)
        invariant forall i :: 0 <= i < k ==> b0[i].timeout <= tick
        invariant if k == 0 then ready == r0 && mvtime == old(mvtime) else ready != []
        invariant Sorted(b0, ByTimeout)
        decreases |b0| - k
      {
        var work := blocked[0];
        if work.timeout > tick {
          break;
        }
        WakeOne(work);
        k := k + 1;
      }
      assert k > 0 ==> b0[0].timeout <= tick;
      assert b0[0..] == b0;
      forall w ensures w in Works(blocked) <==> w in Works(b0) && w.timeout > tick {
        SplitAt(b0, k, tick, w);
      }
    }

    /** kcoro_activate: a new work starts at the least virtual time that waits. */
    method Activate(work: Work)
      requires Valid() && (work == curr || (work !in started && work.state == Ready))
      modifies this, work`vtime
      ensures Valid() && curr == old(curr) && back == old(back) && blocked == old(blocked)
      ensures work == old(curr) ==> ready == old(ready) && started == old(started) && work.vtime == old(work.vtime)
      ensures work != old(curr) ==>
        && started == old(started) + {work} && work.vtime == old(mvtime) && Works(ready) == Works(old(ready)) + {work}
      // so it comes before or beside every work that was ready
      ensures work != old(curr) ==> forall w :: w in Works(old(ready)) ==> work.vtime <= w.vtime
    {
      hide Distinct; hide Inserted; hide Sorted; hide Behind;
      LeastReady();
      assert forall w :: w in Works(ready) ==> mvtime <= w.vtime;
      if curr == work {
        return;
      }
      work.vtime := mvtime;
      Enqueue(work);
      started := started + {work};
    }

    /** The work the worker runs is not behind any work that waits. */
    ghost predicate Fair()
      reads this, ready, if curr != null then {curr} else {}
    {
      curr != null ==> forall i :: 0 <= i < |ready| ==> curr.vtime <= ready[i].vtime
    }

    /** Between taking the running work off the processor and picking the next one. */
    ghost predicate Parked()
      reads this, ready, blocked
    {
      Trees() && started == Waiting() && back == null && curr != null && curr in started
    }

    /** The end of kcoro_yield: the first ready work runs, or nobody. */
    method Dispatch(work: Work, now: nat) returns (out: Switch)
      requires Parked() && curr == work
      modifies this, ready`start
      ensures Valid() && Fair() && started == old(started) && blocked == old(blocked)
      ensures out.Continues? ==> curr == work && back == null
      ensures out.SwitchedTo? ==> curr == out.next && out.next != work && back == null && out.next.start == now
      ensures out.BackToScheduler? <==> old(ready) == []
      ensures out.BackToScheduler? ==> curr == null && back == work && ready == []
      ensures old(ready) != [] ==> curr == old(ready)[0] && ready == old(ready)[1..]
      ensures curr != null ==> curr.start == now && curr.state == Ready
      ensures curr != null && ready == [] ==> mvtime == work.vtime
      ensures forall w :: w in started && w != curr ==> w.start == old(w.start)
    {
      hide Distinct; hide Sorted;
      if ready == [] {
        ToScheduler();
        return BackToScheduler;
      }
      var next := ready[0];
      Dequeue(next);
      next.start := now;
      if work == next {
        return Continues;
      }
      curr := next;
      return SwitchedTo(next);
    }

    /** swapcontext to the context of kcoro_function, which clears curr. */
    method ToScheduler()
      modifies `curr, `back
      ensures curr == null && back == old(curr)
    {
      back := curr;
      curr := null;
    }

    method PutBlocked(work: Work)
      requires Trees() && work !in Waiting() && work.state == Block
      modifies `blocked
      ensures Trees() && blocked == Inserted(old(blocked), work, ByTimeout) && Works(blocked) == Works(old(blocked)) + {work}
      ensures Behind(old(blocked), blocked, work, ByTimeout)
    {
      hide Distinct; hide Inserted; hide Sorted; hide Behind;
      InsertedWorks(blocked, work, ByTimeout);
      InsertedSorted(blocked, work, ByTimeout);
      DistinctSwap(ready, blocked);
      InsertedDistinct(blocked, ready, work);
      InsertedBehind(blocked, work, ByTimeout);
      blocked := Inserted(blocked, work, ByTimeout);
    }

    /** kcoro_yield from the point on where the time spent is charged. */
    method YieldCharged(work: Work, now: nat, tick: nat) returns (out: Switch)
      requires Valid() && curr == work && work.state != Exited
      modifies this, started`state, started`start
      ensures Valid() && Fair() && started == old(started) && work.state == old(work.state)
      ensures out.Continues? ==> curr == work && back == null
      ensures out.SwitchedTo? ==> curr == out.next && out.next != work && back == null && out.next.start == now
      ensures out.BackToScheduler? ==> curr == null && back == work
      ensures work.state == Block ==> work in Works(blocked)
      ensures work.state == Ready ==> curr != null && work !in Works(blocked)
      ensures forall w :: w in Works(blocked) && w != work <==> w in Works(old(blocked)) && w.timeout > tick
      ensures curr != null ==> curr.start == now && curr.state == Ready
      ensures curr != null && ready == [] ==>
                mvtime == if out.Continues? && work.vtime <= old(mvtime) then old(mvtime) else work.vtime
      ensures forall w :: w in started && w != curr ==> w.start == old(w.start)
      ensures work.state == Ready && old(Calm(tick)) ==>
        curr != null && forall x: nat :: Lag([curr] + ready, x) == old(Lag([work] + ready, x))
    {
      hide Distinct; hide Inserted; hide Sorted; hide Lag;
      var stays := Requeue(work, now, tick);
      if stays {
        return Continues;
      }
      ghost var r1 := ready;
      FirstLag(r1);
      label Park:
      out := Dispatch(work, now);
      assert forall x: nat :: Lag(r1, x) == old@Park(Lag(r1, x));
    }

    /** The work that ran goes back to the ready tree. */
    method WaitAgain(work: Work)
      requires Trees() && work !in Waiting() && work.state == Ready
      modifies `ready, `mvtime
      ensures Trees() && Works(ready) == Works(old(ready)) + {work} && |ready| == |old(ready)| + 1
      ensures forall x: nat :: Lag(ready, x) == old(Lag([work] + ready, x))
    {
      hide Distinct; hide Inserted; hide Sorted; hide Lag; hide Behind;
      InsertedLagAll(ready, work);
      InsertedIs(ready, work, ByVtime);
      ghost var r0, r1 := ready, Inserted(ready, work, ByVtime);
      Enqueue(work);
      forall x: nat ensures Lag(ready, x) == old(Lag([work] + r0, x)) {
        assert Lag(ready, x) == Lag(r1, x) == old(Lag(r1, x));
        assert old(Lag(r1, x)) == old(Lag([work] + r0, x));
      }
    }

    /** Wake what is due, then put the work back into a tree, unless it is the one to run anyway. */
    method Requeue(work: Work, now: nat, tick: nat) returns (stays: bool)
      requires Valid() && curr == work && work.state != Exited
      modifies this, started`state, started`start
      ensures started == old(started) && work.state == old(work.state) && curr == work
      ensures stays ==> Valid() && Fair() && back == null && work.state == Ready
      ensures !stays ==> Parked() && (work.state == Ready ==> ready != [])
      ensures forall w :: w in Works(blocked) && w != work <==> w in Works(old(blocked)) && w.timeout > tick
      ensures work.state == Block ==> work in Works(blocked)
      ensures work.state == Ready ==> work !in Works(blocked)
      ensures stays ==> work.start == now && (ready == [] ==> work.vtime <= mvtime == old(mvtime))
      ensures !stays && |ready| == 1 && ready[0] == work ==> work.vtime > old(mvtime)
      ensures forall w :: w in started && (w != work || !stays) ==> w.start == old(w.start)
      ensures stays && old(Calm(tick)) ==> forall x: nat :: Lag([work] + ready, x) == old(Lag([work] + ready, x))
      ensures !stays && work.state == Ready && old(Calm(tick)) ==>
        forall x: nat :: Lag(ready, x) == old(Lag([work] + ready, x))
    {
      hide Distinct; hide Inserted; hide Sorted; hide Lag; hide Behind;
      InStarted();
      ghost var r0 := ready;
      label Begin:
      TimeoutWakeup(tick);
      assert forall x: nat :: Lag([work] + r0, x) == old@Begin(Lag([work] + r0, x));
      if work.state == Block {
        PutBlocked(work);
      } else {
        if work.vtime > mvtime {
          label Mid:
          WaitAgain(work);
          assert old(Calm(tick)) ==> old@Mid(ready) == r0;
          if old(Calm(tick)) {
            forall x: nat ensures Lag(ready, x) == old(Lag([work] + r0, x)) {
              assert Lag(ready, x) == old@Mid(Lag([work] + r0, x)) == old@Begin(Lag([work] + r0, x));
            }
          }
        } else {
          work.start := now;
          LeastReady();
          assert old(Calm(tick)) ==> ready == r0;
          assert forall x: nat :: Lag([work] + r0, x) == old(Lag([work] + r0, x));
          return true;
        }
      }
      return false;
    }

    /** kcoro_yield.  weigh is the weighting of run time by priority, now the clock, tick the tick counter. */
    method Yield(work: Work, weigh: (nat, nat) -> nat, now: nat, tick: nat) returns (out: Switch)
      requires Valid() && curr == work && now >= work.start
      modifies this, started
      ensures Valid() && Fair() && started == old(started)
      ensures out.Continues? ==> curr == work && back == null
      ensures out.SwitchedTo? ==> curr == out.next && out.next != work && back == null && out.next.start == now
      ensures out.BackToScheduler? ==> curr == null && back == work
      ensures forall w :: w in started ==> w.timeout == old(w.timeout) && (w != work ==> w.vtime == old(w.vtime))
      ensures work.vtime == if old(work.state) == Exited then old(work.vtime)
                            else old(work.vtime) + weigh(old(work.dyprio), now - old(work.start))
      ensures work.state == old(work.state)
      // the clock of the work that runs starts now, all others stand still
      ensures curr != null ==> curr.start == now && curr.state == Ready
      ensures curr != null && ready == [] ==>
                mvtime == if out.Continues? && work.vtime <= old(mvtime) then old(mvtime) else work.vtime
      ensures forall w :: w in started && w != curr ==> w.start == old(w.start)
      ensures forall w :: w in started ==> w.dyprio == old(w.dyprio)
      ensures work.state == Exited ==> out == BackToScheduler && ready == old(ready) && blocked == old(blocked)
      ensures work.state == Block ==> work in Works(blocked)
      ensures work.state == Ready ==> out != BackToScheduler && work !in Works(blocked)
      ensures work.state != Exited ==>
        forall w :: w in Works(blocked) && w != work <==> w in Works(old(blocked)) && old(w.timeout) > tick
      ensures work.state == Ready && work.vtime > old(work.vtime) && old(Calm(tick)) ==>
        curr != null && forall x: nat :: x >= old(work.vtime) ==> Lag([curr] + ready, x) < old(Lag([work] + ready, x))
    {
      hide Distinct; hide Inserted; hide Sorted; hide Lag;
      if work.state == Exited {
        ToScheduler();
        return BackToScheduler;
      }
      var delta := now - work.start;
      Charge(work, weigh(work.dyprio, delta));
      out := YieldCharged(work, now, tick);
    }

    /** Any number of yields in a row, each by the work that runs then: the slices follow each other without a gap and
        without overlap, and every work is charged exactly for its own.  No time is charged twice and none is left out. */
    method Slices(weigh: (nat, nat) -> nat, nows: seq<nat>, ticks: seq<nat>) returns (ghost slices: seq<Slice>)
      requires Valid() && curr != null && curr.state == Ready && |ticks| == |nows| > 0 && curr.start <= nows[0]
      requires forall i, j :: 0 <= i < j < |nows| ==> nows[i] <= nows[j]
      modifies this, started
      ensures Valid() && Fair() && started == old(started) && curr != null && curr.start == nows[|nows| - 1]
      ensures |slices| == |nows| && Time(slices) == nows[|nows| - 1] - old(curr.start)
      ensures forall w :: w in started ==> w.vtime == old(w.vtime) + Charged(slices, w, weigh)
      ensures forall s :: s in slices ==> s.work in started && s.prio == old(s.work.dyprio)
    {
      hide Distinct; hide Sorted; hide Fair; hide Trees; hide Lag;
      ghost var begin := curr.start;
      slices := [];
      var i := 0;
      while i < |nows|
        invariant 0 <= i <= |nows| && |slices| == i && Valid() && started == old(started)
        invariant curr != null && curr in started && curr.state == Ready && (i > 0 ==> Fair())
        invariant curr.start == if i == 0 then begin else nows[i - 1]
        invariant Time(slices) == curr.start - begin && begin <= curr.start
        invariant forall w :: w in started ==> w.vtime == old(w.vtime) + Charged(slices, w, weigh) && w.dyprio == old(w.dyprio)
        invariant forall s :: s in slices ==> s.work in started && s.prio == old(s.work.dyprio)
      {
        ghost var s := Slice(curr, curr.dyprio, nows[i] - curr.start);
        var out := Yield(curr, weigh, nows[i], ticks[i]);
        assert (slices + [s])[..i] == slices;
        slices := slices + [s];
        i := i + 1;
      }
    }

    /** Run time is charged to the running work only: its lag shrinks, the others' stay. */
    method Charge(work: Work, amount: nat)
      requires Valid() && curr == work
      modifies work`vtime
      ensures Valid() && work.vtime == old(work.vtime) + amount
      ensures amount > 0 ==>
        forall x: nat :: x >= old(work.vtime) ==> Lag([work] + ready, x) < old(Lag([work] + ready, x))
    {
      hide Distinct;
      assert ([work] + ready)[0] == work && ([work] + ready)[1..] == ready;
      ghost var v := work.vtime;
      work.vtime := work.vtime + amount;
      forall x: nat | x >= v ensures amount > 0 ==> Lag([work] + ready, x) < old(Lag([work] + ready, x)) {
        assert Lag(ready, x) == old(Lag(ready, x));
      }
    }

    /** kcoro_exit, up to the switch it never comes back from. */
    method Exit(work: Work, weigh: (nat, nat) -> nat, now: nat, tick: nat)
      requires Valid() && curr == work && now >= work.start
      modifies this, started
      ensures Valid() && started == old(started) && curr == null && back == work && work.state == Exited
      ensures ready == old(ready) && blocked == old(blocked)
      ensures forall w :: w in started ==> w.start == old(w.start) && w.vtime == old(w.vtime)
    {
      work.state := Exited;
      var out := Yield(work, weigh, now, tick);
    }

    /** kcoro_tsleep, up to the moment the work runs again. */
    method Sleep(work: Work, timeout: nat, weigh: (nat, nat) -> nat, now: nat, tick: nat) returns (out: Switch)
      requires Valid() && curr == work && now >= work.start
      modifies this, started
      ensures Valid() && Fair() && started == old(started) && work in Works(blocked)
      ensures work.timeout == tick + timeout && work.state == Block
      ensures out.BackToScheduler? <==> curr == null
      ensures curr != work && (curr != null ==> curr.start == now)
      ensures forall w :: w in started && w != curr ==> w.start == old(w.start)
      ensures work.vtime == old(work.vtime) + weigh(old(work.dyprio), now - old(work.start))
      ensures forall w :: w in started && w != work ==> w.vtime == old(w.vtime)
    {
      work.timeout := tick + timeout;
      work.state := Block;
      out := Yield(work, weigh, now, tick);
    }

    /** The entry function of the running work returns. */
    method Finish(work: Work)
      requires Valid() && curr == work && work.state == Ready
      modifies `curr, `back
      ensures Valid() && curr == null && back == work && work !in Waiting()
    {
      ToScheduler();
    }

    /** kcoro_function, up to the switch to the picked work. */
    method RunNext(now: nat) returns (work: Work?)
      requires Valid() && curr == null && back == null
      modifies this, started`start
      ensures Valid() && Fair() && started == old(started) && back == null && blocked == old(blocked) && curr == work
      ensures work == null <==> old(ready) == []
      ensures work != null ==> work == old(ready)[0] && work.start == now && ready == old(ready)[1..] && work.state == Ready
      ensures forall w :: w in started && w != work ==> w.start == old(w.start)
      ensures work != null && ready == [] ==> mvtime == 0
    {
      hide Distinct; hide Sorted;
      InStarted();
      if ready == [] {
        return null;
      }
      work := ready[0];
      Dequeue(work);
      work.start := now;
      curr := work;
    }

    /** What kcoro_schedule does with the work it got back, or with the first blocked one when nothing is ready:
        go on, stop with the code of a failed work, stop because nothing will ever wake it, or end.
        retval is what the work returned, tick the tick counter after the sleep. */
    method Handle(retval: int, tick: nat) returns (stop: bool, code: int)
      requires Valid() && curr == null
      modifies this, started`state
      ensures Valid() && curr == null && back == null
      ensures old(back) != null && old(back.state) != Block ==>
        && old(back) !in Waiting() && started == old(started) - {old(back)}
        && ready == old(ready) && blocked == old(blocked) && stop == (retval != 0) && code == retval
      ensures old(back) == null && old(blocked) == [] ==> stop && code == 0 && started == old(started)
      ensures (old(back) != null && old(back.state) == Block) || (old(back) == null && old(blocked) != []) ==>
        && started == old(started)
        && (stop <==> old((if back != null then back else blocked[0]).timeout) == KTIME_MAX)
        && code == (if stop then TIMED_OUT else 0)
        && (stop ==> ready == old(ready) && blocked == old(blocked))
        && (!stop ==> forall w :: w in Works(blocked) <==> w in Works(old(blocked)) && w.timeout > tick)
    {
      hide Distinct; hide Sorted;
      InStarted();
      var work: Work? := back;
      back := null;
      if work == null {
        if blocked == [] {
          return true, 0;
        }
        work := blocked[0];
      }
      if work.state == Block {
        if work.timeout == KTIME_MAX {
          return true, TIMED_OUT;
        }
        TimeoutWakeup(tick);
        return false, 0;
      }
      started := started - {work};
      stop, code := retval != 0, retval;
    }

    /** The trees hold started works. */
    lemma {:induction false} InStarted()
      requires Valid()
      ensures forall i :: 0 <= i < |ready| ==> ready[i] in started
      ensures forall i :: 0 <= i < |blocked| ==> blocked[i] in started
    {
    }

    lemma {:induction false} LeastReady()
      requires Trees()
      ensures forall i :: 0 <= i < |ready| ==> mvtime <= ready[i].vtime
    {
      forall i | 0 <= i < |ready| ensures mvtime <= ready[i].vtime {
        assert i > 0 ==> Key(ready[0], ByVtime) <= Key(ready[i], ByVtime);
      }
    }
  }

  lemma {:induction false} InsertedLagAll(s: seq<Work>, w: Work)
    ensures forall x: nat :: Lag(Inserted(s, w, ByVtime), x) == Lag([w] + s, x)
  {
    forall x: nat ensures Lag(Inserted(s, w, ByVtime), x) == Lag([w] + s, x) {
      InsertedLag(s, w, ByVtime, x);
      assert ([w] + s)[1..] == s;
    }
  }

  lemma {:induction false} FirstLag(s: seq<Work>)
    ensures s != [] ==> [s[0]] + s[1..] == s
  {
  }

  ghost function Works(s: seq<Work>): set<Work> {
    set w | w in s
  }

  lemma {:induction false} InsertedWorks(s: seq<Work>, w: Work, order: Order)
    ensures Works(Inserted(s, w, order)) == Works(s) + {w}
    ensures forall i :: 0 <= i < |Inserted(s, w, order)| ==> Inserted(s, w, order)[i] == w || Inserted(s, w, order)[i] in s
  {
    InsertedIs(s, w, order);
    var r := Inserted(s, w, order);
    forall x ensures x in Works(r) <==> x in Works(s) + {w} {
      assert x in r <==> x in multiset(r);
      assert x in s <==> x in multiset(s);
    }
    forall i | 0 <= i < |r| ensures r[i] == w || r[i] in s {
      assert r[i] in Works(r);
    }
  }

  /** A tree ordered by timeout, cut behind the works that are due. */
  lemma {:induction false} SplitAt(b0: seq<Work>, k: int, tick: nat, w: Work)
    requires 0 <= k <= |b0| && Sorted(b0, ByTimeout) && (k < |b0| ==> b0[k].timeout > tick)
    requires forall i :: 0 <= i < k ==> b0[i].timeout <= tick
    ensures w in Works(b0[k..]) <==> w in Works(b0) && w.timeout > tick
  {
    if w in b0[k..] {
      var i :| 0 <= i < |b0[k..]| && b0[k..][i] == w;
      assert b0[k + i] == w;
      assert i > 0 ==> Key(b0[k], ByTimeout) <= Key(b0[k + i], ByTimeout);
    }
    if w in b0 && w.timeout > tick {
      var i :| 0 <= i < |b0| && b0[i] == w;
      assert b0[k..][i - k] == w;
    }
  }

  ghost predicate Distinct(s: seq<Work>) {
    forall i, j :: 0 <= i < j < |s| ==> s[i] != s[j]
  }

  lemma {:induction false} DistinctCount(s: seq<Work>)
    ensures Distinct(s) <==> forall w :: w in multiset(s) ==> multiset(s)[w] == 1
  {
    if s != [] {
      var t := s[1..];
      DistinctCount(t);
      assert s == [s[0]] + t && multiset(s) == multiset{s[0]} + multiset(t);
      assert s[0] in t <==> s[0] in multiset(t);
      if Distinct(s) {
        assert s[0] !in t;
      }
      if forall w :: w in multiset(s) ==> multiset(s)[w] == 1 {
        assert s[0] in multiset(s) && multiset(s)[s[0]] == 1;
        forall w | w in multiset(t) ensures multiset(t)[w] == 1 {
          assert multiset(s)[w] == 1;
        }
        DistinctCons(s[0], t);
      }
    }
  }

  lemma {:induction false} DistinctSwap(s: seq<Work>, t: seq<Work>)
    requires Distinct(s + t)
    ensures Distinct(t + s)
  {
    DistinctSame(s + t, t + s);
  }

  lemma {:induction false} DistinctTail(s: seq<Work>, t: seq<Work>)
    requires s != [] && Distinct(s + t)
    ensures Distinct(s[1..] + t) && Works(s[1..]) == Works(s) - {s[0]} && s[0] !in t
  {
    var c, d := s + t, s[1..] + t;
    assert s == [s[0]] + s[1..];
    forall i | 1 <= i < |c| ensures c[i] != s[0] {
      assert c[0] == s[0];
    }
    forall i | 0 <= i < |s[1..]| ensures s[1..][i] != s[0] {
      assert c[i + 1] == s[1..][i];
    }
    forall i | 0 <= i < |t| ensures t[i] != s[0] {
      assert c[|s| + i] == t[i];
    }
    forall i, j | 0 <= i < j < |d| ensures d[i] != d[j] {
      assert d[i] == c[i + 1] && d[j] == c[j + 1];
    }
  }

  lemma {:induction false} DistinctCons(x: Work, t: seq<Work>)
    requires Distinct(t) && x !in t
    ensures Distinct([x] + t)
  {
  }

  lemma {:induction false} DistinctSame(s: seq<Work>, t: seq<Work>)
    requires multiset(s) == multiset(t) && Distinct(s)
    ensures Distinct(t)
  {
    DistinctCount(s);
    DistinctCount(t);
  }

  lemma {:induction false} InsertedDistinct(s: seq<Work>, t: seq<Work>, w: Work)
    requires Distinct(s + t) && w !in s && w !in t
    ensures Distinct(Inserted(s, w, ByVtime) + t) && Distinct(Inserted(s, w, ByTimeout) + t)
    ensures Distinct(t + Inserted(s, w, ByTimeout))
  {
    InsertedIs(s, w, ByVtime);
    InsertedIs(s, w, ByTimeout);
    DistinctCons(w, s + t);
    DistinctSame([w] + (s + t), Inserted(s, w, ByVtime) + t);
    DistinctSame([w] + (s + t), Inserted(s, w, ByTimeout) + t);
    DistinctSame([w] + (s + t), t + Inserted(s, w, ByTimeout));
  }

  lemma {:induction false} WakeFacts(ready: seq<Work>, blocked: seq<Work>)
    requires Distinct(ready + blocked) && blocked != []
    ensures blocked[0] !in ready && blocked[0] !in blocked[1..] && Distinct(ready + blocked[1..])
    ensures Works(blocked) == Works(blocked[1..]) + {blocked[0]}
  {
    var c := ready + blocked;
    forall i | 0 <= i < |ready| ensures ready[i] != blocked[0] {
      assert c[i] == ready[i] && c[|ready|] == blocked[0];
    }
    forall i | 1 <= i < |blocked| ensures blocked[i] != blocked[0] {
      assert c[|ready| + i] == blocked[i] && c[|ready|] == blocked[0];
    }
    var d := ready + blocked[1..];
    forall i, j | 0 <= i < j < |d| ensures d[i] != d[j] {
      assert d[i] == c[if i < |ready| then i else i + 1] && d[j] == c[if j < |ready| then j else j + 1];
    }
    assert blocked == [blocked[0]] + blocked[1..];
  }
}
