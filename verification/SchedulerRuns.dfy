/** The timer wheel and the timer heap do the same job.

The wheel unlinks a deleted timer at once, the heap keeps it and only clears its callback; the wheel counts
rotations, the heap compares clock readings. Still, over every run, both run the callbacks of the same timers
on every tick: those the countdown scheduler says. */
module SchedulerRuns {
  import opened Countdown
  import ModularArithmetic
  import WheelModel
  import opened HeapModel
  import opened Sequences
  import TimeWheels
  import TimeHeaps

  /** What a client of the heap does where a client of the wheel does op, having had so many timers accepted and
      seen so many ticks: a timer is given the number of completed ticks plus its distance as expiry, and the k-th
      tick (from 0) reads clock k. */
  function HeapOpsFor(op: Op, accepted: nat, ticks: nat, interval: nat): seq<HeapOp>
    requires 0 < interval
  {
    match op
    case Add(timeout) => if timeout < 0 then [] else [Insert(accepted, ticks + Ticks(timeout, interval), true)]
    case Del(id) => [Disarm(id)]
    case Tick => [Expire(ticks)]
  }

  function HeapOps(ops: seq<Op>, interval: nat): seq<HeapOp>
    requires 0 < interval
  {
    if ops == [] then []
    else
      var front := ops[..|ops| - 1];
      HeapOps(front, interval) + HeapOpsFor(ops[|ops| - 1], AcceptedIn(front), TicksIn(front), interval)
  }

  /** The heap stands for the countdown: its armed timers are the pending ones, due when their ticks are over. */
  ghost predicate Follows(h: HeapModel.State, c: Countdown.State, ticks: nat) {
    && (forall id :: id in c.remaining ==>
          id in h.timers && h.timers[id] == Timer(ticks + c.remaining[id], true))
    && (forall id :: id in h.timers && h.timers[id].armed ==> id in c.remaining)
    && (forall id :: id in h.timers ==> id < c.nextId)
    && h.trace == c.trace
  }

  lemma AddFollows(h: HeapModel.State, c: Countdown.State, timeout: int, ticks: nat, interval: nat)
    requires 0 < interval && Follows(h, c, ticks)
    ensures timeout < 0 ==> Follows(h, Countdown.Step(c, Add(timeout), interval), ticks)
    ensures timeout >= 0 ==>
              Follows(HeapModel.Step(h, Insert(c.nextId, ticks + Ticks(timeout, interval), true)),
                      Countdown.Step(c, Add(timeout), interval), ticks)
  {
  }

  lemma DelFollows(h: HeapModel.State, c: Countdown.State, id: nat, ticks: nat, interval: nat)
    requires 0 < interval && Follows(h, c, ticks)
    ensures Follows(HeapModel.Step(h, Disarm(id)), Countdown.Step(c, Del(id), interval), ticks)
  {
  }

  lemma TickFollows(h: HeapModel.State, c: Countdown.State, ticks: nat, interval: nat)
    requires 0 < interval && Follows(h, c, ticks)
    ensures Follows(HeapModel.Step(h, Expire(ticks)), Countdown.Step(c, Op.Tick, interval), ticks + 1)
  {
    assert HeapModel.Due(h.timers, ticks) == Countdown.Due(c.remaining);
  }

  lemma {:induction false} RunFollows(ops: seq<Op>, cap: nat, interval: nat)
    requires 0 < interval
    ensures Follows(HeapModel.Run(map[], cap, HeapOps(ops, interval)),
                    Countdown.Run(ops, interval), TicksIn(ops))
  {
    if ops != [] {
      var front, op := ops[..|ops| - 1], ops[|ops| - 1];
      var heapFront, heapOps := HeapOps(front, interval), HeapOps(ops, interval);
      RunFollows(front, cap, interval);
      RunCounts(front, interval);
      var h, c, ticks := HeapModel.Run(map[], cap, heapFront), Countdown.Run(front, interval), TicksIn(front);
      match op {
        case Add(timeout) => AddFollows(h, c, timeout, ticks, interval);
        case Del(id) => DelFollows(h, c, id, ticks, interval);
        case Tick => TickFollows(h, c, ticks, interval);
      }
      if |heapOps| > |heapFront| {
        assert heapOps[..|heapOps| - 1] == heapFront;
      } else {
        assert heapOps == heapFront;
      }
    }
  }

  /** On values: over every run, the heap's ticks run exactly the timers the countdown says, and so do the
      wheel's, which list them youngest first. */
  lemma WheelAndHeapModelsAgree(ops: seq<Op>, n: nat, cap: nat, interval: nat)
    requires 0 < interval && 0 < n
    ensures var w, h := WheelModel.Run(ops, n, interval), HeapModel.Run(map[], cap, HeapOps(ops, interval));
            && |w.trace| == |h.trace| == TicksIn(ops)
            && forall k :: 0 <= k < |w.trace| ==> WheelModel.SameFired(w.trace[k], h.trace[k])
  {
    WheelModel.RunRefines(ops, n, interval);
    RunFollows(ops, cap, interval);
    RunCounts(ops, interval);
  }

  /** In memory: a wheel and a heap that went through the same history have, on every tick so far, run the
      callbacks of the same timers, each of them once. */
  lemma WheelAndHeapAgree(w: TimeWheels.TimeWheel, h: TimeHeaps.TimeHeap)
    requires w.Valid() && h.Valid()
    requires h.start == map[] && h.log == HeapOps(w.log, w.interval)
    ensures |w.trace| == |h.trace| == TicksIn(w.log)
    ensures forall k, id :: 0 <= k < |w.trace| ==> (id in w.trace[k] <==> id in h.trace[k])
    ensures forall k :: 0 <= k < |w.trace| ==> multiset(w.trace[k]) == multiset(h.trace[k])
  {
    WheelAndHeapModelsAgree(w.log, w.slots.Length, h.startCapacity, w.interval);
    forall k | 0 <= k < |w.trace| ensures multiset(w.trace[k]) == multiset(h.trace[k]) {
      assert WheelModel.SameFired(w.trace[k], h.Spec().trace[k]);
      assert TimeHeaps.SameCallbacks(h.trace[k], h.Spec().trace[k]);
      SameMultiset(w.trace[k], h.trace[k]);
    }
  }

  lemma {:induction false} SameMultiset(a: seq<nat>, b: seq<nat>)
    requires Distinct(a) && Distinct(b)
    requires forall id :: id in a <==> id in b
    ensures multiset(a) == multiset(b)
  {
    CountsAreOne(a);
    CountsAreOne(b);
    forall id ensures multiset(a)[id] == multiset(b)[id] {
      assert id in multiset(a) <==> id in a;
      assert id in multiset(b) <==> id in b;
    }
  }

  lemma {:induction false} CountsAreOne(a: seq<nat>)
    requires Distinct(a)
    ensures forall id :: id in a ==> multiset(a)[id] == 1
  {
    if a != [] {
      var front, last := a[..|a| - 1], a[|a| - 1];
      CountsAreOne(front);
      assert a == front + [last];
      assert last !in multiset(front) by { assert last !in front; }
    }
  }

  /** In memory: the timer accepted at position i of a wheel's history ran on the tick at position j if and only
      if as many ticks lie between as its timeout stands for and it was not deleted before; and it ran at most once
      then. */
  lemma WheelExpiresExactly(w: TimeWheels.TimeWheel, i: nat, j: nat)
    requires w.Valid() && i < |w.log| && j < |w.log|
    requires w.log[i].Add? && w.log[i].timeout >= 0 && w.log[j].Tick?
    ensures var k, id := TicksIn(w.log[..j]), AcceptedIn(w.log[..i]);
            && k < |w.trace|
            && (id in w.trace[k] <==>
                && i < j
                && StandsFor(w.log[i].timeout, w.interval, TicksIn(w.log[i + 1..j]))
                && Del(id) !in w.log[i + 1..j])
            && multiset(w.trace[k])[id] <= 1
            && WheelModel.DescendingIds(w.trace[k])
  {
    WheelModel.RunRefines(w.log, w.slots.Length, w.interval);
    Countdown.ExactExpiry(w.log, i, j, w.interval);
    var k, id := TicksIn(w.log[..j]), AcceptedIn(w.log[..i]);
    assert WheelModel.SameFired(w.trace[k], Countdown.Run(w.log, w.interval).trace[k]);
    CountsAreOne(w.trace[k]);
    assert id in multiset(w.trace[k]) <==> id in w.trace[k];
  }

  /** In memory: the timer added at position i of a heap's history ran on the tick at position j if and only if that
      tick's clock had reached its expiry, no earlier one had, and it was neither deleted nor popped before; and it ran
      at most once then. The clock may read anything. */
  lemma HeapExpiresExactly(h: TimeHeaps.TimeHeap, i: nat, j: nat)
    requires h.Valid() && i < |h.log| && j < |h.log|
    requires h.log[i].Insert? && h.log[j].Expire? && OnlyInsertedAt(h.start, h.log, i)
    ensures var k, id := CompletedIn(h.log[..j]), h.log[i].id;
            && k < |h.trace|
            && (id in h.trace[k] <==>
                && i < j && h.log[i].expire <= h.log[j].clock
                && StillHeld(h.log, i, j) && StillArmed(h.log, i, j))
            && multiset(h.trace[k])[id] <= 1
  {
    HeapModel.ExactExpiry(h.start, h.startCapacity, h.log, i, j);
    var k, id := CompletedIn(h.log[..j]), h.log[i].id;
    assert TimeHeaps.SameCallbacks(h.trace[k], h.Spec().trace[k]);
    CountsAreOne(h.trace[k]);
    assert id in multiset(h.trace[k]) <==> id in h.trace[k];
  }

  /** In memory: at any moment the wheel's live nodes are the pending timers, and rotation, slot and cursor of
      a node together say how many ticks it still has to wait. */
  lemma WheelCountsDown(w: TimeWheels.TimeWheel)
    requires w.Valid()
    ensures var pending := Countdown.Run(w.log, w.interval).remaining;
            && (forall t :: t in w.nodes ==>
                  t.id in pending
                  && pending[t.id] == t.rotation * w.slots.Length + (t.timeSlot - w.curSlot) % w.slots.Length)
            && (forall id :: id in pending ==> exists t :: t in w.nodes && t.id == id)
  {
    var n, c := w.slots.Length, Countdown.Run(w.log, w.interval);
    WheelModel.RunRefines(w.log, n, w.interval);
    forall t | t in w.nodes
      ensures t.id in c.remaining && c.remaining[t.id] == t.rotation * n + (t.timeSlot - w.curSlot) % n
    {
      var s := t.timeSlot;
      assert TimeWheels.Carries(w.lists[s], w.model.slots[s]);
      var i :| 0 <= i < |w.lists[s]| && w.lists[s][i] == t;
      assert w.model.slots[s][i] == WheelModel.Entry(t.id, t.rotation);
      assert WheelModel.At(w.model, c, n, s, t.id, t.rotation);
    }
    forall id | id in c.remaining ensures exists t :: t in w.nodes && t.id == id {
      var d := c.remaining[id];
      var s, r := (w.curSlot + d % n) % n, d / n;
      ModularArithmetic.SlotOfDistance(w.curSlot, d, n, s, r);
      assert WheelModel.At(w.model, c, n, s, id, r);
      assert TimeWheels.Carries(w.lists[s], w.model.slots[s]);
      var i :| 0 <= i < |w.model.slots[s]| && w.model.slots[s][i] == WheelModel.Entry(id, r);
      assert w.lists[s][i] in w.nodes;
    }
  }

  // ----- the heap's side of a run

  /** The heap has gone through the run that corresponds to ops. */
  ghost predicate Replays(h: TimeHeaps.TimeHeap, ops: seq<Op>, interval: nat)
    requires 0 < interval
    reads h, h.cells, h.members
  {
    h.Valid() && 0 < h.capacity && h.start == map[] && h.log == HeapOps(ops, interval)
  }

  lemma HeapOpsNext(ops: seq<Op>, op: Op, interval: nat)
    requires 0 < interval
    ensures HeapOps(ops + [op], interval)
         == HeapOps(ops, interval) + HeapOpsFor(op, AcceptedIn(ops), TicksIn(ops), interval)
  {
    assert (ops + [op])[..|ops|] == ops;
  }

  /** The next name is free in the heap, although it still holds deleted timers. */
  lemma NextNameIsFree(h: TimeHeaps.TimeHeap, ops: seq<Op>, interval: nat)
    requires 0 < interval && Replays(h, ops, interval)
    ensures !TimeHeaps.Named(h.members, AcceptedIn(ops))
  {
    RunFollows(ops, h.startCapacity, interval);
    RunCounts(ops, interval);
  }

  method AddToHeap(h: TimeHeaps.TimeHeap, timeout: nat, clock: nat, ghost ops: seq<Op>, interval: nat)
    returns (u: TimeHeaps.HeapTimer, ghost wait: nat)
    requires 0 < interval && Replays(h, ops, interval) && clock == TicksIn(ops)
    modifies h, h.cells
    ensures Replays(h, ops + [Add(timeout)], interval)
    ensures fresh(u) && u.id == AcceptedIn(ops) && h.members == old(h.members) + {u}
    ensures StandsFor(timeout, interval, wait) && u.expire == clock + wait
    ensures h.cells == old(h.cells) || fresh(h.cells)
  {
    wait := Ticks(timeout, interval);
    TicksExactly(timeout, interval, wait);
    u := new TimeHeaps.HeapTimer(clock, Ticks(timeout, interval), AcceptedIn(ops));
    Enter(h, u, timeout, ops, interval);
  }

  /** Adds u, which is made for this timeout. */
  method Enter(h: TimeHeaps.TimeHeap, u: TimeHeaps.HeapTimer, ghost timeout: nat, ghost ops: seq<Op>,
               ghost interval: nat)
    requires 0 < interval && Replays(h, ops, interval) && u.live && u.armed && u.id == AcceptedIn(ops)
    requires u.expire == TicksIn(ops) + Ticks(timeout, interval)
    modifies h, h.cells
    ensures Replays(h, ops + [Add(timeout)], interval) && h.members == old(h.members) + {u}
    ensures h.cells == old(h.cells) || fresh(h.cells)
  {
    HeapOpsNext(ops, Add(timeout), interval);
    NextNameIsFree(h, ops, interval);
    ghost var moves, place := h.AddTimer(u);
  }

  method DelFromHeap(h: TimeHeaps.TimeHeap, u: TimeHeaps.HeapTimer, ghost ops: seq<Op>, interval: nat)
    requires 0 < interval && Replays(h, ops, interval) && u in h.members
    modifies h`log, u`armed
    ensures Replays(h, ops + [Del(u.id)], interval) && !u.armed
  {
    HeapOpsNext(ops, Del(u.id), interval);
    assert h.members + {u} == h.members;
    h.DelTimer(u);
  }

  method TickHeap(h: TimeHeaps.TimeHeap, clock: nat, ghost ops: seq<Op>, interval: nat)
    returns (fired: seq<TimeHeaps.HeapTimer>)
    requires 0 < interval && Replays(h, ops, interval) && clock == TicksIn(ops)
    modifies h`elems, h`curSize, h`members, h`log, h`trace, h.cells, h.members`live
    ensures Replays(h, ops + [Op.Tick], interval) && h.trace == old(h.trace) + [TimeHeaps.Ids(fired)]
  {
    HeapOpsNext(ops, Op.Tick, interval);
    fired := h.Tick(clock);
  }

  // ----- a wheel and a heap driven side by side

  /** The two have gone through the same history so far. */
  ghost predicate SideBySide(w: TimeWheels.TimeWheel, h: TimeHeaps.TimeHeap)
    reads w, w.slots, w.nodes, h, h.cells, h.members
  {
    w.Valid() && Replays(h, w.log, w.interval) && w.slots as object != h.cells
  }

  method StartBoth(n: nat, interval: nat, cap: nat) returns (w: TimeWheels.TimeWheel, h: TimeHeaps.TimeHeap)
    requires 0 < n && 0 < interval && 0 < cap
    ensures SideBySide(w, h) && w.log == []
    ensures fresh(w) && fresh(w.slots) && fresh(h) && fresh(h.cells) && w.nodes == {} && h.members == {}
  {
    w := new TimeWheels.TimeWheel(n, interval);
    h := new TimeHeaps.TimeHeap(cap);
  }

  /** Adds a timer to both. The clock reads the number of completed ticks. */
  method AddBoth(w: TimeWheels.TimeWheel, h: TimeHeaps.TimeHeap, timeout: int, clock: nat)
    returns (t: TimeWheels.TwTimer?, u: TimeHeaps.HeapTimer?, ghost wait: nat)
    requires SideBySide(w, h) && clock == TicksIn(w.log)
    modifies w, w.slots, w.nodes, h, h.cells
    ensures SideBySide(w, h) && w.log == old(w.log) + [Add(timeout)]
    ensures t == null <==> timeout < 0
    ensures u == null <==> timeout < 0
    ensures timeout < 0 ==> w.nodes == old(w.nodes) && h.members == old(h.members)
    ensures timeout >= 0 ==> t.id == u.id && fresh(t) && fresh(u)
    ensures timeout >= 0 ==> StandsFor(timeout, w.interval, wait) && u.expire == clock + wait
    ensures timeout >= 0 ==> w.nodes == old(w.nodes) + {t} && h.members == old(h.members) + {u}
    ensures h.cells == old(h.cells) || fresh(h.cells)
  {
    if timeout < 0 {
      RefuseBoth(w, h, timeout);
      t, u, wait := null, null, 0;
    } else {
      t, u, wait := AcceptBoth(w, h, timeout, clock);
    }
  }

  /** The wheel refuses a negative timeout; nobody would hand the heap one. */
  method RefuseBoth(w: TimeWheels.TimeWheel, h: TimeHeaps.TimeHeap, timeout: int)
    requires SideBySide(w, h) && timeout < 0
    modifies w, w.slots, w.nodes
    ensures SideBySide(w, h) && w.log == old(w.log) + [Add(timeout)] && w.nodes == old(w.nodes)
  {
    HeapOpsNext(w.log, Add(timeout), w.interval);
    var _ := w.AddTimer(timeout);
  }

  /** The same for a valid timeout. */
  method AcceptBoth(w: TimeWheels.TimeWheel, h: TimeHeaps.TimeHeap, timeout: nat, clock: nat)
    returns (t: TimeWheels.TwTimer, u: TimeHeaps.HeapTimer, ghost wait: nat)
    requires SideBySide(w, h) && clock == TicksIn(w.log)
    modifies w, w.slots, w.nodes, h, h.cells
    ensures SideBySide(w, h) && w.log == old(w.log) + [Add(timeout)]
    ensures t.id == u.id && fresh(t) && fresh(u)
    ensures StandsFor(timeout, w.interval, wait) && u.expire == clock + wait
    ensures w.nodes == old(w.nodes) + {t} && h.members == old(h.members) + {u}
    ensures h.cells == old(h.cells) || fresh(h.cells)
  {
    u, wait := AddToHeap(h, timeout, clock, w.log, w.interval);
    t := w.AddTimer(timeout);
  }

  /** A timer that is still in the wheel is still in the heap, with its callback. */
  lemma Counterpart(w: TimeWheels.TimeWheel, h: TimeHeaps.TimeHeap, t: TimeWheels.TwTimer)
    requires SideBySide(w, h) && t in w.nodes
    ensures exists u :: u in h.members && u.id == t.id && u.armed
  {
    WheelCountsDown(w);
    RunFollows(w.log, h.startCapacity, w.interval);
    assert TimeHeaps.Named(h.members, t.id);
  }

  /** Deletes a timer from both. */
  method DelBoth(w: TimeWheels.TimeWheel, h: TimeHeaps.TimeHeap, t: TimeWheels.TwTimer, u: TimeHeaps.HeapTimer)
    requires SideBySide(w, h) && t in w.nodes && u in h.members && t.id == u.id
    modifies w, w.slots, w.nodes, h`log, u`armed
    ensures SideBySide(w, h) && w.log == old(w.log) + [Del(t.id)]
    ensures w.nodes == old(w.nodes) - {t} && !u.armed
  {
    DelFromHeap(h, u, w.log, w.interval);
    w.DelTimer(t);
  }

  /** One tick of both runs the same timers, each once. */
  method TickBoth(w: TimeWheels.TimeWheel, h: TimeHeaps.TimeHeap, clock: nat)
    returns (byWheel: seq<TimeWheels.TwTimer>, byHeap: seq<TimeHeaps.HeapTimer>)
    requires SideBySide(w, h) && clock == TicksIn(w.log)
    modifies w, w.slots, w.nodes, h, h.cells, h.members`live
    ensures SideBySide(w, h) && w.log == old(w.log) + [Op.Tick] && TicksIn(w.log) == clock + 1
    ensures multiset(TimeWheels.Ids(byWheel)) == multiset(TimeHeaps.Ids(byHeap))
  {
    assert (w.log + [Op.Tick])[..|w.log|] == w.log;
    byHeap := TickHeap(h, clock, w.log, w.interval);
    byWheel := w.Tick();
    LastTickAgrees(w, h, TimeWheels.Ids(byWheel), TimeHeaps.Ids(byHeap));
  }

  lemma LastTickAgrees(w: TimeWheels.TimeWheel, h: TimeHeaps.TimeHeap, byWheel: seq<nat>, byHeap: seq<nat>)
    requires SideBySide(w, h) && w.trace != [] && h.trace != []
    requires byWheel == w.trace[|w.trace| - 1] && byHeap == h.trace[|h.trace| - 1]
    ensures multiset(byWheel) == multiset(byHeap)
  {
    WheelAndHeapAgree(w, h);
  }
}
