/** The countdown scheduler: the reference that both the timer wheel and the timer heap are compared with.

A timer is a number of remaining ticks. A tick runs the callbacks of the timers that stand at zero, forgets
them, and lowers every other timer by one. Timers are named by the order in which they were accepted. */
module Countdown {
  import opened ModularArithmetic

  /** What a client may do with a scheduler between construction and destruction. */
  datatype Op = Add(timeout: int) | Del(id: nat) | Tick

  datatype State = State(remaining: map<nat, nat>, nextId: nat, trace: seq<set<nat>>)

  /** How many slots ahead a timeout lies: at least one, and rounded down otherwise. */
  function Ticks(timeout: nat, interval: nat): nat
    requires 0 < interval
  {
    if timeout < interval then 1 else timeout / interval
  }

  /** d ticks are what a timeout stands for: one where it is shorter than the interval, and otherwise as many as there
      are whole intervals in it. */
  ghost predicate StandsFor(timeout: nat, interval: nat, d: int) {
    && (timeout < interval ==> d == 1)
    && (timeout >= interval ==> d * interval <= timeout < d * interval + interval)
  }

  lemma TicksExactly(timeout: nat, interval: nat, d: int)
    requires 0 < interval
    ensures d == Ticks(timeout, interval) <==> StandsFor(timeout, interval, d)
  {
    if timeout >= interval {
      var q := timeout / interval;
      assert q * interval + timeout % interval == timeout;
      if d * interval <= timeout < d * interval + interval {
        DivModUnique(timeout, interval, d, timeout - d * interval);
      }
    }
  }

  function Due(remaining: map<nat, nat>): set<nat> {
    set id | id in remaining && remaining[id] == 0
  }

  function Lowered(remaining: map<nat, nat>): map<nat, nat> {
    map id | id in remaining && remaining[id] > 0 :: remaining[id] - 1
  }

  function Step(s: State, op: Op, interval: nat): State
    requires 0 < interval
  {
    match op
    case Add(timeout) =>
      if timeout < 0 then s
      else State(s.remaining[s.nextId := Ticks(timeout, interval)], s.nextId + 1, s.trace)
    case Del(id) => s.(remaining := s.remaining - {id})
    case Tick => State(Lowered(s.remaining), s.nextId, s.trace + [Due(s.remaining)])
  }

  function Run(ops: seq<Op>, interval: nat): State
    requires 0 < interval
  {
    if ops == [] then State(map[], 0, [])
    else Step(Run(ops[..|ops| - 1], interval), ops[|ops| - 1], interval)
  }

  /** The number of completed ticks. */
  function TicksIn(ops: seq<Op>): nat {
    if ops == [] then 0
    else TicksIn(ops[..|ops| - 1]) + if ops[|ops| - 1].Tick? then 1 else 0
  }

  /** The number of accepted timers, which is also the name of the next one. */
  function AcceptedIn(ops: seq<Op>): nat {
    if ops == [] then 0
    else AcceptedIn(ops[..|ops| - 1]) + if ops[|ops| - 1].Add? && ops[|ops| - 1].timeout >= 0 then 1 else 0
  }

  lemma {:induction false} RunCounts(ops: seq<Op>, interval: nat)
    requires 0 < interval
    ensures Run(ops, interval).nextId == AcceptedIn(ops)
    ensures |Run(ops, interval).trace| == TicksIn(ops)
    ensures forall id :: id in Run(ops, interval).remaining ==> id < AcceptedIn(ops)
  {
    if ops != [] {
      RunCounts(ops[..|ops| - 1], interval);
    }
  }

  /** A later operation never rewrites what an earlier tick recorded. */
  lemma {:induction false} TraceGrows(ops: seq<Op>, j: nat, interval: nat)
    requires 0 < interval && j <= |ops|
    ensures Run(ops[..j], interval).trace <= Run(ops, interval).trace
    decreases |ops|
  {
    if j == |ops| {
      assert ops[..j] == ops;
    } else {
      var front := ops[..|ops| - 1];
      assert front[..j] == ops[..j];
      TraceGrows(front, j, interval);
    }
  }

  /** What one operation does to a timer that was accepted before. */
  lemma RemainingStep(s: State, op: Op, id: nat, interval: nat)
    requires 0 < interval && id < s.nextId
    ensures var r, r' := s.remaining, Step(s, op, interval).remaining;
            && (id in r' <==> id in r && op != Del(id) && (op.Tick? ==> r[id] > 0))
            && (id in r' ==> r'[id] == r[id] - if op.Tick? then 1 else 0)
  {
  }

  lemma BetweenNext(ops: seq<Op>, i: nat, j: nat, op: Op)
    requires i + 1 < j <= |ops|
    ensures TicksIn(ops[i + 1..j]) == TicksIn(ops[i + 1..j - 1]) + if ops[j - 1].Tick? then 1 else 0
    ensures op in ops[i + 1..j] <==> op in ops[i + 1..j - 1] || op == ops[j - 1]
  {
    assert ops[i + 1..j] == ops[i + 1..j - 1] + [ops[j - 1]];
  }

  lemma {:induction false} CountsDown(ops: seq<Op>, i: nat, j: nat, interval: nat)
    requires 0 < interval && i < j <= |ops|
    requires ops[i].Add? && ops[i].timeout >= 0
    ensures var id, c, t := AcceptedIn(ops[..i]), Run(ops[..j], interval), TicksIn(ops[i + 1..j]);
            var wait := Ticks(ops[i].timeout, interval);
            && (id in c.remaining <==> Del(id) !in ops[i + 1..j] && t <= wait)
            && (id in c.remaining ==> c.remaining[id] == wait - t)
    decreases j
  {
    assert ops[..j][..j - 1] == ops[..j - 1];
    if j == i + 1 {
      RunCounts(ops[..i], interval);
      assert ops[i + 1..j] == [];
    } else {
      var id := AcceptedIn(ops[..i]);
      CountsDown(ops, i, j - 1, interval);
      BetweenNext(ops, i, j, Del(id));
      RunCounts(ops[..j - 1], interval);
      AcceptedGrows(ops, i, j - 1);
      RemainingStep(Run(ops[..j - 1], interval), ops[j - 1], id, interval);
    }
  }

  /** Between its acceptance at position i and position j, a timer is pending exactly when it was neither
      deleted nor overtaken, and then it has counted every tick since. */
  lemma PendingAt(ops: seq<Op>, i: nat, j: nat, wait: nat, interval: nat)
    requires 0 < interval && i < j <= |ops|
    requires ops[i].Add? && ops[i].timeout >= 0 && StandsFor(ops[i].timeout, interval, wait)
    ensures var id, c, t := AcceptedIn(ops[..i]), Run(ops[..j], interval), TicksIn(ops[i + 1..j]);
            && (id in c.remaining <==> Del(id) !in ops[i + 1..j] && t <= wait)
            && (id in c.remaining ==> c.remaining[id] == wait - t)
  {
    TicksExactly(ops[i].timeout, interval, wait);
    CountsDown(ops, i, j, interval);
  }

  lemma {:induction false} AcceptedGrows(ops: seq<Op>, i: nat, j: nat)
    requires i < j <= |ops| && ops[i].Add? && ops[i].timeout >= 0
    ensures AcceptedIn(ops[..i]) < AcceptedIn(ops[..j])
    decreases j
  {
    assert ops[..j][..j - 1] == ops[..j - 1];
    if j > i + 1 {
      AcceptedGrows(ops, i, j - 1);
    }
  }

  /** Exact expiry: over every run, the tick at position j runs the timer accepted at position i if and only if
      as many ticks lie strictly between them as the timeout stands for and the timer was not deleted in between.
      Hence a timer that stands for d ticks and is not deleted first runs on the (d + 1)-th tick after its acceptance,
      and on no other. */
  lemma ExactExpiry(ops: seq<Op>, i: nat, j: nat, interval: nat)
    requires 0 < interval && i < |ops| && j < |ops|
    requires ops[i].Add? && ops[i].timeout >= 0 && ops[j].Tick?
    ensures TicksIn(ops[..j]) < |Run(ops, interval).trace|
    ensures var id := AcceptedIn(ops[..i]);
            id in Run(ops, interval).trace[TicksIn(ops[..j])] <==>
            && i < j
            && StandsFor(ops[i].timeout, interval, TicksIn(ops[i + 1..j]))
            && Del(id) !in ops[i + 1..j]
  {
    var k := TicksIn(ops[..j]);
    RunCounts(ops[..j], interval);
    TraceGrows(ops, j + 1, interval);
    assert ops[..j + 1][..j] == ops[..j];
    assert Run(ops[..j + 1], interval) == Step(Run(ops[..j], interval), Tick, interval);
    assert Run(ops, interval).trace[k] == Due(Run(ops[..j], interval).remaining);
    if i < j {
      CountsDown(ops, i, j, interval);
      TicksExactly(ops[i].timeout, interval, TicksIn(ops[i + 1..j]));
    } else {
      AcceptedMonotone(ops, j, i);
    }
  }

  lemma {:induction false} AcceptedMonotone(ops: seq<Op>, i: nat, j: nat)
    requires i <= j <= |ops|
    ensures AcceptedIn(ops[..i]) <= AcceptedIn(ops[..j])
    decreases j
  {
    if i < j {
      assert ops[..j][..j - 1] == ops[..j - 1];
      AcceptedMonotone(ops, i, j - 1);
    }
  }
}
