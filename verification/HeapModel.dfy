/** The timer heap on values: which timers it holds, which of them still have a callback, what its ticks ran, and
what its array cost. A deletion only takes the callback away; the timer itself leaves when its time has come, or
when it is popped. */
module HeapModel {
  datatype Timer = Timer(expire: int, armed: bool)

  datatype HeapOp = Insert(id: nat, expire: int, armed: bool) | Disarm(id: nat) | Pop(id: nat) | Expire(clock: int)

  datatype State = State(timers: map<nat, Timer>, trace: seq<set<nat>>, capacity: nat, copied: nat)

  function Due(timers: map<nat, Timer>, clock: int): set<nat> {
    set id | id in timers && timers[id].expire <= clock && timers[id].armed
  }

  function Later(timers: map<nat, Timer>, clock: int): map<nat, Timer> {
    map id | id in timers && timers[id].expire > clock :: timers[id]
  }

  function Step(s: State, op: HeapOp): State {
    match op
    case Insert(id, expire, armed) =>
      var s' := s.(timers := s.timers[id := Timer(expire, armed)]);
      if |s.timers| < s.capacity then s'
      else s'.(capacity := 2 * s.capacity, copied := s.copied + |s.timers|)
    case Disarm(id) => if id in s.timers then s.(timers := s.timers[id := s.timers[id].(armed := false)]) else s
    case Pop(id) => s.(timers := s.timers - {id})
    case Expire(clock) => s.(timers := Later(s.timers, clock), trace := s.trace + [Due(s.timers, clock)])
  }

  function Run(start: map<nat, Timer>, cap: nat, ops: seq<HeapOp>): State {
    if ops == [] then State(start, [], cap, 0)
    else Step(Run(start, cap, ops[..|ops| - 1]), ops[|ops| - 1])
  }

  function InsertsIn(ops: seq<HeapOp>): nat {
    if ops == [] then 0
    else InsertsIn(ops[..|ops| - 1]) + if ops[|ops| - 1].Insert? then 1 else 0
  }

  /** The number of completed ticks. */
  function CompletedIn(ops: seq<HeapOp>): nat {
    if ops == [] then 0
    else CompletedIn(ops[..|ops| - 1]) + if ops[|ops| - 1].Expire? then 1 else 0
  }

  lemma RunNext(start: map<nat, Timer>, cap: nat, ops: seq<HeapOp>, op: HeapOp)
    ensures Run(start, cap, ops + [op]) == Step(Run(start, cap, ops), op)
    ensures InsertsIn(ops + [op]) == InsertsIn(ops) + if op.Insert? then 1 else 0
  {
    assert (ops + [op])[..|ops|] == ops;
  }

  // ----- what the array costs

  lemma {:induction false} SubsetSize(a: set<nat>, b: set<nat>)
    requires a <= b
    ensures |a| <= |b|
  {
    if a != {} {
      var x :| x in a;
      SubsetSize(a - {x}, b - {x});
    }
  }

  lemma StepSize(s: State, op: HeapOp)
    ensures |Step(s, op).timers| <= |s.timers| + if op.Insert? then 1 else 0
  {
    match op
    case Insert(id, _, _) =>
      assert Step(s, op).timers.Keys == s.timers.Keys + {id};
    case Disarm(id) =>
      assert Step(s, op).timers.Keys == s.timers.Keys;
    case Pop(id) =>
      SubsetSize(Step(s, op).timers.Keys, s.timers.Keys);
    case Expire(clock) =>
      SubsetSize(Step(s, op).timers.Keys, s.timers.Keys);
  }

  /** Over every run of adds, deletes, pops and ticks, in an array that has room for one timer at least: all resizes
      together copy as many elements as they add cells, and twice the timers ever held less two bound a capacity
      that has grown. */
  lemma {:induction false} CopiesAmortized(start: map<nat, Timer>, cap: nat, ops: seq<HeapOp>)
    requires 0 < cap && |start| <= cap
    ensures var s, held := Run(start, cap, ops), |start| + InsertsIn(ops);
            && s.copied == s.capacity - cap
            && |s.timers| <= held && |s.timers| <= s.capacity
            && (s.capacity == cap || s.capacity <= 2 * held - 2)
  {
    if ops != [] {
      var front, op := ops[..|ops| - 1], ops[|ops| - 1];
      CopiesAmortized(start, cap, front);
      StepSize(Run(start, cap, front), op);
    }
  }

  /** A capacity of 0 never grows, and any other never shrinks to it: doubling makes room if and only if there was
      some to begin with. */
  lemma {:induction false} RoomExactly(start: map<nat, Timer>, cap: nat, ops: seq<HeapOp>)
    ensures Run(start, cap, ops).capacity > 0 <==> cap > 0
    ensures InsertsIn(ops) == 0 ==> Run(start, cap, ops).capacity == cap && Run(start, cap, ops).copied == 0
  {
    if ops != [] {
      RoomExactly(start, cap, ops[..|ops| - 1]);
    }
  }

  // ----- when a timer runs

  /** A timer's name is used once: not by the timers at the start, nor by another insertion. */
  ghost predicate OnlyInsertedAt(start: map<nat, Timer>, ops: seq<HeapOp>, i: nat)
    requires i < |ops| && ops[i].Insert?
  {
    && ops[i].id !in start
    && forall k :: 0 <= k < |ops| && k != i && ops[k].Insert? ==> ops[k].id != ops[i].id
  }

  /** Between positions i and j the timer inserted at i was not popped, and no clock reached its expiry. */
  ghost predicate StillHeld(ops: seq<HeapOp>, i: nat, j: nat)
    requires i < j <= |ops| && ops[i].Insert?
  {
    forall k :: i < k < j ==> ops[k] != Pop(ops[i].id) && (ops[k].Expire? ==> ops[k].clock < ops[i].expire)
  }

  /** The timer inserted at i had a callback, and none of the operations up to j took it away. */
  ghost predicate StillArmed(ops: seq<HeapOp>, i: nat, j: nat)
    requires i < j <= |ops| && ops[i].Insert?
  {
    ops[i].armed && Disarm(ops[i].id) !in ops[i + 1..j]
  }

  lemma {:induction false} NotYetHeld(start: map<nat, Timer>, cap: nat, ops: seq<HeapOp>, i: nat, j: nat)
    requires j <= i < |ops| && ops[i].Insert? && OnlyInsertedAt(start, ops, i)
    ensures ops[i].id !in Run(start, cap, ops[..j]).timers
    decreases j
  {
    if j > 0 {
      NotYetHeld(start, cap, ops, i, j - 1);
      assert ops[..j][..j - 1] == ops[..j - 1];
    }
  }

  /** What one operation does to a timer, unless it inserts one under its name. */
  lemma HeldStep(s: State, op: HeapOp, id: nat)
    requires op.Insert? ==> op.id != id
    ensures var t, t' := s.timers, Step(s, op).timers;
            && (id in t' <==> id in t && op != Pop(id) && (op.Expire? ==> op.clock < t[id].expire))
            && (id in t' ==> t'[id] == Timer(t[id].expire, t[id].armed && op != Disarm(id)))
  {
  }

  lemma StillHeldNext(ops: seq<HeapOp>, i: nat, j: nat)
    requires i + 1 < j <= |ops| && ops[i].Insert?
    ensures var op, last := ops[i], ops[j - 1];
            && (StillHeld(ops, i, j) <==>
                StillHeld(ops, i, j - 1) && last != Pop(op.id) && (last.Expire? ==> last.clock < op.expire))
            && (StillArmed(ops, i, j) <==> StillArmed(ops, i, j - 1) && last != Disarm(op.id))
  {
    assert ops[i + 1..j] == ops[i + 1..j - 1] + [ops[j - 1]];
  }

  /** Between its insertion at i and position j, a timer is in the heap exactly while it is still held, with its
      expiry and, while it is still armed, its callback. */
  lemma {:induction false} HeldAt(start: map<nat, Timer>, cap: nat, ops: seq<HeapOp>, i: nat, j: nat)
    requires i < j <= |ops| && ops[i].Insert? && OnlyInsertedAt(start, ops, i)
    ensures var op, timers := ops[i], Run(start, cap, ops[..j]).timers;
            && (op.id in timers <==> StillHeld(ops, i, j))
            && (op.id in timers ==> timers[op.id] == Timer(op.expire, StillArmed(ops, i, j)))
    decreases j
  {
    assert ops[..j][..j - 1] == ops[..j - 1];
    if j == i + 1 {
      assert ops[i + 1..j] == [];
    } else {
      HeldAt(start, cap, ops, i, j - 1);
      StillHeldNext(ops, i, j);
      HeldStep(Run(start, cap, ops[..j - 1]), ops[j - 1], ops[i].id);
    }
  }

  lemma {:induction false} TraceGrows(start: map<nat, Timer>, cap: nat, ops: seq<HeapOp>, j: nat)
    requires j <= |ops|
    ensures |Run(start, cap, ops[..j]).trace| == CompletedIn(ops[..j])
    ensures Run(start, cap, ops[..j]).trace <= Run(start, cap, ops).trace
    decreases |ops|
  {
    var front := if ops == [] then [] else ops[..|ops| - 1];
    if j < |ops| {
      assert front[..j] == ops[..j];
      TraceGrows(start, cap, front, j);
    } else {
      assert ops[..j] == ops;
      if ops != [] {
        assert front[..|front|] == front;
        TraceGrows(start, cap, front, |front|);
      }
    }
  }

  /** Exact expiry for arbitrary clock readings, also ones that go backwards: over every run, the tick at position j
      runs the timer inserted at position i if and only if its clock has reached the expiry, no earlier one since the
      insertion had, and the timer had a callback and was neither deleted nor popped in between. */
  lemma ExactExpiry(start: map<nat, Timer>, cap: nat, ops: seq<HeapOp>, i: nat, j: nat)
    requires i < |ops| && j < |ops| && ops[i].Insert? && ops[j].Expire? && OnlyInsertedAt(start, ops, i)
    ensures CompletedIn(ops[..j]) < |Run(start, cap, ops).trace|
    ensures ops[i].id in Run(start, cap, ops).trace[CompletedIn(ops[..j])] <==>
            && i < j && ops[i].expire <= ops[j].clock
            && StillHeld(ops, i, j) && StillArmed(ops, i, j)
  {
    var before := Run(start, cap, ops[..j]);
    TraceGrows(start, cap, ops, j);
    TraceGrows(start, cap, ops, j + 1);
    assert ops[..j + 1][..j] == ops[..j];
    assert Run(start, cap, ops[..j + 1]) == Step(before, ops[j]);
    assert Run(start, cap, ops).trace[CompletedIn(ops[..j])] == Due(before.timers, ops[j].clock);
    if i < j {
      HeldAt(start, cap, ops, i, j);
    } else {
      NotYetHeld(start, cap, ops, i, j);
    }
  }
}
