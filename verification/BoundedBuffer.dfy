/** The bounded buffer: any number of producers and consumers over a ring of cells, two counting semaphores and
a mutex, as a state machine in which every step is one statement of one thread.

The cells, the two positions and the semaphores are shared; an item on its way is held by its thread. The
histories written and read list the items in the order in which the critical sections handled them, writers and
readers the threads that were inside. For each thread, drawn is what its calls of rand returned, and taken are the
items it is through with as a consumer. */
module BoundedBuffer {
  import opened ModularArithmetic

  /** Where a thread stands: what it does next. */
  datatype Pc =
    // a producer
    | Produce               // make up an item
    | WaitEmpty(item: int)  // take an empty token
    | LockP(item: int)
    | Write(item: int)      // fill the cell at in
    | AdvanceIn
    | UnlockP
    | PostFull              // give back a full token
    // a consumer
    | WaitFull              // take a full token
    | LockC
    | Read                  // fetch the item at out
    | AdvanceOut(item: int)
    | UnlockC
    | PostEmpty             // give back an empty token

  datatype Option<T> = None | Some(value: T)

  datatype State = State(
    buffer: seq<int>, inPos: nat, outPos: nat,
    empty: nat, full: nat, mutex: Option<nat>,
    pcs: seq<Pc>,
    written: seq<int>, writers: seq<nat>,
    read: seq<int>, readers: seq<nat>,
    drawn: seq<seq<nat>>, taken: seq<seq<int>>)

  predicate IsProducer(pc: Pc) {
    pc.Produce? || pc.WaitEmpty? || pc.LockP? || pc.Write? || pc.AdvanceIn? || pc.UnlockP? || pc.PostFull?
  }

  ghost predicate Init(s: State) {
    && |s.buffer| > 0 && s.inPos == 0 && s.outPos == 0
    && s.empty == |s.buffer| && s.full == 0 && s.mutex == None
    && (forall t :: 0 <= t < |s.pcs| ==> s.pcs[t] == Produce || s.pcs[t] == WaitFull)
    && s.written == [] && s.writers == [] && s.read == [] && s.readers == []
    && |s.drawn| == |s.taken| == |s.pcs|
    && forall t :: 0 <= t < |s.pcs| ==> s.drawn[t] == [] && s.taken[t] == []
  }

  /** Thread t can run its next statement. Only the semaphores and the mutex make a thread wait. */
  predicate Enabled(s: State, t: nat)
    requires t < |s.pcs|
  {
    match s.pcs[t]
    case WaitEmpty(_) => s.empty > 0
    case WaitFull => s.full > 0
    case LockP(_) => s.mutex == None
    case LockC => s.mutex == None
    case _ => true
  }

  ghost predicate Ready(s: State) {
    |s.buffer| > 0 && s.inPos < |s.buffer| && s.outPos < |s.buffer| && |s.drawn| == |s.taken| == |s.pcs|
  }

  /** Thread t runs one statement; rand is what its call of rand returns, if it makes one. */
  function Step(s: State, t: nat, rand: nat): State
    requires Ready(s) && t < |s.pcs| && Enabled(s, t)
  {
    var n := |s.buffer|;
    match s.pcs[t]
    case Produce => s.(drawn := s.drawn[t := s.drawn[t] + [rand]], pcs := s.pcs[t := WaitEmpty(rand % 100)])
    case WaitEmpty(item) => s.(empty := s.empty - 1, pcs := s.pcs[t := LockP(item)])
    case LockP(item) => s.(mutex := Some(t), pcs := s.pcs[t := Write(item)])
    case Write(item) =>
      s.(buffer := s.buffer[s.inPos := item], written := s.written + [item], writers := s.writers + [t],
         pcs := s.pcs[t := AdvanceIn])
    case AdvanceIn => s.(inPos := (s.inPos + 1) % n, pcs := s.pcs[t := UnlockP])
    case UnlockP => s.(mutex := None, pcs := s.pcs[t := PostFull])
    case PostFull => s.(full := s.full + 1, pcs := s.pcs[t := Produce])
    case WaitFull => s.(full := s.full - 1, pcs := s.pcs[t := LockC])
    case LockC => s.(mutex := Some(t), pcs := s.pcs[t := Read])
    case Read =>
      var item := s.buffer[s.outPos];
      s.(read := s.read + [item], readers := s.readers + [t], pcs := s.pcs[t := AdvanceOut(item)])
    case AdvanceOut(item) =>
      s.(outPos := (s.outPos + 1) % n, taken := s.taken[t := s.taken[t] + [item]], pcs := s.pcs[t := UnlockC])
    case UnlockC => s.(mutex := None, pcs := s.pcs[t := PostEmpty])
    case PostEmpty => s.(empty := s.empty + 1, pcs := s.pcs[t := WaitFull])
  }

  // ----- counting threads

  function Sum(pcs: seq<Pc>, f: Pc -> int): int {
    if pcs == [] then 0 else Sum(pcs[..|pcs| - 1], f) + f(pcs[|pcs| - 1])
  }

  /** One thread moving on changes a sum over all threads by what it contributes. */
  lemma {:induction false} SumUpdate(pcs: seq<Pc>, f: Pc -> int, t: nat, pc: Pc)
    requires t < |pcs|
    ensures Sum(pcs[t := pc], f) == Sum(pcs, f) - f(pcs[t]) + f(pc)
  {
    var n := |pcs| - 1;
    if t == n {
      assert pcs[t := pc][..n] == pcs[..n];
    } else {
      SumUpdate(pcs[..n], f, t, pc);
      assert pcs[t := pc][..n] == pcs[..n][t := pc];
    }
  }

  lemma {:induction false} SumBound(pcs: seq<Pc>, f: Pc -> int, t: nat)
    requires t < |pcs| && forall pc :: f(pc) >= 0
    ensures Sum(pcs, f) >= f(pcs[t]) && Sum(pcs[..t], f) >= 0
    decreases |pcs|
  {
    SumNonNegative(pcs[..t], f);
    if t < |pcs| - 1 {
      SumBound(pcs[..|pcs| - 1], f, t);
    } else {
      SumNonNegative(pcs[..|pcs| - 1], f);
    }
  }

  lemma {:induction false} SumNonNegative(pcs: seq<Pc>, f: Pc -> int)
    requires forall pc :: f(pc) >= 0
    ensures Sum(pcs, f) >= 0
  {
    if pcs != [] {
      SumNonNegative(pcs[..|pcs| - 1], f);
    }
  }

  /** A producer that took an empty token and has not written yet. */
  function ToWrite(pc: Pc): int {
    if pc.LockP? || pc.Write? then 1 else 0
  }

  /** A producer that has written and not posted yet. */
  function ToPostFull(pc: Pc): int {
    if pc.AdvanceIn? || pc.UnlockP? || pc.PostFull? then 1 else 0
  }

  /** A consumer that took a full token and has not read yet. */
  function ToRead(pc: Pc): int {
    if pc.LockC? || pc.Read? then 1 else 0
  }

  /** A consumer that has read and not posted yet. */
  function ToPostEmpty(pc: Pc): int {
    if pc.AdvanceOut? || pc.UnlockC? || pc.PostEmpty? then 1 else 0
  }

  predicate Inside(pc: Pc) {
    pc.Write? || pc.AdvanceIn? || pc.UnlockP? || pc.Read? || pc.AdvanceOut? || pc.UnlockC?
  }

  // ----- the invariant

  /** The tokens: full ones stand for items in the ring, empty ones for free cells, and a token that no
      semaphore holds is with a thread between its wait and its post. */
  ghost predicate Tokens(s: State) {
    && |s.read| <= |s.written|
    && s.full + Sum(s.pcs, ToPostFull) + Sum(s.pcs, ToRead) == |s.written| - |s.read|
    && s.empty + Sum(s.pcs, ToWrite) + Sum(s.pcs, ToPostEmpty) == |s.buffer| - (|s.written| - |s.read|)
  }

  /** At most one thread is inside, and the mutex knows which. */
  ghost predicate Exclusion(s: State) {
    && (s.mutex.Some? ==> s.mutex.value < |s.pcs|)
    && forall t :: 0 <= t < |s.pcs| ==> (Inside(s.pcs[t]) <==> s.mutex == Some(t))
  }

  /** The thread inside has written, or read, and is about to advance the position. */
  predicate Advancing(s: State, out: bool) {
    && s.mutex.Some? && s.mutex.value < |s.pcs|
    && (if out then s.pcs[s.mutex.value].AdvanceOut? else s.pcs[s.mutex.value].AdvanceIn?)
  }

  /** The positions are the write and the read count modulo the capacity, less one while a thread is about to
      advance them. */
  ghost predicate Positions(s: State) {
    && Ready(s)
    && (if Advancing(s, false) then |s.written| > 0 && s.inPos == (|s.written| - 1) % |s.buffer|
        else s.inPos == |s.written| % |s.buffer|)
    && (if Advancing(s, true) then |s.read| > 0 && s.outPos == (|s.read| - 1) % |s.buffer|
        else s.outPos == |s.read| % |s.buffer|)
  }

  /** First in, first out: what was read is what was written first, and the ring holds the rest in order. */
  ghost predicate Fifo(s: State) {
    && |s.buffer| > 0 && |s.read| <= |s.written| <= |s.read| + |s.buffer|
    && s.read == s.written[..|s.read|]
    && forall k {:trigger s.written[k]} :: |s.read| <= k < |s.written| ==> s.buffer[k % |s.buffer|] == s.written[k]
  }

  /** Those of the items that thread t handled, in order. */
  function Of(items: seq<int>, threads: seq<nat>, t: nat): seq<int>
    requires |items| == |threads|
  {
    if items == [] then []
    else
      var n := |items| - 1;
      Of(items[..n], threads[..n], t) + if threads[n] == t then [items[n]] else []
  }

  /** The item that a producer has made and not yet written. */
  function Carried(pc: Pc): seq<int> {
    match pc
    case WaitEmpty(item) => [item]
    case LockP(item) => [item]
    case Write(item) => [item]
    case _ => []
  }

  /** The item that a consumer has read and is not yet through with. */
  function Held(pc: Pc): seq<int> {
    if pc.AdvanceOut? then [pc.item] else []
  }

  /** What thread t wrote, and then the one item it carries, is what its calls of rand returned, modulo 100. */
  ghost predicate WritesWhatItDraws(s: State, t: nat)
    requires |s.written| == |s.writers| && t < |s.pcs| == |s.drawn|
  {
    var items := Of(s.written, s.writers, t) + Carried(s.pcs[t]);
    |items| == |s.drawn[t]| && forall k :: 0 <= k < |items| ==> items[k] == s.drawn[t][k] % 100
  }

  /** What thread t is through with, and then the one item it holds, is what it read. */
  ghost predicate TakesWhatItReads(s: State, t: nat)
    requires |s.read| == |s.readers| && t < |s.pcs| == |s.taken|
  {
    s.taken[t] + Held(s.pcs[t]) == Of(s.read, s.readers, t)
  }

  /** Every item written is from a producer that made it, and every item read went to a consumer. */
  ghost predicate Attributed(s: State) {
    && |s.written| == |s.writers| && |s.read| == |s.readers| && |s.drawn| == |s.taken| == |s.pcs|
    && (forall k :: 0 <= k < |s.writers| ==> s.writers[k] < |s.pcs| && IsProducer(s.pcs[s.writers[k]]))
    && (forall k :: 0 <= k < |s.readers| ==> s.readers[k] < |s.pcs| && !IsProducer(s.pcs[s.readers[k]]))
    && forall t :: 0 <= t < |s.pcs| ==> WritesWhatItDraws(s, t) && TakesWhatItReads(s, t)
  }

  ghost predicate Inv(s: State) {
    Tokens(s) && Exclusion(s) && Positions(s) && Fifo(s) && Attributed(s)
  }

  lemma InitInv(s: State)
    requires Init(s)
    ensures Inv(s) && Sum(s.pcs, Phase) == 0
  {
    AllZero(s.pcs, ToWrite);
    AllZero(s.pcs, ToPostFull);
    AllZero(s.pcs, ToRead);
    AllZero(s.pcs, ToPostEmpty);
    AllZero(s.pcs, Phase);
    DivModUnique(0, |s.buffer|, 0, 0);
  }

  lemma {:induction false} AllZero(pcs: seq<Pc>, f: Pc -> int)
    requires forall t :: 0 <= t < |pcs| ==> f(pcs[t]) == 0
    ensures Sum(pcs, f) == 0
  {
    if pcs != [] {
      AllZero(pcs[..|pcs| - 1], f);
    }
  }

  /** A thread between its wait and its post holds a token, so the semaphores cannot account for all of them. */
  lemma HeldTokens(s: State, t: nat)
    requires Tokens(s) && t < |s.pcs|
    ensures s.pcs[t].Write? ==> |s.written| - |s.read| < |s.buffer|
    ensures s.pcs[t].Read? ==> |s.read| < |s.written|
    ensures |s.written| - |s.read| <= |s.buffer|
  {
    SumBound(s.pcs, ToWrite, t);
    SumBound(s.pcs, ToPostFull, t);
    SumBound(s.pcs, ToRead, t);
    SumBound(s.pcs, ToPostEmpty, t);
  }

  lemma TokensStep(s: State, t: nat, rand: nat)
    requires Ready(s) && Tokens(s) && t < |s.pcs| && Enabled(s, t)
    ensures Tokens(Step(s, t, rand))
  {
    var s' := Step(s, t, rand);
    HeldTokens(s, t);
    SumUpdate(s.pcs, ToWrite, t, s'.pcs[t]);
    SumUpdate(s.pcs, ToPostFull, t, s'.pcs[t]);
    SumUpdate(s.pcs, ToRead, t, s'.pcs[t]);
    SumUpdate(s.pcs, ToPostEmpty, t, s'.pcs[t]);
    assert s'.pcs == s.pcs[t := s'.pcs[t]];
  }

  lemma ExclusionStep(s: State, t: nat, rand: nat)
    requires Ready(s) && Exclusion(s) && t < |s.pcs| && Enabled(s, t)
    ensures Exclusion(Step(s, t, rand))
  {
  }

  lemma PositionsStep(s: State, t: nat, rand: nat)
    requires Exclusion(s) && Positions(s) && t < |s.pcs| && Enabled(s, t)
    ensures Positions(Step(s, t, rand))
  {
    assert Inside(s.pcs[t]) ==> s.mutex == Some(t);
    if s.pcs[t].AdvanceIn? {
      ModSuccessor(|s.written| - 1, |s.buffer|);
    }
    if s.pcs[t].AdvanceOut? {
      ModSuccessor(|s.read| - 1, |s.buffer|);
    }
  }

  /** No unread cell is overwritten: a producer in its critical section writes past all unread items. */
  lemma WriteHitsFreeCell(s: State, t: nat, k: nat)
    requires Inv(s) && t < |s.pcs| && s.pcs[t].Write?
    requires |s.read| <= k < |s.written|
    ensures s.inPos == |s.written| % |s.buffer| != k % |s.buffer|
  {
    assert Inside(s.pcs[t]);
    HeldTokens(s, t);
    ModDiffers(k, |s.written|, |s.buffer|);
  }

  /** No cell is read twice, and none unwritten: a consumer in its critical section reads the oldest unread item. */
  lemma ReadHitsOldest(s: State, t: nat)
    requires Inv(s) && t < |s.pcs| && s.pcs[t].Read?
    ensures |s.read| < |s.written|
    ensures s.outPos == |s.read| % |s.buffer| && s.buffer[s.outPos] == s.written[|s.read|]
  {
    assert Inside(s.pcs[t]);
    HeldTokens(s, t);
  }

  lemma FifoStep(s: State, t: nat, rand: nat)
    requires Inv(s) && t < |s.pcs| && Enabled(s, t)
    ensures Fifo(Step(s, t, rand))
  {
    var s' := Step(s, t, rand);
    HeldTokens(s, t);
    if s.pcs[t].Write? {
      forall k | |s'.read| <= k < |s'.written| ensures s'.buffer[k % |s.buffer|] == s'.written[k] {
        if k < |s.written| {
          WriteHitsFreeCell(s, t, k);
        } else {
          assert Inside(s.pcs[t]);
        }
      }
    }
    if s.pcs[t].Read? {
      ReadHitsOldest(s, t);
    }
  }

  lemma OfNext(items: seq<int>, threads: seq<nat>, item: int, u: nat, t: nat)
    requires |items| == |threads|
    ensures Of(items + [item], threads + [u], t) == Of(items, threads, t) + if u == t then [item] else []
  {
    assert (items + [item])[..|items|] == items && (threads + [u])[..|items|] == threads;
  }

  lemma WritesStep(s: State, t: nat, rand: nat, u: nat)
    requires Ready(s) && |s.written| == |s.writers| && t < |s.pcs| && u < |s.pcs| && Enabled(s, t)
    requires WritesWhatItDraws(s, u)
    ensures WritesWhatItDraws(Step(s, t, rand), u)
  {
    var s' := Step(s, t, rand);
    if s.pcs[t].Write? {
      OfNext(s.written, s.writers, s.pcs[t].item, t, u);
    }
    assert Of(s'.written, s'.writers, u) + Carried(s'.pcs[u])
        == Of(s.written, s.writers, u) + Carried(s.pcs[u])
           + if u == t && s.pcs[t].Produce? then [rand % 100] else [];
  }

  lemma TakesStep(s: State, t: nat, rand: nat, u: nat)
    requires Ready(s) && |s.read| == |s.readers| && t < |s.pcs| && u < |s.pcs| && Enabled(s, t)
    requires TakesWhatItReads(s, u)
    ensures TakesWhatItReads(Step(s, t, rand), u)
  {
    if s.pcs[t].Read? {
      OfNext(s.read, s.readers, s.buffer[s.outPos], t, u);
    }
  }

  lemma AttributedStep(s: State, t: nat, rand: nat)
    requires Ready(s) && Attributed(s) && t < |s.pcs| && Enabled(s, t)
    ensures Attributed(Step(s, t, rand))
  {
    forall u | 0 <= u < |s.pcs|
      ensures WritesWhatItDraws(Step(s, t, rand), u) && TakesWhatItReads(Step(s, t, rand), u)
    {
      assert WritesWhatItDraws(s, u) && TakesWhatItReads(s, u);
      WritesStep(s, t, rand, u);
      TakesStep(s, t, rand, u);
    }
  }

  lemma StepKeepsInv(s: State, t: nat, rand: nat)
    requires Inv(s) && t < |s.pcs| && Enabled(s, t)
    ensures Inv(Step(s, t, rand))
  {
    TokensStep(s, t, rand);
    ExclusionStep(s, t, rand);
    PositionsStep(s, t, rand);
    FifoStep(s, t, rand);
    AttributedStep(s, t, rand);
  }

  // ----- runs

  /** How many statements a thread is past its last completed loop, with a whole loop's worth (7 for a producer,
      6 for a consumer) taken off once its item is through. */
  function Phase(pc: Pc): int {
    match pc
    case Produce => 0
    case WaitEmpty(_) => 1
    case LockP(_) => 2
    case Write(_) => 3
    case AdvanceIn => -3
    case UnlockP => -2
    case PostFull => -1
    case WaitFull => 0
    case LockC => 1
    case Read => 2
    case AdvanceOut(_) => -3
    case UnlockC => -2
    case PostEmpty => -1
  }

  ghost predicate Next(s: State, s': State) {
    Ready(s) && exists t: nat, rand: nat :: Moves(s, t, rand, s')
  }

  ghost predicate Moves(s: State, t: nat, rand: nat, s': State)
    requires Ready(s)
  {
    t < |s.pcs| && Enabled(s, t) && s' == Step(s, t, rand)
  }

  /** An interleaving of any producers and consumers, in whatever order the scheduler picks them. */
  ghost predicate IsRun(run: seq<State>) {
    && |run| > 0 && Init(run[0])
    && forall i :: 0 <= i < |run| - 1 ==> Next(run[i], run[i + 1])
  }

  /** A statement adds one to what is accounted for by items and phases, and leaves the threads their roles. */
  lemma StepCounts(s: State, t: nat, rand: nat)
    requires Inv(s) && t < |s.pcs| && Enabled(s, t)
    ensures var s' := Step(s, t, rand);
            && 7 * |s'.written| + 6 * |s'.read| + Sum(s'.pcs, Phase)
               == 7 * |s.written| + 6 * |s.read| + Sum(s.pcs, Phase) + 1
            && |s'.buffer| == |s.buffer| && |s'.pcs| == |s.pcs|
            && forall u :: 0 <= u < |s.pcs| ==> (IsProducer(s'.pcs[u]) <==> IsProducer(s.pcs[u]))
  {
    var s' := Step(s, t, rand);
    SumUpdate(s.pcs, Phase, t, s'.pcs[t]);
    assert s'.pcs == s.pcs[t := s'.pcs[t]];
  }

  /** Every state of every interleaving satisfies the invariant; no thread changes its role; and the statements
      run so far are accounted for by the items that went in and out. */
  lemma {:induction false} RunInv(run: seq<State>, i: nat)
    requires IsRun(run) && i < |run|
    ensures Inv(run[i]) && |run[i].buffer| == |run[0].buffer| && |run[i].pcs| == |run[0].pcs|
    ensures forall t :: 0 <= t < |run[0].pcs| ==> (IsProducer(run[i].pcs[t]) <==> IsProducer(run[0].pcs[t]))
    ensures i == 7 * |run[i].written| + 6 * |run[i].read| + Sum(run[i].pcs, Phase)
  {
    if i == 0 {
      InitInv(run[0]);
    } else {
      var s, s' := run[i - 1], run[i];
      RunInv(run, i - 1);
      assert Next(run[i - 1], run[i - 1 + 1]);
      var t: nat, rand: nat :| Moves(s, t, rand, s');
      StepKeepsInv(s, t, rand);
      StepCounts(s, t, rand);
    }
  }

  /** The items in the ring, from position start on. */
  function Ring(s: State, start: nat): seq<int>
    requires |s.buffer| > 0 && |s.read| <= |s.written|
  {
    seq(|s.written| - |s.read|, k requires 0 <= k => s.buffer[(start + k) % |s.buffer|])
  }

  /** The position of the oldest unread item. A consumer that has just read counts as having advanced. */
  function Oldest(s: State): nat {
    if Advancing(s, true) then s.outPos + 1 else s.outPos
  }

  lemma RingAt(s: State, k: nat)
    requires Inv(s) && k < |s.written| - |s.read|
    ensures Ring(s, Oldest(s))[k] == s.written[|s.read| + k]
  {
    var n, r := |s.buffer|, |s.read|;
    assert (Oldest(s) + k) % n == (r + k) % n by {
      if Advancing(s, true) {
        ModShift(r - 1, n, k + 1);
      } else {
        ModShift(r, n, k);
      }
    }
    assert s.buffer[(r + k) % n] == s.written[r + k];
  }

  /** First in, first out, in every state of every interleaving: the items read, followed by the ring's contents
      from out on, are the items written. */
  lemma FifoOrder(run: seq<State>, i: nat)
    requires IsRun(run) && i < |run|
    ensures var s := run[i];
            && |s.read| <= |s.written| && |s.buffer| > 0
            && s.read + Ring(s, Oldest(s)) == s.written
  {
    RunInv(run, i);
    var s := run[i];
    var rest := s.written[|s.read|..];
    forall k | 0 <= k < |rest| ensures Ring(s, Oldest(s))[k] == rest[k] {
      RingAt(s, k);
    }
    assert s.written == s.read + rest;
  }

  // ----- whose items they are

  /** What calls of rand return to thread t in the first i steps, if step j is made by thread moves[j].0 and rand returns
      moves[j].1 in it. */
  function Returned(run: seq<State>, moves: seq<(nat, nat)>, i: nat, t: nat): seq<nat>
    requires i <= |moves| < |run|
  {
    if i == 0 then []
    else
      var (u, rand) := moves[i - 1];
      Returned(run, moves, i - 1, t)
      + if u == t && t < |run[i - 1].pcs| && run[i - 1].pcs[t].Produce? then [rand] else []
  }

  /** Step j of the run is the one that moves says. */
  ghost predicate MovesAt(run: seq<State>, moves: seq<(nat, nat)>, j: nat)
    requires j < |moves| < |run|
  {
    Ready(run[j]) && Moves(run[j], moves[j].0, moves[j].1, run[j + 1])
  }

  lemma {:induction false} DrawnIsReturned(run: seq<State>, moves: seq<(nat, nat)>, i: nat, t: nat)
    requires IsRun(run) && i <= |moves| < |run| && t < |run[0].pcs|
    requires forall j :: 0 <= j < |moves| ==> MovesAt(run, moves, j)
    ensures |run[i].drawn| == |run[0].pcs| && run[i].drawn[t] == Returned(run, moves, i, t)
  {
    if i > 0 {
      DrawnIsReturned(run, moves, i - 1, t);
      assert MovesAt(run, moves, i - 1);
    }
  }

  /** In every state of every interleaving, what a thread wrote, in order, and then the one item it carries, are the
      values that its calls of rand returned, modulo 100. */
  lemma WrittenAsDrawn(run: seq<State>, i: nat, t: nat)
    requires IsRun(run) && i < |run| && t < |run[0].pcs|
    ensures var s := run[i];
            && |s.written| == |s.writers| && |s.drawn| == |s.pcs| == |run[0].pcs|
            && var items := Of(s.written, s.writers, t) + Carried(s.pcs[t]);
               |items| == |s.drawn[t]|
               && forall k :: 0 <= k < |items| ==> items[k] == s.drawn[t][k] % 100 && 0 <= items[k] < 100
  {
    RunInv(run, i);
    assert WritesWhatItDraws(run[i], t);
  }

  /** In every state of every interleaving, what a thread is through with, in order, and then the one item it holds, is
      what it read in its critical sections. */
  lemma TakenAsRead(run: seq<State>, i: nat, t: nat)
    requires IsRun(run) && i < |run| && t < |run[0].pcs|
    ensures var s := run[i];
            && |s.read| == |s.readers| && |s.taken| == |s.pcs| == |run[0].pcs|
            && s.taken[t] + Held(s.pcs[t]) == Of(s.read, s.readers, t)
  {
    RunInv(run, i);
    assert TakesWhatItReads(run[i], t);
  }

  /** The k-th item is the next of its thread's, after those of the first k. */
  lemma {:induction false} OfAt(items: seq<int>, threads: seq<nat>, k: nat)
    requires |items| == |threads| && k < |items|
    ensures var of, j := Of(items, threads, threads[k]), |Of(items[..k], threads[..k], threads[k])|;
            j < |of| && of[j] == items[k]
  {
    var n := |items| - 1;
    if k < n {
      OfAt(items[..n], threads[..n], k);
      assert items[..n][..k] == items[..k] && threads[..n][..k] == threads[..k];
    } else {
      assert items[..n] == items[..k] && threads[..n] == threads[..k];
    }
  }

  /** From end to end: the k-th item read is the one written k-th. A producer got it as the next value of rand after
      those it had already written, and a consumer takes it away next after those it had already read. */
  lemma Delivered(run: seq<State>, i: nat, k: nat)
    requires IsRun(run) && i < |run| && k < |run[i].read|
    ensures var s := run[i];
            && k < |s.writers| == |s.written| && k < |s.readers| == |s.read|
            && var p, c := s.writers[k], s.readers[k];
               var j, m := |Of(s.written[..k], s.writers[..k], p)|, |Of(s.read[..k], s.readers[..k], c)|;
               && p < |s.pcs| == |s.drawn| && IsProducer(s.pcs[p]) && j < |s.drawn[p]|
               && c < |s.pcs| == |s.taken| && !IsProducer(s.pcs[c]) && m < |s.taken[c] + Held(s.pcs[c])|
               && s.read[k] == s.drawn[p][j] % 100 == (s.taken[c] + Held(s.pcs[c]))[m]
  {
    RunInv(run, i);
    var s := run[i];
    assert s.read[k] == s.written[k];
    var p, c := s.writers[k], s.readers[k];
    assert WritesWhatItDraws(s, p) && TakesWhatItReads(s, c);
    OfAt(s.written, s.writers, k);
    OfAt(s.read, s.readers, k);
  }

  /** Conservation, in every state of every interleaving: the two semaphores and the threads between a wait and
      the following post hold as many tokens as the ring has cells. */
  lemma TokensConserved(run: seq<State>, i: nat)
    requires IsRun(run) && i < |run|
    ensures var s := run[i];
            s.empty + s.full + Sum(s.pcs, ToWrite) + Sum(s.pcs, ToPostFull)
            + Sum(s.pcs, ToRead) + Sum(s.pcs, ToPostEmpty) == |run[0].buffer|
  {
    RunInv(run, i);
  }

  lemma MutualExclusion(run: seq<State>, i: nat, t: nat, u: nat)
    requires IsRun(run) && i < |run| && t < |run[i].pcs| && u < |run[i].pcs|
    requires Inside(run[i].pcs[t]) && Inside(run[i].pcs[u])
    ensures t == u
  {
    RunInv(run, i);
  }

  // ----- progress

  /** Nothing can move exactly when all threads are producers waiting at a full ring, or all are consumers
      waiting at an empty one. */
  lemma StuckExactly(s: State)
    requires Inv(s)
    ensures (forall t :: 0 <= t < |s.pcs| ==> !Enabled(s, t))
            <==>
            || (forall t :: 0 <= t < |s.pcs| ==> s.pcs[t].WaitEmpty? && |s.written| - |s.read| == |s.buffer|)
            || (forall t :: 0 <= t < |s.pcs| ==> s.pcs[t].WaitFull? && |s.written| == |s.read|)
  {
    var stored := |s.written| - |s.read|;
    if forall t :: 0 <= t < |s.pcs| ==> !Enabled(s, t) {
      forall t | 0 <= t < |s.pcs| ensures s.pcs[t].WaitEmpty? || s.pcs[t].WaitFull? {
        StuckWaits(s, t);
      }
      AllWaiting(s);
      if t :| 0 <= t < |s.pcs| && s.pcs[t].WaitEmpty? {
        assert !Enabled(s, t) && stored == |s.buffer|;
        forall u | 0 <= u < |s.pcs| ensures s.pcs[u].WaitEmpty? {
          assert !Enabled(s, u);
        }
      } else {
        forall u | 0 <= u < |s.pcs| ensures s.pcs[u].WaitFull? && stored == 0 {
          assert !Enabled(s, u);
        }
      }
    } else if forall t :: 0 <= t < |s.pcs| ==> s.pcs[t].WaitEmpty? && stored == |s.buffer| {
      AllWaiting(s);
    } else if forall t :: 0 <= t < |s.pcs| ==> s.pcs[t].WaitFull? && stored == 0 {
      AllWaiting(s);
    }
  }

  lemma StuckWaits(s: State, t: nat)
    requires Inv(s) && t < |s.pcs| && forall u :: 0 <= u < |s.pcs| ==> !Enabled(s, u)
    ensures s.pcs[t].WaitEmpty? || s.pcs[t].WaitFull?
  {
    assert !Enabled(s, t);
    assert s.mutex.Some? ==> Enabled(s, s.mutex.value);
  }

  lemma AllWaiting(s: State)
    requires Inv(s) && forall t :: 0 <= t < |s.pcs| ==> s.pcs[t].WaitEmpty? || s.pcs[t].WaitFull?
    ensures s.full == |s.written| - |s.read| && s.empty == |s.buffer| - s.full
  {
    AllZero(s.pcs, ToWrite);
    AllZero(s.pcs, ToPostFull);
    AllZero(s.pcs, ToRead);
    AllZero(s.pcs, ToPostEmpty);
  }

  /** With at least one producer and one consumer, every interleaving can be continued. */
  lemma DeadlockFree(run: seq<State>, i: nat, p: nat, c: nat)
    requires IsRun(run) && i < |run| && p < |run[0].pcs| && c < |run[0].pcs|
    requires IsProducer(run[0].pcs[p]) && !IsProducer(run[0].pcs[c])
    ensures exists t :: 0 <= t < |run[i].pcs| && Enabled(run[i], t)
  {
    RunInv(run, i);
    StuckExactly(run[i]);
  }

  /** No livelock either: n steps of any interleaving of m threads on a ring of size cap have read at least
      (n - 7 cap - 3 m) / 13 items, and written at least as many. */
  lemma Throughput(run: seq<State>, i: nat)
    requires IsRun(run) && i < |run|
    ensures i <= 13 * |run[i].read| + 7 * |run[0].buffer| + 3 * |run[0].pcs|
    ensures i <= 13 * |run[i].written| + 3 * |run[0].pcs|
  {
    RunInv(run, i);
    PhaseBound(run[i].pcs);
  }

  lemma {:induction false} PhaseBound(pcs: seq<Pc>)
    ensures Sum(pcs, Phase) <= 3 * |pcs|
  {
    if pcs != [] {
      PhaseBound(pcs[..|pcs| - 1]);
    }
  }
}
