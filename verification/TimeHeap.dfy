/** The timer heap in memory: a growable array of timers, ordered as a binary min-heap on their expiry. */
module TimeHeaps {
  import opened HeapShape
  import opened HeapModel
  import opened Results
  import opened Sequences

  class HeapTimer {
    ghost const id: nat
    const expire: int
    var armed: bool  // the callback is not NULL
    ghost var live: bool  // not yet deleted

    /** A timer that is due delay after now. Its callback is set by whoever creates it. */
    constructor (now: int, delay: int, ghost id: nat)
      ensures expire == now + delay && this.id == id && armed && live
    {
      expire, this.id := now + delay, id;
      armed, live := true, true;
    }

    /** The end of a timer's life. It must not have ended before. */
    method Delete()
      requires live
      modifies this`live
      ensures !live
    {
      live := false;
    }
  }

  // ----- heap order

  /** The timer at c does not expire before its parent. */
  ghost predicate Edge(s: seq<HeapTimer>, c: nat) {
    0 < c < |s| ==> s[Parent(c)].expire <= s[c].expire
  }

  /** The timer at p does not expire after the children of position i. */
  ghost predicate AboveChildren(s: seq<HeapTimer>, p: nat, i: nat)
    requires p < |s|
  {
    && (2 * i + 1 < |s| ==> s[p].expire <= s[2 * i + 1].expire)
    && (2 * i + 2 < |s| ==> s[p].expire <= s[2 * i + 2].expire)
  }

  /** No timer expires before its parent, for parents from position lo on. */
  ghost predicate HeapFrom(s: seq<HeapTimer>, lo: nat) {
    forall c {:trigger Edge(s, c)} :: 0 < c < |s| && lo <= Parent(c) ==> Edge(s, c)
  }

  ghost predicate IsHeap(s: seq<HeapTimer>) {
    HeapFrom(s, 0)
  }

  /** The heap edges of the subtree at h, except those that leave position hole. */
  ghost predicate SubtreeExcept(s: seq<HeapTimer>, h: nat, hole: int) {
    forall c {:trigger Edge(s, c)} :: 0 < c < |s| && Under(h, Parent(c)) && Parent(c) != hole ==> Edge(s, c)
  }

  ghost predicate Subtree(s: seq<HeapTimer>, h: nat) {
    SubtreeExcept(s, h, -1)
  }

  lemma {:induction false} RootIsLeast(s: seq<HeapTimer>, i: nat)
    requires IsHeap(s) && i < |s|
    ensures s[0].expire <= s[i].expire
  {
    if i > 0 {
      RootIsLeast(s, Parent(i));
      assert Edge(s, i);
    }
  }

  /** Two arrays agree outside the subtree at h. */
  ghost predicate SameOutside(before: seq<HeapTimer>, after: seq<HeapTimer>, h: nat) {
    && |before| == |after|
    && forall i {:trigger after[i]} :: 0 <= i < |before| && !Under(h, i) ==> after[i] == before[i]
  }

  /** Repairing the subtree at lo extends the heap from lo + 1 down to lo. */
  lemma SubtreeExtends(before: seq<HeapTimer>, after: seq<HeapTimer>, lo: nat)
    requires HeapFrom(before, lo + 1) && |after| == |before|
    requires Subtree(after, lo)
    requires SameOutside(before, after, lo)
    ensures HeapFrom(after, lo)
  {
    forall c | 0 < c < |after| && lo <= Parent(c) ensures Edge(after, c) {
      if !Under(lo, Parent(c)) {
        assert !Under(lo, c);
        assert Edge(before, c);
      }
    }
  }

  // ----- a percolation step, with the hole filled in by the timer on its way

  function Swap<T>(s: seq<T>, i: nat, j: nat): (r: seq<T>)
    requires i < |s| && j < |s|
    ensures |r| == |s|
    ensures multiset(r) == multiset(s)
  {
    s[i := s[j]][j := s[i]]
  }

  // ----- what a percolation does to an array

  /** The timer at top went down to bottom, each timer on its way went up by one, and the others are where they were. */
  ghost predicate Shifted(before: seq<HeapTimer>, after: seq<HeapTimer>, top: nat, bottom: nat) {
    && bottom < |before| == |after| && Under(top, bottom)
    && after[bottom] == before[top]
    && (forall i {:trigger OnPath(top, i, bottom)} :: top < i <= bottom && OnPath(top, i, bottom) ==>
          after[Parent(i)] == before[i])
    && (forall i {:trigger OnPath(top, i, bottom)} :: 0 <= i < |before| && !OnPath(top, i, bottom) ==>
          after[i] == before[i])
  }

  /** The timer at start sank to place, past timers that expire before it, in as many moves as there are levels. */
  ghost predicate Sank(before: seq<HeapTimer>, after: seq<HeapTimer>, start: nat, place: nat, moves: nat) {
    && Shifted(before, after, start, place)
    && (forall i {:trigger OnPath(start, i, place)} :: start < i <= place && OnPath(start, i, place) ==>
          before[i].expire < before[start].expire)
    && Depth(place) == Depth(start) + moves
  }

  /** The last timer rose to place, past timers that expire after it, in as many moves as there are levels. */
  ghost predicate Rose(before: seq<HeapTimer>, after: seq<HeapTimer>, place: nat, moves: nat) {
    && before != []
    && Shifted(after, before, place, |before| - 1)
    && (forall i {:trigger OnPath(place, i, |before| - 1)} :: place < i < |before| && OnPath(place, i, |before| - 1) ==>
          before[|before| - 1].expire < after[i].expire)
    && Depth(place) + moves == Depth(|before| - 1)
  }

  lemma SankNowhere(s: seq<HeapTimer>, start: nat)
    requires start < |s|
    ensures Sank(s, s, start, start, 0)
  {
  }

  lemma SankStep(before: seq<HeapTimer>, s: seq<HeapTimer>, start: nat, hole: nat, child: nat, moves: nat)
    requires Sank(before, s, start, hole, moves) && hole < child < |s| && Parent(child) == hole
    requires s[child].expire < s[hole].expire
    ensures Sank(before, Swap(s, hole, child), start, child, moves + 1)
  {
    forall i ensures OnPath(start, i, child) <==> OnPath(start, i, hole) || i == child {
      PathToChild(start, i, child);
    }
    assert !OnPath(start, child, hole);
  }

  lemma RoseNowhere(s: seq<HeapTimer>)
    requires s != []
    ensures Rose(s, s, |s| - 1, 0)
  {
  }

  lemma RoseStep(before: seq<HeapTimer>, s: seq<HeapTimer>, hole: nat, moves: nat)
    requires Rose(before, s, hole, moves) && hole > 0 && s[hole].expire < s[Parent(hole)].expire
    ensures Rose(before, Swap(s, hole, Parent(hole)), Parent(hole), moves + 1)
  {
    var p, last := Parent(hole), |before| - 1;
    forall i ensures OnPath(p, i, last) <==> OnPath(hole, i, last) || i == p {
      PathFromParent(hole, i, last);
    }
    assert !OnPath(hole, p, last);
  }

  /** The timer at hole may be too late for its place below start; everything else is in order, also past it. */
  ghost predicate Sinking(s: seq<HeapTimer>, start: nat, hole: nat) {
    && hole < |s| && Under(start, hole)
    && SubtreeExcept(s, start, hole)
    && (hole != start ==> AboveChildren(s, Parent(hole), hole))
  }

  /** The child of hole that a percolation compares with. */
  ghost predicate LesserChild(s: seq<HeapTimer>, hole: nat, child: nat) {
    && (child == 2 * hole + 1 || child == 2 * hole + 2)
    && child < |s| && AboveChildren(s, child, hole)
  }

  lemma SinkStep(s: seq<HeapTimer>, start: nat, hole: nat, child: nat)
    requires Sinking(s, start, hole) && LesserChild(s, hole, child)
    requires s[child].expire < s[hole].expire
    ensures Sinking(Swap(s, hole, child), start, child)
  {
    var r := Swap(s, hole, child);
    assert Parent(child) == hole && Under(start, child);
    forall c | 0 < c < |r| && Under(start, Parent(c)) && Parent(c) != child ensures Edge(r, c) {
      if Parent(c) != hole {
        assert Edge(s, c);
      }
    }
    forall c | 0 < c < |s| && (c == 2 * child + 1 || c == 2 * child + 2) ensures r[hole].expire <= r[c].expire {
      assert Parent(c) == child && Edge(s, c);
    }
  }

  lemma SwapInside(before: seq<HeapTimer>, s: seq<HeapTimer>, start: nat, i: nat, j: nat)
    requires SameOutside(before, s, start) && i < |s| && j < |s| && Under(start, i) && Under(start, j)
    ensures SameOutside(before, Swap(s, i, j), start)
  {
  }

  /** A timer on its way down from start, in an array that otherwise holds what it held before. */
  ghost predicate Percolating(before: seq<HeapTimer>, s: seq<HeapTimer>, start: nat, hole: nat, moves: nat) {
    && Sinking(s, start, hole) && SameOutside(before, s, start) && multiset(s) == multiset(before)
    && Sank(before, s, start, hole, moves)
    && moves + Height(hole + 1, |s|) <= Height(start + 1, |s|)
  }

  lemma PercolateStep(before: seq<HeapTimer>, s: seq<HeapTimer>, start: nat, hole: nat, child: nat, moves: nat)
    requires Percolating(before, s, start, hole, moves) && LesserChild(s, hole, child)
    requires s[child].expire < s[hole].expire
    ensures Percolating(before, Swap(s, hole, child), start, child, moves + 1)
  {
    SinkStep(s, start, hole, child);
    SwapInside(before, s, start, hole, child);
    SankStep(before, s, start, hole, child, moves);
    HeightShrinks(2 * (hole + 1), child + 1, |s|);
  }

  lemma SinkDone(s: seq<HeapTimer>, start: nat, hole: nat)
    requires Sinking(s, start, hole) && AboveChildren(s, hole, hole)
    ensures Subtree(s, start)
  {
    forall c | 0 < c < |s| && Under(start, Parent(c)) ensures Edge(s, c) {
    }
  }

  /** The timer at hole may be too early for its place; everything else is in order, also past it. */
  ghost predicate Rising(s: seq<HeapTimer>, hole: nat) {
    && hole < |s|
    && (forall c {:trigger Edge(s, c)} :: 0 < c < |s| && c != hole ==> Edge(s, c))
    && (hole > 0 ==> AboveChildren(s, Parent(hole), hole))
  }

  lemma RiseStep(s: seq<HeapTimer>, hole: nat)
    requires Rising(s, hole) && hole > 0 && s[hole].expire < s[Parent(hole)].expire
    ensures Rising(Swap(s, hole, Parent(hole)), Parent(hole))
  {
    var p := Parent(hole);
    var r := Swap(s, hole, p);
    forall c | 0 < c < |r| && c != p ensures Edge(r, c) {
      if c != hole {
        assert Edge(s, c);
      }
    }
    if p > 0 {
      assert Edge(s, p);
      forall c | 0 < c < |s| && (c == 2 * p + 1 || c == 2 * p + 2) ensures r[Parent(p)].expire <= r[c].expire {
        if c != hole {
          assert Parent(c) == p && Edge(s, c);
        }
      }
    }
  }

  /** The last timer of an array on its way up. */
  ghost predicate Lifting(before: seq<HeapTimer>, s: seq<HeapTimer>, hole: nat, moves: nat) {
    && Rising(s, hole) && multiset(s) == multiset(before) && Rose(before, s, hole, moves)
    && moves + Log2(hole + 1) <= Log2(|s|)
  }

  lemma LiftStep(before: seq<HeapTimer>, s: seq<HeapTimer>, hole: nat, moves: nat)
    requires Lifting(before, s, hole, moves) && hole > 0 && s[hole].expire < s[Parent(hole)].expire
    ensures Lifting(before, Swap(s, hole, Parent(hole)), Parent(hole), moves + 1)
  {
    RiseStep(s, hole);
    RoseStep(before, s, hole, moves);
    assert (hole + 1) / 2 == Parent(hole) + 1;
  }

  lemma RiseDone(s: seq<HeapTimer>, hole: nat)
    requires Rising(s, hole) && (hole == 0 || s[Parent(hole)].expire <= s[hole].expire)
    ensures IsHeap(s)
  {
    forall c | 0 < c < |s| ensures Edge(s, c) {
    }
  }

  /** A percolation: where the timer went, in how many moves. */
  datatype HeapSink = HeapSink(place: nat, moves: nat)

  function Total(sinks: seq<HeapSink>): nat {
    if sinks == [] then 0 else Total(sinks[..|sinks| - 1]) + sinks[|sinks| - 1].moves
  }

  /** Bottom-up construction, as far as it has come: of n timers to sink, the last first, the k-th sank as sinks[k] says
      and left the array in stages[k + 1]. */
  ghost predicate Building(was: seq<HeapTimer>, now: seq<HeapTimer>, stages: seq<seq<HeapTimer>>, sinks: seq<HeapSink>,
                           n: nat) {
    && |stages| == |sinks| + 1 <= n + 1
    && stages[0] == was && stages[|sinks|] == now
    && forall k :: 0 <= k < |sinks| ==> SankAt(stages, sinks, n, k)
  }

  ghost predicate SankAt(stages: seq<seq<HeapTimer>>, sinks: seq<HeapSink>, n: nat, k: nat)
    requires k < |sinks| <= n && |stages| == |sinks| + 1
  {
    Sank(stages[k], stages[k + 1], n - 1 - k, sinks[k].place, sinks[k].moves)
  }

  lemma BuildStep(was: seq<HeapTimer>, before: seq<HeapTimer>, now: seq<HeapTimer>, stages: seq<seq<HeapTimer>>,
                  sinks: seq<HeapSink>, n: nat, sink: HeapSink)
    requires Building(was, before, stages, sinks, n) && |sinks| < n
    requires Sank(before, now, n - 1 - |sinks|, sink.place, sink.moves)
    ensures Building(was, now, stages + [now], sinks + [sink], n)
    ensures Total(sinks + [sink]) == Total(sinks) + sink.moves
  {
    assert (sinks + [sink])[..|sinks|] == sinks;
    forall k | 0 <= k < |sinks| ensures SankAt(stages + [now], sinks + [sink], n, k) {
      assert SankAt(stages, sinks, n, k);
    }
    assert SankAt(stages + [now], sinks + [sink], n, |sinks|);
  }

  /** All timers that have children were sunk, and now is the outcome. */
  ghost predicate Built(was: seq<HeapTimer>, now: seq<HeapTimer>, stages: seq<seq<HeapTimer>>, sinks: seq<HeapSink>,
                        moves: nat) {
    Building(was, now, stages, sinks, |sinks|) && |sinks| == (|was| + 1) / 2 && moves == Total(sinks)
  }

  /** The heap after its root was replaced by its last element. */
  function Popped(s: seq<HeapTimer>): (r: seq<HeapTimer>)
    requires s != []
    ensures |r| == |s| - 1
  {
    var n := |s| - 1;
    if n == 0 then [] else s[..n][0 := s[n]]
  }

  lemma PoppedMultiset(s: seq<HeapTimer>)
    requires s != []
    ensures multiset(Popped(s)) == multiset(s) - multiset{s[0]}
  {
    var n := |s| - 1;
    assert s == s[..n] + [s[n]];
    if n > 0 {
      assert s[..n] == [s[0]] + s[1..n];
      assert Popped(s) == [s[n]] + s[1..n];
    }
  }

  lemma PoppedSinks(s: seq<HeapTimer>)
    requires IsHeap(s) && |s| > 1
    ensures Sinking(Popped(s), 0, 0)
  {
    forall c | 0 < c < |Popped(s)| && Parent(c) != 0 ensures Edge(Popped(s), c) {
      assert Edge(s, c);
    }
  }

  lemma SubtreeAtRoot(s: seq<HeapTimer>)
    requires Subtree(s, 0)
    ensures IsHeap(s)
  {
    forall c | 0 < c < |s| ensures Edge(s, c) {
      AllUnderRoot(Parent(c));
    }
  }

  lemma HeapSinks(s: seq<HeapTimer>, lo: nat)
    requires HeapFrom(s, lo + 1) && lo < |s|
    ensures Sinking(s, lo, lo)
  {
    forall c | 0 < c < |s| && Under(lo, Parent(c)) && Parent(c) != lo ensures Edge(s, c) {
    }
  }

  /** A heap with one more element behind it is on the rise there. */
  lemma AppendedLifts(s: seq<HeapTimer>, t: HeapTimer)
    requires IsHeap(s)
    ensures Lifting(s + [t], s + [t], |s|, 0)
  {
    RoseNowhere(s + [t]);
    forall c | 0 < c < |s| ensures Edge(s + [t], c) {
      assert Edge(s, c);
    }
  }

  // ----- the timers of a heap, whatever their order

  ghost predicate UniqueIds(members: set<HeapTimer>) {
    forall t, u :: t in members && u in members && t.id == u.id ==> t == u
  }

  /** The model's timers are the members, under their names. */
  ghost predicate Tracks(timers: map<nat, Timer>, members: set<HeapTimer>)
    reads members`armed
  {
    && (forall t :: t in members ==> t.id in timers && timers[t.id] == Timer(t.expire, t.armed))
    && (forall id :: id in timers ==> Named(members, id))
  }

  lemma {:induction false} TrackedSize(timers: map<nat, Timer>, members: set<HeapTimer>)
    requires Tracks(timers, members) && UniqueIds(members)
    ensures |timers| == |members|
    decreases |members|
  {
    if members == {} {
      assert timers.Keys == {};
    } else {
      var t :| t in members;
      TracksWithout(timers, members, t);
      TrackedSize(timers - {t.id}, members - {t});
      assert timers.Keys == (timers - {t.id}).Keys + {t.id};
    }
  }

  lemma TracksWithout(timers: map<nat, Timer>, members: set<HeapTimer>, t: HeapTimer)
    requires Tracks(timers, members) && UniqueIds(members) && t in members
    ensures Tracks(timers - {t.id}, members - {t})
  {
    forall id | id in timers - {t.id} ensures Named(members - {t}, id) {
      assert Named(members, id);
    }
  }

  lemma TracksWith(timers: map<nat, Timer>, members: set<HeapTimer>, t: HeapTimer)
    requires Tracks(timers, members) && !Named(members, t.id)
    ensures Tracks(timers[t.id := Timer(t.expire, t.armed)], members + {t})
  {
    forall id | id in timers[t.id := Timer(t.expire, t.armed)] ensures Named(members + {t}, id) {
      if id == t.id {
        assert t in members + {t};
      } else {
        assert Named(members, id);
      }
    }
  }

  ghost predicate Named(members: set<HeapTimer>, id: nat) {
    exists t :: t in members && t.id == id
  }

  lemma Snapshot(members: set<HeapTimer>) returns (timers: map<nat, Timer>)
    requires UniqueIds(members)
    ensures Tracks(timers, members)
  {
    timers := map t | t in members :: t.id := Timer(t.expire, t.armed);
  }

  ghost function Ids(list: seq<HeapTimer>): seq<nat> {
    seq(|list|, i requires 0 <= i < |list| => list[i].id)
  }

  /** One tick's callbacks: the given timers, once each. */
  ghost predicate SameCallbacks(ids: seq<nat>, due: set<nat>) {
    && (forall id :: id in ids <==> id in due)
    && (forall i, j :: 0 <= i < j < |ids| ==> ids[i] != ids[j])
  }

  ghost predicate SameTrace(trace: seq<seq<nat>>, due: seq<set<nat>>) {
    && |trace| == |due|
    && forall k :: 0 <= k < |trace| ==> SameCallbacks(trace[k], due[k])
  }

  lemma SameTraceGrows(trace: seq<seq<nat>>, due: seq<set<nat>>, ids: seq<nat>, d: set<nat>)
    requires SameTrace(trace, due) && SameCallbacks(ids, d)
    ensures SameTrace(trace + [ids], due + [d])
  {
  }

  /** What a tick does to the timers is what the model says: the due ones with a callback run, the later ones
      stay, and a timer without a callback is dropped silently. */
  lemma TicksAsModelled(timers: map<nat, Timer>, members: set<HeapTimer>, clock: int, fired: seq<HeapTimer>)
    requires Tracks(timers, members) && UniqueIds(members)
    requires Drained(members, (set t | t in members && t.expire > clock), clock, fired)
    ensures SameCallbacks(Ids(fired), Due(timers, clock))
    ensures Tracks(Later(timers, clock), set t | t in members && t.expire > clock)
  {
    forall id ensures id in Ids(fired) <==> id in Due(timers, clock) {
      if id in Ids(fired) {
        var i :| 0 <= i < |fired| && fired[i].id == id;
        assert fired[i] in fired;
      }
      if id in Due(timers, clock) {
        var t :| t in members && t.id == id;
        var i :| 0 <= i < |fired| && fired[i] == t;
        assert Ids(fired)[i] == id;
      }
    }
    forall i, j | 0 <= i < j < |fired| ensures fired[i].id != fired[j].id {
      assert fired[i] in fired && fired[j] in fired;
    }
  }

  /** A drain up to clock has brought the timers from was to now, running the given ones. */
  ghost predicate Drained(was: set<HeapTimer>, now: set<HeapTimer>, clock: int, fired: seq<HeapTimer>)
    reads was`armed
  {
    && now <= was
    && (forall t :: t in was && t !in now ==> t.expire <= clock)
    && (forall t, u :: t in was && t !in now && u in now ==> t.expire <= u.expire)
    && (forall t :: t in fired ==> t in was && t !in now && t.armed)
    && (forall t :: t in was && t !in now && t.armed ==> t in fired)
    && InExpiryOrder(fired) && Distinct(fired)
  }

  lemma DrainStep(was: set<HeapTimer>, now: set<HeapTimer>, clock: int, fired: seq<HeapTimer>, top: HeapTimer)
    requires Drained(was, now, clock, fired) && top in now && top.expire <= clock
    requires forall u :: u in now ==> top.expire <= u.expire
    ensures Drained(was, now - {top}, clock, if top.armed then fired + [top] else fired)
  {
    assert forall i :: 0 <= i < |fired| ==> fired[i] in fired;
  }

  ghost predicate InExpiryOrder(list: seq<HeapTimer>) {
    forall i, j :: 0 <= i < j < |list| ==> list[i].expire <= list[j].expire
  }

  /** Timers that may be handed to a heap together: none deleted, none twice. */
  ghost predicate Adoptable(s: seq<HeapTimer>)
    reads s`live
  {
    && (forall i {:trigger s[i].live} :: 0 <= i < |s| ==> s[i].live)
    && (forall i, j {:trigger s[i].id, s[j].id} :: 0 <= i < j < |s| ==> s[i].id != s[j].id)
  }

  lemma AdoptedAsSet(s: seq<HeapTimer>) returns (members: set<HeapTimer>)
    requires Adoptable(s)
    ensures multiset(s) == multiset(members) && UniqueIds(members)
    ensures forall t :: t in members ==> t.live
  {
    members := set t | t in s;
    assert forall i, j :: 0 <= i < j < |s| ==> s[i].id != s[j].id;
    DistinctAsSet(s);
  }

  lemma {:induction false} DistinctAsSet(s: seq<HeapTimer>)
    requires forall i, j :: 0 <= i < j < |s| ==> s[i] != s[j]
    ensures multiset(s) == multiset(set t | t in s)
  {
    if s != [] {
      var front, last := s[..|s| - 1], s[|s| - 1];
      DistinctAsSet(front);
      assert s == front + [last];
      assert (set t | t in s) == (set t | t in front) + {last};
    }
  }

  class TimeHeap {
    var cells: array<HeapTimer?>
    var capacity: nat
    var curSize: nat

    ghost var elems: seq<HeapTimer>  // the cells in use
    ghost var members: set<HeapTimer>  // the timers in the heap

    // what it cost
    ghost var copied: nat  // elements moved by all resizes
    ghost var buildMoves: nat  // hole moves while the initial array was put in order

    // what happened
    ghost var start: map<nat, Timer>
    ghost var startCapacity: nat
    ghost var log: seq<HeapOp>
    ghost var trace: seq<seq<nat>>  // for each completed tick, the timers whose callbacks it ran

    /** The first curSize cells are in use. */
    ghost predicate Mirrors()
      reads this`cells, this`capacity, this`curSize, this`elems, cells
    {
      && capacity == cells.Length
      && curSize == |elems| <= capacity
      && forall i :: 0 <= i < curSize ==> cells[i] == elems[i]
    }

    /** The array is v, but for the hole. */
    ghost predicate HoleIn(v: seq<HeapTimer>, hole: nat)
      reads this`cells, this`capacity, this`curSize, cells
    {
      && capacity == cells.Length
      && hole < curSize == |v| <= capacity
      && forall i :: 0 <= i < curSize && i != hole ==> cells[i] == v[i]
    }

    /** Moves the timer at position from into the hole, and the hole to that position. */
    method MoveHole(hole: nat, from: nat, ghost v: seq<HeapTimer>)
      requires HoleIn(v, hole) && from < curSize && from != hole
      modifies cells
      ensures HoleIn(Swap(v, hole, from), from)
    {
      cells[hole] := cells[from];
    }

    /** Ends a percolation: timer goes into the hole. */
    method FillHole(hole: nat, timer: HeapTimer, ghost v: seq<HeapTimer>)
      requires HoleIn(v, hole) && v[hole] == timer
      modifies this`elems, cells
      ensures Mirrors() && elems == v
    {
      cells[hole] := timer;
      elems := v;
    }

    /** The child of hole that expires first. */
    method PickChild(hole: nat, ghost v: seq<HeapTimer>) returns (child: nat)
      requires hole * 2 + 1 < curSize && HoleIn(v, hole)
      ensures LesserChild(v, hole, child)
      ensures child == hole * 2 + 2 <==> hole * 2 + 2 < curSize && v[hole * 2 + 2].expire < v[hole * 2 + 1].expire
    {
      child := hole * 2 + 1;
      if child < curSize - 1 && cells[child + 1].expire < cells[child].expire {
        child := child + 1;
      }
    }

    /** Sinks the timer at position start to its place. The result counts the moves of the hole. In an empty heap
        the root cell, which may hold a stale timer, is written back unread. */
    method PercolateDown(start: nat) returns (ghost moves: nat, ghost place: nat)
      requires Mirrors() && start < capacity
      requires if start < curSize then Sinking(elems, start, start) else start == 0 == curSize
      modifies this`elems, cells
      ensures Mirrors()
      ensures multiset(elems) == multiset(old(elems))
      ensures SameOutside(old(elems), elems, start) && Subtree(elems, start)
      ensures if curSize == 0 then moves == 0 else Sank(old(elems), elems, start, place, moves)
      ensures moves <= Height(start + 1, curSize)
    {
      moves, place := 0, start;
      var temp := cells[start];
      if curSize == 0 {
        cells[start] := temp;
        return;
      }
      moves, place := Sink(start, temp);
    }

    /** The same in a heap that is not empty, where temp is the timer at start. */
    method Sink(start: nat, temp: HeapTimer) returns (ghost moves: nat, ghost place: nat)
      requires Mirrors() && Sinking(elems, start, start) && elems[start] == temp
      modifies this`elems, cells
      ensures Mirrors()
      ensures multiset(elems) == multiset(old(elems))
      ensures SameOutside(old(elems), elems, start) && Subtree(elems, start)
      ensures Sank(old(elems), elems, start, place, moves)
      ensures moves <= Height(start + 1, curSize)
    {
      var hole: nat := start;
      ghost var v := elems;
      moves := 0;
      SankNowhere(elems, start);
      while hole * 2 + 1 <= curSize - 1
        modifies cells
        invariant HoleIn(v, hole) && v[hole] == temp
        invariant Percolating(elems, v, start, hole, moves)
        decreases curSize - hole
      {
        var child := PickChild(hole, v);
        if temp.expire <= cells[child].expire {
          break;
        }
        MoveHole(hole, child, v);
        PercolateStep(elems, v, start, hole, child, moves);
        v, moves := Swap(v, hole, child), moves + 1;
        hole := child;
      }
      SinkDone(v, start, hole);
      FillHole(hole, temp, v);
      place := hole;
    }

    /** Lifts timer from the free cell behind the heap to its place. The result counts the moves of the hole. */
    method PercolateUp(timer: HeapTimer) returns (ghost moves: nat, ghost place: nat)
      requires Mirrors() && curSize < capacity && IsHeap(elems)
      modifies this`elems, this`curSize, cells
      ensures Mirrors() && IsHeap(elems) && curSize == old(curSize) + 1
      ensures multiset(elems) == multiset(old(elems)) + multiset{timer}
      ensures Rose(old(elems) + [timer], elems, place, moves)
      ensures moves <= Log2(curSize)
    {
      var hole: nat := curSize;
      curSize := curSize + 1;
      var parent := 0;
      ghost var v := elems + [timer];
      AppendedLifts(elems, timer);
      moves := 0;
      while hole > 0
        modifies cells
        invariant HoleIn(v, hole) && v[hole] == timer
        invariant Lifting(elems + [timer], v, hole, moves)
      {
        parent := (hole - 1) / 2;
        if cells[parent].expire <= timer.expire {
          break;
        }
        MoveHole(hole, parent, v);
        LiftStep(elems + [timer], v, hole, moves);
        v, moves := Swap(v, hole, parent), moves + 1;
        hole := parent;
      }
      RiseDone(v, hole);
      FillHole(hole, timer, v);
      place := hole;
    }

    /** Doubles the capacity. */
    method Resize()
      requires Mirrors()
      modifies this`cells, this`capacity, this`copied
      ensures Mirrors() && fresh(cells) && capacity == 2 * old(capacity)
      ensures copied == old(copied) + curSize
    {
      var temp := new HeapTimer?[2 * capacity](_ => null);
      capacity := 2 * capacity;
      for i := 0 to curSize
        modifies temp, this`copied
        invariant forall k :: 0 <= k < i ==> temp[k] == cells[k]
        invariant copied == old(copied) + i
      {
        temp[i] := cells[i];
        copied := copied + 1;
      }
      cells := temp;
    }

    ghost predicate Shape()
      reads this`cells, this`capacity, this`curSize, this`elems, cells
      reads this`members, members`live
    {
      && Mirrors() && IsHeap(elems)
      && multiset(elems) == multiset(members)
      && (forall t :: t in members ==> t.live)
      && UniqueIds(members)
    }

    ghost function Spec(): State
      reads this`start, this`startCapacity, this`log
    {
      HeapModel.Run(start, startCapacity, log)
    }

    /** The array is as large as the history made it, and cost what the history says. */
    ghost predicate Costs(spec: State)
      reads this`capacity, this`copied
    {
      capacity == spec.capacity && copied == spec.copied
    }

    /** The heap is where the model is, and has seen what it saw. */
    ghost predicate Mirrored(spec: State)
      reads this`members, members`armed, this`trace, this`capacity, this`copied
    {
      Tracks(spec.timers, members) && SameTrace(trace, spec.trace) && Costs(spec)
    }

    ghost predicate Valid()
      reads this, cells, members
    {
      && Shape() && Mirrored(Spec())
      && |start| <= startCapacity && (InsertsIn(log) > 0 ==> 0 < capacity)
    }

    constructor (cap: nat)
      ensures Valid() && fresh(cells) && capacity == cap && members == {}
      ensures start == map[] && log == [] && trace == [] && startCapacity == cap
    {
      cells := new HeapTimer?[cap](_ => null);
      capacity, curSize, elems, members := cap, 0, [], {};
      copied, buildMoves := 0, 0;
      start, startCapacity, log, trace := map[], cap, [], [];
    }

    /** Enters op into the history, after it has taken the heap where it takes the model. */
    ghost method Record(op: HeapOp)
      requires Shape() && Mirrored(HeapModel.Step(Spec(), op)) && |start| <= startCapacity
      requires op.Insert? || InsertsIn(log) > 0 ==> 0 < capacity
      modifies this`log
      ensures Valid() && log == old(log) + [op]
    {
      ghost var spec := HeapModel.Step(Spec(), op);
      RunNext(start, startCapacity, log, op);
      log := log + [op];
      assert Spec() == spec;
    }

    /** In every reachable heap, whatever adds, deletes, pops and ticks it went through: all resizes together copied as
        many elements as the array grew by, and fewer than two for each timer that was ever in it. */
    lemma AmortizedCopies()
      requires Valid()
      ensures copied == capacity - startCapacity
      ensures var held := |start| + InsertsIn(log); if held == 0 then copied == 0 else copied < 2 * held
    {
      RoomExactly(start, startCapacity, log);
      if startCapacity > 0 {
        CopiesAmortized(start, startCapacity, log);
      }
    }

    /** Makes room for one more timer, if doubling can: not in a heap of capacity 0. */
    method Reserve()
      requires Mirrors()
      modifies this`cells, this`capacity, this`copied
      ensures Mirrors() && (cells == old(cells) || fresh(cells))
      ensures curSize < capacity <==> 0 < old(capacity)
      ensures Grown(curSize, old(capacity), old(copied))
    {
      if curSize >= capacity {
        Resize();
      }
    }

    /** The constructor accepts a capacity of 0, but the first add finds no cell, also after its resize. */
    static method NoRoom() returns (heap: TimeHeap)
      ensures fresh(heap) && heap.Mirrors() && heap.curSize == heap.capacity == heap.cells.Length == 0
    {
      heap := new TimeHeap(0);
      assert heap.Valid();
      heap.Reserve();
    }

    /** The part of AddTimer that does not concern history. */
    method Push(timer: HeapTimer) returns (ghost moves: nat, ghost place: nat)
      requires Shape() && 0 < capacity && timer.live && !Named(members, timer.id)
      modifies this`cells, this`capacity, this`curSize, this`elems, this`members, this`copied, cells
      ensures Shape() && (cells == old(cells) || fresh(cells)) && members == old(members) + {timer}
      ensures Grown(old(curSize), old(capacity), old(copied))
      ensures Rose(old(elems) + [timer], elems, place, moves)
      ensures moves <= Log2(curSize)
    {
      Reserve();
      moves, place := PercolateUp(timer);
      members := members + {timer};
      assert multiset(elems) == multiset(members);
    }

    /** Room was made for one more timer. */
    ghost predicate Grown(size: nat, was: nat, cost: nat)
      reads this`capacity, this`copied
    {
      if size < was then capacity == was && copied == cost else capacity == 2 * was && copied == cost + size
    }

    method AddTimer(timer: HeapTimer?) returns (ghost moves: nat, ghost place: nat)
      requires Valid()
      requires timer != null ==> 0 < capacity && timer.live && !Named(members, timer.id)
      modifies this`cells, this`capacity, this`curSize, this`elems, this`members, this`copied, this`log, cells
      ensures Valid() && (cells == old(cells) || fresh(cells)) && old(capacity) <= capacity
      ensures timer == null ==> members == old(members) && log == old(log)
      ensures timer != null ==> members == old(members) + {timer}
      ensures timer != null ==> log == old(log) + [Insert(timer.id, timer.expire, timer.armed)]
      ensures timer != null ==> Rose(old(elems) + [timer], elems, place, moves) && moves <= Log2(curSize)
    {
      moves, place := 0, 0;
      if timer != null {
        moves, place := Admit(timer);
      }
    }

    method Admit(timer: HeapTimer) returns (ghost moves: nat, ghost place: nat)
      requires Valid() && 0 < capacity
      requires timer.live && !Named(members, timer.id)
      modifies this`cells, this`capacity, this`curSize, this`elems, this`members, this`copied, this`log, cells
      ensures Valid() && (cells == old(cells) || fresh(cells)) && old(capacity) <= capacity
      ensures members == old(members) + {timer}
      ensures log == old(log) + [Insert(timer.id, timer.expire, timer.armed)]
      ensures Rose(old(elems) + [timer], elems, place, moves) && moves <= Log2(curSize)
    {
      ghost var spec := Spec();
      moves, place := Push(timer);
      assert Tracks(spec.timers, old(members)) && SameTrace(trace, spec.trace);
      RecordInsert(timer, old(members), spec);
    }

    ghost method RecordInsert(timer: HeapTimer, was: set<HeapTimer>, spec: State)
      requires Shape() && spec == Spec() && |start| <= startCapacity && 0 < capacity
      requires Tracks(spec.timers, was) && !Named(was, timer.id) && members == was + {timer}
      requires SameTrace(trace, spec.trace) && curSize > 0 && Grown(curSize - 1, spec.capacity, spec.copied)
      modifies this`log
      ensures Valid() && log == old(log) + [Insert(timer.id, timer.expire, timer.armed)]
    {
      SizeAsMembers();
      TrackedSize(spec.timers, was);
      assert |members| == |was| + 1;
      TracksWith(spec.timers, was, timer);
      Record(Insert(timer.id, timer.expire, timer.armed));
    }

    lemma SizeTracked(spec: State)
      requires Shape() && Tracks(spec.timers, members)
      ensures curSize == |spec.timers|
    {
      assert |multiset(elems)| == |multiset(members)|;
      TrackedSize(spec.timers, members);
    }

    method DelTimer(timer: HeapTimer?)
      requires Valid()
      requires timer != null ==> timer.live && UniqueIds(members + {timer})
      modifies this`log, (if timer == null then {} else {timer})`armed
      ensures Valid()
      ensures timer == null ==> log == old(log)
      ensures timer != null ==> !timer.armed && log == old(log) + [Disarm(timer.id)]
    {
      if timer != null {
        timer.armed := false;
        Record(Disarm(timer.id));
      }
    }

    function Empty(): bool
      reads this
    {
      curSize == 0
    }

    /** The timer that expires first, if there is one. */
    method Top() returns (timer: HeapTimer?)
      requires Shape()
      ensures timer == null <==> members == {}
      ensures timer != null ==> timer in members && forall t :: t in members ==> timer.expire <= t.expire
    {
      Membership();
      if Empty() {
        assert multiset(members) == multiset{};
        assert forall t :: t in members ==> t in multiset(members);
        return null;
      }
      timer := cells[0];
      assert elems[0] in elems;
    }

    lemma Membership()
      requires Shape()
      ensures forall t :: t in elems <==> t in members
      ensures forall t, u :: u in members && curSize > 0 && t == elems[0] ==> t.expire <= u.expire
    {
      forall t ensures t in elems <==> t in members {
        assert t in multiset(elems) <==> t in multiset(members);
      }
      forall u | u in members && curSize > 0 ensures elems[0].expire <= u.expire {
        var i :| 0 <= i < |elems| && elems[i] == u;
        RootIsLeast(elems, i);
      }
    }

    /** Replaces the root by the last timer and sinks it. On the last timer this leaves a stale root cell. */
    method PopRoot() returns (ghost moves: nat, ghost place: nat)
      requires Mirrors() && IsHeap(elems) && curSize > 0
      modifies this`elems, this`curSize, cells
      ensures Mirrors() && IsHeap(elems) && curSize == old(curSize) - 1
      ensures multiset(elems) == multiset(old(elems)) - multiset{old(elems)[0]}
      ensures if curSize == 0 then moves == 0 else
                Sank(Popped(old(elems)), elems, 0, place, moves) && moves <= Log2(curSize)
    {
      PoppedMultiset(elems);
      if curSize > 1 {
        PoppedSinks(elems);
        RootHeight(curSize - 1);
      }
      curSize := curSize - 1;
      cells[0] := cells[curSize];
      elems := Popped(elems);
      moves, place := PercolateDown(0);
      SubtreeAtRoot(elems);
    }

    /** Deletes the timer that expires first. The history is left to the caller. */
    method DropLeast() returns (ghost moves: nat, ghost place: nat)
      requires Shape()
      modifies this`elems, this`curSize, this`members, cells, members`live
      ensures Shape()
      ensures old(curSize) == 0 ==> members == old(members) && curSize == 0 && moves == 0
      ensures old(curSize) > 0 ==>
                var top := old(elems)[0];
                && curSize == old(curSize) - 1
                && top in old(members) && !top.live && members == old(members) - {top}
                && (forall t :: t in old(members) ==> top.expire <= t.expire)
                && (if curSize == 0 then moves == 0 else
                      Sank(Popped(old(elems)), elems, 0, place, moves) && moves <= Log2(curSize))
    {
      moves, place := 0, 0;
      if Empty() {
        return;
      }
      Membership();
      ghost var top := elems[0];
      assert top in elems;
      cells[0].Delete();
      moves, place := PopRoot();
      members := members - {top};
      assert multiset(elems) == multiset(members);
    }

    /** Deletes the timer that expires first, if there is one. The heap stays usable. */
    method PopTimer() returns (ghost moves: nat, ghost place: nat)
      requires Valid()
      modifies this`elems, this`curSize, this`members, this`log, cells, members`live
      ensures Valid()
      ensures old(members) == {} ==> members == {} && log == old(log)
      ensures old(members) != {} ==>
                var top := old(elems)[0];
                && top in old(members) && !top.live && members == old(members) - {top}
                && (forall t :: t in old(members) ==> top.expire <= t.expire)
                && log == old(log) + [Pop(top.id)]
      ensures if curSize == 0 then moves == 0 else
                Sank(Popped(old(elems)), elems, 0, place, moves) && moves <= Log2(curSize)
    {
      SizeAsMembers();
      ghost var spec := Spec();
      moves, place := DropLeast();
      if old(curSize) > 0 {
        ghost var top := old(elems)[0];
        TracksWithout(spec.timers, old(members), top);
        Record(Pop(top.id));
      }
    }

    lemma SizeAsMembers()
      requires Shape()
      ensures curSize == |members|
    {
      assert |multiset(elems)| == |multiset(members)|;
    }

    /** Runs and deletes timers, in expiry order, until the next one lies in the future. */
    method Drain(clock: int) returns (fired: seq<HeapTimer>)
      requires Shape() && 0 < capacity
      modifies this`elems, this`curSize, this`members, cells, members`live
      ensures Shape()
      ensures members == (set t | t in old(members) && t.expire > clock)
      ensures forall t :: t in old(members) && t.expire <= clock ==> !t.live
      ensures Drained(old(members), members, clock, fired)
    {
      fired := [];
      var tmp := cells[0];
      while !Empty()
        modifies this`elems, this`curSize, this`members, cells, members`live
        invariant Shape() && Drained(old(members), members, clock, fired)
        invariant curSize > 0 ==> tmp == elems[0]
        invariant forall t :: t in old(members) && t !in members ==> !t.live
        decreases curSize
      {
        Membership();
        assert elems[0] in elems && tmp.live;
        if tmp.expire > clock {
          break;
        }
        DrainStep(old(members), members, clock, fired, tmp);
        if cells[0].armed {
          fired := fired + [cells[0]];
        }
        var _, _ := DropLeast();
        tmp := cells[0];
      }
      Membership();
    }

    method Tick(clock: int) returns (fired: seq<HeapTimer>)
      requires Valid() && 0 < capacity
      modifies this`elems, this`curSize, this`members, this`log, this`trace, cells, members`live
      ensures Valid()
      ensures log == old(log) + [Expire(clock)] && trace == old(trace) + [Ids(fired)]
      ensures members == (set t | t in old(members) && t.expire > clock)
      ensures forall t :: t in fired <==> t in old(members) && t.expire <= clock && t.armed
      ensures forall t :: t in old(members) && t.expire <= clock ==> !t.live
      ensures InExpiryOrder(fired)
    {
      ghost var spec := Spec();
      fired := Drain(clock);
      TicksAsModelled(spec.timers, old(members), clock, fired);
      RecordTick(clock, Ids(fired), spec);
    }

    ghost method RecordTick(clock: int, ids: seq<nat>, spec: State)
      requires Shape() && spec == Spec() && |start| <= startCapacity && (InsertsIn(log) > 0 ==> 0 < capacity)
      requires Tracks(Later(spec.timers, clock), members) && Costs(spec)
      requires SameTrace(trace, spec.trace) && SameCallbacks(ids, Due(spec.timers, clock))
      modifies this`log, this`trace
      ensures Valid() && log == old(log) + [Expire(clock)] && trace == old(trace) + [ids]
    {
      SameTraceGrows(trace, spec.trace, ids, Due(spec.timers, clock));
      trace := trace + [ids];
      Record(Expire(clock));
    }

    /** Puts the timers of init in order, in an array of the given capacity. */
    constructor FromArray(init: seq<HeapTimer>, capacity: nat)
      requires |init| <= capacity && Adoptable(init)
      ensures Valid() && fresh(cells) && this.capacity == capacity
      ensures multiset(elems) == multiset(init)
      ensures |init| > 0 ==> buildMoves < |init|
      ensures exists stages, sinks :: Built(init, elems, stages, sinks, buildMoves)
      ensures log == [] && trace == [] && startCapacity == capacity
    {
      cells := new HeapTimer?[capacity](_ => null);
      this.capacity, curSize, elems, members := capacity, |init|, init, {};
      copied, buildMoves := 0, 0;
      start, startCapacity, log, trace := map[], capacity, [], [];
      new;
      ghost var stages, sinks := Fill(init);
      Adopt(init);
      assert Built(init, elems, stages, sinks, buildMoves);
    }

    /** Takes possession of the timers of init. */
    ghost method Adopt(init: seq<HeapTimer>)
      requires Mirrors() && IsHeap(elems) && Adoptable(init) && multiset(elems) == multiset(init)
      requires log == [] && trace == [] && startCapacity == capacity && copied == 0
      modifies this`members, this`start
      ensures Valid()
    {
      members := AdoptedAsSet(init);
      start := Snapshot(members);
      SizeTracked(Spec());
    }

    method Fill(init: seq<HeapTimer>) returns (ghost stages: seq<seq<HeapTimer>>, ghost sinks: seq<HeapSink>)
      requires cells.Length == capacity && curSize == |init| <= capacity && elems == init && buildMoves == 0
      modifies this`elems, this`buildMoves, cells
      ensures Mirrors() && IsHeap(elems) && multiset(elems) == multiset(init)
      ensures Built(init, elems, stages, sinks, buildMoves) && (|init| > 0 ==> buildMoves < |init|)
    {
      stages, sinks := [init], [];
      if |init| != 0 {
        CopyIn(init);
        stages, sinks := Heapify();
      }
    }

    method CopyIn(init: seq<HeapTimer>)
      requires cells.Length == capacity && curSize == |init| <= capacity && elems == init
      modifies cells
      ensures Mirrors()
    {
      for i := 0 to curSize
        invariant forall k :: 0 <= k < i ==> cells[k] == init[k]
      {
        cells[i] := init[i];
      }
    }

    /** Bottom-up construction: sinks every timer that has children, the last one first. */
    method Heapify() returns (ghost stages: seq<seq<HeapTimer>>, ghost sinks: seq<HeapSink>)
      requires Mirrors() && curSize > 0 && buildMoves == 0
      modifies this`elems, this`buildMoves, cells
      ensures Mirrors() && IsHeap(elems) && multiset(elems) == multiset(old(elems))
      ensures Built(old(elems), elems, stages, sinks, buildMoves) && buildMoves < curSize
    {
      var i: int := (curSize - 1) / 2;
      ghost var n := i + 1;
      stages, sinks := [elems], [];
      while i >= 0
        invariant -1 <= i < curSize && n == (curSize + 1) / 2 && |sinks| == n - 1 - i
        invariant Mirrors() && HeapFrom(elems, i + 1) && multiset(elems) == multiset(old(elems))
        invariant Building(old(elems), elems, stages, sinks, n)
        invariant buildMoves == Total(sinks) <= SumOfHeights(i + 1, curSize)
        decreases i
      {
        stages, sinks := SinkNext(i, old(elems), stages, sinks, n);
        i := i - 1;
      }
      SumOfHeightsBound(curSize);
    }

    /** The loop's body. */
    method SinkNext(i: nat, ghost was: seq<HeapTimer>, ghost stages: seq<seq<HeapTimer>>, ghost sinks: seq<HeapSink>,
                    ghost n: nat)
      returns (ghost stages': seq<seq<HeapTimer>>, ghost sinks': seq<HeapSink>)
      requires Mirrors() && i < curSize && HeapFrom(elems, i + 1)
      requires Building(was, elems, stages, sinks, n) && i == n - 1 - |sinks|
      modifies this`elems, this`buildMoves, cells
      ensures Mirrors() && HeapFrom(elems, i) && multiset(elems) == multiset(old(elems))
      ensures Building(was, elems, stages', sinks', n) && |sinks'| == |sinks| + 1
      ensures buildMoves - old(buildMoves) == Total(sinks') - Total(sinks) <= Height(i + 1, curSize)
    {
      HeapSinks(elems, i);
      ghost var before := elems;
      ghost var moves, place := PercolateDown(i);
      SubtreeExtends(before, elems, i);
      BuildStep(was, before, elems, stages, sinks, n, HeapSink(place, moves));
      stages', sinks' := stages + [elems], sinks + [HeapSink(place, moves)];
      buildMoves := buildMoves + moves;
    }

    /** The array constructor with its check of the arguments. */
    static method Build(init: seq<HeapTimer>, capacity: nat) returns (r: Result<TimeHeap>)
      requires Adoptable(init)
      ensures r.Exception? <==> capacity < |init|
      ensures r.Ok? ==> fresh(r.value) && r.value.Valid() && r.value.capacity == capacity
      ensures r.Ok? ==> multiset(r.value.elems) == multiset(init)
      ensures r.Ok? && |init| > 0 ==> r.value.buildMoves < |init|
      ensures r.Ok? ==> exists stages, sinks :: Built(init, r.value.elems, stages, sinks, r.value.buildMoves)
    {
      if capacity < |init| {
        return Exception;
      }
      var heap := new TimeHeap.FromArray(init, capacity);
      return Ok(heap);
    }
  }
}
