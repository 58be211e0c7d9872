/** The timer wheel on values: N lists of (id, rotation) pairs and a cursor.

The class TimeWheel is proved to carry out exactly these steps on its linked nodes; here the steps are
proved to refine the countdown scheduler over every run. */
module WheelModel {
  import opened Countdown
  import opened ModularArithmetic
  import opened Sequences

  datatype Entry = Entry(id: nat, rotation: nat)

  datatype Wheel = Wheel(slots: seq<seq<Entry>>, cur: nat, nextId: nat, trace: seq<seq<nat>>)

  /** The entries that outlive a visit of their slot, with one rotation less to wait. */
  function Survivors(list: seq<Entry>): (r: seq<Entry>)
    ensures |r| <= |list|
  {
    if list == [] then []
    else
      var last := list[|list| - 1];
      Survivors(list[..|list| - 1]) + if last.rotation > 0 then [Entry(last.id, last.rotation - 1)] else []
  }

  /** The entries whose callbacks run when their slot is visited, in list order. */
  function Fired(list: seq<Entry>): seq<nat> {
    if list == [] then []
    else
      var last := list[|list| - 1];
      Fired(list[..|list| - 1]) + if last.rotation > 0 then [] else [last.id]
  }

  function Without(list: seq<Entry>, id: nat): seq<Entry> {
    if list == [] then []
    else
      var last := list[|list| - 1];
      Without(list[..|list| - 1], id) + if last.id == id then [] else [last]
  }

  function Init(n: nat): Wheel {
    Wheel(seq(n, _ => []), 0, 0, [])
  }

  ghost predicate Shaped(w: Wheel, n: nat) {
    |w.slots| == n && w.cur < n
  }

  function Target(w: Wheel, n: nat, ticks: nat): nat
    requires 0 < n
  {
    (w.cur + ticks % n) % n
  }

  function Step(w: Wheel, op: Op, n: nat, interval: nat): (r: Wheel)
    requires 0 < interval && Shaped(w, n)
    ensures Shaped(r, n)
  {
    match op
    case Add(timeout) =>
      if timeout < 0 then w
      else
        var ticks := Ticks(timeout, interval);
        var ts := Target(w, n, ticks);
        Wheel(w.slots[ts := [Entry(w.nextId, ticks / n)] + w.slots[ts]], w.cur, w.nextId + 1, w.trace)
    case Del(id) => w.(slots := seq(n, s requires 0 <= s < n => Without(w.slots[s], id)))
    case Tick =>
      Wheel(w.slots[w.cur := Survivors(w.slots[w.cur])], (w.cur + 1) % n, w.nextId,
            w.trace + [Fired(w.slots[w.cur])])
  }

  lemma AddSlots(w: Wheel, timeout: nat, n: nat, interval: nat, rotation: nat, ts: nat)
    requires 0 < interval && 0 < n && Shaped(w, n)
    requires ts < n && Distance(w, n, ts, rotation) == Ticks(timeout, interval)
    ensures Step(w, Add(timeout), n, interval).slots == w.slots[ts := [Entry(w.nextId, rotation)] + w.slots[ts]]
  {
    SlotOfDistance(w.cur, Ticks(timeout, interval), n, ts, rotation);
  }

  function Run(ops: seq<Op>, n: nat, interval: nat): (r: Wheel)
    requires 0 < interval && 0 < n
    ensures Shaped(r, n)
  {
    if ops == [] then Init(n)
    else Step(Run(ops[..|ops| - 1], n, interval), ops[|ops| - 1], n, interval)
  }

  // ----- what the list functions do to membership

  lemma {:induction false} SurvivorsMember(list: seq<Entry>, e: Entry)
    ensures e in Survivors(list) <==> Entry(e.id, e.rotation + 1) in list
  {
    if list != [] {
      SurvivorsMember(list[..|list| - 1], e);
      assert list == list[..|list| - 1] + [list[|list| - 1]];
    }
  }

  lemma {:induction false} FiredMember(list: seq<Entry>, id: nat)
    ensures id in Fired(list) <==> Entry(id, 0) in list
  {
    if list != [] {
      FiredMember(list[..|list| - 1], id);
      assert list == list[..|list| - 1] + [list[|list| - 1]];
    }
  }

  lemma {:induction false} WithoutMember(list: seq<Entry>, id: nat, e: Entry)
    ensures e in Without(list, id) <==> e in list && e.id != id
  {
    if list != [] {
      WithoutMember(list[..|list| - 1], id, e);
      assert list == list[..|list| - 1] + [list[|list| - 1]];
    }
  }

  /** A sweep under way: the list as it stands, how many of its entries are behind the cursor, who has run. */
  datatype Sweep = Sweep(list: seq<Entry>, behind: nat, fired: seq<nat>)

  /** One visit: lower the entry at the cursor and move on, or run it and take it out. */
  function Visit(w: Sweep): Sweep
    requires w.behind < |w.list|
  {
    var e := w.list[w.behind];
    if e.rotation > 0 then Sweep(w.list[w.behind := Entry(e.id, e.rotation - 1)], w.behind + 1, w.fired)
    else Sweep(Cut(w.list, w.behind), w.behind, w.fired + [e.id])
  }

  /** The states of a sweep through list, from before its first visit to after its last. */
  ghost predicate Sweeps(list: seq<Entry>, ws: seq<Sweep>) {
    && |ws| == |list| + 1 && ws[0] == Sweep(list, 0, [])
    && (forall k :: 0 <= k < |ws| ==> |ws[k].list| == ws[k].behind + |list| - k)
    && (forall k :: 0 <= k < |list| ==> ws[k + 1] == Visit(ws[k]))
  }

  /** Visiting the entries one by one, in place, computes what Survivors and Fired say of the whole list. */
  lemma {:induction false} SweepsIs(list: seq<Entry>, ws: seq<Sweep>, k: nat)
    requires Sweeps(list, ws) && k <= |list|
    ensures ws[k] == Sweep(Survivors(list[..k]) + list[k..], |Survivors(list[..k])|, Fired(list[..k]))
  {
    if k > 0 {
      SweepsIs(list, ws, k - 1);
      assert list[..k][..k - 1] == list[..k - 1];
    }
  }

  lemma SweepExists(list: seq<Entry>) returns (ws: seq<Sweep>)
    ensures Sweeps(list, ws)
    ensures ws[|list|].list == Survivors(list) && ws[|list|].fired == Fired(list)
  {
    ws := [Sweep(list, 0, [])];
    for n := 0 to |list|
      invariant |ws| == n + 1 && ws[0] == Sweep(list, 0, [])
      invariant forall k :: 0 <= k < |ws| ==> |ws[k].list| == ws[k].behind + |list| - k
      invariant forall k :: 0 <= k < n ==> ws[k + 1] == Visit(ws[k])
    {
      ws := ws + [Visit(ws[n])];
    }
    SweepsIs(list, ws, |list|);
    assert list[..|list|] == list;
  }

  // ----- the order within a slot: the most recently accepted timer stands first

  ghost predicate Descending(list: seq<Entry>) {
    forall i, j :: 0 <= i < j < |list| ==> list[i].id > list[j].id
  }

  ghost predicate DescendingIds(ids: seq<nat>) {
    forall i, j :: 0 <= i < j < |ids| ==> ids[i] > ids[j]
  }

  lemma {:induction false} SurvivorsDescend(list: seq<Entry>)
    requires Descending(list)
    ensures Descending(Survivors(list))
  {
    if list != [] {
      var front := list[..|list| - 1];
      SurvivorsDescend(front);
      forall e | e in Survivors(front) ensures e.id > list[|list| - 1].id {
        SurvivorsMember(front, e);
      }
    }
  }

  lemma {:induction false} FiredDescends(list: seq<Entry>)
    requires Descending(list)
    ensures DescendingIds(Fired(list))
  {
    if list != [] {
      var front := list[..|list| - 1];
      FiredDescends(front);
      forall id | id in Fired(front) ensures id > list[|list| - 1].id {
        FiredMember(front, id);
      }
      assert forall i :: 0 <= i < |Fired(front)| ==> Fired(front)[i] in Fired(front);
    }
  }

  lemma {:induction false} WithoutDescends(list: seq<Entry>, id: nat)
    requires Descending(list)
    ensures Descending(Without(list, id))
  {
    if list != [] {
      var front := list[..|list| - 1];
      WithoutDescends(front, id);
      forall e | e in Without(front, id) ensures e.id > list[|list| - 1].id {
        WithoutMember(front, id, e);
      }
    }
  }

  /** Removing by id is unlinking one node, the rest keeping their order. */
  lemma {:induction false} WithoutAt(list: seq<Entry>, k: nat)
    requires Descending(list) && k < |list|
    ensures Without(list, list[k].id) == Cut(list, k)
  {
    var front := list[..|list| - 1];
    if k == |list| - 1 {
      WithoutAbsent(front, list[k].id);
      assert front == Cut(list, k);
    } else {
      WithoutAt(front, k);
      assert Cut(list, k) == Cut(front, k) + [list[|list| - 1]];
    }
  }

  lemma {:induction false} WithoutAbsent(list: seq<Entry>, id: nat)
    requires forall e :: e in list ==> e.id != id
    ensures Without(list, id) == list
  {
    if list != [] {
      WithoutAbsent(list[..|list| - 1], id);
      assert list == list[..|list| - 1] + [list[|list| - 1]];
    }
  }

  // ----- refinement of the countdown scheduler

  /** D = rotation * N + ((slot - cur) mod N): the ticks an entry still has to wait. */
  function Distance(w: Wheel, n: nat, s: nat, rotation: nat): nat
    requires Shaped(w, n) && s < n
  {
    rotation * n + (s - w.cur) % n
  }

  /** Slot s holds the entry (id, r) exactly when the countdown has id pending at that distance. */
  ghost predicate At(w: Wheel, c: State, n: nat, s: nat, id: nat, r: nat)
    requires Shaped(w, n) && s < n
  {
    Entry(id, r) in w.slots[s] <==> id in c.remaining && c.remaining[id] == Distance(w, n, s, r)
  }

  /** The wheel stands for a countdown state: the entries are exactly the pending timers, each at the slot and
      rotation its remaining ticks dictate, and every slot lists its timers youngest first. */
  ghost predicate Refines(w: Wheel, c: State, n: nat) {
    && Shaped(w, n)
    && w.nextId == c.nextId
    && (forall id :: id in c.remaining ==> id < c.nextId)
    && (forall s, id: nat, r: nat :: 0 <= s < n ==> At(w, c, n, s, id, r))
    && (forall s :: 0 <= s < n ==> Descending(w.slots[s]))
    && |w.trace| == |c.trace|
    && (forall k :: 0 <= k < |w.trace| ==> SameFired(w.trace[k], c.trace[k]))
  }

  /** One tick's callbacks: the given timers, once each, the most recently accepted first. */
  ghost predicate SameFired(fired: seq<nat>, due: set<nat>) {
    (forall id :: id in fired <==> id in due) && DescendingIds(fired)
  }

  lemma AddRefines(w: Wheel, c: State, timeout: int, n: nat, interval: nat)
    requires 0 < interval && Refines(w, c, n)
    ensures Refines(Step(w, Add(timeout), n, interval), Countdown.Step(c, Add(timeout), interval), n)
  {
    if timeout >= 0 {
      var ticks := Ticks(timeout, interval);
      var ts := Target(w, n, ticks);
      var w' := Step(w, Add(timeout), n, interval);
      var c' := Countdown.Step(c, Add(timeout), interval);
      forall s, id: nat, r: nat | 0 <= s < n ensures At(w', c', n, s, id, r) {
        assert At(w, c, n, s, id, r);
        SlotOfDistance(w.cur, ticks, n, s, r);
      }
      forall e | e in w.slots[ts] ensures e.id < w.nextId {
        assert At(w, c, n, ts, e.id, e.rotation);
      }
    }
  }

  lemma DelRefines(w: Wheel, c: State, id: nat, n: nat, interval: nat)
    requires 0 < interval && Refines(w, c, n)
    ensures Refines(Step(w, Del(id), n, interval), Countdown.Step(c, Del(id), interval), n)
  {
    var w' := Step(w, Del(id), n, interval);
    var c' := Countdown.Step(c, Del(id), interval);
    forall s | 0 <= s < n ensures Descending(w'.slots[s]) {
      WithoutDescends(w.slots[s], id);
    }
    forall s, i: nat, r: nat | 0 <= s < n ensures At(w', c', n, s, i, r) {
      assert At(w, c, n, s, i, r);
      WithoutMember(w.slots[s], id, Entry(i, r));
    }
  }

  /** One tick leaves the entry (id, r) in slot s exactly when the slot held id one tick further away: every
      distance, in whatever slot, drops by exactly one. */
  lemma TickLowers(w: Wheel, n: nat, interval: nat, s: nat, id: nat, r: nat)
    requires 0 < interval && Shaped(w, n) && s < n
    ensures var w' := Step(w, Tick, n, interval);
            var r0 := if s == w.cur then r + 1 else r;
            && (Entry(id, r) in w'.slots[s] <==> Entry(id, r0) in w.slots[s])
            && Distance(w, n, s, r0) == Distance(w', n, s, r) + 1
  {
    SurvivorsMember(w.slots[w.cur], Entry(id, r));
    CursorAdvances(w.cur, n, s);
    MulSuccessor(r, n);
  }

  /** One tick runs exactly the entries at distance zero. */
  lemma TickFires(w: Wheel, n: nat, s: nat, id: nat, r: nat)
    requires Shaped(w, n) && s < n
    ensures Distance(w, n, s, r) == 0 <==> s == w.cur && r == 0
    ensures id in Fired(w.slots[w.cur]) <==> Entry(id, 0) in w.slots[w.cur]
  {
    FiredMember(w.slots[w.cur], id);
    CursorAdvances(w.cur, n, w.cur);
    if Distance(w, n, s, r) == 0 {
      ZeroDistance(w.cur, n, s, r);
    }
  }

  lemma TickRefines(w: Wheel, c: State, n: nat, interval: nat)
    requires 0 < interval && Refines(w, c, n)
    ensures Refines(Step(w, Tick, n, interval), Countdown.Step(c, Tick, interval), n)
  {
    var w' := Step(w, Tick, n, interval);
    var c' := Countdown.Step(c, Tick, interval);
    SurvivorsDescend(w.slots[w.cur]);
    FiredDescends(w.slots[w.cur]);
    forall s, id: nat, r: nat | 0 <= s < n ensures At(w', c', n, s, id, r) {
      TickLowers(w, n, interval, s, id, r);
      assert At(w, c, n, s, id, if s == w.cur then r + 1 else r);
    }
    forall id: nat ensures id in Fired(w.slots[w.cur]) <==> id in Due(c.remaining) {
      TickFires(w, n, w.cur, id, 0);
      assert At(w, c, n, w.cur, id, 0);
    }
  }

  /** Over every run of add, delete and tick, on a wheel of any size: the wheel stands for the countdown
      scheduler, and each of its ticks runs the same timers, youngest first. */
  lemma {:induction false} RunRefines(ops: seq<Op>, n: nat, interval: nat)
    requires 0 < interval && 0 < n
    ensures Refines(Run(ops, n, interval), Countdown.Run(ops, interval), n)
  {
    if ops != [] {
      var front, op := ops[..|ops| - 1], ops[|ops| - 1];
      RunRefines(front, n, interval);
      var w, c := Run(front, n, interval), Countdown.Run(front, interval);
      match op
      case Add(timeout) => AddRefines(w, c, timeout, n, interval);
      case Del(id) => DelRefines(w, c, id, n, interval);
      case Tick => TickRefines(w, c, n, interval);
    }
  }

  /** In a reachable wheel an id stands in one slot only, so deleting it is unlinking one node. */
  lemma DelAt(ops: seq<Op>, n: nat, interval: nat, ts: nat, k: nat)
    requires 0 < interval && 0 < n && ts < n && k < |Run(ops, n, interval).slots[ts]|
    ensures var w := Run(ops, n, interval);
            Step(w, Del(w.slots[ts][k].id), n, interval).slots
            == w.slots[ts := Cut(w.slots[ts], k)]
  {
    RunRefines(ops, n, interval);
    var w, c := Run(ops, n, interval), Countdown.Run(ops, interval);
    var e := w.slots[ts][k];
    assert At(w, c, n, ts, e.id, e.rotation);
    WithoutAt(w.slots[ts], k);
    forall s | 0 <= s < n && s != ts ensures Without(w.slots[s], e.id) == w.slots[s] {
      forall e' | e' in w.slots[s] ensures e'.id != e.id {
        assert At(w, c, n, s, e'.id, e'.rotation);
        SlotOfDistance(w.cur, Distance(w, n, ts, e.rotation), n, s, e'.rotation);
        SlotOfDistance(w.cur, Distance(w, n, ts, e.rotation), n, ts, e.rotation);
      }
      WithoutAbsent(w.slots[s], e.id);
    }
  }
}
