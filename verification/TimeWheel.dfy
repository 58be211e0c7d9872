/** The timer wheel in memory: N slots, each an intrusive doubly linked list of timers.

Every operation carries out one step of WheelModel on the linked nodes. A wheel also remembers, for
specification only, the operations it went through and the callbacks it ran, so that what WheelModel and
Countdown prove about runs holds of every reachable wheel object. */
module TimeWheels {
  import opened Countdown
  import opened Sequences
  import opened WheelModel
  import ModularArithmetic

  class TwTimer {
    ghost const id: nat
    const timeSlot: nat
    var rotation: nat
    var next: TwTimer?
    var prev: TwTimer?
    ghost var live: bool  // not yet deleted

    constructor (rotation: nat, timeSlot: nat, ghost id: nat)
      ensures this.rotation == rotation && this.timeSlot == timeSlot && this.id == id
      ensures next == null && prev == null && live
    {
      this.rotation, this.timeSlot, this.id := rotation, timeSlot, id;
      next, prev, live := null, null, true;
    }

    /** The end of a timer's life. It must not have ended before. */
    method Delete()
      requires live
      modifies this`live
      ensures !live
    {
      live := false;
    }
  }

  /** The nodes of list, in this order, form an acyclic doubly linked list that starts at head: the links are
      mutual inverses and null at the ends, and no node is deleted. */
  ghost predicate Linked(list: seq<TwTimer>, head: TwTimer?)
    reads list`live, list`prev, list`next
  {
    && head == Nth(list, 0, null)
    && (forall i :: 0 <= i < |list| ==> list[i].live)
    && (forall i {:trigger list[i].prev} :: 0 <= i < |list| ==> list[i].prev == Nth(list, i - 1, null))
    && (forall i {:trigger list[i].next} :: 0 <= i < |list| ==> list[i].next == Nth(list, i + 1, null))
  }

  /** The nodes of list carry the given ids and rotations. */
  ghost predicate Carries(list: seq<TwTimer>, entries: seq<Entry>)
    reads list`rotation
  {
    && |list| == |entries|
    && forall i {:trigger list[i].rotation} {:trigger list[i].id} {:trigger entries[i]} :: 0 <= i < |list| ==>
         list[i].id == entries[i].id && list[i].rotation == entries[i].rotation
  }

  /** The list that starts at head is list, without repetition, and carries the given entries. */
  ghost predicate Listed(list: seq<TwTimer>, entries: seq<Entry>, head: TwTimer?)
    reads list`live, list`prev, list`next, list`rotation
  {
    Linked(list, head) && Carries(list, entries) && Distinct(list)
  }

  /** nodes are the nodes of the lists, each on the list of its slot. */
  ghost predicate Members(lists: seq<seq<TwTimer>>, nodes: set<TwTimer>) {
    && (forall t :: t in nodes ==> t.timeSlot < |lists| && t in lists[t.timeSlot])
    && (forall s, i :: 0 <= s < |lists| && 0 <= i < |lists[s]| ==>
          lists[s][i] in nodes && lists[s][i].timeSlot == s)
  }

  lemma Relisted(lists: seq<seq<TwTimer>>, nodes: set<TwTimer>, ts: nat, list: seq<TwTimer>, nodes': set<TwTimer>)
    requires Members(lists, nodes) && ts < |lists|
    requires forall t :: t in nodes' <==> t in list || (t in nodes && t.timeSlot != ts)
    requires forall t :: t in list ==> t.timeSlot == ts
    ensures Members(lists[ts := list], nodes')
  {
    assert forall i :: 0 <= i < |list| ==> list[i] in list;
  }

  lemma OnList(lists: seq<seq<TwTimer>>, nodes: set<TwTimer>, ts: nat)
    requires Members(lists, nodes) && ts < |lists|
    ensures forall t :: t in lists[ts] <==> t in nodes && t.timeSlot == ts
  {
  }

  /** A sweep has split all into the nodes that were kept and those that were run and deleted. */
  ghost predicate Split(all: seq<TwTimer>, kept: seq<TwTimer>, fired: seq<TwTimer>)
    reads fired`live
  {
    && (forall t :: t in kept ==> t in all)
    && (forall t :: t in all ==> t in kept || t in fired)
    && (forall t :: t in fired ==> t in all && !t.live)
  }

  lemma SplitCut(all: seq<TwTimer>, kept: seq<TwTimer>, fired: seq<TwTimer>, k: nat)
    requires Split(all, kept, fired) && Distinct(kept) && k < |kept| && !kept[k].live
    ensures Split(all, Cut(kept, k), fired + [kept[k]])
    ensures Ids(fired + [kept[k]]) == Ids(fired) + [kept[k].id]
  {
    CutMembers(kept, k);
    assert kept[k] in kept;
  }

  lemma CutMembers(list: seq<TwTimer>, k: nat)
    requires k < |list| && Distinct(list)
    ensures forall t :: t in Cut(list, k) <==> t in list && t != list[k]
  {
    forall t | t in list && t != list[k] ensures t in Cut(list, k) {
      var i :| 0 <= i < |list| && list[i] == t;
      assert t == Cut(list, k)[if i < k then i else i - 1];
    }
  }

  /** Cutting one node out of a list keeps everything the list says about its other nodes. */
  lemma CutKeeps(list: seq<TwTimer>, entries: seq<Entry>, k: nat)
    requires Distinct(list) && Carries(list, entries) && k < |list|
    ensures Distinct(Cut(list, k)) && Carries(Cut(list, k), Cut(entries, k))
  {
  }

  ghost function Ids(list: seq<TwTimer>): seq<nat> {
    seq(|list|, i requires 0 <= i < |list| => list[i].id)
  }

  class TimeWheel {
    const slots: array<TwTimer?>
    const interval: nat
    var curSlot: nat

    ghost var lists: seq<seq<TwTimer>>
    ghost var nodes: set<TwTimer>  // the live timers of this wheel
    ghost var log: seq<Op>
    ghost var trace: seq<seq<nat>>  // for each completed tick, the timers whose callbacks it ran

    ghost var model: Wheel

    ghost predicate Valid()
      reads this, slots, nodes
    {
      && 0 < interval && 0 < slots.Length == |lists|
      && model == WheelModel.Run(log, slots.Length, interval)
      && curSlot == model.cur
      && trace == model.trace
      && Holds(model.slots)
    }

    /** Every slot is a well-formed list of live nodes carrying the given entries; there are no other nodes. */
    ghost predicate Holds(content: seq<seq<Entry>>)
      reads this`lists, this`nodes, slots, nodes
    {
      && |content| == |lists| == slots.Length
      && Members(lists, nodes)
      && Chains(lists, nodes, content)
    }

    ghost predicate Chains(lists: seq<seq<TwTimer>>, nodes: set<TwTimer>, content: seq<seq<Entry>>)
      requires |content| == |lists| == slots.Length && Members(lists, nodes)
      reads slots, nodes
    {
      forall s {:trigger Linked(lists[s], slots[s])} {:trigger Carries(lists[s], content[s])} :: 0 <= s < |lists| ==>
        Linked(lists[s], slots[s]) && Carries(lists[s], content[s])
    }

    /** The whole wheel after one slot got another list. */
    lemma Rechained(lists: seq<seq<TwTimer>>, content: seq<seq<Entry>>,
                    ts: nat, list: seq<TwTimer>, entries: seq<Entry>, nodes': set<TwTimer>)
      requires |content| == |lists| == slots.Length && ts < |lists| && Members(lists[ts := list], nodes')
      requires forall s {:trigger Linked(lists[s], slots[s])} {:trigger Carries(lists[s], content[s])} ::
                 0 <= s < |lists| && s != ts ==> Linked(lists[s], slots[s]) && Carries(lists[s], content[s])
      requires Linked(list, slots[ts]) && Carries(list, entries)
      ensures Chains(lists[ts := list], nodes', content[ts := entries])
    {
      forall s | 0 <= s < |lists|
        ensures Linked(lists[ts := list][s], slots[s]) && Carries(lists[ts := list][s], content[ts := entries][s])
      {
        if s != ts {
          assert Linked(lists[s], slots[s]);
        }
      }
    }

    constructor (n: nat, interval: nat)
      requires 0 < n && 0 < interval
      ensures Valid() && fresh(slots) && log == [] && trace == [] && nodes == {}
      ensures slots.Length == n && this.interval == interval
    {
      slots := new TwTimer?[n](_ => null);
      this.interval := interval;
      curSlot := 0;
      lists := seq(n, _ => []);
      nodes, log, trace, model := {}, [], [], WheelModel.Init(n);
    }

    /** The history rules out that a list meets a node twice. */
    lemma SlotNodesDiffer(s: nat)
      requires Valid() && s < slots.Length
      ensures Distinct(lists[s]) && Descending(model.slots[s])
    {
      RunRefines(log, slots.Length, interval);
      assert Carries(lists[s], model.slots[s]);
      forall i, j | 0 <= i < j < |lists[s]| ensures lists[s][i] != lists[s][j] {
        assert model.slots[s][i].id > model.slots[s][j].id;
      }
    }

    ghost method Record(op: Op)
      requires 0 < interval && 0 < slots.Length && model == WheelModel.Run(log, slots.Length, interval)
      modifies this`log, this`model
      ensures log == old(log) + [op]
      ensures model == WheelModel.Run(log, slots.Length, interval)
      ensures model == WheelModel.Step(old(model), op, slots.Length, interval)
    {
      log := log + [op];
      assert log[..|log| - 1] == old(log);
      model := WheelModel.Run(log, slots.Length, interval);
    }

    /** Puts timer at the head of the list of its slot. */
    method Link(timer: TwTimer, ghost list: seq<TwTimer>)
      requires timer.timeSlot < slots.Length && timer !in list && Distinct(list)
      requires Linked(list, slots[timer.timeSlot])
      requires timer.live && timer.prev == null && timer.next == null
      modifies slots, list`prev, timer`next
      ensures Linked([timer] + list, slots[timer.timeSlot])
      ensures forall s :: 0 <= s < slots.Length && s != timer.timeSlot ==> slots[s] == old(slots[s])
    {
      var ts := timer.timeSlot;
      if slots[ts] == null {
        slots[ts] := timer;
      } else {
        timer.next := slots[ts];
        slots[ts].prev := timer;
        slots[ts] := timer;
      }
    }

    /** The same, seen from the whole wheel: the other slots keep their lists. */
    method Insert(timer: TwTimer, ghost content: seq<seq<Entry>>)
      requires Holds(content) && timer !in nodes && timer.timeSlot < slots.Length && Distinct(lists[timer.timeSlot])
      requires timer.live && timer.prev == null && timer.next == null
      modifies this`lists, this`nodes, slots, nodes`prev, timer`next
      ensures nodes == old(nodes) + {timer}
      ensures Holds(content[timer.timeSlot := [Entry(timer.id, timer.rotation)] + content[timer.timeSlot]])
    {
      ghost var ts := timer.timeSlot;
      assert timer !in lists[ts];
      assert Carries(lists[ts], content[ts]);
      Link(timer, lists[ts]);
      forall s | 0 <= s < |lists| && s != ts
        ensures Linked(lists[s], slots[s]) && Carries(lists[s], content[s])
      {
        assert old(Linked(lists[s], slots[s]) && Carries(lists[s], content[s]));
      }
      assert Members(lists[ts := [timer] + lists[ts]], nodes + {timer}) by {
        OnList(lists, nodes, ts);
        Relisted(lists, nodes, ts, [timer] + lists[ts], nodes + {timer});
      }
      Rechained(lists, content, ts, [timer] + lists[ts], [Entry(timer.id, timer.rotation)] + content[ts],
                nodes + {timer});
      lists := lists[ts := [timer] + lists[ts]];
      nodes := nodes + {timer};
    }

    lemma NextId()
      requires Valid()
      ensures model.nextId == AcceptedIn(log)
    {
      RunRefines(log, slots.Length, interval);
      RunCounts(log, interval);
    }

    /** A rotation and a slot that put a timer as far from the cursor as its timeout stands for. */
    method Place(timeout: nat) returns (rotation: nat, ts: nat)
      requires 0 < interval && curSlot < slots.Length
      ensures ts < slots.Length
      ensures StandsFor(timeout, interval, rotation * slots.Length + (ts - curSlot) % slots.Length)
    {
      var ticks := 0;
      if timeout < interval {
        ticks := 1;
      } else {
        ticks := timeout / interval;
      }
      rotation := ticks / slots.Length;
      ts := (curSlot + ticks % slots.Length) % slots.Length;
      PlaceExactly(timeout, ticks, rotation, ts);
    }

    lemma PlaceExactly(timeout: nat, ticks: nat, rotation: nat, ts: nat)
      requires 0 < interval && curSlot < slots.Length && ticks == Ticks(timeout, interval)
      requires rotation == ticks / slots.Length && ts == (curSlot + ticks % slots.Length) % slots.Length
      ensures ts < slots.Length
      ensures StandsFor(timeout, interval, rotation * slots.Length + (ts - curSlot) % slots.Length)
    {
      ModularArithmetic.SlotOfDistance(curSlot, ticks, slots.Length, ts, rotation);
      TicksExactly(timeout, interval, ticks);
    }

    /** The valid branch of AddTimer. */
    method Accept(timeout: nat) returns (timer: TwTimer)
      requires Valid()
      modifies this, slots, nodes
      ensures Valid()
      ensures fresh(timer) && nodes == old(nodes) + {timer} && timer.id == AcceptedIn(old(log))
      ensures StandsFor(timeout, interval, timer.rotation * slots.Length + (timer.timeSlot - curSlot) % slots.Length)
      ensures log == old(log) + [Add(timeout)] && trace == old(trace) && curSlot == old(curSlot)
    {
      var rotation, ts := Place(timeout);
      assert model.nextId == AcceptedIn(log) by { NextId(); }
      assert Distinct(lists[ts]) by { SlotNodesDiffer(ts); }
      timer := new TwTimer(rotation, ts, model.nextId);
      ghost var content := model.slots;
      assert Distance(model, slots.Length, ts, rotation) == Ticks(timeout, interval) by {
        TicksExactly(timeout, interval, Distance(model, slots.Length, ts, rotation));
      }
      AddSlots(model, timeout, slots.Length, interval, rotation, ts);
      Insert(timer, content);
      Record(Add(timeout));
    }

    method AddTimer(timeout: int) returns (timer: TwTimer?)
      requires Valid()
      modifies this, slots, nodes
      ensures Valid()
      ensures timer == null <==> timeout < 0
      ensures timer == null ==> nodes == old(nodes)
      ensures timer != null ==> fresh(timer) && nodes == old(nodes) + {timer} && timer.id == AcceptedIn(old(log))
      ensures timer != null ==>
                StandsFor(timeout, interval, timer.rotation * slots.Length + (timer.timeSlot - curSlot) % slots.Length)
      ensures log == old(log) + [Add(timeout)] && trace == old(trace) && curSlot == old(curSlot)
    {
      if timeout < 0 {
        Record(Add(timeout));
        return null;
      }
      timer := Accept(timeout);
    }

    /** Takes timer, the k-th node of its slot's list, out of the list and deletes it. Returns the node that
        stood behind it. */
    method Unlink(timer: TwTimer, ghost list: seq<TwTimer>, ghost k: nat) returns (behind: TwTimer?)
      requires k < |list| && list[k] == timer && timer.timeSlot < slots.Length
      requires Linked(list, slots[timer.timeSlot]) && Distinct(list)
      modifies slots, list`next, list`prev, timer`live
      ensures Linked(Cut(list, k), slots[timer.timeSlot])
      ensures forall s :: 0 <= s < slots.Length && s != timer.timeSlot ==> slots[s] == old(slots[s])
      ensures behind == Nth(Cut(list, k), k, null)
      ensures !timer.live
    {
      var ts := timer.timeSlot;
      behind := timer.next;
      if timer == slots[ts] {
        slots[ts] := slots[ts].next;
        timer.Delete();
        if slots[ts] != null {
          slots[ts].prev := null;
        }
      } else {
        Bypass(timer, list, k);
        timer.Delete();
      }
    }

    /** Lets the neighbours of timer, which is not the first of its list, point past it. */
    method Bypass(timer: TwTimer, ghost list: seq<TwTimer>, ghost k: nat)
      requires 0 < k < |list| && list[k] == timer && timer.timeSlot < slots.Length
      requires Linked(list, slots[timer.timeSlot]) && Distinct(list)
      modifies list`next, list`prev
      ensures Linked(Cut(list, k), slots[timer.timeSlot]) && timer.live
    {
      timer.prev.next := timer.next;
      if timer.next != null {
        timer.next.prev := timer.prev;
      }
    }

    /** The same, seen from the whole wheel: the other slots keep their lists. */
    method Remove(timer: TwTimer, ghost content: seq<seq<Entry>>, ghost k: nat)
      requires Holds(content) && timer in nodes && Distinct(lists[timer.timeSlot])
      requires k < |lists[timer.timeSlot]| && lists[timer.timeSlot][k] == timer
      modifies this`lists, this`nodes, slots, nodes`next, nodes`prev, timer`live
      ensures nodes == old(nodes) - {timer} && !timer.live
      ensures var e := content[timer.timeSlot];
              k < |e| && e[k].id == timer.id && Holds(content[timer.timeSlot := Cut(e, k)])
    {
      ghost var ts, list, e := timer.timeSlot, lists[timer.timeSlot], content[timer.timeSlot];
      OnList(lists, nodes, ts);
      CutMembers(list, k);
      CutKeeps(list, e, k);
      var _ := Unlink(timer, list, k);
      forall s | 0 <= s < |lists| && s != ts
        ensures Linked(lists[s], slots[s]) && Carries(lists[s], content[s])
      {
        assert old(Linked(lists[s], slots[s]) && Carries(lists[s], content[s]));
      }
      Relisted(lists, nodes, ts, Cut(list, k), nodes - {timer});
      Rechained(lists, content, ts, Cut(list, k), Cut(e, k), nodes - {timer});
      lists := lists[ts := Cut(list, k)];
      nodes := nodes - {timer};
    }

    method DelTimer(timer: TwTimer?)
      requires Valid()
      requires timer != null ==> timer in nodes
      modifies this, slots, nodes
      ensures Valid() && trace == old(trace)
      ensures timer == null ==> nodes == old(nodes) && log == old(log)
      ensures timer != null ==> nodes == old(nodes) - {timer} && !timer.live && log == old(log) + [Del(timer.id)]
    {
      if timer == null {
        return;
      }
      ghost var content, ts := model.slots, timer.timeSlot;
      ghost var k :| 0 <= k < |lists[ts]| && lists[ts][k] == timer;
      assert Distinct(lists[ts]) by { SlotNodesDiffer(ts); }
      assert WheelModel.Step(model, Del(timer.id), slots.Length, interval).slots
          == content[ts := Cut(content[ts], k)] by {
        assert Carries(lists[ts], content[ts]) && content[ts][k].id == timer.id;
        DelAt(log, slots.Length, interval, ts, k);
      }
      Record(Del(timer.id));
      Remove(timer, content, k);
    }

    /** How far a sweep of the current slot has come: kept is its list as it stands, next the node to visit. */
    ghost predicate Sweeping(w: Sweep, all: seq<TwTimer>, kept: seq<TwTimer>, fired: seq<TwTimer>, next: TwTimer?)
      requires curSlot < slots.Length
      reads this`curSlot, slots, kept`live, kept`prev, kept`next, kept`rotation, fired`live
    {
      && Listed(kept, w.list, slots[curSlot])
      && Split(all, kept, fired)
      && Ids(fired) == w.fired
      && next == Nth(kept, w.behind, null)
    }

    /** A due timer is run and deleted. */
    method Expire(timer: TwTimer, ghost w: Sweep, ghost all: seq<TwTimer>, ghost kept: seq<TwTimer>,
                  before: seq<TwTimer>)
      returns (fired: seq<TwTimer>, next: TwTimer?)
      requires curSlot < slots.Length && Sweeping(w, all, kept, before, timer) && timer.rotation == 0
      requires timer.timeSlot == curSlot
      modifies slots, kept`next, kept`prev, timer`live
      ensures w.behind < |kept| == |w.list| && Sweeping(Visit(w), all, Cut(kept, w.behind), fired, next)
      ensures forall s :: 0 <= s < slots.Length && s != curSlot ==> slots[s] == old(slots[s])
    {
      CutKeeps(kept, w.list, w.behind);
      fired := before + [timer];
      next := Unlink(timer, kept, w.behind);
      SplitCut(all, kept, before, w.behind);
    }

    /** Visits one node: a timer with rotations left waits one rotation less, another expires. */
    method VisitNode(tmp: TwTimer, ghost w: Sweep, ghost all: seq<TwTimer>, ghost kept: seq<TwTimer>,
                     before: seq<TwTimer>)
      returns (fired: seq<TwTimer>, next: TwTimer?, ghost kept': seq<TwTimer>)
      requires curSlot < slots.Length && (forall t :: t in all ==> t.timeSlot == curSlot)
      requires Sweeping(w, all, kept, before, tmp)
      modifies slots, all
      ensures w.behind < |w.list| && Sweeping(Visit(w), all, kept', fired, next)
      ensures forall s :: 0 <= s < slots.Length && s != curSlot ==> slots[s] == old(slots[s])
    {
      assert kept[w.behind] in kept;
      assert tmp.live;
      if tmp.rotation > 0 {
        tmp.rotation := tmp.rotation - 1;
        fired, next, kept' := before, tmp.next, kept;
      } else {
        fired, next := Expire(tmp, w, all, kept, before);
        kept' := Cut(kept, w.behind);
      }
    }

    /** Visits every node of the current slot exactly once, from its head on. */
    method Sweep(ghost all: seq<TwTimer>, ghost entries: seq<Entry>)
      returns (fired: seq<TwTimer>, ghost kept: seq<TwTimer>)
      requires curSlot < slots.Length && (forall t :: t in all ==> t.timeSlot == curSlot)
      requires Listed(all, entries, slots[curSlot])
      modifies slots, all
      ensures Listed(kept, Survivors(entries), slots[curSlot])
      ensures Ids(fired) == Fired(entries)
      ensures Split(all, kept, fired)
      ensures forall s :: 0 <= s < slots.Length && s != curSlot ==> slots[s] == old(slots[s])
    {
      ghost var ws := SweepExists(entries);
      ghost var k := 0;
      kept, fired := all, [];
      var tmp := slots[curSlot];
      while tmp != null
        modifies slots, all
        invariant k <= |entries| && Sweeping(ws[k], all, kept, fired, tmp)
        invariant forall s :: 0 <= s < slots.Length && s != curSlot ==> slots[s] == old(slots[s])
        decreases |entries| - k
      {
        fired, tmp, kept := VisitNode(tmp, ws[k], all, kept, fired);
        k := k + 1;
      }
      assert k == |entries|;
    }

    /** The same, seen from the whole wheel: the other slots keep their lists. */
    method SweepSlot(ghost content: seq<seq<Entry>>) returns (fired: seq<TwTimer>)
      requires Holds(content) && curSlot < slots.Length && Distinct(lists[curSlot])
      modifies this`lists, this`nodes, slots, nodes
      ensures Holds(content[curSlot := Survivors(content[curSlot])])
      ensures Ids(fired) == Fired(content[curSlot])
      ensures nodes == old(nodes) - (set t | t in fired)
      ensures forall t :: t in fired ==> t in old(nodes) && !t.live
    {
      ghost var all, entries := lists[curSlot], content[curSlot];
      OnList(lists, nodes, curSlot);
      ghost var kept;
      fired, kept := Sweep(all, entries);
      forall s | 0 <= s < |lists| && s != curSlot
        ensures Linked(lists[s], slots[s]) && Carries(lists[s], content[s])
      {
        assert old(Linked(lists[s], slots[s]) && Carries(lists[s], content[s]));
      }
      ghost var rest := nodes - (set t | t in fired);
      assert forall i :: 0 <= i < |kept| ==> kept[i].live;
      Relisted(lists, nodes, curSlot, kept, rest);
      Rechained(lists, content, curSlot, kept, Survivors(entries), rest);
      lists := lists[curSlot := kept];
      nodes := rest;
    }

    method Tick() returns (fired: seq<TwTimer>)
      requires Valid()
      modifies this, slots, nodes
      ensures Valid()
      ensures log == old(log) + [Op.Tick] && trace == old(trace) + [Ids(fired)]
      ensures nodes == old(nodes) - (set t | t in fired)
      ensures forall t :: t in fired ==> t in old(nodes) && !t.live
      ensures curSlot == (old(curSlot) + 1) % slots.Length
    {
      ghost var content := model.slots;
      assert Distinct(lists[curSlot]) by { SlotNodesDiffer(curSlot); }
      Record(Op.Tick);
      fired := SweepSlot(content);
      trace := trace + [Ids(fired)];
      curSlot := (curSlot + 1) % slots.Length;
    }
  }
}
