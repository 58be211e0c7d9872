/** The singly linked list with a head, a tail and a length, appended to at the tail and searched from the head. */
module LinkedLists {
  import opened ModularArithmetic
  import opened Sequences

  /** An unsigned int has 32 bits. */
  const UINT_RANGE: nat := 0x1_0000_0000

  function Succ(len: nat): nat {
    (len + 1) % UINT_RANGE
  }

  function Pred(len: nat): nat {
    (len + UINT_RANGE - 1) % UINT_RANGE
  }

  lemma Counts(n: nat)
    ensures Succ(n % UINT_RANGE) == (n + 1) % UINT_RANGE
    ensures Pred((n + 1) % UINT_RANGE) == n % UINT_RANGE
  {
    ModShift(n, UINT_RANGE, 1);
    ModShift(n + 1, UINT_RANGE, UINT_RANGE - 1);
  }

  class ListNode {
    const value: int
    var next: ListNode?

    constructor (value: int)
      ensures this.value == value && next == null
    {
      this.value, this.next := value, null;
    }
  }

  datatype Op = AddNode(value: int) | RemoveNode(value: int)

  /** s without the first occurrence of value. */
  function RemoveFirst(s: seq<int>, value: int): seq<int> {
    if s == [] then []
    else if s[0] == value then s[1..]
    else [s[0]] + RemoveFirst(s[1..], value)
  }

  function Apply(s: seq<int>, op: Op): seq<int> {
    match op
    case AddNode(value) => s + [value]
    case RemoveNode(value) => RemoveFirst(s, value)
  }

  /** The reference: what a sequence holds after the same operations. */
  function Run(ops: seq<Op>): seq<int> {
    if ops == [] then [] else Apply(Run(ops[..|ops| - 1]), ops[|ops| - 1])
  }

  lemma {:induction false} RemoveFirstAt(s: seq<int>, k: nat, value: int)
    requires k < |s| && s[k] == value && value !in s[..k]
    ensures RemoveFirst(s, value) == s[..k] + s[k + 1..]
  {
    if k > 0 {
      assert s[0] in s[..k];
      assert s[1..][..k - 1] == s[..k][1..];
      RemoveFirstAt(s[1..], k - 1, value);
    }
  }

  lemma {:induction false} RemoveFirstAbsent(s: seq<int>, value: int)
    requires value !in s
    ensures RemoveFirst(s, value) == s
  {
    if s != [] {
      RemoveFirstAbsent(s[1..], value);
    }
  }

  lemma {:induction false} RemoveFirstCounts(s: seq<int>, value: int)
    ensures multiset(RemoveFirst(s, value)) == multiset(s) - multiset{value}
  {
    if s != [] {
      assert s == [s[0]] + s[1..];
      RemoveFirstCounts(s[1..], value);
    }
  }

  /** Adding a new value and removing it again leaves the list as it was, over any history. */
  lemma AddThenRemove(ops: seq<Op>, value: int)
    requires value !in Run(ops)
    ensures Run(ops + [AddNode(value), RemoveNode(value)]) == Run(ops)
  {
    var added, both := ops + [AddNode(value)], ops + [AddNode(value), RemoveNode(value)];
    assert added[..|ops|] == ops && both[..|added|] == added;
    RemoveFirstAt(Run(ops) + [value], |Run(ops)|, value);
  }

  /** The reference in terms of the history alone: a value that was only ever added is there once for each add. */
  lemma {:induction false} OnlyAdded(ops: seq<Op>, value: int)
    requires RemoveNode(value) !in ops
    ensures multiset(Run(ops))[value] == multiset(ops)[AddNode(value)]
  {
    if ops != [] {
      var front, last := ops[..|ops| - 1], ops[|ops| - 1];
      assert ops == front + [last];
      assert last in ops && RemoveNode(value) !in front;
      OnlyAdded(front, value);
      if last.RemoveNode? {
        RemoveFirstCounts(Run(front), last.value);
        assert multiset(Run(ops))[value] == multiset(Run(front))[value];
      }
    }
  }

  // ----- the nodes

  /** The nodes, in this order, are the list that starts at head. */
  ghost predicate Linked(nodes: seq<ListNode>, head: ListNode?)
    reads nodes`next
  {
    && head == Nth(nodes, 0, null)
    && forall i {:trigger nodes[i].next} :: 0 <= i < |nodes| ==> nodes[i].next == Nth(nodes, i + 1, null)
  }

  ghost function Values(nodes: seq<ListNode>): (s: seq<int>)
    ensures |s| == |nodes|
    ensures forall i :: 0 <= i < |s| ==> s[i] == nodes[i].value
  {
    seq(|nodes|, i requires 0 <= i < |nodes| => nodes[i].value)
  }

  lemma CutValues(nodes: seq<ListNode>, k: nat, value: int)
    requires k < |nodes| && nodes[k].value == value && value !in Values(nodes)[..k]
    ensures Values(Cut(nodes, k)) == RemoveFirst(Values(nodes), value)
  {
    RemoveFirstAt(Values(nodes), k, value);
    assert Values(Cut(nodes, k)) == Values(nodes)[..k] + Values(nodes)[k + 1..];
  }

  class List {
    var head: ListNode?
    var tail: ListNode?
    var len: nat

    ghost var nodes: seq<ListNode>  // the reachable nodes
    ghost var log: seq<Op>

    /** The nodes hang from head, without a cycle, and tail is the last of them. */
    ghost predicate Chained()
      reads this`head, this`tail, this`nodes, nodes`next
    {
      && Linked(nodes, head) && Distinct(nodes)
      && tail == Nth(nodes, |nodes| - 1, null)
    }

    /** The length is right, as far as an unsigned int can tell. */
    ghost predicate Counted()
      reads this`len, this`nodes
    {
      len == |nodes| % UINT_RANGE
    }

    ghost predicate Valid()
      reads this, nodes`next
    {
      Chained() && Counted() && Values(nodes) == Run(log)
    }

    constructor ()
      ensures Valid() && nodes == [] && log == []
    {
      head, tail, len := null, null, 0;
      nodes, log := [], [];
    }

    ghost method Record(op: Op)
      modifies this`log
      ensures log == old(log) + [op] && Run(log) == Apply(Run(old(log)), op)
    {
      log := log + [op];
      assert log[..|log| - 1] == old(log);
    }

    method AddNode(value: int)
      requires Valid()
      modifies this, nodes
      ensures Valid() && log == old(log) + [Op.AddNode(value)]
      ensures Values(nodes) == Values(old(nodes)) + [value] && tail != null && tail.value == value
      ensures |nodes| == |old(nodes)| + 1 && old(nodes) <= nodes && fresh(nodes[|nodes| - 1])
      ensures len == |nodes| % 0x1_0000_0000
    {
      var node := new ListNode(value);
      Append(node);
      CountUp();
      Record(Op.AddNode(value));
    }

    method CountUp()
      requires |nodes| > 0 && len == (|nodes| - 1) % UINT_RANGE
      modifies this`len
      ensures Counted()
    {
      Counts(|nodes| - 1);
      len := Succ(len);
    }

    method CountDown()
      requires len == (|nodes| + 1) % UINT_RANGE
      modifies this`len
      ensures Counted()
    {
      Counts(|nodes|);
      len := Pred(len);
    }

    method Append(node: ListNode)
      requires Chained() && node !in nodes && node.next == null
      modifies this`head, this`tail, this`nodes, nodes`next
      ensures Chained() && nodes == old(nodes) + [node]
    {
      if tail == null {
        tail, head := node, node;
      } else {
        tail.next := node;
        tail := node;
      }
      nodes := nodes + [node];
    }

    /** The part of RemoveNode that follows a hit: takes cursor, the k-th node, out of the list. */
    method Unlink(prev: ListNode?, cursor: ListNode, ghost k: nat)
      requires Chained()
      requires k < |nodes| && cursor == nodes[k] && prev == Nth(nodes, k - 1, null)
      modifies this`head, this`tail, this`nodes, nodes`next
      ensures Chained() && nodes == Cut(old(nodes), k)
    {
      if prev != null {
        prev.next := cursor.next;
      } else {
        head := cursor.next;
      }
      if tail == cursor {
        tail := prev;
      }
      nodes := Cut(nodes, k);
    }

    /** The node before, and the first node with the given value, or none. */
    method Find(value: int) returns (prev: ListNode?, cursor: ListNode?, ghost k: nat)
      requires Linked(nodes, head)
      ensures k <= |nodes| && cursor == Nth(nodes, k, null) && prev == Nth(nodes, k - 1, null)
      ensures value !in Values(nodes)[..k] && (k < |nodes| ==> nodes[k].value == value)
    {
      cursor, prev, k := head, null, 0;
      while cursor != null
        invariant k <= |nodes| && cursor == Nth(nodes, k, null) && prev == Nth(nodes, k - 1, null)
        invariant value !in Values(nodes)[..k]
        decreases |nodes| - k
      {
        if cursor.value == value {
          return;
        }
        prev := cursor;
        cursor := cursor.next;
        k := k + 1;
      }
    }

    method RemoveNode(value: int)
      requires Valid()
      modifies this, nodes
      ensures Valid() && log == old(log) + [Op.RemoveNode(value)]
      ensures Values(nodes) == RemoveFirst(Values(old(nodes)), value)
      ensures value !in Values(old(nodes)) ==> nodes == old(nodes) && len == old(len)
      ensures len == |nodes| % 0x1_0000_0000
    {
      var prev, cursor, k := Find(value);
      RemoveFound(prev, cursor, k, value);
      Record(Op.RemoveNode(value));
    }

    method RemoveFound(prev: ListNode?, cursor: ListNode?, ghost k: nat, ghost value: int)
      requires Chained() && Counted() && k <= |nodes| && cursor == Nth(nodes, k, null) && prev == Nth(nodes, k - 1, null)
      requires value !in Values(nodes)[..k] && (k < |nodes| ==> nodes[k].value == value)
      modifies this`head, this`tail, this`len, this`nodes, nodes`next
      ensures Chained() && Counted()
      ensures Values(nodes) == RemoveFirst(Values(old(nodes)), value)
      ensures value !in Values(old(nodes)) ==> nodes == old(nodes) && len == old(len)
    {
      if cursor != null {
        RemoveAt(prev, cursor, k, value);
      } else {
        assert Values(nodes)[..k] == Values(nodes);
        RemoveFirstAbsent(Values(nodes), value);
      }
    }

    method RemoveAt(prev: ListNode?, cursor: ListNode, ghost k: nat, ghost value: int)
      requires Chained() && Counted() && k < |nodes| && cursor == nodes[k] && prev == Nth(nodes, k - 1, null)
      requires cursor.value == value && value !in Values(nodes)[..k]
      modifies this`head, this`tail, this`len, this`nodes, nodes`next
      ensures Chained() && Counted()
      ensures Values(nodes) == RemoveFirst(Values(old(nodes)), value)
      ensures value in Values(old(nodes))
    {
      assert Values(nodes)[k] == value;
      CutValues(nodes, k, value);
      Unlink(prev, cursor, k);
      CountDown();
    }
  }

  /** The C function takes a list pointer and ignores NULL. */
  method RemoveNodeFrom(value: int, list: List?)
    requires list != null ==> list.Valid()
    modifies list, if list == null then [] else list.nodes
    ensures list != null ==> list.Valid() && list.log == old(list.log) + [Op.RemoveNode(value)]
  {
    if list == null {
      return;
    }
    list.RemoveNode(value);
  }
}
