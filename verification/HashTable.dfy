/** The chained hash table: an array of dummy heads, each with a singly linked chain of entries behind it.

Values are pointers in the source; here they are integers, and NULL_VALUE is the one that means absent. */
module HashTables {
  import opened HashCodes
  import opened Sequences

  const NULL_VALUE := 0

  /** A dummy head has no key. */
  datatype EntryKey = NoKey | Some(key: Key)

  class DictEntry {
    const key: EntryKey
    const val: int
    var next: DictEntry?

    constructor (key: EntryKey, val: int)
      ensures this.key == key && this.val == val && next == null
    {
      this.key, this.val, this.next := key, val, null;
    }
  }

  /** The value of the first entry for key, NULL_VALUE without one. */
  ghost function Lookup(chain: seq<DictEntry>, key: Key): int {
    if chain == [] then NULL_VALUE
    else if chain[0].key == Some(key) then chain[0].val
    else Lookup(chain[1..], key)
  }

  /** chain is what hangs from head. */
  ghost predicate Linked(head: DictEntry, chain: seq<DictEntry>)
    reads head`next, chain`next
  {
    && head.next == Nth(chain, 0, null)
    && forall i {:trigger chain[i].next} :: 0 <= i < |chain| ==> chain[i].next == Nth(chain, i + 1, null)
  }

  /** Every entry has a key that belongs to chain t, and hides only entries without a value. */
  ghost predicate Proper(chain: seq<DictEntry>, t: nat, size: nat, p: Platform)
    requires 0 < size
  {
    && (forall i :: 0 <= i < |chain| ==> chain[i].key.Some? && Index(chain[i].key.key, size, p) == t)
    && (forall i, j :: 0 <= i < j < |chain| && chain[i].key == chain[j].key ==> chain[j].val == NULL_VALUE)
  }

  /** An absent key has entries without a value only. */
  lemma {:induction false} LookupNull(chain: seq<DictEntry>, key: Key, t: nat, size: nat, p: Platform)
    requires 0 < size && Proper(chain, t, size, p) && Lookup(chain, key) == NULL_VALUE
    ensures forall i :: 0 <= i < |chain| && chain[i].key == Some(key) ==> chain[i].val == NULL_VALUE
  {
    if chain != [] && chain[0].key != Some(key) {
      LookupNull(chain[1..], key, t, size, p);
      assert forall i :: 1 <= i < |chain| ==> chain[i] == chain[1..][i - 1];
    }
  }

  /** The reference: the first put of a value for key wins. */
  function FirstPut(log: seq<(Key, int)>, key: Key): int {
    if log == [] then NULL_VALUE
    else
      var earlier, last := FirstPut(log[..|log| - 1], key), log[|log| - 1];
      if earlier != NULL_VALUE then earlier else if last.0 == key then last.1 else NULL_VALUE
  }

  lemma FirstPutNext(log: seq<(Key, int)>, key: Key, val: int)
    ensures forall k :: FirstPut(log + [(key, val)], k) ==
                        if k == key && FirstPut(log, key) == NULL_VALUE then val else FirstPut(log, k)
  {
    assert (log + [(key, val)])[..|log|] == log;
  }

  /** What that means in terms of the history alone: v, not NULL, is found if and only if it was put for the key and
      every earlier put for the key was a NULL. */
  lemma {:induction false} FirstPutExactly(log: seq<(Key, int)>, key: Key, v: int)
    requires v != 0
    ensures FirstPut(log, key) == v <==> exists i :: FirstPutAt(log, key, v, i)
  {
    if log != [] {
      var front, n := log[..|log| - 1], |log| - 1;
      FirstPutExactly(front, key, v);
      NothingPut(front, key);
      if i :| FirstPutAt(log, key, v, i) {
        assert i < n ==> FirstPutAt(front, key, v, i);
      }
      if FirstPut(front, key) == v {
        var i :| FirstPutAt(front, key, v, i);
        assert FirstPutAt(log, key, v, i);
      } else if FirstPut(log, key) == v {
        assert FirstPutAt(log, key, v, n);
      }
    }
  }

  /** A key has no value if and only if no value but NULL was ever put for it. */
  lemma {:induction false} NothingPut(log: seq<(Key, int)>, key: Key)
    ensures FirstPut(log, key) == 0 <==> forall i :: 0 <= i < |log| && log[i].0 == key ==> log[i].1 == 0
  {
    if log != [] {
      NothingPut(log[..|log| - 1], key);
      assert forall i :: 0 <= i < |log| - 1 ==> log[i] == log[..|log| - 1][i];
    }
  }

  ghost predicate FirstPutAt(log: seq<(Key, int)>, key: Key, v: int, i: int) {
    0 <= i < |log| && log[i] == (key, v) && forall j :: 0 <= j < i && log[j].0 == key ==> log[j].1 == 0
  }

  class Dict {
    const table: array<DictEntry>
    const platform: Platform
    ghost var chains: seq<seq<DictEntry>>
    ghost var entries: set<DictEntry>
    ghost var log: seq<(Key, int)>  // all puts

    ghost function Get(key: Key): int
      requires 0 < table.Length == |chains|
      reads this`chains
    {
      Lookup(chains[Index(key, table.Length, platform)], key)
    }

    /** The heads are distinct, and behind each hangs a proper chain. */
    ghost predicate Chained()
      reads this`chains, this`entries, table, entries
    {
      && 0 < table.Length < 0x8000_0000 && |chains| == table.Length
      && (forall t :: 0 <= t < table.Length ==> table[t].key == NoKey && table[t] in entries)
      && (forall t, u :: 0 <= t < u < table.Length ==> table[t] != table[u])
      && (forall t, i :: 0 <= t < |chains| && 0 <= i < |chains[t]| ==> chains[t][i] in entries)
      && (forall t {:trigger Linked(table[t], chains[t])} :: 0 <= t < |chains| ==> Linked(table[t], chains[t]))
      && (forall t {:trigger Proper(chains[t], t, table.Length, platform)} :: 0 <= t < |chains| ==>
            Proper(chains[t], t, table.Length, platform))
    }

    ghost predicate Valid()
      reads this, table, entries
    {
      Chained() && forall key :: Get(key) == FirstPut(log, key)
    }

    constructor (size: nat, platform: Platform)
      requires 0 < size < 0x8000_0000
      ensures Valid() && fresh(table) && fresh(entries) && table.Length == size && log == []
      ensures forall key :: Get(key) == 0
    {
      var dummy := new DictEntry(NoKey, NULL_VALUE);
      var heads := new DictEntry[size](_ => dummy);
      for i := 0 to size
        invariant forall t :: 0 <= t < i ==> fresh(heads[t]) && heads[t].key == NoKey && heads[t].next == null
        invariant forall t, u :: 0 <= t < u < i ==> heads[t] != heads[u]
      {
        heads[i] := new DictEntry(NoKey, NULL_VALUE);
      }
      table := heads;
      this.platform := platform;
      chains := seq(size, _ => []);
      entries := set t | 0 <= t < size :: heads[t];
      log := [];
    }

    method DictGet(key: Key) returns (val: int)
      requires Valid()
      ensures val == Get(key)
      ensures val != 0 ==> exists i :: FirstPutAt(log, key, val, i)
      ensures val == 0 <==> forall i :: 0 <= i < |log| && log[i].0 == key ==> log[i].1 == 0
    {
      val := Search(key);
      NothingPut(log, key);
      if val != 0 {
        FirstPutExactly(log, key, val);
      }
    }

    /** The loop of DictGet. */
    method Search(key: Key) returns (val: int)
      requires Valid()
      ensures val == Get(key)
    {
      var t := HashCode(key, table.Length, platform);
      ghost var chain, i := chains[t], 0;
      assert Linked(table[t], chain);
      var cursor := table[t].next;
      while cursor != null
        invariant i <= |chain| && cursor == Nth(chain, i, null)
        invariant Lookup(chain, key) == Lookup(chain[i..], key)
        decreases |chain| - i
      {
        assert Proper(chains[t], t, table.Length, platform) && cursor == chain[i];
        if cursor.key == Some(key) {
          return cursor.val;
        }
        assert chain[i..][1..] == chain[i + 1..];
        cursor := cursor.next;
        i := i + 1;
      }
      return NULL_VALUE;
    }

    /** Puts entry at the front of its chain. */
    method Prepend(entry: DictEntry, t: nat, key: Key)
      requires Chained() && t == Index(key, table.Length, platform)
      requires entry.key == Some(key) && entry !in entries && Get(key) == NULL_VALUE
      modifies this`chains, this`entries, entry`next, entries`next
      ensures Chained() && entries == old(entries) + {entry}
      ensures chains == old(chains)[t := [entry] + old(chains)[t]]
    {
      ghost var chain := chains[t];
      assert Linked(table[t], chain) && Proper(chain, t, table.Length, platform);
      PrependProper(entry, chain, key, t, table.Length, platform);
      Splice(table[t], entry, chain);
      forall u | 0 <= u < |chains| && u != t
        ensures Linked(table[u], chains[u]) && Proper(chains[u], u, table.Length, platform)
      {
        assert old(Linked(table[u], chains[u]) && Proper(chains[u], u, table.Length, platform));
      }
      chains := chains[t := [entry] + chain];
      entries := entries + {entry};
    }

    /** Puts val for key, unless key has a value. No other key is affected. */
    method DictPut(key: Key, val: int) returns (status: int)
      requires Valid()
      modifies this, entries
      ensures Valid() && log == old(log) + [(key, val)] && fresh(entries - old(entries))
      ensures status == if old(Get(key)) != 0 then 0 else 1
      ensures forall k :: Get(k) == if k == key && old(Get(key)) == 0 then val else old(Get(k))
      ensures status == 0 ==> chains == old(chains) && entries == old(entries)
    {
      var present := DictGet(key);
      FirstPutNext(log, key, val);
      log := log + [(key, val)];
      if present != NULL_VALUE {
        status := 0;
      } else {
        Insert(key, val);
        status := 1;
      }
    }

    /** The second half of DictPut: gives an absent key its value. */
    method Insert(key: Key, val: int)
      requires Chained() && Get(key) == NULL_VALUE
      modifies this`chains, this`entries, entries`next
      ensures Chained() && fresh(entries - old(entries))
      ensures forall k :: Get(k) == if k == key then val else old(Get(k))
    {
      var entry := new DictEntry(Some(key), val);
      var t := HashCode(key, table.Length, platform);
      PutLookup(entry, chains[t]);
      Prepend(entry, t, key);
    }
  }

  method Splice(head: DictEntry, entry: DictEntry, ghost chain: seq<DictEntry>)
    requires Linked(head, chain) && head != entry && head !in chain && entry !in chain
    modifies head`next, entry`next
    ensures Linked(head, [entry] + chain)
  {
    entry.next := head.next;
    head.next := entry;
  }

  lemma PrependProper(entry: DictEntry, chain: seq<DictEntry>, key: Key, t: nat, size: nat, p: Platform)
    requires 0 < size && Proper(chain, t, size, p) && Lookup(chain, key) == NULL_VALUE
    requires entry.key == Some(key) && t == Index(key, size, p)
    ensures Proper([entry] + chain, t, size, p)
  {
    LookupNull(chain, key, t, size, p);
  }

  lemma PutLookup(entry: DictEntry, chain: seq<DictEntry>)
    ensures forall key :: Lookup([entry] + chain, key) ==
                          if entry.key == Some(key) then entry.val else Lookup(chain, key)
  {
    assert ([entry] + chain)[1..] == chain;
  }
}
