/**
 * `WotCache` of identity-core/src/wot_cache.rs: an LRU cache whose order is a deque of keys,
 * least recently used first.  Keys are folded to lower case on the way in.
 */
module WotCache {
  import opened Wrappers
  import opened Ascii
  import EpochCache
  import Lru

  class WotCache<V> {
    const capacity: nat
    var table: map<string, V>
    var queue: seq<string>
    ghost var entries: Lru.Cache<V>

    ghost function Value(k: string): Option<V>
      reads this
    {
      if k in table then Some(table[k]) else None
    }

    ghost predicate Consistent()
      reads this
    {
      && Lru.Distinct(queue)
      && Lru.Keys(entries) == queue
      && forall k :: Value(k) == Lru.Lookup(entries, k)
    }

    /** The deque and the table hold the same keys, once each, within the capacity. */
    ghost predicate Valid()
      reads this
    {
      Consistent() && (capacity > 0 ==> |entries| <= capacity)
    }

    constructor (capacity: nat)
      ensures Valid() && entries == [] && this.capacity == capacity
    {
      this.capacity := capacity;
      table, queue, entries := map[], [], [];
    }

    method Get(pubkey: string) returns (r: Option<V>)
      requires Valid()
      modifies this
      ensures Valid()
      ensures entries == Lru.Touched(old(entries), Lower(pubkey)) && r == Lru.Lookup(old(entries), Lower(pubkey))
    {
      var key := Lower(pubkey);
      assert Value(key) == Lru.Lookup(entries, key);
      if key in table {
        MoveToBack(key, table[key]);
      }
      r := if key in table then Some(table[key]) else None;
    }

    method Insert(pubkey: string, score: V)
      requires Valid()
      modifies this
      ensures Valid()
      ensures entries == Lru.Put(old(entries), capacity, Lower(pubkey), score)
    {
      var key := Lower(pubkey);
      assert Value(key) == Lru.Lookup(entries, key);
      if key in table {
        MoveToBack(key, score);
        return;
      }
      TableSize();
      while capacity > 0 && |table| >= capacity
        invariant Consistent() && |table| == |entries| && key !in table
        invariant entries == old(entries)
               || (0 < capacity <= |old(entries)| && entries == old(entries)[1..])
        decreases |queue|
      {
        if queue == [] {
          break;
        }
        PopFront();
        TableSize();
      }
      PushBack(key, score);
    }

    method Clear()
      requires Valid()
      modifies this
      ensures Valid() && entries == []
    {
      table, queue, entries := map[], [], [];
    }

    lemma TableSize()
      requires Consistent()
      ensures |table| == |entries|
    {
      forall k ensures k in table.Keys <==> Lru.Lookup(entries, k).Some? {
        assert Value(k) == Lru.Lookup(entries, k);
      }
      Lru.SizeOf(entries, table.Keys);
    }

    /** `iter().position(..)`. */
    method Position(key: string) returns (pos: nat)
      ensures pos <= |queue| && (pos < |queue| ==> queue[pos] == key)
      ensures forall i :: 0 <= i < pos ==> queue[i] != key
    {
      pos := 0;
      while pos < |queue| && queue[pos] != key
        invariant pos <= |queue| && forall i :: 0 <= i < pos ==> queue[i] != key
      {
        pos := pos + 1;
      }
    }

    /** Sets the value of a present key and moves the key to the back of the deque. */
    method MoveToBack(key: string, value: V)
      requires Consistent() && key in table
      modifies this
      ensures Consistent() && entries == Lru.Without(old(entries), key) + [Lru.Entry(key, value)]
      ensures |entries| == |old(entries)| && table == old(table)[key := value]
    {
      ghost var rest := Lru.Without(entries, key);
      assert Value(key) == Lru.Lookup(entries, key);
      Lru.KeysWithout(entries, key);
      Lru.RemoveKeepsDistinct(queue, key);
      Lru.LookupWithout(entries, key, key);
      ghost var updated := table[key := value];
      forall k ensures (if k in updated then Some(updated[k]) else None)
                       == Lru.Lookup(rest + [Lru.Entry(key, value)], k)
      {
        assert Value(k) == Lru.Lookup(entries, k);
        Lru.LookupWithout(entries, key, k);
        Lru.LookupAppend(rest, Lru.Entry(key, value), k);
      }
      table := table[key := value];
      var pos := Position(key);
      if pos < |queue| {
        Lru.RemoveAt(queue, pos);
        queue := queue[..pos] + queue[pos + 1..];
        queue := queue + [key];
      }
      entries := rest + [Lru.Entry(key, value)];
      assert Lru.Keys(entries) == Lru.Keys(rest) + [key];
    }

    method PopFront()
      requires Consistent() && queue != []
      modifies this
      ensures Consistent() && entries == old(entries)[1..] && queue == old(queue)[1..]
      ensures table.Keys <= old(table.Keys)
    {
      var oldest := queue[0];
      ghost var smaller := table - {oldest};
      assert entries[0].key == oldest;
      forall k ensures (if k in smaller then Some(smaller[k]) else None) == Lru.Lookup(entries[1..], k) {
        assert Value(k) == Lru.Lookup(entries, k);
        Lru.LookupWithout(entries, oldest, k);
      }
      queue := queue[1..];
      table := table - {oldest};
      entries := entries[1..];
    }

    method PushBack(key: string, value: V)
      requires Consistent() && key !in table
      modifies this
      ensures Consistent() && entries == old(entries) + [Lru.Entry(key, value)]
    {
      assert Value(key) == Lru.Lookup(entries, key);
      Lru.KeysWithout(entries, key);
      ghost var larger := table[key := value];
      forall k ensures (if k in larger then Some(larger[k]) else None)
                       == Lru.Lookup(entries + [Lru.Entry(key, value)], k)
      {
        assert Value(k) == Lru.Lookup(entries, k);
        Lru.LookupAppend(entries, Lru.Entry(key, value), k);
      }
      queue := queue + [key];
      table := table[key := value];
      entries := entries + [Lru.Entry(key, value)];
    }
  }

  // ---------------------------------------------------------------------------------------------
  // The two caches agree
  // ---------------------------------------------------------------------------------------------

  function Folded<V>(op: Lru.Op<V>): Lru.Op<V> {
    match op
    case Get(k) => Lru.Get(Lower(k))
    case Insert(k, v) => Lru.Insert(Lower(k), v)
    case Clear => op
  }

  function AllFolded<V>(ops: seq<Lru.Op<V>>): (r: seq<Lru.Op<V>>)
    ensures |r| == |ops| && forall i :: 0 <= i < |ops| ==> r[i] == Folded(ops[i])
  {
    seq(|ops|, i requires 0 <= i < |ops| => Folded(ops[i]))
  }

  /** One operation on both caches, the key for the epoch cache folded as the deque cache does. */
  method Step<V>(epochs: EpochCache.FifoCache<V>, deque: WotCache<V>, op: Lru.Op<V>)
    returns (a: Option<V>, b: Option<V>)
    requires epochs.Valid() && deque.Valid()
    requires epochs.capacity == deque.capacity && epochs.entries == deque.entries
    modifies epochs, deque
    ensures epochs.Valid() && deque.Valid()
    ensures a == b == Lru.Answer(old(deque.entries), Folded(op))
    ensures epochs.entries == deque.entries == Lru.Apply(old(deque.entries), deque.capacity, Folded(op))
  {
    a, b := None, None;
    match op {
      case Get(k) =>
        a := epochs.Get(Lower(k));
        b := deque.Get(k);
      case Insert(k, v) =>
        epochs.Put(Lower(k), v);
        deque.Insert(k, v);
      case Clear =>
        epochs.Clear();
        deque.Clear();
    }
  }

  /**
   * Any history gives the same answers in the epoch cache and in the deque cache, and they are
   * those of the abstract cache.
   */
  method RunBoth<V>(capacity: nat, ops: seq<Lru.Op<V>>)
    returns (byEpochs: seq<Option<V>>, byDeque: seq<Option<V>>)
    ensures byEpochs == byDeque == Lru.Answers(capacity, AllFolded(ops))
  {
    hide Lru.Answer, Lru.Apply, Folded, AllFolded;
    var epochs := new EpochCache.FifoCache<V>(capacity);
    var deque := new WotCache<V>(capacity);
    byEpochs, byDeque := [], [];
    var i := 0;
    ghost var folded := AllFolded(ops);
    while i < |ops|
      invariant 0 <= i <= |ops| && fresh(epochs) && fresh(deque)
      invariant epochs.Valid() && deque.Valid() && epochs.capacity == deque.capacity == capacity
      invariant epochs.entries == deque.entries == Lru.State(capacity, folded[..i])
      invariant byEpochs == byDeque == Lru.Answers(capacity, folded[..i])
    {
      Lru.OneMore(capacity, folded, i);
      var a, b := Step(epochs, deque, ops[i]);
      byEpochs, byDeque := byEpochs + [a], byDeque + [b];
      i := i + 1;
    }
    assert folded[..i] == folded;
  }
}
