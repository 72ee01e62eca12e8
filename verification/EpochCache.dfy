/**
 * `FifoCache` of media-core/src/cas.rs: an LRU cache whose order is a sorted set of
 * (epoch, key) pairs.  Every use gives the key a new epoch, so the least pair is the least
 * recently used key.  Epochs are unbounded here; the program counts them in a u64.
 */
module EpochCache {
  import opened Wrappers
  import Lru

  /** The order of strings, character by character. */
  predicate LexLess(a: string, b: string) {
    b != [] && (a == [] || a[0] < b[0] || (a[0] == b[0] && LexLess(a[1..], b[1..])))
  }

  /** The order of the `BTreeSet`: by epoch, then by key. */
  predicate Before(a: (nat, string), b: (nat, string)) {
    a.0 < b.0 || (a.0 == b.0 && LexLess(a.1, b.1))
  }

  /** The rank of a key: its current epoch. */
  ghost function Epoch<V>(table: map<string, (nat, V)>): string -> int {
    k => if k in table then table[k].0 as int else -1
  }

  ghost function Value<V>(table: map<string, (nat, V)>, k: string): Option<V> {
    if k in table then Some(table[k].1) else None
  }

  ghost function Pairs<V>(table: map<string, (nat, V)>): (r: set<(nat, string)>)
    ensures forall p :: p in r <==> p.1 in table && table[p.1].0 == p.0
  {
    set k | k in table :: (table[k].0, k)
  }

  /** The table holds `entries`, and epochs grow with use. */
  ghost predicate Represents<V>(table: map<string, (nat, V)>, entries: Lru.Cache<V>) {
    && Lru.Distinct(Lru.Keys(entries))
    && (forall k :: Value(table, k) == Lru.Lookup(entries, k))
    && Lru.Ascending(Lru.Keys(entries), Epoch(table))
  }

  ghost predicate Below<V>(table: map<string, (nat, V)>, epoch: nat) {
    forall k :: k in table ==> table[k].0 < epoch
  }

  lemma RemoveRepresents<V>(table: map<string, (nat, V)>, entries: Lru.Cache<V>, key: string)
    requires Represents(table, entries)
    ensures Represents(table - {key}, Lru.Without(entries, key))
    ensures |Lru.Without(entries, key)| == if key in table then |entries| - 1 else |entries|
  {
    var rest := Lru.Without(entries, key);
    Lru.LookupWithout(entries, key, key);
    forall k ensures Value(table - {key}, k) == Lru.Lookup(rest, k) {
      Lru.LookupWithout(entries, key, k);
    }
    Lru.KeysWithout(entries, key);
    Lru.RemoveKeepsDistinct(Lru.Keys(entries), key);
    Lru.RemoveKeepsOrder(Lru.Keys(entries), key, Epoch(table));
    RanksAgree(Lru.Keys(rest), Epoch(table), Epoch(table - {key}));
  }

  lemma RanksAgree(keys: seq<string>, a: string -> int, b: string -> int)
    requires Lru.Ascending(keys, a) && forall k :: k in keys ==> a(k) == b(k)
    ensures Lru.Ascending(keys, b)
  {
  }

  lemma AppendRepresents<V>(table: map<string, (nat, V)>, epoch: nat, entries: Lru.Cache<V>, key: string, value: V)
    requires Represents(table, entries) && key !in table && Below(table, epoch)
    ensures Represents(table[key := (epoch, value)], entries + [Lru.Entry(key, value)])
  {
    var keys, added := Lru.Keys(entries), table[key := (epoch, value)];
    assert Value(table, key) == None;
    forall k ensures Value(added, k) == Lru.Lookup(entries + [Lru.Entry(key, value)], k) {
      Lru.LookupAppend(entries, Lru.Entry(key, value), k);
    }
    Lru.KeysWithout(entries, key);
    assert Lru.Keys(entries + [Lru.Entry(key, value)]) == keys + [key];
    RanksAgree(keys, Epoch(table), Epoch(added));
    forall i | 0 <= i < |keys| ensures Epoch(added)(keys[i]) < epoch {
      assert keys[i] != key;
    }
  }

  lemma PairsMove<V>(table: map<string, (nat, V)>, key: string, epoch: nat, value: V)
    ensures Pairs(table[key := (epoch, value)]) == Pairs(table - {key}) + {(epoch, key)}
    ensures key in table ==> Pairs(table - {key}) == Pairs(table) - {(table[key].0, key)}
  {
  }

  /** The least pair of the order set is the least recently used entry. */
  lemma FirstIsLeast<V>(table: map<string, (nat, V)>, entries: Lru.Cache<V>)
    requires Represents(table, entries) && entries != []
    ensures entries[0].key in table && Lru.Without(entries, entries[0].key) == entries[1..]
    ensures forall p :: p in Pairs(table) && p.1 != entries[0].key ==> table[entries[0].key].0 < p.0
  {
    var keys := Lru.Keys(entries);
    Lru.LookupAt(entries, 0);
    assert Value(table, keys[0]) == Lru.Lookup(entries, keys[0]);
    forall p | p in Pairs(table) && p.1 != keys[0] ensures table[keys[0]].0 < p.0 {
      assert Value(table, p.1) == Lru.Lookup(entries, p.1);
      var i := Lru.LookupFinds(entries, p.1);
      assert Epoch(table)(keys[0]) < Epoch(table)(keys[i]);
    }
  }

  /** The least pair exists, is unique, and is that of the first entry. */
  lemma LeastPair<V>(table: map<string, (nat, V)>, entries: Lru.Cache<V>)
    requires Represents(table, entries) && entries != []
    ensures var pairs := Pairs(table);
      && entries[0].key in table
      && (exists p :: p in pairs && forall q :: q in pairs ==> q == p || Before(p, q))
      && forall p :: p in pairs && (forall q :: q in pairs ==> q == p || Before(p, q)) ==>
           p == (table[entries[0].key].0, entries[0].key)
  {
    hide Represents;
    FirstIsLeast(table, entries);
    var pairs, first := Pairs(table), (table[entries[0].key].0, entries[0].key);
    assert first in pairs && forall q :: q in pairs ==> q == first || Before(first, q);
    forall p | p in pairs && forall q :: q in pairs ==> q == p || Before(p, q) ensures p == first {
      assert p == first || Before(p, first);
    }
  }

  class FifoCache<V> {
    var order: set<(nat, string)>
    var table: map<string, (nat, V)>
    const capacity: nat
    var nextEpoch: nat
    ghost var entries: Lru.Cache<V>

    /** `order` holds exactly each key's current epoch. */
    ghost predicate Valid()
      reads this
    {
      && Represents(table, entries)
      && Below(table, nextEpoch + 1)
      && order == Pairs(table)
      && (capacity > 0 ==> |entries| <= capacity)
    }

    constructor (capacity: nat)
      ensures Valid() && entries == [] && this.capacity == capacity
    {
      order, table, nextEpoch := {}, map[], 0;
      this.capacity := capacity;
      entries := [];
    }

    method Get(key: string) returns (r: Option<V>)
      requires Valid()
      modifies this
      ensures Valid()
      ensures entries == Lru.Touched(old(entries), key) && r == Lru.Lookup(old(entries), key)
    {
      assert Value(table, key) == Lru.Lookup(entries, key);
      if key !in table {
        return None;
      }
      var (oldEpoch, value) := table[key];
      nextEpoch := nextEpoch + 1;
      Renew(key, oldEpoch, value);
      r := Some(value);
    }

    method Put(key: string, value: V)
      requires Valid()
      modifies this
      ensures Valid()
      ensures entries == Lru.Put(old(entries), capacity, key, value)
    {
      assert Value(table, key) == Lru.Lookup(entries, key);
      nextEpoch := nextEpoch + 1;
      if key in table {
        Renew(key, table[key].0, value);
        return;
      }
      forall k ensures k in table.Keys <==> Lru.Lookup(entries, k).Some? {
        assert Value(table, k) == Lru.Lookup(entries, k);
      }
      Lru.SizeOf(entries, table.Keys);
      if capacity > 0 && |table| >= capacity {
        PopFirst();
      }
      Enter(key, value);
    }

    method Invalidate(key: string)
      requires Valid()
      modifies this
      ensures Valid()
      ensures entries == Lru.Without(old(entries), key)
    {
      RemoveRepresents(table, entries, key);
      entries := Lru.Without(entries, key);
      if key in table {
        var (epoch, value) := table[key];
        PairsMove(table, key, epoch, value);
        table := table - {key};
        order := order - {(epoch, key)};
      } else {
        assert table - {key} == table;
      }
    }

    /** `clear` of the store empties both collections in place; the epoch counter runs on. */
    method Clear()
      requires Valid()
      modifies this
      ensures Valid() && entries == []
    {
      table, order, entries := map[], {}, [];
    }

    /** `order.pop_first()`, and the removal of that key from the table. */
    method PopFirst()
      requires Represents(table, entries) && order == Pairs(table) && entries != []
      modifies this
      ensures Represents(table, entries) && order == Pairs(table) && entries == old(entries)[1..]
      ensures nextEpoch == old(nextEpoch) && table.Keys <= old(table.Keys)
      ensures forall k :: k in table ==> table[k] == old(table[k])
    {
      hide Represents, Pairs;
      FirstIsLeast(table, entries);
      LeastPair(table, entries);
      var oldest :| oldest in order && forall p :: p in order ==> p == oldest || Before(oldest, p);
      RemoveRepresents(table, entries, oldest.1);
      PairsMove(table, oldest.1, oldest.0, table[oldest.1].1);
      order := order - {oldest};
      table := table - {oldest.1};
      entries := entries[1..];
    }

    /** Adds an absent key with the newest epoch. */
    method Enter(key: string, value: V)
      requires Represents(table, entries) && order == Pairs(table) && (capacity > 0 ==> |entries| < capacity)
      requires Below(table, nextEpoch) && key !in table
      modifies this
      ensures Valid() && entries == old(entries) + [Lru.Entry(key, value)]
    {
      AppendRepresents(table, nextEpoch, entries, key, value);
      PairsMove(table, key, nextEpoch, value);
      assert table - {key} == table;
      order := order + {(nextEpoch, key)};
      table := table[key := (nextEpoch, value)];
      entries := entries + [Lru.Entry(key, value)];
    }

    /** Gives a present key the newest epoch, in both collections. */
    method Renew(key: string, oldEpoch: nat, value: V)
      requires Represents(table, entries) && order == Pairs(table) && (capacity > 0 ==> |entries| <= capacity)
      requires Below(table, nextEpoch) && key in table && table[key].0 == oldEpoch
      modifies this
      ensures Valid() && entries == Lru.Without(old(entries), key) + [Lru.Entry(key, value)]
    {
      RemoveRepresents(table, entries, key);
      AppendRepresents(table - {key}, nextEpoch, Lru.Without(entries, key), key, value);
      PairsMove(table, key, nextEpoch, value);
      assert table[key := (nextEpoch, value)] == (table - {key})[key := (nextEpoch, value)];
      table := table[key := (nextEpoch, value)];
      order := order - {(oldEpoch, key)};
      order := order + {(nextEpoch, key)};
      entries := Lru.Without(entries, key) + [Lru.Entry(key, value)];
    }
  }
}
