/**
 * The least-recently-used cache that both caches of the program implement: entries in order of
 * use, least recently used first.  A capacity of zero means no limit.
 */
module Lru {
  import opened Wrappers

  datatype Entry<V> = Entry(key: string, value: V)

  type Cache<V> = seq<Entry<V>>

  function Remove(keys: seq<string>, k: string): seq<string> {
    if keys == [] then []
    else if keys[0] == k then keys[1..]
    else [keys[0]] + Remove(keys[1..], k)
  }

  function Keys<V>(c: Cache<V>): (r: seq<string>)
    ensures |r| == |c| && forall i :: 0 <= i < |c| ==> r[i] == c[i].key
  {
    seq(|c|, i requires 0 <= i < |c| => c[i].key)
  }

  ghost predicate Distinct(keys: seq<string>) {
    forall i, j :: 0 <= i < j < |keys| ==> keys[i] != keys[j]
  }

  function Lookup<V>(c: Cache<V>, k: string): Option<V> {
    if c == [] then None
    else if c[0].key == k then Some(c[0].value)
    else Lookup(c[1..], k)
  }

  function Without<V>(c: Cache<V>, k: string): Cache<V> {
    if c == [] then []
    else if c[0].key == k then c[1..]
    else [c[0]] + Without(c[1..], k)
  }

  /** A hit makes the entry the most recently used; a miss changes nothing. */
  function Touched<V>(c: Cache<V>, k: string): Cache<V> {
    match Lookup(c, k)
    case Some(v) => Without(c, k) + [Entry(k, v)]
    case None => c
  }

  function Put<V>(c: Cache<V>, capacity: nat, k: string, v: V): Cache<V> {
    if Lookup(c, k).Some? then Without(c, k) + [Entry(k, v)]
    else if 0 < capacity <= |c| then c[1..] + [Entry(k, v)]
    else c + [Entry(k, v)]
  }

  // ---------------------------------------------------------------------------------------------
  // Whole histories
  // ---------------------------------------------------------------------------------------------

  datatype Op<V> = Get(key: string) | Insert(key: string, value: V) | Clear

  function Apply<V>(c: Cache<V>, capacity: nat, op: Op<V>): Cache<V> {
    match op
    case Get(k) => Touched(c, k)
    case Insert(k, v) => Put(c, capacity, k, v)
    case Clear => []
  }

  /** What the operation answers: a value for a hit, nothing otherwise. */
  function Answer<V>(c: Cache<V>, op: Op<V>): Option<V> {
    match op
    case Get(k) => Lookup(c, k)
    case _ => None
  }

  /** The cache after a history that starts empty. */
  function State<V>(capacity: nat, ops: seq<Op<V>>): Cache<V> {
    if ops == [] then []
    else Apply(State(capacity, ops[..|ops| - 1]), capacity, ops[|ops| - 1])
  }

  function Answers<V>(capacity: nat, ops: seq<Op<V>>): seq<Option<V>> {
    if ops == [] then []
    else
      var before := ops[..|ops| - 1];
      Answers(capacity, before) + [Answer(State(capacity, before), ops[|ops| - 1])]
  }

  lemma OneMore<V>(capacity: nat, ops: seq<Op<V>>, i: nat)
    requires i < |ops|
    ensures State(capacity, ops[..i + 1]) == Apply(State(capacity, ops[..i]), capacity, ops[i])
    ensures Answers(capacity, ops[..i + 1])
         == Answers(capacity, ops[..i]) + [Answer(State(capacity, ops[..i]), ops[i])]
  {
    assert ops[..i + 1][..i] == ops[..i];
  }

  /** The keys used since the last clear, in order: every insert, and every hit. */
  ghost function Used<V>(capacity: nat, ops: seq<Op<V>>): seq<string> {
    if ops == [] then []
    else
      var before := ops[..|ops| - 1];
      match ops[|ops| - 1]
      case Insert(k, _) => Used(capacity, before) + [k]
      case Get(k) =>
        if Lookup(State(capacity, before), k).Some? then Used(capacity, before) + [k] else Used(capacity, before)
      case Clear => []
  }

  /** The distinct keys of a use sequence in the order of their last use. */
  ghost function ByLastUse(used: seq<string>): seq<string> {
    if used == [] then []
    else Remove(ByLastUse(used[..|used| - 1]), used[|used| - 1]) + [used[|used| - 1]]
  }

  ghost function LastUse(used: seq<string>, k: string): int {
    if used == [] then -1
    else if used[|used| - 1] == k then |used| - 1
    else LastUse(used[..|used| - 1], k)
  }

  /** The last `capacity` elements (all of them when the capacity is zero). */
  ghost function Newest(keys: seq<string>, capacity: nat): seq<string> {
    if 0 < capacity < |keys| then keys[|keys| - capacity..] else keys
  }

  lemma {:induction false} RemoveKeepsDistinct(keys: seq<string>, k: string)
    requires Distinct(keys)
    ensures Distinct(Remove(keys, k))
    ensures forall x :: x in Remove(keys, k) <==> x in keys && x != k
    ensures |Remove(keys, k)| == if k in keys then |keys| - 1 else |keys|
  {
    if keys != [] && keys[0] != k {
      RemoveKeepsDistinct(keys[1..], k);
      assert keys[0] !in keys[1..];
      assert keys == [keys[0]] + keys[1..];
    }
  }

  ghost predicate Ascending(keys: seq<string>, rank: string -> int) {
    forall i, j :: 0 <= i < j < |keys| ==> rank(keys[i]) < rank(keys[j])
  }

  lemma {:induction false} RemoveKeepsOrder(keys: seq<string>, k: string, rank: string -> int)
    requires Distinct(keys) && Ascending(keys, rank)
    ensures Ascending(Remove(keys, k), rank)
  {
    if keys != [] && keys[0] != k {
      RemoveKeepsOrder(keys[1..], k, rank);
      RemoveKeepsDistinct(keys[1..], k);
      var rest := Remove(keys[1..], k);
      forall j | 0 <= j < |rest|
        ensures rank(keys[0]) < rank(rest[j])
      {
        assert rest[j] in keys[1..];
      }
    }
  }

  /** `ByLastUse` is what its name says: the same keys, once each, sorted by last use. */
  lemma {:induction false} ByLastUseIsSorted(used: seq<string>)
    ensures Distinct(ByLastUse(used))
    ensures forall k :: k in ByLastUse(used) <==> k in used
    ensures Ascending(ByLastUse(used), k => LastUse(used, k))
  {
    if used != [] {
      var before, k := used[..|used| - 1], used[|used| - 1];
      var older := ByLastUse(before);
      ByLastUseIsSorted(before);
      RemoveKeepsDistinct(older, k);
      RemoveKeepsOrder(older, k, x => LastUse(before, x));
      assert used == before + [k];
      forall x ensures LastUse(before, x) < |before| {
        LastUseBound(before, x);
      }
    }
  }

  lemma LastUseBound(used: seq<string>, k: string)
    ensures LastUse(used, k) < |used|
  {
  }

  lemma {:induction false} RemoveFromLeft(pre: seq<string>, s: seq<string>, k: string)
    requires k in pre
    ensures Remove(pre + s, k) == Remove(pre, k) + s
  {
    assert (pre + s)[1..] == pre[1..] + s;
    if pre[0] != k {
      RemoveFromLeft(pre[1..], s, k);
    }
  }

  lemma {:induction false} RemoveFromRight(pre: seq<string>, s: seq<string>, k: string)
    requires k !in pre
    ensures Remove(pre + s, k) == pre + Remove(s, k)
  {
    if pre == [] {
      assert pre + s == s;
    } else {
      assert (pre + s)[1..] == pre[1..] + s;
      RemoveFromRight(pre[1..], s, k);
    }
  }

  lemma NewestIsTail(pre: seq<string>, tail: seq<string>, capacity: nat)
    requires |tail| == capacity > 0 || (pre == [] && (capacity == 0 || |tail| <= capacity))
    ensures Newest(pre + tail, capacity) == tail
  {
  }

  /** Using a key and keeping the newest ones commute. */
  lemma NewestAfterUse(all: seq<string>, capacity: nat, k: string)
    requires Distinct(all)
    ensures Newest(Remove(all, k) + [k], capacity) == KeysAfterUse(Newest(all, capacity), capacity, k)
  {
    hide Remove, KeysAfterUse, Distinct;
    var kept := Newest(all, capacity);
    var pre := all[..|all| - |kept|];
    assert all == pre + kept;
    PartsAreDistinct(pre, kept);
    if k in pre {
      UseOfForgotten(pre, kept, capacity, k);
    } else {
      UseOfKept(pre, kept, capacity, k);
    }
  }

  lemma PartsAreDistinct(pre: seq<string>, kept: seq<string>)
    requires Distinct(pre + kept)
    ensures Distinct(kept) && forall k :: k in pre ==> k !in kept
  {
    assert forall j :: 0 <= j < |kept| ==> kept[j] == (pre + kept)[|pre| + j];
    assert forall i :: 0 <= i < |pre| ==> pre[i] == (pre + kept)[i];
  }

  lemma UseOfForgotten(pre: seq<string>, kept: seq<string>, capacity: nat, k: string)
    requires k in pre && k !in kept && |kept| == capacity > 0
    ensures Newest(Remove(pre + kept, k) + [k], capacity) == KeysAfterUse(kept, capacity, k)
  {
    RemoveFromLeft(pre, kept, k);
    Shift(Remove(pre, k), kept, capacity, k);
  }

  lemma UseOfKept(pre: seq<string>, kept: seq<string>, capacity: nat, k: string)
    requires k !in pre && Distinct(kept)
    requires |kept| == capacity > 0 || (pre == [] && (capacity == 0 || |kept| <= capacity))
    ensures Newest(Remove(pre + kept, k) + [k], capacity) == KeysAfterUse(kept, capacity, k)
  {
    RemoveFromRight(pre, kept, k);
    RemoveKeepsDistinct(kept, k);
    if k in kept {
      assert pre + Remove(kept, k) + [k] == pre + (Remove(kept, k) + [k]);
      NewestIsTail(pre, Remove(kept, k) + [k], capacity);
    } else {
      RemoveAbsent(kept, k);
      if 0 < capacity <= |kept| {
        Shift(pre, kept, capacity, k);
      } else {
        NewestIsTail([], kept + [k], capacity);
      }
    }
  }

  lemma Shift(pre: seq<string>, kept: seq<string>, capacity: nat, k: string)
    requires |kept| == capacity > 0
    ensures Newest(pre + kept + [k], capacity) == kept[1..] + [k]
  {
    assert pre + kept + [k] == (pre + kept[..1]) + (kept[1..] + [k]);
    NewestIsTail(pre + kept[..1], kept[1..] + [k], capacity);
  }

  lemma {:induction false} RemoveAbsent(keys: seq<string>, k: string)
    requires k !in keys
    ensures Remove(keys, k) == keys
  {
    RemoveFromRight(keys, [], k);
    assert keys + [] == keys;
  }

  /** What a use does to the keys of a full or partly filled cache. */
  ghost function KeysAfterUse(kept: seq<string>, capacity: nat, k: string): seq<string> {
    (if k in kept then Remove(kept, k) else if 0 < capacity <= |kept| then kept[1..] else kept) + [k]
  }

  lemma {:induction false} KeysWithout<V>(c: Cache<V>, k: string)
    ensures Keys(Without(c, k)) == Remove(Keys(c), k)
    ensures Lookup(c, k).Some? <==> k in Keys(c)
  {
    if c != [] {
      KeysWithout(c[1..], k);
      assert Keys(c) == [c[0].key] + Keys(c[1..]);
    }
  }

  lemma KeysAfter<V>(c: Cache<V>, capacity: nat, op: Op<V>)
    ensures op.Insert? ==> Keys(Apply(c, capacity, op)) == KeysAfterUse(Keys(c), capacity, op.key)
    ensures op.Get? ==>
      Keys(Apply(c, capacity, op)) == if op.key in Keys(c) then KeysAfterUse(Keys(c), capacity, op.key) else Keys(c)
  {
    if !op.Clear? {
      KeysWithout(c, op.key);
    }
  }

  /**
   * The cache always holds exactly the most recently used keys, oldest first: what is evicted is
   * never anything but the least recently used key.
   */
  lemma {:induction false} HoldsTheMostRecentlyUsed<V>(capacity: nat, ops: seq<Op<V>>)
    ensures Keys(State(capacity, ops)) == Newest(ByLastUse(Used(capacity, ops)), capacity)
  {
    if ops != [] {
      var before, op := ops[..|ops| - 1], ops[|ops| - 1];
      HoldsTheMostRecentlyUsed(capacity, before);
      if !op.Clear? {
        UseIsRecorded(capacity, before, op);
      }
    }
  }

  /** One step of the induction above. */
  lemma UseIsRecorded<V>(capacity: nat, before: seq<Op<V>>, op: Op<V>)
    requires Keys(State(capacity, before)) == Newest(ByLastUse(Used(capacity, before)), capacity)
    requires !op.Clear?
    ensures Keys(Apply(State(capacity, before), capacity, op))
         == Newest(ByLastUse(Used(capacity, before + [op])), capacity)
  {
    var c, used := State(capacity, before), Used(capacity, before);
    assert (before + [op])[..|before|] == before;
    assert (used + [op.key])[..|used|] == used;
    KeysAfter(c, capacity, op);
    ByLastUseIsSorted(used);
    NewestAfterUse(ByLastUse(used), capacity, op.key);
    KeysWithout(c, op.key);
  }

  /** Every key still cached was used later than every key used but no longer cached. */
  lemma EvictedIsOlder<V>(capacity: nat, ops: seq<Op<V>>, kept: string, gone: string)
    requires kept in Keys(State(capacity, ops))
    requires gone in Used(capacity, ops) && gone !in Keys(State(capacity, ops))
    ensures LastUse(Used(capacity, ops), gone) < LastUse(Used(capacity, ops), kept)
  {
    hide State, Used, ByLastUse, LastUse, Keys;
    var used := Used(capacity, ops);
    HoldsTheMostRecentlyUsed(capacity, ops);
    ByLastUseIsSorted(used);
    LeftBehindIsLower(ByLastUse(used), capacity, k => LastUse(used, k), kept, gone);
  }

  lemma LeftBehindIsLower(all: seq<string>, capacity: nat, rank: string -> int, kept: string, gone: string)
    requires Ascending(all, rank) && gone in all
    requires kept in Newest(all, capacity) && gone !in Newest(all, capacity)
    ensures rank(gone) < rank(kept)
  {
    var newest := Newest(all, capacity);
    var cut := |all| - |newest|;
    assert newest == all[cut..];
    var i :| 0 <= i < |all| && all[i] == gone;
    var j :| 0 <= j < |newest| && newest[j] == kept;
    forall m | cut <= m < |all| ensures all[m] in newest {
      assert newest[m - cut] == all[m];
    }
    assert all[cut + j] == kept;
  }

  lemma SizeIsBounded<V>(capacity: nat, ops: seq<Op<V>>)
    ensures capacity > 0 ==> |State(capacity, ops)| <= capacity
    ensures Distinct(Keys(State(capacity, ops)))
  {
    HoldsTheMostRecentlyUsed(capacity, ops);
    ByLastUseIsSorted(Used(capacity, ops));
  }

  /** The value of the last insert of `k` since the last clear. */
  ghost function LastInserted<V>(ops: seq<Op<V>>, k: string): Option<V> {
    if ops == [] then None
    else match ops[|ops| - 1]
      case Clear => None
      case Insert(k', v) => if k' == k then Some(v) else LastInserted(ops[..|ops| - 1], k)
      case Get(_) => LastInserted(ops[..|ops| - 1], k)
  }

  lemma {:induction false} LookupAt<V>(c: Cache<V>, i: nat)
    requires Distinct(Keys(c)) && i < |c|
    ensures Lookup(c, c[i].key) == Some(c[i].value)
  {
    if i > 0 {
      assert Keys(c)[0] != Keys(c)[i];
      assert Keys(c)[1..] == Keys(c[1..]);
      LookupAt(c[1..], i - 1);
    }
  }

  lemma {:induction false} LookupFinds<V>(c: Cache<V>, k: string) returns (i: nat)
    requires Lookup(c, k).Some?
    ensures i < |c| && c[i] == Entry(k, Lookup(c, k).value)
  {
    if c[0].key == k {
      i := 0;
    } else {
      i := LookupFinds(c[1..], k);
      i := i + 1;
    }
  }

  /** A lookup that hits after an operation finds the new value, or the one that was there before. */
  lemma LookupAfter<V>(c: Cache<V>, capacity: nat, op: Op<V>, k: string)
    requires Distinct(Keys(c)) && Distinct(Keys(Apply(c, capacity, op)))
    requires Lookup(Apply(c, capacity, op), k).Some?
    ensures Lookup(Apply(c, capacity, op), k) == if op.Insert? && op.key == k then Some(op.value) else Lookup(c, k)
  {
    var d := Apply(c, capacity, op);
    if op.Insert? && op.key == k {
      LookupAt(d, |d| - 1);
    } else {
      var i := LookupFinds(d, k);
      EntriesAfter(c, capacity, op, i);
      var j :| 0 <= j < |c| && c[j] == d[i];
      LookupAt(c, j);
    }
  }

  lemma {:induction false} WithoutIsPart<V>(c: Cache<V>, k: string)
    ensures forall e :: e in Without(c, k) ==> e in c
  {
    if c != [] && c[0].key != k {
      WithoutIsPart(c[1..], k);
    }
  }

  /** Every entry after an operation is the one inserted, or was there before. */
  lemma EntriesAfter<V>(c: Cache<V>, capacity: nat, op: Op<V>, i: nat)
    requires i < |Apply(c, capacity, op)|
    ensures (op.Insert? && Apply(c, capacity, op)[i] == Entry(op.key, op.value)) || Apply(c, capacity, op)[i] in c
  {
    if !op.Clear? {
      WithoutIsPart(c, op.key);
      if op.Get? && Lookup(c, op.key).Some? {
        var j := LookupFinds(c, op.key);
      }
    }
  }

  /** A hit always answers the value last inserted under that key. */
  lemma {:induction false} HitsAreCurrent<V>(capacity: nat, ops: seq<Op<V>>, k: string)
    requires Lookup(State(capacity, ops), k).Some?
    ensures Lookup(State(capacity, ops), k) == LastInserted(ops, k)
  {
    var before, op := ops[..|ops| - 1], ops[|ops| - 1];
    SizeIsBounded(capacity, before);
    SizeIsBounded(capacity, ops);
    LookupAfter(State(capacity, before), capacity, op, k);
    if !(op.Insert? && op.key == k) {
      HitsAreCurrent(capacity, before, k);
    }
  }

  // ---------------------------------------------------------------------------------------------
  // Positions, for the implementations
  // ---------------------------------------------------------------------------------------------

  lemma {:induction false} DistinctSize(keys: seq<string>, s: set<string>)
    requires Distinct(keys) && forall k :: k in s <==> k in keys
    ensures |s| == |keys|
  {
    if keys == [] {
      assert s == {};
    } else {
      DistinctSize(keys[1..], s - {keys[0]});
    }
  }

  lemma {:induction false} WithoutAbsent<V>(c: Cache<V>, k: string)
    requires k !in Keys(c)
    ensures Without(c, k) == c
  {
    if c != [] {
      assert Keys(c) == [c[0].key] + Keys(c[1..]);
      WithoutAbsent(c[1..], k);
    }
  }

  lemma {:induction false} LookupWithout<V>(c: Cache<V>, k: string, x: string)
    requires Distinct(Keys(c))
    ensures Lookup(Without(c, k), x) == if x == k then None else Lookup(c, x)
    ensures |Without(c, k)| == if Lookup(c, k).Some? then |c| - 1 else |c|
  {
    if c != [] {
      assert Keys(c) == [c[0].key] + Keys(c[1..]);
      assert Keys(c)[1..] == Keys(c[1..]);
      KeysWithout(c[1..], k);
      LookupWithout(c[1..], k, x);
    }
  }

  lemma {:induction false} LookupAppend<V>(c: Cache<V>, e: Entry<V>, x: string)
    requires Lookup(c, e.key).None?
    ensures Lookup(c + [e], x) == if x == e.key then Some(e.value) else Lookup(c, x)
  {
    if c != [] {
      assert (c + [e])[1..] == c[1..] + [e];
      LookupAppend(c[1..], e, x);
    }
  }

  lemma {:induction false} SizeOf<V>(c: Cache<V>, keys: set<string>)
    requires Distinct(Keys(c)) && forall k :: k in keys <==> Lookup(c, k).Some?
    ensures |keys| == |c|
  {
    forall k ensures k in keys <==> k in Keys(c) {
      KeysWithout(c, k);
    }
    DistinctSize(Keys(c), keys);
  }

  lemma {:induction false} RemoveAt(keys: seq<string>, i: nat)
    requires i < |keys| && forall j :: 0 <= j < i ==> keys[j] != keys[i]
    ensures Remove(keys, keys[i]) == keys[..i] + keys[i + 1..]
  {
    if i > 0 {
      RemoveAt(keys[1..], i - 1);
      assert keys[1..][..i - 1] == keys[1..i];
    }
  }
}
