/**
 * The Web-of-Trust distances of identity-core/src/wot.rs: two depth-limited breadth-first
 * searches over the contact graph, introducer lists, and trust scores (over the reals).
 */
module Wot {
  import opened Wrappers
  import Lru

  datatype User = User(pubkey: string, contacts: seq<string>)

  type Graph = map<string, seq<string>>

  const MAX_INTRODUCERS: nat := 64
  const MAX_PROCESSED: nat := 10_000

  // ---------------------------------------------------------------------------------------------
  // Hop counts
  // ---------------------------------------------------------------------------------------------

  predicate Edge(g: Graph, a: string, b: string) {
    a in g && b in g[a]
  }

  /** A path of exactly `n` edges. */
  ghost predicate Path(g: Graph, a: string, b: string, n: nat)
    decreases n
  {
    if n == 0 then a == b else exists u :: Edge(g, a, u) && Path(g, u, b, n - 1)
  }

  /** `d` is the least number of hops from `a` to `b`, cut off at 3. */
  ghost predicate IsDistance(g: Graph, a: string, b: string, d: nat) {
    && d <= 3
    && (d < 3 ==> Path(g, a, b, d))
    && forall n: nat :: n < d ==> !Path(g, a, b, n)
  }

  lemma DistanceIsUnique(g: Graph, a: string, b: string, d: nat, e: nat)
    requires IsDistance(g, a, b, d) && IsDistance(g, a, b, e)
    ensures d == e
  {
  }

  // ---------------------------------------------------------------------------------------------
  // The first level of the search
  // ---------------------------------------------------------------------------------------------

  function ContactsOf(g: Graph, a: string): seq<string> {
    if a in g then g[a] else []
  }

  /** The distinct contacts other than `self`, in order of first appearance. */
  function FirstSeen(self: string, contacts: seq<string>): (r: seq<string>)
    ensures forall v :: v in r <==> v in contacts && v != self
    ensures Lru.Distinct(r)
  {
    if contacts == [] then []
    else
      var before, last := FirstSeen(self, contacts[..|contacts| - 1]), contacts[|contacts| - 1];
      assert contacts == contacts[..|contacts| - 1] + [last];
      if last == self || last in before then before else before + [last]
  }

  function Level1(g: Graph, self: string): seq<string> {
    FirstSeen(self, ContactsOf(g, self))
  }

  /** Those of `us` that have `v` among their contacts, in order. */
  function Introducing(g: Graph, us: seq<string>, v: string): (r: seq<string>)
    ensures forall u :: u in r <==> u in us && Edge(g, u, v)
    ensures r == [] <==> forall u :: u in us ==> !Edge(g, u, v)
  {
    if us == [] then []
    else
      var before, last := Introducing(g, us[..|us| - 1], v), us[|us| - 1];
      assert us == us[..|us| - 1] + [last];
      if Edge(g, last, v) then before + [last] else before
  }

  function Capped(us: seq<string>): seq<string> {
    if |us| > MAX_INTRODUCERS then us[..MAX_INTRODUCERS] else us
  }

  // ---------------------------------------------------------------------------------------------
  // What the search has found once `k` users of the first level are expanded
  // ---------------------------------------------------------------------------------------------

  ghost predicate SecondLevel(g: Graph, self: string, level: seq<string>, k: nat, v: string)
    requires k <= |level|
  {
    v != self && v !in level && exists i :: 0 <= i < k && Edge(g, level[i], v)
  }

  ghost function Lookup<K, V>(m: map<K, V>, v: K): Option<V> {
    if v in m then Some(m[v]) else None
  }

  ghost predicate DistancesAt(g: Graph, self: string, level: seq<string>, k: nat, distances: map<string, nat>)
    requires k <= |level|
  {
    forall v :: Lookup(distances, v) ==
      if v == self then Some(0)
      else if v in level then Some(1)
      else if SecondLevel(g, self, level, k, v) then Some(2)
      else None
  }

  ghost predicate IntroducersAt(g: Graph, self: string, level: seq<string>, k: nat,
                                introducedBy: map<string, seq<string>>)
    requires k <= |level|
  {
    forall v :: Lookup(introducedBy, v) ==
      if v == self then Some([])
      else if v in level then Some([self])
      else if SecondLevel(g, self, level, k, v) then Some(Capped(Introducing(g, level[..k], v)))
      else None
  }

  lemma ShortPaths(g: Graph, a: string, b: string)
    ensures Path(g, a, b, 0) <==> a == b
    ensures Path(g, a, b, 1) <==> Edge(g, a, b)
    ensures Path(g, a, b, 2) <==> exists u :: Edge(g, a, u) && Edge(g, u, b)
  {
    forall u ensures Path(g, u, b, 1) <==> Edge(g, u, b) {
      assert Path(g, b, b, 0);
      if Path(g, u, b, 1) {
        var w :| Edge(g, u, w) && Path(g, w, b, 0);
      }
    }
  }

  lemma SecondLevelIsTwoHops(g: Graph, self: string, v: string)
    requires v != self && !Edge(g, self, v)
    ensures var level := Level1(g, self);
      SecondLevel(g, self, level, |level|, v) <==> exists u :: Edge(g, self, u) && Edge(g, u, v)
  {
    var level := Level1(g, self);
    if u :| Edge(g, self, u) && Edge(g, u, v) {
      assert u in level;
      var i :| 0 <= i < |level| && level[i] == u;
    }
    if SecondLevel(g, self, level, |level|, v) {
      var i :| 0 <= i < |level| && Edge(g, level[i], v);
      assert level[i] in level;
      assert Edge(g, self, level[i]);
    }
  }

  /** The hop distance, cut off at 3, by levels. */
  lemma HopsOf(g: Graph, self: string, v: string)
    ensures var level := Level1(g, self);
      IsDistance(g, self, v,
        if v == self then 0 else if v in level then 1 else if SecondLevel(g, self, level, |level|, v) then 2 else 3)
  {
    hide Path;
    ShortPaths(g, self, v);
    assert v in Level1(g, self) <==> Edge(g, self, v) && v != self;
    if v != self && !Edge(g, self, v) {
      SecondLevelIsTwoHops(g, self, v);
    }
  }

  /** Expanding the whole first level gives the hop distances. */
  lemma DistancesAreHops(g: Graph, self: string, distances: map<string, nat>, v: string)
    requires DistancesAt(g, self, Level1(g, self), |Level1(g, self)|, distances)
    ensures IsDistance(g, self, v, if v in distances then distances[v] else 3)
  {
    assert Lookup(distances, v) == if v in distances then Some(distances[v]) else None;
    HopsOf(g, self, v);
  }

  // ---------------------------------------------------------------------------------------------
  // The contact map
  // ---------------------------------------------------------------------------------------------

  /** The contact map and the edges counted so far; caps cut long lists and, in the end, all lists. */
  function Built(users: seq<User>, maxContacts: nat, maxEdges: nat): (Graph, nat) {
    if users == [] then (map[], 0)
    else
      var (g, total) := Built(users[..|users| - 1], maxContacts, maxEdges);
      var user := users[|users| - 1];
      if total >= maxEdges then (if user.pubkey in g then g else g[user.pubkey := []], total)
      else
        var slice := if |user.contacts| > maxContacts then user.contacts[..maxContacts] else user.contacts;
        (g[user.pubkey := slice], total + |slice|)
  }

  method BuildContactMap(users: seq<User>, maxContacts: nat, maxEdges: nat) returns (g: Graph)
    ensures g == Built(users, maxContacts, maxEdges).0
  {
    g := map[];
    var totalEdges := 0;
    for i := 0 to |users|
      invariant (g, totalEdges) == Built(users[..i], maxContacts, maxEdges)
    {
      var user := users[i];
      assert users[..i + 1][..i] == users[..i];
      if totalEdges >= maxEdges {
        if user.pubkey !in g {
          g := g[user.pubkey := []];
        }
        continue;
      }
      var slice := if |user.contacts| > maxContacts then user.contacts[..maxContacts] else user.contacts;
      totalEdges := totalEdges + |slice|;
      g := g[user.pubkey := slice];
    }
    assert users[..|users|] == users;
  }

  /** The contacts that the per-user cap lets through, added up. */
  function CappedEdges(users: seq<User>, maxContacts: nat): nat {
    if users == [] then 0
    else
      var n := |users[|users| - 1].contacts|;
      CappedEdges(users[..|users| - 1], maxContacts) + if n > maxContacts then maxContacts else n
  }

  /**
   * Caps or not, each of distinct users keeps the first contacts up to the per-user cap, and none
   * once the users before have filled the total.
   */
  lemma {:induction false} ContactMapIsCapped(users: seq<User>, i: nat, maxContacts: nat, maxEdges: nat)
    requires DistinctUsers(users) && i < |users|
    ensures var (g, user) := (Built(users, maxContacts, maxEdges).0, users[i]);
      && user.pubkey in g
      && g[user.pubkey] ==
         if CappedEdges(users[..i], maxContacts) >= maxEdges then []
         else if |user.contacts| > maxContacts then user.contacts[..maxContacts] else user.contacts
  {
    var n := |users| - 1;
    var before := users[..n];
    TotalIsCapped(before, maxContacts, maxEdges);
    if i < n {
      assert before[..i] == users[..i];
      ContactMapIsCapped(before, i, maxContacts, maxEdges);
    } else {
      KeysAreUsers(before, maxContacts, maxEdges);
    }
  }

  lemma {:induction false} TotalIsCapped(users: seq<User>, maxContacts: nat, maxEdges: nat)
    ensures var total := Built(users, maxContacts, maxEdges).1;
      total <= CappedEdges(users, maxContacts)
      && (total < maxEdges ==> total == CappedEdges(users, maxContacts))
  {
    if users != [] {
      TotalIsCapped(users[..|users| - 1], maxContacts, maxEdges);
    }
  }

  lemma {:induction false} KeysAreUsers(users: seq<User>, maxContacts: nat, maxEdges: nat)
    ensures forall k :: k in Built(users, maxContacts, maxEdges).0 ==>
              exists i :: 0 <= i < |users| && users[i].pubkey == k
  {
    if users != [] {
      var before := users[..|users| - 1];
      KeysAreUsers(before, maxContacts, maxEdges);
      forall k | k in Built(before, maxContacts, maxEdges).0
        ensures exists i :: 0 <= i < |users| && users[i].pubkey == k
      {
        var i :| 0 <= i < |before| && before[i].pubkey == k;
        assert users[i].pubkey == k;
      }
      assert users[|users| - 1].pubkey == users[|users| - 1].pubkey;
    }
  }

  function Edges(users: seq<User>): nat {
    if users == [] then 0 else Edges(users[..|users| - 1]) + |users[|users| - 1].contacts|
  }

  ghost predicate DistinctUsers(users: seq<User>) {
    forall i, j :: 0 <= i < j < |users| ==> users[i].pubkey != users[j].pubkey
  }

  ghost predicate WithinCaps(users: seq<User>, maxContacts: nat, maxEdges: nat) {
    && (forall u :: u in users ==> |u.contacts| <= maxContacts)
    && (users != [] ==> Edges(users[..|users| - 1]) < maxEdges)
  }

  /** Within the caps the contact map is the users' own contact lists. */
  lemma {:induction false} ContactMapIsExact(users: seq<User>, maxContacts: nat, maxEdges: nat)
    requires DistinctUsers(users) && WithinCaps(users, maxContacts, maxEdges)
    ensures var (g, total) := Built(users, maxContacts, maxEdges);
      && total == Edges(users)
      && (forall k :: k in g ==> exists u :: u in users && u.pubkey == k)
      && (forall u :: u in users ==> u.pubkey in g && g[u.pubkey] == u.contacts)
  {
    if users != [] {
      var before, user := users[..|users| - 1], users[|users| - 1];
      CapsOfPrefix(users, maxContacts, maxEdges);
      ContactMapIsExact(before, maxContacts, maxEdges);
      hide DistinctUsers, WithinCaps;
      var g := Built(before, maxContacts, maxEdges).0;
      assert Built(users, maxContacts, maxEdges) == (g[user.pubkey := user.contacts], Edges(users));
      forall u ensures u in users <==> u in before || u == user {
        assert users == before + [user];
      }
    }
  }

  lemma CapsOfPrefix(users: seq<User>, maxContacts: nat, maxEdges: nat)
    requires users != [] && DistinctUsers(users) && WithinCaps(users, maxContacts, maxEdges)
    ensures var before, user := users[..|users| - 1], users[|users| - 1];
      && DistinctUsers(before) && WithinCaps(before, maxContacts, maxEdges)
      && Edges(before) < maxEdges && |user.contacts| <= maxContacts
      && forall u :: u in before ==> u.pubkey != user.pubkey
  {
    var before, user := users[..|users| - 1], users[|users| - 1];
    assert user in users;
    forall i | 0 <= i < |before| ensures before[i] in users && before[i].pubkey != user.pubkey {
      assert before[i] == users[i];
    }
    forall u | u in before ensures u in users && u.pubkey != user.pubkey {
      var i :| 0 <= i < |before| && before[i] == u;
    }
    if before != [] {
      assert Edges(before) == Edges(before[..|before| - 1]) + |before[|before| - 1].contacts|;
    }
  }

  // ---------------------------------------------------------------------------------------------
  // The search
  // ---------------------------------------------------------------------------------------------

  datatype Found = Found(
    distances: map<string, nat>, introducedBy: map<string, seq<string>>, queue: seq<(string, nat)>)

  function Start(self: string): Found {
    Found(map[self := 0], map[self := []], [(self, 0)])
  }

  function NewDistance(d: nat): nat {
    if d + 1 > 3 then 3 else d + 1
  }

  /** What seeing one contact of `current` changes. */
  function Visit(f: Found, self: string, selfContacts: set<string>, current: string, d: nat, contact: string): Found {
    if contact in f.distances && d > f.distances[contact] then f
    else
      var known := contact in f.distances;
      var introducers := if contact in f.introducedBy then f.introducedBy[contact] else [];
      var more :=
        if |introducers| < MAX_INTRODUCERS && (current != self || contact in selfContacts) && current !in introducers
        then introducers + [current] else introducers;
      Found(
        if known then f.distances else f.distances[contact := d],
        f.introducedBy[contact := more],
        if !known && d < 2 then f.queue + [(contact, d)] else f.queue)
  }

  function VisitAll(f: Found, self: string, selfContacts: set<string>, current: string, d: nat,
                    contacts: seq<string>): Found {
    if contacts == [] then f
    else Visit(VisitAll(f, self, selfContacts, current, d, contacts[..|contacts| - 1]),
               self, selfContacts, current, d, contacts[|contacts| - 1])
  }

  function Expanded(g: Graph, f: Found, self: string): Found
    requires f.queue != []
  {
    var (current, d) := f.queue[0];
    VisitAll(f.(queue := f.queue[1..]), self, (set v | v in ContactsOf(g, self)), current, NewDistance(d),
             ContactsOf(g, current))
  }

  /** The search with `budget` pops left. */
  function Searched(g: Graph, f: Found, self: string, budget: nat): Found
    decreases budget
  {
    if f.queue == [] || budget == 0 then f
    else Searched(g, Expanded(g, f, self), self, budget - 1)
  }

  method Search(g: Graph, self: string, maxProcessed: nat)
    returns (distances: map<string, nat>, introducedBy: map<string, seq<string>>)
    ensures var f := Searched(g, Start(self), self, maxProcessed);
      distances == f.distances && introducedBy == f.introducedBy
  {
    var selfContacts := set v | v in ContactsOf(g, self);
    distances, introducedBy := map[self := 0], map[self := []];
    var queue := [(self, 0)];
    var processed := 0;
    ghost var f := Start(self);
    while queue != []
      invariant processed <= maxProcessed && f == Found(distances, introducedBy, queue)
      invariant Searched(g, f, self, maxProcessed - processed) == Searched(g, Start(self), self, maxProcessed)
      decreases maxProcessed - processed
    {
      ghost var before := f;
      var (current, currentDist) := queue[0];
      queue := queue[1..];
      processed := processed + 1;
      if processed > maxProcessed {
        break;
      }
      f := f.(queue := queue);
      ghost var popped := f;
      if current in g {
        var contacts := g[current];
        var newDist := NewDistance(currentDist);
        for i := 0 to |contacts|
          invariant f == VisitAll(popped, self, selfContacts, current, newDist, contacts[..i])
          invariant f == Found(distances, introducedBy, queue)
        {
          var contact := contacts[i];
          assert contacts[..i + 1][..i] == contacts[..i];
          f := Visit(f, self, selfContacts, current, newDist, contact);
          if contact in distances {
            if newDist > distances[contact] {
              continue;
            }
          } else {
            distances := distances[contact := newDist];
            if newDist < 2 {
              queue := queue + [(contact, newDist)];
            }
          }
          var introducers := if contact in introducedBy then introducedBy[contact] else [];
          if |introducers| < MAX_INTRODUCERS
             && (current != self || contact in selfContacts)
             && current !in introducers {
            introducers := introducers + [current];
          }
          introducedBy := introducedBy[contact := introducers];
        }
        assert contacts[..|contacts|] == contacts;
      }
      assert f == Expanded(g, before, self);
    }
  }

  // ---------------------------------------------------------------------------------------------
  // The search is right
  // ---------------------------------------------------------------------------------------------

  function Tagged(us: seq<string>): seq<(string, nat)> {
    seq(|us|, i requires 0 <= i < |us| => (us[i], 1))
  }

  /** After part of one's own contacts: `seen` is the first level so far. */
  ghost predicate FirstPhase(self: string, seen: seq<string>, f: Found) {
    && f.queue == Tagged(seen)
    && forall v ::
      && Lookup(f.distances, v) == (if v == self then Some(0) else if v in seen then Some(1) else None)
      && Lookup(f.introducedBy, v) == (if v == self then Some([]) else if v in seen then Some([self]) else None)
  }

  lemma {:induction false} SelfIsExpanded(self: string, selfContacts: set<string>, contacts: seq<string>)
    requires forall v :: v in contacts ==> v in selfContacts
    ensures FirstPhase(self, FirstSeen(self, contacts),
                       VisitAll(Start(self).(queue := []), self, selfContacts, self, 1, contacts))
  {
    if contacts != [] {
      var before, c := contacts[..|contacts| - 1], contacts[|contacts| - 1];
      SelfIsExpanded(self, selfContacts, before);
      SelfVisits(self, selfContacts, FirstSeen(self, before),
                 VisitAll(Start(self).(queue := []), self, selfContacts, self, 1, before), c);
    }
  }

  lemma SelfVisits(self: string, selfContacts: set<string>, seen: seq<string>, f: Found, c: string)
    requires FirstPhase(self, seen, f) && c in selfContacts && self !in seen
    ensures FirstPhase(self, if c == self || c in seen then seen else seen + [c],
                       Visit(f, self, selfContacts, self, 1, c))
  {
    assert Lookup(f.distances, c) == if c in f.distances then Some(f.distances[c]) else None;
    assert Lookup(f.introducedBy, c) == if c in f.introducedBy then Some(f.introducedBy[c]) else None;
    var t := Visit(f, self, selfContacts, self, 1, c);
    if c != self && c !in seen {
      assert Tagged(seen + [c]) == Tagged(seen) + [(c, 1)];
      forall v ensures Lookup(t.distances, v) == if v == c then Some(1) else Lookup(f.distances, v) {
      }
    }
    assert [] + [self] == [self];
    assert t.introducedBy == if c == self then f.introducedBy else f.introducedBy[c := [self]];
    forall v ensures Lookup(t.introducedBy, v)
                  == if v == c && c != self then Some([self]) else Lookup(f.introducedBy, v)
    {
    }
  }

  /** After part of the contacts of the `k`-th user of the first level. */
  ghost predicate SecondPhase(g: Graph, self: string, level: seq<string>, k: nat, seen: seq<string>, f: Found)
    requires k < |level|
  {
    && f.queue == Tagged(level[k + 1..])
    && forall v ::
      && Lookup(f.distances, v) == (
        if v == self then Some(0)
        else if v in level then Some(1)
        else if v in seen || SecondLevel(g, self, level, k, v) then Some(2)
        else None)
      && Lookup(f.introducedBy, v) == (
        if v == self then Some([])
        else if v in level then Some([self])
        else if v in seen then Some(Capped(Introducing(g, level[..k], v) + [level[k]]))
        else if SecondLevel(g, self, level, k, v) then Some(Capped(Introducing(g, level[..k], v)))
        else None)
  }

  ghost predicate IsLevel(self: string, level: seq<string>) {
    self !in level && Lru.Distinct(level)
  }

  lemma {:induction false} LevelUserIsExpanded(g: Graph, self: string, selfContacts: set<string>, level: seq<string>,
                                               k: nat, f: Found, contacts: seq<string>)
    requires k < |level| && IsLevel(self, level) && SecondPhase(g, self, level, k, [], f)
    ensures SecondPhase(g, self, level, k, contacts, VisitAll(f, self, selfContacts, level[k], 2, contacts))
  {
    if contacts != [] {
      var before, c := contacts[..|contacts| - 1], contacts[|contacts| - 1];
      assert contacts == before + [c];
      LevelUserIsExpanded(g, self, selfContacts, level, k, f, before);
      LevelUserVisits(g, self, selfContacts, level, k, before,
                      VisitAll(f, self, selfContacts, level[k], 2, before), c);
    }
  }

  lemma LevelUserVisits(g: Graph, self: string, selfContacts: set<string>, level: seq<string>, k: nat,
                        seen: seq<string>, f: Found, c: string)
    requires k < |level| && IsLevel(self, level) && SecondPhase(g, self, level, k, seen, f)
    ensures SecondPhase(g, self, level, k, seen + [c], Visit(f, self, selfContacts, level[k], 2, c))
  {
    hide SecondLevel;
    assert Lookup(f.distances, c) == if c in f.distances then Some(f.distances[c]) else None;
    var t := Visit(f, self, selfContacts, level[k], 2, c);
    if c == self || c in level {
      assert t == f;
    } else {
      VisitSecondLevel(g, self, selfContacts, level, k, seen, f, c);
      forall v ensures Lookup(t.distances, v) == if v == c then Some(2) else Lookup(f.distances, v) {
      }
      forall v ensures Lookup(t.introducedBy, v) ==
        if v == c then Some(Capped(Introducing(g, level[..k], c) + [level[k]])) else Lookup(f.introducedBy, v)
      {
      }
    }
  }

  lemma VisitSecondLevel(g: Graph, self: string, selfContacts: set<string>, level: seq<string>, k: nat,
                         seen: seq<string>, f: Found, c: string)
    requires k < |level| && IsLevel(self, level) && SecondPhase(g, self, level, k, seen, f)
    requires c != self && c !in level
    ensures var t := Visit(f, self, selfContacts, level[k], 2, c);
      && t.queue == f.queue && t.distances == f.distances[c := 2]
      && t.introducedBy == f.introducedBy[c := Capped(Introducing(g, level[..k], c) + [level[k]])]
  {
    hide SecondLevel;
    assert Lookup(f.distances, c) == if c in f.distances then Some(f.distances[c]) else None;
    assert Lookup(f.introducedBy, c) == if c in f.introducedBy then Some(f.introducedBy[c]) else None;
    var us := Introducing(g, level[..k], c);
    assert level[k] in level;
    assert level[k] !in us;
    CappedGrows(us, level[k]);
    if !SecondLevel(g, self, level, k, c) {
      NotYetIntroduced(g, self, level, k, c);
    }
  }

  /** Adding to a capped list is capping the longer list; one already added is found below the cap. */
  lemma CappedGrows(us: seq<string>, u: string)
    ensures Capped(us + [u]) == if |Capped(us)| < MAX_INTRODUCERS then Capped(us) + [u] else Capped(us)
    ensures |Capped(us + [u])| < MAX_INTRODUCERS ==> u in Capped(us + [u])
    ensures u !in us ==> u !in Capped(us)
  {
  }

  lemma NotYetIntroduced(g: Graph, self: string, level: seq<string>, k: nat, v: string)
    requires k <= |level| && v != self && v !in level && !SecondLevel(g, self, level, k, v)
    ensures Introducing(g, level[..k], v) == []
  {
    forall u | u in level[..k] ensures !Edge(g, u, v) {
      var i :| 0 <= i < k && level[i] == u;
    }
  }

  /** Expanding the `k`-th user of the first level adds that user's contacts to the second. */
  lemma LevelUserDone(g: Graph, self: string, level: seq<string>, k: nat, f: Found)
    requires k < |level| && SecondPhase(g, self, level, k, ContactsOf(g, level[k]), f)
    ensures DistancesAt(g, self, level, k + 1, f.distances) && IntroducersAt(g, self, level, k + 1, f.introducedBy)
  {
    forall v ensures SecondLevel(g, self, level, k + 1, v) <==>
      SecondLevel(g, self, level, k, v) || (v != self && v !in level && v in ContactsOf(g, level[k]))
    {
      assert v in ContactsOf(g, level[k]) <==> Edge(g, level[k], v);
    }
    forall v ensures Introducing(g, level[..k + 1], v)
                  == Introducing(g, level[..k], v) + (if v in ContactsOf(g, level[k]) then [level[k]] else [])
    {
      assert level[..k + 1][..k] == level[..k];
    }
  }

  function Min(a: nat, b: nat): nat {
    if a < b then a else b
  }

  lemma {:induction false} LevelsAreExpanded(g: Graph, self: string, level: seq<string>, k: nat, f: Found, budget: nat)
    requires k <= |level| && IsLevel(self, level)
    requires DistancesAt(g, self, level, k, f.distances) && IntroducersAt(g, self, level, k, f.introducedBy)
    requires f.queue == Tagged(level[k..])
    ensures var t, done := Searched(g, f, self, budget), Min(k + budget, |level|);
      && DistancesAt(g, self, level, done, t.distances) && IntroducersAt(g, self, level, done, t.introducedBy)
    decreases budget
  {
    hide DistancesAt, IntroducersAt, IsLevel, Expanded;
    if k < |level| && budget > 0 {
      OneMoreExpanded(g, self, level, k, f);
      LevelsAreExpanded(g, self, level, k + 1, Expanded(g, f, self), budget - 1);
    } else {
      assert k == |level| ==> f.queue == [];
    }
  }

  lemma OneMoreExpanded(g: Graph, self: string, level: seq<string>, k: nat, f: Found)
    requires k < |level| && IsLevel(self, level) && f.queue == Tagged(level[k..])
    requires DistancesAt(g, self, level, k, f.distances) && IntroducersAt(g, self, level, k, f.introducedBy)
    ensures var t := Expanded(g, f, self);
      && DistancesAt(g, self, level, k + 1, t.distances) && IntroducersAt(g, self, level, k + 1, t.introducedBy)
      && t.queue == Tagged(level[k + 1..])
  {
    var popped := f.(queue := f.queue[1..]);
    assert f.queue[0] == (level[k], 1);
    assert popped.queue == Tagged(level[k + 1..]);
    LevelUserIsExpanded(g, self, (set v | v in ContactsOf(g, self)), level, k, popped, ContactsOf(g, level[k]));
    LevelUserDone(g, self, level, k, Expanded(g, f, self));
  }

  /**
   * A search of any budget finds the first level, and of the second level what the users of the
   * first that it still expands lead to, each with the introducers among those.
   */
  lemma SearchIsRight(g: Graph, self: string, budget: nat)
    requires budget >= 1
    ensures var level, f := Level1(g, self), Searched(g, Start(self), self, budget);
      var done := Min(budget - 1, |level|);
      && DistancesAt(g, self, level, done, f.distances)
      && IntroducersAt(g, self, level, done, f.introducedBy)
  {
    hide DistancesAt, IntroducersAt, Level1, Expanded, IsLevel;
    FirstLevelExpanded(g, self);
    LevelsAreExpanded(g, self, Level1(g, self), 0, Expanded(g, Start(self), self), budget - 1);
  }

  lemma FirstLevelExpanded(g: Graph, self: string)
    ensures var level, f := Level1(g, self), Expanded(g, Start(self), self);
      && IsLevel(self, level) && f.queue == Tagged(level[0..])
      && DistancesAt(g, self, level, 0, f.distances) && IntroducersAt(g, self, level, 0, f.introducedBy)
  {
    hide DistancesAt, IntroducersAt, FirstSeen, FirstPhase, VisitAll;
    assert Start(self).(queue := Start(self).queue[1..]) == Start(self).(queue := []);
    SelfIsExpanded(self, (set v | v in ContactsOf(g, self)), ContactsOf(g, self));
    FirstPhaseDone(g, self, Level1(g, self), Expanded(g, Start(self), self));
  }

  /** A search cut short is wrong about exactly the users two hops away through nobody it expanded. */
  lemma CutSearchIsRightIff(g: Graph, self: string, budget: nat, v: string)
    requires budget >= 1
    ensures var level, f := Level1(g, self), Searched(g, Start(self), self, budget);
      IsDistance(g, self, v, DistanceIn(f.distances, v)) <==>
        (SecondLevel(g, self, level, |level|, v) ==> SecondLevel(g, self, level, Min(budget - 1, |level|), v))
  {
    hide Searched, Level1, IsDistance, SecondLevel;
    var level, f := Level1(g, self), Searched(g, Start(self), self, budget);
    SearchIsRight(g, self, budget);
    var d := DistanceIn(f.distances, v);
    var hops :=
      if v == self then 0 else if v in level then 1 else if SecondLevel(g, self, level, |level|, v) then 2 else 3;
    assert Lookup(f.distances, v) == if v in f.distances then Some(f.distances[v]) else None;
    HopsOf(g, self, v);
    SecondLevelGrows(g, self, level, Min(budget - 1, |level|), v);
    if IsDistance(g, self, v, d) {
      DistanceIsUnique(g, self, v, d, hops);
    }
  }

  lemma SecondLevelGrows(g: Graph, self: string, level: seq<string>, k: nat, v: string)
    requires k <= |level|
    ensures SecondLevel(g, self, level, k, v) ==> SecondLevel(g, self, level, |level|, v)
    ensures SecondLevel(g, self, level, |level|, v) ==> v != self && v !in level
  {
  }

  lemma FirstPhaseDone(g: Graph, self: string, level: seq<string>, f: Found)
    requires FirstPhase(self, level, f)
    ensures DistancesAt(g, self, level, 0, f.distances) && IntroducersAt(g, self, level, 0, f.introducedBy)
    ensures f.queue == Tagged(level[0..])
  {
    assert level[0..] == level;
    assert forall v :: !SecondLevel(g, self, level, 0, v);
  }

  // ---------------------------------------------------------------------------------------------
  // Trust
  // ---------------------------------------------------------------------------------------------

  function MinReal(a: real, b: real): real {
    if a < b then a else b
  }

  function TrustScore(distance: nat, mutual: nat, introducers: nat): real {
    if distance == 0 then 1.0
    else
      var score :=
        if distance == 1 then 0.6 + MinReal(mutual as real * 0.05, 0.3) + MinReal(introducers as real * 0.05, 0.1)
        else if distance == 2 then 0.3 + MinReal(mutual as real * 0.03, 0.2)
        else 0.1;
      if score < 0.0 then 0.0 else if score > 1.0 then 1.0 else score
  }

  /** The ranges of the score for each distance; the top of distance 1 meets distance 0. */
  lemma TrustRanges(distance: nat, mutual: nat, introducers: nat)
    ensures var s := TrustScore(distance, mutual, introducers);
      && (distance == 1 ==> 0.6 <= s <= 1.0 && (s == 1.0 <==> mutual >= 6 && introducers >= 2))
      && (distance == 2 ==> 0.3 <= s <= 0.5)
      && (distance >= 3 ==> s == 0.1)
  {
  }

  /**
   * The score in figures, and that it never falls as mutual contacts or introducers are added.
   */
  lemma TrustInFigures(mutual: nat, introducers: nat)
    ensures TrustScore(0, mutual, introducers) == 1.0
    ensures var (m, i) := (if mutual < 6 then mutual else 6, if introducers < 2 then introducers else 2);
      TrustScore(1, mutual, introducers) == 0.6 + 0.05 * m as real + 0.05 * i as real
    ensures TrustScore(2, mutual, introducers) == if mutual <= 6 then 0.3 + 0.03 * mutual as real else 0.5
    ensures TrustScore(3, mutual, introducers) == 0.1
  {
  }

  lemma TrustIsMonotone(distance: nat, m1: nat, i1: nat, m2: nat, i2: nat)
    requires m1 <= m2 && i1 <= i2
    ensures TrustScore(distance, m1, i1) <= TrustScore(distance, m2, i2)
  {
  }

  /**
   * A nearer user has strictly higher trust, except exactly for a direct contact with at least six
   * mutual contacts and two introducers, who ties with oneself; from three hops on all are equal.
   */
  lemma NearerIsTrustedMore(d1: nat, m1: nat, i1: nat, d2: nat, m2: nat, i2: nat)
    requires d1 < d2
    ensures TrustScore(d1, m1, i1) > TrustScore(d2, m2, i2) <==>
              !(d1 == 0 && d2 == 1 && m2 >= 6 && i2 >= 2) && d1 < 3
  {
    TrustRanges(d1, m1, i1);
    TrustRanges(d2, m2, i2);
  }

  // ---------------------------------------------------------------------------------------------
  // Recalculation
  // ---------------------------------------------------------------------------------------------

  datatype Update = Update(pubkey: string, distance: nat, trust: real, introducedBy: Option<seq<string>>)

  function Mutual(contacts: seq<string>, selfContacts: set<string>): nat {
    if contacts == [] then 0
    else Mutual(contacts[..|contacts| - 1], selfContacts) + if contacts[|contacts| - 1] in selfContacts then 1 else 0
  }

  /** `Mutual` counts the contacts that are among one's own, repetitions included. */
  lemma {:induction false} MutualIsCount(contacts: seq<string>, selfContacts: set<string>)
    ensures Mutual(contacts, selfContacts) == |set j | 0 <= j < |contacts| && contacts[j] in selfContacts|
  {
    if contacts != [] {
      var n := |contacts| - 1;
      var before := set j | 0 <= j < n && contacts[..n][j] in selfContacts;
      MutualIsCount(contacts[..n], selfContacts);
      var all := set j | 0 <= j < |contacts| && contacts[j] in selfContacts;
      assert all == if contacts[n] in selfContacts then before + {n} else before;
      assert n !in before;
    }
  }

  function DistanceIn(distances: map<string, nat>, v: string): nat {
    if v in distances then distances[v] else 3
  }

  function UpdateFor(user: User, selfContacts: set<string>, f: Found): Update {
    var distance := DistanceIn(f.distances, user.pubkey);
    var introducers := if user.pubkey in f.introducedBy then f.introducedBy[user.pubkey] else [];
    Update(user.pubkey, distance, TrustScore(distance, Mutual(user.contacts, selfContacts), |introducers|),
           if introducers == [] then None else Some(introducers))
  }

  function Budget(users: seq<User>): nat {
    if |users| < MAX_PROCESSED then |users| else MAX_PROCESSED
  }

  function Recalculated(self: string, users: seq<User>): (r: seq<Update>)
    ensures |r| == |users|
  {
    var g := Built(users, 5_000, 500_000).0;
    var f := Searched(g, Start(self), self, Budget(users));
    seq(|users|, i requires 0 <= i < |users| => UpdateFor(users[i], (set v | v in ContactsOf(g, self)), f))
  }

  method RecalculateWot(self: string, users: seq<User>) returns (updates: seq<Update>)
    ensures updates == Recalculated(self, users)
  {
    hide Searched, Built, TrustScore;
    var g := BuildContactMap(users, 5_000, 500_000);
    var selfContacts := set v | v in ContactsOf(g, self);
    var distances, introducedBy := Search(g, self, Budget(users));
    updates := [];
    for i := 0 to |users|
      invariant |updates| == i && forall j :: 0 <= j < i ==> updates[j] == Recalculated(self, users)[j]
    {
      var user := users[i];
      var distance := DistanceIn(distances, user.pubkey);
      var mutual := 0;
      for j := 0 to |user.contacts|
        invariant mutual == Mutual(user.contacts[..j], selfContacts)
      {
        assert user.contacts[..j + 1][..j] == user.contacts[..j];
        if user.contacts[j] in selfContacts {
          mutual := mutual + 1;
        }
      }
      assert user.contacts[..|user.contacts|] == user.contacts;
      var introducers := if user.pubkey in introducedBy then introducedBy[user.pubkey] else [];
      updates := updates + [Update(user.pubkey, distance, TrustScore(distance, mutual, |introducers|),
                                   if introducers == [] then None else Some(introducers))];
    }
  }

  /** The premises under which nothing is cut off. */
  ghost predicate Complete(self: string, users: seq<User>, maxContacts: nat, maxEdges: nat) {
    && DistinctUsers(users) && WithinCaps(users, maxContacts, maxEdges)
    && 1 + |Level1(Built(users, maxContacts, maxEdges).0, self)| <= Budget(users)
  }

  /** It is enough that every contact is a listed user, and that there are at most 10,000 users. */
  lemma ListedContactsSuffice(self: string, users: seq<User>, maxContacts: nat, maxEdges: nat)
    requires DistinctUsers(users) && WithinCaps(users, maxContacts, maxEdges)
    requires 0 < |users| <= 10_000
    requires forall u, c :: u in users && c in u.contacts ==> exists w :: w in users && w.pubkey == c
    ensures Complete(self, users, maxContacts, maxEdges)
  {
    hide Built, FirstSeen, WithinCaps;
    var g := Built(users, maxContacts, maxEdges).0;
    var level := Level1(g, self);
    ContactMapIsExact(users, maxContacts, maxEdges);
    if self in g {
      forall v | v in [self] + level ensures exists w :: w in users && w.pubkey == v {
      }
      assert Lru.Distinct([self] + level) by {
        assert forall i :: 0 <= i < |level| ==> level[i] in level;
      }
      ListedAreFew(users, [self] + level);
    } else {
      NoContacts(g, self);
    }
  }

  lemma NoContacts(g: Graph, self: string)
    requires self !in g
    ensures Level1(g, self) == []
  {
  }

  /** Distinct listed keys are no more than the users. */
  lemma ListedAreFew(users: seq<User>, keys: seq<string>)
    requires DistinctUsers(users) && Lru.Distinct(keys)
    requires forall v :: v in keys ==> exists w :: w in users && w.pubkey == v
    ensures |keys| <= |users|
  {
    var all := seq(|users|, i requires 0 <= i < |users| => users[i].pubkey);
    var listed, reached := (set k | k in all), (set v | v in keys);
    Lru.DistinctSize(all, listed);
    Lru.DistinctSize(keys, reached);
    forall v | v in keys ensures v in listed {
      var w :| w in users && w.pubkey == v;
      var i :| 0 <= i < |users| && users[i] == w;
      assert all[i] == v;
    }
    Subset(reached, listed);
  }

  lemma {:induction false} Subset(a: set<string>, b: set<string>)
    requires a <= b
    ensures |a| <= |b|
  {
    assert b == a + (b - a);
  }

  /**
   * Every user gets the least hop count cut off at 3; the introducers listed are, without
   * repetition and up to 64, exactly the users one hop closer that list the user as a contact,
   * for users one or two hops away, and nobody otherwise.
   */
  lemma RecalculationIsRight(self: string, users: seq<User>, i: nat)
    requires i < |users| && Complete(self, users, 5_000, 500_000)
    ensures var g, u := Built(users, 5_000, 500_000).0, Recalculated(self, users)[i];
      && u.pubkey == users[i].pubkey
      && IsDistance(g, self, u.pubkey, u.distance)
      && (u.introducedBy.Some? <==> u.distance == 1 || u.distance == 2)
      && (u.introducedBy.Some? ==> IntroducersOf(g, self, u.pubkey, u.distance, u.introducedBy.value))
      && u.trust == TrustScore(u.distance,
           |set j | 0 <= j < |users[i].contacts| && Edge(g, self, users[i].contacts[j])|,
           if u.introducedBy.Some? then |u.introducedBy.value| else 0)
  {
    hide Searched, Built, TrustScore, Mutual;
    var g := Built(users, 5_000, 500_000).0;
    var f := Searched(g, Start(self), self, Budget(users));
    var contacts, selfContacts := users[i].contacts, set v | v in ContactsOf(g, self);
    MutualIsCount(contacts, selfContacts);
    assert (set j | 0 <= j < |contacts| && contacts[j] in selfContacts)
        == (set j | 0 <= j < |contacts| && Edge(g, self, contacts[j]));
    SearchIsRight(g, self, Budget(users));
    DistancesAreHops(g, self, f.distances, users[i].pubkey);
    IntroducersAreRight(g, self, f, users[i].pubkey);
  }

  /**
   * For any list of users: a reported distance is the hop distance, cut off at 3, except exactly
   * for users two hops away through nobody among the direct contacts that are still expanded, one
   * fewer than there are users, or than 10,000.
   */
  lemma RecalculationIsRightIff(self: string, users: seq<User>, i: nat)
    requires i < |users|
    ensures var g := Built(users, 5_000, 500_000).0;
      var level, pops := Level1(g, self), if |users| < 10_000 then |users| else 10_000;
      IsDistance(g, self, users[i].pubkey, Recalculated(self, users)[i].distance) <==>
        (SecondLevel(g, self, level, |level|, users[i].pubkey) ==>
           SecondLevel(g, self, level, Min(pops - 1, |level|), users[i].pubkey))
  {
    hide Searched, Built, TrustScore, Mutual, Level1, SecondLevel, IsDistance;
    CutSearchIsRightIff(Built(users, 5_000, 500_000).0, self, Budget(users), users[i].pubkey);
  }

  ghost predicate IntroducersOf(g: Graph, self: string, v: string, d: nat, us: seq<string>)
    requires d > 0
  {
    && 0 < |us| <= 64
    && Lru.Distinct(us)
    && (forall u :: u in us ==> Edge(g, u, v) && IsDistance(g, self, u, d - 1))
    && (|us| < 64 ==> forall u :: Edge(g, u, v) && IsDistance(g, self, u, d - 1) ==> u in us)
  }

  lemma NearDistances(g: Graph, self: string, u: string)
    ensures IsDistance(g, self, u, 0) <==> u == self
    ensures IsDistance(g, self, u, 1) <==> u in Level1(g, self)
  {
    hide Path;
    ShortPaths(g, self, u);
    assert u in Level1(g, self) <==> Edge(g, self, u) && u != self;
  }

  lemma {:induction false} IntroducingIsDistinct(g: Graph, us: seq<string>, v: string)
    requires Lru.Distinct(us)
    ensures Lru.Distinct(Introducing(g, us, v))
  {
    if us != [] {
      var before, last := us[..|us| - 1], us[|us| - 1];
      var r := Introducing(g, before, v);
      IntroducingIsDistinct(g, before, v);
      forall j | 0 <= j < |r| ensures r[j] != last {
        assert r[j] in r;
        assert r[j] in before;
      }
    }
  }

  lemma IntroducersAreRight(g: Graph, self: string, f: Found, v: string)
    requires var level := Level1(g, self);
      DistancesAt(g, self, level, |level|, f.distances) && IntroducersAt(g, self, level, |level|, f.introducedBy)
    ensures var d, us := DistanceIn(f.distances, v), if v in f.introducedBy then f.introducedBy[v] else [];
      && (us != [] <==> d == 1 || d == 2)
      && (d == 1 ==> |us| == 1)
      && (d == 1 || d == 2 ==> IntroducersOf(g, self, v, d, us))
  {
    var level := Level1(g, self);
    assert level[..|level|] == level;
    assert Lookup(f.distances, v) == if v in f.distances then Some(f.distances[v]) else None;
    assert Lookup(f.introducedBy, v) == if v in f.introducedBy then Some(f.introducedBy[v]) else None;
    if v == self {
    } else if v in level {
      OnlySelfIntroduces(g, self, v);
    } else if SecondLevel(g, self, level, |level|, v) {
      LevelIntroduces(g, self, v);
    }
  }

  lemma OnlySelfIntroduces(g: Graph, self: string, v: string)
    requires v in Level1(g, self)
    ensures IntroducersOf(g, self, v, 1, [self])
  {
    hide IsDistance;
    forall u ensures IsDistance(g, self, u, 0) <==> u == self {
      NearDistances(g, self, u);
    }
  }

  lemma LevelIntroduces(g: Graph, self: string, v: string)
    requires SecondLevel(g, self, Level1(g, self), |Level1(g, self)|, v)
    ensures var us := Capped(Introducing(g, Level1(g, self), v)); us != [] && IntroducersOf(g, self, v, 2, us)
  {
    hide IsDistance, FirstSeen, Introducing, Capped, Edge, Lru.Distinct;
    var level := Level1(g, self);
    var all := Introducing(g, level, v);
    IntroducingIsDistinct(g, level, v);
    CappedPart(all);
    SecondLevelIsIntroduced(g, self, level, v);
    forall u ensures IsDistance(g, self, u, 1) <==> u in level {
      NearDistances(g, self, u);
    }
  }

  lemma SecondLevelIsIntroduced(g: Graph, self: string, level: seq<string>, v: string)
    requires SecondLevel(g, self, level, |level|, v)
    ensures Introducing(g, level, v) != []
  {
    hide Edge;
    var i :| 0 <= i < |level| && Edge(g, level[i], v);
    assert level[i] in level;
  }

  lemma CappedPart(us: seq<string>)
    ensures forall u :: u in Capped(us) ==> u in us
    ensures Lru.Distinct(us) ==> Lru.Distinct(Capped(us))
    ensures |Capped(us)| <= MAX_INTRODUCERS && (|Capped(us)| < MAX_INTRODUCERS ==> Capped(us) == us)
    ensures us != [] ==> Capped(us) != []
  {
  }

  /**
   * The input: contacts that are not listed use up the pops, so that a listed user two hops away
   * is reported at 3.
   */
  lemma UnlistedContactsCutTheSearch()
    ensures var users := [User("a", ["x", "y", "b"]), User("b", ["c"]), User("c", [])];
      && DistinctUsers(users) && WithinCaps(users, 5_000, 500_000)
      && Recalculated("a", users)[2].distance == 3
      && IsDistance(Built(users, 5_000, 500_000).0, "a", "c", 2)
  {
    hide Searched, Built, WithinCaps, DistinctUsers, Level1, SecondLevel, IsDistance, TrustScore;
    var users := [User("a", ["x", "y", "b"]), User("b", ["c"]), User("c", [])];
    FewContacts(users[0], users[1], users[2]);
    ContactMapIsExact(users, 5_000, 500_000);
    var g := Built(users, 5_000, 500_000).0;
    assert users[0] in users && users[1] in users;
    assert forall k :: k in g ==> k == "a" || k == "b" || k == "c";
    CutOffContact(g);
    var level, f := Level1(g, "a"), Searched(g, Start("a"), "a", 3);
    HopsOf(g, "a", "c");
    SearchIsRight(g, "a", 3);
    assert Lookup(f.distances, "c") == None;
  }

  lemma FewContacts(a: User, b: User, c: User)
    requires a.pubkey == "a" && b.pubkey == "b" && c.pubkey == "c"
    requires |a.contacts| <= 3 && |b.contacts| <= 3 && |c.contacts| <= 3
    ensures DistinctUsers([a, b, c]) && WithinCaps([a, b, c], 5_000, 500_000)
  {
    assert [a, b, c][..2] == [a, b] && [a, b][..1] == [a] && [a][..0] == [];
    assert Edges([a]) == Edges([]) + |a.contacts|;
    assert Edges([a, b]) == Edges([a]) + |b.contacts|;
  }

  lemma CutOffContact(g: Graph)
    requires "a" in g && "b" in g && g["a"] == ["x", "y", "b"] && g["b"] == ["c"] && "x" !in g && "y" !in g
    ensures Level1(g, "a") == ["x", "y", "b"]
    ensures SecondLevel(g, "a", ["x", "y", "b"], 3, "c") && !SecondLevel(g, "a", ["x", "y", "b"], 2, "c")
  {
    var x, y, b: string := "x", "y", "b";
    assert [x, y, b][..2] == [x, y] && [x, y][..1] == [x] && [x][..0] == [];
    assert FirstSeen("a", [x]) == FirstSeen("a", []) + [x];
    assert FirstSeen("a", [x, y]) == FirstSeen("a", [x]) + [y];
    assert FirstSeen("a", [x, y, b]) == FirstSeen("a", [x, y]) + [b];
    assert Edge(g, [x, y, b][2], "c");
  }

  /** Of two users in one result the nearer one always has strictly higher trust. */
  lemma NearerUserIsTrustedMore(self: string, users: seq<User>, i: nat, j: nat)
    requires i < |users| && j < |users| && Complete(self, users, 5_000, 500_000)
    requires Recalculated(self, users)[i].distance < Recalculated(self, users)[j].distance
    ensures Recalculated(self, users)[i].trust > Recalculated(self, users)[j].trust
  {
    hide Searched, Built, TrustScore;
    var g := Built(users, 5_000, 500_000).0;
    var f := Searched(g, Start(self), self, Budget(users));
    var selfContacts := set v | v in ContactsOf(g, self);
    SearchIsRight(g, self, Budget(users));
    IntroducersAreRight(g, self, f, users[j].pubkey);
    DistancesAreHops(g, self, f.distances, users[j].pubkey);
    var a, b := users[i], users[j];
    var ia := if a.pubkey in f.introducedBy then f.introducedBy[a.pubkey] else [];
    var ib := if b.pubkey in f.introducedBy then f.introducedBy[b.pubkey] else [];
    NearerIsTrustedMore(DistanceIn(f.distances, a.pubkey), Mutual(a.contacts, selfContacts), |ia|,
                        DistanceIn(f.distances, b.pubkey), Mutual(b.contacts, selfContacts), |ib|);
  }

  // ---------------------------------------------------------------------------------------------
  // Partition by distance
  // ---------------------------------------------------------------------------------------------

  /** The users at distance `d`, in the order given. */
  function AtDistance(users: seq<User>, distances: map<string, nat>, d: nat): seq<string> {
    if users == [] then []
    else
      var before, user := AtDistance(users[..|users| - 1], distances, d), users[|users| - 1];
      if DistanceIn(distances, user.pubkey) == d then before + [user.pubkey] else before
  }

  /** The users keep the order of the list. */
  lemma {:induction false} AtDistanceInOrder(a: seq<User>, b: seq<User>, distances: map<string, nat>, d: nat)
    ensures AtDistance(a + b, distances, d) == AtDistance(a, distances, d) + AtDistance(b, distances, d)
    ensures |b| == 1 ==>
              AtDistance(b, distances, d) == if DistanceIn(distances, b[0].pubkey) == d then [b[0].pubkey] else []
    decreases |b|
  {
    if b == [] {
      assert a + b == a;
    } else {
      assert (a + b)[..|a + b| - 1] == a + b[..|b| - 1];
      AtDistanceInOrder(a, b[..|b| - 1], distances, d);
      assert |b| == 1 ==> b[..|b| - 1] == [];
    }
  }

  /** The entry of the partition for `d`: no entry outside the range asked for, or for nobody. */
  function Group(users: seq<User>, distances: map<string, nat>, d: nat, maxDistance: nat): Option<seq<string>> {
    var group := AtDistance(users, distances, d);
    if 0 < d <= maxDistance && group != [] then Some(group) else None
  }

  /** The plain search keeps no introducers; it visits the same users at the same distances. */
  method PlainSearch(g: Graph, self: string, maxProcessed: nat) returns (distances: map<string, nat>)
    ensures distances == Searched(g, Start(self), self, maxProcessed).distances
  {
    distances := map[self := 0];
    var queue := [(self, 0)];
    var processed := 0;
    ghost var selfContacts := set v | v in ContactsOf(g, self);
    ghost var f := Start(self);
    while queue != []
      invariant processed <= maxProcessed && f.distances == distances && f.queue == queue
      invariant Searched(g, f, self, maxProcessed - processed) == Searched(g, Start(self), self, maxProcessed)
      decreases maxProcessed - processed
    {
      ghost var before := f;
      var (current, currentDist) := queue[0];
      queue := queue[1..];
      processed := processed + 1;
      if processed > maxProcessed {
        break;
      }
      f := f.(queue := queue);
      ghost var popped := f;
      if current in g {
        var contacts := g[current];
        var newDist := NewDistance(currentDist);
        for i := 0 to |contacts|
          invariant f == VisitAll(popped, self, selfContacts, current, newDist, contacts[..i])
          invariant f.distances == distances && f.queue == queue
        {
          var contact := contacts[i];
          assert contacts[..i + 1][..i] == contacts[..i];
          f := Visit(f, self, selfContacts, current, newDist, contact);
          if contact in distances {
            if newDist >= distances[contact] {
              continue;
            }
          } else {
            distances := distances[contact := newDist];
            if newDist < 2 {
              queue := queue + [(contact, newDist)];
            }
          }
        }
        assert contacts[..|contacts|] == contacts;
      }
      assert f == Expanded(g, before, self);
    }
  }

  method PartitionWotPeers(self: string, users: seq<User>, maxDistance: nat) returns (result: map<nat, seq<string>>)
    ensures var found := Searched(Built(users, 2_000, 100_000).0, Start(self), self, Budget(users)).distances;
      && (forall d :: Lookup(result, d) == Group(users, found, d, maxDistance))
      && (forall d :: d in result <==> 1 <= d <= maxDistance && AtDistance(users, found, d) != [])
      && (forall d :: d in result ==> result[d] == AtDistance(users, found, d))
  {
    hide Searched, Built;
    if maxDistance == 0 || users == [] {
      return map[];
    }
    var g := BuildContactMap(users, 2_000, 100_000);
    var distances := PlainSearch(g, self, Budget(users));
    result := map[];
    for i := 0 to |users|
      invariant forall d :: Lookup(result, d) == Group(users[..i], distances, d, maxDistance)
    {
      assert users[..i + 1][..i] == users[..i];
      var distance := DistanceIn(distances, users[i].pubkey);
      ghost var before := result;
      assert Lookup(before, distance) == Group(users[..i], distances, distance, maxDistance);
      if distance > 0 && distance <= maxDistance {
        var group := if distance in result then result[distance] else [];
        result := result[distance := group + [users[i].pubkey]];
      }
      forall d ensures Lookup(result, d) == Group(users[..i + 1], distances, d, maxDistance) {
        assert Lookup(before, d) == Group(users[..i], distances, d, maxDistance);
        assert AtDistance(users[..i + 1], distances, d)
            == AtDistance(users[..i], distances, d) + (if d == distance then [users[i].pubkey] else []);
      }
    }
    assert users[..|users|] == users;
    forall d ensures d in result <==> Lookup(result, d).Some? {
    }
  }

  /** Each group holds exactly the listed users at that hop distance, in the order listed. */
  lemma GroupsAreHopDistances(self: string, users: seq<User>, d: nat, i: nat)
    requires Complete(self, users, 2_000, 100_000) && i < |users|
    ensures var g := Built(users, 2_000, 100_000).0;
      var found := Searched(g, Start(self), self, Budget(users)).distances;
      users[i].pubkey in AtDistance(users, found, d) <==> IsDistance(g, self, users[i].pubkey, d)
  {
    hide Searched, Built;
    var g := Built(users, 2_000, 100_000).0;
    var found := Searched(g, Start(self), self, Budget(users)).distances;
    SearchIsRight(g, self, Budget(users));
    DistancesAreHops(g, self, found, users[i].pubkey);
    AtDistanceSelects(users, found, d, users[i].pubkey);
    assert users[i] in users;
    if IsDistance(g, self, users[i].pubkey, d) {
      DistanceIsUnique(g, self, users[i].pubkey, d, DistanceIn(found, users[i].pubkey));
    }
  }

  lemma {:induction false} AtDistanceSelects(users: seq<User>, distances: map<string, nat>, d: nat, k: string)
    ensures k in AtDistance(users, distances, d) <==>
              DistanceIn(distances, k) == d && exists u :: u in users && u.pubkey == k
  {
    if users != [] {
      AtDistanceSelects(users[..|users| - 1], distances, d, k);
      assert users == users[..|users| - 1] + [users[|users| - 1]];
    }
  }

  /** Within the tighter caps both functions see the same graph, hence the same distances. */
  lemma BothSearchesAgree(self: string, users: seq<User>)
    requires DistinctUsers(users) && WithinCaps(users, 2_000, 100_000)
    ensures Built(users, 2_000, 100_000).0 == Built(users, 5_000, 500_000).0
  {
    hide Built;
    ContactMapIsExact(users, 2_000, 100_000);
    ContactMapIsExact(users, 5_000, 500_000);
  }
}
