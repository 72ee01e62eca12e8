/**
 * The observation task of db-core/src/observable.rs over the lossy broadcast queue of
 * db-core/src/change_bus.rs.
 *
 * The database is a version counter: every committed write makes a new version, and a query
 * result is identified with the version it was computed from.  The broadcast channel is the log
 * of everything sent since the task subscribed; a receiver is a cursor into it, and entries more
 * than `capacity` positions from the end have been overwritten.
 */
module Observable {
  import opened Wrappers
  import opened Ascii

  datatype Table =
    | Posts | Reactions | Messages | Notifications | Profiles
    | Blocks | Bookmarks | Settings | Relays | Groups

  datatype Event = Event(table: Table, account: Option<string>)

  /** What `observe` was asked to watch. */
  datatype Watch = Watch(tables: seq<Table>, account: Option<string>)

  /** An event in the log, with the version its write was committed as. */
  datatype Entry = Entry(event: Event, version: nat)

  /** The event concerns a watched table and is not about some other account. */
  predicate Concerns(w: Watch, e: Event) {
    && e.table in w.tables
    && (w.account.Some? && e.account.Some? ==> SameIgnoringCase(w.account.value, e.account.value))
  }

  // ---------------------------------------------------------------------------------------------
  // The receiver
  // ---------------------------------------------------------------------------------------------

  datatype Received = Got(event: Event) | Lagged | Empty

  function Oldest(log: seq<Entry>, capacity: nat): nat {
    if |log| > capacity then |log| - capacity else 0
  }

  /** `recv` and `try_recv`: the next event, or notice that the cursor fell behind, or nothing. */
  function Receive(log: seq<Entry>, capacity: nat, next: nat): (Received, nat) {
    if next < Oldest(log, capacity) then (Lagged, Oldest(log, capacity))
    else if next < |log| then (Got(log[next].event), next + 1)
    else (Empty, next)
  }

  /** The stand-in for missed events. */
  function Fallback(w: Watch): Event {
    Event(if w.tables == [] then Posts else w.tables[0], None)
  }

  /** The two filters of the loop; the account filter was lower-cased when the task was set up. */
  predicate Passes(w: Watch, e: Event) {
    && e.table in w.tables
    && match (w.account, e.account)
       case (Some(mine), Some(theirs)) => SameIgnoringCase(Lower(mine), theirs)
       case _ => true
  }

  predicate Triggers(w: Watch, r: Received) {
    match r
    case Got(e) => Passes(w, e)
    case Lagged => Passes(w, Fallback(w))
    case Empty => false
  }

  /** The filters let through exactly the events that concern the watch. */
  lemma PassesExactlyWhatConcerns(w: Watch, e: Event)
    ensures Passes(w, e) <==> Concerns(w, e)
  {
    if w.account.Some? {
      LowerIsIdempotent(w.account.value);
    }
  }

  // ---------------------------------------------------------------------------------------------
  // The task among writers
  // ---------------------------------------------------------------------------------------------

  datatype Phase = Waiting | Debouncing | Draining | Querying(since: nat) | Stopped

  datatype State = State(
    capacity: nat,
    version: nat,        // the database
    log: seq<Entry>,     // the broadcast channel, from the subscription on
    closed: bool,        // no receiver of the watch channel is left
    phase: Phase,        // the task
    next: nat,
    published: nat,
    lastFailed: bool     // the latest evaluation returned an error
  )

  /** Just subscribed: the value published was computed earlier, at version `computed`. */
  function Subscribed(capacity: nat, version: nat, computed: nat): State {
    State(capacity, version, [], false, Waiting, 0, computed, false)
  }

  datatype Step =
    | Commit
    | Announce(event: Event, of: nat)   // the write committed as version `of` is notified
    | CloseReceivers
    | Recv
    | DebounceEnds
    | TryRecv
    | QuerySucceeds(snapshot: nat)
    | QueryFails
    | QueryDies

  ghost predicate Enabled(s: State, step: Step) {
    match step
    case Commit => true
    case Announce(_, v) => v <= s.version
    case CloseReceivers => true
    case Recv => s.phase.Waiting? && !Receive(s.log, s.capacity, s.next).0.Empty?
    case DebounceEnds => s.phase.Debouncing?
    case TryRecv => s.phase.Draining?
    case QuerySucceeds(snapshot) => s.phase.Querying? && s.phase.since <= snapshot <= s.version
    case QueryFails => s.phase.Querying?
    case QueryDies => s.phase.Querying?
  }

  ghost function After(s: State, w: Watch, step: Step): State {
    match step
    case Commit => s.(version := s.version + 1)
    case Announce(e, v) => s.(log := s.log + [Entry(e, v)])
    case CloseReceivers => s.(closed := true)
    case Recv =>
      var (r, next) := Receive(s.log, s.capacity, s.next);
      s.(next := next,
         phase := if !Triggers(w, r) then Waiting else if s.closed then Stopped else Debouncing)
    case DebounceEnds => s.(phase := Draining)
    case TryRecv =>
      var (r, next) := Receive(s.log, s.capacity, s.next);
      s.(next := next,
         phase := if r.Got? then Draining else if s.closed then Stopped else Querying(s.version))
    case QuerySucceeds(snapshot) =>
      if s.closed then s.(phase := Stopped)
      else s.(phase := Waiting, published := snapshot, lastFailed := false)
    case QueryFails => s.(phase := Waiting, lastFailed := true)
    case QueryDies => s.(phase := Stopped)
  }

  ghost predicate Run(s: State, w: Watch, steps: seq<Step>, t: State)
    decreases |steps|
  {
    if steps == [] then s == t
    else Enabled(s, steps[0]) && Run(After(s, w, steps[0]), w, steps[1..], t)
  }

  // ---------------------------------------------------------------------------------------------
  // Freshness
  // ---------------------------------------------------------------------------------------------

  /** The published value reflects every relevant write among the first `n` events of the log. */
  ghost predicate FreshUpTo(s: State, w: Watch, n: nat) {
    forall i :: 0 <= i < n && i < |s.log| && Concerns(w, s.log[i].event) ==> s.log[i].version <= s.published
  }

  ghost predicate Inv(s: State, w: Watch) {
    && s.next <= |s.log|
    && s.published <= s.version
    && (forall i :: 0 <= i < |s.log| ==> s.log[i].version <= s.version)
    && (s.phase.Waiting? && !s.lastFailed ==> FreshUpTo(s, w, s.next))
    && (s.phase.Querying? ==>
          && s.published <= s.phase.since <= s.version
          && forall i :: 0 <= i < s.next ==> s.log[i].version <= s.phase.since)
  }

  lemma StepKeepsInv(s: State, w: Watch, step: Step)
    requires Inv(s, w) && Enabled(s, step)
    ensures Inv(After(s, w, step), w)
    ensures s.published <= After(s, w, step).published
  {
    if step.Recv? && !s.lastFailed && !Triggers(w, Receive(s.log, s.capacity, s.next).0) {
      RecvKeepsFresh(s, w);
    }
  }

  /** An event skipped by `recv` is irrelevant, and so are all overwritten ones if a lag is skipped. */
  lemma RecvKeepsFresh(s: State, w: Watch)
    requires Inv(s, w) && s.phase.Waiting? && !s.lastFailed
    requires !Triggers(w, Receive(s.log, s.capacity, s.next).0)
    ensures FreshUpTo(s, w, Receive(s.log, s.capacity, s.next).1)
  {
    match Receive(s.log, s.capacity, s.next).0
    case Got(e) => PassesExactlyWhatConcerns(w, e);
    case Lagged => assert w.tables == [];
    case Empty =>
  }

  lemma {:induction false} RunKeepsInv(s: State, w: Watch, steps: seq<Step>, t: State)
    requires Inv(s, w) && Run(s, w, steps, t)
    ensures Inv(t, w) && s.published <= t.published
    decreases |steps|
  {
    if steps != [] {
      StepKeepsInv(s, w, steps[0]);
      RunKeepsInv(After(s, w, steps[0]), w, steps[1..], t);
    }
  }

  /**
   * Whenever the task waits on an empty queue and its latest evaluation did not fail, the
   * published value was computed after every relevant write announced since the subscription:
   * received, drained or overwritten.
   */
  lemma QuietMeansFresh(capacity: nat, version: nat, computed: nat, w: Watch, steps: seq<Step>, t: State)
    requires computed <= version && Run(Subscribed(capacity, version, computed), w, steps, t)
    requires t.phase.Waiting? && Receive(t.log, t.capacity, t.next).0.Empty? && !t.lastFailed
    ensures forall i :: 0 <= i < |t.log| && Concerns(w, t.log[i].event) ==> t.log[i].version <= t.published
  {
    RunKeepsInv(Subscribed(capacity, version, computed), w, steps, t);
  }

  /** The published value never goes back to an older version. */
  lemma PublishedIsMonotone(capacity: nat, version: nat, computed: nat, w: Watch,
                            steps: seq<Step>, s: State, more: seq<Step>, t: State)
    requires computed <= version && Run(Subscribed(capacity, version, computed), w, steps, s)
    requires Run(s, w, more, t)
    ensures s.published <= t.published <= t.version
  {
    RunKeepsInv(Subscribed(capacity, version, computed), w, steps, s);
    RunKeepsInv(s, w, more, t);
  }

  /** The premise on failures is needed: a failed evaluation loses the event that triggered it. */
  lemma FailedQueryLeavesStale(capacity: nat, w: Watch, e: Event, t: State)
    requires capacity >= 1 && Concerns(w, e)
    requires Run(Subscribed(capacity, 0, 0), w,
                 [Commit, Announce(e, 1), Recv, DebounceEnds, TryRecv, QueryFails], t)
    ensures t.phase.Waiting? && Receive(t.log, t.capacity, t.next).0.Empty?
    ensures t.log == [Entry(e, 1)] && t.published == 0
  {
    PassesExactlyWhatConcerns(w, e);
    var s1 := After(Subscribed(capacity, 0, 0), w, Commit);
    var s2 := After(s1, w, Announce(e, 1));
    assert s2.log == [Entry(e, 1)];
    assert Run(s2, w, [Recv, DebounceEnds, TryRecv, QueryFails], t);
    var s3 := After(s2, w, Recv);
    assert Run(s3, w, [DebounceEnds, TryRecv, QueryFails], t);
    var s4 := After(s3, w, DebounceEnds);
    assert Run(s4, w, [TryRecv, QueryFails], t);
    var s5 := After(s4, w, TryRecv);
    assert Run(s5, w, [QueryFails], t);
    assert Run(After(s5, w, QueryFails), w, [], t);
  }

  // ---------------------------------------------------------------------------------------------
  // The gap between the first evaluation and the subscription
  // ---------------------------------------------------------------------------------------------

  /** Nothing the task has read concerns the watch, unless the published value is at least as new as `version`. */
  ghost predicate CaughtUp(s: State, w: Watch, version: nat) {
    && version <= s.version
    && (s.phase.Querying? ==> version <= s.phase.since)
    && (s.phase.Waiting? && !s.lastFailed && s.published < version ==>
          forall i :: 0 <= i < s.next && i < |s.log| ==> !Concerns(w, s.log[i].event))
  }

  lemma {:induction false} RunKeepsCaughtUp(s: State, w: Watch, steps: seq<Step>, t: State, version: nat)
    requires Inv(s, w) && CaughtUp(s, w, version) && Run(s, w, steps, t)
    ensures CaughtUp(t, w, version)
    decreases |steps|
  {
    if steps != [] {
      StepKeepsInv(s, w, steps[0]);
      StepKeepsCaughtUp(s, w, steps[0], version);
      RunKeepsCaughtUp(After(s, w, steps[0]), w, steps[1..], t, version);
    }
  }

  lemma StepKeepsCaughtUp(s: State, w: Watch, step: Step, version: nat)
    requires Inv(s, w) && CaughtUp(s, w, version) && Enabled(s, step)
    ensures CaughtUp(After(s, w, step), w, version)
  {
    if step.Recv? {
      match Receive(s.log, s.capacity, s.next).0
      case Got(e) => PassesExactlyWhatConcerns(w, e);
      case Lagged => assert !Passes(w, Fallback(w)) ==> w.tables == [];
      case Empty =>
    }
  }

  /** Some event since the subscription concerns the watch. */
  ghost predicate SomeConcerns(w: Watch, log: seq<Entry>) {
    exists i :: 0 <= i < |log| && Concerns(w, log[i].event)
  }

  /**
   * The gap between the first evaluation (at version `computed`) and the subscription (at
   * `version`): any relevant event after the subscription, even of an older write, closes it.
   */
  lemma EventClosesGap(capacity: nat, version: nat, computed: nat, w: Watch, steps: seq<Step>, t: State)
    requires computed <= version && Run(Subscribed(capacity, version, computed), w, steps, t)
    requires t.phase.Waiting? && Receive(t.log, t.capacity, t.next).0.Empty? && !t.lastFailed
    ensures SomeConcerns(w, t.log) ==> t.published >= version
  {
    RunKeepsInv(Subscribed(capacity, version, computed), w, steps, t);
    RunKeepsCaughtUp(Subscribed(capacity, version, computed), w, steps, t, version);
  }

  /**
   * Without overflow the writes in the gap are picked up exactly when there were none, or when a
   * relevant event was announced after the subscription.
   */
  lemma GapClosesIff(capacity: nat, version: nat, computed: nat, w: Watch, steps: seq<Step>, t: State)
    requires computed <= version && Run(Subscribed(capacity, version, computed), w, steps, t)
    requires t.phase.Waiting? && Receive(t.log, t.capacity, t.next).0.Empty? && !t.lastFailed
    requires |t.log| <= capacity
    ensures t.published >= version <==> computed == version || SomeConcerns(w, t.log)
  {
    EventClosesGap(capacity, version, computed, w, steps, t);
    RunKeepsInv(Subscribed(capacity, version, computed), w, steps, t);
    if !SomeConcerns(w, t.log) {
      IrrelevantTrafficPublishesNothing(Subscribed(capacity, version, computed), w, steps, t);
    }
  }

  /** A run that misses a write: version 1 was committed and announced in the gap, nothing relevant follows. */
  lemma WriteInGapIsMissed(capacity: nat, w: Watch, e: Event, t: State)
    requires capacity >= 1 && !Concerns(w, e)
    requires Run(Subscribed(capacity, 1, 0), w, [Announce(e, 1), Recv], t)
    ensures t.phase.Waiting? && Receive(t.log, t.capacity, t.next).0.Empty? && !t.lastFailed
    ensures t.published == 0 && t.version == 1
  {
    PassesExactlyWhatConcerns(w, e);
    var s := After(Subscribed(capacity, 1, 0), w, Announce(e, 1));
    assert s.log == [Entry(e, 1)];
    assert Run(s, w, [Recv], t);
    assert Run(After(s, w, Recv), w, [], t);
  }

  /** Irrelevant traffic never re-evaluates the query while the queue does not overflow. */
  lemma {:induction false} IrrelevantTrafficPublishesNothing(s: State, w: Watch, steps: seq<Step>, t: State)
    requires s.phase.Waiting? && s.next <= |s.log|
    requires Run(s, w, steps, t) && |t.log| <= s.capacity
    requires forall i :: s.next <= i < |t.log| ==> !Concerns(w, t.log[i].event)
    ensures t.published == s.published && t.phase.Waiting?
    decreases |steps|
  {
    if steps != [] {
      LogOnlyGrows(s, w, steps, t);
      if steps[0].Recv? {
        assert t.log[s.next] == s.log[s.next];
        PassesExactlyWhatConcerns(w, s.log[s.next].event);
      }
      IrrelevantTrafficPublishesNothing(After(s, w, steps[0]), w, steps[1..], t);
    }
  }

  lemma {:induction false} LogOnlyGrows(s: State, w: Watch, steps: seq<Step>, t: State)
    requires Run(s, w, steps, t)
    ensures s.log <= t.log
    decreases |steps|
  {
    if steps != [] {
      LogOnlyGrows(After(s, w, steps[0]), w, steps[1..], t);
    }
  }

  // ---------------------------------------------------------------------------------------------
  // The rounds of the task
  // ---------------------------------------------------------------------------------------------

  /** What a receiver that has read `next` events gets. */
  lemma ReceiveInCases(log: seq<Entry>, capacity: nat, next: nat)
    ensures
      var (r, after) := Receive(log, capacity, next);
      if next + capacity < |log| then r == Lagged && after == |log| - capacity
      else if next < |log| then r == Got(log[next].event) && after == next + 1
      else r == Empty && after == next
  {
  }

  /**
   * An evaluation starts only when the queue has been read to its end, or to the oldest event kept
   * if the task lagged: a burst that arrives while it debounces costs one evaluation.
   */
  lemma EvaluationStartsDrained(s: State, w: Watch, step: Step)
    requires Inv(s, w) && Enabled(s, step) && !s.phase.Querying? && After(s, w, step).phase.Querying?
    ensures var t := After(s, w, step);
      && s.phase.Draining? && !s.closed && t.phase.since == s.version
      && (t.next == |t.log| || (s.next + s.capacity < |s.log| && t.next == |t.log| - t.capacity))
  {
  }

  /** How an evaluation ends: published, kept for another event, or the end of the task. */
  lemma EvaluationEnds(s: State, w: Watch, step: Step)
    requires s.phase.Querying? && !s.closed && Enabled(s, step)
    ensures var t := After(s, w, step);
      && (step.QuerySucceeds? ==> t.phase.Waiting? && t.published == step.snapshot && !t.lastFailed)
      && (step.QueryFails? ==> t.phase.Waiting? && t.published == s.published && t.lastFailed)
      && (step.QueryDies? ==> t.phase.Stopped? && t.published == s.published)
  {
  }

  /**
   * Once no receiver is left nothing is published and no evaluation starts any more; the next
   * event that passes the filters, or the end of the round under way, stops the task.
   */
  lemma {:induction false} ClosedPublishesNothing(s: State, w: Watch, steps: seq<Step>, t: State)
    requires s.closed && Run(s, w, steps, t)
    ensures t.closed && t.published == s.published
    ensures t.phase.Querying? ==> s.phase.Querying?
    ensures s.phase.Stopped? ==> t.phase.Stopped?
    decreases |steps|
  {
    if steps != [] {
      ClosedStops(s, w, steps[0]);
      ClosedPublishesNothing(After(s, w, steps[0]), w, steps[1..], t);
    }
  }

  lemma ClosedStops(s: State, w: Watch, step: Step)
    requires s.closed && Enabled(s, step)
    ensures var t := After(s, w, step);
      && t.closed && t.published == s.published
      && (t.phase.Querying? ==> s.phase.Querying?) && (s.phase.Stopped? ==> t.phase.Stopped?)
      && (step.Recv? ==> t.phase == if Triggers(w, Receive(s.log, s.capacity, s.next).0) then Stopped else Waiting)
      && (step.TryRecv? && s.next >= |s.log| ==> t.phase.Stopped?)
      && (step.QuerySucceeds? ==> t.phase.Stopped?)
  {
  }

  // ---------------------------------------------------------------------------------------------
  // The task settles
  // ---------------------------------------------------------------------------------------------

  /** Steps of the task itself, with every evaluation succeeding. */
  predicate OwnStep(step: Step) {
    step.Recv? || step.DebounceEnds? || step.TryRecv? || step.QuerySucceeds?
  }

  /** A bound on the steps left: events not yet read, and the rest of the current round. */
  function Work(s: State): nat
    requires s.next <= |s.log|
  {
    4 * (|s.log| - s.next)
    + match s.phase case Debouncing => 3 case Draining => 2 case Querying(_) => 1 case _ => 0
  }

  lemma {:induction false} OwnRunIsBounded(s: State, w: Watch, steps: seq<Step>, t: State)
    requires Inv(s, w) && !s.closed && !s.lastFailed && !s.phase.Stopped? && Run(s, w, steps, t)
    requires forall i :: 0 <= i < |steps| ==> OwnStep(steps[i])
    ensures Inv(t, w) && t.next <= |t.log| && |steps| + Work(t) <= Work(s)
    ensures t.log == s.log && !t.closed && !t.lastFailed && !t.phase.Stopped?
    decreases |steps|
  {
    if steps != [] {
      StepKeepsInv(s, w, steps[0]);
      OwnRunIsBounded(After(s, w, steps[0]), w, steps[1..], t);
    }
  }

  /**
   * Once writers fall silent and evaluations succeed, every schedule of the task stops within
   * `Work` steps, and where it stops the published value reflects every relevant write.
   */
  lemma TaskSettlesFresh(capacity: nat, version: nat, computed: nat, w: Watch,
                         history: seq<Step>, s: State, own: seq<Step>, t: State)
    requires computed <= version && Run(Subscribed(capacity, version, computed), w, history, s)
    requires !s.closed && !s.lastFailed && !s.phase.Stopped?
    requires Run(s, w, own, t) && forall i :: 0 <= i < |own| ==> OwnStep(own[i])
    ensures s.next <= |s.log| && |own| <= Work(s)
    ensures (forall step :: OwnStep(step) ==> !Enabled(t, step)) ==> FreshUpTo(t, w, |t.log|)
  {
    RunKeepsInv(Subscribed(capacity, version, computed), w, history, s);
    OwnRunIsBounded(s, w, own, t);
    if forall step :: OwnStep(step) ==> !Enabled(t, step) {
      StuckIsQuiet(t, w);
    }
  }

  lemma StuckIsQuiet(t: State, w: Watch)
    requires Inv(t, w) && !t.phase.Stopped? && forall step :: OwnStep(step) ==> !Enabled(t, step)
    ensures t.phase.Waiting? && t.next == |t.log|
  {
    assert !Enabled(t, Recv) && !Enabled(t, DebounceEnds) && !Enabled(t, TryRecv);
    assert !Enabled(t, QuerySucceeds(t.version));
  }

  // ---------------------------------------------------------------------------------------------
  // The loop itself
  // ---------------------------------------------------------------------------------------------

  /** Reading on from `next` meets something that triggers an evaluation. */
  ghost predicate Pending(w: Watch, log: seq<Entry>, capacity: nat, next: nat) {
    || (next < Oldest(log, capacity) && w.tables != [])
    || exists i :: next <= i < |log| && Oldest(log, capacity) <= i && Concerns(w, log[i].event)
  }

  class Task {
    const watch: Watch
    var next: nat
    var published: nat

    constructor (watch: Watch, computed: nat)
      ensures this.watch == watch && next == 0 && published == computed
    {
      this.watch, next, published := watch, 0, computed;
    }

    method ReceiveNext(log: seq<Entry>, capacity: nat) returns (r: Received)
      modifies this`next
      ensures (r, next) == Receive(log, capacity, old(next))
      ensures r.Lagged? <==> old(next) + capacity < |log|
      ensures r.Lagged? ==> next == |log| - capacity
      ensures r.Got? ==> old(next) < |log| && r.event == log[old(next)].event && next == old(next) + 1
      ensures r.Empty? ==> next == old(next) >= |log|
    {
      if next < Oldest(log, capacity) {
        next := Oldest(log, capacity);
        return Lagged;
      }
      if next < |log| {
        next := next + 1;
        return Got(log[next - 1].event);
      }
      return Empty;
    }

    /** `while let Ok(_) = try_recv()`: stops at the end of the queue, or on a lag. */
    method Drain(log: seq<Entry>, capacity: nat)
      requires next <= |log|
      modifies this`next
      ensures old(next) <= next <= |log|
      ensures next == if old(next) < Oldest(log, capacity) then Oldest(log, capacity) else |log|
    {
      var r := ReceiveNext(log, capacity);
      while r.Got?
        invariant old(next) <= next <= |log|
        invariant r.Got? ==> old(next) >= Oldest(log, capacity)
        invariant r.Empty? ==> old(next) >= Oldest(log, capacity) && next == |log|
        invariant r.Lagged? ==> old(next) < Oldest(log, capacity) && next == Oldest(log, capacity)
        decreases |log| - next, r.Got?
      {
        r := ReceiveNext(log, capacity);
      }
    }

    /**
     * The loop of the task until it would wait on an empty queue, with no event sent meanwhile
     * and every evaluation succeeding at database version `version`.
     */
    method RunUntilQuiet(log: seq<Entry>, capacity: nat, version: nat)
      requires next <= |log|
      modifies this
      ensures next == |log|
      ensures published == if old(Pending(watch, log, capacity, next)) then version else old(published)
    {
      ghost var triggered := false;
      while true
        invariant next <= |log|
        invariant triggered || Pending(watch, log, capacity, next) <==> old(Pending(watch, log, capacity, next))
        invariant published == if triggered then version else old(published)
        decreases |log| - next
      {
        ghost var before := next;
        var r := ReceiveNext(log, capacity);
        if r.Empty? {
          return;
        }
        var event := if r.Got? then r.event else Fallback(watch);
        PassesExactlyWhatConcerns(watch, event);
        if !(event.table in watch.tables) {
          continue;
        }
        if watch.account.Some? && event.account.Some?
           && !SameIgnoringCase(Lower(watch.account.value), event.account.value) {
          continue;
        }
        Drain(log, capacity);
        published := version;
        triggered := true;
      }
    }
  }
}
