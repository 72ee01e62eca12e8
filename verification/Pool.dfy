/**
 * The connection pool of db-core/src/lib.rs.
 *
 * `PoolState` is the record behind the mutex; its methods are the critical sections of
 * `Database::conn` and `ConnGuard::drop`.  The functions that specify those methods are the
 * building blocks of a step system in which any number of callers interleave: a caller arrives,
 * checks out under the lock, opens a connection outside the lock (which can fail), sleeps on the
 * condition variable, is woken, releases, and notifies after unlocking.
 */
module Pool {
  import opened Wrappers

  type ConnId = nat
  type CallerId = nat

  /** The lock-protected fields: idle connections (a stack) and connections handed out. */
  datatype Shared = Shared(idle: seq<ConnId>, inUse: nat)

  /** What one pass of the `conn` loop decides while it holds the lock. */
  datatype Outcome = Reuse(conn: ConnId) | Open | Wait

  function SaturatingPred(n: nat): nat {
    if n == 0 then 0 else n - 1
  }

  function CheckedOut(s: Shared, max: nat): (Shared, Outcome) {
    if s.idle != [] then
      (Shared(s.idle[..|s.idle| - 1], s.inUse + 1), Reuse(s.idle[|s.idle| - 1]))
    else if s.inUse < max then
      (Shared([], s.inUse + 1), Open)
    else
      (s, Wait)
  }

  function OpenFailed(s: Shared): Shared {
    s.(inUse := SaturatingPred(s.inUse))
  }

  function Returned(s: Shared, conn: ConnId): Shared {
    Shared(s.idle + [conn], SaturatingPred(s.inUse))
  }

  class PoolState {
    var conns: seq<ConnId>
    var inUse: nat

    ghost function View(): Shared
      reads this
    {
      Shared(conns, inUse)
    }

    constructor (first: ConnId)
      ensures View() == Shared([first], 0)
    {
      conns, inUse := [first], 0;
    }

    /** One locked pass of the `conn` loop: pop an idle connection, or reserve a slot, or wait. */
    method CheckOut(max: nat) returns (outcome: Outcome)
      modifies this
      ensures (View(), outcome) == CheckedOut(old(View()), max)
      ensures old(conns) != [] ==>
        && outcome == Reuse(old(conns)[|old(conns)| - 1]) && conns == old(conns)[..|old(conns)| - 1]
        && inUse == old(inUse) + 1
      ensures old(conns) == [] ==>
        && outcome == (if old(inUse) < max then Open else Wait) && conns == []
        && inUse == if old(inUse) < max then old(inUse) + 1 else old(inUse)
    {
      if |conns| > 0 {
        outcome := Reuse(conns[|conns| - 1]);
        conns := conns[..|conns| - 1];
        inUse := inUse + 1;
      } else if inUse < max {
        inUse := inUse + 1;
        outcome := Open;
      } else {
        outcome := Wait;
      }
    }

    /** The locked part of the failure path after `open_extra`. */
    method GiveUpSlot()
      modifies this
      ensures View() == OpenFailed(old(View()))
      ensures conns == old(conns) && (old(inUse) > 0 ==> inUse == old(inUse) - 1)
    {
      if inUse > 0 {
        inUse := inUse - 1;
      }
    }

    /** The locked part of `ConnGuard::drop`. */
    method Return(conn: ConnId)
      modifies this
      ensures View() == Returned(old(View()), conn)
      ensures conns == old(conns) + [conn] && (old(inUse) > 0 ==> inUse == old(inUse) - 1)
    {
      conns := conns + [conn];
      if inUse > 0 {
        inUse := inUse - 1;
      }
    }
  }

  // ---------------------------------------------------------------------------------------------
  // Interleaved callers
  // ---------------------------------------------------------------------------------------------

  /** Where one call of `conn` (and the life of its guard) stands. */
  datatype Phase =
    | Arriving             // about to take the lock for the first time
    | Opening              // slot reserved, `open_extra` running without the lock
    | Sleeping             // inside `Condvar::wait`
    | Woken                // woken, about to take the lock again
    | Holding(conn: ConnId)
    | Notifying            // guard dropped and lock released, `notify_one` still to be sent
    | Finished
  {
    function Kind(): Kind {
      match this
      case Arriving => KArriving
      case Opening => KOpening
      case Sleeping => KSleeping
      case Woken => KWoken
      case Holding(_) => KHolding
      case Notifying => KNotifying
      case Finished => KFinished
    }
  }

  datatype Kind = KArriving | KOpening | KSleeping | KWoken | KHolding | KNotifying | KFinished

  datatype System = System(max: nat, shared: Shared, nextConn: ConnId, callers: map<CallerId, Phase>)

  /** `Database::open` starts with one idle connection and nobody waiting. */
  function Initial(max: nat): System {
    System(max, Shared([0], 0), 1, map[])
  }

  datatype Step =
    | Arrive(who: CallerId)
    | TakeLock(who: CallerId)
    | OpenSucceeds(who: CallerId)
    | OpenFails(who: CallerId, wakes: Option<CallerId>)
    | Release(who: CallerId)
    | Notify(who: CallerId, wakes: Option<CallerId>)
    | SpuriousWake(who: CallerId)

  ghost predicate At(s: System, c: CallerId, k: Kind) {
    c in s.callers && s.callers[c].Kind() == k
  }

  /** `notify_one` wakes one sleeper if there is one, and is lost otherwise. */
  ghost predicate CanWake(s: System, wakes: Option<CallerId>) {
    match wakes
    case Some(w) => At(s, w, KSleeping)
    case None => forall c :: c in s.callers ==> s.callers[c] != Sleeping
  }

  ghost predicate Enabled(s: System, step: Step) {
    match step
    case Arrive(c) => c !in s.callers
    case TakeLock(c) => At(s, c, KArriving) || At(s, c, KWoken)
    case OpenSucceeds(c) => At(s, c, KOpening)
    case OpenFails(c, wakes) => At(s, c, KOpening) && CanWake(s, wakes)
    case Release(c) => At(s, c, KHolding)
    case Notify(c, wakes) => At(s, c, KNotifying) && CanWake(s, wakes)
    case SpuriousWake(c) => At(s, c, KSleeping)
  }

  ghost function Wake(callers: map<CallerId, Phase>, wakes: Option<CallerId>): map<CallerId, Phase> {
    match wakes
    case Some(w) => callers[w := Woken]
    case None => callers
  }

  ghost function After(s: System, step: Step): System
    requires Enabled(s, step)
  {
    match step
    case Arrive(c) => s.(callers := s.callers[c := Arriving])
    case TakeLock(c) =>
      var (shared, outcome) := CheckedOut(s.shared, s.max);
      var phase := match outcome
        case Reuse(conn) => Holding(conn)
        case Open => Opening
        case Wait => Sleeping;
      s.(shared := shared, callers := s.callers[c := phase])
    case OpenSucceeds(c) =>
      s.(nextConn := s.nextConn + 1, callers := s.callers[c := Holding(s.nextConn)])
    case OpenFails(c, wakes) =>
      s.(shared := OpenFailed(s.shared), callers := Wake(s.callers[c := Finished], wakes))
    case Release(c) =>
      s.(shared := Returned(s.shared, s.callers[c].conn), callers := s.callers[c := Notifying])
    case Notify(c, wakes) =>
      s.(callers := Wake(s.callers[c := Finished], wakes))
    case SpuriousWake(c) => s.(callers := s.callers[c := Woken])
  }

  /** `t` is reached from `s` by taking `steps` in order. */
  ghost predicate Run(s: System, steps: seq<Step>, t: System)
    decreases |steps|
  {
    if steps == [] then s == t
    else Enabled(s, steps[0]) && Run(After(s, steps[0]), steps[1..], t)
  }

  // ---------------------------------------------------------------------------------------------
  // Counting callers
  // ---------------------------------------------------------------------------------------------

  ghost function Members(callers: map<CallerId, Phase>, k: Kind): set<CallerId> {
    set c | c in callers && callers[c].Kind() == k
  }

  ghost function Count(callers: map<CallerId, Phase>, k: Kind): nat {
    |Members(callers, k)|
  }

  function Unit(b: bool): nat {
    if b then 1 else 0
  }

  /** Moving one caller changes the count of the kind it leaves and of the kind it enters. */
  lemma CountMove(callers: map<CallerId, Phase>, c: CallerId, p: Phase)
    ensures forall k :: Count(callers[c := p], k)
                     == Count(callers, k) - Unit(c in callers && callers[c].Kind() == k) + Unit(p.Kind() == k)
  {
    forall k
      ensures Count(callers[c := p], k)
           == Count(callers, k) - Unit(c in callers && callers[c].Kind() == k) + Unit(p.Kind() == k)
    {
      CountMoveOfKind(callers, c, p, k);
    }
  }

  lemma CountMoveOfKind(callers: map<CallerId, Phase>, c: CallerId, p: Phase, k: Kind)
    ensures Count(callers[c := p], k)
         == Count(callers, k) - Unit(c in callers && callers[c].Kind() == k) + Unit(p.Kind() == k)
  {
    MembersMove(callers, c, p, k);
    hide Members;
    SizeUpTo(Members(callers, k), c);
    SizeUpTo(Members(callers[c := p], k), c);
  }

  lemma MembersMove(callers: map<CallerId, Phase>, c: CallerId, p: Phase, k: Kind)
    ensures c in Members(callers, k) <==> c in callers && callers[c].Kind() == k
    ensures c in Members(callers[c := p], k) <==> p.Kind() == k
    ensures Members(callers[c := p], k) - {c} == Members(callers, k) - {c}
  {
  }

  lemma SizeUpTo(s: set<CallerId>, c: CallerId)
    ensures |s| == |s - {c}| + Unit(c in s)
  {
    if c in s {
      assert s == s - {c} + {c};
    } else {
      assert s == s - {c};
    }
  }

  lemma CountPositive(callers: map<CallerId, Phase>, k: Kind)
    ensures Count(callers, k) > 0 <==> exists c :: c in callers && callers[c].Kind() == k
  {
    if c :| c in callers && callers[c].Kind() == k {
      assert c in Members(callers, k);
    } else {
      assert Members(callers, k) == {};
    }
  }

  // ---------------------------------------------------------------------------------------------
  // Invariants
  // ---------------------------------------------------------------------------------------------

  /** `in_use` counts guards held plus opens in flight, and the pool never outgrows its limit. */
  ghost predicate Accounted(s: System) {
    && s.shared.inUse == Count(s.callers, KHolding) + Count(s.callers, KOpening)
    && |s.shared.idle| + s.shared.inUse <= s.max
  }

  /** Every connection is in at most one place: one idle slot or one guard. */
  ghost predicate Exclusive(s: System) {
    && (forall i :: 0 <= i < |s.shared.idle| ==> s.shared.idle[i] < s.nextConn)
    && (forall i, j :: 0 <= i < j < |s.shared.idle| ==> s.shared.idle[i] != s.shared.idle[j])
    && (forall c :: Guards(s, c) ==> s.callers[c].conn < s.nextConn && s.callers[c].conn !in s.shared.idle)
    && (forall c, d :: Guards(s, c) && Guards(s, d) && c != d ==> s.callers[c].conn != s.callers[d].conn)
  }

  ghost predicate Guards(s: System, c: CallerId) {
    c in s.callers && s.callers[c].Holding?
  }

  /** Free capacity that nobody has been told about, while somebody sleeps, does not exist. */
  ghost predicate NoLostWakeup(s: System) {
    Count(s.callers, KSleeping) > 0 ==>
      s.max - s.shared.inUse <= Count(s.callers, KWoken) + Count(s.callers, KNotifying)
  }

  ghost predicate Inv(s: System) {
    s.max >= 1 && Accounted(s) && Exclusive(s) && NoLostWakeup(s)
  }

  lemma InitialInv(max: nat)
    requires max >= 1
    ensures Inv(Initial(max))
  {
    forall k ensures Count(map[], k) == 0 {
      assert Members(map[], k) == {};
    }
  }

  lemma StepKeepsInv(s: System, step: Step)
    requires Inv(s) && Enabled(s, step)
    ensures Inv(After(s, step))
  {
    StepKeepsCounts(s, step);
    StepKeepsExclusive(s, step);
  }

  lemma StepKeepsExclusive(s: System, step: Step)
    requires Exclusive(s) && Enabled(s, step)
    ensures Exclusive(After(s, step))
  {
    var t := After(s, step);
    match step
    case TakeLock(c) =>
      if s.shared.idle != [] { PopKeepsExclusive(s, c, t); } else { SameGuards(s, t); }
    case OpenSucceeds(c) =>
      assert forall d :: Guards(t, d) && d != c ==> Guards(s, d) && s.callers[d] == t.callers[d];
    case Release(c) => PushKeepsExclusive(s, c, t);
    case _ => SameGuards(s, t);
  }

  /** A step that creates no guard and leaves the idle list alone. */
  lemma SameGuards(s: System, t: System)
    requires Exclusive(s) && t.shared.idle == s.shared.idle && t.nextConn == s.nextConn
    requires forall d :: Guards(t, d) ==> Guards(s, d) && s.callers[d] == t.callers[d]
    ensures Exclusive(t)
  {
  }

  lemma PopKeepsExclusive(s: System, c: CallerId, t: System)
    requires Exclusive(s) && s.shared.idle != []
    requires Enabled(s, TakeLock(c)) && t == After(s, TakeLock(c))
    ensures Exclusive(t)
  {
    var top := s.shared.idle[|s.shared.idle| - 1];
    assert t.shared.idle + [top] == s.shared.idle;
    assert forall d :: Guards(t, d) && d != c ==> Guards(s, d) && s.callers[d] == t.callers[d];
    assert t.callers[c] == Holding(top);
  }

  lemma PushKeepsExclusive(s: System, c: CallerId, t: System)
    requires Exclusive(s) && Enabled(s, Release(c)) && t == After(s, Release(c))
    ensures Exclusive(t)
  {
    assert Guards(s, c);
    assert forall d :: Guards(t, d) ==> d != c && Guards(s, d) && s.callers[d] == t.callers[d];
  }

  /** The arithmetic half of the invariant, one step at a time. */
  lemma StepKeepsCounts(s: System, step: Step)
    requires Accounted(s) && NoLostWakeup(s) && Enabled(s, step)
    ensures Accounted(After(s, step)) && NoLostWakeup(After(s, step))
  {
    match step
    case OpenFails(c, wakes) => MoveAndWake(s.callers, c, wakes);
    case Notify(c, wakes) => MoveAndWake(s.callers, c, wakes);
    case _ => MoveKeepsCounts(s, step);
  }

  lemma MoveKeepsCounts(s: System, step: Step)
    requires Accounted(s) && NoLostWakeup(s) && Enabled(s, step)
    requires !step.OpenFails? && !step.Notify?
    ensures Accounted(After(s, step)) && NoLostWakeup(After(s, step))
  {
    CountMove(s.callers, step.who, After(s, step).callers[step.who]);
  }

  /** A finished caller and the wake-up it sends, counted; the wake-up is lost only without sleepers. */
  lemma MoveAndWake(callers: map<CallerId, Phase>, c: CallerId, wakes: Option<CallerId>)
    requires c in callers && callers[c] != Sleeping
    requires match wakes
      case Some(w) => w in callers && callers[w] == Sleeping
      case None => forall d :: d in callers ==> callers[d] != Sleeping
    ensures forall k :: Count(Wake(callers[c := Finished], wakes), k)
                     == Count(callers, k) - Unit(callers[c].Kind() == k) + Unit(k == KFinished)
                        - Unit(wakes.Some? && k == KSleeping) + Unit(wakes.Some? && k == KWoken)
    ensures wakes.None? ==> Count(callers, KSleeping) == 0
  {
    CountPositive(callers, KSleeping);
    CountMove(callers, c, Finished);
    if wakes.Some? {
      CountMove(callers[c := Finished], wakes.value, Woken);
    }
  }

  lemma {:induction false} RunKeepsInv(s: System, steps: seq<Step>, t: System)
    requires Inv(s) && Run(s, steps, t)
    ensures Inv(t) && t.max == s.max
    decreases |steps|
  {
    if steps != [] {
      StepKeepsInv(s, steps[0]);
      RunKeepsInv(After(s, steps[0]), steps[1..], t);
    }
  }

  // ---------------------------------------------------------------------------------------------
  // Main results
  // ---------------------------------------------------------------------------------------------

  /** While any caller sleeps, free capacity is matched by callers already woken or about to be. */
  lemma NoWakeupIsEverLost(max: nat, steps: seq<Step>, t: System)
    requires max >= 1 && Run(Initial(max), steps, t)
    requires exists c :: At(t, c, KSleeping)
    ensures max - t.shared.inUse <= Count(t.callers, KWoken) + Count(t.callers, KNotifying)
  {
    InitialInv(max);
    RunKeepsInv(Initial(max), steps, t);
    CountPositive(t.callers, KSleeping);
  }

  /** The counter is exact, the pool stays within its limit, and no connection is in two places. */
  lemma AccountingIsExact(max: nat, steps: seq<Step>, t: System)
    requires max >= 1 && Run(Initial(max), steps, t)
    ensures t.shared.inUse == Count(t.callers, KHolding) + Count(t.callers, KOpening)
    ensures |t.shared.idle| + t.shared.inUse <= max
    ensures forall i, j :: 0 <= i < j < |t.shared.idle| ==> t.shared.idle[i] != t.shared.idle[j]
    ensures forall c :: Guards(t, c) ==> t.callers[c].conn !in t.shared.idle
    ensures forall c, d :: Guards(t, c) && Guards(t, d) && c != d ==> t.callers[c].conn != t.callers[d].conn
  {
    InitialInv(max);
    RunKeepsInv(Initial(max), steps, t);
  }

  /** Both `saturating_sub(1)` calls subtract exactly one. */
  lemma DecrementNeverSaturates(max: nat, steps: seq<Step>, s: System, step: Step)
    requires max >= 1 && Run(Initial(max), steps, s) && Enabled(s, step)
    requires step.Release? || step.OpenFails?
    ensures After(s, step).shared.inUse == s.shared.inUse - 1
  {
    AccountingIsExact(max, steps, s);
    CountPositive(s.callers, KHolding);
    CountPositive(s.callers, KOpening);
  }

  /** Steps of callers already in the system, made by the program itself. */
  predicate Draining(step: Step) {
    !step.Arrive? && !step.SpuriousWake?
  }

  /** How many steps the present callers can still take between them. */
  ghost function Potential(callers: map<CallerId, Phase>): nat {
    5 * (Count(callers, KArriving) + Count(callers, KWoken))
    + 4 * (Count(callers, KSleeping) + Count(callers, KOpening))
    + 3 * Count(callers, KHolding) + 2 * Count(callers, KNotifying)
  }

  lemma DrainingStepDescends(s: System, step: Step)
    requires Enabled(s, step) && Draining(step)
    ensures Potential(After(s, step).callers) < Potential(s.callers)
  {
    match step
    case OpenFails(c, wakes) => MoveAndWake(s.callers, c, wakes);
    case Notify(c, wakes) => MoveAndWake(s.callers, c, wakes);
    case _ => MoveDescends(s, step);
  }

  lemma MoveDescends(s: System, step: Step)
    requires Enabled(s, step) && (step.TakeLock? || step.OpenSucceeds? || step.Release?)
    ensures Potential(After(s, step).callers) < Potential(s.callers)
  {
    var p := After(s, step).callers[step.who];
    assert After(s, step).callers == s.callers[step.who := p];
    CountMove(s.callers, step.who, p);
  }

  lemma {:induction false} DrainingRunIsBounded(s: System, steps: seq<Step>, t: System)
    requires Run(s, steps, t) && forall i :: 0 <= i < |steps| ==> Draining(steps[i])
    ensures |steps| + Potential(t.callers) <= Potential(s.callers)
    decreases |steps|
  {
    if steps != [] {
      DrainingStepDescends(s, steps[0]);
      DrainingRunIsBounded(After(s, steps[0]), steps[1..], t);
    }
  }

  /** A sleeper is never alone: somebody present is awake, holds a slot, or owes a notification. */
  lemma SleepersHaveCompany(s: System)
    requires Inv(s) && Count(s.callers, KSleeping) > 0
    ensures exists c :: c in s.callers && s.callers[c].Kind() in {KWoken, KNotifying, KHolding, KOpening}
  {
    CountPositive(s.callers, KWoken);
    CountPositive(s.callers, KNotifying);
    CountPositive(s.callers, KHolding);
    CountPositive(s.callers, KOpening);
  }

  /** Everyone but a sleeper or a finished caller has a step of their own to take. */
  lemma AwakeCallersCanStep(s: System, c: CallerId) returns (step: Step)
    requires c in s.callers && s.callers[c] != Sleeping && s.callers[c] != Finished
    ensures Draining(step) && Enabled(s, step)
  {
    match s.callers[c] {
      case Arriving => step := TakeLock(c);
      case Woken => step := TakeLock(c);
      case Opening => step := OpenSucceeds(c);
      case Holding(_) => step := Release(c);
      case Notifying =>
        if w :| w in s.callers && s.callers[w] == Sleeping {
          step := Notify(c, Some(w));
        } else {
          step := Notify(c, None);
        }
    }
  }

  /** A system that can only wait for new callers has no caller left waiting. */
  lemma StuckMeansFinished(s: System)
    requires Inv(s) && forall step :: Draining(step) ==> !Enabled(s, step)
    ensures forall c :: c in s.callers ==> s.callers[c] == Finished
  {
    forall c | c in s.callers
      ensures s.callers[c] == Finished || s.callers[c] == Sleeping
    {
      if s.callers[c] != Finished && s.callers[c] != Sleeping {
        var step := AwakeCallersCanStep(s, c);
      }
    }
    CountPositive(s.callers, KSleeping);
    if Count(s.callers, KSleeping) > 0 {
      SleepersHaveCompany(s);
    }
  }

  /**
   * Nobody waits for ever: once no new callers arrive, every schedule of the callers present (each
   * guard being dropped in the end) stops within `Potential` steps, and where it stops every
   * caller has been served, including those that slept when the arrivals ended.
   */
  lemma EveryCallerIsServed(max: nat, history: seq<Step>, s: System, drain: seq<Step>, t: System)
    requires max >= 1 && Run(Initial(max), history, s)
    requires Run(s, drain, t) && forall i :: 0 <= i < |drain| ==> Draining(drain[i])
    ensures |drain| <= Potential(s.callers)
    ensures (forall step :: Draining(step) ==> !Enabled(t, step)) ==>
              forall c :: c in t.callers ==> t.callers[c] == Finished
  {
    InitialInv(max);
    RunKeepsInv(Initial(max), history, s);
    RunKeepsInv(s, drain, t);
    DrainingRunIsBounded(s, drain, t);
    if forall step :: Draining(step) ==> !Enabled(t, step) {
      StuckMeansFinished(t);
    }
  }
}
