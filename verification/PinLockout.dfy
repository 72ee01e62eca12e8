/**
 * The PIN lockout state machine of identity-core/src/security.rs.  Times are milliseconds; they
 * are unbounded here, where the program uses i64.
 */
module PinLockout {
  import opened Wrappers

  const PIN_MAX_ATTEMPTS: int := 3
  const PIN_HARD_LIMIT: int := 10
  const PIN_LOCKOUT_DELAYS: seq<int> := [5000, 15000, 30000, 60000, 120000]

  datatype Verdict =
    | Accepted
    | Incorrect(lockedUntil: Option<int>)
    | LockedOutUntil(until: int)
    | PermanentlyLocked

  datatype Counters = Counters(attemptCount: int, lastAttemptAt: int, lockoutUntil: Option<int>)

  function Max(a: int, b: int): int {
    if a < b then b else a
  }

  /** The delay scheduled when the attempt counter reaches `count`. */
  function Delay(count: int): int {
    var i := count - PIN_MAX_ATTEMPTS;
    PIN_LOCKOUT_DELAYS[if i < 0 then 0 else if i > |PIN_LOCKOUT_DELAYS| - 1 then |PIN_LOCKOUT_DELAYS| - 1 else i]
  }

  function Applied(s: Counters, now: int, correct: bool, permanentLocked: bool): (Counters, Verdict) {
    var t := Max(now, s.lastAttemptAt);
    if permanentLocked then (s, PermanentlyLocked)
    else if s.lockoutUntil.Some? && t < s.lockoutUntil.value then
      (s.(attemptCount := s.attemptCount + 1, lastAttemptAt := t),
       if s.attemptCount + 1 >= PIN_HARD_LIMIT then PermanentlyLocked else LockedOutUntil(s.lockoutUntil.value))
    else if correct then (Counters(0, t, None), Accepted)
    else
      var count := s.attemptCount + 1;
      var counted := s.(attemptCount := count, lastAttemptAt := t);
      if count >= PIN_HARD_LIMIT then (counted, PermanentlyLocked)
      else if count >= PIN_MAX_ATTEMPTS then
        (counted.(lockoutUntil := Some(t + Delay(count))), Incorrect(Some(t + Delay(count))))
      else (counted, Incorrect(None))
  }

  class PinLockoutState {
    var attemptCount: int
    var lastAttemptAt: int
    var lockoutUntil: Option<int>

    ghost function View(): Counters
      reads this
    {
      Counters(attemptCount, lastAttemptAt, lockoutUntil)
    }

    constructor ()
      ensures View() == Counters(0, 0, None)
    {
      attemptCount, lastAttemptAt, lockoutUntil := 0, 0, None;
    }

    method ApplyPinAttempt(clock: int, correct: bool, permanentLocked: bool) returns (v: Verdict)
      modifies this
      ensures (View(), v) == Applied(old(View()), clock, correct, permanentLocked)
    {
      if permanentLocked {
        return PermanentlyLocked;
      }
      var now := if clock < lastAttemptAt then lastAttemptAt else clock;
      if lockoutUntil.Some? {
        var until := lockoutUntil.value;
        if now < until {
          attemptCount := attemptCount + 1;
          lastAttemptAt := now;
          if attemptCount >= PIN_HARD_LIMIT {
            return PermanentlyLocked;
          }
          return LockedOutUntil(until);
        }
      }
      if correct {
        attemptCount := 0;
        lastAttemptAt := now;
        lockoutUntil := None;
        return Accepted;
      }
      attemptCount := attemptCount + 1;
      lastAttemptAt := now;
      if attemptCount >= PIN_HARD_LIMIT {
        return PermanentlyLocked;
      }
      if attemptCount >= PIN_MAX_ATTEMPTS {
        var until := now + Delay(attemptCount);
        lockoutUntil := Some(until);
        return Incorrect(Some(until));
      }
      return Incorrect(None);
    }
  }

  // ---------------------------------------------------------------------------------------------
  // Whole runs, the caller persisting the permanent lock
  // ---------------------------------------------------------------------------------------------

  datatype Attempt = Attempt(now: int, correct: bool)

  datatype Account = Account(counters: Counters, locked: bool)

  function Next(a: Account, x: Attempt): Account {
    var (c, v) := Applied(a.counters, x.now, x.correct, a.locked);
    Account(c, a.locked || v == PermanentlyLocked)
  }

  function VerdictOn(a: Account, x: Attempt): Verdict {
    Applied(a.counters, x.now, x.correct, a.locked).1
  }

  function After(a: Account, xs: seq<Attempt>): Account {
    if xs == [] then a else Next(After(a, xs[..|xs| - 1]), xs[|xs| - 1])
  }

  /** The verdict on the last attempt of a run. */
  function LastVerdict(a: Account, xs: seq<Attempt>): Verdict
    requires xs != []
  {
    VerdictOn(After(a, xs[..|xs| - 1]), xs[|xs| - 1])
  }

  /** The state machine's time: the latest clock reading so far, whatever the clock does. */
  function LatestClock(start: int, xs: seq<Attempt>): int {
    if xs == [] then start else Max(LatestClock(start, xs[..|xs| - 1]), xs[|xs| - 1].now)
  }

  /** Neither locked for good nor inside a lockout window: the PIN is looked at. */
  predicate Evaluates(a: Account, x: Attempt) {
    !a.locked && (a.counters.lockoutUntil.Some? ==>
                    a.counters.lockoutUntil.value <= Max(x.now, a.counters.lastAttemptAt))
  }

  /** A PIN is accepted exactly when it is correct and looked at. */
  lemma AcceptedIffEvaluated(a: Account, x: Attempt)
    ensures VerdictOn(a, x) == Accepted <==> Evaluates(a, x) && x.correct
  {
  }

  lemma {:induction false} TimeIsLatestClock(a: Account, xs: seq<Attempt>)
    requires !After(a, xs).locked
    ensures After(a, xs).counters.lastAttemptAt == LatestClock(a.counters.lastAttemptAt, xs)
  {
    if xs != [] {
      TimeIsLatestClock(a, xs[..|xs| - 1]);
    }
  }

  lemma {:induction false} ClockReachedBySome(start: int, xs: seq<Attempt>, t: int) returns (i: nat)
    requires start < t <= LatestClock(start, xs)
    ensures i < |xs| && xs[i].now >= t
  {
    if xs[|xs| - 1].now >= t {
      i := |xs| - 1;
    } else {
      i := ClockReachedBySome(start, xs[..|xs| - 1], t);
    }
  }

  /** No attempt of the run is accepted. */
  predicate NoSuccess(a: Account, xs: seq<Attempt>) {
    xs != [] ==> NoSuccess(a, xs[..|xs| - 1]) && LastVerdict(a, xs) != Accepted
  }

  /**
   * A lockout window holds, even against a clock set back: after a wrong guess that locks the
   * account until `until`, no PIN is accepted before some later attempt shows a clock of at least
   * `until`.
   */
  lemma NoSuccessInsideWindow(a: Account, guess: Attempt, until: int, later: seq<Attempt>)
    requires VerdictOn(a, guess) == Incorrect(Some(until))
    requires later != [] && LastVerdict(Next(a, guess), later) == Accepted
    ensures exists i :: 0 <= i < |later| && later[i].now >= until
  {
    var b := Next(a, guess);
    var run := UpToSuccess(b, later);
    WindowStands(b, run[..|run| - 1], until);
    AcceptedIffEvaluated(After(b, run[..|run| - 1]), run[|run| - 1]);
    TimeIsLatestClock(b, run[..|run| - 1]);
    var j := ClockReachedBySome(b.counters.lastAttemptAt, run, until);
    assert later[j] == run[j];
  }

  /** The run up to its first success. */
  lemma {:induction false} UpToSuccess(a: Account, xs: seq<Attempt>) returns (run: seq<Attempt>)
    requires xs != [] && LastVerdict(a, xs) == Accepted
    ensures run != [] && run <= xs && LastVerdict(a, run) == Accepted && NoSuccess(a, run[..|run| - 1])
    decreases |xs|
  {
    var before := xs[..|xs| - 1];
    if NoSuccess(a, before) {
      run := xs;
    } else {
      var earlier := SomeSuccess(a, before);
      run := UpToSuccess(a, earlier);
    }
  }

  lemma {:induction false} SomeSuccess(a: Account, xs: seq<Attempt>) returns (run: seq<Attempt>)
    requires !NoSuccess(a, xs)
    ensures run != [] && run <= xs && LastVerdict(a, run) == Accepted
  {
    if LastVerdict(a, xs) == Accepted {
      run := xs;
    } else {
      run := SomeSuccess(a, xs[..|xs| - 1]);
    }
  }

  /** Without a success the window of a lockout never moves back. */
  lemma {:induction false} WindowStands(a: Account, xs: seq<Attempt>, until: int)
    requires a.counters.lockoutUntil.Some? && a.counters.lockoutUntil.value >= until
    requires NoSuccess(a, xs)
    ensures After(a, xs).counters.lockoutUntil.Some? && After(a, xs).counters.lockoutUntil.value >= until
  {
    if xs != [] {
      WindowStands(a, xs[..|xs| - 1], until);
      WindowStep(After(a, xs[..|xs| - 1]), xs[|xs| - 1]);
    }
  }

  lemma WindowStep(a: Account, x: Attempt)
    requires a.counters.lockoutUntil.Some? && VerdictOn(a, x) != Accepted
    ensures Next(a, x).counters.lockoutUntil.Some?
    ensures Next(a, x).counters.lockoutUntil.value >= a.counters.lockoutUntil.value
  {
  }

  // ---------------------------------------------------------------------------------------------
  // The hard limit
  // ---------------------------------------------------------------------------------------------

  function Fresh(lastAttemptAt: int): Account {
    Account(Counters(0, lastAttemptAt, None), false)
  }

  /** Refused attempts since the last success: wrong PINs, and any PIN inside a window. */
  function Failures(a: Account, xs: seq<Attempt>): nat {
    if xs == [] then 0
    else if LastVerdict(a, xs) == Accepted then 0
    else Failures(a, xs[..|xs| - 1]) + 1
  }

  lemma {:induction false} CounterIsFailures(start: int, xs: seq<Attempt>)
    ensures var a := After(Fresh(start), xs);
      && (a.locked <==> Failures(Fresh(start), xs) >= PIN_HARD_LIMIT)
      && (!a.locked ==> a.counters.attemptCount == Failures(Fresh(start), xs))
  {
    if xs != [] {
      CounterIsFailures(start, xs[..|xs| - 1]);
    }
  }

  /** The account is locked exactly by the tenth failure since the last success, and for good. */
  lemma TenthFailureLocks(start: int, xs: seq<Attempt>, more: seq<Attempt>)
    ensures After(Fresh(start), xs).locked <==> Failures(Fresh(start), xs) >= PIN_HARD_LIMIT
    ensures After(Fresh(start), xs).locked && more != [] ==>
              LastVerdict(Fresh(start), xs + more) == PermanentlyLocked
  {
    CounterIsFailures(start, xs);
    if After(Fresh(start), xs).locked && more != [] {
      LockedStays(Fresh(start), xs, more[..|more| - 1]);
      assert (xs + more)[..|xs + more| - 1] == xs + more[..|more| - 1];
    }
  }

  lemma {:induction false} LockedStays(a: Account, xs: seq<Attempt>, more: seq<Attempt>)
    requires After(a, xs).locked
    ensures After(a, xs + more).locked
  {
    if more == [] {
      assert xs + more == xs;
    } else {
      LockedStays(a, xs, more[..|more| - 1]);
      assert (xs + more)[..|xs + more| - 1] == xs + more[..|more| - 1];
    }
  }

  /**
   * The verdicts in figures, after any run from a fresh account: with this failure the n-th since
   * the last success, a wrong guess that is looked at locks from the third on, for ever longer.
   */
  lemma VerdictsInFigures(start: int, xs: seq<Attempt>, x: Attempt)
    requires !After(Fresh(start), xs).locked
    ensures
      var (a, n) := (After(Fresh(start), xs), Failures(Fresh(start), xs) + 1);
      var (v, t) := (VerdictOn(a, x), LatestClock(start, xs + [x]));
      if !Evaluates(a, x) then
        v == if n >= 10 then PermanentlyLocked else LockedOutUntil(a.counters.lockoutUntil.value)
      else if x.correct then v == Accepted
      else if n <= 2 then v == Incorrect(None)
      else if n == 3 then v == Incorrect(Some(t + 5_000))
      else if n == 4 then v == Incorrect(Some(t + 15_000))
      else if n == 5 then v == Incorrect(Some(t + 30_000))
      else if n == 6 then v == Incorrect(Some(t + 60_000))
      else if n <= 9 then v == Incorrect(Some(t + 120_000))
      else n == 10 && v == PermanentlyLocked
  {
    CounterIsFailures(start, xs);
    TimeIsLatestClock(Fresh(start), xs);
    assert (xs + [x])[..|xs|] == xs;
  }

  // ---------------------------------------------------------------------------------------------
  // The lock not persisted
  // ---------------------------------------------------------------------------------------------

  /** The counters after attempts for which the caller never passes on that the account is locked. */
  function AfterUnpersisted(c: Counters, xs: seq<Attempt>): Counters {
    if xs == [] then c
    else Applied(AfterUnpersisted(c, xs[..|xs| - 1]), xs[|xs| - 1].now, xs[|xs| - 1].correct, false).0
  }

  /** `n` wrong guesses, far enough apart for every window to pass. */
  function SpacedGuesses(n: nat): seq<Attempt> {
    seq(n, i => Attempt(200_000 * i, false))
  }

  lemma {:induction false} SpacedGuessesCount(n: nat)
    ensures var c := AfterUnpersisted(Fresh(0).counters, SpacedGuesses(n));
      && c.attemptCount == n && c.lastAttemptAt <= 200_000 * n
      && (c.lockoutUntil.Some? ==> c.lockoutUntil.value <= 200_000 * n)
  {
    if n > 0 {
      SpacedGuessesCount(n - 1);
      assert SpacedGuesses(n)[..n - 1] == SpacedGuesses(n - 1);
      assert SpacedGuesses(n)[n - 1] == Attempt(200_000 * (n - 1), false);
    }
  }

  /**
   * Persisting the lock is needed.  The run: any number of wrong guesses, spaced; from the tenth
   * on each is answered with the permanent lock, and still the next correct PIN is accepted.
   */
  lemma UnpersistedLockOpens(n: nat)
    ensures var c := AfterUnpersisted(Fresh(0).counters, SpacedGuesses(n));
      && (n + 1 >= PIN_HARD_LIMIT ==> Applied(c, 200_000 * n, false, false).1 == PermanentlyLocked)
      && Applied(c, 200_000 * n, true, false).1 == Accepted
  {
    SpacedGuessesCount(n);
  }

  // ---------------------------------------------------------------------------------------------
  // The rate of guessing
  // ---------------------------------------------------------------------------------------------

  /** Wrong guesses that were looked at. */
  function Guesses(a: Account, xs: seq<Attempt>): nat {
    if xs == [] then 0
    else
      var before := xs[..|xs| - 1];
      Guesses(a, before) + if Evaluates(After(a, before), xs[|xs| - 1]) then 1 else 0
  }

  /** The time of the first and of the last guess looked at. */
  function FirstGuess(a: Account, xs: seq<Attempt>): int
    requires Guesses(a, xs) > 0
  {
    var before := xs[..|xs| - 1];
    if Guesses(a, before) > 0 then FirstGuess(a, before)
    else Max(xs[|xs| - 1].now, After(a, before).counters.lastAttemptAt)
  }

  function LastGuess(a: Account, xs: seq<Attempt>): int
    requires Guesses(a, xs) > 0
  {
    var before := xs[..|xs| - 1];
    if Evaluates(After(a, before), xs[|xs| - 1]) then Max(xs[|xs| - 1].now, After(a, before).counters.lastAttemptAt)
    else LastGuess(a, before)
  }

  /** The delays due after guesses 3 to n - 1. */
  function DelaysDue(n: nat): int {
    if n <= PIN_MAX_ATTEMPTS then 0 else DelaysDue(n - 1) + Delay(n - 1)
  }

  lemma DelayGrows(a: int, b: int)
    requires a <= b
    ensures Delay(a) <= Delay(b)
  {
  }

  /** `n` guesses were looked at, the last at `last`, the first at least the due delays earlier. */
  predicate Paced(a: Account, n: nat, first: int, last: int) {
    && n <= PIN_HARD_LIMIT
    && (!a.locked ==> n <= a.counters.attemptCount < PIN_HARD_LIMIT)
    && (n > 0 ==> last - first >= DelaysDue(n) && a.counters.lastAttemptAt >= last)
    && (n >= PIN_MAX_ATTEMPTS && !a.locked ==>
          a.counters.lockoutUntil.Some? && a.counters.lockoutUntil.value >= last + Delay(n))
  }

  lemma PacedStep(a: Account, n: nat, first: int, last: int, x: Attempt)
    requires Paced(a, n, first, last) && VerdictOn(a, x) != Accepted
    ensures var t := Max(x.now, a.counters.lastAttemptAt);
      if !Evaluates(a, x) then Paced(Next(a, x), n, first, last)
      else Paced(Next(a, x), n + 1, if n > 0 then first else t, t)
  {
    if !a.locked {
      DelayGrows(n + 1, a.counters.attemptCount + 1);
    }
  }

  /** What holds after every prefix of a run without a success. */
  lemma {:induction false} GuessingIsPaced(start: int, xs: seq<Attempt>)
    requires NoSuccess(Fresh(start), xs)
    ensures var a, n := Fresh(start), Guesses(Fresh(start), xs);
      Paced(After(a, xs), n, if n > 0 then FirstGuess(a, xs) else 0, if n > 0 then LastGuess(a, xs) else 0)
  {
    if xs != [] {
      var a, before := Fresh(start), xs[..|xs| - 1];
      var n := Guesses(a, before);
      GuessingIsPaced(start, before);
      PacedStep(After(a, before), n, if n > 0 then FirstGuess(a, before) else 0,
                if n > 0 then LastGuess(a, before) else 0, xs[|xs| - 1]);
    }
  }

  lemma DelaysInFigures()
    ensures DelaysDue(4) == 5_000 && DelaysDue(5) == 20_000 && DelaysDue(6) == 50_000 && DelaysDue(7) == 110_000
    ensures DelaysDue(8) == 230_000 && DelaysDue(9) == 350_000 && DelaysDue(10) == 470_000
  {
    assert DelaysDue(3) == 0;
  }

  /** The attempts of the run at which the PIN was looked at. */
  function LookedAt(start: int, xs: seq<Attempt>): set<nat> {
    set i: nat | i < |xs| && Evaluates(After(Fresh(start), xs[..i]), xs[i])
  }

  lemma LookedAtOneMore(start: int, xs: seq<Attempt>)
    requires xs != []
    ensures var (before, n) := (xs[..|xs| - 1], |xs| - 1);
      && LookedAt(start, xs)
         == LookedAt(start, before) + (if Evaluates(After(Fresh(start), before), xs[n]) then {n} else {})
      && n !in LookedAt(start, before)
      && forall i: nat :: i <= n ==> xs[..i] == before[..i]
  {
    var before := xs[..|xs| - 1];
    forall i: nat | i < |xs| ensures xs[..i] == before[..i] {
    }
    assert before[..|before|] == before;
  }

  /** `Guesses` counts those attempts; `FirstGuess` and `LastGuess` are the times of the first and the last. */
  lemma {:induction false} GuessesAreLookedAt(start: int, xs: seq<Attempt>) returns (i: nat, j: nat)
    ensures Guesses(Fresh(start), xs) == |LookedAt(start, xs)|
    ensures LookedAt(start, xs) != {} ==>
      && i in LookedAt(start, xs) && j in LookedAt(start, xs)
      && (forall k :: k in LookedAt(start, xs) ==> i <= k <= j)
      && Guesses(Fresh(start), xs) > 0
      && FirstGuess(Fresh(start), xs) == LatestClock(start, xs[..i + 1])
      && LastGuess(Fresh(start), xs) == LatestClock(start, xs[..j + 1])
  {
    hide LookedAt, Guesses, FirstGuess, LastGuess, LatestClock, After, Evaluates;
    i, j := 0, 0;
    if xs == [] {
      NothingLookedAt(start);
    } else {
      var before, n := xs[..|xs| - 1], |xs| - 1;
      i, j := GuessesAreLookedAt(start, before);
      LookedAtOneMore(start, xs);
      LookedAtWithin(start, before);
      GuessesOneMore(start, xs);
      var looked := LookedAt(start, before);
      if Evaluates(After(Fresh(start), before), xs[n]) {
        assert |looked + {n}| == |looked| + 1;
        assert xs[..n + 1] == xs;
        i, j := if looked == {} then n else i, n;
      }
    }
  }

  lemma NothingLookedAt(start: int)
    ensures Guesses(Fresh(start), []) == 0 && LookedAt(start, []) == {}
  {
  }

  lemma GuessesOneMore(start: int, xs: seq<Attempt>)
    requires xs != []
    ensures
      var (a, before) := (Fresh(start), xs[..|xs| - 1]);
      var (n, now) := (Guesses(a, before), LatestClock(start, xs));
      if Evaluates(After(a, before), xs[|xs| - 1]) then
        Guesses(a, xs) == n + 1 && LastGuess(a, xs) == now
        && FirstGuess(a, xs) == if n > 0 then FirstGuess(a, before) else now
      else
        Guesses(a, xs) == n
        && (n > 0 ==> FirstGuess(a, xs) == FirstGuess(a, before) && LastGuess(a, xs) == LastGuess(a, before))
  {
    if Evaluates(After(Fresh(start), xs[..|xs| - 1]), xs[|xs| - 1]) {
      TimeIsLatestClock(Fresh(start), xs[..|xs| - 1]);
    }
  }

  lemma LookedAtWithin(start: int, xs: seq<Attempt>)
    ensures forall k :: k in LookedAt(start, xs) ==> k < |xs|
  {
  }

  /**
   * Guessing is slow: without a success in between, at most ten guesses are looked at, and from the
   * first to the last of them the latest clock shown advances by at least the delays due after
   * guesses 3 to n - 1.
   */
  lemma GuessesTakeTime(start: int, xs: seq<Attempt>) returns (i: nat, j: nat)
    requires NoSuccess(Fresh(start), xs) && LookedAt(start, xs) != {}
    ensures i in LookedAt(start, xs) && j in LookedAt(start, xs)
    ensures forall k :: k in LookedAt(start, xs) ==> i <= k <= j < |xs|
    ensures
      var (n, span) := (|LookedAt(start, xs)|, LatestClock(start, xs[..j + 1]) - LatestClock(start, xs[..i + 1]));
      && n <= 10
      && (n >= 4 ==> span >= 5_000) && (n >= 5 ==> span >= 20_000) && (n >= 6 ==> span >= 50_000)
      && (n >= 7 ==> span >= 110_000) && (n >= 8 ==> span >= 230_000) && (n >= 9 ==> span >= 350_000)
      && (n >= 10 ==> span >= 470_000)
  {
    hide LookedAt, Guesses, FirstGuess, LastGuess, DelaysDue, Delay, LatestClock, After, NoSuccess;
    i, j := GuessesAreLookedAt(start, xs);
    LookedAtWithin(start, xs);
    GuessingIsPaced(start, xs);
    DelaysInFigures();
  }

}
