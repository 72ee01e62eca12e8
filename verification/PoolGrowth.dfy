/** How many connections the pool makes: none is lost, and none is made without demand. */
module PoolGrowth {
  import opened Pool

  /** Every connection made is idle or held. */
  ghost predicate Conserved(s: System) {
    s.nextConn == |s.shared.idle| + Count(s.callers, KHolding)
  }

  /** Connections made, and being made. */
  ghost function Demanded(s: System): nat {
    s.nextConn + Count(s.callers, KOpening)
  }

  lemma StepKeepsConserved(s: System, step: Step)
    requires Accounted(s) && Conserved(s) && Enabled(s, step)
    ensures Conserved(After(s, step))
    ensures Demanded(After(s, step)) <= Demanded(s) || Demanded(After(s, step)) <= After(s, step).shared.inUse
  {
    match step
    case OpenFails(c, wakes) => MoveAndWake(s.callers, c, wakes);
    case Notify(c, wakes) => MoveAndWake(s.callers, c, wakes);
    case _ => CountMove(s.callers, step.who, After(s, step).callers[step.who]);
  }

  /** The greatest number of connections in use at any time of a run. */
  ghost function Peak(s: System, steps: seq<Step>): nat
    decreases |steps|
  {
    if steps == [] || !Enabled(s, steps[0]) then s.shared.inUse
    else
      var rest := Peak(After(s, steps[0]), steps[1..]);
      if rest < s.shared.inUse then s.shared.inUse else rest
  }

  lemma {:induction false} RunGrowsOnDemand(s: System, steps: seq<Step>, t: System)
    requires Inv(s) && Conserved(s) && Run(s, steps, t)
    ensures Conserved(t) && (Demanded(t) <= Demanded(s) || Demanded(t) <= Peak(s, steps))
    decreases |steps|
  {
    if steps != [] {
      hide Inv, Conserved, Demanded;
      var next := After(s, steps[0]);
      StepKeepsInv(s, steps[0]);
      InvIsAccounted(s);
      StepKeepsConserved(s, steps[0]);
      RunGrowsOnDemand(next, steps[1..], t);
      PeakIncludesStart(next, steps[1..]);
    }
  }

  lemma InvIsAccounted(s: System)
    requires Inv(s)
    ensures Accounted(s)
  {
  }

  lemma PeakIncludesStart(s: System, steps: seq<Step>)
    ensures s.shared.inUse <= Peak(s, steps)
  {
  }

  /**
   * No connection is ever lost, and the pool grows only under demand: connections made and being
   * made never outnumber those in use at the busiest moment so far (the first one apart).
   */
  lemma PoolGrowsOnlyOnDemand(max: nat, steps: seq<Step>, t: System)
    requires max >= 1 && Run(Initial(max), steps, t)
    ensures t.nextConn == |t.shared.idle| + Count(t.callers, KHolding)
    ensures t.nextConn + Count(t.callers, KOpening) <= 1
         || t.nextConn + Count(t.callers, KOpening) <= Peak(Initial(max), steps)
  {
    InitialInv(max);
    forall k ensures Count(map[], k) == 0 {
      assert Members(map[], k) == {};
    }
    RunGrowsOnDemand(Initial(max), steps, t);
  }
}
