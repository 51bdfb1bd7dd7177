/**
 The wait loop: try to obtain a credit, and while that fails sleep and try
 again. During each sleep other callers run critical sections of their own;
 the model receives them as a finite schedule, one trace per sleep. The loop
 in the program has no bound, so when the schedule runs out before a credit
 is obtained the model reports that the caller is still waiting.
 */
module Admission {
  import opened CreditPool

  /** The traces of all sleeps, one after the other. */
  function Concat(sleeps: seq<seq<Op>>): (ops: seq<Op>)
    decreases |sleeps|
  {
    if sleeps == [] then [] else sleeps[0] + Concat(sleeps[1..])
  }

  /** The counter after the other callers' traces, one per sleep, in order. */
  function AfterSleeps(p: Pool, sleeps: seq<seq<Op>>): (q: Pool)
    decreases |sleeps|
  {
    if sleeps == [] then p else AfterSleeps(Run(p, sleeps[0]).pool, sleeps[1..])
  }

  /** The sleeps only cut one serial trace into pieces. */
  lemma {:induction false} AfterSleepsIsOneTrace(p: Pool, sleeps: seq<seq<Op>>)
    ensures AfterSleeps(p, sleeps) == Run(p, Concat(sleeps)).pool
    decreases |sleeps|
  {
    if sleeps != [] {
      RunAppend(p, sleeps[0], Concat(sleeps[1..]));
      AfterSleepsIsOneTrace(Run(p, sleeps[0]).pool, sleeps[1..]);
    }
  }

  datatype Wait =
    | Admitted(pool: Pool, attempts: nat)
    | StillWaiting(pool: Pool, attempts: nat)

  lemma AfterSleepsShift(p: Pool, sleeps: seq<seq<Op>>)
    requires sleeps != []
    ensures forall k | 1 <= k <= |sleeps| ::
      AfterSleeps(p, sleeps[..k]) == AfterSleeps(Run(p, sleeps[0]).pool, sleeps[1..][..k - 1])
  {
    forall k | 1 <= k <= |sleeps|
      ensures AfterSleeps(p, sleeps[..k]) == AfterSleeps(Run(p, sleeps[0]).pool, sleeps[1..][..k - 1])
    {
      assert sleeps[..k][0] == sleeps[0];
      assert sleeps[..k][1..] == sleeps[1..][..k - 1];
    }
  }

  /**
   Attempt `k` (counting from 0) sees the counter as the other callers left
   it after the first `k` sleeps: the failed attempts before it changed
   nothing. The loop returns right after the first attempt that sees more
   than the safety buffer, having taken one credit.
   */
  function WaitForCredits(p: Pool, sleeps: seq<seq<Op>>): (w: Wait)
    ensures 1 <= w.attempts <= |sleeps| + 1
    ensures forall k | 0 <= k < w.attempts - 1 :: AfterSleeps(p, sleeps[..k]).credits <= SafetyBuffer
    ensures w.Admitted? ==>
      var seen := AfterSleeps(p, sleeps[..w.attempts - 1]);
      seen.credits > SafetyBuffer && w.pool.credits == seen.credits - 1
    ensures w.StillWaiting? ==>
      w.attempts == |sleeps| + 1 && w.pool == AfterSleeps(p, sleeps) && w.pool.credits <= SafetyBuffer
    decreases |sleeps|
  {
    var a := ObtainCredit(p);
    assert sleeps[..0] == [];
    if a.granted then Admitted(a.pool, 1)
    else if sleeps == [] then StillWaiting(p, 1)
    else
      var w := WaitForCredits(Run(p, sleeps[0]).pool, sleeps[1..]);
      AfterSleepsShift(p, sleeps);
      assert sleeps[1..][..|sleeps| - 1] == sleeps[1..];
      assert sleeps[..|sleeps|] == sleeps;
      if w.Admitted? then Admitted(w.pool, w.attempts + 1) else StillWaiting(w.pool, w.attempts + 1)
  }

  /** Other callers that only take credits never raise the counter. */
  lemma {:induction false} AcquiresNeverRaise(p: Pool, sleeps: seq<seq<Op>>)
    requires forall k | 0 <= k < |sleeps| :: NoRefresh(sleeps[k])
    ensures AfterSleeps(p, sleeps).credits <= p.credits
    decreases |sleeps|
  {
    if sleeps != [] {
      AcquiresNeverRaise(Run(p, sleeps[0]).pool, sleeps[1..]);
    }
  }

  /**
   Starvation: a caller that finds the buffer reached waits for as long as
   nobody refreshes the counter.
   */
  lemma StarvesWithoutRefresh(p: Pool, sleeps: seq<seq<Op>>)
    requires p.credits <= SafetyBuffer
    requires forall k | 0 <= k < |sleeps| :: NoRefresh(sleeps[k])
    ensures WaitForCredits(p, sleeps).StillWaiting?
  {
    var w := WaitForCredits(p, sleeps);
    if w.Admitted? {
      var k := w.attempts - 1;
      AcquiresNeverRaise(p, sleeps[..k]);
      assert false;
    }
  }

  /**
   Progress: a caller blocked at 3 credits obtains one at its next attempt
   after another caller's response reports 0 used of 40.
   */
  lemma ProgressAfterRefresh()
    ensures WaitForCredits(Pool(3), [[Refresh(0, 40)]]) == Admitted(Pool(39), 2)
  {
  }
}
