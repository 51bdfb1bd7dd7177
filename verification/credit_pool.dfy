/**
 The shared credit counter and the two operations that change it. In the
 program both run inside one mutex, so every interleaving of callers is a
 serial trace of whole operations; the model folds `Step` over such traces.
 */
module CreditPool {

  /** The counter's value when the process starts. */
  const InitialCredits: int := 40

  /** A credit is handed out only while strictly more than this many remain. */
  const SafetyBuffer: int := 5

  /** The process-wide count of calls the client believes it may still make. */
  datatype Pool = Pool(credits: int)

  const Initial: Pool := Pool(InitialCredits)

  /** What one operation reports, and the counter after it. */
  datatype Outcome = Outcome(granted: bool, pool: Pool)

  /** Take one credit when more than the safety buffer remain. */
  function ObtainCredit(p: Pool): (o: Outcome)
    ensures o.granted <==> p.credits > SafetyBuffer
    ensures o.granted ==> o.pool.credits == p.credits - 1
    ensures !o.granted ==> o.pool == p
  {
    if p.credits > SafetyBuffer then Outcome(true, Pool(p.credits - 1)) else Outcome(false, p)
  }

  /** Overwrite the counter with what the server reports is left. */
  function SetCreditsRemaining(p: Pool, used: int, total: int): (q: Pool)
    ensures q.credits == total - used
  {
    Pool(total - used)
  }

  /** One critical section, run by some caller. */
  datatype Op = Acquire | Refresh(used: int, total: int)

  function Step(p: Pool, op: Op): (o: Outcome)
    ensures o.granted ==> op.Acquire? && o.pool.credits == p.credits - 1
    ensures !o.granted && op.Acquire? ==> o.pool == p
    ensures op.Refresh? ==> o.pool.credits == op.total - op.used
  {
    match op
    case Acquire => ObtainCredit(p)
    case Refresh(used, total) => Outcome(false, SetCreditsRemaining(p, used, total))
  }

  /** How many credits a trace handed out, and the counter at its end. */
  datatype Tally = Tally(granted: nat, pool: Pool)

  predicate NoRefresh(ops: seq<Op>) {
    forall i | 0 <= i < |ops| :: ops[i].Acquire?
  }

  /** A serial trace of critical sections, applied in order. */
  function Run(p: Pool, ops: seq<Op>): (t: Tally)
    ensures t.granted <= |ops|
    ensures NoRefresh(ops) ==> t.pool.credits == p.credits - t.granted
    decreases |ops|
  {
    if ops == [] then Tally(0, p)
    else
      var s := Step(p, ops[0]);
      var rest := Run(s.pool, ops[1..]);
      assert NoRefresh(ops) ==> NoRefresh(ops[1..]) && ops[0].Acquire?;
      Tally(rest.granted + (if s.granted then 1 else 0), rest.pool)
  }

  /** `n` callers each trying once to obtain a credit. */
  function Acquires(n: nat): (ops: seq<Op>)
    ensures |ops| == n && NoRefresh(ops)
  {
    seq(n, _ => Acquire)
  }

  /** The credits that `n` attempts can obtain from a counter at `c`. */
  function Obtainable(c: int, n: nat): (k: nat) {
    var above := if c > SafetyBuffer then c - SafetyBuffer else 0;
    if n < above then n else above
  }

  /**
   Attempts alone hand out credits until the buffer is reached and no
   further: the first `c - 5` attempts succeed, the rest fail.
   */
  lemma {:induction false} AcquiresOnly(c: int, n: nat)
    ensures Run(Pool(c), Acquires(n)) == Tally(Obtainable(c, n), Pool(c - Obtainable(c, n)))
    decreases n
  {
    if n > 0 {
      var ops := Acquires(n);
      assert ops[0] == Acquire;
      assert ops[1..] == Acquires(n - 1);
      var s := ObtainCredit(Pool(c));
      AcquiresOnly(s.pool.credits, n - 1);
    }
  }

  /**
   Enough attempts drain a counter at `c` to exactly `min(c, 5)`, granting
   `max(0, c - 5)` credits.
   */
  lemma Exhaustion(c: int, n: nat)
    requires n >= c - SafetyBuffer
    ensures Run(Pool(c), Acquires(n)).granted == (if c > SafetyBuffer then c - SafetyBuffer else 0)
    ensures Run(Pool(c), Acquires(n)).pool.credits == (if c < SafetyBuffer then c else SafetyBuffer)
  {
    AcquiresOnly(c, n);
  }

  /** From the initial 40 credits, 50 attempts obtain 35 and leave 5. */
  lemma InitialBudget()
    ensures Run(Initial, Acquires(50)) == Tally(35, Pool(5))
  {
    Exhaustion(InitialCredits, 50);
  }

  /** Running two traces one after the other is running their concatenation. */
  lemma {:induction false} RunAppend(p: Pool, a: seq<Op>, b: seq<Op>)
    ensures var ra := Run(p, a); var rb := Run(ra.pool, b);
      Run(p, a + b) == Tally(ra.granted + rb.granted, rb.pool)
    decreases |a|
  {
    if a != [] {
      assert (a + b)[0] == a[0];
      assert (a + b)[1..] == a[1..] + b;
      RunAppend(Step(p, a[0]).pool, a[1..], b);
    } else {
      assert a + b == b;
    }
  }

  /**
   No lost updates: the counter at the end of any trace is fixed by the last
   refresh and the attempts after it, whatever came before.
   */
  lemma LastRefreshDecides(p: Pool, before: seq<Op>, used: int, total: int, after: seq<Op>)
    requires NoRefresh(after)
    ensures Run(p, before + [Refresh(used, total)] + after).pool.credits
      == total - used - Run(Pool(total - used), after).granted
  {
    RunAppend(p, before, [Refresh(used, total)]);
    RunAppend(p, before + [Refresh(used, total)], after);
    var q := Run(p, before).pool;
    assert Run(q, [Refresh(used, total)]).pool == Pool(total - used) by {
      assert [Refresh(used, total)][1..] == [];
    }
  }

  /** The same, with the number of successful attempts after the refresh worked out. */
  lemma RefreshThenAcquires(p: Pool, before: seq<Op>, used: int, total: int, n: nat)
    ensures Run(p, before + [Refresh(used, total)] + Acquires(n)).pool.credits
      == total - used - Obtainable(total - used, n)
  {
    LastRefreshDecides(p, before, used, total, Acquires(n));
    AcquiresOnly(total - used, n);
  }
}
