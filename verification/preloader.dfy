/** The preloader's progress counter: an interval callback raises it by 2
    from 0 and, once it sees 100 or more, stops the interval and holds 100. */
module Preloader {

  const Start: int := 0
  const Full: int := 100
  const Step: int := 2

  /** The values the counter can take when started from Start. */
  predicate Reachable(progress: int)
  {
    Start <= progress <= Full && progress % Step == 0
  }

  /** The callback reports completion (and the interval is cleared) exactly
      when the previous value is already Full or more. */
  predicate Completes(prev: int)
  {
    prev >= Full
  }

  /** One run of the updater passed to the progress setter. */
  function Tick(prev: int): (next: int)
    ensures Reachable(prev) ==> Reachable(next) && prev <= next
    ensures Reachable(prev) ==> (next == prev <==> prev == Full)
    ensures Completes(prev) ==> next == Full
  {
    if prev >= Full then Full else prev + Step
  }

  /** The counter after n runs of the updater, starting from Start. */
  function Progress(n: nat): (p: int)
    ensures Reachable(p)
    ensures p == if Step * n >= Full then Full else Step * n
  {
    if n == 0 then Start else Tick(Progress(n - 1))
  }

  /** The counter never decreases. */
  lemma ProgressMonotone(m: nat, n: nat)
    requires m <= n
    ensures Progress(m) <= Progress(n)
  {
  }

  /** Exactly fifty runs reach Full, and Full is a fixed point. */
  lemma ProgressReachesFull(n: nat)
    ensures Progress(n) == Full <==> n >= 50
    ensures Tick(Full) == Full
  {
  }

  /** Runs the interval until the callback clears it; returns how many times
      the callback ran and the final value of the counter. */
  method RunInterval() returns (calls: nat, progress: int)
    ensures calls == 51
    ensures progress == Full && progress == Progress(calls - 1)
  {
    calls := 0;
    progress := Start;
    var cleared := false;
    while !cleared
      invariant !cleared ==> calls <= 50 && progress == Progress(calls) && progress == Step * calls
      invariant cleared ==> calls == 51 && progress == Full
      decreases 51 - calls
    {
      calls := calls + 1;
      if Completes(progress) {
        cleared := true;
      }
      progress := Tick(progress);
    }
  }
}
