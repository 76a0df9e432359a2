/** src/fiber.c, how late a fiber runs: the lateness of each call as a function of the
    execution times before it. */
module Backlog {
  import opened CInt
  import opened Common
  import opened Arith
  import opened Fiber
  import opened FiberTheorems

  function Max(a: int, b: int): int {
    if a < b then b else a
  }

  /** How long after its release activation `k` calls the function. */
  function Lateness(run: Run, k: nat): int
    requires k < |run.acts|
  {
    run.StartOf(k) - run.ReleaseAt(k).Total()
  }

  /** Execution time beyond the period, summed over the activations from `j` up to `n`. */
  function Excess(run: Run, j: nat, n: nat): int
    requires j <= n <= |run.acts|
  {
    if j == n then 0 else Excess(run, j, n - 1) + run.acts[n - 1].exec - run.dt
  }

  predicate Undisturbed(run: Run) {
    forall k :: 0 <= k < |run.acts| ==> run.acts[k].signal.None?
  }

  /** With a safe period, an activation starts before its release exactly when a signal ended
      its sleep early; signals never move a release. */
  lemma EarlyExactlyWhenSignalled(run: Run, k: nat)
    requires SafePeriod(run.dt, run.long) && k < |run.acts|
    ensures var release, signal := run.ReleaseAt(k).Total(), run.acts[k].signal;
            && release == run.ReleaseAt(0).Total() + k * run.dt
            && (Lateness(run, k) < 0 <==> signal.Some? && run.Ready(k) <= signal.value < release)
            && run.StartOf(k) >= run.Ready(k)
  {
    SafeReleases(run.clock / NSEC_PER_SEC, run.dt, run.long, k);
  }

  /** Every start of a safe period: at the signal if one comes during the sleep, and otherwise
      at the release or as soon as the fiber is ready, whichever is later. */
  lemma StartTimes(run: Run, k: nat)
    requires SafePeriod(run.dt, run.long) && k < |run.acts|
    ensures var release, ready, signal := run.ReleaseAt(k).Total(), run.Ready(k), run.acts[k].signal;
            run.StartOf(k) ==
            if signal.Some? && ready <= signal.value < release then signal.value
            else if ready < release then release
            else ready
  {
    SafeReleases(run.clock / NSEC_PER_SEC, run.dt, run.long, k);
  }

  /** After a sleep cut short by a signal the next release is where it was, and the next
      activation, if no signal comes again, is late only by what reaches beyond it. */
  lemma AfterSignal(run: Run, k: nat, signal: int)
    requires SafePeriod(run.dt, run.long) && k + 1 < |run.acts|
    requires run.acts[k].signal == Some(signal) && run.Ready(k) <= signal < run.ReleaseAt(k).Total()
    requires run.acts[k + 1].signal.None?
    ensures run.ReleaseAt(k + 1).Total() == run.ReleaseAt(k).Total() + run.dt
    ensures Lateness(run, k + 1) == Max(0, signal + run.acts[k].exec - run.ReleaseAt(k + 1).Total())
  {
    StartTimes(run, k);
    StartTimes(run, k + 1);
    EarlyExactlyWhenSignalled(run, k);
    EarlyExactlyWhenSignalled(run, k + 1);
    assert run.Ready(k + 1) == run.StartOf(k) + run.acts[k].exec;
    assert (k + 1) * run.dt == k * run.dt + run.dt;
  }

  lemma UndisturbedStart(run: Run, k: nat)
    requires SafePeriod(run.dt, run.long) && Undisturbed(run) && k < |run.acts|
    ensures run.ReleaseAt(k).Total() == run.ReleaseAt(0).Total() + k * run.dt
    ensures Lateness(run, k) == Max(0, run.Ready(k) - run.ReleaseAt(k).Total())
  {
    SafeReleases(run.clock / NSEC_PER_SEC, run.dt, run.long, k);
  }

  /** The recurrence: what an activation overruns is owed by the next one. */
  lemma LatenessRecurrence(run: Run, k: nat)
    requires SafePeriod(run.dt, run.long) && Undisturbed(run) && k < |run.acts|
    ensures Lateness(run, 0) == Max(0, run.begin - run.ReleaseAt(0).Total())
    ensures Lateness(run, k) >= 0
    ensures k + 1 < |run.acts| ==>
              Lateness(run, k + 1) == Max(0, Lateness(run, k) + run.acts[k].exec - run.dt)
  {
    UndisturbedStart(run, 0);
    UndisturbedStart(run, k);
    if k + 1 < |run.acts| {
      UndisturbedStart(run, k + 1);
      assert run.Ready(k + 1) == run.StartOf(k) + run.acts[k].exec;
      assert (k + 1) * run.dt == k * run.dt + run.dt;
    }
  }

  /** What a stretch of activations from `j` up to `n` leaves owing: its excess, and for a
      stretch from the very beginning also the lateness of the first activation. */
  function Debt(run: Run, j: nat, n: nat): int
    requires j <= n < |run.acts|
  {
    Excess(run, j, n) + if j == 0 then Lateness(run, 0) else 0
  }

  /** The closed form: an activation is late by the greatest debt over all stretches of
      activations ending just before it. */
  lemma {:induction false} LatenessIsGreatestDebt(run: Run, n: nat)
    requires SafePeriod(run.dt, run.long) && Undisturbed(run) && n < |run.acts|
    ensures forall j :: 0 <= j <= n ==> Debt(run, j, n) <= Lateness(run, n)
    ensures exists j :: 0 <= j <= n && Debt(run, j, n) == Lateness(run, n)
  {
    LatenessRecurrence(run, n);
    if n == 0 {
      assert Debt(run, 0, 0) == Lateness(run, 0);
    } else {
      LatenessRecurrence(run, n - 1);
      LatenessIsGreatestDebt(run, n - 1);
      var i :| 0 <= i <= n - 1 && Debt(run, i, n - 1) == Lateness(run, n - 1);
      DebtStep(run, i, n);
      assert Debt(run, n, n) == 0;
      assert Lateness(run, n) == Debt(run, i, n) || Lateness(run, n) == Debt(run, n, n);
      forall j | 0 <= j <= n
        ensures Debt(run, j, n) <= Lateness(run, n)
      {
        if j < n {
          DebtStep(run, j, n);
        }
      }
    }
  }

  lemma DebtStep(run: Run, j: nat, n: nat)
    requires j < n < |run.acts|
    ensures Debt(run, j, n) == Debt(run, j, n - 1) + run.acts[n - 1].exec - run.dt
  {
  }

  /** A fiber that goes to sleep before its first release owes nothing at first, so it is late
      by the greatest excess alone. */
  lemma LatenessIsGreatestExcess(run: Run, n: nat)
    requires SafePeriod(run.dt, run.long) && Undisturbed(run) && n < |run.acts|
    requires run.begin <= run.ReleaseAt(0).Total()
    ensures forall j :: 0 <= j <= n ==> Excess(run, j, n) <= Lateness(run, n)
    ensures exists j :: 0 <= j <= n && Excess(run, j, n) == Lateness(run, n)
  {
    LatenessRecurrence(run, 0);
    LatenessIsGreatestDebt(run, n);
    forall j | 0 <= j <= n
      ensures Excess(run, j, n) == Debt(run, j, n)
    {
    }
  }

  predicate LateAtMost(run: Run, bound: int) {
    forall n :: 0 <= n < |run.acts| ==> Lateness(run, n) <= bound
  }

  predicate DebtAtMost(run: Run, bound: int) {
    forall j, n :: 0 <= j <= n < |run.acts| ==> Debt(run, j, n) <= bound
  }

  /** Lateness stays within a bound for the whole run exactly when no stretch of activations
      leaves a greater debt. */
  lemma BoundedLateness(run: Run, bound: int)
    requires SafePeriod(run.dt, run.long) && Undisturbed(run)
    ensures LateAtMost(run, bound) <==> DebtAtMost(run, bound)
  {
    if LateAtMost(run, bound) {
      forall j, n | 0 <= j <= n < |run.acts|
        ensures Debt(run, j, n) <= bound
      {
        LatenessIsGreatestDebt(run, n);
        assert Lateness(run, n) <= bound;
      }
    }
    if DebtAtMost(run, bound) {
      forall n | 0 <= n < |run.acts|
        ensures Lateness(run, n) <= bound
      {
        LatenessIsGreatestDebt(run, n);
      }
    }
  }

  predicate ExecutionsFit(run: Run) {
    forall k :: 0 <= k < |run.acts| ==> run.acts[k].exec <= run.dt
  }

  /** When every execution fits the period, lateness never grows: what the first activation
      was late by is worked off by the time left over, and then every activation starts
      exactly at its release. */
  lemma {:induction false} LatenessIsWorkedOff(run: Run, n: nat)
    requires SafePeriod(run.dt, run.long) && Undisturbed(run) && n < |run.acts|
    requires ExecutionsFit(run)
    ensures Lateness(run, n) == Max(0, Lateness(run, 0) + Excess(run, 0, n))
    ensures n > 0 ==> Lateness(run, n) <= Lateness(run, n - 1)
  {
    LatenessRecurrence(run, n);
    if n > 0 {
      LatenessIsWorkedOff(run, n - 1);
      LatenessRecurrence(run, n - 1);
    }
  }

  /** Activation `n` starts exactly `n` periods after the first release. */
  predicate Punctual(run: Run, n: nat)
    requires n < |run.acts|
  {
    run.StartOf(n) == run.ReleaseAt(0).Total() + n * run.dt
  }

  /** In particular such a fiber is punctual throughout exactly when it goes to sleep by its
      first release. */
  lemma PunctualWhenExecutionsFit(run: Run)
    requires SafePeriod(run.dt, run.long) && Undisturbed(run) && run.acts != []
    requires ExecutionsFit(run)
    ensures (forall n :: 0 <= n < |run.acts| ==> Punctual(run, n)) <==> run.begin <= run.ReleaseAt(0).Total()
  {
    LatenessRecurrence(run, 0);
    UndisturbedStart(run, 0);
    assert Punctual(run, 0) <==> run.begin <= run.ReleaseAt(0).Total();
    if run.begin <= run.ReleaseAt(0).Total() {
      forall n | 0 <= n < |run.acts|
        ensures Punctual(run, n)
      {
        StaysPunctual(run, n);
        UndisturbedStart(run, n);
      }
    }
  }

  lemma {:induction false} StaysPunctual(run: Run, n: nat)
    requires SafePeriod(run.dt, run.long) && Undisturbed(run) && n < |run.acts|
    requires ExecutionsFit(run) && Lateness(run, 0) == 0
    ensures Lateness(run, n) == 0
  {
    if n > 0 {
      StaysPunctual(run, n - 1);
      LatenessRecurrence(run, n - 1);
    }
  }

  // ---------- when an activation starts without sleeping ----------

  /** A stored release is normalised or has negative nanoseconds, which the normalisation
      leaves alone. */
  lemma NormalisedUnlessNegative(sec: int, dt: Int32, long: LongWidth, k: nat)
    ensures Release(sec, dt, long, k).Normalised() <==> Release(sec, dt, long, k).nsec >= 0
  {
    if k > 0 {
      var t := Release(sec, dt, long, k - 1);
      NormConserves(Time(t.sec, long.ToLong(t.nsec + dt)));
    }
  }

  /** For every period and every activation of an undisturbed fiber: it starts without sleeping
      exactly when the sleep refuses the stored time, because its nanoseconds are negative, or
      that time has come already. */
  lemma StartsWithoutSleepExactlyWhen(run: Run, k: nat)
    requires Undisturbed(run) && k < |run.acts|
    ensures run.StartOf(k) == run.Ready(k)
            <==> run.ReleaseAt(k).nsec < 0 || run.ReleaseAt(k).Total() <= run.Ready(k)
  {
    NormalisedUnlessNegative(run.clock / NSEC_PER_SEC, run.dt, run.long, k);
  }

  /** For every period, with or without signals: a stored time with negative nanoseconds is no
      sleep at all, and any other is slept to unless it has come or a signal comes first. */
  lemma StartTimesOfAnyPeriod(run: Run, k: nat)
    requires k < |run.acts|
    ensures var release, ready, signal := run.ReleaseAt(k), run.Ready(k), run.acts[k].signal;
            run.StartOf(k) ==
            if release.nsec < 0 || release.Total() <= ready then ready
            else if signal.Some? && ready <= signal.value < release.Total() then signal.value
            else release.Total()
  {
    NormalisedUnlessNegative(run.clock / NSEC_PER_SEC, run.dt, run.long, k);
  }

  /** The first activation at which the nanoseconds of a negative period leave the range of
      `long`. */
  function FirstWrap(dt: Int32, long: LongWidth): nat
    requires dt < 0
  {
    (long.Max() + 1) / -(dt as int) + 1
  }

  lemma BeforeFirstWrap(dt: Int32, long: LongWidth, k: nat)
    requires dt < 0
    ensures k < FirstWrap(dt, long) <==> -long.Max() - 1 <= k * dt
  {
    var m, p := long.Max() + 1, -(dt as int);
    var q := m / p;
    assert p * q <= m < p * (q + 1);
    assert k * dt == -(p * k);
    if k <= q {
      MulIsMonotone(p, k, q);
    } else {
      MulIsMonotone(p, q + 1, k);
    }
  }

  /** A negative period: until the first wrap the stored nanoseconds go further and further
      below zero, so from the second activation on the function runs back to back whatever
      signals arrive; at the first wrap they turn non-negative, and the fiber has a time to
      sleep for again, one full range of `long` after the time it should hold. */
  lemma NegativePeriod(run: Run, k: nat)
    requires run.dt < 0 && 1 <= k < |run.acts|
    ensures k < FirstWrap(run.dt, run.long) ==>
              && run.ReleaseAt(k) == Time(run.clock / NSEC_PER_SEC + 1, k * run.dt)
              && run.ReleaseAt(k).nsec < 0
              && run.StartOf(k) == run.Ready(k)
    ensures k == FirstWrap(run.dt, run.long) ==>
              && run.ReleaseAt(k).Normalised()
              && run.ReleaseAt(k).Total() == run.ReleaseAt(0).Total() + k * run.dt + 2 * (run.long.Max() + 1)
  {
    var sec := run.clock / NSEC_PER_SEC;
    BeforeFirstWrap(run.dt, run.long, k);
    MulIsMonotone(k, run.dt, -1);
    if k < FirstWrap(run.dt, run.long) {
      NegativeReleases(sec, run.dt, run.long, k);
    } else if k == FirstWrap(run.dt, run.long) {
      BeforeFirstWrap(run.dt, run.long, k - 1);
      WrappedRelease(sec, run.dt, run.long, k);
    }
  }

  lemma WrappedRelease(sec: int, dt: Int32, long: LongWidth, k: nat)
    requires dt < 0 && k >= 1 && k * dt < -long.Max() - 1 <= (k - 1) * dt
    ensures var r := Release(sec, dt, long, k);
            && r == Norm(Time(sec + 1, k * dt + 2 * (long.Max() + 1)))
            && r.Normalised()
            && r.Total() == (sec + 1) * NSEC_PER_SEC + k * dt + 2 * (long.Max() + 1)
  {
    NegativeReleases(sec, dt, long, k - 1);
    var v := (k - 1) * dt + dt;
    assert v == k * dt;
    WrapBelow(long, v);
    NormConserves(Time(sec + 1, long.ToLong(v)));
  }

  lemma WrapBelow(long: LongWidth, v: int)
    requires -2 * (long.Max() + 1) <= v < -long.Max() - 1
    ensures long.ToLong(v) == v + 2 * (long.Max() + 1) >= 0
  {
  }

  /** With a period of minus one second and a 32-bit `long` the third addition wraps: the
      second and third activation start at once, and the fourth sleeps again. */
  lemma NegativePeriodSleepsAgain()
    ensures var act := Activation(None, 0);
            var run := Run(0, 0, -1_000_000_000, Long32, [act, act, act, act]);
            && FirstWrap(run.dt, run.long) == 3
            && run.StartOf(1) == run.Ready(1) && run.StartOf(2) == run.Ready(2)
            && run.ReleaseAt(3) == Time(2, 294_967_296)
            && run.StartOf(3) != run.Ready(3)
  {
    var act := Activation(None, 0);
    var run := Run(0, 0, -1_000_000_000, Long32, [act, act, act, act]);
    NegativePeriod(run, 1);
    NegativePeriod(run, 2);
    NegativePeriod(run, 3);
    assert run.StartOf(0) == NSEC_PER_SEC;
    assert run.Ready(1) == NSEC_PER_SEC;
    assert run.Ready(2) == NSEC_PER_SEC;
    assert run.Ready(3) == NSEC_PER_SEC;
  }
}
