/** What the fiber loop of src/fiber.c guarantees over unbounded runs. */
module FiberTheorems {
  import opened CInt
  import opened Arith
  import opened Fiber

  // ---------- releases without drift ----------

  lemma NormConserves(t: Time)
    ensures Norm(t).Total() == t.Total()
    ensures 0 <= t.nsec ==> Norm(t).Normalised()
  {
  }

  lemma ToLongIsBounded(long: LongWidth, v: int)
    ensures -long.Max() - 1 <= long.ToLong(v) <= long.Max()
    ensures -long.Max() - 1 <= v <= long.Max() ==> long.ToLong(v) == v
  {
  }

  /** One advance adds exactly `dt` if and only if the addition does not wrap. */
  lemma AdvanceIsExact(t: Time, dt: Int32, long: LongWidth)
    ensures Advance(t, dt, long).Total() == t.Total() + dt <==> -long.Max() - 1 <= t.nsec + dt <= long.Max()
    ensures 0 <= t.nsec + dt <= long.Max() ==> Advance(t, dt, long).Normalised()
  {
    ToLongIsBounded(long, t.nsec + dt);
    NormConserves(Time(t.sec, long.ToLong(t.nsec + dt)));
  }

  /** From every normalised time the addition fits a 32-bit `tv_nsec` exactly when `dt` is at
      most 1147483648, and the normalisation then takes at most two rounds. */
  lemma AdditionFits(dt: Int32)
    requires 0 <= dt
    ensures (forall t: Time :: t.Normalised() ==> t.nsec + dt <= Long32.Max()) <==> dt <= 1147483648
    ensures dt <= 1147483648 ==>
              forall t: Time :: t.Normalised() ==> (t.nsec + dt) / NSEC_PER_SEC <= 2
    ensures dt <= 1147483648 ==> SafePeriod(dt, Long32)
  {
    var x, y := GcdDivides(dt, NSEC_PER_SEC);
    var last := Time(0, NSEC_PER_SEC - 1);
    assert last.Normalised();
    assert last.nsec + dt <= Long32.Max() <==> dt <= 1147483648;
  }

  /** A period for which no addition of any run wraps: non-negative, and with the largest
      nanosecond value the run reaches still in the range of `long`. */
  predicate SafePeriod(dt: Int32, long: LongWidth) {
    dt >= 0 && NSEC_PER_SEC - Gcd(dt, NSEC_PER_SEC) + dt <= long.Max()
  }

  lemma NanosecondsOf(t: Time, sec: int, v: int)
    requires t.Normalised() && t.Total() == sec * NSEC_PER_SEC + v
    ensures t.nsec == v % NSEC_PER_SEC
  {
  }

  lemma {:induction false} SafeReleases(sec: int, dt: Int32, long: LongWidth, k: nat)
    requires SafePeriod(dt, long)
    ensures Release(sec, dt, long, k).Total() == (sec + 1) * NSEC_PER_SEC + k * dt
    ensures Release(sec, dt, long, k).Normalised()
  {
    if k > 0 {
      SafeReleases(sec, dt, long, k - 1);
      var t := Release(sec, dt, long, k - 1);
      NanosecondsOf(t, sec + 1, (k - 1) * dt);
      ResidueBound(dt, NSEC_PER_SEC, k - 1);
      AdvanceIsExact(t, dt, long);
    }
  }

  ghost predicate Exact(sec: int, dt: Int32, long: LongWidth, k: nat) {
    Release(sec, dt, long, k).Total() == (sec + 1) * NSEC_PER_SEC + k * dt
  }

  /** A wrap loses or gains one full range of `long`: it puts a release behind when the period
      is not negative, and ahead when it is. */
  lemma WrapDirection(t: Time, dt: Int32, long: LongWidth)
    requires -long.Max() - 1 <= t.nsec <= long.Max()
    ensures dt >= 0 ==> Advance(t, dt, long).Total() <= t.Total() + dt
    ensures dt < 0 ==> Advance(t, dt, long).Total() >= t.Total() + dt
    ensures -long.Max() - 1 <= Advance(t, dt, long).nsec <= long.Max()
  {
    var v := t.nsec + dt;
    ToLongIsBounded(long, v);
    NormConserves(Time(t.sec, long.ToLong(v)));
  }

  /** So what a wrap has put off is never made up. */
  lemma {:induction false} NeverMadeUp(sec: int, dt: Int32, long: LongWidth, k: nat)
    ensures var r, ideal := Release(sec, dt, long, k), (sec + 1) * NSEC_PER_SEC + k * dt;
            && -long.Max() - 1 <= r.nsec <= long.Max()
            && (dt >= 0 ==> r.Total() <= ideal)
            && (dt < 0 ==> r.Total() >= ideal)
            && (k > 0 && Exact(sec, dt, long, k) ==> Exact(sec, dt, long, k - 1))
  {
    if k > 0 {
      NeverMadeUp(sec, dt, long, k - 1);
      WrapDirection(Release(sec, dt, long, k - 1), dt, long);
      assert k * dt == (k - 1) * dt + dt;
    }
  }

  /** The addition that follows activation `j` stays in range. */
  predicate FitsAt(dt: Int32, long: LongWidth, j: nat) {
    j * dt % NSEC_PER_SEC + dt <= long.Max()
  }

  /** For a period that is not negative, release `k` is exact if and only if every addition
      before it stays in range. */
  lemma {:induction false} ExactExactlyWhenFitting(sec: int, dt: Int32, long: LongWidth, k: nat)
    requires dt >= 0
    ensures Exact(sec, dt, long, k) <==> forall j: nat :: j < k ==> FitsAt(dt, long, j)
    ensures Exact(sec, dt, long, k) ==> Release(sec, dt, long, k).Normalised()
  {
    if k > 0 {
      ExactExactlyWhenFitting(sec, dt, long, k - 1);
      NeverMadeUp(sec, dt, long, k);
      if Exact(sec, dt, long, k - 1) {
        var t := Release(sec, dt, long, k - 1);
        NanosecondsOf(t, sec + 1, (k - 1) * dt);
        AdvanceIsExact(t, dt, long);
        assert k * dt == (k - 1) * dt + dt;
        assert Exact(sec, dt, long, k) <==> FitsAt(dt, long, k - 1);
      }
    }
  }

  lemma {:induction false} NegativeReleases(sec: int, dt: Int32, long: LongWidth, k: nat)
    requires dt < 0 && -long.Max() - 1 <= k * dt
    ensures Release(sec, dt, long, k) == Time(sec + 1, k * dt)
  {
    if k > 0 {
      assert k * dt == (k - 1) * dt + dt;
      NegativeReleases(sec, dt, long, k - 1);
      ToLongIsBounded(long, k * dt);
      MulIsMonotone(k, dt, -1);
    }
  }

  /** For a negative period, release `k` is exact if and only if `k` periods fit in `long`. */
  lemma {:induction false} NegativeExactExactlyWhenFitting(sec: int, dt: Int32, long: LongWidth, k: nat)
    requires dt < 0
    ensures Exact(sec, dt, long, k) <==> -long.Max() - 1 <= k * dt
  {
    if -long.Max() - 1 <= k * dt {
      NegativeReleases(sec, dt, long, k);
    } else if Exact(sec, dt, long, k) {
      NeverMadeUp(sec, dt, long, k);
      NegativeExactExactlyWhenFitting(sec, dt, long, k - 1);
      NegativeReleases(sec, dt, long, k - 1);
      AdvanceIsExact(Release(sec, dt, long, k - 1), dt, long);
      assert false;
    }
  }

  lemma UnsafePeriodDrifts(sec: int, dt: Int32, long: LongWidth) returns (k: nat)
    requires !SafePeriod(dt, long)
    ensures !Exact(sec, dt, long, k)
  {
    if dt < 0 {
      k := long.Max() + 2;
      MulIsMonotone(k, dt, -1);
      NegativeExactExactlyWhenFitting(sec, dt, long, k);
    } else {
      var n := ResidueReached(dt, NSEC_PER_SEC);
      assert !FitsAt(dt, long, n);
      k := n + 1;
      ExactExactlyWhenFitting(sec, dt, long, k);
    }
  }

  /** Every release is exactly a whole number of periods after the first, in a run of any
      length, if and only if the period is safe. */
  lemma DriftFreeExactlyWhenSafe(sec: int, dt: Int32, long: LongWidth)
    ensures (forall k: nat :: Exact(sec, dt, long, k)) <==> SafePeriod(dt, long)
    ensures long == Long64 ==> (SafePeriod(dt, long) <==> dt >= 0)
  {
    if SafePeriod(dt, long) {
      forall k: nat
        ensures Exact(sec, dt, long, k)
      {
        SafeReleases(sec, dt, long, k);
      }
    } else {
      var k := UnsafePeriodDrifts(sec, dt, long);
    }
    if dt >= 0 {
      var x, y := GcdDivides(dt, NSEC_PER_SEC);
    }
  }

  /** One nanosecond more than the period that always fits is already unsafe. */
  lemma FirstUnsafePeriod()
    ensures !SafePeriod(1147483649, Long32)
  {
    CombinationOfOne(1147483649, NSEC_PER_SEC, 114318849, -131179010);
  }

  /** A concrete drift: with a period one nanosecond short of two seconds the second addition
      wraps a 32-bit `tv_nsec`. */
  lemma DriftAtSecondRelease()
    ensures Exact(0, 1_999_999_999, Long32, 1) && !Exact(0, 1_999_999_999, Long32, 2)
  {
    var first := Release(0, 1_999_999_999, Long32, 1);
    assert first == Time(2, 999_999_999);
    AdvanceIsExact(first, 1_999_999_999, Long32);
  }

  /** The first release is the first full second after the clock reading. */
  lemma FirstRelease(run: Run)
    ensures run.clock < run.ReleaseAt(0).Total() <= run.clock + NSEC_PER_SEC
    ensures run.ReleaseAt(0).Total() % 1_000_000_000 == 0
  {
  }
}
