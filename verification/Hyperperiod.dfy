/** src/fiber.c, a table of periodic fibers: the releases of all fibers together repeat. */
module Hyperperiod {
  import opened CInt
  import opened Arith
  import opened Fiber
  import opened FiberTheorems

  /** A fiber of the table: the seconds it read after the barrier, and its period. */
  datatype Periodic = Periodic(sec: int, dt: Int32)

  predicate Proper(f: Periodic, long: LongWidth) {
    f.dt > 0 && SafePeriod(f.dt, long)
  }

  predicate Divides(dt: int, h: int) {
    dt > 0 && h % dt == 0
  }

  function Base(f: Periodic): int {
    (f.sec + 1) * NSEC_PER_SEC
  }

  ghost predicate ReleasedAt(f: Periodic, long: LongWidth, t: int) {
    exists k: nat :: Release(f.sec, f.dt, long, k).Total() == t
  }

  /** The fibers of the table released at time `t`. */
  ghost function Released(table: seq<Periodic>, long: LongWidth, t: int): set<nat> {
    set i: nat | i < |table| && ReleasedAt(table[i], long, t)
  }

  lemma ReleaseIsMultiple(f: Periodic, long: LongWidth, k: nat)
    requires Proper(f, long)
    ensures var d := Release(f.sec, f.dt, long, k).Total() - Base(f); d >= 0 && Divides(f.dt, d)
  {
    SafeReleases(f.sec, f.dt, long, k);
    MulIsMonotone(k, 0, f.dt);
    RemainderIsUnique(f.dt * k, f.dt, k, 0);
  }

  lemma MultipleIsRelease(f: Periodic, long: LongWidth, t: int)
    requires Proper(f, long) && t >= Base(f) && Divides(f.dt, t - Base(f))
    ensures ReleasedAt(f, long, t)
  {
    var k := QuotientOf(t - Base(f), f.dt);
    SafeReleases(f.sec, f.dt, long, k);
    assert Release(f.sec, f.dt, long, k).Total() == t;
  }

  lemma QuotientOf(d: nat, dt: int) returns (k: nat)
    requires Divides(dt, d)
    ensures d == k * dt
  {
    k := d / dt;
  }

  lemma ReleaseTimes(f: Periodic, long: LongWidth, t: int)
    requires Proper(f, long)
    ensures ReleasedAt(f, long, t) <==> t >= Base(f) && Divides(f.dt, t - Base(f))
  {
    if ReleasedAt(f, long, t) {
      var k: nat :| Release(f.sec, f.dt, long, k).Total() == t;
      ReleaseIsMultiple(f, long, k);
    }
    if t >= Base(f) && Divides(f.dt, t - Base(f)) {
      MultipleIsRelease(f, long, t);
    }
  }

  lemma ShiftByMultiple(d: int, h: int, dt: int)
    requires Divides(dt, h)
    ensures (d + h) % dt == d % dt
  {
    var q, r, m := d / dt, d % dt, h / dt;
    assert d + h == dt * (q + m) + r;
    RemainderIsUnique(d + h, dt, q + m, r);
  }

  /** From the latest start on, the release pattern of the whole table repeats with `h` if and
      only if `h` is a common multiple of the periods. */
  lemma PatternRepeatsExactlyForCommonMultiples(table: seq<Periodic>, long: LongWidth, from: int, h: nat)
    requires forall i :: 0 <= i < |table| ==> Proper(table[i], long) && Base(table[i]) <= from
    ensures (forall t :: t >= from ==> Released(table, long, t) == Released(table, long, t + h))
            <==> (forall i :: 0 <= i < |table| ==> Divides(table[i].dt, h))
  {
    if forall i :: 0 <= i < |table| ==> Divides(table[i].dt, h) {
      forall t | t >= from
        ensures Released(table, long, t) == Released(table, long, t + h)
      {
        forall i: nat | i < |table|
          ensures ReleasedAt(table[i], long, t) <==> ReleasedAt(table[i], long, t + h)
        {
          ShiftOneFiber(table[i], long, t, h);
        }
      }
    }
    if forall t :: t >= from ==> Released(table, long, t) == Released(table, long, t + h) {
      forall i | 0 <= i < |table|
        ensures Divides(table[i].dt, h)
      {
        var t := ReleaseAfter(table[i], long, from);
        assert i in Released(table, long, t);
        assert i in Released(table, long, t + h);
        ShiftMeansMultiple(table[i], long, t, h);
      }
    }
  }

  lemma ShiftOneFiber(f: Periodic, long: LongWidth, t: int, h: nat)
    requires Proper(f, long) && t >= Base(f) && Divides(f.dt, h)
    ensures ReleasedAt(f, long, t) <==> ReleasedAt(f, long, t + h)
  {
    ReleaseTimes(f, long, t);
    ReleaseTimes(f, long, t + h);
    ShiftByMultiple(t - Base(f), h, f.dt);
  }

  lemma ShiftMeansMultiple(f: Periodic, long: LongWidth, t: int, h: nat)
    requires Proper(f, long) && ReleasedAt(f, long, t) && ReleasedAt(f, long, t + h)
    ensures Divides(f.dt, h)
  {
    ReleaseTimes(f, long, t);
    ReleaseTimes(f, long, t + h);
    DifferenceOfMultiples(t - Base(f), t + h - Base(f), f.dt);
  }

  lemma DifferenceOfMultiples(d: int, e: int, dt: int)
    requires Divides(dt, d) && Divides(dt, e)
    ensures Divides(dt, e - d)
  {
    var p, q := d / dt, e / dt;
    assert e - d == dt * (q - p);
    RemainderIsUnique(e - d, dt, q - p, 0);
  }

  lemma ReleaseAfter(f: Periodic, long: LongWidth, from: int) returns (t: int)
    requires Proper(f, long) && Base(f) <= from
    ensures t >= from && ReleasedAt(f, long, t)
  {
    var k: nat := from - Base(f);
    SafeReleases(f.sec, f.dt, long, k);
    MulIsMonotone(k, 1, f.dt);
    t := Release(f.sec, f.dt, long, k).Total();
  }

  // ---------- releases per window ----------

  /** The activations of a fiber released in the window of length `h` from time `w` on; a
      positive period puts them all below the given bound. */
  function InWindow(f: Periodic, long: LongWidth, w: int, h: nat): set<nat> {
    set k: nat | k < Abs(w + h - Base(f)) && w <= Release(f.sec, f.dt, long, k).Total() < w + h
  }

  function Abs(v: int): nat {
    if v < 0 then -v else v
  }

  /** Every window of length `h` from the first release on holds exactly `h / dt` releases
      when `h` is a multiple of the period. */
  lemma ReleasesPerWindow(f: Periodic, long: LongWidth, w: int, h: nat)
    requires Proper(f, long) && Base(f) <= w && Divides(f.dt, h)
    ensures |InWindow(f, long, w, h)| == h / f.dt
    ensures forall k: nat :: k in InWindow(f, long, w, h) <==> w <= Release(f.sec, f.dt, long, k).Total() < w + h
  {
    var n := h / f.dt;
    var lo := FirstAtOrAfter(f.dt, w - Base(f));
    forall k: nat
      ensures w <= Release(f.sec, f.dt, long, k).Total() < w + h <==> k in Interval(lo, n)
      ensures k in Interval(lo, n) ==> k < Abs(w + h - Base(f))
    {
      OneInWindow(f, long, w, h, lo, k);
    }
    assert InWindow(f, long, w, h) == Interval(lo, n);
    IntervalHolds(lo, n, lo);
  }

  lemma OneInWindow(f: Periodic, long: LongWidth, w: int, h: nat, lo: nat, k: nat)
    requires Proper(f, long) && Base(f) <= w && Divides(f.dt, h)
    requires w - Base(f) <= lo * f.dt < w - Base(f) + f.dt
    ensures w <= Release(f.sec, f.dt, long, k).Total() < w + h <==> k in Interval(lo, h / f.dt)
    ensures k in Interval(lo, h / f.dt) ==> k < Abs(w + h - Base(f))
  {
    var n := h / f.dt;
    assert h == n * f.dt;
    OneActivation(f, long, w, lo, n, k);
    IntervalHolds(lo, n, k);
  }

  lemma OneActivation(f: Periodic, long: LongWidth, w: int, lo: nat, n: nat, k: nat)
    requires Proper(f, long) && Base(f) <= w
    requires w - Base(f) <= lo * f.dt < w - Base(f) + f.dt
    ensures w <= Release(f.sec, f.dt, long, k).Total() < w + n * f.dt <==> lo <= k < lo + n
    ensures lo <= k < lo + n ==> k < w + n * f.dt - Base(f)
  {
    SafeReleases(f.sec, f.dt, long, k);
    InRangeExactly(f.dt, w - Base(f), lo, n, k);
    MulIsMonotone(k, 1, f.dt);
  }

  /** The least `lo` with `d <= lo * dt`. */
  lemma FirstAtOrAfter(dt: int, d: nat) returns (lo: nat)
    requires dt > 0
    ensures d <= lo * dt < d + dt
  {
    lo := (d + dt - 1) / dt;
    var r := (d + dt - 1) % dt;
    assert lo * dt + r == d + dt - 1;
  }

  lemma InRangeExactly(dt: int, d: int, lo: int, n: int, k: int)
    requires dt > 0 && d <= lo * dt < d + dt
    ensures d <= k * dt < d + n * dt <==> lo <= k < lo + n
  {
    var a, b := k - lo, k - lo - n;
    assert k * dt == lo * dt + dt * a;
    assert k * dt == lo * dt + n * dt + dt * b;
    MultipleIsFar(dt, a);
    MultipleIsFar(dt, b);
  }

  function Interval(lo: nat, n: nat): set<nat> {
    if n == 0 then {} else Interval(lo, n - 1) + {lo + n - 1}
  }

  lemma {:induction false} IntervalHolds(lo: nat, n: nat, k: nat)
    ensures |Interval(lo, n)| == n
    ensures k in Interval(lo, n) <==> lo <= k < lo + n
    decreases n
  {
    if n > 0 {
      IntervalHolds(lo, n - 1, k);
      IntervalHolds(lo, n - 1, lo + n - 1);
    }
  }
}
