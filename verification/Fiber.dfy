/** src/fiber.c, the time-triggered loop of one fiber: absolute release times kept in a
    timespec, a sleep until the release, the function call, the next release. */
module Fiber {
  import opened CInt
  import opened Common

  const NSEC_PER_SEC := 1_000_000_000

  // ---------- release times ----------

  datatype Time = Time(sec: int, nsec: int) {

    function Total(): int {
      sec * NSEC_PER_SEC + nsec
    }

    predicate Normalised() {
      0 <= nsec < NSEC_PER_SEC
    }
  }

  /** What baa_ts_norm leaves: quotient and remainder, but nothing for negative nanoseconds. */
  function Norm(t: Time): Time {
    if t.nsec < 0 then t else Time(t.sec + t.nsec / NSEC_PER_SEC, t.nsec % NSEC_PER_SEC)
  }

  /** `tv_nsec` is a long: the sum wraps at its width. */
  function Advance(t: Time, dt: Int32, long: LongWidth): Time {
    Norm(Time(t.sec, long.ToLong(t.nsec + dt)))
  }

  /** The k-th release of a fiber that read `sec` seconds when it left the barrier. */
  function Release(sec: int, dt: Int32, long: LongWidth, k: nat): Time {
    if k == 0 then Time(sec + 1, 0) else Advance(Release(sec, dt, long, k - 1), dt, long)
  }

  class Timespec {
    var sec: int
    var nsec: int

    constructor (sec: int, nsec: int)
      ensures this.sec == sec && this.nsec == nsec
    {
      this.sec, this.nsec := sec, nsec;
    }

    ghost function Value(): Time
      reads this
    {
      Time(sec, nsec)
    }

    /** baa_ts_norm: conserves the time it holds, refines division and remainder, and takes
        `nsec / NSEC_PER_SEC` rounds. */
    method TsNorm() returns (ghost rounds: nat)
      modifies this
      ensures Value() == Norm(old(Value()))
      ensures Value().Total() == old(Value().Total())
      ensures 0 <= old(nsec) ==> Value().Normalised()
      ensures rounds == if old(nsec) < 0 then 0 else old(nsec) / NSEC_PER_SEC
    {
      rounds := 0;
      while nsec >= NSEC_PER_SEC
        invariant nsec == old(nsec) - rounds * NSEC_PER_SEC
        invariant sec == old(sec) + rounds
        invariant 0 <= old(nsec) ==> 0 <= nsec
        invariant old(nsec) < 0 ==> rounds == 0
        decreases nsec
      {
        nsec := nsec - NSEC_PER_SEC;
        sec := sec + 1;
        rounds := rounds + 1;
      }
    }
  }

  // ---------- one fiber's run ----------

  /** One activation: a signal may end the sleep at some time, and the function then runs
      for `exec` nanoseconds. */
  datatype Activation = Activation(signal: Option<int>, exec: nat)

  /** clock_nanosleep to an absolute time: at once for a malformed timespec, at the signal
      if one arrives while still asleep, and otherwise at the target or right now. */
  function Wake(target: Time, now: int, signal: Option<int>): int {
    if !target.Normalised() then now
    else if signal.Some? && now <= signal.value < target.Total() then signal.value
    else if now < target.Total() then target.Total()
    else now
  }

  /** A fiber that read the clock at time `clock` after the barrier and first goes to sleep
      at time `begin`. */
  datatype Run = Run(clock: int, begin: int, dt: Int32, long: LongWidth, acts: seq<Activation>) {

    function ReleaseAt(k: nat): Time {
      Release(clock / NSEC_PER_SEC, dt, long, k)
    }

    /** When the fiber goes to sleep before activation `k`. */
    function Ready(k: nat): int
      requires k <= |acts|
      decreases k, 0
    {
      if k == 0 then begin else StartOf(k - 1) + acts[k - 1].exec
    }

    /** When activation `k` calls the function. */
    function StartOf(k: nat): int
      requires k < |acts|
      decreases k, 1
    {
      Wake(ReleaseAt(k), Ready(k), acts[k].signal)
    }
  }

  datatype Call = Call(release: Time, start: int)

  /** baa_fiber after the barrier, for any number of activations. */
  method FiberLoop(run: Run) returns (calls: seq<Call>)
    ensures |calls| == |run.acts|
    ensures forall k :: 0 <= k < |calls| ==> calls[k] == Call(run.ReleaseAt(k), run.StartOf(k))
  {
    var t := new Timespec(run.clock / NSEC_PER_SEC, run.clock % NSEC_PER_SEC);
    t.sec := t.sec + 1;
    t.nsec := 0;
    calls := [];
    var now := run.begin;
    for k := 0 to |run.acts|
      invariant fresh(t) && t.Value() == run.ReleaseAt(k)
      invariant now == run.Ready(k)
      invariant |calls| == k
      invariant forall j :: 0 <= j < k ==> calls[j] == Call(run.ReleaseAt(j), run.StartOf(j))
    {
      now := Wake(Time(t.sec, t.nsec), now, run.acts[k].signal);
      calls := calls + [Call(Time(t.sec, t.nsec), now)];
      now := now + run.acts[k].exec;
      t.nsec := run.long.ToLong(t.nsec + run.dt);
      ghost var rounds := t.TsNorm();
    }
  }
}
