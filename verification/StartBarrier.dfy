/** src/fiber.c, the start barrier: the main thread creates one thread per fiber
    (baa_build_scheduler), reads their thread ids to set properties, and broadcasts a
    condition variable (baa_start_scheduler); each fiber writes its own thread id and waits
    on that variable without a predicate. A run is any sequence of labels; a label that is
    not enabled changes nothing. Wake-ups come from the broadcast only. */
module StartBarrier {

  datatype FiberPc =
    | Absent      // not created
    | Starting    // created, thread id not written
    | Prepared    // thread id written, stack and heap touched
    | Locked      // holds the mutex before pthread_cond_wait
    | Waiting     // in pthread_cond_wait, mutex released
    | Woken       // signalled, needs the mutex to return
    | Relocked    // pthread_cond_wait returned, mutex held
    | Running     // past the barrier

  datatype MainPc =
    | Creating    // in the loop of baa_build_scheduler
    | Failed      // pthread_create failed, -1 returned
    | Built       // baa_build_scheduler returned 0
    | Started     // holds the mutex in baa_start_scheduler
    | Announced   // has broadcast, still holds the mutex
    | Joining     // mutex released

  datatype Holder = Free | Starter | Fiber(f: nat)

  /** `woken` is the set of fibers waiting at the broadcast, `called` those that have called
      their function, `seen` the thread ids that setting properties read. */
  datatype State = State(
    main: MainPc,
    created: nat,
    pc: seq<FiberPc>,
    tid: seq<int>,
    mutex: Holder,
    woken: set<nat>,
    called: set<nat>,
    seen: seq<int>)

  datatype Label =
    | Create
    | CreateFails
    | BuildReturns
    | SetProps
    | MainLock
    | Broadcast
    | MainUnlock
    | WriteTid(f: nat)
    | Lock(f: nat)
    | Wait(f: nat)
    | Return(f: nat)
    | Unlock(f: nat)
    | CallFunc(f: nat)

  /** A table of fibers: the thread id the kernel gives each, and what the table held before. */
  datatype Table = Table(kernelTid: seq<int>, before: seq<int>)

  predicate Proper(t: Table) {
    |t.kernelTid| == |t.before|
  }

  function Start(t: Table): State {
    State(Creating, 0, seq(|t.before|, _ => Absent), t.before, Free, {}, {}, [])
  }

  predicate HasBroadcast(s: State) {
    s.main.Announced? || s.main.Joining?
  }

  predicate At(s: State, f: nat, pc: FiberPc) {
    f < |s.pc| && s.pc[f] == pc
  }

  predicate Enabled(t: Table, s: State, l: Label) {
    match l
    case Create => s.main.Creating? && s.created < |s.pc|
    case CreateFails => s.main.Creating? && s.created < |s.pc|
    case BuildReturns => s.main.Creating? && s.created == |s.pc|
    case SetProps => s.main.Built?
    case MainLock => s.main.Built? && s.mutex.Free?
    case Broadcast => s.main.Started?
    case MainUnlock => s.main.Announced?
    case WriteTid(f) => At(s, f, Starting) && f < |t.kernelTid| && f < |s.tid|
    case Lock(f) => At(s, f, Prepared) && s.mutex.Free?
    case Wait(f) => At(s, f, Locked)
    case Return(f) => At(s, f, Woken) && s.mutex.Free?
    case Unlock(f) => At(s, f, Relocked)
    case CallFunc(f) => At(s, f, Running)
  }

  function Signalled(pc: seq<FiberPc>): seq<FiberPc> {
    seq(|pc|, i requires 0 <= i < |pc| => if pc[i] == Waiting then Woken else pc[i])
  }

  function Waiters(pc: seq<FiberPc>): set<nat> {
    set f: nat | f < |pc| && pc[f] == Waiting
  }

  function Step(t: Table, s: State, l: Label): State {
    if !Enabled(t, s, l) then s else
    match l
    case Create => s.(created := s.created + 1, pc := s.pc[s.created := Starting])
    case CreateFails => s.(main := Failed)
    case BuildReturns => s.(main := Built)
    case SetProps => s.(seen := s.tid)
    case MainLock => s.(main := Started, mutex := Starter)
    case Broadcast => s.(main := Announced, pc := Signalled(s.pc), woken := Waiters(s.pc))
    case MainUnlock => s.(main := Joining, mutex := Free)
    case WriteTid(f) => s.(pc := s.pc[f := Prepared], tid := s.tid[f := t.kernelTid[f]])
    case Lock(f) => s.(pc := s.pc[f := Locked], mutex := Fiber(f))
    case Wait(f) => s.(pc := s.pc[f := Waiting], mutex := Free)
    case Return(f) => s.(pc := s.pc[f := Relocked], mutex := Fiber(f))
    case Unlock(f) => s.(pc := s.pc[f := Running], mutex := Free)
    case CallFunc(f) => s.(called := s.called + {f})
  }

  function Exec(t: Table, s: State, labels: seq<Label>): State
    decreases |labels|
  {
    if labels == [] then s else Exec(t, Step(t, s, labels[0]), labels[1..])
  }

  // ---------- the invariant ----------

  predicate Past(pc: FiberPc) {
    pc.Woken? || pc.Relocked? || pc.Running?
  }

  predicate FiberInv(t: Table, s: State, f: nat)
    requires f < |s.pc| == |s.tid| == |t.kernelTid| == |t.before|
  {
    && (s.pc[f] == Absent <==> f >= s.created)
    && s.tid[f] == (if s.pc[f].Absent? || s.pc[f].Starting? then t.before[f] else t.kernelTid[f])
    && (s.pc[f].Locked? || s.pc[f].Relocked? <==> s.mutex == Fiber(f))
    && (Past(s.pc[f]) <==> f in s.woken)
    && (f in s.called ==> s.pc[f].Running?)
  }

  predicate Inv(t: Table, s: State) {
    && |s.pc| == |s.tid| == |t.kernelTid| == |t.before| && s.created <= |s.pc|
    && (s.mutex == Starter <==> s.main.Started? || s.main.Announced?)
    && (s.mutex.Fiber? ==> s.mutex.f < |s.pc|)
    && (!HasBroadcast(s) ==> s.woken == {})
    && (forall f :: f in s.called ==> f < |s.pc|)
    && (forall f :: f in s.woken ==> f < |s.pc|)
    && (s.main != Creating && s.main != Failed ==> s.created == |s.pc|)
    && (forall f :: 0 <= f < |s.pc| ==> FiberInv(t, s, f))
  }

  lemma StepKeepsInv(t: Table, s: State, l: Label)
    requires Inv(t, s)
    ensures Inv(t, Step(t, s, l))
  {
    if Enabled(t, s, l) {
      match l
      case WriteTid(f) => FiberStepKeepsInv(t, s, l, f);
      case Lock(f) => FiberStepKeepsInv(t, s, l, f);
      case Wait(f) => FiberStepKeepsInv(t, s, l, f);
      case Return(f) => FiberStepKeepsInv(t, s, l, f);
      case Unlock(f) => FiberStepKeepsInv(t, s, l, f);
      case CallFunc(f) => FiberStepKeepsInv(t, s, l, f);
      case _ => MainStepKeepsInv(t, s, l);
    }
  }

  predicate IsStepOf(l: Label, f: nat) {
    l in {WriteTid(f), Lock(f), Wait(f), Return(f), Unlock(f), CallFunc(f)}
  }

  lemma FiberStepKeepsInv(t: Table, s: State, l: Label, f: nat)
    requires Inv(t, s) && Enabled(t, s, l) && IsStepOf(l, f)
    ensures Inv(t, Step(t, s, l))
  {
    assert FiberInv(t, s, f);
    var r := Step(t, s, l);
    forall g | 0 <= g < |s.pc|
      ensures FiberInv(t, r, g)
    {
      assert FiberInv(t, s, g);
    }
  }

  lemma MainStepKeepsInv(t: Table, s: State, l: Label)
    requires Inv(t, s) && Enabled(t, s, l)
    requires l in {Create, CreateFails, BuildReturns, SetProps, MainLock, Broadcast, MainUnlock}
    ensures Inv(t, Step(t, s, l))
  {
    var r := Step(t, s, l);
    forall g | 0 <= g < |s.pc|
      ensures FiberInv(t, r, g)
    {
      assert FiberInv(t, s, g);
    }
  }

  lemma {:induction false} ExecKeepsInv(t: Table, s: State, labels: seq<Label>)
    requires Inv(t, s)
    ensures Inv(t, Exec(t, s, labels))
    decreases |labels|
  {
    if labels != [] {
      StepKeepsInv(t, s, labels[0]);
      ExecKeepsInv(t, Step(t, s, labels[0]), labels[1..]);
    }
  }

  lemma StartHasInv(t: Table)
    requires Proper(t)
    ensures Inv(t, Start(t))
  {
  }

  // ---------- what the barrier guarantees ----------

  /** No fiber calls its function before the broadcast, only fibers that were waiting at the
      broadcast ever do, and each of them has written its own thread id. */
  lemma CallersWaitedAtBroadcast(t: Table, labels: seq<Label>, f: nat)
    requires Proper(t)
    ensures var s := Exec(t, Start(t), labels);
            f in s.called ==>
              && HasBroadcast(s) && f in s.woken
              && f < |s.tid| == |t.kernelTid| && s.tid[f] == t.kernelTid[f]
  {
    StartHasInv(t);
    ExecKeepsInv(t, Start(t), labels);
    var s := Exec(t, Start(t), labels);
    if f in s.called {
      assert FiberInv(t, s, f);
    }
  }

  /** Who was waiting at the broadcast is settled by it. */
  lemma {:induction false} WokenIsSettled(t: Table, s: State, labels: seq<Label>)
    requires HasBroadcast(s)
    ensures HasBroadcast(Exec(t, s, labels)) && Exec(t, s, labels).woken == s.woken
    decreases |labels|
  {
    if labels != [] {
      WokenIsSettled(t, Step(t, s, labels[0]), labels[1..]);
    }
  }

  lemma {:induction false} ExecConcat(t: Table, s: State, a: seq<Label>, b: seq<Label>)
    ensures Exec(t, s, a + b) == Exec(t, Exec(t, s, a), b)
    decreases |a|
  {
    if a == [] {
      assert a + b == b;
    } else {
      assert (a + b)[1..] == a[1..] + b;
      ExecConcat(t, Step(t, s, a[0]), a[1..], b);
    }
  }

  /** Whoever holds the mutex can give it up without touching a woken fiber. */
  lemma FreeTheMutex(t: Table, s: State, f: nat) returns (labels: seq<Label>)
    requires Inv(t, s) && HasBroadcast(s) && f in s.woken && !At(s, f, Relocked)
    ensures var r := Exec(t, s, labels); Inv(t, r) && r.mutex.Free? && f < |r.pc| && r.pc[f] == s.pc[f]
  {
    labels := [];
    assert FiberInv(t, s, f);
    var l;
    match s.mutex {
      case Free => return;
      case Starter => l := MainUnlock;
      case Fiber(g) =>
        assert FiberInv(t, s, g);
        l := if s.pc[g].Locked? then Wait(g) else Unlock(g);
    }
    labels := [l];
    StepKeepsInv(t, s, l);
    assert Exec(t, s, [l]) == Exec(t, Step(t, s, l), [l][1..]);
  }

  lemma RunAWokenFiber(t: Table, s: State, f: nat) returns (labels: seq<Label>)
    requires At(s, f, Woken) && s.mutex.Free?
    ensures f in Exec(t, s, labels).called
  {
    labels := [Return(f), Unlock(f), CallFunc(f)];
    assert labels[1..] == [Unlock(f), CallFunc(f)];
    Unroll2(t, Step(t, s, Return(f)), Unlock(f), CallFunc(f));
  }

  lemma RunAFiber(t: Table, s: State, f: nat) returns (labels: seq<Label>)
    requires Inv(t, s) && HasBroadcast(s) && f in s.woken
    ensures f in Exec(t, s, labels).called
  {
    assert FiberInv(t, s, f);
    if s.pc[f].Running? {
      labels := [CallFunc(f)];
      Unroll1(t, s, labels[0]);
    } else if s.pc[f].Relocked? {
      labels := [Unlock(f), CallFunc(f)];
      Unroll2(t, s, labels[0], labels[1]);
    } else {
      var a := FreeTheMutex(t, s, f);
      var b := RunAWokenFiber(t, Exec(t, s, a), f);
      labels := a + b;
      ExecConcat(t, s, a, b);
    }
  }

  lemma Unroll1(t: Table, s: State, a: Label)
    ensures Exec(t, s, [a]) == Step(t, s, a)
  {
    assert [a][1..] == [];
  }

  lemma Unroll2(t: Table, s: State, a: Label, b: Label)
    ensures Exec(t, s, [a, b]) == Step(t, Step(t, s, a), b)
  {
    assert [a, b][1..] == [b];
    Unroll1(t, Step(t, s, a), b);
  }

  /** Some continuation of the run makes fiber `f` call its function. */
  ghost predicate CanCall(t: Table, s: State, f: nat) {
    exists labels :: f in Exec(t, s, labels).called
  }

  /** After the broadcast, a fiber calls its function in some continuation of the run if and
      only if it was waiting at the broadcast: one that arrives later waits for ever. */
  lemma CanCallExactlyWhenWoken(t: Table, history: seq<Label>, f: nat)
    requires Proper(t) && HasBroadcast(Exec(t, Start(t), history))
    ensures var s := Exec(t, Start(t), history);
            CanCall(t, s, f) <==> f in s.woken
  {
    StartHasInv(t);
    ExecKeepsInv(t, Start(t), history);
    var s := Exec(t, Start(t), history);
    if f in s.woken {
      var labels := RunAFiber(t, s, f);
    }
    forall labels | f in Exec(t, s, labels).called
      ensures f in s.woken
    {
      ExecKeepsInv(t, s, labels);
      WokenIsSettled(t, s, labels);
      assert FiberInv(t, Exec(t, s, labels), f);
    }
  }

  /** All fibers are created and at the barrier, and main has not announced yet. */
  predicate AllWaiting(s: State) {
    !HasBroadcast(s) && s.created == |s.pc| && forall f :: 0 <= f < |s.pc| ==> s.pc[f] == Waiting
  }

  predicate AllWoken(s: State) {
    HasBroadcast(s) && forall f: nat :: f < |s.pc| ==> f in s.woken
  }

  // ---------- complete runs ----------

  /** No thread has anything left to do: every further step leaves the state as it is. */
  ghost predicate Complete(t: Table, s: State) {
    forall l :: Step(t, s, l) == s
  }

  lemma CompleteStateFreesMutex(t: Table, s: State)
    requires Inv(t, s) && Complete(t, s)
    ensures s.mutex.Free? && (s.main.Joining? || s.main.Failed?)
  {
    var g := if s.mutex.Fiber? then s.mutex.f else 0;
    assert s.mutex.Fiber? ==> FiberInv(t, s, g);
    assert Step(t, s, Wait(g)) == s && Step(t, s, Unlock(g)) == s;
    assert Step(t, s, Broadcast) == s && Step(t, s, MainUnlock) == s;
    assert Step(t, s, Create) == s && Step(t, s, BuildReturns) == s && Step(t, s, MainLock) == s;
  }

  /** In a complete state a fiber has called its function, waits for ever, or was never
      created. */
  lemma CompleteFiber(t: Table, s: State, f: nat)
    requires Inv(t, s) && Complete(t, s) && f < |s.pc|
    ensures s.pc[f] in {Absent, Waiting, Running}
    ensures s.pc[f].Running? <==> f in s.called
    ensures f in s.called <==> f in s.woken
  {
    CompleteStateFreesMutex(t, s);
    assert FiberInv(t, s, f);
    assert Step(t, s, WriteTid(f)) == s && Step(t, s, Lock(f)) == s;
    assert Step(t, s, Return(f)) == s && Step(t, s, CallFunc(f)) == s;
  }

  /** Every complete run: main has failed or is joining, and the fibers that have called their
      function are exactly those that were waiting at the broadcast. */
  lemma CompleteRunsCallExactlyTheWoken(t: Table, labels: seq<Label>)
    requires Proper(t) && Complete(t, Exec(t, Start(t), labels))
    ensures var s := Exec(t, Start(t), labels);
            && (s.main.Joining? || s.main.Failed?)
            && s.called == s.woken
            && forall f :: 0 <= f < |s.pc| ==>
                 s.pc[f] == if f in s.called then Running else if f < s.created then Waiting else Absent
  {
    StartHasInv(t);
    ExecKeepsInv(t, Start(t), labels);
    var s := Exec(t, Start(t), labels);
    CompleteStateFreesMutex(t, s);
    forall f | 0 <= f < |s.pc|
      ensures f in s.called <==> f in s.woken
      ensures s.pc[f] == if f in s.called then Running else if f < s.created then Waiting else Absent
    {
      CompleteFiber(t, s, f);
      assert FiberInv(t, s, f);
    }
  }

  /** What fiber `f` still has to do. */
  function Work(s: State, f: nat): nat
    requires f < |s.pc|
  {
    match s.pc[f]
    case Absent => 9
    case Starting => 8
    case Prepared => 7
    case Locked => 6
    case Waiting => 5
    case Woken => 4
    case Relocked => 3
    case Running => if f in s.called then 0 else 1
  }

  function FiberWork(s: State, n: nat): nat
    requires n <= |s.pc|
  {
    if n == 0 then 0 else FiberWork(s, n - 1) + Work(s, n - 1)
  }

  function MainWork(main: MainPc): nat {
    match main
    case Creating => 5
    case Built => 4
    case Started => 3
    case Announced => 2
    case Joining => 1
    case Failed => 0
  }

  /** Counts down with every step that changes anything; reading the thread ids again counts
      only while they differ from what was read last. */
  function Rank(s: State): nat {
    2 * (MainWork(s.main) + FiberWork(s, |s.pc|)) + if s.seen != s.tid then 1 else 0
  }

  lemma {:induction false} LessWork(s: State, r: State, n: nat)
    requires n <= |s.pc| == |r.pc|
    requires forall f :: 0 <= f < n ==> Work(r, f) <= Work(s, f)
    ensures FiberWork(r, n) <= FiberWork(s, n)
    ensures (exists f :: 0 <= f < n && Work(r, f) < Work(s, f)) ==> FiberWork(r, n) < FiberWork(s, n)
    decreases n
  {
    if n > 0 {
      LessWork(s, r, n - 1);
    }
  }

  lemma FiberStepLowersRank(t: Table, s: State, l: Label, f: nat)
    requires Inv(t, s) && Step(t, s, l) != s && IsStepOf(l, f)
    ensures Rank(Step(t, s, l)) < Rank(s)
  {
    var r := Step(t, s, l);
    assert FiberInv(t, s, f);
    assert forall g :: 0 <= g < |s.pc| && g != f ==> r.pc[g] == s.pc[g];
    assert Work(r, f) < Work(s, f);
    LessWork(s, r, |s.pc|);
  }

  lemma MainStepLowersRank(t: Table, s: State, l: Label)
    requires Inv(t, s) && Step(t, s, l) != s
    requires l in {Create, CreateFails, BuildReturns, SetProps, MainLock, Broadcast, MainUnlock}
    ensures Rank(Step(t, s, l)) < Rank(s)
  {
    var r := Step(t, s, l);
    if l == Create {
      assert FiberInv(t, s, s.created);
      assert Work(r, s.created) < Work(s, s.created);
    }
    LessWork(s, r, |s.pc|);
  }

  lemma StepLowersRank(t: Table, s: State, l: Label)
    requires Inv(t, s) && Step(t, s, l) != s
    ensures Rank(Step(t, s, l)) < Rank(s)
  {
    match l
    case WriteTid(f) => FiberStepLowersRank(t, s, l, f);
    case Lock(f) => FiberStepLowersRank(t, s, l, f);
    case Wait(f) => FiberStepLowersRank(t, s, l, f);
    case Return(f) => FiberStepLowersRank(t, s, l, f);
    case Unlock(f) => FiberStepLowersRank(t, s, l, f);
    case CallFunc(f) => FiberStepLowersRank(t, s, l, f);
    case _ => MainStepLowersRank(t, s, l);
  }

  /** A run in which every step changes something. */
  predicate Busy(t: Table, s: State, labels: seq<Label>)
    decreases |labels|
  {
    labels == [] || (Step(t, s, labels[0]) != s && Busy(t, Step(t, s, labels[0]), labels[1..]))
  }

  lemma {:induction false} BusyRunLowersRank(t: Table, s: State, labels: seq<Label>)
    requires Inv(t, s) && Busy(t, s, labels)
    ensures |labels| + Rank(Exec(t, s, labels)) <= Rank(s)
    decreases |labels|
  {
    if labels != [] {
      StepLowersRank(t, s, labels[0]);
      StepKeepsInv(t, s, labels[0]);
      BusyRunLowersRank(t, Step(t, s, labels[0]), labels[1..]);
    }
  }

  lemma {:induction false} StartWork(t: Table, n: nat)
    requires n <= |t.before|
    ensures FiberWork(Start(t), n) == 9 * n
  {
    if n > 0 {
      StartWork(t, n - 1);
    }
  }

  /** Every run without idle steps is finite, with a bound linear in the number of fibers, and
      every run can be continued to a complete one. */
  lemma RunsComplete(t: Table, labels: seq<Label>)
    requires Proper(t)
    ensures Busy(t, Start(t), labels) ==> |labels| <= 18 * |t.before| + 11
    ensures exists more :: Complete(t, Exec(t, Exec(t, Start(t), labels), more))
  {
    StartHasInv(t);
    StartWork(t, |t.before|);
    if Busy(t, Start(t), labels) {
      BusyRunLowersRank(t, Start(t), labels);
    }
    ExecKeepsInv(t, Start(t), labels);
    var more := Completion(t, Exec(t, Start(t), labels));
  }

  lemma {:induction false} Completion(t: Table, s: State) returns (labels: seq<Label>)
    requires Inv(t, s)
    ensures Complete(t, Exec(t, s, labels))
    decreases Rank(s)
  {
    labels := [];
    if !Complete(t, s) {
      var l :| Step(t, s, l) != s;
      StepLowersRank(t, s, l);
      StepKeepsInv(t, s, l);
      var rest := Completion(t, Step(t, s, l));
      labels := [l] + rest;
      assert labels[1..] == rest;
    }
  }

  // ---------- what property setting sees ----------

  /** Setting properties reads every fiber's own thread id if and only if no fiber that has not
      written its id yet holds a different one in the table. */
  lemma SeesAllExactlyWhenWritten(t: Table, labels: seq<Label>)
    requires Proper(t) && Exec(t, Start(t), labels).main.Built?
    ensures var s := Exec(t, Start(t), labels);
            && |s.pc| == |t.before|
            && (Step(t, s, SetProps).seen == t.kernelTid
                <==> forall f :: 0 <= f < |s.pc| ==> s.pc[f] == Starting ==> t.before[f] == t.kernelTid[f])
  {
    StartHasInv(t);
    ExecKeepsInv(t, Start(t), labels);
    var s := Exec(t, Start(t), labels);
    forall f | 0 <= f < |s.pc|
      ensures s.tid[f] == t.kernelTid[f] <==> (s.pc[f] == Starting ==> t.before[f] == t.kernelTid[f])
    {
      assert FiberInv(t, s, f);
    }
  }

  /** A concrete failure: the builder returns before the one fiber has written its thread id,
      and property setting reads what the table held before. */
  lemma SeesOldTid(kernelTid: int, before: int)
    ensures var t := Table([kernelTid], [before]);
            Exec(t, Start(t), [Create, BuildReturns, SetProps]).seen == [before]
  {
    var t := Table([kernelTid], [before]);
    Unroll2(t, Start(t), Create, BuildReturns);
    Unroll1(t, Exec(t, Start(t), [Create, BuildReturns]), SetProps);
    ExecConcat(t, Start(t), [Create, BuildReturns], [SetProps]);
    assert [Create, BuildReturns] + [SetProps] == [Create, BuildReturns, SetProps];
  }

  predicate SeenNoneOrAll(t: Table, s: State) {
    s.seen == [] || s.seen == t.kernelTid
  }

  lemma WaitingStep(t: Table, s: State, l: Label)
    requires Inv(t, s) && AllWaiting(s) && SeenNoneOrAll(t, s)
    ensures var r := Step(t, s, l); (AllWaiting(r) || AllWoken(r)) && SeenNoneOrAll(t, r)
  {
    forall f | 0 <= f < |s.pc|
      ensures s.tid[f] == t.kernelTid[f] && f in Waiters(s.pc)
    {
      assert FiberInv(t, s, f);
    }
    assert s.tid == t.kernelTid;
    var r := Step(t, s, l);
    if l == Broadcast && Enabled(t, s, l) {
      assert AllWoken(r);
    } else {
      assert r.pc == s.pc;
    }
  }

  lemma {:induction false} WaitingUntilBroadcast(t: Table, s: State, labels: seq<Label>)
    requires Inv(t, s) && SeenNoneOrAll(t, s) && !s.main.Failed? && (AllWaiting(s) || AllWoken(s))
    ensures var r := Exec(t, s, labels); SeenNoneOrAll(t, r) && !r.main.Failed? && (AllWaiting(r) || AllWoken(r))
    decreases |labels|
  {
    if labels != [] {
      StepKeepsInv(t, s, labels[0]);
      if AllWaiting(s) {
        WaitingStep(t, s, labels[0]);
      }
      WaitingUntilBroadcast(t, Step(t, s, labels[0]), labels[1..]);
    }
  }

  /** When all fibers wait by the time baa_build_scheduler returns, which is what its sleep is
      for, setting properties sees every thread id, after the broadcast every fiber can run,
      and in every complete run every fiber has run. */
  lemma AllWaitInTime(t: Table, history: seq<Label>, labels: seq<Label>)
    requires Proper(t)
    requires var s := Exec(t, Start(t), history); s.main.Built? && AllWaiting(s) && s.seen == []
    ensures var r := Exec(t, Start(t), history + labels);
            && SeenNoneOrAll(t, r)
            && (HasBroadcast(r) ==>
                  forall f: nat :: f < |t.kernelTid| ==> CanCall(t, r, f))
            && (Complete(t, r) ==>
                  r.main.Joining? && forall f: nat :: f < |t.kernelTid| ==> f in r.called)
  {
    StartHasInv(t);
    ExecKeepsInv(t, Start(t), history);
    ExecConcat(t, Start(t), history, labels);
    WaitingUntilBroadcast(t, Exec(t, Start(t), history), labels);
    var r := Exec(t, Start(t), history + labels);
    ExecKeepsInv(t, Start(t), history + labels);
    if HasBroadcast(r) {
      forall f: nat | f < |t.kernelTid|
        ensures CanCall(t, r, f)
      {
        var more := RunAFiber(t, r, f);
      }
    }
    if Complete(t, r) {
      CompleteRunsCallExactlyTheWoken(t, history + labels);
    }
  }

  /** The sleep is not a barrier: there is a run in which the broadcast comes first, and then
      the fiber never calls its function however the run goes on. */
  lemma LostWakeUp(kernelTid: int, before: int) returns (history: seq<Label>)
    ensures var t := Table([kernelTid], [before]);
            var s := Exec(t, Start(t), history);
            HasBroadcast(s) && forall labels :: 0 !in Exec(t, s, labels).called
  {
    var t := Table([kernelTid], [before]);
    var built, started := [Create, BuildReturns], [MainLock, Broadcast];
    history := built + started;
    Unroll2(t, Start(t), Create, BuildReturns);
    var b := Exec(t, Start(t), built);
    assert b.pc == [Starting] && b.main == Built;
    Unroll2(t, b, MainLock, Broadcast);
    ExecConcat(t, Start(t), built, started);
    var s := Exec(t, Start(t), history);
    assert s.woken == {};
    CanCallExactlyWhenWoken(t, history, 0);
  }

  // ---------- the broadcast itself ----------

  /** A run that has broadcast has done so at one step of it. */
  lemma {:induction false} BroadcastPoint(t: Table, labels: seq<Label>) returns (n: nat)
    requires HasBroadcast(Exec(t, Start(t), labels))
    ensures n < |labels| && labels[n] == Broadcast && Exec(t, Start(t), labels[..n]).main.Started?
    decreases |labels|
  {
    var k := |labels| - 1;
    assert labels == labels[..k] + [labels[k]];
    ExecConcat(t, Start(t), labels[..k], [labels[k]]);
    var s := Exec(t, Start(t), labels[..k]);
    Unroll1(t, s, labels[k]);
    if HasBroadcast(s) {
      n := BroadcastPoint(t, labels[..k]);
      assert labels[..k][..n] == labels[..n];
    } else {
      n := k;
    }
  }

  lemma BroadcastWakesWaiting(t: Table, s: State, f: nat)
    requires s.main.Started?
    ensures var r := Step(t, s, Broadcast);
            HasBroadcast(r) && (f in r.woken <==> f < |s.pc| && s.pc[f] == Waiting)
  {
  }

  /** Whatever comes after the broadcast, a fiber that has called its function was waiting when
      the broadcast came; in every complete run it has called exactly if it was. */
  lemma CalledExactlyIfWaiting(t: Table, history: seq<Label>, labels: seq<Label>, f: nat)
    requires Proper(t) && Exec(t, Start(t), history).main.Started?
    ensures var s, r := Exec(t, Start(t), history), Exec(t, Start(t), history + [Broadcast] + labels);
            && (f in r.called ==> f < |s.pc| && s.pc[f] == Waiting)
            && (Complete(t, r) ==> (f in r.called <==> f < |s.pc| && s.pc[f] == Waiting))
  {
    var s, before := Exec(t, Start(t), history), history + [Broadcast];
    ExecConcat(t, Start(t), history, [Broadcast]);
    Unroll1(t, s, Broadcast);
    BroadcastWakesWaiting(t, s, f);
    ExecConcat(t, Start(t), before, labels);
    WokenIsSettled(t, Exec(t, Start(t), before), labels);
    CallersWaitedAtBroadcast(t, before + labels, f);
    if Complete(t, Exec(t, Start(t), before + labels)) {
      CompleteRunsCallExactlyTheWoken(t, before + labels);
    }
  }

  /** When a thread cannot be created, baa_build_scheduler fails for good and no fiber ever
      calls its function. */
  lemma FailedCreateRunsNothing(t: Table, history: seq<Label>, labels: seq<Label>)
    requires Proper(t)
    requires var s := Exec(t, Start(t), history); s.main.Creating? && s.created < |s.pc|
    ensures var r := Exec(t, Start(t), history + [CreateFails] + labels); r.main.Failed? && r.called == {}
  {
    var failed := history + [CreateFails];
    ExecConcat(t, Start(t), history, [CreateFails]);
    Unroll1(t, Exec(t, Start(t), history), CreateFails);
    ExecConcat(t, Start(t), failed, labels);
    FailedStays(t, Exec(t, Start(t), failed), labels);
    var r := Exec(t, Start(t), failed + labels);
    forall f | f in r.called
      ensures false
    {
      CallersWaitedAtBroadcast(t, failed + labels, f);
    }
  }

  lemma {:induction false} FailedStays(t: Table, s: State, labels: seq<Label>)
    requires s.main.Failed?
    ensures Exec(t, s, labels).main.Failed?
    decreases |labels|
  {
    if labels != [] {
      FailedStays(t, Step(t, s, labels[0]), labels[1..]);
    }
  }

  // ---------- any fibers may be in time ----------

  /** `n` threads are created; those in `early` wait already, the others have not begun. */
  predicate Arrived(s: State, n: nat, early: set<nat>) {
    && s.main.Creating? && s.created == n <= |s.pc| && s.mutex.Free? && s.seen == []
    && forall f: nat :: f < |s.pc| ==>
         s.pc[f] == if f >= n then Absent else if f in early then Waiting else Starting
  }

  lemma Reaches(t: Table, s: State, f: nat)
    requires At(s, f, Starting) && f < |t.kernelTid| && f < |s.tid| && s.mutex.Free?
    ensures Exec(t, s, [WriteTid(f), Lock(f)] + [Wait(f)]) ==
            s.(pc := s.pc[f := Waiting], tid := s.tid[f := t.kernelTid[f]])
  {
    ExecConcat(t, s, [WriteTid(f), Lock(f)], [Wait(f)]);
    Unroll2(t, s, WriteTid(f), Lock(f));
    Unroll1(t, Exec(t, s, [WriteTid(f), Lock(f)]), Wait(f));
    var written := Step(t, s, WriteTid(f));
    var locked := Step(t, written, Lock(f));
    assert written.pc[f] == Prepared && locked.pc[f] == Locked;
    assert s.pc[f := Prepared][f := Locked][f := Waiting] == s.pc[f := Waiting];
  }

  lemma OneMoreCreated(t: Table, s: State, n: nat, early: set<nat>) returns (labels: seq<Label>)
    requires Inv(t, s) && Arrived(s, n, early) && n < |s.pc|
    ensures Arrived(Exec(t, s, labels), n + 1, early)
  {
    labels := [Create];
    Unroll1(t, s, Create);
    if n in early {
      var more := [WriteTid(n), Lock(n)] + [Wait(n)];
      ExecConcat(t, s, labels, more);
      Reaches(t, Step(t, s, Create), n);
      labels := labels + more;
    }
  }

  lemma {:induction false} CreatedSoFar(t: Table, n: nat, early: set<nat>) returns (labels: seq<Label>)
    requires Proper(t) && n <= |t.before|
    ensures var s := Exec(t, Start(t), labels); Inv(t, s) && Arrived(s, n, early)
  {
    StartHasInv(t);
    labels := [];
    if n > 0 {
      labels := CreatedSoFar(t, n - 1, early);
      var s := Exec(t, Start(t), labels);
      var more := OneMoreCreated(t, s, n - 1, early);
      ExecConcat(t, Start(t), labels, more);
      ExecKeepsInv(t, s, more);
      labels := labels + more;
    }
  }

  /** Whichever fibers one names, they and no others may be waiting when the builder returns. */
  lemma AnyFibersMayWait(t: Table, early: set<nat>) returns (history: seq<Label>)
    requires Proper(t)
    ensures var s := Exec(t, Start(t), history);
            && s.main.Built? && s.mutex.Free? && s.seen == [] && |s.pc| == |t.before|
            && forall f: nat :: f < |s.pc| ==> (s.pc[f] == Waiting <==> f in early)
  {
    history := CreatedSoFar(t, |t.before|, early);
    var s := Exec(t, Start(t), history);
    ExecConcat(t, Start(t), history, [BuildReturns]);
    Unroll1(t, s, BuildReturns);
    history := history + [BuildReturns];
  }

  /** So any set of fibers, from none to all, is what some complete run has called. */
  lemma AnyFibersMayBeCalled(t: Table, early: set<nat>) returns (labels: seq<Label>)
    requires Proper(t)
    ensures var s := Exec(t, Start(t), labels);
            && Complete(t, s) && s.main.Joining?
            && forall f: nat :: f in s.called <==> f < |t.before| && f in early
  {
    var history := AnyFibersMayWait(t, early);
    ExecConcat(t, Start(t), history, [MainLock]);
    Unroll1(t, Exec(t, Start(t), history), MainLock);
    history := history + [MainLock];
    StartHasInv(t);
    ExecKeepsInv(t, Start(t), history + [Broadcast]);
    var more := Completion(t, Exec(t, Start(t), history + [Broadcast]));
    labels := history + [Broadcast] + more;
    ExecConcat(t, Start(t), history + [Broadcast], more);
    forall f: nat
      ensures f in Exec(t, Start(t), labels).called <==> f < |t.before| && f in early
    {
      CalledExactlyIfWaiting(t, history, more, f);
    }
    BroadcastStays(t, history, more);
    CompleteRunsCallExactlyTheWoken(t, labels);
  }

  lemma BroadcastStays(t: Table, history: seq<Label>, labels: seq<Label>)
    requires Exec(t, Start(t), history).main.Started?
    ensures HasBroadcast(Exec(t, Start(t), history + [Broadcast] + labels))
  {
    ExecConcat(t, Start(t), history, [Broadcast]);
    Unroll1(t, Exec(t, Start(t), history), Broadcast);
    ExecConcat(t, Start(t), history + [Broadcast], labels);
    WokenIsSettled(t, Exec(t, Start(t), history + [Broadcast]), labels);
  }
}
