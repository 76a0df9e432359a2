/** What the scheduling-properties protocol of src/fiber.c guarantees about whole runs. */
module ScheduleTheorems {
  import opened Common
  import opened ScheduleProps
  import opened ScheduleProtocol
  import opened ScheduleLoops

  // ---------- safety of every run ----------

  lemma {:induction false} AcksGrow(m: nat, n: nat)
    requires m <= n
    ensures Acks(m) <= Acks(n) && |Acks(n)| == 2 * n
    ensures PTYPE_ERROR !in Acks(n)
    decreases n
  {
    if m < n {
      AcksGrow(m, n - 1);
    } else if n > 0 {
      AcksGrow(n - 1, n - 1);
    }
  }

  /** On the wire the acknowledgements alternate: 255 for receipt, 253 for the command. */
  lemma {:induction false} AcksAlternate(n: nat, i: nat)
    requires i < 2 * n
    ensures |Acks(n)| == 2 * n && Acks(n)[i] == if i % 2 == 0 then 255 else 253
    decreases n
  {
    AcksGrow(n, n);
    AcksGrow(n - 1, n - 1);
    if i < 2 * (n - 1) {
      AcksAlternate(n - 1, i);
    }
  }

  lemma AttemptsArePrefix<K>(cfg: Config<K>, s: State<K>)
    requires s.applied <= cfg.table && AttemptsInv(s)
    requires s.server.Binding? || s.server.Scheduling? ==> |s.applied| < |cfg.table|
    ensures s.attempts <= Acks(|cfg.table|)
    ensures PTYPE_ERROR !in s.attempts
  {
    var n := |s.applied|;
    AcksGrow(n, |cfg.table|);
    if s.server.Binding? || s.server.Scheduling? {
      assert Acks(n) + [PTYPE_RCV_ACK] <= Acks(n + 1);
      AcksGrow(n + 1, |cfg.table|);
    } else if s.server.Confirming? {
      assert Acks(n - 1) + [PTYPE_RCV_ACK] <= Acks(n);
    }
  }

  /** In every reachable state, whatever timed out and whatever send failed: at most one
      request is on its way, the pending replies are a subsequence of the two
      acknowledgements, the server has set a prefix of the table in order, and what it has
      tried to send is a prefix of the acknowledgements for the whole table, so never
      PTYPE_ERROR. */
  lemma SafetyOfEveryRun<K>(cfg: Config<K>, labels: seq<Label>)
    ensures var s := Run(cfg, labels);
            && |s.requests| <= 1
            && Subsequence(s.replies)
            && s.applied <= cfg.table
            && s.attempts <= Acks(|cfg.table|)
            && PTYPE_ERROR !in s.attempts
            && !s.server.Failing?
  {
    RunKeepsInv(cfg, labels);
    AttemptsArePrefix(cfg, Run(cfg, labels));
  }

  // ---------- refinement ----------

  /** A call that returns 0 has set every element exactly once and in order, and leaves the
      kernel as the server calling baa_set_schedule_props on the same table would, with
      nothing left on its way. */
  lemma ViaServerRefinesDirect<K>(cfg: Config<K>, labels: seq<Label>)
    requires Run(cfg, labels).client.pc == Returned(0)
    ensures var s := Run(cfg, labels);
            && s.applied == cfg.table
            && s.attempts == Acks(|cfg.table|)
            && s.kernel == ApplyAll(cfg.kernel, cfg.server, cfg.init, cfg.table)
            && s.requests == [] && s.replies == [] && Idle(s.server)
  {
    RunKeepsInv(cfg, labels);
  }

  lemma {:induction false} ApplyConcat<K>(kernel: (K, Syscall) -> K, caller: int, k: K, a: seq<Props>, b: seq<Props>)
    ensures ApplyAll(kernel, caller, k, a + b) == ApplyAll(kernel, caller, ApplyAll(kernel, caller, k, a), b)
    decreases |b|
  {
    if b == [] {
      assert a + b == a;
    } else {
      var n := |b| - 1;
      assert (a + b)[..|a + b| - 1] == a + b[..n];
      ApplyConcat(kernel, caller, k, a, b[..n]);
    }
  }

  /** A call that returns 0 leaves nothing on its way, so a later call starts afresh, even
      while the server is still reporting: two successful calls, one after the other, set the
      two tables as one direct call on their concatenation would. */
  lemma SuccessiveCalls<K>(first: Config<K>, second: Config<K>, a: seq<Label>, b: seq<Label>)
    requires Run(first, a).client.pc == Returned(0) && Run(second, b).client.pc == Returned(0)
    requires second.kernel == first.kernel && second.server == first.server
    requires second.init == Run(first, a).kernel && second.reporting == Run(first, a).server.Reporting?
    ensures var s := Run(first, a);
            Start(second) == s.(client := ClientAt(0, |second.table|), attempts := [], applied := [])
    ensures Run(second, b).kernel == ApplyAll(first.kernel, first.server, first.init, first.table + second.table)
  {
    ViaServerRefinesDirect(first, a);
    ViaServerRefinesDirect(second, b);
    ApplyConcat(first.kernel, first.server, first.init, first.table, second.table);
  }

  /** So it is also what the client itself would have reached, for every kernel, when no
      thread id is 0. */
  lemma ViaServerEqualsOwnCall<K>(cfg: Config<K>, labels: seq<Label>, client: int)
    requires Run(cfg, labels).client.pc == Returned(0)
    requires forall p :: p in cfg.table ==> p.tid != 0
    ensures Run(cfg, labels).kernel == ApplyAll(cfg.kernel, client, cfg.init, cfg.table)
  {
    ViaServerRefinesDirect(cfg, labels);
    CallerDoesNotMatter(cfg.kernel, cfg.server, client, cfg.init, cfg.table);
  }

  /** And only then: the recording kernel sees the difference as soon as one thread id is 0,
      because the call then acts on the thread that makes it. */
  lemma OwnCallDiffersForZeroTid(cfg: Config<seq<Syscall>>, labels: seq<Label>, client: int)
    requires cfg.kernel == Recording && client != cfg.server
    requires Run(cfg, labels).client.pc == Returned(0)
    ensures Run(cfg, labels).kernel == ApplyAll(cfg.kernel, client, cfg.init, cfg.table)
            <==> forall p :: p in cfg.table ==> p.tid != 0
  {
    ViaServerRefinesDirect(cfg, labels);
    CallerMattersForZeroTid(cfg.server, client, cfg.init, cfg.table);
  }

  /** Validation carries through: whatever the server sets, or is about to set, for a table
      the validator accepts is itself acceptable. */
  lemma ValidationCarriesThrough<K>(cfg: Config<K>, labels: seq<Label>, limits: Limits)
    requires forall p :: p in cfg.table ==> LegalProps(limits, p)
    ensures var s := Run(cfg, labels);
            && (forall p :: p in s.applied ==> LegalProps(limits, p))
            && (s.server.Binding? || s.server.Scheduling? ==> LegalProps(limits, s.server.p))
  {
    RunKeepsInv(cfg, labels);
    var s := Run(cfg, labels);
    forall p | p in s.applied
      ensures LegalProps(limits, p)
    {
      var j :| 0 <= j < |s.applied| && s.applied[j] == p;
      assert cfg.table[j] == p;
    }
    if s.server.Binding? || s.server.Scheduling? {
      assert s.server.p == cfg.table[s.client.i];
    }
  }

  // ---------- giving up ----------

  /** A client that has returned takes no more steps. */
  lemma {:induction false} ReturnedStays<K>(cfg: Config<K>, labels: seq<Label>, more: seq<Label>)
    requires Run(cfg, labels).client.pc.Returned?
    ensures Run(cfg, labels + more).client == Run(cfg, labels).client
    decreases |more|
  {
    if more == [] {
      assert labels + more == labels;
    } else {
      var n := |more| - 1;
      assert (labels + more)[..|labels + more| - 1] == labels + more[..n];
      ReturnedStays(cfg, labels, more[..n]);
    }
  }

  /** When the client has given up at element `i`, the server has set `i` or `i + 1`
      elements, however long it goes on running afterwards. */
  lemma GivingUp<K>(cfg: Config<K>, labels: seq<Label>, more: seq<Label>)
    requires Run(cfg, labels).client.pc == Returned(-1)
    ensures var i, s := Run(cfg, labels).client.i, Run(cfg, labels + more);
            && i < |cfg.table|
            && (s.applied == cfg.table[..i] || s.applied == cfg.table[..i + 1])
  {
    ReturnedStays(cfg, labels, more);
    RunKeepsInv(cfg, labels + more);
  }

  /** With nothing on its way and the client returned, nothing more is set. */
  lemma {:induction false} QuietStays<K>(cfg: Config<K>, s: State<K>, more: seq<Label>, i: nat)
    requires s.client.pc.Returned? && Quiet(s, i)
    ensures var t := StepAll(cfg, s, more); t.client == s.client && t.applied == s.applied && Quiet(t, i)
    decreases |more|
  {
    if more != [] {
      QuietStays(cfg, s, more[..|more| - 1], i);
    }
  }

  /** When what failed was the send itself, the server has set exactly `i` elements and
      never sets another. */
  lemma FailedSend<K>(cfg: Config<K>, labels: seq<Label>, more: seq<Label>)
    requires Run(cfg, labels).client.pc.Sending?
    ensures var i, s := Run(cfg, labels).client.i, Run(cfg, labels + [ClientSend(false)] + more);
            && s.client == Client(i, Returned(-1))
            && i < |cfg.table|
            && s.applied == cfg.table[..i]
            && Quiet(s, i)
  {
    RunKeepsInv(cfg, labels);
    var failed := labels + [ClientSend(false)];
    assert failed[..|labels|] == labels;
    QuietStays(cfg, Run(cfg, failed), more, Run(cfg, labels).client.i);
    RunConcat(cfg, failed, more);
  }

  /** One more step at the end of a run. */
  lemma OneMore<K>(cfg: Config<K>, labels: seq<Label>, l: Label) returns (more: seq<Label>)
    ensures Run(cfg, more) == Step(cfg, Run(cfg, labels), l)
  {
    more := labels + [l];
    assert more[..|labels|] == labels;
  }

  /** Further steps from a state. */
  function StepAll<K>(cfg: Config<K>, s: State<K>, labels: seq<Label>): State<K> {
    if labels == [] then s
    else Step(cfg, StepAll(cfg, s, labels[..|labels| - 1]), labels[|labels| - 1])
  }

  lemma {:induction false} RunConcat<K>(cfg: Config<K>, labels: seq<Label>, more: seq<Label>)
    ensures Run(cfg, labels + more) == StepAll(cfg, Run(cfg, labels), more)
    decreases |more|
  {
    if more == [] {
      assert labels + more == labels;
    } else {
      var n := |more| - 1;
      assert (labels + more)[..|labels + more| - 1] == labels + more[..n];
      RunConcat(cfg, labels, more[..n]);
    }
  }

  predicate IsServerStep(l: Label) {
    l.ServerReceive? || l.ServerTimeout? || l.ServerReply? || l.ServerCall? || l.ServerReport?
  }

  /** Two runs that show the client the same send outcomes and the same answers. */
  ghost predicate LookAlike<K>(cfg: Config<K>, a: seq<Label>, b: seq<Label>) {
    Sends(cfg, a) == Sends(cfg, b) && Answers(cfg, a) == Answers(cfg, b)
  }

  /** Steps of the server show the client nothing. */
  lemma {:induction false} ServerStepsUnseen<K>(cfg: Config<K>, labels: seq<Label>, more: seq<Label>)
    requires forall i :: 0 <= i < |more| ==> IsServerStep(more[i])
    ensures LookAlike(cfg, labels, labels + more)
    decreases |more|
  {
    if more == [] {
      assert labels + more == labels;
    } else {
      var n := |more| - 1;
      assert (labels + more)[..|labels + more| - 1] == labels + more[..n];
      ServerStepsUnseen(cfg, labels, more[..n]);
    }
  }

  /** A timeout shows the client the same whatever the server has done. */
  lemma TimeOut<K>(cfg: Config<K>, labels: seq<Label>, i: nat)
    requires Run(cfg, labels).client == Client(i, Waiting)
    ensures var t := Run(cfg, labels + [ClientTimeout]);
            t.client == Client(i, Returned(-1)) && t.applied == Run(cfg, labels).applied
    ensures Sends(cfg, labels + [ClientTimeout]) == Sends(cfg, labels)
    ensures Answers(cfg, labels + [ClientTimeout]) == Answers(cfg, labels) + [None]
  {
    assert (labels + [ClientTimeout])[..|labels|] == labels;
  }

  /** Two waiting clients that have seen the same time out and still have seen the same. */
  lemma TimeOutBoth<K>(cfg: Config<K>, a: seq<Label>, b: seq<Label>, i: nat) returns (c: seq<Label>, d: seq<Label>)
    requires Run(cfg, a).client == Run(cfg, b).client == Client(i, Waiting) && LookAlike(cfg, a, b)
    ensures Run(cfg, c).client == Run(cfg, d).client == Client(i, Returned(-1)) && LookAlike(cfg, c, d)
    ensures Run(cfg, c).applied == Run(cfg, a).applied && Run(cfg, d).applied == Run(cfg, b).applied
  {
    c, d := a + [ClientTimeout], b + [ClientTimeout];
    TimeOut(cfg, a, i);
    TimeOut(cfg, b, i);
  }

  /** The server's steps from a request to its element set, with the receipt lost. */
  const UNRECEIPTED: seq<Label> := [ServerReceive, ServerReply(false), ServerCall, ServerCall]

  lemma UnreceiptedSets<K>(cfg: Config<K>, s: State<K>, p: Props)
    requires s.server == Receiving && s.requests == [EncodeRequest(p)]
    ensures var t := StepAll(cfg, s, UNRECEIPTED);
            && t.client == s.client && t.server == Confirming(p)
            && t.replies == s.replies && t.applied == s.applied + [p]
  {
    RequestReachesServer(p);
    var s1 := Step(cfg, s, ServerReceive);
    var s2 := Step(cfg, s1, ServerReply(false));
    assert s2.client == s.client && s2.server == Binding(p) && s2.replies == s.replies && s2.applied == s.applied;
    var s4 := Step(cfg, Step(cfg, s2, ServerCall), ServerCall);
    assert s4.client == s.client && s4.server == Confirming(p) && s4.applied == s.applied + [p];
    assert StepAll(cfg, s, UNRECEIPTED) == s4 by {
      assert UNRECEIPTED[..3] == [ServerReceive, ServerReply(false), ServerCall];
      assert UNRECEIPTED[..3][..2] == [ServerReceive, ServerReply(false)];
      assert [ServerReceive, ServerReply(false)][..1] == [ServerReceive];
      assert StepAll(cfg, s, [ServerReceive]) == s1;
      assert StepAll(cfg, s, [ServerReceive, ServerReply(false)]) == s2;
    }
  }

  /** From a client about to send element `i`, that element is sent. */
  lemma SendElement<K>(cfg: Config<K>, labels: seq<Label>, i: nat) returns (sent: seq<Label>)
    requires i < |cfg.table|
    requires var s := Run(cfg, labels); s.client == Client(i, Sending) && s.server == Receiving
    ensures var s := Run(cfg, sent);
            && s.client == Client(i, Waiting) && s.server == Receiving
            && s.requests != [] && s.replies == [] && s.applied == cfg.table[..i]
  {
    RunKeepsInv(cfg, labels);
    sent := OneMore(cfg, labels, ClientSend(true));
  }

  /** The server then sets it while its receipt is lost. */
  lemma SetWithoutReceipt<K>(cfg: Config<K>, sent: seq<Label>, i: nat) returns (more: seq<Label>)
    requires i < |cfg.table|
    requires var s := Run(cfg, sent); s.client == Client(i, Waiting) && s.server == Receiving && s.requests != []
    ensures var t := Run(cfg, more);
            && t.client == Client(i, Waiting) && t.server == Confirming(cfg.table[i])
            && t.replies == [] && t.applied == cfg.table[..i + 1]
    ensures LookAlike(cfg, sent, more)
  {
    RunKeepsInv(cfg, sent);
    assert cfg.table[..i] + [cfg.table[i]] == cfg.table[..i + 1];
    more := sent + UNRECEIPTED;
    RunConcat(cfg, sent, UNRECEIPTED);
    UnreceiptedSets(cfg, Run(cfg, sent), cfg.table[i]);
    ServerStepsUnseen(cfg, sent, UNRECEIPTED);
  }

  /** A confirmed element takes the client to the next one. */
  lemma ConfirmElement<K>(cfg: Config<K>, labels: seq<Label>, i: nat) returns (more: seq<Label>)
    requires var s := Run(cfg, labels);
             s.client == Client(i, Waiting) && s.server.Confirming? && s.replies == []
    ensures Run(cfg, more).client == ClientAt(i + 1, |cfg.table|) && Run(cfg, more).server == Receiving
  {
    more := OneMore(cfg, labels, ServerReply(true));
    more := OneMore(cfg, more, ServerReport);
    more := OneMore(cfg, more, ClientReceive);
  }

  /** Some run brings the client to the send of any element. */
  lemma {:induction false} ReachElement<K>(cfg: Config<K>, i: nat) returns (labels: seq<Label>)
    requires i < |cfg.table|
    ensures var s := Run(cfg, labels); s.client == Client(i, Sending) && s.server == Receiving
  {
    if i == 0 {
      labels := OneMore(cfg, [], ServerReport);
    } else {
      labels := ReachElement(cfg, i - 1);
      labels := SendElement(cfg, labels, i - 1);
      labels := SetWithoutReceipt(cfg, labels, i - 1);
      labels := ConfirmElement(cfg, labels, i - 1);
    }
  }

  /** The client waits for element `i` in the same way before and after it has been set. */
  lemma WaitingEitherWay<K>(cfg: Config<K>, i: nat) returns (sent: seq<Label>, served: seq<Label>)
    requires i < |cfg.table|
    ensures Run(cfg, sent).client == Run(cfg, served).client == Client(i, Waiting)
    ensures Run(cfg, sent).applied == cfg.table[..i] && Run(cfg, served).applied == cfg.table[..i + 1]
    ensures LookAlike(cfg, sent, served)
  {
    sent := ReachElement(cfg, i);
    sent := SendElement(cfg, sent, i);
    served := SetWithoutReceipt(cfg, sent, i);
  }

  /** Both cases of `GivingUp` occur at every element, in two runs that show the client the
      same send outcomes and the same answers: a client that timed out cannot tell whether
      the element it was waiting for has been set. */
  lemma TimedOutEitherWay<K>(cfg: Config<K>, i: nat) returns (before: seq<Label>, after: seq<Label>)
    requires i < |cfg.table|
    ensures Run(cfg, before).client == Run(cfg, after).client == Client(i, Returned(-1))
    ensures Run(cfg, before).applied == cfg.table[..i] && Run(cfg, after).applied == cfg.table[..i + 1]
    ensures LookAlike(cfg, before, after)
  {
    var sent, served := WaitingEitherWay(cfg, i);
    before, after := TimeOutBoth(cfg, sent, served, i);
  }

  // ---------- runs without faults ----------

  /** A step that does something and in which nothing times out and no send fails. */
  predicate Productive<K>(cfg: Config<K>, s: State<K>, l: Label) {
    Enabled(cfg, s, l) &&
    match l
    case ClientSend(ok) => ok
    case ServerReply(ok) => ok
    case ClientTimeout => false
    case ServerTimeout => false
    case _ => true
  }

  predicate Smooth<K>(cfg: Config<K>, labels: seq<Label>) {
    labels == [] ||
    (Smooth(cfg, labels[..|labels| - 1]) && Productive(cfg, Run(cfg, labels[..|labels| - 1]), labels[|labels| - 1]))
  }

  /** The steps still to come: nine for each element not sent yet, fewer for one under way. */
  function StepsLeft<K>(cfg: Config<K>, s: State<K>): int {
    var unsent :=
      match s.client.pc
      case Sending => |cfg.table| - s.client.i
      case Waiting => |cfg.table| - s.client.i - 1
      case Returned(_) => 0;
    var serving :=
      match s.server
      case Receiving => 0
      case Acking(_) => 7
      case Binding(_) => 5
      case Scheduling(_) => 4
      case Confirming(_) => 3
      case Failing => 2
      case Reporting => 1;
    9 * unsent + 8 * |s.requests| + serving + |s.replies|
  }

  /** Without faults a waiting client always has its acknowledgement coming. */
  predicate AckComing<K>(s: State<K>) {
    && s.client.pc != Returned(-1)
    && (s.client.pc.Waiting? && Idle(s.server) && s.requests == [] ==> PTYPE_CMD_ACK in s.replies)
  }

  lemma ProductiveStep<K>(cfg: Config<K>, s: State<K>, l: Label)
    requires Inv(cfg, s) && AckComing(s) && Productive(cfg, s, l)
    ensures AckComing(Step(cfg, s, l))
    ensures StepsLeft(cfg, Step(cfg, s, l)) == StepsLeft(cfg, s) - 1
  {
    match l
    case ServerReceive => RequestReachesServer(cfg.table[s.client.i]);
    case ClientReceive => ProductiveReceive(cfg, s);
    case ServerReply(_) => ProductiveReply(cfg, s);
    case _ =>
  }

  lemma ProductiveReply<K>(cfg: Config<K>, s: State<K>)
    requires Inv(cfg, s) && AckComing(s) && Enabled(cfg, s, ServerReply(true))
    ensures AckComing(Step(cfg, s, ServerReply(true)))
    ensures StepsLeft(cfg, Step(cfg, s, ServerReply(true))) == StepsLeft(cfg, s) - 1
  {
    var t := Step(cfg, s, ServerReply(true));
    if s.server.Confirming? {
      assert t.replies == s.replies + [PTYPE_CMD_ACK];
      assert t.replies[|s.replies|] == PTYPE_CMD_ACK;
    } else {
      assert s.server.Acking?;
      assert t.replies == s.replies + [PTYPE_RCV_ACK];
    }
  }

  lemma ProductiveReceive<K>(cfg: Config<K>, s: State<K>)
    requires Inv(cfg, s) && AckComing(s) && Enabled(cfg, s, ClientReceive)
    ensures AckComing(Step(cfg, s, ClientReceive))
    ensures StepsLeft(cfg, Step(cfg, s, ClientReceive)) == StepsLeft(cfg, s) - 1
  {
    if s.replies[0] == PTYPE_CMD_ACK {
      assert s.replies[1..] == [];
    } else {
      assert PTYPE_CMD_ACK in s.replies ==> PTYPE_CMD_ACK in s.replies[1..];
    }
  }

  /** The steps of a whole call: nine per element, and one more if the server begins by
      finishing an earlier report. */
  function TotalSteps<K>(cfg: Config<K>): nat {
    9 * |cfg.table| + if cfg.reporting then 1 else 0
  }

  lemma {:induction false} SmoothRun<K>(cfg: Config<K>, labels: seq<Label>)
    requires Smooth(cfg, labels)
    ensures AckComing(Run(cfg, labels))
    ensures StepsLeft(cfg, Run(cfg, labels)) == TotalSteps(cfg) - |labels|
  {
    if labels != [] {
      var init := labels[..|labels| - 1];
      SmoothRun(cfg, init);
      RunKeepsInv(cfg, init);
      ProductiveStep(cfg, Run(cfg, init), labels[|labels| - 1]);
    }
  }

  /** Some productive step is enabled until the client has returned and the server is back
      at its receive. */
  lemma SomeStepEnabled<K>(cfg: Config<K>, s: State<K>) returns (l: Label)
    requires Inv(cfg, s) && AckComing(s) && StepsLeft(cfg, s) > 0
    ensures Productive(cfg, s, l)
  {
    if s.server.Reporting? {
      l := ServerReport;
    } else if s.server.Binding? || s.server.Scheduling? {
      l := ServerCall;
    } else if s.server.Acking? || s.server.Confirming? {
      l := ServerReply(true);
    } else if s.requests != [] {
      l := ServerReceive;
    } else if s.client.pc.Waiting? {
      l := ClientReceive;
    } else {
      l := ClientSend(true);
    }
  }

  /** Without faults the protocol neither stalls nor runs on: a run is complete, meaning that
      no productive step is left, exactly after nine steps per element (and one for a report
      still under way at the start), and then the call has returned 0 with every property
      set. */
  lemma FaultlessRunCompletes<K>(cfg: Config<K>, labels: seq<Label>)
    requires Smooth(cfg, labels)
    ensures |labels| <= TotalSteps(cfg)
    ensures (forall l :: !Productive(cfg, Run(cfg, labels), l)) <==> |labels| == TotalSteps(cfg)
    ensures |labels| == TotalSteps(cfg) ==>
              var s := Run(cfg, labels);
              && s.client.pc == Returned(0)
              && s.applied == cfg.table
              && s.kernel == ApplyAll(cfg.kernel, cfg.server, cfg.init, cfg.table)
  {
    SmoothRun(cfg, labels);
    RunKeepsInv(cfg, labels);
    var s := Run(cfg, labels);
    assert StepsLeft(cfg, s) >= 0;
    if StepsLeft(cfg, s) > 0 {
      var l := SomeStepEnabled(cfg, s);
    } else {
      forall l
        ensures !Productive(cfg, s, l)
      {
        if Productive(cfg, s, l) {
          ProductiveStep(cfg, s, l);
          StepKeepsInv(cfg, s, l);
          assert false;
        }
      }
      ViaServerRefinesDirect(cfg, labels);
    }
  }

  /** Such a run exists for every table, so a call can return 0 for every table. */
  lemma {:induction false} CompleteRunExists<K>(cfg: Config<K>, n: nat) returns (labels: seq<Label>)
    requires n <= TotalSteps(cfg)
    ensures Smooth(cfg, labels) && |labels| == n
    ensures n == TotalSteps(cfg) ==> Run(cfg, labels).client.pc == Returned(0)
    decreases n
  {
    if n == 0 {
      labels := [];
    } else {
      var init := CompleteRunExists(cfg, n - 1);
      SmoothRun(cfg, init);
      RunKeepsInv(cfg, init);
      var l := SomeStepEnabled(cfg, Run(cfg, init));
      labels := init + [l];
      assert labels[..|labels| - 1] == init;
    }
    FaultlessRunCompletes(cfg, labels);
  }

  /** A concrete difference: one element with thread id 0 sent from thread 2 to a server that is
      thread 1 is set on the server, not on the sender. */
  lemma ZeroTidActsOnServer() returns (labels: seq<Label>)
    ensures var p := Props(0, SCHED_OTHER, 3, 0);
            var cfg := Config([p], Recording, 1, [], false);
            && Run(cfg, labels).client.pc == Returned(0)
            && Run(cfg, labels).kernel == [SetAffinity(1, 3), SetScheduler(1, SCHED_OTHER, 0)]
            && ApplyAll(Recording, 2, [], [p]) == [SetAffinity(2, 3), SetScheduler(2, SCHED_OTHER, 0)]
  {
    var p := Props(0, SCHED_OTHER, 3, 0);
    var cfg := Config([p], Recording, 1, [], false);
    labels := CompleteRunExists(cfg, TotalSteps(cfg));
    ViaServerRefinesDirect(cfg, labels);
    OneElement(1, p);
    OneElement(2, p);
  }

  lemma OneElement(caller: int, p: Props)
    ensures ApplyAll(Recording, caller, [], [p]) == [AffinityCall(caller, p), SchedulerCall(caller, p)]
  {
    assert [p][..0] == [];
    assert ApplyAll(Recording, caller, [], [p]) == ApplyOne(Recording, caller, [], p);
  }
}
