/** src/fiber.c, the two protocol loops as the code runs them, on their reused buffers: each
    is proved to compute what the steps of `ScheduleProtocol` say. */
module ScheduleLoops {
  import opened CInt
  import opened Common
  import opened Serialize
  import opened ScheduleProps
  import opened ScheduleProtocol

  // ---------- the server ----------

  /** The request a datagram carries, from its first 17 bytes padded with zeros alone. */
  function RequestOf(datagram: seq<Byte>): Option<Props> {
    var msg := Padded(datagram, REQUEST_SIZE);
    if msg[0] == PTYPE_SCHED_PROPS then Some(DecodeRequest(msg)) else None
  }

  function RequestIn(received: Option<seq<Byte>>): Option<Props> {
    if received.None? then None else RequestOf(received.value)
  }

  /** The requests in a series of receives, `None` being a receive that timed out. */
  function Requests(received: seq<Option<seq<Byte>>>): seq<Props> {
    if received == [] then []
    else
      var n := |received| - 1;
      var earlier, request := Requests(received[..n]), RequestIn(received[n]);
      if request.None? then earlier else earlier + [request.value]
  }

  class ScheduleServer<K> {
    const kernelStep: (K, Syscall) -> K
    const self: int
    const buf: array<Byte>
    var element: Props
    var kernel: K
    var handled: seq<Props>
    var attempts: seq<Byte>

    ghost predicate Valid()
      reads this
    {
      buf.Length == MAX_LEN_MSG
    }

    constructor (kernelStep: (K, Syscall) -> K, self: int, kernel: K)
      ensures Valid() && fresh(buf)
      ensures this.kernelStep == kernelStep && this.self == self && this.kernel == kernel
      ensures handled == [] && attempts == []
    {
      this.kernelStep, this.self, this.kernel := kernelStep, self, kernel;
      buf := new Byte[MAX_LEN_MSG];
      element := Props(0, 0, 0, 0);
      handled, attempts := [], [];
    }

    /** CLEAN_SCHED_PROPS_SERVER. */
    method Clean()
      requires Valid()
      modifies this`element, buf
      ensures element == Props(0, 0, 0, 0)
      ensures forall i :: 0 <= i < buf.Length ==> buf[i] == 0
    {
      for i := 0 to buf.Length
        invariant forall j :: 0 <= j < i ==> buf[j] == 0
      {
        buf[i] := 0;
      }
      element := Props(0, 0, 0, 0);
    }

    /** recvfrom into the buffer: the bytes past the datagram keep what they held. */
    method Receive(datagram: seq<Byte>)
      requires Valid()
      modifies buf
      ensures forall i :: 0 <= i < buf.Length ==> buf[i] == if i < |datagram| then datagram[i] else old(buf[i])
    {
      var n := if |datagram| < buf.Length then |datagram| else buf.Length;
      for i := 0 to n
        invariant forall j :: 0 <= j < buf.Length ==> buf[j] == if j < i then datagram[j] else old(buf[j])
      {
        buf[i] := datagram[i];
      }
    }

    /** One turn of the endless loop. */
    method Iterate(received: Option<seq<Byte>>)
      requires Valid()
      modifies this, buf
      ensures Valid()
      ensures var request := RequestIn(received);
              if request.None? then
                && kernel == old(kernel) && handled == old(handled) && attempts == old(attempts)
              else
                && kernel == ApplyOne(kernelStep, self, old(kernel), request.value)
                && handled == old(handled) + [request.value]
                && attempts == old(attempts) + [PTYPE_RCV_ACK, PTYPE_CMD_ACK]
    {
      Clean();
      if received.None? {
        return;
      }
      Receive(received.value);
      assert buf[..REQUEST_SIZE] == Padded(received.value, REQUEST_SIZE);
      if buf[0] == PTYPE_SCHED_PROPS {
        RequestShape();
        var numUnpacked, v := Unpack(buf, REQUEST_FORMAT, Long32);
        element := Props(ToS32(v[1]), ToS32(v[2]), ToS32(v[3]), ToS32(v[4]));
        if numUnpacked > MAX_LEN_MSG {
          assert false;  // the first SEND_ERROR is never reached
        }
        attempts := attempts + [PTYPE_RCV_ACK];
        var result;
        result, kernel := SetScheduleProps(kernelStep, self, kernel, [element], 1);
        assert [element][..1] == [element] && [element][..0] == [];
        assert kernel == ApplyOne(kernelStep, self, old(kernel), element);
        handled := handled + [element];
        if result != 0 {
          assert false;  // nor is the second
        }
        attempts := attempts + [PTYPE_CMD_ACK];
      }
    }

    /** Any number of turns: the requests handled and the kernel reached are functions of the
        datagrams one by one. */
    method Serve(received: seq<Option<seq<Byte>>>)
      requires Valid()
      modifies this, buf
      ensures Valid()
      ensures handled == old(handled) + Requests(received)
      ensures kernel == ApplyAll(kernelStep, self, old(kernel), Requests(received))
      ensures attempts == old(attempts) + Acks(|Requests(received)|)
    {
      for i := 0 to |received|
        invariant Valid()
        invariant handled == old(handled) + Requests(received[..i])
        invariant kernel == ApplyAll(kernelStep, self, old(kernel), Requests(received[..i]))
        invariant attempts == old(attempts) + Acks(|Requests(received[..i])|)
      {
        assert received[..i + 1][..i] == received[..i];
        AppendRequest(kernelStep, self, old(kernel), Requests(received[..i]), RequestIn(received[i]));
        Iterate(received[i]);
      }
      assert received[..|received|] == received;
    }
  }

  lemma AppendRequest<K>(kernel: (K, Syscall) -> K, caller: int, k: K, rs: seq<Props>, request: Option<Props>)
    ensures request.Some? ==>
              && ApplyAll(kernel, caller, k, rs + [request.value]) ==
                 ApplyOne(kernel, caller, ApplyAll(kernel, caller, k, rs), request.value)
              && Acks(|rs + [request.value]|) == Acks(|rs|) + [PTYPE_RCV_ACK, PTYPE_CMD_ACK]
  {
    if request.Some? {
      assert (rs + [request.value])[..|rs|] == rs;
    }
  }

  /** The code's buffer of 100 bytes shows the server nothing beyond the padded request. */
  lemma ReceiveIsRequestOf(datagram: seq<Byte>)
    ensures ServerAfterReceive(datagram) ==
            match RequestOf(datagram) { case None => Receiving case Some(p) => Acking(p) }
  {
    RequestShape();
    assert Padded(datagram, MAX_LEN_MSG)[..REQUEST_SIZE] == Padded(datagram, REQUEST_SIZE);
  }

  /** The type byte is 0, so everything that starts with a zero byte is a request, and so is a
      datagram without any byte. */
  lemma RequestExactlyWhenZeroByte(datagram: seq<Byte>)
    ensures RequestOf(datagram).Some? <==> datagram == [] || datagram[0] == 0
  {
    assert Padded(datagram, REQUEST_SIZE)[0] == if 0 < |datagram| then datagram[0] else 0;
  }

  /** History independence: what a datagram is decoded to is the same after any other
      datagrams, and two series whose datagrams agree when padded to 17 bytes carry the same
      requests. */
  lemma {:induction false} HistoryIndependence(
      history: seq<Option<seq<Byte>>>, a: seq<Option<seq<Byte>>>, b: seq<Option<seq<Byte>>>)
    requires |a| == |b|
    requires forall i :: 0 <= i < |a| ==> a[i].None? == b[i].None?
    requires forall i :: 0 <= i < |a| && a[i].Some? ==>
               Padded(a[i].value, REQUEST_SIZE) == Padded(b[i].value, REQUEST_SIZE)
    ensures Requests(history + a) == Requests(history) + Requests(b)
  {
    if a == [] {
      assert history + a == history;
    } else {
      var n := |a| - 1;
      var all := history + a;
      assert all[..|all| - 1] == history + a[..n] && all[|all| - 1] == a[n];
      LastRequest(all);
      LastRequest(b);
      assert RequestIn(a[n]) == RequestIn(b[n]);
      HistoryIndependence(history, a[..n], b[..n]);
      Regroup(Requests(history), Requests(b[..n]), Carried(b[n]));
    }
  }

  /** The request of one receive as a sequence. */
  function Carried(received: Option<seq<Byte>>): seq<Props> {
    if RequestIn(received).None? then [] else [RequestIn(received).value]
  }

  lemma LastRequest(received: seq<Option<seq<Byte>>>)
    requires received != []
    ensures var n := |received| - 1; Requests(received) == Requests(received[..n]) + Carried(received[n])
  {
  }

  /** The three parts of a turn: receipt, the two calls, confirmation. */
  lemma ReceiptSteps<K>(cfg: Config<K>, s: State<K>, p: Props, ok: bool)
    requires s.server == Receiving && s.requests != [] && RequestOf(s.requests[0]) == Some(p)
    ensures var t := Step(cfg, Step(cfg, s, ServerReceive), ServerReply(ok));
            && t.server == Binding(p) && t.requests == s.requests[1..]
            && t.kernel == s.kernel && t.applied == s.applied && t.attempts == s.attempts + [PTYPE_RCV_ACK]
  {
    ReceiveIsRequestOf(s.requests[0]);
  }

  lemma CallSteps<K>(cfg: Config<K>, s: State<K>, p: Props)
    requires s.server == Binding(p)
    ensures var t := Step(cfg, Step(cfg, s, ServerCall), ServerCall);
            && t.server == Confirming(p) && t.requests == s.requests && t.attempts == s.attempts
            && t.kernel == ApplyOne(cfg.kernel, cfg.server, s.kernel, p) && t.applied == s.applied + [p]
  {
  }

  lemma ConfirmationSteps<K>(cfg: Config<K>, s: State<K>, p: Props, ok: bool)
    requires s.server == Confirming(p)
    ensures var t := Step(cfg, Step(cfg, s, ServerReply(ok)), ServerReport);
            && t.server == Receiving && t.requests == s.requests && t.attempts == s.attempts + [PTYPE_CMD_ACK]
            && t.kernel == s.kernel && t.applied == s.applied
  {
  }

  /** The state after one turn of the loop, taken as steps of the protocol. */
  function Turn<K>(cfg: Config<K>, s: State<K>, ok1: bool, ok2: bool): State<K> {
    var received := Step(cfg, Step(cfg, s, ServerReceive), ServerReply(ok1));
    var called := Step(cfg, Step(cfg, received, ServerCall), ServerCall);
    Step(cfg, Step(cfg, called, ServerReply(ok2)), ServerReport)
  }

  /** One turn of the loop is six steps of the protocol. */
  lemma TurnIsSixSteps<K>(cfg: Config<K>, s: State<K>, p: Props, ok1: bool, ok2: bool)
    requires s.server == Receiving && s.requests != [] && RequestOf(s.requests[0]) == Some(p)
    ensures var t := Turn(cfg, s, ok1, ok2);
            && t.server == Receiving
            && t.requests == s.requests[1..]
            && t.kernel == ApplyOne(cfg.kernel, cfg.server, s.kernel, p)
            && t.applied == s.applied + [p]
            && t.attempts == s.attempts + [PTYPE_RCV_ACK, PTYPE_CMD_ACK]
  {
    var received := Step(cfg, Step(cfg, s, ServerReceive), ServerReply(ok1));
    ReceiptSteps(cfg, s, p, ok1);
    CallSteps(cfg, received, p);
    ConfirmationSteps(cfg, Step(cfg, Step(cfg, received, ServerCall), ServerCall), p, ok2);
    Regroup(s.attempts, [PTYPE_RCV_ACK], [PTYPE_CMD_ACK]);
  }

  // ---------- the client ----------

  datatype Outcome = Outcome(code: int, sent: seq<seq<Byte>>)

  /** The client's steps against given outcomes of its sends and given answers to its reads;
      `None`, or an exhausted series, is a read that timed out or a send that failed. */
  function ClientLoop(table: seq<Props>, c: Client, sends: seq<bool>, answers: seq<Option<Byte>>): Outcome
    decreases |sends| + |answers|
  {
    match c.pc
    case Returned(code) => Outcome(code, [])
    case Sending =>
      if c.i >= |table| || sends == [] || !sends[0] then Outcome(-1, [])
      else Sent(EncodeRequest(table[c.i]), ClientLoop(table, ClientAfterSend(c, true), sends[1..], answers))
    case Waiting =>
      if answers == [] || answers[0].None? then Outcome(-1, [])
      else ClientLoop(table, ClientAfterReply(c, answers[0].value, |table|), sends, answers[1..])
  }

  function Sent(msg: seq<Byte>, later: Outcome): Outcome {
    Outcome(later.code, [msg] + later.sent)
  }

  /** The requests for the elements from `i` on. */
  function Messages(table: seq<Props>, i: nat): seq<seq<Byte>>
    decreases |table| - i
  {
    if i >= |table| then [] else [EncodeRequest(table[i])] + Messages(table, i + 1)
  }

  /** Whatever the server answers, the client sends requests in table order and leaves none
      out before returning 0. */
  lemma {:induction false} ClientSendsInOrder(
      table: seq<Props>, c: Client, sends: seq<bool>, answers: seq<Option<Byte>>)
    requires c.pc.Returned? ==> c.pc.code == 0 && c.i >= |table|
    ensures var r, from := ClientLoop(table, c, sends, answers), if c.pc.Waiting? then c.i + 1 else c.i;
            && (r.code == 0 || r.code == -1)
            && r.sent <= Messages(table, from)
            && (r.code == 0 ==> r.sent == Messages(table, from))
    decreases |sends| + |answers|
  {
    match c.pc
    case Returned(_) =>
    case Sending =>
      if c.i < |table| && sends != [] && sends[0] {
        ClientSendsInOrder(table, ClientAfterSend(c, true), sends[1..], answers);
      }
    case Waiting =>
      if answers != [] && answers[0].Some? {
        ClientSendsInOrder(table, ClientAfterReply(c, answers[0].value, |table|), sends, answers[1..]);
      }
  }

  /** The answers before the first timeout that take the client to its next element: all but
      the byte 255. */
  function Completions(answers: seq<Option<Byte>>): nat {
    if answers == [] || answers[0].None? then 0
    else (if answers[0].value == 255 then 0 else 1) + Completions(answers[1..])
  }

  predicate AllSent(sends: seq<bool>, n: int) {
    n <= |sends| && forall j :: 0 <= j < n ==> sends[j]
  }

  /** The client returns 0 if and only if every send it has still to make works and enough
      answers other than receipts come before a timeout. */
  lemma {:induction false} ReturnsZeroExactlyWhen(
      table: seq<Props>, c: Client, sends: seq<bool>, answers: seq<Option<Byte>>)
    requires c.i < |table| && !c.pc.Returned?
    ensures ClientLoop(table, c, sends, answers).code == 0 <==>
            && AllSent(sends, |table| - c.i - if c.pc.Waiting? then 1 else 0)
            && Completions(answers) >= |table| - c.i
    decreases |sends| + |answers|
  {
    if c.pc.Sending? {
      if sends != [] && sends[0] {
        ReturnsZeroExactlyWhen(table, ClientAfterSend(c, true), sends[1..], answers);
        assert forall j :: 0 <= j < |sends| - 1 ==> sends[1..][j] == sends[j + 1];
        assert AllSent(sends, |table| - c.i) <==> AllSent(sends[1..], |table| - c.i - 1) by {
          if AllSent(sends[1..], |table| - c.i - 1) {
            forall j | 0 <= j < |table| - c.i
              ensures sends[j]
            {
              assert j > 0 ==> sends[1..][j - 1];
            }
          }
        }
      }
    } else if answers != [] && answers[0].Some? {
      var d := ClientAfterReply(c, answers[0].value, |table|);
      if !d.pc.Returned? {
        ReturnsZeroExactlyWhen(table, d, sends, answers[1..]);
      }
    }
  }

  /** The packing of one element into the reused buffer. */
  method PackRequest(buf: array<Byte>, p: Props) returns (msg: seq<Byte>)
    requires buf.Length == MAX_LEN_MSG
    modifies buf
    ensures msg == EncodeRequest(p)
  {
    RequestShape();
    var args := RequestArgs(p);
    var numPacked := Pack(buf, REQUEST_FORMAT, args, Long32);
    assert args[..5] == args;
    msg := buf[..numPacked];
  }

  /** baa_set_schedule_props_via_server, with its goto as the inner loop. */
  method SetSchedulePropsViaServer(table: seq<Props>, sends: seq<bool>, answers: seq<Option<Byte>>)
    returns (result: int, sent: seq<seq<Byte>>)
    ensures Outcome(result, sent) == ClientLoop(table, ClientAt(0, |table|), sends, answers)
  {
    var buf := new Byte[MAX_LEN_MSG];
    sent := [];
    var i, next := 0, 0;
    ghost var goal := ClientLoop(table, ClientAt(0, |table|), sends, answers);
    assert sends[0..] == sends && answers[0..] == answers && [] + goal.sent == goal.sent;
    while i < |table|
      invariant 0 <= i <= |table| && i <= |sends| && 0 <= next <= |answers|
      invariant fresh(buf) && buf.Length == MAX_LEN_MSG
      invariant goal == After(sent, ClientLoop(table, ClientAt(i, |table|), sends[i..], answers[next..]))
    {
      // the code clears the buffer here; only the packed bytes are sent
      var msg := PackRequest(buf, table[i]);
      if i == |sends| || !sends[i] {
        return -1, sent;
      }
      SendStep(table, i, sends, answers[next..], sent);
      sent := sent + [msg];
      while true
        invariant 0 <= next <= |answers|
        invariant goal == After(sent, ClientLoop(table, Client(i, Waiting), sends[i + 1..], answers[next..]))
        decreases |answers| - next
      {
        if next == |answers| || answers[next].None? {
          return -1, sent;
        }
        var reply := answers[next].value;
        AnswerStep(table, i, sends[i + 1..], answers, next);
        next := next + 1;
        if reply == PTYPE_ERROR || reply == PTYPE_RESET {
          break;
        } else if reply == PTYPE_CMD_ACK {
          break;
        } else if reply != PTYPE_RCV_ACK {
          break;
        }
      }
      i := i + 1;
    }
    result := 0;
  }

  /** An outcome that comes after `sent` has been sent already. */
  function After(sent: seq<seq<Byte>>, later: Outcome): Outcome {
    Outcome(later.code, sent + later.sent)
  }

  lemma SendStep(table: seq<Props>, i: nat, sends: seq<bool>, answers: seq<Option<Byte>>, sent: seq<seq<Byte>>)
    requires i < |table| && i < |sends| && sends[i]
    ensures After(sent, ClientLoop(table, ClientAt(i, |table|), sends[i..], answers)) ==
            After(sent + [EncodeRequest(table[i])], ClientLoop(table, Client(i, Waiting), sends[i + 1..], answers))
  {
    assert sends[i..][1..] == sends[i + 1..];
    Regroup(sent, [EncodeRequest(table[i])], ClientLoop(table, Client(i, Waiting), sends[i + 1..], answers).sent);
  }

  lemma AnswerStep(table: seq<Props>, i: nat, sends: seq<bool>, answers: seq<Option<Byte>>, next: nat)
    requires next < |answers| && answers[next].Some?
    ensures ClientLoop(table, Client(i, Waiting), sends, answers[next..]) ==
            ClientLoop(table,
                       if answers[next].value == PTYPE_RCV_ACK then Client(i, Waiting) else ClientAt(i + 1, |table|),
                       sends, answers[next + 1..])
  {
    assert answers[next..][1..] == answers[next + 1..];
  }

  // ---------- the client inside a run ----------

  /** What one step of a run shows the client: a send outcome, an answer, a message sent. */
  function SendSeen<K>(cfg: Config<K>, s: State<K>, l: Label): seq<bool> {
    if l.ClientSend? && Enabled(cfg, s, l) then [l.ok] else []
  }

  function AnswerSeen<K>(cfg: Config<K>, s: State<K>, l: Label): seq<Option<Byte>> {
    if !Enabled(cfg, s, l) then []
    else if l.ClientReceive? then [Some(s.replies[0])]
    else if l.ClientTimeout? then [None]
    else []
  }

  function MessageSent<K>(cfg: Config<K>, s: State<K>, l: Label): seq<seq<Byte>> {
    if l == ClientSend(true) && Enabled(cfg, s, l) then [EncodeRequest(cfg.table[s.client.i])] else []
  }

  /** The same for a whole run, in order. */
  function Sends<K>(cfg: Config<K>, labels: seq<Label>): seq<bool> {
    if labels == [] then []
    else
      var init, l := labels[..|labels| - 1], labels[|labels| - 1];
      Sends(cfg, init) + SendSeen(cfg, Run(cfg, init), l)
  }

  function Answers<K>(cfg: Config<K>, labels: seq<Label>): seq<Option<Byte>> {
    if labels == [] then []
    else
      var init, l := labels[..|labels| - 1], labels[|labels| - 1];
      Answers(cfg, init) + AnswerSeen(cfg, Run(cfg, init), l)
  }

  function SentIn<K>(cfg: Config<K>, labels: seq<Label>): seq<seq<Byte>> {
    if labels == [] then []
    else
      var init, l := labels[..|labels| - 1], labels[|labels| - 1];
      SentIn(cfg, init) + MessageSent(cfg, Run(cfg, init), l)
  }

  lemma ClientLoopStep<K>(cfg: Config<K>, s: State<K>, l: Label, sends: seq<bool>, answers: seq<Option<Byte>>)
    ensures ClientLoop(cfg.table, s.client, SendSeen(cfg, s, l) + sends, AnswerSeen(cfg, s, l) + answers) ==
            After(MessageSent(cfg, s, l), ClientLoop(cfg.table, Step(cfg, s, l).client, sends, answers))
  {
    var later := ClientLoop(cfg.table, Step(cfg, s, l).client, sends, answers);
    assert [] + later.sent == later.sent;
    assert [] + sends == sends && [] + answers == answers;
    if Enabled(cfg, s, l) {
      match l
      case ClientSend(ok) => assert ([ok] + sends)[1..] == sends;
      case ClientReceive => assert ([Some(s.replies[0])] + answers)[1..] == answers;
      case _ =>
    }
  }

  /** In every run the client does what its loop does on the send outcomes and answers the run
      has shown it, however they go on: the loop has sent what the run has sent and goes on
      from where the client stands. */
  lemma {:induction false} ClientOfRunIsClientLoop<K>(
      cfg: Config<K>, labels: seq<Label>, sends: seq<bool>, answers: seq<Option<Byte>>)
    ensures ClientLoop(cfg.table, ClientAt(0, |cfg.table|),
                       Sends(cfg, labels) + sends, Answers(cfg, labels) + answers) ==
            After(SentIn(cfg, labels), ClientLoop(cfg.table, Run(cfg, labels).client, sends, answers))
    decreases |labels|
  {
    if labels == [] {
      var c := Run(cfg, labels).client;
      assert [] + sends == sends && [] + answers == answers;
      assert [] + ClientLoop(cfg.table, c, sends, answers).sent == ClientLoop(cfg.table, c, sends, answers).sent;
    } else {
      var init, l := labels[..|labels| - 1], labels[|labels| - 1];
      var s := Run(cfg, init);
      var xs, ys := SendSeen(cfg, s, l) + sends, AnswerSeen(cfg, s, l) + answers;
      var start, later := ClientAt(0, |cfg.table|), ClientLoop(cfg.table, Run(cfg, labels).client, sends, answers);
      calc {
        ClientLoop(cfg.table, start, Sends(cfg, labels) + sends, Answers(cfg, labels) + answers);
        {
          Regroup(Sends(cfg, init), SendSeen(cfg, s, l), sends);
          Regroup(Answers(cfg, init), AnswerSeen(cfg, s, l), answers);
        }
        ClientLoop(cfg.table, start, Sends(cfg, init) + xs, Answers(cfg, init) + ys);
        { ClientOfRunIsClientLoop(cfg, init, xs, ys); }
        After(SentIn(cfg, init), ClientLoop(cfg.table, s.client, xs, ys));
        { ClientLoopStep(cfg, s, l, sends, answers); }
        After(SentIn(cfg, init), After(MessageSent(cfg, s, l), later));
        { Regroup(SentIn(cfg, init), MessageSent(cfg, s, l), later.sent); }
        After(SentIn(cfg, labels), later);
      }
    }
  }

  /** So a call that has returned in some run has returned what the loop returns. */
  lemma ReturnedClientIsClientLoop<K>(cfg: Config<K>, labels: seq<Label>)
    requires Run(cfg, labels).client.pc.Returned?
    ensures ClientLoop(cfg.table, ClientAt(0, |cfg.table|), Sends(cfg, labels), Answers(cfg, labels)) ==
            Outcome(Run(cfg, labels).client.pc.code, SentIn(cfg, labels))
  {
    ClientOfRunIsClientLoop(cfg, labels, [], []);
    assert Sends(cfg, labels) + [] == Sends(cfg, labels) && Answers(cfg, labels) + [] == Answers(cfg, labels);
    assert SentIn(cfg, labels) + [] == SentIn(cfg, labels);
  }
}
