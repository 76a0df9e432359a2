/** src/device_mgmt.c: single-byte commands over datagrams. One client issues commands and
    stops at the first that fails (simple_device_cmd); one server handles whatever arrives,
    from this client or from anyone else (baa_device_mgmt_th). The network may lose, delay and
    reorder datagrams but not duplicate them. A run is any sequence of labels; a label that
    is not enabled changes nothing. */
module DeviceMgmt {
  import opened CInt
  import opened Common

  /** The byte a cleared buffer shows first after a datagram has come in. */
  function FirstByte(data: seq<Byte>): Byte {
    if data == [] then 0 else data[0]
  }

  // ---------- one command ----------

  /** What the client makes of the byte it read. */
  predicate Accepts(reply: Byte) {
    reply == PTYPE_RCV_ACK
  }

  /** simple_device_cmd, given what happens to its send and its receive. */
  method SimpleDeviceCmd(sendOk: bool, received: Option<seq<Byte>>) returns (result: int)
    ensures result == 0 <==> sendOk && received.Some? && received.value != [] && received.value[0] == 0xFF
    ensures sendOk && received.Some? ==> (result == 0 <==> Accepts(FirstByte(received.value)))
    ensures result == 0 || result == -1
  {
    if !sendOk {
      return -1;
    }
    var reply: Byte := 0;
    if received.None? {
      return -1;
    }
    if received.value != [] {
      reply := received.value[0];
    }
    if reply == PTYPE_ERROR || reply == PTYPE_RESET {
      return -1;
    } else if reply == PTYPE_RCV_ACK {
      return 0;
    } else {
      return -1;
    }
  }

  // ---------- one turn of the server ----------

  datatype Event = Handled(b: Byte) | AckTried | Halted | Rebooted

  predicate Supported(b: Byte) {
    b == PTYPE_DEVICE_MGMT || b == PTYPE_HALT || b == PTYPE_REBOOT || b == PTYPE_PING
  }

  /** Everything the server does about a datagram that starts with `b`, in order. */
  function TurnOf(b: Byte): seq<Event> {
    if b == PTYPE_HALT then [Handled(b), AckTried, Halted]
    else if b == PTYPE_REBOOT then [Handled(b), AckTried, Rebooted]
    else if Supported(b) then [Handled(b), AckTried]
    else [Handled(b)]
  }

  class DeviceServer {
    const buf: array<Byte>
    var trace: seq<Event>

    constructor ()
      ensures fresh(buf) && buf.Length == MAX_LEN_MSG && trace == []
    {
      buf := new Byte[MAX_LEN_MSG];
      trace := [];
    }

    /** One turn of the endless loop; `None` is a receive that timed out. */
    method Turn(received: Option<seq<Byte>>)
      requires buf.Length == MAX_LEN_MSG
      modifies this, buf
      ensures trace == old(trace) + if received.None? then [] else TurnOf(FirstByte(received.value))
    {
      for i := 0 to buf.Length
        invariant forall j :: 0 <= j < i ==> buf[j] == 0
        invariant trace == old(trace)
      {
        buf[i] := 0;
      }
      if received.None? {
        return;
      }
      var d := received.value;
      var n := if |d| < buf.Length then |d| else buf.Length;
      for i := 0 to n
        invariant forall j :: 0 <= j < buf.Length ==> buf[j] == if j < i then d[j] else 0
        invariant trace == old(trace)
      {
        buf[i] := d[i];
      }
      var b := buf[0];
      trace := trace + [Handled(b)];
      if b == PTYPE_DEVICE_MGMT {
        trace := trace + [AckTried];
      } else if b == PTYPE_HALT {
        trace := trace + [AckTried];
        trace := trace + [Halted];
      } else if b == PTYPE_REBOOT {
        trace := trace + [AckTried];
        trace := trace + [Rebooted];
      } else if b == PTYPE_PING {
        trace := trace + [AckTried];
      }
    }
  }

  // ---------- the system ----------

  datatype ClientPc = Idle | Awaiting | Stopped

  /** `own` says whether the datagram in hand came from this client. */
  datatype ServerPc = Receiving | Acking(b: Byte, own: bool) | Acting(b: Byte)

  /** A datagram the server has taken from its socket. */
  datatype Taken = Taken(b: Byte, own: bool)

  datatype State = State(
    client: ClientPc,
    issued: seq<Byte>,          // commands this client has sent
    succeeded: nat,             // calls that returned 0
    requests: multiset<Byte>,   // this client's commands on their way
    others: multiset<seq<Byte>>,// anyone else's datagrams on their way
    replies: multiset<Byte>,    // replies to this client on their way
    server: ServerPc,
    taken: seq<Taken>,
    trace: seq<Event>)

  datatype Label =
    | Call(cmd: Byte, ok: bool)
    | Receive(b: Byte)
    | Timeout
    | OtherSends(data: seq<Byte>)
    | LoseRequest(b: Byte)
    | LoseOther(data: seq<Byte>)
    | LoseReply(b: Byte)
    | ServeRequest(b: Byte)
    | ServeOther(data: seq<Byte>)
    | Ack(ok: bool)
    | Act

  function Start(): State {
    State(Idle, [], 0, multiset{}, multiset{}, multiset{}, Receiving, [], [])
  }

  predicate Enabled(s: State, l: Label) {
    match l
    case Call(cmd, _) => s.client.Idle? && cmd in {PTYPE_HALT, PTYPE_REBOOT, PTYPE_PING}
    case Receive(b) => s.client.Awaiting? && b in s.replies
    case Timeout => s.client.Awaiting?
    case OtherSends(_) => true
    case LoseRequest(b) => b in s.requests
    case LoseOther(data) => data in s.others
    case LoseReply(b) => b in s.replies
    case ServeRequest(b) => s.server.Receiving? && b in s.requests
    case ServeOther(data) => s.server.Receiving? && data in s.others
    case Ack(_) => s.server.Acking?
    case Act => s.server.Acting?
  }

  /** The dispatch on the first byte. */
  function Dispatched(s: State, b: Byte, own: bool): State {
    s.(server := if Supported(b) then Acking(b, own) else Receiving,
       taken := s.taken + [Taken(b, own)],
       trace := s.trace + [Handled(b)])
  }

  function Step(s: State, l: Label): State {
    if !Enabled(s, l) then s else
    match l
    case Call(cmd, ok) =>
      if ok then s.(client := Awaiting, issued := s.issued + [cmd], requests := s.requests + multiset{cmd})
      else s.(client := Stopped)
    case Receive(b) =>
      if Accepts(b) then s.(client := Idle, succeeded := s.succeeded + 1, replies := s.replies - multiset{b})
      else s.(client := Stopped, replies := s.replies - multiset{b})
    case Timeout => s.(client := Stopped)
    case OtherSends(data) => s.(others := s.others + multiset{data})
    case LoseRequest(b) => s.(requests := s.requests - multiset{b})
    case LoseOther(data) => s.(others := s.others - multiset{data})
    case LoseReply(b) => s.(replies := s.replies - multiset{b})
    case ServeRequest(b) => Dispatched(s.(requests := s.requests - multiset{b}), b, true)
    case ServeOther(data) => Dispatched(s.(others := s.others - multiset{data}), FirstByte(data), false)
    case Ack(ok) =>
      var b := s.server.b;
      s.(server := if b == PTYPE_HALT || b == PTYPE_REBOOT then Acting(b) else Receiving,
         replies := if ok && s.server.own then s.replies + multiset{PTYPE_RCV_ACK} else s.replies,
         trace := s.trace + [AckTried])
    case Act =>
      s.(server := Receiving, trace := s.trace + [if s.server.b == PTYPE_HALT then Halted else Rebooted])
  }

  function Run(labels: seq<Label>): State {
    if labels == [] then Start() else Step(Run(labels[..|labels| - 1]), labels[|labels| - 1])
  }

  // ---------- the invariant ----------

  /** This client's commands among the datagrams taken. */
  function OwnOf(taken: seq<Taken>): seq<Byte> {
    if taken == [] then []
    else
      var earlier, last := OwnOf(taken[..|taken| - 1]), taken[|taken| - 1];
      if last.own then earlier + [last.b] else earlier
  }

  function TurnsOf(taken: seq<Taken>): seq<Event> {
    if taken == [] then [] else TurnsOf(taken[..|taken| - 1]) + TurnOf(taken[|taken| - 1].b)
  }

  /** The events of the last turn that are still to come. */
  function Pending(pc: ServerPc): seq<Event> {
    match pc
    case Receiving => []
    case Acking(b, _) => TurnOf(b)[1..]
    case Acting(b) => [if b == PTYPE_HALT then Halted else Rebooted]
  }

  predicate TraceInv(s: State) {
    && s.trace + Pending(s.server) == TurnsOf(s.taken)
    && (s.server.Acking? ==> Supported(s.server.b))
    && (s.server.Acting? ==> s.server.b == PTYPE_HALT || s.server.b == PTYPE_REBOOT)
  }

  /** Each request is on its way, taken or lost, and each success used up one acknowledgement
      of one taken request. */
  ghost predicate CountInv(s: State) {
    var own := multiset(OwnOf(s.taken));
    && own + s.requests <= multiset(s.issued)
    && s.succeeded + |s.replies| + (if s.server.Acking? && s.server.own then 1 else 0) <= |own|
    && s.succeeded <= |s.issued| <= s.succeeded + 1
    && (s.client.Idle? ==> |s.issued| == s.succeeded)
    && (s.client.Awaiting? ==> |s.issued| == s.succeeded + 1)
    && multiset(s.issued[..s.succeeded]) <= own
    && (forall b :: b in s.replies ==> b == PTYPE_RCV_ACK)
    && (forall b :: b in s.requests ==> b in {PTYPE_HALT, PTYPE_REBOOT, PTYPE_PING})
  }

  lemma TurnStarts(b: Byte)
    ensures TurnOf(b) == [Handled(b)] + Pending(if Supported(b) then Acking(b, true) else Receiving)
  {
  }

  lemma ServeKeepsTraceInv(s: State, r: State, b: Byte, own: bool)
    requires TraceInv(s) && s.server.Receiving?
    requires r.server == (if Supported(b) then Acking(b, own) else Receiving)
    requires r.taken == s.taken + [Taken(b, own)] && r.trace == s.trace + [Handled(b)]
    ensures TraceInv(r)
  {
    assert r.taken[..|s.taken|] == s.taken;
    TurnStarts(b);
    calc {
      r.trace + Pending(r.server);
      s.trace + ([Handled(b)] + Pending(r.server));
      s.trace + TurnOf(b);
      { assert s.trace + [] == s.trace; }
      TurnsOf(s.taken) + TurnOf(b);
    }
  }

  lemma AckKeepsTraceInv(s: State, ok: bool)
    requires TraceInv(s) && s.server.Acking?
    ensures TraceInv(Step(s, Ack(ok)))
  {
    var t := Step(s, Ack(ok));
    assert Pending(s.server) == [AckTried] + Pending(t.server);
    assert t.trace + Pending(t.server) == s.trace + ([AckTried] + Pending(t.server));
  }

  lemma ActKeepsTraceInv(s: State)
    requires TraceInv(s) && s.server.Acting?
    ensures TraceInv(Step(s, Act))
  {
    var t := Step(s, Act);
    assert t.trace == s.trace + Pending(s.server);
    assert t.trace + [] == t.trace;
  }

  lemma StepKeepsTraceInv(s: State, l: Label)
    requires TraceInv(s)
    ensures TraceInv(Step(s, l))
  {
    if Enabled(s, l) {
      match l
      case ServeRequest(b) => ServeKeepsTraceInv(s, Step(s, l), b, true);
      case ServeOther(data) => ServeKeepsTraceInv(s, Step(s, l), FirstByte(data), false);
      case Ack(ok) => AckKeepsTraceInv(s, ok);
      case Act => ActKeepsTraceInv(s);
      case _ =>
    }
  }

  lemma BoundedMultiset(a: multiset<Byte>, b: multiset<Byte>)
    requires a <= b
    ensures |a| <= |b| && (|a| == |b| ==> a == b)
  {
    assert b == a + (b - a);
  }

  /** A full count of acknowledgements means that nothing is left on the way. */
  lemma AllTaken(own: multiset<Byte>, requests: multiset<Byte>, issued: seq<Byte>)
    requires own + requests <= multiset(issued) && |own| >= |issued|
    ensures own == multiset(issued) && requests == multiset{}
  {
    assert |multiset(issued)| == |issued|;
    BoundedMultiset(own + requests, multiset(issued));
    assert |own + requests| == |own| + |requests|;
  }

  lemma ServeRequestKeepsCountInv(s: State, b: Byte)
    requires CountInv(s) && Enabled(s, ServeRequest(b))
    ensures CountInv(Step(s, ServeRequest(b)))
  {
    var own, t := multiset(OwnOf(s.taken)), Step(s, ServeRequest(b));
    OneMoreTaken(s.taken, Taken(b, true));
    TakenFromRequests(own, s.requests, b);
    assert multiset(OwnOf(t.taken)) == own + multiset{b} && t.requests == s.requests - multiset{b};
  }

  lemma TakenFromRequests(own: multiset<Byte>, requests: multiset<Byte>, b: Byte)
    requires b in requests
    ensures (own + multiset{b}) + (requests - multiset{b}) == own + requests
    ensures |own + multiset{b}| == |own| + 1
    ensures own <= own + multiset{b} && requests - multiset{b} <= requests
  {
  }

  lemma ServeOtherKeepsCountInv(s: State, data: seq<Byte>)
    requires CountInv(s) && Enabled(s, ServeOther(data))
    ensures CountInv(Step(s, ServeOther(data)))
  {
    OneMoreTaken(s.taken, Taken(FirstByte(data), false));
  }

  lemma OneMoreTaken(taken: seq<Taken>, last: Taken)
    ensures var own := multiset(OwnOf(taken));
            multiset(OwnOf(taken + [last])) == if last.own then own + multiset{last.b} else own
  {
    assert (taken + [last])[..|taken|] == taken;
  }

  lemma CallKeepsCountInv(s: State, l: Label)
    requires CountInv(s) && Enabled(s, l) && l.Call?
    ensures CountInv(Step(s, l))
  {
    var t := Step(s, l);
    if l.ok {
      assert t.issued[..s.succeeded] == s.issued[..s.succeeded];
      assert multiset(t.issued) == multiset(s.issued) + multiset{l.cmd};
    }
  }

  lemma ReceiveKeepsCountInv(s: State, l: Label)
    requires CountInv(s) && Enabled(s, l) && l.Receive?
    ensures CountInv(Step(s, l))
  {
    assert |s.replies - multiset{l.b}| == |s.replies| - 1;
    AllTaken(multiset(OwnOf(s.taken)), s.requests, s.issued);
    assert s.issued[..|s.issued|] == s.issued;
  }

  lemma StepKeepsCountInv(s: State, l: Label)
    requires CountInv(s)
    ensures CountInv(Step(s, l))
  {
    if Enabled(s, l) {
      match l
      case Call(_, _) => CallKeepsCountInv(s, l);
      case Receive(_) => ReceiveKeepsCountInv(s, l);
      case ServeRequest(b) => ServeRequestKeepsCountInv(s, b);
      case ServeOther(data) => ServeOtherKeepsCountInv(s, data);
      case Ack(ok) => AckKeepsCountInv(s, ok);
      case LoseReply(b) => LoseReplyKeepsCountInv(s, b);
      case _ =>
    }
  }

  lemma AckKeepsCountInv(s: State, ok: bool)
    requires CountInv(s) && s.server.Acking?
    ensures CountInv(Step(s, Ack(ok)))
  {
    assert |s.replies + multiset{PTYPE_RCV_ACK}| == |s.replies| + 1;
  }

  lemma LoseReplyKeepsCountInv(s: State, b: Byte)
    requires CountInv(s) && b in s.replies
    ensures CountInv(Step(s, LoseReply(b)))
  {
    assert |s.replies - multiset{b}| == |s.replies| - 1;
  }

  lemma {:induction false} RunKeepsInv(labels: seq<Label>)
    ensures TraceInv(Run(labels)) && CountInv(Run(labels))
  {
    if labels != [] {
      var s := Run(labels[..|labels| - 1]);
      RunKeepsInv(labels[..|labels| - 1]);
      StepKeepsTraceInv(s, labels[|labels| - 1]);
      StepKeepsCountInv(s, labels[|labels| - 1]);
    }
  }

  // ---------- what whole runs guarantee ----------

  /** `k` successful calls mean that the first `k` requests all reached the server; between
      calls the server has taken exactly the requests issued, and none is on its way. */
  lemma SuccessesReachedServer(labels: seq<Label>)
    ensures var s := Run(labels);
            var own := multiset(OwnOf(s.taken));
            && s.succeeded <= |s.issued| <= s.succeeded + 1
            && multiset(s.issued[..s.succeeded]) <= own <= multiset(s.issued)
            && (s.client.Idle? ==> own == multiset(s.issued) && s.requests == multiset{} && s.replies == multiset{})
  {
    RunKeepsInv(labels);
    var s := Run(labels);
    var own := multiset(OwnOf(s.taken));
    if s.client.Idle? {
      AllTaken(own, s.requests, s.issued);
    }
  }

  function Count(e: Event, trace: seq<Event>): nat {
    multiset(trace)[e]
  }

  /** What each command asks for, by its number: 1 to 4 an acknowledgement, 2 also a halt, 3 also
      a reboot. */
  predicate Causes(b: Byte, e: Event) {
    match e
    case Handled(c) => b == c
    case AckTried => b == 1 || b == 2 || b == 3 || b == 4
    case Halted => b == 2
    case Rebooted => b == 3
  }

  lemma CountOfTurn(b: Byte, e: Event)
    ensures Count(e, TurnOf(b)) == if Causes(b, e) then 1 else 0
  {
  }

  /** The datagrams taken that make the server do `e`. */
  function CountCauses(e: Event, taken: seq<Taken>): nat {
    if taken == [] then 0
    else CountCauses(e, taken[..|taken| - 1]) + if Causes(taken[|taken| - 1].b, e) then 1 else 0
  }

  lemma {:induction false} CountOfTurns(taken: seq<Taken>, e: Event)
    ensures Count(e, TurnsOf(taken)) == CountCauses(e, taken)
  {
    if taken != [] {
      CountOfTurns(taken[..|taken| - 1], e);
      CountOfTurn(taken[|taken| - 1].b, e);
    }
  }

  /** In every run the server's trace is the turns of the datagrams taken, each in full and
      with its acknowledgement before its action, up to what the last turn still has to do;
      between turns it has halted, rebooted and acknowledged exactly once for each datagram
      that asks for it, whoever sent it. */
  lemma ActionsMatchDatagrams(labels: seq<Label>, e: Event)
    ensures var s := Run(labels);
            && s.trace + Pending(s.server) == TurnsOf(s.taken)
            && (s.server.Receiving? ==> Count(e, s.trace) == CountCauses(e, s.taken))
  {
    RunKeepsInv(labels);
    var s := Run(labels);
    CountOfTurns(s.taken, e);
    assert s.trace + [] == s.trace;
  }

  /** An acknowledgement follows at once on the datagram that asks for it, and a halt or reboot
      on the acknowledgement of its own command. */
  predicate Follows(trace: seq<Event>, i: nat)
    requires i < |trace|
  {
    match trace[i]
    case Handled(_) => true
    case AckTried => i >= 1 && trace[i - 1] in {Handled(1), Handled(2), Handled(3), Handled(4)}
    case Halted => i >= 2 && trace[i - 1] == AckTried && trace[i - 2] == Handled(2)
    case Rebooted => i >= 2 && trace[i - 1] == AckTried && trace[i - 2] == Handled(3)
  }

  lemma FollowsInTurn(b: Byte, i: nat)
    requires i < |TurnOf(b)|
    ensures Follows(TurnOf(b), i)
  {
  }

  /** `Follows` looks back only, and not beyond the turn. */
  lemma FollowsInPart(a: seq<Event>, b: seq<Event>, c: seq<Event>, i: nat)
    requires i < |b| && Follows(b, i)
    ensures Follows(a + b + c, |a| + i)
  {
    var all := a + b + c;
    assert all[|a| + i] == b[i];
    assert i >= 1 ==> all[|a| + i - 1] == b[i - 1];
    assert i >= 2 ==> all[|a| + i - 2] == b[i - 2];
  }

  lemma {:induction false} FollowsInTurns(taken: seq<Taken>, i: nat)
    requires i < |TurnsOf(taken)|
    ensures Follows(TurnsOf(taken), i)
  {
    var n := |taken| - 1;
    var earlier, turn := TurnsOf(taken[..n]), TurnOf(taken[n].b);
    if i < |earlier| {
      FollowsInTurns(taken[..n], i);
      FollowsInPart([], earlier, turn, i);
      assert [] + earlier + turn == TurnsOf(taken);
    } else {
      FollowsInTurn(taken[n].b, i - |earlier|);
      FollowsInPart(earlier, turn, [], i - |earlier|);
      assert earlier + turn + [] == TurnsOf(taken);
    }
  }

  /** At every moment of every run, the server has neither acknowledged without being asked nor
      acted before acknowledging. */
  lemma AckComesBeforeAction(labels: seq<Label>, i: nat)
    requires i < |Run(labels).trace|
    ensures Follows(Run(labels).trace, i)
  {
    RunKeepsInv(labels);
    var s := Run(labels);
    var all := s.trace + Pending(s.server);
    FollowsInTurns(s.taken, i);
    assert all[i] == s.trace[i];
    assert i >= 1 ==> all[i - 1] == s.trace[i - 1];
    assert i >= 2 ==> all[i - 2] == s.trace[i - 2];
  }

  // ---------- what can happen ----------

  lemma OneMore(labels: seq<Label>, l: Label) returns (more: seq<Label>)
    ensures more == labels + [l] && Run(more) == Step(Run(labels), l)
  {
    more := labels + [l];
    assert more[..|labels|] == labels;
  }

  /** Commands 2, 3 and 4, in any order and number, can all succeed. */
  lemma {:induction false} CommandsCanSucceed(cmds: seq<Byte>) returns (labels: seq<Label>)
    requires forall i :: 0 <= i < |cmds| ==> cmds[i] == 2 || cmds[i] == 3 || cmds[i] == 4
    ensures var s := Run(labels);
            && s.client.Idle? && s.server.Receiving?
            && s.issued == cmds && s.succeeded == |cmds| && OwnOf(s.taken) == cmds
  {
    if cmds == [] {
      labels := [];
    } else {
      var n := |cmds| - 1;
      labels := CommandsCanSucceed(cmds[..n]);
      labels := CommandSucceeds(labels, cmds[n]);
      assert cmds[..n] + [cmds[n]] == cmds;
    }
  }

  /** A call whose request is taken. */
  function Requested(s: State, cmd: Byte): State {
    Step(Step(s, Call(cmd, true)), ServeRequest(cmd))
  }

  /** The acknowledgement sent, read, and the action taken. */
  function Answered(s: State): State {
    Step(Step(Step(s, Ack(true)), Receive(0xFF)), Act)
  }

  lemma RequestTaken(s: State, cmd: Byte)
    requires cmd == 2 || cmd == 3 || cmd == 4
    requires s.client.Idle? && s.server.Receiving?
    ensures var t := Requested(s, cmd);
            && t.client.Awaiting? && t.server == Acking(cmd, true)
            && t.issued == s.issued + [cmd] && t.succeeded == s.succeeded
            && t.requests == s.requests && t.replies == s.replies
            && t.taken == s.taken + [Taken(cmd, true)]
  {
    assert (s.requests + multiset{cmd}) - multiset{cmd} == s.requests;
  }

  lemma AnswerReceived(s: State, cmd: Byte)
    requires cmd == 2 || cmd == 3 || cmd == 4
    requires s.client.Awaiting? && s.server == Acking(cmd, true)
    ensures var t := Answered(s);
            && t.client.Idle? && t.server.Receiving? && t.issued == s.issued && t.taken == s.taken
            && t.succeeded == s.succeeded + 1
  {
    var acked := Step(s, Ack(true));
    assert 0xFF in acked.replies;
    var read := Step(acked, Receive(0xFF));
    assert read.client.Idle? && read.succeeded == s.succeeded + 1;
  }

  lemma CommandSucceeds(labels: seq<Label>, cmd: Byte) returns (more: seq<Label>)
    requires cmd == 2 || cmd == 3 || cmd == 4
    requires Run(labels).client.Idle? && Run(labels).server.Receiving?
    ensures var s, t := Run(labels), Run(more);
            && t.client.Idle? && t.server.Receiving?
            && t.issued == s.issued + [cmd] && t.succeeded == s.succeeded + 1
            && OwnOf(t.taken) == OwnOf(s.taken) + [cmd]
  {
    more := RunRequested(labels, cmd);
    RequestTaken(Run(labels), cmd);
    AnswerReceived(Run(more), cmd);
    more := RunAnswered(more);
    var taken := Run(labels).taken;
    assert (taken + [Taken(cmd, true)])[..|taken|] == taken;
  }

  lemma RunRequested(labels: seq<Label>, cmd: Byte) returns (more: seq<Label>)
    ensures more == labels + [Call(cmd, true)] + [ServeRequest(cmd)]
    ensures Run(more) == Requested(Run(labels), cmd)
  {
    more := OneMore(labels, Call(cmd, true));
    more := OneMore(more, ServeRequest(cmd));
  }

  lemma RunAnswered(labels: seq<Label>) returns (more: seq<Label>)
    ensures Run(more) == Answered(Run(labels))
  {
    more := OneMore(labels, Ack(true));
    more := OneMore(more, Receive(0xFF));
    more := OneMore(more, Act);
  }

  /** A command can also fail with its request not sent or lost, or with its request taken and
      handled but the acknowledgement not sent, so that none was lost, or sent and lost. */
  lemma CommandCanFail(cmd: Byte)
    requires cmd == 2 || cmd == 3 || cmd == 4
    ensures exists labels :: FailedUntaken(Run(labels), [])
    ensures exists labels :: FailedUntaken(Run(labels), [cmd])
    ensures exists labels :: LoseReply(0xFF) !in labels && FailedTaken(Run(labels), cmd)
    ensures exists labels :: Ack(false) !in labels && FailedTaken(Run(labels), cmd)
  {
    var unsent := OneMore([], Call(cmd, false));
    assert FailedUntaken(Run(unsent), []);
    var lost := RequestLost(cmd);
    var unacknowledged := AnswerNotSent(cmd);
    var unanswered := AnswerLost(cmd);
  }

  predicate FailedUntaken(s: State, issued: seq<Byte>) {
    s.client.Stopped? && s.issued == issued && s.requests == multiset{} && s.taken == []
  }

  predicate FailedTaken(s: State, cmd: Byte) {
    && s.client.Stopped? && s.issued == [cmd] && s.taken == [Taken(cmd, true)]
    && !s.server.Acking? && s.replies == multiset{}
  }

  lemma AnswerNotSent(cmd: Byte) returns (labels: seq<Label>)
    requires cmd == 2 || cmd == 3 || cmd == 4
    ensures LoseReply(0xFF) !in labels && FailedTaken(Run(labels), cmd)
  {
    labels := RunRequested([], cmd);
    RequestTaken(Start(), cmd);
    var s := Run(labels);
    assert s.issued == [cmd] && s.taken == [Taken(cmd, true)] && s.replies == multiset{};
    AnswerWithheld(s, cmd);
    labels := OneMore(labels, Ack(false));
    labels := OneMore(labels, Timeout);
  }

  lemma RequestLost(cmd: Byte) returns (labels: seq<Label>)
    requires cmd == 2 || cmd == 3 || cmd == 4
    ensures FailedUntaken(Run(labels), [cmd])
  {
    labels := OneMore([], Call(cmd, true));
    RequestDropped(cmd);
    labels := OneMore(labels, LoseRequest(cmd));
    labels := OneMore(labels, Timeout);
  }

  lemma RequestDropped(cmd: Byte)
    requires cmd == 2 || cmd == 3 || cmd == 4
    ensures var t := Step(Step(Step(Start(), Call(cmd, true)), LoseRequest(cmd)), Timeout);
            FailedUntaken(t, [cmd])
  {
    assert Step(Start(), Call(cmd, true)).requests == multiset{cmd};
  }

  lemma AnswerLost(cmd: Byte) returns (labels: seq<Label>)
    requires cmd == 2 || cmd == 3 || cmd == 4
    ensures Ack(false) !in labels && FailedTaken(Run(labels), cmd)
  {
    labels := RunRequested([], cmd);
    RequestTaken(Start(), cmd);
    var s := Run(labels);
    assert s.issued == [cmd] && s.taken == [Taken(cmd, true)] && s.replies == multiset{};
    AnswerDropped(s, cmd);
    labels := OneMore(labels, Ack(true));
    labels := OneMore(labels, LoseReply(0xFF));
    labels := OneMore(labels, Timeout);
  }

  lemma AnswerWithheld(s: State, cmd: Byte)
    requires s.client.Awaiting? && s.server == Acking(cmd, true) && s.replies == multiset{}
    ensures var t := Step(Step(s, Ack(false)), Timeout);
            && t.client.Stopped? && t.issued == s.issued && t.taken == s.taken
            && !t.server.Acking? && t.replies == multiset{}
  {
  }

  lemma AnswerDropped(s: State, cmd: Byte)
    requires s.client.Awaiting? && s.server == Acking(cmd, true) && s.replies == multiset{}
    ensures var t := Step(Step(Step(s, Ack(true)), LoseReply(0xFF)), Timeout);
            && t.client.Stopped? && t.issued == s.issued && t.taken == s.taken
            && !t.server.Acking? && t.replies == multiset{}
  {
    assert Step(s, Ack(true)).replies == multiset{0xFF};
  }

  /** Other senders are served too: any datagrams of theirs can be taken, in any order and each
      in full, without a word from this client. */
  lemma {:induction false} OthersCanBeServed(datagrams: seq<seq<Byte>>) returns (labels: seq<Label>)
    ensures var s := Run(labels);
            && s.client.Idle? && s.server.Receiving? && s.issued == []
            && |s.taken| == |datagrams|
            && forall i :: 0 <= i < |datagrams| ==>
                 s.taken[i] == Taken(if datagrams[i] == [] then 0 else datagrams[i][0], false)
  {
    if datagrams == [] {
      labels := [];
    } else {
      var n := |datagrams| - 1;
      labels := OthersCanBeServed(datagrams[..n]);
      labels := OtherServed(labels, datagrams[n]);
    }
  }

  lemma OtherServed(labels: seq<Label>, data: seq<Byte>) returns (more: seq<Label>)
    requires Run(labels).server.Receiving?
    ensures var s, t := Run(labels), Run(more);
            && t.client == s.client && t.server.Receiving? && t.issued == s.issued
            && t.taken == s.taken + [Taken(if data == [] then 0 else data[0], false)]
  {
    more := OneMore(labels, OtherSends(data));
    more := OneMore(more, ServeOther(data));
    OtherTaken(Run(labels), data);
    TurnEnds(Run(more));
    more := OneMore(more, Ack(true));
    more := OneMore(more, Act);
  }

  lemma OtherTaken(s: State, data: seq<Byte>)
    requires s.server.Receiving?
    ensures var t := Step(Step(s, OtherSends(data)), ServeOther(data));
            && t.client == s.client && !t.server.Acting? && t.issued == s.issued
            && t.taken == s.taken + [Taken(if data == [] then 0 else data[0], false)]
  {
    assert data in Step(s, OtherSends(data)).others;
  }

  lemma TurnEnds(s: State)
    requires !s.server.Acting?
    ensures var t := Step(Step(s, Ack(true)), Act);
            t.client == s.client && t.server.Receiving? && t.issued == s.issued && t.taken == s.taken
  {
  }
}
