/** src/fiber.c, setting scheduling properties through a server: one client loop
    (baa_set_schedule_props_via_server) and one server loop (baa_schedule_server_th) joined by
    two datagram queues. A run is any sequence of step labels; a label whose step is not
    enabled changes nothing, so every interleaving, every timeout and every failed send is
    some run. There are no sequence numbers, so all that keeps the two loops in step is the
    invariant `Inv`. */
module ScheduleProtocol {
  import opened CInt
  import opened Common
  import opened Serialize
  import opened ScheduleProps

  // ---------- the client loop ----------

  datatype ClientPc = Sending | Waiting | Returned(code: int)

  datatype Client = Client(i: nat, pc: ClientPc)

  /** The head of the for loop. */
  function ClientAt(i: nat, count: nat): Client {
    if i < count then Client(i, Sending) else Client(i, Returned(0))
  }

  function ClientAfterSend(c: Client, ok: bool): Client {
    Client(c.i, if ok then Waiting else Returned(-1))
  }

  /** One byte read after read_rcv_ack: only PTYPE_RCV_ACK makes the client read again. */
  function ClientAfterReply(c: Client, reply: Byte, count: nat): Client {
    if reply == PTYPE_ERROR || reply == PTYPE_RESET then ClientAt(c.i + 1, count)
    else if reply == PTYPE_CMD_ACK then ClientAt(c.i + 1, count)
    else if reply == PTYPE_RCV_ACK then c
    else ClientAt(c.i + 1, count)
  }

  // ---------- the server loop ----------

  /** Where the server thread is; `Binding` and `Scheduling` are the two calls inside
      baa_set_schedule_props. */
  datatype ServerPc =
    | Receiving
    | Acking(p: Props)
    | Binding(p: Props)
    | Scheduling(p: Props)
    | Confirming(p: Props)
    | Failing
    | Reporting

  /** What baa_set_schedule_props returns to the server. */
  const SET_PROPS_RESULT := 0

  /** A datagram in the cleared buffer: a request is unpacked, anything else is reported. */
  function ServerAfterReceive(datagram: seq<Byte>): ServerPc {
    var buf := Padded(datagram, MAX_LEN_MSG);
    if buf[0] == PTYPE_SCHED_PROPS then
      if Size(REQUEST_FORMAT) > MAX_LEN_MSG then Failing else Acking(DecodeRequest(buf[..REQUEST_SIZE]))
    else Receiving
  }

  /** The byte the server sends next, and where it goes on: a failed send is only logged. */
  function ReplyOf(pc: ServerPc): Byte {
    match pc
    case Acking(_) => PTYPE_RCV_ACK
    case Confirming(_) => PTYPE_CMD_ACK
    case _ => PTYPE_ERROR
  }

  function ServerAfterReply(pc: ServerPc): ServerPc {
    match pc
    case Acking(p) => Binding(p)
    case Confirming(_) => Reporting
    case _ => Receiving
  }

  // ---------- both together ----------

  /** A table to send, the kernel it acts on, the server's own thread id, and whether the
      server is still reporting on an earlier request when the call begins. */
  datatype Config<!K> = Config(
    table: seq<Props>,
    kernel: (K, Syscall) -> K,
    server: int,
    init: K,
    reporting: bool)

  /** `attempts` logs every reply the server tried to send, `applied` every element it has
      finished setting. */
  datatype State<K> = State(
    client: Client,
    requests: seq<seq<Byte>>,
    server: ServerPc,
    replies: seq<Byte>,
    attempts: seq<Byte>,
    applied: seq<Props>,
    kernel: K)

  datatype Label =
    | ClientSend(ok: bool)
    | ClientReceive
    | ClientTimeout
    | ServerReceive
    | ServerTimeout
    | ServerReply(ok: bool)
    | ServerCall
    | ServerReport

  function Start<K>(cfg: Config<K>): State<K> {
    State(ClientAt(0, |cfg.table|), [], if cfg.reporting then Reporting else Receiving, [], [], [], cfg.init)
  }

  predicate Enabled<K>(cfg: Config<K>, s: State<K>, l: Label) {
    match l
    case ClientSend(_) => s.client.pc.Sending? && s.client.i < |cfg.table|
    case ClientReceive => s.client.pc.Waiting? && s.replies != []
    case ClientTimeout => s.client.pc.Waiting?
    case ServerReceive => s.server.Receiving? && s.requests != []
    case ServerTimeout => s.server.Receiving?
    case ServerReply(_) => s.server.Acking? || s.server.Confirming? || s.server.Failing?
    case ServerCall => s.server.Binding? || s.server.Scheduling?
    case ServerReport => s.server.Reporting?
  }

  function Step<K>(cfg: Config<K>, s: State<K>, l: Label): State<K> {
    if !Enabled(cfg, s, l) then s else
    match l
    case ClientSend(ok) =>
      s.(client := ClientAfterSend(s.client, ok),
         requests := if ok then s.requests + [EncodeRequest(cfg.table[s.client.i])] else s.requests)
    case ClientReceive =>
      s.(client := ClientAfterReply(s.client, s.replies[0], |cfg.table|), replies := s.replies[1..])
    case ClientTimeout =>
      s.(client := Client(s.client.i, Returned(-1)))
    case ServerReceive =>
      s.(server := ServerAfterReceive(s.requests[0]), requests := s.requests[1..])
    case ServerTimeout => s
    case ServerReply(ok) =>
      var b := ReplyOf(s.server);
      s.(server := ServerAfterReply(s.server),
         attempts := s.attempts + [b],
         replies := if ok then s.replies + [b] else s.replies)
    case ServerCall =>
      if s.server.Binding? then
        s.(server := Scheduling(s.server.p), kernel := cfg.kernel(s.kernel, AffinityCall(cfg.server, s.server.p)))
      else
        s.(server := if SET_PROPS_RESULT != 0 then Failing else Confirming(s.server.p),
           kernel := cfg.kernel(s.kernel, SchedulerCall(cfg.server, s.server.p)),
           applied := s.applied + [s.server.p])
    case ServerReport =>
      s.(server := Receiving)
  }

  function Run<K>(cfg: Config<K>, labels: seq<Label>): State<K> {
    if labels == [] then Start(cfg)
    else Step(cfg, Run(cfg, labels[..|labels| - 1]), labels[|labels| - 1])
  }

  // ---------- the invariant ----------

  predicate Idle(pc: ServerPc) {
    pc.Receiving? || pc.Reporting?
  }

  predicate Subsequence(replies: seq<Byte>) {
    || replies == []
    || replies == [PTYPE_RCV_ACK]
    || replies == [PTYPE_CMD_ACK]
    || replies == [PTYPE_RCV_ACK, PTYPE_CMD_ACK]
  }

  predicate AtMostReceipt(replies: seq<Byte>) {
    replies == [] || replies == [PTYPE_RCV_ACK]
  }

  /** The replies of `n` served requests. */
  function Acks(n: nat): seq<Byte> {
    if n == 0 then [] else Acks(n - 1) + [PTYPE_RCV_ACK, PTYPE_CMD_ACK]
  }

  /** Nothing is on its way and the first `i` elements are set. */
  predicate Quiet<K>(s: State<K>, i: nat) {
    s.requests == [] && s.replies == [] && Idle(s.server) && |s.applied| == i
  }

  /** Element `i` has been sent: it is in the queue, in the server's hands, or set. */
  predicate Outstanding<K>(cfg: Config<K>, s: State<K>, i: nat)
    requires i < |cfg.table|
  {
    var p := cfg.table[i];
    || (s.requests == [EncodeRequest(p)] && s.replies == [] && Idle(s.server) && |s.applied| == i)
    || (s.requests == [] && s.replies == [] && s.server == Acking(p) && |s.applied| == i)
    || (s.requests == [] && AtMostReceipt(s.replies) && s.server in {Binding(p), Scheduling(p)} && |s.applied| == i)
    || (s.requests == [] && AtMostReceipt(s.replies) && s.server == Confirming(p) && |s.applied| == i + 1)
    || (s.requests == [] && Subsequence(s.replies) && Idle(s.server) && |s.applied| == i + 1)
  }

  ghost predicate ClientInv<K>(cfg: Config<K>, s: State<K>) {
    var i := s.client.i;
    match s.client.pc
    case Sending => i < |cfg.table| && Quiet(s, i)
    case Waiting => i < |cfg.table| && Outstanding(cfg, s, i)
    case Returned(code) =>
      || (code == 0 && i == |cfg.table| && Quiet(s, i))
      || (code == -1 && i < |cfg.table| && (Quiet(s, i) || Outstanding(cfg, s, i)))
  }

  predicate AttemptsInv<K>(s: State<K>) {
    match s.server
    case Binding(_) => s.attempts == Acks(|s.applied|) + [PTYPE_RCV_ACK]
    case Scheduling(_) => s.attempts == Acks(|s.applied|) + [PTYPE_RCV_ACK]
    case Confirming(_) => s.applied != [] && s.attempts == Acks(|s.applied| - 1) + [PTYPE_RCV_ACK]
    case _ => s.attempts == Acks(|s.applied|)
  }

  ghost predicate KernelInv<K>(cfg: Config<K>, s: State<K>) {
    var k := ApplyAll(cfg.kernel, cfg.server, cfg.init, s.applied);
    s.kernel == if s.server.Scheduling? then cfg.kernel(k, AffinityCall(cfg.server, s.server.p)) else k
  }

  ghost predicate Inv<K>(cfg: Config<K>, s: State<K>) {
    && s.applied <= cfg.table
    && ClientInv(cfg, s)
    && AttemptsInv(s)
    && KernelInv(cfg, s)
  }

  /** A request comes out of the server's buffer as the element that went in. */
  lemma RequestReachesServer(p: Props)
    ensures ServerAfterReceive(EncodeRequest(p)) == Acking(p)
  {
    RequestShape();
    PaddedRequest(p, MAX_LEN_MSG);
    RequestRoundTrip(p);
  }

  lemma SendKeepsInv<K>(cfg: Config<K>, s: State<K>, ok: bool)
    requires Inv(cfg, s) && Enabled(cfg, s, ClientSend(ok))
    ensures Inv(cfg, Step(cfg, s, ClientSend(ok)))
  {
  }

  lemma ReadKeepsInv<K>(cfg: Config<K>, s: State<K>)
    requires Inv(cfg, s) && Enabled(cfg, s, ClientReceive)
    ensures Inv(cfg, Step(cfg, s, ClientReceive))
  {
    assert s.replies[0] == PTYPE_CMD_ACK ==> s.replies[1..] == [];
  }

  lemma ReceiptKeepsInv<K>(cfg: Config<K>, s: State<K>, ok: bool)
    requires Inv(cfg, s) && s.server.Acking?
    ensures Inv(cfg, Step(cfg, s, ServerReply(ok)))
  {
    assert Step(cfg, s, ServerReply(ok)).replies == if ok then [PTYPE_RCV_ACK] else [];
  }

  lemma ConfirmationKeepsInv<K>(cfg: Config<K>, s: State<K>, ok: bool)
    requires Inv(cfg, s) && s.server.Confirming?
    ensures Inv(cfg, Step(cfg, s, ServerReply(ok)))
  {
    var t := Step(cfg, s, ServerReply(ok));
    assert t.attempts == Acks(|s.applied|);
    assert s.replies == [] ==> t.replies == if ok then [PTYPE_CMD_ACK] else [];
    assert s.replies != [] ==> t.replies == if ok then [PTYPE_RCV_ACK, PTYPE_CMD_ACK] else [PTYPE_RCV_ACK];
  }

  /** A reply keeps the invariant whether its send succeeds or fails; PTYPE_ERROR is never
      next. */
  lemma ReplyKeepsInv<K>(cfg: Config<K>, s: State<K>, ok: bool)
    requires Inv(cfg, s) && Enabled(cfg, s, ServerReply(ok))
    ensures ReplyOf(s.server) != PTYPE_ERROR
    ensures Inv(cfg, Step(cfg, s, ServerReply(ok)))
  {
    if s.server.Acking? {
      ReceiptKeepsInv(cfg, s, ok);
    } else {
      assert s.server.Confirming?;
      ConfirmationKeepsInv(cfg, s, ok);
    }
  }

  lemma ReceiveKeepsInv<K>(cfg: Config<K>, s: State<K>)
    requires Inv(cfg, s) && Enabled(cfg, s, ServerReceive)
    ensures Inv(cfg, Step(cfg, s, ServerReceive))
  {
    RequestReachesServer(cfg.table[s.client.i]);
  }

  lemma BindingKeepsInv<K>(cfg: Config<K>, s: State<K>)
    requires Inv(cfg, s) && s.server.Binding?
    ensures Inv(cfg, Step(cfg, s, ServerCall))
  {
  }

  lemma SchedulingKeepsInv<K>(cfg: Config<K>, s: State<K>)
    requires Inv(cfg, s) && s.server.Scheduling?
    ensures Inv(cfg, Step(cfg, s, ServerCall))
  {
    var a := s.applied + [s.server.p];
    assert a[..|s.applied|] == s.applied;
  }

  lemma StepKeepsInv<K>(cfg: Config<K>, s: State<K>, l: Label)
    requires Inv(cfg, s)
    ensures Inv(cfg, Step(cfg, s, l))
  {
    if Enabled(cfg, s, l) {
      match l
      case ClientSend(ok) => SendKeepsInv(cfg, s, ok);
      case ClientReceive => ReadKeepsInv(cfg, s);
      case ClientTimeout =>
      case ServerReceive => ReceiveKeepsInv(cfg, s);
      case ServerTimeout =>
      case ServerReply(ok) => ReplyKeepsInv(cfg, s, ok);
      case ServerCall =>
        if s.server.Binding? {
          BindingKeepsInv(cfg, s);
        } else {
          SchedulingKeepsInv(cfg, s);
        }
      case ServerReport =>
    }
  }

  /** Every reachable state satisfies the invariant. */
  lemma {:induction false} RunKeepsInv<K>(cfg: Config<K>, labels: seq<Label>)
    ensures Inv(cfg, Run(cfg, labels))
  {
    if labels != [] {
      RunKeepsInv(cfg, labels[..|labels| - 1]);
      StepKeepsInv(cfg, Run(cfg, labels[..|labels| - 1]), labels[|labels| - 1]);
    }
  }
}
