/** src/fiber.c, the scheduling properties of a fiber: the check of a table before use, the
    direct way to set them, and the request that carries them to a server. */
module ScheduleProps {
  import opened CInt
  import opened Common
  import opened Serialize
  import opened SerializeLaws

  /** The scheduling fields of a fiber element, each a 32-bit C int. */
  datatype Props = Props(tid: Int32, policy: Int32, cpu: Int32, priority: Int32)

  // ---------- setting properties directly ----------

  /** The calls that change scheduling state. Thread id 0 names the calling thread. */
  datatype Syscall =
    | SetAffinity(tid: int, cpu: int)
    | SetScheduler(tid: int, policy: int, priority: int)

  function Resolve(caller: int, tid: int): int {
    if tid == 0 then caller else tid
  }

  function AffinityCall(caller: int, p: Props): Syscall {
    SetAffinity(Resolve(caller, p.tid), p.cpu)
  }

  function SchedulerCall(caller: int, p: Props): Syscall {
    SetScheduler(Resolve(caller, p.tid), p.policy, p.priority)
  }

  /** The effect on the kernel of setting one element. The kernel is any deterministic
      function of its state and the call; a call it refuses leaves whatever state it
      likes, since the library looks at no result of either call. */
  function ApplyOne<K>(kernel: (K, Syscall) -> K, caller: int, k: K, p: Props): K {
    kernel(kernel(k, AffinityCall(caller, p)), SchedulerCall(caller, p))
  }

  function ApplyAll<K>(kernel: (K, Syscall) -> K, caller: int, k: K, table: seq<Props>): K {
    if table == [] then k
    else ApplyOne(kernel, caller, ApplyAll(kernel, caller, k, table[..|table| - 1]), table[|table| - 1])
  }

  /** baa_set_schedule_props: every element in table order, always returning 0. */
  method SetScheduleProps<K>(kernel: (K, Syscall) -> K, caller: int, before: K, table: seq<Props>, count: int)
    returns (result: int, after: K)
    requires count <= |table|
    ensures result == 0
    ensures after == ApplyAll(kernel, caller, before, if count < 0 then [] else table[..count])
  {
    after := before;
    var i := 0;
    while i < count
      invariant 0 <= i && (i <= count || count < 0)
      invariant count < 0 ==> i == 0
      invariant after == ApplyAll(kernel, caller, before, table[..i])
    {
      after := kernel(after, AffinityCall(caller, table[i]));
      after := kernel(after, SchedulerCall(caller, table[i]));
      assert table[..i + 1][..i] == table[..i];
      i := i + 1;
    }
    return 0, after;
  }

  // ---------- who makes the call matters for thread id 0 only ----------

  /** Without a zero thread id the outcome is the same whichever thread makes the calls. */
  lemma {:induction false} CallerDoesNotMatter<K>(
      kernel: (K, Syscall) -> K, a: int, b: int, k: K, table: seq<Props>)
    requires forall p :: p in table ==> p.tid != 0
    ensures ApplyAll(kernel, a, k, table) == ApplyAll(kernel, b, k, table)
  {
    if table != [] {
      CallerDoesNotMatter(kernel, a, b, k, table[..|table| - 1]);
    }
  }

  /** The kernel that only records the calls made to it. */
  function Recording(calls: seq<Syscall>, call: Syscall): seq<Syscall> {
    calls + [call]
  }

  lemma {:induction false} RecordingLength(caller: int, k: seq<Syscall>, table: seq<Props>)
    ensures |ApplyAll(Recording, caller, k, table)| == |k| + 2 * |table|
  {
    if table != [] {
      RecordingLength(caller, k, table[..|table| - 1]);
    }
  }

  /** The calls themselves: for every element in turn, its cpu and then its policy and priority
      are set for its thread, which for id 0 is the caller. */
  lemma {:induction false} CallsMade(caller: int, table: seq<Props>, i: nat)
    requires i < |table|
    ensures var calls := ApplyAll(Recording, caller, [], table);
            var p := table[i];
            var thread := if p.tid == 0 then caller else p.tid;
            && |calls| == 2 * |table|
            && calls[2 * i] == SetAffinity(thread, p.cpu)
            && calls[2 * i + 1] == SetScheduler(thread, p.policy, p.priority)
  {
    var n := |table| - 1;
    RecordingLength(caller, [], table);
    RecordingLength(caller, [], table[..n]);
    if i < n {
      CallsMade(caller, table[..n], i);
    }
  }

  /** The recording kernel tells two callers apart exactly when some thread id is 0. */
  lemma {:induction false} CallerMattersForZeroTid(a: int, b: int, k: seq<Syscall>, table: seq<Props>)
    requires a != b
    ensures ApplyAll(Recording, a, k, table) == ApplyAll(Recording, b, k, table)
            <==> forall p :: p in table ==> p.tid != 0
  {
    if table != [] {
      var n := |table| - 1;
      var init, last := table[..n], table[n];
      assert table == init + [last];
      CallerMattersForZeroTid(a, b, k, init);
      RecordingLength(a, k, init);
      RecordingLength(b, k, init);
      var x, y := ApplyAll(Recording, a, k, init), ApplyAll(Recording, b, k, init);
      var x', y' := ApplyAll(Recording, a, k, table), ApplyAll(Recording, b, k, table);
      assert x' == x + [AffinityCall(a, last), SchedulerCall(a, last)];
      assert y' == y + [AffinityCall(b, last), SchedulerCall(b, last)];
      assert x'[..|x|] == x && y'[..|x|] == y;
      assert x'[|x|] == AffinityCall(a, last) && y'[|x|] == AffinityCall(b, last);
      assert last.tid == 0 ==> x' != y';
    }
  }

  // ---------- checking a table ----------

  const SCHED_OTHER := 0
  const SCHED_FIFO := 1
  const SCHED_RR := 2
  const SCHED_BATCH := 3
  const SCHED_IDLE := 5

  /** What the system answers about priorities and configured processors. */
  datatype Limits = Limits(rrMin: int, rrMax: int, fifoMin: int, fifoMax: int, cpuConf: int)

  predicate LegalProps(limits: Limits, p: Props) {
    && p.policy in {SCHED_OTHER, SCHED_FIFO, SCHED_RR, SCHED_BATCH, SCHED_IDLE}
    && (p.policy == SCHED_RR ==> limits.rrMin <= p.priority <= limits.rrMax)
    && (p.policy == SCHED_FIFO ==> limits.fifoMin <= p.priority <= limits.fifoMax)
    && (p.policy in {SCHED_OTHER, SCHED_BATCH, SCHED_IDLE} ==> p.priority == 0)
    && p.cpu <= limits.cpuConf
  }

  /** The check at given limits, with everything written out: real-time policies 1 and 2 have
      ranges of their own, policies 0, 3 and 5 take priority 0 only, no other policy passes. */
  lemma LegalAtGivenLimits(p: Props)
    ensures LegalProps(Limits(10, 20, 30, 40, 4), p) <==>
            && p.cpu <= 4
            && (|| (p.policy == 2 && 10 <= p.priority <= 20)
                || (p.policy == 1 && 30 <= p.priority <= 40)
                || ((p.policy == 0 || p.policy == 3 || p.policy == 5) && p.priority == 0))
  {
  }

  /** The processors are numbered from 0. */
  predicate NamesConfiguredCpu(limits: Limits, p: Props) {
    0 <= p.cpu < limits.cpuConf
  }

  /** The elements of an accepted table all name a configured processor if and only if each
      passes the check that the code leaves out. */
  lemma AcceptedCpusExist(limits: Limits, table: seq<Props>)
    requires forall p :: p in table ==> LegalProps(limits, p)
    ensures (forall p :: p in table ==> NamesConfiguredCpu(limits, p))
            <==> (forall p :: p in table ==> 0 <= p.cpu && p.cpu != limits.cpuConf)
  {
    if forall p :: p in table ==> NamesConfiguredCpu(limits, p) {
      forall p | p in table
        ensures 0 <= p.cpu && p.cpu != limits.cpuConf
      {
        assert NamesConfiguredCpu(limits, p);
      }
    }
  }

  /** One past the last processor, and every negative number, is accepted. */
  lemma AcceptsMissingCpu(limits: Limits, cpu: Int32)
    requires cpu == limits.cpuConf || cpu < 0 <= limits.cpuConf
    ensures LegalProps(limits, Props(1, SCHED_OTHER, cpu, 0))
    ensures !NamesConfiguredCpu(limits, Props(1, SCHED_OTHER, cpu, 0))
  {
  }

  /** So on four processors, 0 to 3, a table that names processors 4 and -1 passes. */
  lemma AcceptedTableWithMissingCpus()
    ensures var limits, table := Limits(1, 99, 1, 99, 4), [Props(1, SCHED_OTHER, 4, 0), Props(1, SCHED_OTHER, -1, 0)];
            forall p :: p in table ==> LegalProps(limits, p) && !NamesConfiguredCpu(limits, p)
  {
    var limits := Limits(1, 99, 1, 99, 4);
    AcceptsMissingCpu(limits, 4);
    AcceptsMissingCpu(limits, -1);
  }

  /** baa_is_fiber_config_valid. */
  method IsFiberConfigValid(table: array?<Props>, count: int, limits: Limits) returns (valid: bool)
    requires table != null ==> count <= table.Length
    ensures valid <==>
            table != null && count != 0 && forall i :: 0 <= i < count ==> LegalProps(limits, table[i])
  {
    if table == null || count == 0 {
      return false;
    }
    var i := 0;
    while i < count
      invariant 0 <= i
      invariant forall j :: 0 <= j < i && j < count ==> LegalProps(limits, table[j])
    {
      var p := table[i];
      if p.policy == SCHED_RR {
        if p.priority > limits.rrMax {
          return false;
        }
        if p.priority < limits.rrMin {
          return false;
        }
      } else if p.policy == SCHED_FIFO {
        if p.priority > limits.fifoMax {
          return false;
        }
        if p.priority < limits.fifoMin {
          return false;
        }
      } else if p.policy == SCHED_OTHER {
        if p.priority != 0 {
          return false;
        }
      } else if p.policy == SCHED_IDLE {
        if p.priority != 0 {
          return false;
        }
      } else if p.policy == SCHED_BATCH {
        if p.priority != 0 {
          return false;
        }
      } else {
        return false;
      }
      if p.cpu > limits.cpuConf {
        return false;
      }
      i := i + 1;
    }
    return true;
  }

  // ---------- the request message ----------

  const REQUEST_FORMAT: Format := "cLLLL"
  const REQUEST_SIZE := 17

  lemma RequestShape()
    ensures Arity(REQUEST_FORMAT) == |REQUEST_FORMAT| == 5 && Size(REQUEST_FORMAT) == REQUEST_SIZE
  {
    assert REQUEST_FORMAT[1..] == "LLLL";
    LongFields("LLLL");
  }

  lemma {:induction false} LongFields(f: Format)
    requires forall i :: 0 <= i < |f| ==> f[i] == 'L'
    ensures Arity(f) == |f| && Size(f) == 4 * |f|
  {
    if f != [] {
      LongFields(f[1..]);
    }
  }

  function RequestArgs(p: Props): seq<int> {
    [PTYPE_SCHED_PROPS, p.tid, p.policy, p.cpu, p.priority]
  }

  /** The datagram a client sends for one element. */
  function EncodeRequest(p: Props): (msg: seq<Byte>)
    ensures |msg| == REQUEST_SIZE && msg[0] == PTYPE_SCHED_PROPS
  {
    RequestShape();
    RequestHead(p);
    Encode(REQUEST_FORMAT, RequestArgs(p))
  }

  lemma RequestHead(p: Props)
    requires Arity(REQUEST_FORMAT) == 5 && Size(REQUEST_FORMAT) == REQUEST_SIZE
    ensures Encode(REQUEST_FORMAT, RequestArgs(p))[0] == PTYPE_SCHED_PROPS
  {
    BigEndian1(PTYPE_SCHED_PROPS);
    assert REQUEST_FORMAT[0] == 'c' && Known('c') && Width('c') == 1;
  }

  /** A message of two fields, and of four, field by field. */
  lemma TwoFields(f: Format, a: int, b: int, x: seq<Byte>, y: seq<Byte>)
    requires |f| == 2 && Known(f[0]) && Known(f[1])
    requires x == BigEndian(a, Width(f[0])) && y == BigEndian(b, Width(f[1]))
    ensures Arity(f) == 2 && Encode(f, [a, b]) == x + y
  {
    assert f[1..][1..] == [];
    EncodeFirst(f[1..], b, [], y);
    EncodeFirst(f, a, [b], x);
    assert [a] + [b] == [a, b] && [b] + [] == [b] && y + [] == y;
  }

  lemma FourFields(f: Format, vs: seq<int>, x: seq<Byte>, y: seq<Byte>)
    requires |f| == |vs| == 4 && (forall i :: 0 <= i < 4 ==> Known(f[i]))
    requires Arity(f[..2]) == Arity(f[2..]) == 2
    requires x == Encode(f[..2], vs[..2]) && y == Encode(f[2..], vs[2..])
    ensures Arity(f) == 4 && Encode(f, vs) == x + y
  {
    assert f[..2] + f[2..] == f && vs[..2] + vs[2..] == vs;
    SizeOfConcat(f[..2], f[2..]);
    CompositionOfEncode(f[..2], f[2..], vs[..2], vs[2..]);
  }

  /** The wire layout: a zero byte, then thread id, policy, cpu and priority in four bytes each,
      most significant first. */
  lemma RequestLayout(p: Props)
    ensures EncodeRequest(p) ==
            [0] + ((BigEndian(p.tid, 4) + BigEndian(p.policy, 4)) + (BigEndian(p.cpu, 4) + BigEndian(p.priority, 4)))
  {
    var vs: seq<int> := [p.tid, p.policy, p.cpu, p.priority];
    assert "LLLL"[..2] == "LL" && "LLLL"[2..] == "LL" && vs[..2] == [p.tid, p.policy] && vs[2..] == [p.cpu, p.priority];
    var x, y := BigEndian(p.tid, 4) + BigEndian(p.policy, 4), BigEndian(p.cpu, 4) + BigEndian(p.priority, 4);
    TwoFields("LL", p.tid, p.policy, BigEndian(p.tid, 4), BigEndian(p.policy, 4));
    TwoFields("LL", p.cpu, p.priority, BigEndian(p.cpu, 4), BigEndian(p.priority, 4));
    FourFields("LLLL", vs, x, y);
    TypeByteFirst(p, vs);
  }

  lemma TypeByteFirst(p: Props, vs: seq<int>)
    requires vs == [p.tid, p.policy, p.cpu, p.priority] && Arity("LLLL") == 4
    ensures EncodeRequest(p) == [0] + Encode("LLLL", vs)
  {
    assert "cLLLL"[1..] == "LLLL" && RequestArgs(p) == [0] + vs;
    BigEndian1(0);
    EncodeFirst("cLLLL", 0, vs, [0]);
  }

  /** One request byte by byte. */
  lemma RequestBytes(p: Props)
    requires p.tid == 258 && p.policy == 1 && p.cpu == 3 && p.priority == -2
    ensures EncodeRequest(p) ==
            [0] + (([0, 0, 1, 2] + [0, 0, 0, 1]) + ([0, 0, 0, 3] + [255, 255, 255, 254]))
  {
    RequestLayout(p);
    BigEndian4(p.tid);
    BigEndian4(p.policy);
    BigEndian4(p.cpu);
    BigEndian4(p.priority);
  }

  /** The first `n` bytes of a receive buffer that was cleared before the datagram came in;
      a longer datagram is cut. */
  function Padded(datagram: seq<Byte>, n: nat): (bs: seq<Byte>)
    ensures |bs| == n
    ensures forall i :: 0 <= i < n ==> bs[i] == if i < |datagram| then datagram[i] else 0
  {
    seq(n, i requires 0 <= i => if i < |datagram| then datagram[i] else 0)
  }

  /** What the server's element holds after unpacking `msg`; each `long` is stored in an
      int field. */
  function DecodeRequest(msg: seq<Byte>): Props
    requires |msg| == REQUEST_SIZE
  {
    RequestShape();
    var v := Decode(REQUEST_FORMAT, msg);
    Props(ToS32(v[1]), ToS32(v[2]), ToS32(v[3]), ToS32(v[4]))
  }

  lemma StoreIsExact(v: Int32)
    ensures ToS32(v) == v
  {
  }

  lemma RequestFields(p: Props, i: nat)
    requires 1 <= i < 5
    ensures Arity(REQUEST_FORMAT) == 5
    ensures AllReduced(REQUEST_FORMAT, RequestArgs(p))[i] == RequestArgs(p)[i]
  {
    RequestShape();
    ReducedPointwise(REQUEST_FORMAT, RequestArgs(p));
    assert REQUEST_FORMAT[i] == 'L';
    StoreIsExact(RequestArgs(p)[i]);
  }

  /** A request arrives at the server as the element the client sent. */
  lemma RequestRoundTrip(p: Props)
    ensures DecodeRequest(EncodeRequest(p)) == p
  {
    RequestShape();
    DecodeOfEncode(REQUEST_FORMAT, RequestArgs(p));
    RequestFields(p, 1);
    RequestFields(p, 2);
    RequestFields(p, 3);
    RequestFields(p, 4);
    StoreIsExact(p.tid);
    StoreIsExact(p.policy);
    StoreIsExact(p.cpu);
    StoreIsExact(p.priority);
  }

  /** The receive buffer holds a request unharmed, whatever its length beyond 17. */
  lemma PaddedRequest(p: Props, n: nat)
    requires REQUEST_SIZE <= n
    ensures Padded(EncodeRequest(p), n)[..REQUEST_SIZE] == EncodeRequest(p)
  {
  }
}
