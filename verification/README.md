# Verified model of libbaalue

libbaalue is a small C library for time-triggered threads on Linux boards. This project
models its three hard parts and two smaller ones in Dafny and proves what they guarantee
over every input and every run:

- **Serializer** (`CInt`, `Serialize`, `SerializeLaws`). `baa_pack` and `baa_unpack` are two
  separate loops over a format string. They are methods on a byte array, written with the
  C conversions, truncating shifts and wrap-around subtractions of the source, for a `long`
  of 32 or 64 bits. Each is proved against a plain arithmetic description of a message
  (`Encode`, `Decode`), and the round trip, the bijection and the composition laws are
  proved about that description for every format, including unknown characters.
- **Scheduling-properties protocol** (`ScheduleProps`, `ScheduleProtocol`,
  `ScheduleTheorems`, `ScheduleLoops`). The client and server loops of `fiber.c` form a state
  machine over two byte-level datagram queues, with timeouts and failed sends anywhere. The
  main results are the refinement (through the server equals directly), safety of every
  reachable state, the exact outcome of giving up, and completion after nine steps per
  element when nothing fails. `ScheduleLoops` holds the two loops as imperative code and
  ties both to the steps of the machine. The kernel is an arbitrary deterministic function
  of its state and the system call.
- **Time-triggered fiber loop** (`Fiber`, `FiberTheorems`, `Backlog`, `Hyperperiod`). Release
  times in a timespec whose nanoseconds wrap at the width of `long`, sleeps that a signal
  may cut short, arbitrary execution times. The main results are the exact condition under
  which releases never drift, the closed form of lateness for any first lateness, and the
  exact condition under which a table's release pattern repeats.
- **Start barrier** (`StartBarrier`). All interleavings of the creating thread and the fibers
  around the condition variable: every run without idle steps is bounded, and every complete
  run has called exactly the fibers that were waiting at the broadcast, which may be any of
  them.
- **Line reader** (`ReadLine`) and **device management** (`DeviceMgmt`). A framing loop with
  retry and truncation, and a single-byte command protocol over a network that loses, delays
  and reorders.

`Arith` and `Common` hold arithmetic facts and shared definitions. A run of a state machine is
any sequence of step labels, a label that is not enabled changes nothing, and theorems
quantify over all sequences.

## What turned out not to hold unconditionally

- Setting properties through the server equals the caller's own call only when no thread id
  is 0, since 0 names the calling thread (`ViaServerEqualsOwnCall`,
  `OwnCallDiffersForZeroTid`, `ZeroTidActsOnServer`). It always equals the server's own call.
- Releases are drift-free exactly when `dt >= 0` and
  `dt + 10^9 - gcd(dt, 10^9)` fits in `long` (`DriftFreeExactlyWhenSafe`). With a 64-bit
  `long` that is `dt >= 0`; with 32 bits, `0 <= dt <= 1147483648` suffices (`AdditionFits`),
  1147483649 does not (`FirstUnsafePeriod`), and 1999999999 is off at the second release
  (`DriftAtSecondRelease`). Which releases are exact is settled one by one
  (`ExactExactlyWhenFitting`, `NegativeExactExactlyWhenFitting`).
- With a negative period the fiber runs back to back only until the nanoseconds wrap, and
  then sleeps again (`NegativePeriod`, `NegativePeriodSleepsAgain`,
  `StartsWithoutSleepExactlyWhen`).
- A fiber whose executions fit is punctual exactly when it reaches its first sleep in time;
  otherwise its lateness only shrinks (`PunctualWhenExecutionsFit`, `LatenessIsWorkedOff`).
- An activation starts before its release exactly when a signal ends its sleep early
  (`EarlyExactlyWhenSignalled`): the code calls the function after `EINTR` too.
- A fiber that reaches the condition variable after the broadcast waits for ever
  (`LostWakeUp`, `CalledExactlyIfWaiting`, `AnyFibersMayBeCalled`); the one-second sleep does not exclude
  it, and neither does it make property setting see every thread id
  (`SeesAllExactlyWhenWritten`, `SeesOldTid`).
- A call that gave up may or may not have set the element it waited for
  (`TimedOutEitherWay`).
- Lines come back unchanged exactly when every terminated line fits and an unterminated last
  line fills the room to the byte (`FramingIsLosslessExactlyWhenLinesFit`): at the end of the
  file the last byte of an unterminated line is stored a second time
  (`UnterminatedByteComesTwice`). With room for no byte such a line is not noticed at all
  (`FramingWithoutRoom`), and a failing read loses the line it falls into
  (`FramingUntilFault`).
- A datagram without any byte is handled as a request, because the cleared buffer shows type
  0 (`RequestExactlyWhenZeroByte`).
- The validator accepts a cpu equal to the configured count, one past the last cpu, and any
  negative cpu (`AcceptsMissingCpu`, `AcceptedTableWithMissingCpus`); an accepted table names
  configured cpus only exactly when each element passes the check the code leaves out
  (`AcceptedCpusExist`).

## Model

| member | source | states |
|---|---|---|
| `Serialize.Pack16` | src/serialize.c:23-28 | stores the two low base-256 digits at the write position and changes no other byte |
| `Serialize.Pack32` | src/serialize.c:30-37 | stores the four low base-256 digits at the write position and changes no other byte, for a long of either width |
| `Serialize.PackField` | src/serialize.c:125-162 | every case of the switch, with its narrowing and widening conversions, stores the big-endian digits of the original argument |
| `Serialize.Pack` | src/serialize.c:108-168 | the returned size is the format's size, the bytes are the encoding of the arguments, and bytes past the size are unchanged |
| `Serialize.UnpackField` | src/serialize.c:187-225 | every case of the switch yields the arithmetic value of the field's bytes |
| `Serialize.Unpack` | src/serialize.c:170-231 | reports the same size and yields the decoded value of every field in order |
| `Serialize.NarrowKeepsDigits` | src/serialize.c:136-147 | narrowing to short and sign-extending to unsigned int keeps the two digits written |
| `Serialize.LongKeepsDigits` | src/serialize.c:148-159 | passing through long and unsigned long of either width keeps the four digits written |
| `Serialize.DecodeI8` | src/serialize.c:39-54 | the inner subtraction does not wrap, and the wrapped outer one converted to signed is the two's-complement value |
| `Serialize.WrapAround32` | src/serialize.c:51-68 | minus one minus the complement in 32-bit unsigned arithmetic, read as signed, is the value less the field's weight |
| `Serialize.ValueI16` | src/serialize.c:56-71 | the inner 16-bit subtraction does not wrap and the decode is the value less 65536 when the top bit is set |
| `Serialize.DecodeI16` | src/serialize.c:56-71 | the 16-bit wrap-around decode is the two's-complement value of the bytes and survives the store into a short |
| `Serialize.WrapAround` | src/serialize.c:85-88 | the same subtraction for an unsigned long of 32 or 64 bits is exact |
| `Serialize.ValueI32` | src/serialize.c:73-91 | the inner 32-bit subtraction does not wrap for either width of long |
| `Serialize.DecodeI32` | src/serialize.c:73-91 | the 32-bit wrap-around decode is the two's-complement value of the bytes for either width of long |
| `SerializeLaws.FieldRoundTrip` | src/serialize.c:39-106 | one field reads back as its argument reduced to width and signedness, exactly when in range unchanged |
| `SerializeLaws.FieldBijection` | src/serialize.c:39-106 | every byte pattern of a field is the encoding of the in-range value it decodes to |
| `SerializeLaws.RoundTrip` | src/serialize.c:108-231 | for every format and argument list, unpacking what was packed yields the reduced arguments, and the arguments themselves if and only if all were in range |
| `SerializeLaws.ReducedPointwise` | src/serialize.c:124-163 | without unknown characters each argument belongs to the character at its own position |
| `SerializeLaws.PackAfterUnpack` | src/serialize.c:124-226 | every buffer of the format's size unpacks to in-range values whose packing restores it |
| `SerializeLaws.PackIsBijective` | src/serialize.c:124-226 | for in-range arguments, a buffer is their encoding if and only if they are its decoding |
| `SerializeLaws.SameBytes` | src/serialize.c:124-163 | two argument lists pack to the same bytes if and only if they agree modulo the fields |
| `SerializeLaws.Composition` | src/serialize.c:119-230 | packing f1+f2 writes the packing of f1 followed by that of f2, sizes add up, and unpacking f1+f2 from any bytes yields what f1 and f2 yield from their parts |
| `SerializeLaws.UnknownCharactersDoNothing` | src/serialize.c:160-225 | deleting the unknown characters changes neither size, encoding nor decoding |
| `SerializeLaws.OneField` | src/serialize.c:124-163 | the bytes of every one-character format as base-256 digits; with the composition law this fixes the bytes of every format |
| `SerializeLaws.PackThenUnpack` | src/serialize.c:108-231 | the two loops on one buffer report one size, leave the rest alone and return the reduced arguments |
| `ScheduleProps.SetScheduleProps` | src/fiber.c:180-214 | makes both calls for every element in table order, whatever the kernel answers, and returns 0 |
| `ScheduleProps.CallsMade` | src/fiber.c:187-211 | for every caller and table the calls are two per element in order: the element's cpu, then its policy and priority, for its own thread or for the caller when the id is 0 |
| `ScheduleProps.CallerDoesNotMatter` | src/fiber.c:199-211 | without a zero thread id the kernel ends in the same state whichever thread makes the calls |
| `ScheduleProps.CallerMattersForZeroTid` | src/fiber.c:199-211 | a kernel that records calls tells two callers apart if and only if some thread id is 0 |
| `ScheduleProps.IsFiberConfigValid` | src/fiber.c:314-392 | true exactly when the table is there, count is not 0, and every element has one of the five policies, a priority legal for it and cpu at most the configured count |
| `ScheduleProps.LegalAtGivenLimits` | src/fiber.c:330-387 | at given limits, policies 2 and 1 pass within their own ranges, 0, 3 and 5 with priority 0, no other policy, and cpu up to the count |
| `ScheduleProps.AcceptedCpusExist` | src/fiber.c:382-387 | the elements of an accepted table all name a configured cpu if and only if none is negative and none equals the configured count |
| `ScheduleProps.AcceptsMissingCpu` | src/fiber.c:383-387 | one past the last cpu and every negative number is accepted |
| `ScheduleProps.AcceptedTableWithMissingCpus` | src/fiber.c:383-387 | on four cpus a table naming cpus 4 and -1 is accepted |
| `ScheduleProps.RequestRoundTrip` | src/fiber.c:433-439 | for every 32-bit field value the server's element equals the one the client packed |
| `ScheduleProps.RequestLayout` | src/fiber.c:260-265 | a request is a zero byte, then thread id, policy, cpu and priority, four bytes each, most significant first |
| `ScheduleProps.RequestBytes` | src/fiber.c:260-265 | the 17 bytes of one request, a negative priority included |
| `ScheduleProps.PaddedRequest` | src/fiber.c:416-420 | the cleared receive buffer holds a request unharmed |
| `ScheduleProtocol.RequestReachesServer` | src/fiber.c:433-448 | a request datagram takes the server to its acknowledgement with the element sent |
| `ScheduleProtocol.SendKeepsInv` | src/fiber.c:271-276 | the client's send keeps the invariant of both loops, whether it succeeds or fails |
| `ScheduleProtocol.ReadKeepsInv` | src/fiber.c:283-308 | a reply read by the client keeps it |
| `ScheduleProtocol.ReceiveKeepsInv` | src/fiber.c:419-448 | the server's receive keeps the invariant |
| `ScheduleProtocol.ReplyKeepsInv` | src/libbaalue-private.h:40-66 | a reply is never PTYPE_ERROR and keeps the invariant whether its send succeeds or fails |
| `ScheduleProtocol.BindingKeepsInv` | src/fiber.c:199-205 | the affinity call keeps the invariant, the kernel state included |
| `ScheduleProtocol.SchedulingKeepsInv` | src/fiber.c:207-213 | the scheduler call keeps it and completes the element |
| `ScheduleProtocol.StepKeepsInv` | src/fiber.c:237-472 | every step of either loop keeps the invariant |
| `ScheduleProtocol.RunKeepsInv` | src/fiber.c:237-472 | every reachable state satisfies the invariant |
| `ScheduleTheorems.SafetyOfEveryRun` | src/fiber.c:271-459 | at most one request outstanding, pending replies a subsequence of the two acknowledgements, a prefix of the table set in order, replies attempted a prefix of the expected acknowledgements, never PTYPE_ERROR |
| `ScheduleTheorems.AcksAlternate` | src/libbaalue-private.h:40-56 | the expected acknowledgements on the wire alternate 255 and 253 |
| `ScheduleTheorems.ViaServerRefinesDirect` | src/fiber.c:237-312 | a call that returns 0 has set every element exactly once and in order and leaves any kernel as the server's direct call would, with nothing left on its way |
| `ScheduleTheorems.SuccessiveCalls` | src/fiber.c:237-459 | two successful calls in a row, the second issued while the server may still be reporting, set both tables as one direct call on their concatenation |
| `ScheduleTheorems.ViaServerEqualsOwnCall` | src/fiber.c:180-312 | and as the client's own direct call would when no thread id is 0 |
| `ScheduleTheorems.OwnCallDiffersForZeroTid` | src/fiber.c:180-312 | for the recording kernel the two agree if and only if no thread id is 0 |
| `ScheduleTheorems.ZeroTidActsOnServer` | src/fiber.c:180-312 | one element with thread id 0 sent by thread 2 is set on the server, thread 1 |
| `ScheduleTheorems.ValidationCarriesThrough` | src/fiber.c:314-450 | for a validated table everything the server sets or is about to set satisfies the validator's predicate, in every reachable state |
| `ScheduleTheorems.ReturnedStays` | src/fiber.c:273-289 | a returned client takes no more steps |
| `ScheduleTheorems.GivingUp` | src/fiber.c:286-289 | after -1 at element i the server has set i or i+1 elements, however long it runs on |
| `ScheduleTheorems.FailedSend` | src/fiber.c:271-276 | after a failed send of element i it has set exactly i and never sets another |
| `ScheduleTheorems.ReachElement` | src/fiber.c:254-309 | some run brings the client to the send of any element |
| `ScheduleTheorems.TimedOutEitherWay` | src/fiber.c:283-289 | at every element of every table both outcomes of giving up occur, in two runs that show the client the same send outcomes and the same answers |
| `ScheduleTheorems.ProductiveStep` | src/fiber.c:237-472 | each step without a fault reduces the steps left by exactly one and keeps the acknowledgement coming |
| `ScheduleTheorems.SomeStepEnabled` | src/fiber.c:237-472 | without faults some step is enabled until all steps are done |
| `ScheduleTheorems.FaultlessRunCompletes` | src/libbaalue.h:146-153 | a run without faults is complete if and only if it has nine steps per element, and one for a report still under way at the start, and has then returned 0 with every property set |
| `ScheduleTheorems.CompleteRunExists` | src/libbaalue.h:146-153 | such a run exists for every table |
| `ScheduleLoops.ScheduleServer.Clean` | src/fiber.c:40-46 | buffer and element are zero afterwards |
| `ScheduleLoops.ScheduleServer.Receive` | src/fiber.c:419-420 | the datagram lands at the front of the buffer, cut to its length, and the other bytes keep what they held |
| `ScheduleLoops.ScheduleServer.Iterate` | src/fiber.c:416-463 | one turn sets and acknowledges exactly the request its own datagram carries; both error replies are unreachable |
| `ScheduleLoops.ScheduleServer.Serve` | src/fiber.c:416-469 | any number of turns handle the requests of the datagrams one by one, with the kernel state and acknowledgements that gives |
| `ScheduleLoops.ReceiveIsRequestOf` | src/fiber.c:416-439 | the 100-byte buffer shows the server nothing beyond the datagram padded to 17 bytes |
| `ScheduleLoops.RequestExactlyWhenZeroByte` | src/fiber.c:433-462 | a datagram is handled as a request if and only if it is empty or starts with 0 |
| `ScheduleLoops.HistoryIndependence` | src/fiber.c:40-46 | after any history, datagrams that agree when padded to 17 bytes carry the same requests |
| `ScheduleLoops.TurnIsSixSteps` | src/fiber.c:416-459 | one turn of the imperative loop is six steps of the protocol machine |
| `ScheduleLoops.ClientSendsInOrder` | src/fiber.c:254-312 | whatever is answered, the client sends a prefix of the table's requests in order, and all of them before returning 0 |
| `ScheduleLoops.ReturnsZeroExactlyWhen` | src/fiber.c:254-312 | whatever is answered, the client returns 0 if and only if every send works and, before a timeout, as many answers other than 255 come as there are elements |
| `ScheduleLoops.PackRequest` | src/fiber.c:260-265 | the packed bytes of an element are its request |
| `ScheduleLoops.SetSchedulePropsViaServer` | src/fiber.c:237-312 | the loop with its goto computes the result and the messages that the client steps give |
| `ScheduleLoops.ClientOfRunIsClientLoop` | src/fiber.c:254-312 | in every run the client has sent what its loop sends on the send outcomes and answers the run has shown it, and stands where the loop goes on from |
| `ScheduleLoops.ReturnedClientIsClientLoop` | src/fiber.c:254-312 | a call that has returned in some run has returned and sent what the loop does |
| `Fiber.Timespec.TsNorm` | src/fiber.c:105-112 | conserves the time, refines division and remainder, normalises non-negative nanoseconds and takes nsec / 10^9 rounds |
| `Fiber.FiberLoop` | src/fiber.c:136-152 | activation k is called once, at the start and for the release that the run functions give |
| `FiberTheorems.AdvanceIsExact` | src/fiber.c:150-151 | one advance adds exactly dt if and only if the addition does not wrap |
| `FiberTheorems.AdditionFits` | src/fiber.c:150-151 | from every normalised time the 32-bit addition fits if and only if dt is at most 1147483648; such a period is safe, and normalising then takes at most two rounds |
| `FiberTheorems.SafeReleases` | src/fiber.c:136-152 | for a safe period release k is exactly k periods after the first and normalised |
| `FiberTheorems.NeverMadeUp` | src/fiber.c:150-151 | a wrap puts releases behind for a non-negative period and ahead for a negative one, and that is never made up |
| `FiberTheorems.ExactExactlyWhenFitting` | src/fiber.c:136-152 | for a non-negative period, release k is exact if and only if every addition before it stays in range |
| `FiberTheorems.NegativeExactExactlyWhenFitting` | src/fiber.c:136-152 | for a negative period, release k is exact if and only if k periods fit in long |
| `FiberTheorems.UnsafePeriodDrifts` | src/fiber.c:150-151 | for any period that is not safe some release is off |
| `FiberTheorems.FirstUnsafePeriod` | src/fiber.c:150-151 | 1147483649 is not safe with a 32-bit long |
| `FiberTheorems.DriftAtSecondRelease` | src/fiber.c:150-151 | with dt 1999999999 and a 32-bit long release 1 is exact and release 2 is off |
| `FiberTheorems.DriftFreeExactlyWhenSafe` | src/fiber.c:136-152 | all releases of every run length are exact if and only if the period is safe, which for a 64-bit long means non-negative |
| `FiberTheorems.FirstRelease` | src/fiber.c:136-138 | the first release is the first full second after the clock reading |
| `Backlog.EarlyExactlyWhenSignalled` | src/fiber.c:142-148 | an activation starts before its release if and only if a signal ended its sleep early; no signal moves a release |
| `Backlog.StartTimes` | src/fiber.c:141-152 | for a safe period every start is the signal's time if one comes during the sleep, and otherwise the later of release and readiness |
| `Backlog.StartTimesOfAnyPeriod` | src/fiber.c:141-152 | the same for every period, where a stored time with negative nanoseconds is not slept to |
| `Backlog.AfterSignal` | src/fiber.c:141-152 | after a signalled activation the next release is where it was, and the next activation is late by what the signalled one reaches beyond it, or not at all |
| `Backlog.LatenessRecurrence` | src/fiber.c:141-152 | lateness after an activation is what it had plus execution time less the period, but not negative |
| `Backlog.LatenessIsGreatestDebt` | src/fiber.c:136-152 | lateness is the maximum over all preceding stretches of their execution time beyond their periods, a stretch from the beginning also carrying the lateness of the first activation |
| `Backlog.LatenessIsGreatestExcess` | src/fiber.c:141-152 | for a fiber that goes to sleep by its first release, the maximum of the excesses alone |
| `Backlog.BoundedLateness` | src/fiber.c:136-152 | lateness stays within a bound over the whole run if and only if no stretch leaves a greater debt, the lateness of the first activation included |
| `Backlog.LatenessIsWorkedOff` | src/fiber.c:141-152 | when every execution fits the period lateness never grows, and is exactly the first lateness less the time left over since, or zero |
| `Backlog.PunctualWhenExecutionsFit` | src/fiber.c:136-152 | such a fiber starts every activation exactly at its release if and only if it goes to sleep by its first release |
| `Backlog.StartsWithoutSleepExactlyWhen` | src/fiber.c:142-151 | for every period, an undisturbed activation starts without sleeping if and only if the stored nanoseconds are negative or the stored time has come |
| `Backlog.BeforeFirstWrap` | src/fiber.c:150-151 | activation k of a negative period comes before the first wrap if and only if k periods still fit in long |
| `Backlog.NegativePeriod` | src/fiber.c:142-151 | a negative period stores ever more negative nanoseconds and never sleeps after the first activation until the first wrap, where it holds a normalised time one full range of long too late |
| `Backlog.NegativePeriodSleepsAgain` | src/fiber.c:142-151 | with dt -1000000000 and a 32-bit long the second and third activation start at once and the fourth sleeps again |
| `Hyperperiod.PatternRepeatsExactlyForCommonMultiples` | src/fiber.c:136-152 | from the latest start on, the releases of the whole table repeat with h if and only if h is a common multiple of the periods, even when fibers read different seconds |
| `Hyperperiod.ReleasesPerWindow` | src/fiber.c:136-152 | every window of length h holds exactly h / dt releases of a fiber when dt divides h |
| `StartBarrier.ExecKeepsInv` | src/fiber.c:114-235 | every interleaving keeps mutex ownership, thread ids and the woken set consistent |
| `StartBarrier.CallersWaitedAtBroadcast` | src/fiber.c:114-148 | a fiber that has called its function waited at the broadcast, which came before, and had written its own thread id |
| `StartBarrier.CanCallExactlyWhenWoken` | src/fiber.c:131-148 | after the broadcast a fiber calls its function in some continuation if and only if it was waiting at the broadcast |
| `StartBarrier.CompleteRunsCallExactlyTheWoken` | src/fiber.c:114-235 | in every complete run the fibers that have called their function are exactly those waiting at the broadcast, every other created fiber waits for ever, and main has failed or is joining |
| `StartBarrier.BroadcastPoint` | src/fiber.c:221-223 | a run that has broadcast has done so at a step at which main held the mutex |
| `StartBarrier.BroadcastWakesWaiting` | src/fiber.c:221-223 | the broadcast wakes exactly the fibers waiting before it |
| `StartBarrier.CalledExactlyIfWaiting` | src/fiber.c:131-148 | for every run through a broadcast, only fibers waiting just before it have called their function, and in a complete run all of them have |
| `StartBarrier.FailedCreateRunsNothing` | src/fiber.c:163-172 | after a failed creation no fiber ever calls its function, however the run goes on |
| `StartBarrier.StepLowersRank` | src/fiber.c:114-235 | every step that changes anything lowers a rank |
| `StartBarrier.RunsComplete` | src/fiber.c:114-235 | every run without idle steps has at most 18 n + 11 steps for n fibers, and every run can be continued to a complete one |
| `StartBarrier.SeesAllExactlyWhenWritten` | src/fiber.c:118-120 | property setting reads every fiber's own thread id if and only if no fiber that has not written it holds a different one in the table |
| `StartBarrier.SeesOldTid` | src/fiber.c:157-178 | a builder that returns before the fiber has written its thread id lets property setting read the old value |
| `StartBarrier.AllWaitInTime` | src/fiber.c:157-235 | if all fibers wait when the builder returns, property setting sees every thread id and in every complete run every fiber has called its function |
| `StartBarrier.AnyFibersMayWait` | src/fiber.c:157-178 | whichever fibers one names, they and no others may wait when the builder returns |
| `StartBarrier.AnyFibersMayBeCalled` | src/fiber.c:114-235 | any set of fibers is what some complete run has called |
| `StartBarrier.LostWakeUp` | src/fiber.c:174-223 | a run in which the broadcast comes first and the fiber never calls its function, however it goes on |
| `ReadLine.BaaReadLine` | src/helper.c:114-146 | result, bytes stored, NUL, bounds and bytes consumed are those of the reading function; bytes past n_bytes are unchanged |
| `ReadLine.LinesPartition` | src/helper.c:140-141 | the lines of a stream put together are the stream |
| `ReadLine.ReadFromDelivers` | src/helper.c:122-146 | from the middle of a line, with any interrupts, the call delivers the rest of it cut to the room and consumes all of it |
| `ReadLine.OneCall` | src/helper.c:114-146 | a call delivers the first line, cut, and consumes it whole, or reports the end |
| `ReadLine.LineFraming` | src/helper.c:114-146 | repeated calls deliver the lines in order and then BAA_FILE_EMPTY, whatever interrupts the reads |
| `ReadLine.FramingIsLosslessExactlyWhenLinesFit` | src/helper.c:135-141 | the lines come back unchanged if and only if terminated ones fit and an unterminated last one fills the room |
| `ReadLine.UnterminatedByteComesTwice` | src/helper.c:132-141 | a file of one byte that is no newline comes back as that byte twice |
| `ReadLine.FramingWithoutRoom` | src/helper.c:132-146 | with n_bytes 1 repeated calls return 0 once per terminated line and then BAA_FILE_EMPTY, and an unterminated last line goes unnoticed |
| `ReadLine.FaultEndsCall` | src/helper.c:122-130 | a read that fails inside a line ends the call with -1, with the bytes before it stored up to the room and what follows unread |
| `ReadLine.LineIsReadAlone` | src/helper.c:122-146 | a call that completes its line does not look at what follows it |
| `ReadLine.FramingUntilFault` | src/helper.c:114-146 | with a failing read anywhere and any room, repeated calls deliver exactly the lines complete before it and then -1 |
| `ReadLine.TwoLines` | src/helper.c:114-146 | two lines of one letter byte by byte, and then -2 |
| `ReadLine.FaultInsideLine` | src/helper.c:122-130 | a read that fails between the two bytes of a line loses it |
| `DeviceMgmt.SimpleDeviceCmd` | src/device_mgmt.c:40-76 | returns 0 exactly when the send worked and a reply came that starts with byte 255, and -1 otherwise |
| `DeviceMgmt.DeviceServer.Turn` | src/device_mgmt.c:140-195 | one turn acknowledges and acts as the first byte of its own datagram asks |
| `DeviceMgmt.ReceiveKeepsCountInv` | src/device_mgmt.c:52-75 | an acknowledgement read by the client means every request it issued has been taken |
| `DeviceMgmt.RunKeepsInv` | src/device_mgmt.c:40-195 | every reachable state satisfies the counting and the trace invariant |
| `DeviceMgmt.SuccessesReachedServer` | src/device_mgmt.c:40-94 | after k successful calls the first k requests have reached the server; between calls it has taken exactly what was issued and nothing is on its way |
| `DeviceMgmt.ActionsMatchDatagrams` | src/device_mgmt.c:157-194 | the server's trace is the turns of the datagrams taken, and between turns it has acknowledged once per datagram starting with 1 to 4, halted once per 2 and rebooted once per 3 |
| `DeviceMgmt.AckComesBeforeAction` | src/device_mgmt.c:157-191 | at every moment of every run each acknowledgement follows a datagram that asks for it, and each halt or reboot the acknowledgement of its own command |
| `DeviceMgmt.CommandsCanSucceed` | src/device_mgmt.c:40-195 | commands 2, 3 and 4 in any order and number can all succeed, with every request taken in order |
| `DeviceMgmt.CommandCanFail` | src/device_mgmt.c:46-57 | each command can fail with its request unsent or lost, or with its request taken and handled and the acknowledgement unsent or lost |
| `DeviceMgmt.OthersCanBeServed` | src/device_mgmt.c:140-195 | any datagrams of other senders can be taken and served in full in any order |

## Left out

- Sockets, addresses and files: queues, timeouts and failed sends stand for them; the client's `addr`, which a receive overwrites with the server's own address, is not modelled.
- Stale replies of an earlier failed call: the protocol theorems start from empty queues, since messages carry no sequence numbers.
- Replies of zero bytes to `baa_set_schedule_props_via_server`: the server never sends one.
- Out-pointers of `baa_unpack`: the values are returned in order, so aliased pointers are not captured; the join of shifted bytes by `|` is written as addition, which `Serialize.JoiningAdds` justifies on bit vectors.
- `int` arguments read as `long` from the variable argument list: exact on the 32-bit target; the protocol takes `long` as 32 bits.
- Signed overflow, undefined in C: taken as wrap-around; `tv_sec` is unbounded.
- Spurious wake-ups of the condition variable: excluded; the code waits without a predicate and would run early on one.
- `pthread_join`, stack and heap prefaulting, affinity sets beyond one cpu: no functional result.
- Scheduling policies are the numbers of the Linux headers; priority ranges and the cpu count are parameters.
- `baa_read_line` with `n_bytes` 0: the size wraps and the buffer is unbounded.
- Duplicated datagrams, and device commands after a failed one: outside what the counting promises.
- Messages, logging and debug output: no effect.
- `src/network.c`, `src/can_lin.c`, `src/sh_mem.c`, `src/user.c`, `src/group.c`, `src/process.c`, `src/error.c` and the rest of `src/helper.c`: wrappers over system calls that would only add easy members.
