/** src/helper.c, baa_read_line: one byte at a time from a descriptor until a newline, into a
    buffer that may be shorter than the line. */
module ReadLine {
  import opened CInt

  const NEWLINE: Byte := 10
  const FILE_EMPTY := -2

  /** What read() on the descriptor will do next; after the last event it reports the end of
      the file, again and again. */
  datatype Event = Data(b: Byte) | Interrupted | Fault

  datatype Answer = Got(b: Byte) | End | Eintr | Failed

  function AnswerTo(e: Event): Answer {
    match e
    case Data(b) => Got(b)
    case Interrupted => Eintr
    case Fault => Failed
  }

  class Descriptor {
    var events: seq<Event>

    constructor (events: seq<Event>)
      ensures this.events == events
    {
      this.events := events;
    }

    method Read() returns (answer: Answer)
      modifies this
      ensures old(events) == [] ==> answer == End && events == []
      ensures old(events) != [] ==>
                && events == old(events)[1..]
                && answer == AnswerTo(old(events)[0])
    {
      if events == [] {
        return End;
      }
      answer := AnswerTo(events[0]);
      events := events[1..];
    }
  }

  // ---------- one call ----------

  /** The return value, the bytes stored, and what is left to read. */
  datatype Outcome = Outcome(code: int, text: seq<Byte>, rest: seq<Event>)

  function Stored(text: seq<Byte>, b: Byte, room: nat): seq<Byte> {
    if |text| < room then text + [b] else text
  }

  /** A call that has stored `text` and last read `last`, with room for `room` bytes. */
  function ReadFrom(events: seq<Event>, text: seq<Byte>, last: Byte, room: nat): (o: Outcome)
    ensures events != [] ==> |o.rest| < |events|
    ensures events == [] ==> o.rest == []
    ensures events == [] && text == [] ==> o.code < 0
    decreases |events|
  {
    if events == [] then
      if text == [] then Outcome(FILE_EMPTY, [], [])
      else Outcome(|Stored(text, last, room)|, Stored(text, last, room), [])
    else
      match events[0]
      case Interrupted => ReadFrom(events[1..], text, last, room)
      case Fault => Outcome(-1, text, events[1..])
      case Data(b) =>
        var t := Stored(text, b, room);
        if b != NEWLINE then ReadFrom(events[1..], t, b, room) else Outcome(|t|, t, events[1..])
  }

  /** baa_read_line. */
  method BaaReadLine(fd: Descriptor, buf: array<Byte>, nBytes: nat) returns (result: int)
    requires 1 <= nBytes <= buf.Length
    modifies fd, buf
    ensures var o := ReadFrom(old(fd.events), [], 0, nBytes - 1);
            && result == o.code
            && fd.events == o.rest
            && |o.text| < nBytes
            && buf[..|o.text|] == o.text
            && (result >= 0 ==> result == |o.text| && buf[result] == 0)
    ensures buf[nBytes..] == old(buf[nBytes..])
  {
    var count, ch: Byte := 0, 0;
    ghost var goal := ReadFrom(fd.events, [], 0, nBytes - 1);
    while true
      invariant 0 <= count <= nBytes - 1
      invariant ReadFrom(fd.events, buf[..count], ch, nBytes - 1) == goal
      invariant buf[nBytes..] == old(buf[nBytes..])
      decreases |fd.events|
    {
      ghost var text := buf[..count];
      var answer := fd.Read();
      match answer {
        case Eintr =>
        case Failed =>
          return -1;
        case End =>
          if count == 0 {
            return FILE_EMPTY;
          }
          if count < nBytes - 1 {
            buf[count] := ch;
            count := count + 1;
          }
          assert buf[..count] == Stored(text, ch, nBytes - 1);
          buf[count] := 0;
          assert buf[..count] == goal.text;
          return count;
        case Got(b) =>
          ch := b;
          if count < nBytes - 1 {
            buf[count] := ch;
            count := count + 1;
          }
          assert buf[..count] == Stored(text, ch, nBytes - 1);
          if ch == NEWLINE {
            buf[count] := 0;
            assert buf[..count] == goal.text;
            return count;
          }
      }
    }
  }

  // ---------- what lines are ----------

  predicate NoFault(events: seq<Event>) {
    forall i :: 0 <= i < |events| ==> !events[i].Fault?
  }

  /** The bytes of a stream, whatever interrupts reading them. */
  function Bytes(events: seq<Event>): seq<Byte> {
    if events == [] then []
    else if events[0].Data? then [events[0].b] + Bytes(events[1..])
    else Bytes(events[1..])
  }

  /** The bytes up to and including the first newline, or all of them. */
  function FirstLine(bytes: seq<Byte>): (line: seq<Byte>)
    ensures |line| <= |bytes| && (bytes != [] ==> line != [])
  {
    if bytes == [] then []
    else if bytes[0] == NEWLINE then [NEWLINE]
    else [bytes[0]] + FirstLine(bytes[1..])
  }

  function Lines(bytes: seq<Byte>): seq<seq<Byte>>
    decreases |bytes|
  {
    if bytes == [] then [] else [FirstLine(bytes)] + Lines(bytes[|FirstLine(bytes)|..])
  }

  predicate Terminated(line: seq<Byte>) {
    line != [] && line[|line| - 1] == NEWLINE
  }

  function Cut(text: seq<Byte>, room: nat): seq<Byte> {
    if |text| <= room then text else text[..room]
  }

  /** What a call delivers for a line: the line cut to the room there is; at the end of the
      file the last byte of an unterminated line is stored once more. */
  function Delivered(line: seq<Byte>, room: nat): seq<Byte> {
    if line == [] || Terminated(line) then Cut(line, room) else Cut(line + [line[|line| - 1]], room)
  }

  function Concat(lines: seq<seq<Byte>>): seq<Byte> {
    if lines == [] then [] else lines[0] + Concat(lines[1..])
  }

  /** `Lines` is a partition: newlines end lines and nothing is lost. */
  lemma {:induction false} LinesPartition(bytes: seq<Byte>)
    ensures Concat(Lines(bytes)) == bytes
    decreases |bytes|
  {
    if bytes != [] {
      var line := FirstLine(bytes);
      FirstLineIsPrefix(bytes);
      LinesPartition(bytes[|line|..]);
      assert Lines(bytes)[1..] == Lines(bytes[|line|..]);
    }
  }

  lemma {:induction false} FirstLineIsPrefix(bytes: seq<Byte>)
    ensures bytes == FirstLine(bytes) + bytes[|FirstLine(bytes)|..]
    ensures forall i :: 0 <= i < |FirstLine(bytes)| - 1 ==> FirstLine(bytes)[i] != NEWLINE
    ensures !Terminated(FirstLine(bytes)) ==> FirstLine(bytes) == bytes
  {
    if bytes != [] && bytes[0] != NEWLINE {
      FirstLineIsPrefix(bytes[1..]);
      var line := FirstLine(bytes[1..]);
      assert FirstLine(bytes)[1..] == line;
      assert Terminated(line) ==> FirstLine(bytes)[|line|] == NEWLINE;
      assert bytes == [bytes[0]] + bytes[1..];
    }
  }

  // ---------- framing ----------

  lemma CutStored(text: seq<Byte>, b: Byte, more: seq<Byte>, room: nat)
    requires |text| <= room
    ensures |Stored(text, b, room)| <= room
    ensures Cut(Stored(text, b, room) + more, room) == Cut(text + ([b] + more), room)
  {
  }

  /** Stored bytes and the rest of their line; at the end of the file the last byte read is
      stored once more. */
  function Whole(text: seq<Byte>, line: seq<Byte>, last: Byte): seq<Byte> {
    if Terminated(line) then text + line
    else if line == [] then text + [last]
    else text + (line + [line[|line| - 1]])
  }

  lemma OneByteFurther(text: seq<Byte>, b: Byte, line: seq<Byte>, last: Byte, room: nat)
    requires |text| <= room && b != NEWLINE
    ensures Cut(Whole(Stored(text, b, room), line, b), room) == Cut(Whole(text, [b] + line, last), room)
  {
    if line == [] {
      CutStored(text, b, [b], room);
      assert [b] + line == [b];
    } else {
      assert ([b] + line)[|line|] == line[|line| - 1];
      if Terminated(line) {
        CutStored(text, b, line, room);
      } else {
        CutStored(text, b, line + [line[|line| - 1]], room);
        assert [b] + (line + [line[|line| - 1]]) == ([b] + line) + [line[|line| - 1]];
      }
    }
  }

  /** A call in the middle of a line delivers what it has stored and the rest of the line,
      cut to the room, and consumes the whole line. */
  lemma {:induction false} ReadFromDelivers(events: seq<Event>, text: seq<Byte>, last: Byte, room: nat)
    requires NoFault(events) && |text| <= room && room >= 1
    ensures var o, bytes := ReadFrom(events, text, last, room), Bytes(events);
            var line := FirstLine(bytes);
            && NoFault(o.rest)
            && Bytes(o.rest) == bytes[|line|..]
            && (text == [] && line == [] ==> o.code == FILE_EMPTY)
            && (text != [] || line != [] ==>
                  o.code == |o.text| && o.text == Cut(Whole(text, line, last), room))
    decreases |events|
  {
    if events != [] {
      var tail := events[1..];
      match events[0]
      case Interrupted =>
        ReadFromDelivers(tail, text, last, room);
      case Data(b) =>
        CutStored(text, b, [], room);
        if b != NEWLINE {
          ReadFromDelivers(tail, Stored(text, b, room), b, room);
          OneByteFurther(text, b, FirstLine(Bytes(tail)), last, room);
        }
    }
  }

  /** One call: the first line delivered and consumed, or the end of the file reported. */
  lemma OneCall(events: seq<Event>, room: nat)
    requires NoFault(events) && room >= 1
    ensures var o, bytes := ReadFrom(events, [], 0, room), Bytes(events);
            var line := FirstLine(bytes);
            && NoFault(o.rest)
            && Bytes(o.rest) == bytes[|line|..]
            && (line == [] ==> o.code == FILE_EMPTY)
            && (line != [] ==> o.code == |o.text| && o.text == Delivered(line, room))
  {
    ReadFromDelivers(events, [], 0, room);
    var line := FirstLine(Bytes(events));
    if line != [] {
      assert [] + line == line;
      assert [] + (line + [line[|line| - 1]]) == line + [line[|line| - 1]];
    }
  }

  datatype Session = Session(texts: seq<seq<Byte>>, code: int)

  /** Calling baa_read_line until it returns a negative value. */
  function ReadAll(events: seq<Event>, room: nat): Session
    decreases |events|
  {
    var o := ReadFrom(events, [], 0, room);
    if o.code < 0 then Session([], o.code)
    else
      var later := ReadAll(o.rest, room);
      Session([o.text] + later.texts, later.code)
  }

  function DeliveredAll(lines: seq<seq<Byte>>, room: nat): (r: seq<seq<Byte>>)
    ensures |r| == |lines|
    ensures forall i :: 0 <= i < |lines| ==> r[i] == Delivered(lines[i], room)
  {
    if lines == [] then [] else [Delivered(lines[0], room)] + DeliveredAll(lines[1..], room)
  }

  /** Whatever interrupts the reads, repeated calls deliver the lines of the stream one by one
      and in order, and then report the end. */
  lemma {:induction false} LineFraming(events: seq<Event>, room: nat)
    requires NoFault(events) && room >= 1
    ensures ReadAll(events, room) == Session(DeliveredAll(Lines(Bytes(events)), room), FILE_EMPTY)
    decreases |events|
  {
    OneCall(events, room);
    var o, bytes := ReadFrom(events, [], 0, room), Bytes(events);
    var line := FirstLine(bytes);
    if line != [] {
      var rest := Lines(bytes[|line|..]);
      LineFraming(o.rest, room);
      assert Lines(bytes) == [line] + rest && ([line] + rest)[1..] == rest;
      assert DeliveredAll(Lines(bytes), room) == [Delivered(line, room)] + DeliveredAll(rest, room);
    }
  }

  /** The lines come back unchanged exactly when every terminated line fits and an
      unterminated last one fills the room to the byte. */
  lemma FramingIsLosslessExactlyWhenLinesFit(events: seq<Event>, room: nat)
    requires NoFault(events) && room >= 1
    ensures ReadAll(events, room).texts == Lines(Bytes(events)) <==>
            forall line :: line in Lines(Bytes(events)) ==> if Terminated(line) then |line| <= room else |line| == room
  {
    LineFraming(events, room);
    var lines := Lines(Bytes(events));
    LinesAreNotEmpty(Bytes(events));
    var texts := DeliveredAll(lines, room);
    forall i | 0 <= i < |lines|
      ensures texts[i] == lines[i] <==> if Terminated(lines[i]) then |lines[i]| <= room else |lines[i]| == room
    {
      DeliveredUnchanged(lines[i], room);
    }
    if texts == lines {
      forall line | line in lines
        ensures if Terminated(line) then |line| <= room else |line| == room
      {
        var i :| 0 <= i < |lines| && lines[i] == line;
        assert texts[i] == lines[i];
      }
    }
  }

  /** The shortest failing stream: one byte without a newline comes back twice. */
  lemma UnterminatedByteComesTwice(b: Byte)
    requires b != NEWLINE
    ensures Lines(Bytes([Data(b)])) == [[b]]
    ensures ReadAll([Data(b)], 2).texts == [[b, b]]
  {
    var events := [Data(b)];
    assert events[1..] == [];
    assert Bytes(events) == [b] && [b][1..] == [];
    assert FirstLine([b]) == [b];
    LineFraming(events, 2);
    assert Lines([b]) == [[b]] && [[b]][1..] == [];
    assert Delivered([b], 2) == [b, b];
  }

  lemma DeliveredUnchanged(line: seq<Byte>, room: nat)
    requires line != []
    ensures Delivered(line, room) == line <==> if Terminated(line) then |line| <= room else |line| == room
  {
    if !Terminated(line) && |line| == room {
      assert (line + [line[|line| - 1]])[..room] == line;
    }
  }

  lemma {:induction false} LinesAreNotEmpty(bytes: seq<Byte>)
    ensures forall i :: 0 <= i < |Lines(bytes)| ==> Lines(bytes)[i] != []
    decreases |bytes|
  {
    if bytes != [] {
      LinesAreNotEmpty(bytes[|FirstLine(bytes)|..]);
    }
  }

  // ---------- failing reads ----------

  /** A read that fails before the line is complete ends the call with -1, whatever was stored,
      and leaves what follows unread; the bytes before it are in the buffer. */
  lemma {:induction false} FaultEndsCall(pre: seq<Event>, post: seq<Event>, text: seq<Byte>, last: Byte, room: nat)
    requires NoFault(pre) && 10 !in Bytes(pre)
    ensures var o := ReadFrom(pre + [Fault] + post, text, last, room);
            && o.code == -1 && o.rest == post
            && (|text| <= room ==> o.text == Cut(text + Bytes(pre), room))
    decreases |pre|
  {
    var all := pre + [Fault] + post;
    if pre == [] {
      assert all == [Fault] + post && all[1..] == post && text + [] == text;
    } else {
      assert all[0] == pre[0] && all[1..] == pre[1..] + [Fault] + post;
      match pre[0]
      case Interrupted => FaultEndsCall(pre[1..], post, text, last, room);
      case Data(b) =>
        FaultEndsCall(pre[1..], post, Stored(text, b, room), b, room);
        if |text| <= room {
          CutStored(text, b, Bytes(pre[1..]), room);
        }
    }
  }

  /** A call that completes its line does not look at what follows it. */
  lemma {:induction false} LineIsReadAlone(events: seq<Event>, more: seq<Event>, text: seq<Byte>, last: Byte, room: nat)
    requires NoFault(events) && Terminated(FirstLine(Bytes(events)))
    ensures var o := ReadFrom(events, text, last, room);
            ReadFrom(events + more, text, last, room) == Outcome(o.code, o.text, o.rest + more)
    decreases |events|
  {
    assert (events + more)[0] == events[0] && (events + more)[1..] == events[1..] + more;
    match events[0]
    case Interrupted => LineIsReadAlone(events[1..], more, text, last, room);
    case Data(b) =>
      if b != NEWLINE {
        LongerLine(b, Bytes(events[1..]));
        LineIsReadAlone(events[1..], more, Stored(text, b, room), b, room);
      }
  }

  lemma LongerLine(b: Byte, bytes: seq<Byte>)
    requires b != NEWLINE
    ensures Terminated(FirstLine([b] + bytes)) <==> Terminated(FirstLine(bytes))
  {
    var line := FirstLine(bytes);
    assert ([b] + bytes)[1..] == bytes;
    assert FirstLine([b] + bytes) == [b] + line;
    assert line != [] ==> ([b] + line)[|line|] == line[|line| - 1];
  }

  /** The lines of a stream that are terminated. */
  function CompleteLines(bytes: seq<Byte>): seq<seq<Byte>>
    decreases |bytes|
  {
    if !Terminated(FirstLine(bytes)) then []
    else [FirstLine(bytes)] + CompleteLines(bytes[|FirstLine(bytes)|..])
  }

  /** A call for a terminated line, with any room or none. */
  lemma CompleteLine(events: seq<Event>, room: nat)
    requires NoFault(events) && Terminated(FirstLine(Bytes(events)))
    ensures var o, bytes := ReadFrom(events, [], 0, room), Bytes(events);
            var line := FirstLine(bytes);
            && NoFault(o.rest)
            && Bytes(o.rest) == bytes[|line|..]
            && o.code == |o.text| && o.text == Delivered(line, room)
  {
    if room >= 1 {
      OneCall(events, room);
    } else {
      CallWithoutRoom(events, 0);
    }
  }

  /** Without room for a byte nothing is ever stored, so the end of the file is reported even
      in the middle of a line. */
  lemma {:induction false} CallWithoutRoom(events: seq<Event>, last: Byte)
    requires NoFault(events)
    ensures var o, bytes := ReadFrom(events, [], last, 0), Bytes(events);
            var line := FirstLine(bytes);
            && NoFault(o.rest)
            && Bytes(o.rest) == bytes[|line|..]
            && o.text == [] && o.code == if Terminated(line) then 0 else -2
    decreases |events|
  {
    if events != [] {
      match events[0]
      case Interrupted => CallWithoutRoom(events[1..], last);
      case Data(b) =>
        if b != NEWLINE {
          CallWithoutRoom(events[1..], b);
          LongerLine(b, Bytes(events[1..]));
        }
    }
  }

  /** With a buffer of one byte, repeated calls return 0 once for each terminated line and then
      report the end; an unterminated last line goes unnoticed. */
  lemma {:induction false} FramingWithoutRoom(events: seq<Event>)
    requires NoFault(events)
    ensures var all := ReadAll(events, 0);
            && all.code == -2 && |all.texts| == |CompleteLines(Bytes(events))|
            && forall i :: 0 <= i < |all.texts| ==> all.texts[i] == []
    decreases |events|
  {
    CallWithoutRoom(events, 0);
    if Terminated(FirstLine(Bytes(events))) {
      FramingWithoutRoom(ReadFrom(events, [], 0, 0).rest);
    }
  }

  /** One more complete line at the front. */
  lemma CompleteLineFirst(pre: seq<Event>, rest: seq<Event>, more: seq<Event>, room: nat)
    requires NoFault(pre) && Terminated(FirstLine(Bytes(pre)))
    requires rest == ReadFrom(pre, [], 0, room).rest
    requires ReadAll(rest + more, room) == Session(DeliveredAll(CompleteLines(Bytes(rest)), room), -1)
    ensures ReadAll(pre + more, room) == Session(DeliveredAll(CompleteLines(Bytes(pre)), room), -1)
  {
    CompleteLine(pre, room);
    LineIsReadAlone(pre, more, [], 0, room);
    var line, later := FirstLine(Bytes(pre)), CompleteLines(Bytes(rest));
    assert CompleteLines(Bytes(pre)) == [line] + later && ([line] + later)[1..] == later;
  }

  /** With a failing read somewhere, repeated calls deliver exactly the lines that were complete
      before it, and then -1. */
  lemma {:induction false} FramingUntilFault(pre: seq<Event>, post: seq<Event>, room: nat)
    requires NoFault(pre)
    ensures ReadAll(pre + [Fault] + post, room) == Session(DeliveredAll(CompleteLines(Bytes(pre)), room), -1)
    decreases |pre|
  {
    if Terminated(FirstLine(Bytes(pre))) {
      CompleteLine(pre, room);
      var rest, more := ReadFrom(pre, [], 0, room).rest, [Fault] + post;
      FramingUntilFault(rest, post, room);
      assert rest + [Fault] + post == rest + more && pre + [Fault] + post == pre + more;
      CompleteLineFirst(pre, rest, more, room);
    } else {
      NoNewlineInside(Bytes(pre));
      FaultEndsCall(pre, post, [], 0, room);
    }
  }

  lemma NoNewlineInside(bytes: seq<Byte>)
    requires !Terminated(FirstLine(bytes))
    ensures NEWLINE !in bytes
  {
    FirstLineIsPrefix(bytes);
    assert bytes != [] ==> bytes[|bytes| - 1] != NEWLINE;
  }

  // ---------- at given bytes ----------

  lemma ShortLine(a: Byte, rest: seq<Byte>)
    requires a != 10
    ensures Lines([a, 10] + rest) == [[a, 10]] + Lines(rest)
  {
    var bytes := [a, 10] + rest;
    assert bytes[1..] == [10] + rest && bytes[2..] == rest;
    assert FirstLine([10] + rest) == [10];
    assert FirstLine(bytes) == [a, 10];
  }

  lemma ShortLineBytes(a: Byte, rest: seq<Event>)
    ensures Bytes([Data(a), Data(10)] + rest) == [a, 10] + Bytes(rest)
  {
    var events := [Data(a), Data(10)] + rest;
    assert events[1..] == [Data(10)] + rest && events[1..][1..] == rest;
    assert Bytes(events[1..]) == [10] + Bytes(rest);
  }

  /** The text "a", newline, "b", newline, byte by byte. */
  lemma TwoLines()
    ensures ReadAll([Data(97), Data(10), Data(98), Data(10)], 9) == Session([[97, 10], [98, 10]], -2)
  {
    var events := [Data(97), Data(10), Data(98), Data(10)];
    var lines := [[97, 10], [98, 10]];
    assert Lines(Bytes(events)) == lines by {
      ShortLineBytes(98, []);
      ShortLineBytes(97, [Data(98), Data(10)]);
      assert [Data(97), Data(10)] + [Data(98), Data(10)] == events && [Data(98), Data(10)] + [] == [Data(98), Data(10)];
      ShortLine(98, []);
      ShortLine(97, [98, 10]);
      assert [98, 10] + [] == [98, 10] && Lines([]) == [];
    }
    LineFraming(events, 9);
    assert DeliveredAll(lines, 9) == lines;
  }

  /** A read that fails between the two bytes of a line loses it. */
  lemma FaultInsideLine()
    ensures ReadAll([Data(97), Fault, Data(10)], 9) == Session([], -1)
  {
    var pre := [Data(97)];
    assert pre[1..] == [] && Bytes(pre) == [97];
    FaultEndsCall(pre, [Data(10)], [], 0, 9);
    assert pre + [Fault] + [Data(10)] == [Data(97), Fault, Data(10)];
  }
}
