/** src/serialize.c: a format string drives two separate loops, one that writes its
    arguments into a byte buffer and one that reads them back. The functions of the first
    part say in plain arithmetic what a packed field is; the machine code of the second
    part (truncating shifts, wrap-around subtraction) is proved to compute just that. */
module Serialize {
  import opened CInt

  /** The characters of a C string before its terminator (so no NUL character). */
  type Format = string

  // ---------- what a packed message is ----------

  /** Bytes a format character takes; an unknown one takes none. */
  function Width(c: char): nat {
    if c == 'c' || c == 'C' then 1
    else if c == 's' || c == 'S' then 2
    else if c == 'l' || c == 'L' then 4
    else 0
  }

  predicate Known(c: char) {
    Width(c) > 0
  }

  predicate SignedField(c: char) {
    c == 'C' || c == 'S' || c == 'L'
  }

  function Arity(fmt: Format): nat {
    if fmt == [] then 0 else (if Known(fmt[0]) then 1 else 0) + Arity(fmt[1..])
  }

  function Size(fmt: Format): nat {
    if fmt == [] then 0 else Width(fmt[0]) + Size(fmt[1..])
  }

  /** The low `n` base-256 digits of `v`, most significant first; for negative `v` these
      are the digits of its two's complement, since `/` and `%` round down. */
  function BigEndian(v: int, n: nat): (bs: seq<Byte>)
    ensures |bs| == n
    decreases n
  {
    if n == 0 then [] else BigEndian(v / 0x100, n - 1) + [v % 0x100]
  }

  function FromBigEndian(bs: seq<Byte>): nat {
    if bs == [] then 0 else FromBigEndian(bs[..|bs| - 1]) * 0x100 + bs[|bs| - 1]
  }

  function Weight(n: nat): nat {
    if n == 0 then 1 else 0x100 * Weight(n - 1)
  }

  /** The value of a field: its digits, less one full weight when the field is signed and
      its top bit is set. */
  function DecodeField(c: char, bs: seq<Byte>): int
    requires Known(c) && |bs| == Width(c)
  {
    if SignedField(c) && bs[0] >= 0x80 then FromBigEndian(bs) - Weight(|bs|) else FromBigEndian(bs)
  }

  function Encode(fmt: Format, args: seq<int>): (bs: seq<Byte>)
    requires |args| == Arity(fmt)
    ensures |bs| == Size(fmt)
  {
    if fmt == [] then []
    else if Known(fmt[0]) then BigEndian(args[0], Width(fmt[0])) + Encode(fmt[1..], args[1..])
    else Encode(fmt[1..], args)
  }

  function Decode(fmt: Format, bs: seq<Byte>): (values: seq<int>)
    requires |bs| == Size(fmt)
    ensures |values| == Arity(fmt)
  {
    if fmt == [] then []
    else if Known(fmt[0]) then
      var w := Width(fmt[0]);
      [DecodeField(fmt[0], bs[..w])] + Decode(fmt[1..], bs[w..])
    else Decode(fmt[1..], bs)
  }

  // ---------- the machine code ----------

  method Pack16(buf: array<Byte>, p: nat, i: int)
    requires p + 2 <= buf.Length
    requires 0 <= i < 0x1_0000_0000
    modifies buf
    ensures buf[..] == old(buf[..p]) + BigEndian(i, 2) + old(buf[p + 2..])
  {
    buf[p] := ToU8(i / 0x100);
    buf[p + 1] := ToU8(i);
    BigEndian2(i);
  }

  method Pack32(buf: array<Byte>, p: nat, i: int)
    requires p + 4 <= buf.Length
    requires 0 <= i
    modifies buf
    ensures buf[..] == old(buf[..p]) + BigEndian(i, 4) + old(buf[p + 4..])
  {
    buf[p] := ToU8(i / 0x100_0000);
    buf[p + 1] := ToU8(i / 0x1_0000);
    buf[p + 2] := ToU8(i / 0x100);
    buf[p + 3] := ToU8(i);
    BigEndian4(i);
  }

  /** One pass of the switch in baa_pack: convert the argument to the field's C type and
      store it at the write position; `n` is what both size and the pointer advance by. */
  method PackField(buf: array<Byte>, p: nat, c: char, arg: int, long: LongWidth) returns (n: nat)
    requires Known(c) && p + Width(c) <= buf.Length
    modifies buf
    ensures n == Width(c)
    ensures buf[..] == old(buf[..p]) + BigEndian(arg, Width(c)) + old(buf[p + Width(c)..])
  {
    match c {
      case 'c' =>
        n := 1;
        buf[p] := ToU8(arg);
        BigEndian1(arg);
      case 'C' =>
        n := 1;
        buf[p] := ToU8(ToS8(arg));
        BigEndian1(arg);
      case 's' =>
        n := 2;
        NarrowKeepsDigits(arg);
        Pack16(buf, p, ToU16(arg));
      case 'S' =>
        n := 2;
        NarrowKeepsDigits(arg);
        Pack16(buf, p, ToU32(ToS16(arg)));
      case 'l' =>
        n := 4;
        LongKeepsDigits(arg, long);
        Pack32(buf, p, long.ToULong(arg));
      case 'L' =>
        n := 4;
        LongKeepsDigits(arg, long);
        Pack32(buf, p, long.ToULong(long.ToLong(arg)));
    }
  }

  /** baa_pack: the arguments are the promoted values the caller passed. */
  method Pack(buf: array<Byte>, fmt: Format, args: seq<int>, long: LongWidth) returns (size: nat)
    requires Arity(fmt) <= |args|
    requires Size(fmt) <= buf.Length
    modifies buf
    ensures size == Size(fmt)
    ensures buf[..size] == Encode(fmt, args[..Arity(fmt)])
    ensures buf[size..] == old(buf[size..])
  {
    size := 0;
    var rest, ap, p := fmt, args, 0;
    ghost var before, written, goal := buf[..], [], Encode(fmt, args[..Arity(fmt)]);
    while rest != []
      invariant p == size == |written| && p + Size(rest) == Size(fmt)
      invariant Arity(rest) <= |ap|
      invariant written + Encode(rest, ap[..Arity(rest)]) == goal
      invariant buf[..] == written + before[p..]
      decreases |rest|
    {
      if Known(rest[0]) {
        var n := PackField(buf, p, rest[0], ap[0], long);
        ghost var field := BigEndian(ap[0], n);
        EncodeStep(rest, ap, written, field);
        FieldWritten(written, before, buf[..], field);
        written := written + field;
        size, ap, p := size + n, ap[1..], p + n;
      }
      rest := rest[1..];
    }
    assert buf[..size] == written && buf[size..] == before[size..];
  }

  /** The shifted bytes that the code joins with `|` do not overlap, so joining adds them, and
      for 32-bit words (hence for wider ones) no bit is shifted out. */
  lemma JoiningAdds(b0: bv32, b1: bv32, b2: bv32, b3: bv32)
    requires b0 < 0x100 && b1 < 0x100 && b2 < 0x100 && b3 < 0x100
    ensures (b0 << 24) | (b1 << 16) | (b2 << 8) | b3 == (b0 << 24) + (b1 << 16) + (b2 << 8) + b3
    ensures b0 << 24 == b0 * 0x100_0000 && b1 << 16 == b1 * 0x1_0000 && b2 << 8 == b2 * 0x100
    ensures (b0 << 24) >> 24 == b0
  {
  }

  /** The join of the two shifted bytes, written as a sum; `JoiningAdds` is what justifies that
      here and in `Unpack32`. */
  function Unpack16(b0: Byte, b1: Byte): int {
    b0 * 0x100 + b1
  }

  /** The join of the four shifted bytes, written as a sum by `JoiningAdds`. */
  function Unpack32(b0: Byte, b1: Byte, b2: Byte, b3: Byte): int {
    b0 * 0x100_0000 + b1 * 0x1_0000 + b2 * 0x100 + b3
  }

  /** `(-1) - (unsigned int) (0xffu - tmp)` in 32-bit unsigned arithmetic, stored in an int. */
  function UnpackI8(b0: Byte): int {
    var tmp := b0;
    var i := if tmp <= 0x7f then ToS32(tmp) else ToS32(ToU32(ToU32(-1) - ToU32(0xff - tmp)));
    ToS8(i)
  }

  function UnpackI16(b0: Byte, b1: Byte): int {
    var tmp := Unpack16(b0, b1);
    if tmp <= 0x7fff then ToS32(tmp) else ToS32(ToU32(ToU32(-1) - ToU32(0xffff - tmp)))
  }

  function UnpackI32(b0: Byte, b1: Byte, b2: Byte, b3: Byte, long: LongWidth): int {
    var tmp := Unpack32(b0, b1, b2, b3);
    if tmp <= 0x7fff_ffff then long.ToLong(tmp)
    else long.ToLong(long.ToULong(long.ToULong(-1) - long.ToULong(0xffff_ffff - tmp)))
  }

  /** One pass of the switch in baa_unpack: the value stored through the pointer argument,
      after conversion to the type it points to. */
  method UnpackField(buf: array<Byte>, p: nat, c: char, long: LongWidth) returns (n: nat, v: int)
    requires Known(c) && p + Width(c) <= buf.Length
    ensures n == Width(c)
    ensures v == DecodeField(c, buf[p..p + Width(c)])
  {
    match c {
      case 'c' =>
        n := 1;
        FromBigEndian1(buf[p..p + 1]);
        v := buf[p];
      case 'C' =>
        n := 1;
        DecodeI8(buf[p]);
        assert buf[p..p + 1] == [buf[p]];
        v := ToS8(UnpackI8(buf[p]));
      case 's' =>
        n := 2;
        FromBigEndian2(buf[p..p + 2]);
        v := ToU16(Unpack16(buf[p], buf[p + 1]));
      case 'S' =>
        n := 2;
        DecodeI16(buf[p], buf[p + 1]);
        assert buf[p..p + 2] == [buf[p], buf[p + 1]];
        v := ToS16(UnpackI16(buf[p], buf[p + 1]));
      case 'l' =>
        n := 4;
        FromBigEndian4(buf[p..p + 4]);
        v := Unpack32(buf[p], buf[p + 1], buf[p + 2], buf[p + 3]);
      case 'L' =>
        n := 4;
        DecodeI32(buf[p], buf[p + 1], buf[p + 2], buf[p + 3], long);
        assert buf[p..p + 4] == [buf[p], buf[p + 1], buf[p + 2], buf[p + 3]];
        v := UnpackI32(buf[p], buf[p + 1], buf[p + 2], buf[p + 3], long);
    }
  }

  /** baa_unpack: the values stored through the pointer arguments, in order. */
  method Unpack(buf: array<Byte>, fmt: Format, long: LongWidth) returns (size: nat, values: seq<int>)
    requires Size(fmt) <= buf.Length
    ensures size == Size(fmt)
    ensures values == Decode(fmt, buf[..size])
  {
    size, values := 0, [];
    var rest, p := fmt, 0;
    ghost var msg := buf[..Size(fmt)];
    ghost var left, goal := msg, Decode(fmt, msg);
    while rest != []
      invariant p == size && p + Size(rest) == Size(fmt)
      invariant left == msg[p..]
      invariant values + Decode(rest, left) == goal
      decreases |rest|
    {
      if Known(rest[0]) {
        var n, v := UnpackField(buf, p, rest[0], long);
        FieldRead(buf, msg, p, n);
        Regroup(values, [v], Decode(rest[1..], left[n..]));
        values := values + [v];
        size, p, left := size + n, p + n, left[n..];
      }
      rest := rest[1..];
    }
  }

  // ---------- one character further ----------

  /** The first field of the rest of a message moves to the part already written. */
  lemma EncodeStep(rest: Format, ap: seq<int>, written: seq<Byte>, field: seq<Byte>)
    requires rest != [] && Known(rest[0]) && Arity(rest) <= |ap|
    requires field == BigEndian(ap[0], Width(rest[0]))
    ensures Arity(rest[1..]) <= |ap[1..]|
    ensures written + Encode(rest, ap[..Arity(rest)]) ==
            (written + field) + Encode(rest[1..], ap[1..][..Arity(rest[1..])])
  {
    assert ap[..Arity(rest)][1..] == ap[1..][..Arity(rest[1..])];
    Regroup(written, field, Encode(rest[1..], ap[1..][..Arity(rest[1..])]));
  }

  /** Storing a field after what is written extends that by the field. */
  lemma FieldWritten<T>(written: seq<T>, before: seq<T>, after: seq<T>, field: seq<T>)
    requires |written| + |field| <= |before|
    requires var buf, p := written + before[|written|..], |written|;
             after == buf[..p] + field + buf[p + |field|..]
    ensures after == (written + field) + before[|written + field|..]
  {
  }

  /** What is left of a message, split after its first field. */
  lemma FieldRead(buf: array<Byte>, msg: seq<Byte>, p: nat, n: nat)
    requires p + n <= |msg| <= buf.Length && msg == buf[..|msg|]
    ensures msg[p..][..n] == buf[p..p + n]
    ensures msg[p..][n..] == msg[p + n..]
  {
  }

  lemma Regroup<T>(a: seq<T>, b: seq<T>, c: seq<T>)
    ensures (a + b) + c == a + (b + c)
  {
  }

  // ---------- digits of one, two and four bytes ----------

  lemma BigEndian1(v: int)
    ensures BigEndian(v, 1) == [ToU8(v)] == [ToU8(ToS8(v))]
  {
    assert BigEndian(v / 0x100, 0) == [];
  }

  lemma BigEndian2(v: int)
    ensures BigEndian(v, 2) == [ToU8(v / 0x100), ToU8(v)]
  {
    BigEndian1(v / 0x100);
  }

  lemma BigEndian4(v: int)
    ensures BigEndian(v, 4) == [ToU8(v / 0x100_0000), ToU8(v / 0x1_0000), ToU8(v / 0x100), ToU8(v)]
  {
    BigEndian2(v / 0x1_0000);
    assert v / 0x100 / 0x100 == v / 0x1_0000;
    assert v / 0x1_0000 / 0x100 == v / 0x100_0000;
    assert BigEndian(v / 0x100, 3) == BigEndian(v / 0x1_0000, 2) + [ToU8(v / 0x100)];
  }

  /** A multiple of the field's weight does not reach its digits. */
  lemma {:induction false} DigitsModWeight(u: int, q: int, n: nat)
    ensures BigEndian(u + q * Weight(n), n) == BigEndian(u, n)
    decreases n
  {
    if n > 0 {
      var m := q * Weight(n - 1);
      assert q * Weight(n) == 0x100 * m;
      assert (u + 0x100 * m) / 0x100 == u / 0x100 + m;
      DigitsModWeight(u / 0x100, q, n - 1);
    }
  }

  lemma SameDigits(v: int, u: int, q: int, n: nat)
    requires v == u + q * Weight(n)
    ensures BigEndian(u, n) == BigEndian(v, n)
  {
    DigitsModWeight(u, q, n);
  }

  /** Narrowing an argument to `short` and widening it to `unsigned int` keeps the two
      digits pack_16 writes. */
  lemma NarrowKeepsDigits(v: int)
    ensures BigEndian(ToU16(v), 2) == BigEndian(v, 2) == BigEndian(ToU32(ToS16(v)), 2)
  {
    Weights();
    SameDigits(v, ToU16(v), v / 0x1_0000, 2);
    var q := ShortQuotient(v);
    SameDigits(ToU32(ToS16(v)), ToU16(v), q, 2);
  }

  lemma ShortQuotient(v: int) returns (q: int)
    ensures ToU32(ToS16(v)) == ToU16(v) + q * 0x1_0000
  {
    q := if ToU16(v) < 0x8000 then 0 else 0xffff;
  }

  /** Passing a value through `long` and `unsigned long` of either width keeps the four
      digits pack_32 writes. */
  lemma LongKeepsDigits(v: int, long: LongWidth)
    ensures 0 <= long.ToULong(v) == long.ToULong(long.ToLong(v))
    ensures BigEndian(long.ToULong(v), 4) == BigEndian(v, 4)
  {
    var q := LongQuotient(v, long);
    Weights();
    SameDigits(v, long.ToULong(v), q, 4);
  }

  lemma LongQuotient(v: int, long: LongWidth) returns (q: int)
    ensures 0 <= long.ToULong(v) == long.ToULong(long.ToLong(v))
    ensures v == long.ToULong(v) + q * 0x1_0000_0000
  {
    match long
    case Long32 => q := v / 0x1_0000_0000;
    case Long64 => q := v / 0x1_0000_0000_0000_0000 * 0x1_0000_0000;
  }

  lemma FromBigEndian1(bs: seq<Byte>)
    requires |bs| == 1
    ensures FromBigEndian(bs) == bs[0]
  {
    assert bs[..0] == [];
  }

  lemma FromBigEndian2(bs: seq<Byte>)
    requires |bs| == 2
    ensures FromBigEndian(bs) == Unpack16(bs[0], bs[1])
  {
    FromBigEndian1(bs[..1]);
  }

  lemma FromBigEndian4(bs: seq<Byte>)
    requires |bs| == 4
    ensures FromBigEndian(bs) == Unpack32(bs[0], bs[1], bs[2], bs[3])
  {
    FromBigEndian2(bs[..3][..2]);
    assert bs[..3][..2] == bs[..2];
    assert FromBigEndian(bs[..3]) == FromBigEndian(bs[..3][..2]) * 0x100 + bs[2];
  }

  // ---------- the wrap-around decode is exact ----------

  /** The subtraction of unpack_i8 and unpack_i16 in 32-bit unsigned arithmetic. */
  lemma WrapAround32(tmp: int, weight: int)
    requires 0 <= tmp < weight <= 0x1_0000
    ensures ToU32(weight - 1 - tmp) == weight - 1 - tmp
    ensures ToS32(ToU32(ToU32(-1) - ToU32(weight - 1 - tmp))) == tmp - weight
  {
    assert ToU32(-1) == 0xffff_ffff;
  }

  lemma DecodeI8(b0: Byte)
    ensures b0 > 0x7f ==> ToU32(0xff - b0) == 0xff - b0
    ensures UnpackI8(b0) == ToS8(UnpackI8(b0)) == DecodeField('C', [b0])
  {
    WrapAround32(b0, 0x100);
    assert UnpackI8(b0) == if b0 < 0x80 then b0 else b0 - 0x100 by {
      assert ToS32(b0) == b0;
    }
    assert DecodeField('C', [b0]) == if b0 < 0x80 then b0 else b0 - 0x100 by {
      FromBigEndian1([b0]);
      Weights();
    }
  }

  lemma ValueI16(b0: Byte, b1: Byte)
    ensures Unpack16(b0, b1) > 0x7fff ==> ToU32(0xffff - Unpack16(b0, b1)) == 0xffff - Unpack16(b0, b1)
    ensures UnpackI16(b0, b1) == if b0 < 0x80 then Unpack16(b0, b1) else Unpack16(b0, b1) - 0x1_0000
  {
    var tmp := Unpack16(b0, b1);
    assert 0 <= tmp < 0x1_0000 && (tmp <= 0x7fff <==> b0 < 0x80);
    SmallIsUnchanged(tmp);
    WrapAround32(tmp, 0x1_0000);
  }

  lemma SmallIsUnchanged(tmp: int)
    requires 0 <= tmp < 0x1_0000
    ensures ToS32(tmp) == tmp
  {
  }

  lemma DecodeI16(b0: Byte, b1: Byte)
    ensures UnpackI16(b0, b1) == ToS16(UnpackI16(b0, b1)) == DecodeField('S', [b0, b1])
  {
    ValueI16(b0, b1);
    assert DecodeField('S', [b0, b1]) == if b0 < 0x80 then Unpack16(b0, b1) else Unpack16(b0, b1) - 0x1_0000 by {
      FromBigEndian2([b0, b1]);
      Weights();
    }
  }

  /** The same subtraction for a `long` of either width, as plain arithmetic. */
  lemma WrapAround(tmp: int, long: LongWidth)
    requires 0x7fff_ffff < tmp < 0x1_0000_0000
    ensures long.ToULong(0xffff_ffff - tmp) == 0xffff_ffff - tmp
    ensures long.ToLong(long.ToULong(long.ToULong(-1) - long.ToULong(0xffff_ffff - tmp))) == tmp - 0x1_0000_0000
  {
    match long
    case Long32 =>
      assert ToU32(-1) == 0xffff_ffff;
    case Long64 =>
      assert ToU64(-1) == 0xffff_ffff_ffff_ffff;
      assert ToU64(0xffff_ffff - tmp) == 0xffff_ffff - tmp;
      var d := 0xffff_ffff_ffff_ffff - (0xffff_ffff - tmp);
      assert ToU64(d) == d;
  }

  lemma ValueI32(b0: Byte, b1: Byte, b2: Byte, b3: Byte, long: LongWidth)
    ensures var tmp := Unpack32(b0, b1, b2, b3);
            && (tmp > 0x7fff_ffff ==> long.ToULong(0xffff_ffff - tmp) == 0xffff_ffff - tmp)
            && UnpackI32(b0, b1, b2, b3, long) == if b0 < 0x80 then tmp else tmp - 0x1_0000_0000
  {
    var tmp := Unpack32(b0, b1, b2, b3);
    TopByte(b0, b1, b2, b3);
    if tmp > 0x7fff_ffff {
      WrapAround(tmp, long);
    } else {
      SmallStore(tmp, long);
    }
  }

  lemma TopByte(b0: Byte, b1: Byte, b2: Byte, b3: Byte)
    ensures 0 <= Unpack32(b0, b1, b2, b3) < 0x1_0000_0000
    ensures Unpack32(b0, b1, b2, b3) <= 0x7fff_ffff <==> b0 < 0x80
  {
  }

  lemma SmallStore(v: int, long: LongWidth)
    requires 0 <= v <= 0x7fff_ffff
    ensures long.ToLong(v) == v
  {
  }

  lemma DecodeI32(b0: Byte, b1: Byte, b2: Byte, b3: Byte, long: LongWidth)
    ensures UnpackI32(b0, b1, b2, b3, long) == DecodeField('L', [b0, b1, b2, b3])
  {
    ValueI32(b0, b1, b2, b3, long);
    var tmp := Unpack32(b0, b1, b2, b3);
    assert DecodeField('L', [b0, b1, b2, b3]) == if b0 < 0x80 then tmp else tmp - 0x1_0000_0000 by {
      FromBigEndian4([b0, b1, b2, b3]);
      Weights();
    }
  }

  lemma Weights()
    ensures Weight(1) == 0x100 && Weight(2) == 0x1_0000 && Weight(4) == 0x1_0000_0000
  {
    assert Weight(0) == 1;
    assert Weight(1) == 0x100;
    assert Weight(3) == 0x100_0000;
  }
}
