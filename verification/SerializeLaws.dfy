/** What the two loops of src/serialize.c promise together: reading back what was written,
    for every format string, every argument list and every buffer. */
module SerializeLaws {
  import opened CInt
  import opened Arith
  import opened Serialize

  /** The values a field of the given kind can hold. */
  predicate InRange(c: char, v: int)
    requires Known(c)
  {
    match c
    case 'c' => 0 <= v < 0x100
    case 'C' => -0x80 <= v < 0x80
    case 's' => 0 <= v < 0x1_0000
    case 'S' => -0x8000 <= v < 0x8000
    case 'l' => 0 <= v < 0x1_0000_0000
    case 'L' => -0x8000_0000 <= v < 0x8000_0000
  }

  /** An argument reduced to its field's width and signedness. */
  function Reduced(c: char, v: int): int
    requires Known(c)
  {
    match c
    case 'c' => ToU8(v)
    case 'C' => ToS8(v)
    case 's' => ToU16(v)
    case 'S' => ToS16(v)
    case 'l' => ToU32(v)
    case 'L' => ToS32(v)
  }

  predicate AllInRange(fmt: Format, args: seq<int>)
    requires |args| == Arity(fmt)
  {
    fmt == [] ||
    if Known(fmt[0]) then InRange(fmt[0], args[0]) && AllInRange(fmt[1..], args[1..])
    else AllInRange(fmt[1..], args)
  }

  function AllReduced(fmt: Format, args: seq<int>): (r: seq<int>)
    requires |args| == Arity(fmt)
    ensures |r| == |args|
  {
    if fmt == [] then []
    else if Known(fmt[0]) then [Reduced(fmt[0], args[0])] + AllReduced(fmt[1..], args[1..])
    else AllReduced(fmt[1..], args)
  }

  /** The format without the characters both loops report as unknown. */
  function Stripped(fmt: Format): (r: Format)
  {
    if fmt == [] then []
    else if Known(fmt[0]) then [fmt[0]] + Stripped(fmt[1..])
    else Stripped(fmt[1..])
  }

  // ---------- one field ----------

  lemma {:induction false} DigitsValue(v: int, n: nat)
    ensures Weight(n) > 0
    ensures FromBigEndian(BigEndian(v, n)) == v % Weight(n)
    decreases n
  {
    if n > 0 {
      DigitsValue(v / 0x100, n - 1);
      var bs := BigEndian(v, n);
      assert bs[..n - 1] == BigEndian(v / 0x100, n - 1);
      RemainderByDigit(v, Weight(n - 1));
    }
  }

  lemma RemainderByDigit(v: int, w: int)
    requires w > 0
    ensures v % (0x100 * w) == v / 0x100 % w * 0x100 + v % 0x100
  {
    var d := v / 0x100;
    var q, r := d / w, d % w;
    assert d == w * q + r;
    assert 0x100 * (w * q) == (0x100 * w) * q;
    RemainderIsUnique(v, 0x100 * w, q, r * 0x100 + v % 0x100);
  }

  lemma {:induction false} ValueDigits(bs: seq<Byte>)
    ensures BigEndian(FromBigEndian(bs), |bs|) == bs
    ensures FromBigEndian(bs) < Weight(|bs|)
    decreases |bs|
  {
    if bs != [] {
      var n := |bs| - 1;
      ValueDigits(bs[..n]);
      var hi := FromBigEndian(bs[..n]);
      assert (hi * 0x100 + bs[n]) / 0x100 == hi && (hi * 0x100 + bs[n]) % 0x100 == bs[n];
      assert bs == bs[..n] + [bs[n]];
    }
  }

  lemma FieldRoundTrip(c: char, v: int)
    requires Known(c)
    ensures DecodeField(c, BigEndian(v, Width(c))) == Reduced(c, v)
    ensures Reduced(c, v) == v <==> InRange(c, v)
  {
    var bs := BigEndian(v, Width(c));
    DigitsValue(v, |bs|);
    TopDigit(bs);
    ResidueIsReduced(c, v, Weight(|bs|)) by { Weights(); }
  }

  lemma ResidueIsReduced(c: char, v: int, w: int)
    requires Known(c)
    requires w == if Width(c) == 1 then 0x100 else if Width(c) == 2 then 0x1_0000 else 0x1_0000_0000
    ensures Reduced(c, v) == if SignedField(c) && v % w >= w / 2 then v % w - w else v % w
    ensures Reduced(c, v) == v <==> InRange(c, v)
  {
  }

  /** The sign test on the first byte is a test on the whole value. */
  lemma TopDigit(bs: seq<Byte>)
    requires |bs| == 1 || |bs| == 2 || |bs| == 4
    ensures bs[0] >= 0x80 <==> FromBigEndian(bs) >= Weight(|bs|) / 2
  {
    Weights();
    if |bs| == 1 {
      FromBigEndian1(bs);
    } else if |bs| == 2 {
      FromBigEndian2(bs);
    } else {
      FromBigEndian4(bs);
    }
  }

  lemma FieldBijection(c: char, bs: seq<Byte>)
    requires Known(c) && |bs| == Width(c)
    ensures InRange(c, DecodeField(c, bs))
    ensures BigEndian(DecodeField(c, bs), |bs|) == bs
  {
    FieldInRange(c, bs);
    ValueDigits(bs);
    var u, n := FromBigEndian(bs), |bs|;
    if SignedField(c) && bs[0] >= 0x80 {
      DigitsModWeight(u, -1, n);
      assert DecodeField(c, bs) == u + -1 * Weight(n);
    } else {
      assert DecodeField(c, bs) == u;
    }
  }

  lemma FieldInRange(c: char, bs: seq<Byte>)
    requires Known(c) && |bs| == Width(c)
    ensures InRange(c, DecodeField(c, bs))
  {
    Weights();
    ValueDigits(bs);
    TopDigit(bs);
  }

  // ---------- whole messages ----------

  /** Unpacking what was packed yields every argument reduced to its field, and yields the
      arguments themselves exactly when all were in range. */
  lemma RoundTrip(fmt: Format, args: seq<int>)
    requires |args| == Arity(fmt)
    ensures Decode(fmt, Encode(fmt, args)) == AllReduced(fmt, args)
    ensures AllReduced(fmt, args) == args <==> AllInRange(fmt, args)
  {
    DecodeOfEncode(fmt, args);
    ReducedIsExact(fmt, args);
  }

  lemma {:induction false} DecodeOfEncode(fmt: Format, args: seq<int>)
    requires |args| == Arity(fmt)
    ensures Decode(fmt, Encode(fmt, args)) == AllReduced(fmt, args)
  {
    if fmt != [] {
      if Known(fmt[0]) {
        var c, rest := fmt[0], fmt[1..];
        var w, head, tail := Width(c), BigEndian(args[0], Width(c)), Encode(rest, args[1..]);
        var bs := Encode(fmt, args);
        assert bs[..w] == head && bs[w..] == tail;
        DecodeOfEncode(rest, args[1..]);
        calc {
          Decode(fmt, bs);
          [DecodeField(c, head)] + Decode(rest, tail);
          { FieldRoundTrip(c, args[0]); }
          [Reduced(c, args[0])] + AllReduced(rest, args[1..]);
        }
      } else {
        DecodeOfEncode(fmt[1..], args);
      }
    }
  }

  lemma {:induction false} ReducedIsExact(fmt: Format, args: seq<int>)
    requires |args| == Arity(fmt)
    ensures AllReduced(fmt, args) == args <==> AllInRange(fmt, args)
  {
    if fmt != [] {
      if Known(fmt[0]) {
        FieldRoundTrip(fmt[0], args[0]);
        ReducedIsExact(fmt[1..], args[1..]);
        var r := AllReduced(fmt, args);
        assert r[0] == Reduced(fmt[0], args[0]) && r[1..] == AllReduced(fmt[1..], args[1..]);
        assert args == [args[0]] + args[1..];
      } else {
        ReducedIsExact(fmt[1..], args);
      }
    }
  }

  /** Without unknown characters, each argument belongs to the character at its position. */
  lemma {:induction false} ReducedPointwise(fmt: Format, args: seq<int>)
    requires |args| == Arity(fmt)
    requires forall i :: 0 <= i < |fmt| ==> Known(fmt[i])
    ensures |args| == |fmt|
    ensures forall i :: 0 <= i < |fmt| ==> AllReduced(fmt, args)[i] == Reduced(fmt[i], args[i])
  {
    if fmt != [] {
      ReducedPointwise(fmt[1..], args[1..]);
      var r, tail := AllReduced(fmt, args), AllReduced(fmt[1..], args[1..]);
      forall i | 0 <= i < |fmt|
        ensures r[i] == Reduced(fmt[i], args[i])
      {
        if i > 0 {
          assert r[i] == tail[i - 1] == Reduced(fmt[1..][i - 1], args[1..][i - 1]);
        }
      }
    }
  }

  /** Every buffer of the format's size is the packing of the in-range values it unpacks to. */
  lemma PackAfterUnpack(fmt: Format, bs: seq<Byte>)
    requires |bs| == Size(fmt)
    ensures AllInRange(fmt, Decode(fmt, bs))
    ensures Encode(fmt, Decode(fmt, bs)) == bs
  {
    DecodedInRange(fmt, bs);
    EncodeOfDecode(fmt, bs);
  }

  lemma {:induction false} DecodedInRange(fmt: Format, bs: seq<Byte>)
    requires |bs| == Size(fmt)
    ensures AllInRange(fmt, Decode(fmt, bs))
  {
    if fmt != [] {
      var w := Width(fmt[0]);
      if w > 0 {
        DecodedInRange(fmt[1..], bs[w..]);
        assert Decode(fmt, bs)[1..] == Decode(fmt[1..], bs[w..]);
        FieldInRange(fmt[0], bs[..w]);
      } else {
        DecodedInRange(fmt[1..], bs);
      }
    }
  }

  lemma {:induction false} EncodeOfDecode(fmt: Format, bs: seq<Byte>)
    requires |bs| == Size(fmt)
    ensures Encode(fmt, Decode(fmt, bs)) == bs
  {
    if fmt != [] {
      var w := Width(fmt[0]);
      if w > 0 {
        var v := FirstField(fmt, bs);
        var vs := Decode(fmt[1..], bs[w..]);
        EncodeOfDecode(fmt[1..], bs[w..]);
        EncodeFirst(fmt, v, vs, bs[..w]);
        assert bs[..w] + bs[w..] == bs;
      } else {
        EncodeOfDecode(fmt[1..], bs);
      }
    }
  }

  lemma FirstField(fmt: Format, bs: seq<Byte>) returns (v: int)
    requires fmt != [] && Known(fmt[0]) && |bs| == Size(fmt)
    ensures var w := Width(fmt[0]);
            BigEndian(v, w) == bs[..w] && Decode(fmt, bs) == [v] + Decode(fmt[1..], bs[w..])
  {
    v := DecodeField(fmt[0], bs[..Width(fmt[0])]);
    FieldBijection(fmt[0], bs[..Width(fmt[0])]);
  }

  lemma EncodeFirst(fmt: Format, v: int, vs: seq<int>, field: seq<Byte>)
    requires fmt != [] && Known(fmt[0]) && |vs| == Arity(fmt[1..])
    requires field == BigEndian(v, Width(fmt[0]))
    ensures |[v] + vs| == Arity(fmt)
    ensures Encode(fmt, [v] + vs) == field + Encode(fmt[1..], vs)
  {
    assert ([v] + vs)[1..] == vs;
  }

  /** For a fixed format, packing is a bijection between in-range argument lists and buffers
      of the format's size. */
  lemma PackIsBijective(fmt: Format, bs: seq<Byte>, args: seq<int>)
    requires |bs| == Size(fmt) && |args| == Arity(fmt) && AllInRange(fmt, args)
    ensures Encode(fmt, args) == bs <==> args == Decode(fmt, bs)
  {
    RoundTrip(fmt, args);
    PackAfterUnpack(fmt, bs);
  }

  /** Two argument lists pack to the same bytes exactly when they agree modulo the fields. */
  lemma SameBytes(fmt: Format, a: seq<int>, b: seq<int>)
    requires |a| == |b| == Arity(fmt)
    ensures Encode(fmt, a) == Encode(fmt, b) <==> AllReduced(fmt, a) == AllReduced(fmt, b)
  {
    RoundTrip(fmt, a);
    RoundTrip(fmt, b);
    PackAfterUnpack(fmt, Encode(fmt, a));
    PackAfterUnpack(fmt, Encode(fmt, b));
  }

  /** Packing a concatenated format writes the two messages one after the other, and
      unpacking it reads any two messages one after the other. */
  lemma Composition(f1: Format, f2: Format, a1: seq<int>, a2: seq<int>, b1: seq<Byte>, b2: seq<Byte>)
    requires |a1| == Arity(f1) && |a2| == Arity(f2)
    requires |b1| == Size(f1) && |b2| == Size(f2)
    ensures Arity(f1 + f2) == Arity(f1) + Arity(f2) && Size(f1 + f2) == Size(f1) + Size(f2)
    ensures Encode(f1 + f2, a1 + a2) == Encode(f1, a1) + Encode(f2, a2)
    ensures Decode(f1 + f2, b1 + b2) == Decode(f1, b1) + Decode(f2, b2)
  {
    SizeOfConcat(f1, f2);
    CompositionOfEncode(f1, f2, a1, a2);
    CompositionOfDecode(f1, f2, b1, b2);
  }

  lemma {:induction false} CompositionOfDecode(f1: Format, f2: Format, b1: seq<Byte>, b2: seq<Byte>)
    requires |b1| == Size(f1) && |b2| == Size(f2)
    requires Size(f1 + f2) == Size(f1) + Size(f2)
    ensures Decode(f1 + f2, b1 + b2) == Decode(f1, b1) + Decode(f2, b2)
  {
    if f1 == [] {
      assert f1 + f2 == f2 && b1 + b2 == b2;
    } else {
      var rest, w := f1[1..], Width(f1[0]);
      assert (f1 + f2)[1..] == rest + f2;
      SizeOfConcat(rest, f2);
      if Known(f1[0]) {
        var v := DecodeField(f1[0], b1[..w]);
        assert (b1 + b2)[..w] == b1[..w] && (b1 + b2)[w..] == b1[w..] + b2;
        calc {
          Decode(f1 + f2, b1 + b2);
          [v] + Decode(rest + f2, b1[w..] + b2);
          { CompositionOfDecode(rest, f2, b1[w..], b2); }
          [v] + (Decode(rest, b1[w..]) + Decode(f2, b2));
          { Regroup([v], Decode(rest, b1[w..]), Decode(f2, b2)); }
          Decode(f1, b1) + Decode(f2, b2);
        }
      } else {
        CompositionOfDecode(rest, f2, b1, b2);
      }
    }
  }

  lemma {:induction false} SizeOfConcat(f1: Format, f2: Format)
    ensures Arity(f1 + f2) == Arity(f1) + Arity(f2) && Size(f1 + f2) == Size(f1) + Size(f2)
  {
    if f1 == [] {
      assert f1 + f2 == f2;
    } else {
      assert (f1 + f2)[1..] == f1[1..] + f2;
      SizeOfConcat(f1[1..], f2);
    }
  }

  lemma {:induction false} CompositionOfEncode(f1: Format, f2: Format, a1: seq<int>, a2: seq<int>)
    requires |a1| == Arity(f1) && |a2| == Arity(f2)
    requires Arity(f1 + f2) == Arity(f1) + Arity(f2)
    ensures Encode(f1 + f2, a1 + a2) == Encode(f1, a1) + Encode(f2, a2)
  {
    if f1 == [] {
      assert f1 + f2 == f2 && a1 + a2 == a2;
    } else {
      var rest := f1[1..];
      assert (f1 + f2)[1..] == rest + f2;
      SizeOfConcat(rest, f2);
      if Known(f1[0]) {
        var head := BigEndian(a1[0], Width(f1[0]));
        assert (a1 + a2)[1..] == a1[1..] + a2;
        calc {
          Encode(f1 + f2, a1 + a2);
          head + Encode(rest + f2, a1[1..] + a2);
          { CompositionOfEncode(rest, f2, a1[1..], a2); }
          head + (Encode(rest, a1[1..]) + Encode(f2, a2));
          (head + Encode(rest, a1[1..])) + Encode(f2, a2);
          Encode(f1, a1) + Encode(f2, a2);
        }
      } else {
        CompositionOfEncode(rest, f2, a1, a2);
      }
    }
  }

  /** Deleting the unknown characters from a format changes nothing for either loop. */
  lemma {:induction false} UnknownCharactersDoNothing(fmt: Format, args: seq<int>, bs: seq<Byte>)
    requires |args| == Arity(fmt) && |bs| == Size(fmt)
    ensures Arity(Stripped(fmt)) == |Stripped(fmt)| == Arity(fmt) && Size(Stripped(fmt)) == Size(fmt)
    ensures Encode(Stripped(fmt), args) == Encode(fmt, args)
    ensures Decode(Stripped(fmt), bs) == Decode(fmt, bs)
  {
    if fmt != [] {
      if Known(fmt[0]) {
        assert Stripped(fmt)[1..] == Stripped(fmt[1..]);
        UnknownCharactersDoNothing(fmt[1..], args[1..], bs[Width(fmt[0])..]);
      } else {
        UnknownCharactersDoNothing(fmt[1..], args, bs);
      }
    }
  }

  /** The formats of one character, by their digits: with `Composition` this fixes the bytes of
      every format. */
  lemma OneField(c: char, v: int)
    ensures Arity([c]) == if c in {'c', 'C', 's', 'S', 'l', 'L'} then 1 else 0
    ensures c in {'c', 'C'} ==> Encode([c], [v]) == [v % 256]
    ensures c in {'s', 'S'} ==> Encode([c], [v]) == [v / 256 % 256, v % 256]
    ensures c in {'l', 'L'} ==>
              Encode([c], [v]) == [v / 16777216 % 256, v / 65536 % 256, v / 256 % 256, v % 256]
    ensures c !in {'c', 'C', 's', 'S', 'l', 'L'} ==> Encode([c], []) == []
  {
    BigEndian1(v);
    BigEndian2(v);
    BigEndian4(v);
    assert [c][1..] == [] && [v] + [] == [v];
    if Known(c) {
      var field := BigEndian(v, Width(c));
      EncodeFirst([c], v, [], field);
      assert field + [] == field;
    }
  }

  /** The two loops run one after the other on one buffer. */
  method PackThenUnpack(buf: array<Byte>, fmt: Format, args: seq<int>, long: LongWidth)
    returns (packed: nat, unpacked: nat, values: seq<int>)
    requires Arity(fmt) == |args|
    requires Size(fmt) <= buf.Length
    modifies buf
    ensures packed == unpacked == Size(fmt)
    ensures buf[packed..] == old(buf[packed..])
    ensures values == AllReduced(fmt, args)
    ensures values == args <==> AllInRange(fmt, args)
  {
    packed := Pack(buf, fmt, args, long);
    unpacked, values := Unpack(buf, fmt, long);
    assert args[..Arity(fmt)] == args;
    RoundTrip(fmt, args);
  }
}
