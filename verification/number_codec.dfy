/** The fixed-width big-endian number fields of the session record: writers that
    range-check and split a number into bytes, and readers that assemble bytes with
    `ReadByte`, shifts and OR exactly as the C# expressions do. */
module NumberCodec {
  import opened Results
  import opened Int32
  import opened ByteStream

  /** The unsigned big-endian number spelled by `bs`: the reference reading of every
      fixed-width field. */
  function BigEndian(bs: seq<byte>): nat {
    if |bs| == 0 then 0 else BigEndian(bs[..|bs| - 1]) * 0x100 + bs[|bs| - 1] as int
  }

  lemma BigEndian2(bs: seq<byte>)
    requires |bs| == 2
    ensures BigEndian(bs) == bs[0] as int * 0x100 + bs[1] as int
  {
    assert bs[..1][..0] == [];
    assert BigEndian(bs[..1]) == bs[0] as int;
  }

  lemma BigEndian3(bs: seq<byte>)
    requires |bs| == 3
    ensures BigEndian(bs) == bs[0] as int * 0x1_0000 + bs[1] as int * 0x100 + bs[2] as int
  {
    BigEndian2(bs[..2]);
  }

  lemma BigEndian4(bs: seq<byte>)
    requires |bs| == 4
    ensures BigEndian(bs) == bs[0] as int * 0x100_0000 + bs[1] as int * 0x1_0000 + bs[2] as int * 0x100 + bs[3] as int
  {
    BigEndian3(bs[..3]);
  }

  // ---- writers ---------------------------------------------------------------------

  /** Two bytes, high byte first; numbers outside 0..0xFFFF are rejected. */
  function SerializeNumAs2Bytes(num: int): (r: Result<seq<byte>>)
    ensures r.Ok? <==> 0 <= num <= 0xFFFF
    ensures r.Err? ==> r.error == ArgumentOutOfRange
    ensures r.Ok? ==> |r.value| == 2 && r.value[0] as int * 0x100 + r.value[1] as int == num
  {
    if num < 0 || 0xFFFF < num then Err(ArgumentOutOfRange)
    else Ok([(num / 0x100) % 0x100, num % 0x100])
  }

  /** Three bytes, high byte first; numbers outside 0..0xFFFFFF are rejected. */
  function SerializeNumAs3Bytes(num: int): (r: Result<seq<byte>>)
    ensures r.Ok? <==> 0 <= num <= 0xFF_FFFF
    ensures r.Err? ==> r.error == ArgumentOutOfRange
    ensures r.Ok? ==> |r.value| == 3
    ensures r.Ok? ==> r.value[0] as int * 0x1_0000 + r.value[1] as int * 0x100 + r.value[2] as int == num
  {
    if num < 0 || 0xFF_FFFF < num then Err(ArgumentOutOfRange)
    else Ok([(num / 0x1_0000) % 0x100, (num / 0x100) % 0x100, num % 0x100])
  }

  /** Four bytes, high byte first; negative numbers are rejected. */
  function SerializeNumAs4Bytes(num: int32): (r: Result<seq<byte>>)
    ensures r.Ok? <==> 0 <= num
    ensures r.Err? ==> r.error == ArgumentOutOfRange
    ensures r.Ok? ==> |r.value| == 4
    ensures r.Ok? ==> r.value[0] as int * 0x100_0000 + r.value[1] as int * 0x1_0000
                      + r.value[2] as int * 0x100 + r.value[3] as int == num
  {
    if num < 0 then Err(ArgumentOutOfRange)
    else
      SplitBytes4(num);
      Ok([(num / 0x100_0000) % 0x100, (num / 0x1_0000) % 0x100, (num / 0x100) % 0x100, num % 0x100])
  }

  /** The four truncated shifts of a non-negative `int` recombine to it. */
  lemma SplitBytes4(n: int)
    requires 0 <= n < 0x8000_0000
    ensures ((n / 0x100_0000) % 0x100) * 0x100_0000 + ((n / 0x1_0000) % 0x100) * 0x1_0000
            + ((n / 0x100) % 0x100) * 0x100 + n % 0x100 == n
  {
    var q1, q2, q3 := n / 0x100, n / 0x1_0000, n / 0x100_0000;
    assert q1 / 0x100 == q2 && q2 / 0x100 == q3;
    assert q3 < 0x100;
    assert n == q1 * 0x100 + n % 0x100;
    assert q1 == q2 * 0x100 + q1 % 0x100;
    assert q2 == q3 * 0x100 + q2 % 0x100;
  }

  /** Every writer's output spells its number big-endian. */
  lemma SerializeNumBigEndian(num: int32)
    ensures SerializeNumAs2Bytes(num).Ok? ==> BigEndian(SerializeNumAs2Bytes(num).value) == num
    ensures SerializeNumAs3Bytes(num).Ok? ==> BigEndian(SerializeNumAs3Bytes(num).value) == num
    ensures SerializeNumAs4Bytes(num).Ok? ==> BigEndian(SerializeNumAs4Bytes(num).value) == num
  {
    if SerializeNumAs2Bytes(num).Ok? { BigEndian2(SerializeNumAs2Bytes(num).value); }
    if SerializeNumAs3Bytes(num).Ok? { BigEndian3(SerializeNumAs3Bytes(num).value); }
    if SerializeNumAs4Bytes(num).Ok? { BigEndian4(SerializeNumAs4Bytes(num).value); }
  }

  // ---- readers ---------------------------------------------------------------------

  /** What the 2-byte reader yields: the next two bytes as a big-endian number, or -1
      (with the stream drained) when fewer than two remain. */
  function DeserializeNumFrom2Bytes(s: Stream): (r: Parsed<int32>)
    ensures Remaining(s) >= 2 ==> r == Parsed(BigEndian(s.data[s.pos..s.pos + 2]), Cursor(s.data, s.pos + 2))
    ensures Remaining(s) < 2 ==> r == Parsed(-1, Cursor(s.data, |s.data|))
  {
    if Remaining(s) < 2 then Parsed(-1, Cursor(s.data, |s.data|))
    else
      BigEndian2(s.data[s.pos..s.pos + 2]);
      Parsed(s.data[s.pos] as int * 0x100 + s.data[s.pos + 1] as int, Cursor(s.data, s.pos + 2))
  }

  /** What the 3-byte reader yields: the next three bytes big-endian, or -1 when truncated. */
  function DeserializeNumFrom3Bytes(s: Stream): (r: Parsed<int32>)
    ensures Remaining(s) >= 3 ==> r == Parsed(BigEndian(s.data[s.pos..s.pos + 3]), Cursor(s.data, s.pos + 3))
    ensures Remaining(s) < 3 ==> r == Parsed(-1, Cursor(s.data, |s.data|))
  {
    if Remaining(s) < 3 then Parsed(-1, Cursor(s.data, |s.data|))
    else
      BigEndian3(s.data[s.pos..s.pos + 3]);
      Parsed(s.data[s.pos] as int * 0x1_0000 + s.data[s.pos + 1] as int * 0x100 + s.data[s.pos + 2] as int,
             Cursor(s.data, s.pos + 3))
  }

  /** What the 4-byte reader yields: the next four bytes big-endian, reinterpreted as a
      signed `int` (a first byte of 0x80 or more reads negative), or -1 when truncated. */
  function DeserializeNumFrom4Bytes(s: Stream): (r: Parsed<int32>)
    ensures Remaining(s) >= 4 ==> r == Parsed(Wrap(BigEndian(s.data[s.pos..s.pos + 4])), Cursor(s.data, s.pos + 4))
    ensures Remaining(s) < 4 ==> r == Parsed(-1, Cursor(s.data, |s.data|))
  {
    if Remaining(s) < 4 then Parsed(-1, Cursor(s.data, |s.data|))
    else
      BigEndian4(s.data[s.pos..s.pos + 4]);
      Parsed(Wrap(s.data[s.pos] as int * 0x100_0000 + s.data[s.pos + 1] as int * 0x1_0000
                  + s.data[s.pos + 2] as int * 0x100 + s.data[s.pos + 3] as int),
             Cursor(s.data, s.pos + 4))
  }

  /** The reader expression `ReadByte() << 8*(width-1) | ... | ReadByte() << 8 | ReadByte()`
      evaluated left to right as C# does: the OR of the first `k` shifted bytes. */
  function OrOfShiftedBytes(s: Stream, width: nat, k: nat): (r: Parsed<int32>)
    requires 1 <= k <= width <= 4
    ensures r.next == if Remaining(s) >= k then Cursor(s.data, s.pos + k) else Cursor(s.data, |s.data|)
  {
    if k == 1 then
      var b := ReadByte(s);
      Parsed(Shl(b.value, 8 * (width - 1)), b.next)
    else
      var left := OrOfShiftedBytes(s, width, k - 1);
      var b := ReadByte(left.next);
      Parsed(Or(left.value, Shl(b.value, 8 * (width - k))), b.next)
  }

  /** The OR expression of the 2-byte reader on two bytes is their big-endian value. */
  lemma Or2Bytes(a: byte, b: byte)
    ensures Or(Shl(a, 8), Shl(b, 0)) == a as int * 0x100 + b as int
  {
    OrShifted8(a, b);
  }

  /** The OR expression of the 3-byte reader on three bytes is their big-endian value. */
  lemma Or3Bytes(a: byte, b: byte, c: byte)
    ensures Or(Or(Shl(a, 16), Shl(b, 8)), Shl(c, 0)) == a as int * 0x1_0000 + b as int * 0x100 + c as int
  {
    var a, b, c := a as int, b as int, c as int;
    var hi := a * 0x100 + b;
    var x1 := Or(Shl(a, 16), Shl(b, 8));
    assert x1 == Wrap(hi * 0x100) by {
      OrShifted16(a, b * 0x100);
    }
    assert Or(x1, Shl(c, 0)) == Wrap(hi * 0x100 + c) by {
      OrShifted8(hi, c);
    }
  }

  /** The OR expression of the 4-byte reader on four bytes is their wrapped big-endian value. */
  lemma Or4Bytes(a: byte, b: byte, c: byte, d: byte)
    ensures Or(Or(Or(Shl(a, 24), Shl(b, 16)), Shl(c, 8)), Shl(d, 0))
         == Wrap(a as int * 0x100_0000 + b as int * 0x1_0000 + c as int * 0x100 + d as int)
  {
    var a, b, c, d := a as int, b as int, c as int, d as int;
    var hi := a * 0x100 + b;
    var mid := hi * 0x100 + c;
    var x1 := Or(Shl(a, 24), Shl(b, 16));
    assert x1 == Wrap(hi * 0x1_0000) by {
      OrShifted24(a, b * 0x1_0000);
    }
    var x2 := Or(x1, Shl(c, 8));
    assert x2 == Wrap(mid * 0x100) by {
      OrShifted16(hi, c * 0x100);
    }
    assert Or(x2, Shl(d, 0)) == Wrap(mid * 0x100 + d) by {
      OrShifted8(mid, d);
    }
  }

  /** A field cut off by the end of the stream: the last `ReadByte` yields -1, and OR
      with -1 is -1, whatever was read before. */
  lemma OrOfShiftedBytesTruncated(s: Stream, width: nat)
    requires 2 <= width <= 4 && Remaining(s) < width
    ensures OrOfShiftedBytes(s, width, width) == Parsed(-1, Cursor(s.data, |s.data|))
  {
    var left := OrOfShiftedBytes(s, width, width - 1);
    assert left.next == Cursor(s.data, |s.data|);
    assert ReadByte(left.next) == Parsed(-1, left.next);
    assert Shl(-1, 0) == -1;
    OrMinusOne(left.value);
  }

  /** The first read of a field whose bytes are all there. */
  lemma UnrollFirst(s: Stream, width: nat)
    requires 1 <= width <= 4 && Remaining(s) >= 1
    ensures OrOfShiftedBytes(s, width, 1) == Parsed(Shl(s.data[s.pos], 8 * (width - 1)), Cursor(s.data, s.pos + 1))
  {
  }

  /** Each further read of a field whose bytes are all there ORs in the next byte. */
  lemma UnrollNext(s: Stream, width: nat, k: nat)
    requires 1 < k <= width <= 4 && Remaining(s) >= k
    ensures OrOfShiftedBytes(s, width, k)
      == Parsed(Or(OrOfShiftedBytes(s, width, k - 1).value, Shl(s.data[s.pos + k - 1], 8 * (width - k))), Cursor(s.data, s.pos + k))
  {
  }

  /** The C# expression `(ReadByte() << 8) | ReadByte()` computes the 2-byte reader's
      result: a truncated field reads as -1 because OR with -1 is -1. */
  lemma DeserializeNumFrom2BytesIsOrExpression(s: Stream)
    ensures OrOfShiftedBytes(s, 2, 2) == DeserializeNumFrom2Bytes(s)
  {
    if Remaining(s) >= 2 {
      var a, b := s.data[s.pos], s.data[s.pos + 1];
      UnrollFirst(s, 2);
      UnrollNext(s, 2, 2);
      Or2Bytes(a, b);
    } else {
      OrOfShiftedBytesTruncated(s, 2);
    }
  }

  /** The C# expression `(ReadByte() << 16) | (ReadByte() << 8) | ReadByte()` computes the
      3-byte reader's result. */
  lemma DeserializeNumFrom3BytesIsOrExpression(s: Stream)
    ensures OrOfShiftedBytes(s, 3, 3) == DeserializeNumFrom3Bytes(s)
  {
    if Remaining(s) >= 3 {
      var a, b, c := s.data[s.pos], s.data[s.pos + 1], s.data[s.pos + 2];
      UnrollFirst(s, 3);
      UnrollNext(s, 3, 2);
      UnrollNext(s, 3, 3);
      Or3Bytes(a, b, c);
    } else {
      OrOfShiftedBytesTruncated(s, 3);
    }
  }

  /** The C# expression `(ReadByte() << 24) | (ReadByte() << 16) | (ReadByte() << 8) | ReadByte()`
      computes the 4-byte reader's result. */
  lemma DeserializeNumFrom4BytesIsOrExpression(s: Stream)
    ensures OrOfShiftedBytes(s, 4, 4) == DeserializeNumFrom4Bytes(s)
  {
    if Remaining(s) >= 4 {
      var a, b, c, d := s.data[s.pos], s.data[s.pos + 1], s.data[s.pos + 2], s.data[s.pos + 3];
      UnrollFirst(s, 4);
      UnrollNext(s, 4, 2);
      UnrollNext(s, 4, 3);
      UnrollNext(s, 4, 4);
      Or4Bytes(a, b, c, d);
    } else {
      OrOfShiftedBytesTruncated(s, 4);
    }
  }

  // ---- round trips -----------------------------------------------------------------

  /** A written 2-byte field reads back as its number, whatever follows it. */
  lemma NumRoundTrip2(num: int, tail: seq<byte>)
    requires 0 <= num <= 0xFFFF
    ensures var data := SerializeNumAs2Bytes(num).value + tail;
      DeserializeNumFrom2Bytes(Cursor(data, 0)) == Parsed(num, Cursor(data, 2))
  {
  }

  /** A written 3-byte field reads back as its number, whatever follows it. */
  lemma NumRoundTrip3(num: int, tail: seq<byte>)
    requires 0 <= num <= 0xFF_FFFF
    ensures var data := SerializeNumAs3Bytes(num).value + tail;
      DeserializeNumFrom3Bytes(Cursor(data, 0)) == Parsed(num, Cursor(data, 3))
  {
  }

  /** A written 4-byte field reads back as its (non-negative) number, whatever follows it. */
  lemma NumRoundTrip4(num: int32, tail: seq<byte>)
    requires 0 <= num
    ensures var data := SerializeNumAs4Bytes(num).value + tail;
      DeserializeNumFrom4Bytes(Cursor(data, 0)) == Parsed(num, Cursor(data, 4))
  {
  }
}
