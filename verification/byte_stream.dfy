/** An in-memory byte stream read through a cursor, as the session code reads a cached
    blob through a `MemoryStream`: `ReadByte` yields -1 once the end is reached, `Read`
    copies at most the bytes that remain, and `ReadBytes` insists on the full count. */
module ByteStream {
  import opened Results
  import opened Int32

  type byte = x: int | 0 <= x < 256

  /** The longest byte array the .NET runtime allocates (`Array.MaxLength`). */
  const MaxByteArrayLength: int := 0x7FFF_FFC7

  /** The largest C# `int`: a memory stream's length is one. */
  const MaxStreamLength: int := TWO31 - 1

  /** The exception, if any, of writing `count` bytes at the end of a growable memory
      stream that holds `length` bytes. The new length is a C# `int` sum: when it
      overflows the write throws IOException, and when it exceeds the array limit the
      stream cannot allocate the buffer it must grow into. */
  function GrowFailure(length: nat, count: nat): (r: Option<Error>)
    ensures r.None? <==> length + count <= MaxByteArrayLength
    ensures r.Some? ==> (r.value == StreamTooLong <==> length + count > MaxStreamLength)
    ensures r.Some? ==> r.value == StreamTooLong || r.value == OutOfMemory
  {
    if length + count > MaxStreamLength then Some(StreamTooLong)
    else if length + count > MaxByteArrayLength then Some(OutOfMemory)
    else None
  }

  datatype Cursor = Cursor(data: seq<byte>, pos: nat)

  /** A cursor never stands past the end of its data. */
  type Stream = c: Cursor | c.pos <= |c.data| witness Cursor([], 0)

  /** A value read from a stream, and the stream after the read. */
  datatype Parsed<+T> = Parsed(value: T, next: Stream)

  function Remaining(s: Stream): nat {
    |s.data| - s.pos
  }

  /** `Stream.ReadByte`: the next byte, or -1 at the end, where the cursor then stays. */
  function ReadByte(s: Stream): (r: Parsed<int32>)
    ensures r.next.data == s.data
    ensures Remaining(s) > 0 ==> r.value == s.data[s.pos] && r.next.pos == s.pos + 1
    ensures Remaining(s) == 0 ==> r.value == -1 && r.next == s
  {
    if s.pos < |s.data| then
      var b: int32 := s.data[s.pos];
      Parsed(b, Cursor(s.data, s.pos + 1))
    else
      Parsed(-1, s)
  }

  /** `MemoryStream.Read`: copies the requested number of bytes, or all that remain if fewer do. */
  function Read(s: Stream, count: nat): (r: Parsed<seq<byte>>)
    ensures |r.value| == if count <= Remaining(s) then count else Remaining(s)
    ensures r.next.data == s.data && r.next.pos == s.pos + |r.value|
    ensures r.value == s.data[s.pos..r.next.pos]
  {
    var n := if count <= Remaining(s) then count else Remaining(s);
    Parsed(s.data[s.pos..s.pos + n], Cursor(s.data, s.pos + n))
  }

  /** The read loop of `ReadBytes`: keeps reading until `count` bytes are gathered and
      fails with end-of-stream on the first read that yields nothing. */
  function Fill(s: Stream, count: nat, got: seq<byte>): (r: Result<Parsed<seq<byte>>>)
    requires |got| <= count
    ensures |got| + Remaining(s) >= count ==>
      r == Ok(Parsed(got + s.data[s.pos..s.pos + (count - |got|)], Cursor(s.data, s.pos + (count - |got|))))
    ensures |got| + Remaining(s) < count ==> r == Err(EndOfStream)
    decreases count - |got|
  {
    if |got| == count then
      assert got + s.data[s.pos..s.pos] == got;
      Ok(Parsed(got, s))
    else
      var chunk := Read(s, count - |got|);
      if |chunk.value| == 0 then Err(EndOfStream)
      else Fill(chunk.next, count, got + chunk.value)
  }

  /** `ReadBytes(stream, count)`: allocating the buffer fails for a negative count and for
      one longer than the runtime's array limit, before anything is read; otherwise exactly
      `count` bytes are returned and the cursor moves by `count`, or the read fails with
      end-of-stream when fewer remain. */
  function ReadBytes(s: Stream, count: int32): (r: Result<Parsed<seq<byte>>>)
    ensures count < 0 ==> r == Err(Overflow)
    ensures count > MaxByteArrayLength ==> r == Err(OutOfMemory)
    ensures 0 <= count <= Remaining(s) && count <= MaxByteArrayLength ==>
      r == Ok(Parsed(s.data[s.pos..s.pos + count], Cursor(s.data, s.pos + count)))
    ensures Remaining(s) < count <= MaxByteArrayLength ==> r == Err(EndOfStream)
  {
    if count < 0 then Err(Overflow)
    else if count > MaxByteArrayLength then Err(OutOfMemory)
    else
      assert forall t: seq<byte> :: [] + t == t;
      Fill(s, count, [])
  }

  /** Reading a stream whose unread part is `a + b` sees `a` first and then `b`. */
  lemma SplitUnread(data: seq<byte>, pos: nat, a: seq<byte>, b: seq<byte>)
    requires pos <= |data| && data[pos..] == a + b
    ensures pos + |a| <= |data|
    ensures data[pos..pos + |a|] == a
    ensures data[pos + |a|..] == b
  {
    assert |data[pos..]| == |a| + |b|;
    assert data[pos..pos + |a|] == data[pos..][..|a|];
    assert data[pos + |a|..] == data[pos..][|a|..];
  }

  /** A stream whose unread part starts with `bytes` yields exactly them to `ReadBytes`. */
  lemma ReadBytesPrefix(data: seq<byte>, pos: nat, bytes: seq<byte>, tail: seq<byte>)
    requires pos <= |data| && data[pos..] == bytes + tail
    requires |bytes| <= MaxByteArrayLength
    ensures pos + |bytes| <= |data|
    ensures ReadBytes(Cursor(data, pos), |bytes|) == Ok(Parsed(bytes, Cursor(data, pos + |bytes|)))
  {
    SplitUnread(data, pos, bytes, tail);
  }
}
