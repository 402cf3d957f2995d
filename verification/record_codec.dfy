/** The binary session record: a revision byte (1), a 3-byte big-endian entry count, then
    per entry a 2-byte key length, the key bytes, a 4-byte value length and the value bytes.
    Writers range-check their number; readers OR `ReadByte` results together exactly as
    the C# expressions do, so a length field cut off by the end of the blob reads as -1. */
module RecordCodec {
  import opened Results
  import opened Int32
  import opened ByteStream
  import opened NumberCodec

  const SerializationRevision: byte := 1
  const KeyLengthLimit: int := 0xFFFF
  const EntryCountLimit: int := 0xFF_FFFF

  /** A key in its UTF-8 encoded form; key identity is byte-sequence identity. */
  type Key = seq<byte>

  /** A stored value: a .NET byte array, so no longer than the runtime's array limit. */
  type Value = v: seq<byte> | |v| <= MaxByteArrayLength

  type Store = map<Key, Value>

  /** Every key of the store fits the 2-byte key-length field. */
  ghost predicate KeysFit(store: Store) {
    forall k :: k in store ==> |k| <= KeyLengthLimit
  }

  /** `order` lists every key of `store` exactly once: a dictionary enumeration. */
  ghost predicate IsEnumeration(order: seq<Key>, store: Store) {
    && (forall i, j :: 0 <= i < j < |order| ==> order[i] != order[j])
    && (forall k :: k in order <==> k in store)
  }

  // ---- whole records ---------------------------------------------------------------

  /** The number of bytes the entries of `order` take: per entry its two length fields,
      its key and its value. */
  function EntriesLength(store: Store, order: seq<Key>): nat
    requires forall k :: k in order ==> k in store
  {
    if |order| == 0 then 0
    else
      assert forall k :: k in order[1..] ==> k in order;
      6 + |order[0]| + |store[order[0]]| + EntriesLength(store, order[1..])
  }

  /** The whole record, header and entries, fits the memory stream it is written to. */
  ghost predicate RecordFits(store: Store, order: seq<Key>)
    requires forall k :: k in order ==> k in store
  {
    4 + EntriesLength(store, order) <= MaxByteArrayLength
  }

  /** The first exception writing the entries of `order` raises in a memory stream that
      already holds `written` bytes, None if there is none. Each entry checks its key
      length before writing anything, then writes its four fields in turn, and each
      write can fail to grow the stream. */
  function StreamFailure(store: Store, order: seq<Key>, written: nat): (r: Option<Error>)
    requires forall k :: k in order ==> k in store
    requires written <= MaxByteArrayLength
    ensures r.None? <==>
      (forall k :: k in order ==> |k| <= KeyLengthLimit) && written + EntriesLength(store, order) <= MaxByteArrayLength
    ensures r.Some? ==> r.value == ArgumentOutOfRange || r.value == OutOfMemory || r.value == StreamTooLong
    ensures (forall k :: k in order ==> |k| <= KeyLengthLimit) ==> r.None? || r.value != ArgumentOutOfRange
    ensures written + EntriesLength(store, order) <= MaxByteArrayLength ==> r.None? || r.value == ArgumentOutOfRange
    ensures r == Some(StreamTooLong) ==> written + EntriesLength(store, order) > MaxStreamLength
    decreases |order|
  {
    if |order| == 0 then None
    else
      assert forall k :: k in order <==> k == order[0] || k in order[1..];
      var key := order[0];
      var value := store[key];
      var size := 6 + |key| + |value|;
      assert EntriesLength(store, order) == size + EntriesLength(store, order[1..]);
      if |key| > KeyLengthLimit then Some(ArgumentOutOfRange)
      else if GrowFailure(written, 2).Some? then GrowFailure(written, 2)
      else if GrowFailure(written + 2, |key|).Some? then GrowFailure(written + 2, |key|)
      else if GrowFailure(written + 2 + |key|, 4).Some? then GrowFailure(written + 2 + |key|, 4)
      else if GrowFailure(written + 6 + |key|, |value|).Some? then GrowFailure(written + 6 + |key|, |value|)
      else StreamFailure(store, order[1..], written + size)
  }

  /** The entries of `order`, each as key length, key, value length, value. Writing
      fails exactly when a listed key is too long for its length field. */
  function SerializeEntries(store: Store, order: seq<Key>): (r: Result<seq<byte>>)
    requires forall k :: k in order ==> k in store
    ensures r.Ok? <==> forall k :: k in order ==> |k| <= KeyLengthLimit
    ensures r.Err? ==> r.error == ArgumentOutOfRange
  {
    if |order| == 0 then Ok([])
    else
      assert forall k :: k in order <==> k == order[0] || k in order[1..];
      var key := order[0];
      var value := store[key];
      var keyLength := SerializeNumAs2Bytes(|key|);
      var rest := SerializeEntries(store, order[1..]);
      if keyLength.Err? then Err(keyLength.error)
      else if rest.Err? then rest
      else Ok(keyLength.value + key + SerializeNumAs4Bytes(|value|).value + value + rest.value)
  }

  /** Writes the whole record, enumerating the store in `order`, into a memory stream.
      An entry count too large for its field fails first; then the entries' writes fail
      in order, on an over-long key or on a record that outgrows the memory stream. */
  function Serialize(store: Store, order: seq<Key>): (r: Result<seq<byte>>)
    requires IsEnumeration(order, store)
    ensures r.Ok? <==> |store| <= EntryCountLimit && KeysFit(store) && RecordFits(store, order)
    ensures r.Err? ==> r.error == ArgumentOutOfRange || r.error == OutOfMemory || r.error == StreamTooLong
    ensures |store| > EntryCountLimit ==> r == Err(ArgumentOutOfRange)
    ensures |store| <= EntryCountLimit && KeysFit(store) && !RecordFits(store, order) ==>
      r == Err(OutOfMemory) || r == Err(StreamTooLong)
    ensures r == Err(StreamTooLong) ==> 4 + EntriesLength(store, order) > MaxStreamLength
    ensures |store| <= EntryCountLimit && !KeysFit(store) && RecordFits(store, order) ==> r == Err(ArgumentOutOfRange)
    ensures r.Ok? ==> |r.value| == 4 + EntriesLength(store, order) && r.value[0] == SerializationRevision
  {
    var count :- SerializeNumAs3Bytes(|store|);
    match StreamFailure(store, order, 1 + |count|)
    case Some(e) => Err(e)
    case None =>
      SerializedEntriesLength(store, order);
      Ok([SerializationRevision] + count + SerializeEntries(store, order).value)
  }

  /** The written entries take exactly the bytes `EntriesLength` counts. */
  lemma {:induction false} SerializedEntriesLength(store: Store, order: seq<Key>)
    requires forall k :: k in order ==> k in store
    ensures SerializeEntries(store, order).Ok? ==> |SerializeEntries(store, order).value| == EntriesLength(store, order)
    decreases |order|
  {
    if |order| > 0 {
      assert forall k :: k in order[1..] ==> k in order;
      SerializedEntriesLength(store, order[1..]);
    }
  }

  /** What reading a record left behind: an unreadable revision (the caller must mark the
      session modified), the store with every entry read, or the store with the entries
      read before an exception, and that exception. */
  datatype Deserialized =
    | Unreadable
    | Decoded(store: Store)
    | Threw(store: Store, error: Error)

  /** The `for (i = 0; i < expectedEntries; i++)` loop: each entry is added to `store`,
      overwriting an equal key. */
  function DeserializeEntries(s: Stream, expected: int, i: int, store: Store): (r: Deserialized)
    ensures !r.Unreadable?
    ensures store.Keys <= r.store.Keys
    ensures KeysFit(store) ==> KeysFit(r.store)
    ensures expected <= i ==> r == Decoded(store)
    ensures r.Threw? ==> r.error == Overflow || r.error == EndOfStream || r.error == OutOfMemory
    decreases expected - i
  {
    if expected <= i then Decoded(store)
    else
      var keyLength := DeserializeNumFrom2Bytes(s);
      match ReadBytes(keyLength.next, keyLength.value)
      case Err(e) => Threw(store, e)
      case Ok(key) =>
        assert |key.value| <= KeyLengthLimit;
        var dataLength := DeserializeNumFrom4Bytes(key.next);
        match ReadBytes(dataLength.next, dataLength.value)
        case Err(e) => Threw(store, e)
        case Ok(value) => DeserializeEntries(value.next, expected, i + 1, store[key.value := value.value])
  }

  /** Reads a record into `store`. A blob that is empty or does not start with revision 1
      is unreadable; an entry count cut off by the end of the blob reads as -1, so no
      entry is read and the load succeeds. */
  function Deserialize(data: seq<byte>, store: Store): (r: Deserialized)
    ensures r.Unreadable? <==> |data| == 0 || data[0] != SerializationRevision
    ensures !r.Unreadable? ==> store.Keys <= r.store.Keys
    ensures !r.Unreadable? && KeysFit(store) ==> KeysFit(r.store)
    ensures 1 <= |data| < 4 && data[0] == SerializationRevision ==> r == Decoded(store)
    ensures r.Threw? ==> r.error == Overflow || r.error == EndOfStream || r.error == OutOfMemory
  {
    var revision := ReadByte(Cursor(data, 0));
    if revision.value != SerializationRevision as int then Unreadable
    else
      var expectedEntries := DeserializeNumFrom3Bytes(revision.next);
      DeserializeEntries(expectedEntries.next, expectedEntries.value, 0, store)
  }

  /** A value-length field announcing more bytes than an array can hold makes the read
      fail with out-of-memory before a single value byte is read, however many follow. */
  lemma OversizeValueThrows(tail: seq<byte>, init: Store)
    ensures Deserialize([1, 0, 0, 1, 0, 0, 0x7F, 0xFF, 0xFF, 0xFF] + tail, init) == Threw(init, OutOfMemory)
  {
    var data: seq<byte> := [1, 0, 0, 1, 0, 0, 0x7F, 0xFF, 0xFF, 0xFF] + tail;
    var count := DeserializeNumFrom3Bytes(Cursor(data, 1));
    assert count == Parsed(1, Cursor(data, 4)) by { assert data[1..4] == [0, 0, 1]; BigEndian3(data[1..4]); }
    var keyLength := DeserializeNumFrom2Bytes(Cursor(data, 4));
    assert keyLength == Parsed(0, Cursor(data, 6)) by { assert data[4..6] == [0, 0]; BigEndian2(data[4..6]); }
    var dataLength := DeserializeNumFrom4Bytes(Cursor(data, 6));
    assert dataLength == Parsed(0x7FFF_FFFF, Cursor(data, 10)) by {
      assert data[6..10] == [0x7F, 0xFF, 0xFF, 0xFF];
      BigEndian4(data[6..10]);
    }
  }

  // ---- round trip ------------------------------------------------------------------

  /** The part of `store` named by `order`. */
  function Restrict(store: Store, order: seq<Key>): (m: Store)
    requires forall k :: k in order ==> k in store
    ensures m.Keys == set k | k in order
    ensures forall k :: k in m ==> m[k] == store[k]
  {
    map k | k in order :: store[k]
  }

  /** One pass of the entry loop, given what its four reads return. */
  lemma EntryStep(s: Stream, expected: int, i: int, acc: Store,
                  keyLength: Parsed<int32>, key: Parsed<seq<byte>>, dataLength: Parsed<int32>, value: Parsed<seq<byte>>)
    requires i < expected
    requires DeserializeNumFrom2Bytes(s) == keyLength
    requires ReadBytes(keyLength.next, keyLength.value) == Ok(key)
    requires DeserializeNumFrom4Bytes(key.next) == dataLength
    requires ReadBytes(dataLength.next, dataLength.value) == Ok(value)
    requires |value.value| <= MaxByteArrayLength
    ensures DeserializeEntries(s, expected, i, acc) == DeserializeEntries(value.next, expected, i + 1, acc[key.value := value.value])
  {
  }

  /** A key-length field and the key it announces read back as written. */
  lemma ReadKey(data: seq<byte>, pos: nat, field: seq<byte>, key: Key, tail: seq<byte>)
    returns (afterField: Stream, afterKey: Stream)
    requires |field| == 2 && field[0] as int * 0x100 + field[1] as int == |key|
    requires pos <= |data| && data[pos..] == field + (key + tail)
    ensures afterKey.data == data && afterKey.pos == pos + 2 + |key| && data[afterKey.pos..] == tail
    ensures DeserializeNumFrom2Bytes(Cursor(data, pos)) == Parsed(|key|, afterField)
    ensures ReadBytes(afterField, |key|) == Ok(Parsed(key, afterKey))
  {
    SplitUnread(data, pos, field, key + tail);
    SplitUnread(data, pos + 2, key, tail);
    ReadBytesPrefix(data, pos + 2, key, tail);
    afterField := Cursor(data, pos + 2);
    afterKey := Cursor(data, pos + 2 + |key|);
  }

  /** A value-length field and the value it announces read back as written. */
  lemma ReadValue(data: seq<byte>, pos: nat, field: seq<byte>, value: Value, tail: seq<byte>)
    returns (afterField: Stream, afterValue: Stream)
    requires |field| == 4
    requires field[0] as int * 0x100_0000 + field[1] as int * 0x1_0000 + field[2] as int * 0x100 + field[3] as int == |value|
    requires pos <= |data| && data[pos..] == field + (value + tail)
    ensures afterValue.data == data && afterValue.pos == pos + 4 + |value| && data[afterValue.pos..] == tail
    ensures DeserializeNumFrom4Bytes(Cursor(data, pos)) == Parsed(|value|, afterField)
    ensures ReadBytes(afterField, |value|) == Ok(Parsed(value, afterValue))
  {
    SplitUnread(data, pos, field, value + tail);
    SplitUnread(data, pos + 4, value, tail);
    ReadBytesPrefix(data, pos + 4, value, tail);
    afterField := Cursor(data, pos + 4);
    afterValue := Cursor(data, pos + 4 + |value|);
  }

  /** Reading one serialized entry: the loop body consumes exactly that entry. */
  lemma ReadEntry(data: seq<byte>, pos: nat, keyField: seq<byte>, key: Key, valueField: seq<byte>, value: Value,
                  rest: seq<byte>, expected: int, i: int, acc: Store)
    returns (next: nat)
    requires |keyField| == 2 && keyField[0] as int * 0x100 + keyField[1] as int == |key|
    requires |valueField| == 4
    requires valueField[0] as int * 0x100_0000 + valueField[1] as int * 0x1_0000
             + valueField[2] as int * 0x100 + valueField[3] as int == |value|
    requires i < expected
    requires pos <= |data| && data[pos..] == keyField + (key + (valueField + (value + rest)))
    ensures next == pos + 6 + |key| + |value|
    ensures next <= |data| && data[next..] == rest
    ensures DeserializeEntries(Cursor(data, pos), expected, i, acc)
         == DeserializeEntries(Cursor(data, next), expected, i + 1, acc[key := value])
  {
    var s1, s2 := ReadKey(data, pos, keyField, key, valueField + (value + rest));
    var s3, s4 := ReadValue(data, s2.pos, valueField, value, rest);
    EntryStep(Cursor(data, pos), expected, i, acc, Parsed(|key|, s1), Parsed(key, s2), Parsed(|value|, s3), Parsed(value, s4));
    next := s4.pos;
  }

  /** Adding the head entry and then the rest equals adding the whole restriction. */
  lemma RestrictCons(store: Store, order: seq<Key>, acc: Store)
    requires |order| > 0 && forall k :: k in order ==> k in store
    requires forall a, b :: 0 <= a < b < |order| ==> order[a] != order[b]
    ensures acc[order[0] := store[order[0]]] + Restrict(store, order[1..]) == acc + Restrict(store, order)
  {
    var key := order[0];
    var later := Restrict(store, order[1..]);
    assert key !in later by {
      forall j | 0 <= j < |order[1..]| ensures order[1..][j] != key {
        assert order[1..][j] == order[j + 1];
      }
    }
    assert forall k :: k in order <==> k == key || k in order[1..];
  }

  /** A list without repetitions names as many keys as it is long. */
  lemma {:induction false} DistinctCount(order: seq<Key>)
    requires forall a, b :: 0 <= a < b < |order| ==> order[a] != order[b]
    ensures |set k | k in order| == |order|
  {
    if |order| > 0 {
      var tail := order[1..];
      assert forall a, b :: 0 <= a < b < |tail| ==> tail[a] != tail[b] by {
        assert forall a :: 0 <= a < |tail| ==> tail[a] == order[a + 1];
      }
      DistinctCount(tail);
      assert order[0] !in tail by {
        assert forall a :: 0 <= a < |tail| ==> tail[a] == order[a + 1];
      }
      assert (set k | k in order) == (set k | k in tail) + {order[0]};
    }
  }

  /** The first serialized entry is consumed by one pass of the entry loop. */
  lemma ReadFirstEntry(store: Store, order: seq<Key>, data: seq<byte>, pos: nat, expected: int, i: int, acc: Store)
    returns (next: nat)
    requires |order| > 0 && forall k :: k in order ==> k in store
    requires SerializeEntries(store, order).Ok?
    requires pos <= |data| && data[pos..] == SerializeEntries(store, order).value
    requires i < expected
    ensures next == pos + 6 + |order[0]| + |store[order[0]]|
    ensures SerializeEntries(store, order[1..]).Ok?
    ensures next <= |data| && data[next..] == SerializeEntries(store, order[1..]).value
    ensures DeserializeEntries(Cursor(data, pos), expected, i, acc)
         == DeserializeEntries(Cursor(data, next), expected, i + 1, acc[order[0] := store[order[0]]])
  {
    var key := order[0];
    var value := store[key];
    assert |key| <= KeyLengthLimit;
    var keyField := SerializeNumAs2Bytes(|key|).value;
    var valueField := SerializeNumAs4Bytes(|value|).value;
    var rest := SerializeEntries(store, order[1..]).value;
    assert data[pos..] == keyField + (key + (valueField + (value + rest))) by {
      assert SerializeEntries(store, order).value == keyField + key + valueField + value + rest;
    }
    next := ReadEntry(data, pos, keyField, key, valueField, value, rest, expected, i, acc);
  }

  /** Reading back serialized entries adds exactly those entries to the accumulator. */
  lemma {:induction false} DeserializeEntriesRoundTrip(
    store: Store, order: seq<Key>, data: seq<byte>, pos: nat, expected: int, i: int, acc: Store)
    requires forall k :: k in order ==> k in store
    requires forall a, b :: 0 <= a < b < |order| ==> order[a] != order[b]
    requires SerializeEntries(store, order).Ok?
    requires pos <= |data| && data[pos..] == SerializeEntries(store, order).value
    requires expected - i == |order|
    ensures DeserializeEntries(Cursor(data, pos), expected, i, acc) == Decoded(acc + Restrict(store, order))
    decreases |order|
  {
    if |order| == 0 {
      assert Restrict(store, order) == map[];
      assert acc + map[] == acc;
      assert DeserializeEntries(Cursor(data, pos), expected, i, acc) == Decoded(acc + Restrict(store, order));
    } else {
      var next := ReadFirstEntry(store, order, data, pos, expected, i, acc);
      assert forall a :: 0 <= a < |order[1..]| ==> order[1..][a] == order[a + 1];
      DeserializeEntriesRoundTrip(store, order[1..], data, next, expected, i + 1, acc[order[0] := store[order[0]]]);
      RestrictCons(store, order, acc);
    }
  }

  /** A dictionary enumeration is as long as the dictionary. */
  lemma EnumerationLength(order: seq<Key>, store: Store)
    requires IsEnumeration(order, store)
    ensures |order| == |store|
  {
    DistinctCount(order);
    assert store.Keys == set k | k in order;
  }

  /** The revision byte and the entry count lead into the entry loop. */
  lemma ReadHeader(data: seq<byte>, count: seq<byte>, n: int, entries: seq<byte>, init: Store)
    requires |count| == 3 && count[0] as int * 0x1_0000 + count[1] as int * 0x100 + count[2] as int == n
    requires data == [SerializationRevision] + count + entries
    ensures data[4..] == entries
    ensures Deserialize(data, init) == DeserializeEntries(Cursor(data, 4), n, 0, init)
  {
    var revision := ReadByte(Cursor(data, 0));
    assert revision == Parsed(SerializationRevision as int, Cursor(data, 1));
    var expectedEntries := DeserializeNumFrom3Bytes(revision.next);
    assert expectedEntries == Parsed(n, Cursor(data, 4)) && data[4..] == entries by {
      assert data[1..] == count + entries;
      SplitUnread(data, 1, count, entries);
    }
  }

  /** Restricting a store to an enumeration of it changes nothing. */
  lemma RestrictEnumeration(store: Store, order: seq<Key>)
    requires IsEnumeration(order, store)
    ensures Restrict(store, order) == store
  {
  }

  /** The layout of a serializable store's record: revision, count field, entries. */
  lemma SerializedLayout(store: Store, order: seq<Key>) returns (count: seq<byte>, entries: seq<byte>)
    requires IsEnumeration(order, store)
    requires |store| <= EntryCountLimit && KeysFit(store) && RecordFits(store, order)
    ensures |count| == 3 && count[0] as int * 0x1_0000 + count[1] as int * 0x100 + count[2] as int == |store|
    ensures SerializeEntries(store, order) == Ok(entries)
    ensures Serialize(store, order) == Ok([SerializationRevision] + count + entries)
  {
    count := SerializeNumAs3Bytes(|store|).value;
    entries := SerializeEntries(store, order).value;
  }

  /** Reading a serialized store back into `init` yields `init` overwritten by the store;
      in particular a fresh session reads back exactly the store that was written. */
  lemma RoundTrip(store: Store, order: seq<Key>, init: Store)
    requires IsEnumeration(order, store)
    requires |store| <= EntryCountLimit && KeysFit(store) && RecordFits(store, order)
    ensures Serialize(store, order).Ok?
    ensures Deserialize(Serialize(store, order).value, init) == Decoded(init + store)
  {
    var count, entries := SerializedLayout(store, order);
    var data := [SerializationRevision] + count + entries;
    EnumerationLength(order, store);
    ReadHeader(data, count, |store|, entries, init);
    DeserializeEntriesRoundTrip(store, order, data, 4, |store|, 0, init);
    RestrictEnumeration(store, order);
  }

  // ---- records cut off -------------------------------------------------------------

  /** The first `m` bytes of `a + b`, for `m` at least `|a|`. */
  lemma PrefixOfConcat(a: seq<byte>, b: seq<byte>, m: nat)
    requires |a| <= m <= |a| + |b|
    ensures (a + b)[..m] == a + b[..m - |a|]
  {
  }

  /** A 2-byte field at the cursor reads as its number. */
  lemma ReadField2(data: seq<byte>, pos: nat, field: seq<byte>, tail: seq<byte>)
    requires |field| == 2 && pos <= |data| && data[pos..] == field + tail
    ensures pos + 2 <= |data| && data[pos + 2..] == tail
    ensures DeserializeNumFrom2Bytes(Cursor(data, pos))
         == Parsed(field[0] as int * 0x100 + field[1] as int, Cursor(data, pos + 2))
  {
    SplitUnread(data, pos, field, tail);
  }

  /** A 4-byte field at the cursor, its top bit clear, reads as its number. */
  lemma ReadField4(data: seq<byte>, pos: nat, field: seq<byte>, tail: seq<byte>, n: nat)
    requires |field| == 4 && pos <= |data| && data[pos..] == field + tail
    requires field[0] as int * 0x100_0000 + field[1] as int * 0x1_0000 + field[2] as int * 0x100 + field[3] as int == n
    requires n < 0x8000_0000
    ensures pos + 4 <= |data| && data[pos + 4..] == tail
    ensures DeserializeNumFrom4Bytes(Cursor(data, pos)) == Parsed(n, Cursor(data, pos + 4))
  {
    SplitUnread(data, pos, field, tail);
  }

  /** One pass of the entry loop whose key or value read throws: the entry loop throws
      that exception with the store as it was. */
  lemma EntryThrows(s: Stream, expected: int, i: int, acc: Store)
    requires i < expected
    ensures var keyLength := DeserializeNumFrom2Bytes(s);
      var key := ReadBytes(keyLength.next, keyLength.value);
      key.Err? ==> DeserializeEntries(s, expected, i, acc) == Threw(acc, key.error)
    ensures var keyLength := DeserializeNumFrom2Bytes(s);
      var key := ReadBytes(keyLength.next, keyLength.value);
      key.Ok? ==>
        var dataLength := DeserializeNumFrom4Bytes(key.value.next);
        var value := ReadBytes(dataLength.next, dataLength.value);
        value.Err? ==> DeserializeEntries(s, expected, i, acc) == Threw(acc, value.error)
  {
  }

  /** The first `m` bytes of `a + b`, for `m` at most `|a|`. */
  lemma PrefixWithin(a: seq<byte>, b: seq<byte>, m: nat)
    requires m <= |a|
    ensures (a + b)[..m] == a[..m]
  {
  }

  /** An entry cut off within its key-length field or its key throws before it is
      stored: a cut-off length field reads -1 and the buffer cannot be allocated
      (overflow), and cut-off key bytes end the read loop (end-of-stream). */
  lemma CutInKey(data: seq<byte>, pos: nat, keyField: seq<byte>, key: Key, expected: int, i: int, acc: Store)
    requires |keyField| == 2 && keyField[0] as int * 0x100 + keyField[1] as int == |key|
    requires i < expected
    requires pos <= |data| && |data| - pos < 2 + |key|
    requires data[pos..] == (keyField + key)[..|data| - pos]
    ensures var r := DeserializeEntries(Cursor(data, pos), expected, i, acc);
      r.Threw? && r.store == acc && (r.error == Overflow || r.error == EndOfStream)
  {
    EntryThrows(Cursor(data, pos), expected, i, acc);
    var m := |data| - pos;
    if m < 2 {
      assert DeserializeNumFrom2Bytes(Cursor(data, pos)).value == -1;
    } else {
      PrefixOfConcat(keyField, key, m);
      ReadField2(data, pos, keyField, key[..m - 2]);
      assert Remaining(Cursor(data, pos + 2)) < |key|;
    }
  }

  /** An entry whose key is whole but which is cut off within its value-length field
      or its value throws before it is stored. */
  lemma CutInValue(data: seq<byte>, pos: nat, keyField: seq<byte>, key: Key, valueField: seq<byte>, value: Value,
                   valuePart: seq<byte>, expected: int, i: int, acc: Store)
    requires |keyField| == 2 && keyField[0] as int * 0x100 + keyField[1] as int == |key|
    requires |valueField| == 4
    requires valueField[0] as int * 0x100_0000 + valueField[1] as int * 0x1_0000
             + valueField[2] as int * 0x100 + valueField[3] as int == |value|
    requires i < expected
    requires |valuePart| < 4 + |value| && valuePart == (valueField + value)[..|valuePart|]
    requires pos <= |data| && data[pos..] == keyField + (key + valuePart)
    ensures var r := DeserializeEntries(Cursor(data, pos), expected, i, acc);
      r.Threw? && r.store == acc && (r.error == Overflow || r.error == EndOfStream)
  {
    EntryThrows(Cursor(data, pos), expected, i, acc);
    var s1, s2 := ReadKey(data, pos, keyField, key, valuePart);
    if |valuePart| < 4 {
      assert DeserializeNumFrom4Bytes(s2).value == -1;
    } else {
      PrefixOfConcat(valueField, value, |valuePart|);
      ReadField4(data, s2.pos, valueField, value[..|valuePart| - 4], |value|);
      assert Remaining(Cursor(data, s2.pos + 4)) < |value|;
    }
  }

  /** An entry cut off by the end of the blob throws before it is stored. */
  lemma CutEntry(data: seq<byte>, pos: nat, keyField: seq<byte>, key: Key, valueField: seq<byte>, value: Value,
                 expected: int, i: int, acc: Store)
    requires |keyField| == 2 && keyField[0] as int * 0x100 + keyField[1] as int == |key|
    requires |valueField| == 4
    requires valueField[0] as int * 0x100_0000 + valueField[1] as int * 0x1_0000
             + valueField[2] as int * 0x100 + valueField[3] as int == |value|
    requires i < expected
    requires pos <= |data|
    requires var entry := (keyField + key) + (valueField + value);
      |data| - pos < |entry| && data[pos..] == entry[..|data| - pos]
    ensures var r := DeserializeEntries(Cursor(data, pos), expected, i, acc);
      r.Threw? && r.store == acc && (r.error == Overflow || r.error == EndOfStream)
  {
    var m := |data| - pos;
    if m < 2 + |key| {
      PrefixWithin(keyField + key, valueField + value, m);
      CutInKey(data, pos, keyField, key, expected, i, acc);
    } else {
      var valuePart := (valueField + value)[..m - 2 - |key|];
      PrefixOfConcat(keyField + key, valueField + value, m);
      assert (keyField + key) + valuePart == keyField + (key + valuePart);
      CutInValue(data, pos, keyField, key, valueField, value, valuePart, expected, i, acc);
    }
  }

  /** The serialized entries of `order` start with its first entry, whole. */
  lemma FirstEntryLayout(store: Store, order: seq<Key>) returns (keyField: seq<byte>, valueField: seq<byte>, rest: seq<byte>)
    requires |order| > 0 && forall k :: k in order ==> k in store
    requires SerializeEntries(store, order).Ok?
    ensures |keyField| == 2 && keyField[0] as int * 0x100 + keyField[1] as int == |order[0]|
    ensures |valueField| == 4
    ensures valueField[0] as int * 0x100_0000 + valueField[1] as int * 0x1_0000
            + valueField[2] as int * 0x100 + valueField[3] as int == |store[order[0]]|
    ensures SerializeEntries(store, order[1..]) == Ok(rest)
    ensures SerializeEntries(store, order).value == ((keyField + order[0]) + (valueField + store[order[0]])) + rest
  {
    keyField := SerializeNumAs2Bytes(|order[0]|).value;
    valueField := SerializeNumAs4Bytes(|store[order[0]]|).value;
    rest := SerializeEntries(store, order[1..]).value;
  }

  /** The tail of a list of distinct keys of the store is one too. */
  lemma DistinctTail(store: Store, order: seq<Key>)
    requires |order| > 0 && forall k :: k in order ==> k in store
    requires forall a, b :: 0 <= a < b < |order| ==> order[a] != order[b]
    ensures forall k :: k in order[1..] ==> k in store
    ensures forall a, b :: 0 <= a < b < |order[1..]| ==> order[1..][a] != order[1..][b]
  {
    assert forall a :: 0 <= a < |order[1..]| ==> order[1..][a] == order[a + 1];
  }

  /** Storing the first entry and then a prefix of the rest stores a prefix of `order`. */
  lemma RestrictPrefixCons(store: Store, order: seq<Key>, j: nat, acc: Store)
    requires j < |order| && forall k :: k in order ==> k in store
    requires forall a, b :: 0 <= a < b < |order| ==> order[a] != order[b]
    ensures acc[order[0] := store[order[0]]] + Restrict(store, order[1..][..j]) == acc + Restrict(store, order[..j + 1])
  {
    var prefix := order[..j + 1];
    assert prefix[1..] == order[1..][..j];
    RestrictCons(store, prefix, acc);
  }

  /** The serialized entries of `order` cut off within the first entry: the entry loop
      throws with nothing added. */
  lemma CutFirstEntry(
    store: Store, order: seq<Key>, data: seq<byte>, pos: nat, expected: int, i: int, acc: Store)
    requires |order| > 0 && forall k :: k in order ==> k in store
    requires SerializeEntries(store, order).Ok?
    requires i < expected
    requires pos <= |data| && |data| - pos < 6 + |order[0]| + |store[order[0]]|
    requires data[pos..] == SerializeEntries(store, order).value[..|data| - pos]
    ensures var r := DeserializeEntries(Cursor(data, pos), expected, i, acc);
      r.Threw? && r.store == acc && (r.error == Overflow || r.error == EndOfStream)
  {
    var keyField, valueField, rest := FirstEntryLayout(store, order);
    var entry := (keyField + order[0]) + (valueField + store[order[0]]);
    PrefixWithin(entry, rest, |data| - pos);
    CutEntry(data, pos, keyField, order[0], valueField, store[order[0]], expected, i, acc);
  }

  /** The serialized entries of `order` with the first entry whole: the entry loop stores
      it and goes on with the rest, cut off as before. */
  lemma SkipFirstEntry(
    store: Store, order: seq<Key>, data: seq<byte>, pos: nat, expected: int, i: int, acc: Store)
    returns (next: nat)
    requires |order| > 0 && forall k :: k in order ==> k in store
    requires SerializeEntries(store, order).Ok?
    requires i < expected
    requires pos <= |data| && 6 + |order[0]| + |store[order[0]]| <= |data| - pos < |SerializeEntries(store, order).value|
    requires data[pos..] == SerializeEntries(store, order).value[..|data| - pos]
    ensures SerializeEntries(store, order[1..]).Ok?
    ensures next <= |data| && |data| - next < |SerializeEntries(store, order[1..]).value|
    ensures data[next..] == SerializeEntries(store, order[1..]).value[..|data| - next]
    ensures DeserializeEntries(Cursor(data, pos), expected, i, acc)
         == DeserializeEntries(Cursor(data, next), expected, i + 1, acc[order[0] := store[order[0]]])
  {
    var key := order[0];
    var value := store[key];
    var keyField, valueField, rest := FirstEntryLayout(store, order);
    var entry := (keyField + key) + (valueField + value);
    var m := |data| - pos;
    var cut := rest[..m - |entry|];
    PrefixOfConcat(entry, rest, m);
    Regroup(keyField, key, valueField, value, cut);
    next := ReadEntry(data, pos, keyField, key, valueField, value, cut, expected, i, acc);
  }

  /** One entry followed by more bytes, grouped from the right. */
  lemma Regroup(keyField: seq<byte>, key: seq<byte>, valueField: seq<byte>, value: seq<byte>, tail: seq<byte>)
    ensures ((keyField + key) + (valueField + value)) + tail == keyField + (key + (valueField + (value + tail)))
  {
  }

  /** Reading serialized entries cut off before their end throws, after storing the
      entries that precede the cut: some proper prefix `order[..j]` of them. */
  lemma {:induction false} CutEntries(
    store: Store, order: seq<Key>, data: seq<byte>, pos: nat, expected: int, i: int, acc: Store)
    returns (j: nat)
    requires forall k :: k in order ==> k in store
    requires forall a, b :: 0 <= a < b < |order| ==> order[a] != order[b]
    requires SerializeEntries(store, order).Ok?
    requires expected - i == |order|
    requires pos <= |data| && |data| - pos < |SerializeEntries(store, order).value|
    requires data[pos..] == SerializeEntries(store, order).value[..|data| - pos]
    ensures j < |order|
    ensures var r := DeserializeEntries(Cursor(data, pos), expected, i, acc);
      && r.Threw?
      && r.store == acc + Restrict(store, order[..j])
      && (r.error == Overflow || r.error == EndOfStream)
    decreases |order|
  {
    assert |order| > 0;
    if |data| - pos < 6 + |order[0]| + |store[order[0]]| {
      CutFirstEntry(store, order, data, pos, expected, i, acc);
      j := 0;
      assert Restrict(store, order[..0]) == map[];
      assert acc + map[] == acc;
    } else {
      var next := SkipFirstEntry(store, order, data, pos, expected, i, acc);
      DistinctTail(store, order);
      var j' := CutEntries(store, order[1..], data, next, expected, i + 1, acc[order[0] := store[order[0]]]);
      j := j' + 1;
      RestrictPrefixCons(store, order, j', acc);
    }
  }

  /** A record of a non-empty store cut off anywhere after its entry count fails to
      load: reading it throws overflow or end-of-stream, and leaves in the store the
      entries that precede the cut, never all of them. */
  lemma TruncatedRecordThrows(store: Store, order: seq<Key>, init: Store, p: nat) returns (j: nat)
    requires IsEnumeration(order, store)
    requires 1 <= |store| <= EntryCountLimit && KeysFit(store) && RecordFits(store, order)
    requires 4 <= p < |Serialize(store, order).value|
    ensures j < |order| == |store|
    ensures var r := Deserialize(Serialize(store, order).value[..p], init);
      && r.Threw?
      && r.store == init + Restrict(store, order[..j])
      && (r.error == Overflow || r.error == EndOfStream)
  {
    var count, entries := SerializedLayout(store, order);
    var data := Serialize(store, order).value[..p];
    assert data == [SerializationRevision] + count + entries[..p - 4];
    ReadHeader(data, count, |store|, entries[..p - 4], init);
    EnumerationLength(order, store);
    j := CutEntries(store, order, data, 4, |store|, 0, init);
  }
}
