/** The dictionary key of a session store: a key held in its UTF-8 encoded
    form, with its decoded string and its hash code computed on demand and
    cached.

    The UTF-8 codec and the SipHash function are not modelled; every
    operation that needs one takes it as a parameter, which makes each a
    deterministic function of its input. */
module EncodedKeys {
  import opened Results
  import opened Int32
  import opened ByteStream

  datatype EncodedKey = EncodedKey(keyString: Option<string>, keyBytes: seq<byte>, hashCode: Option<int32>)

  /** A key built from a string: it remembers the string it was built from. */
  function FromString(key: string, utf8: string -> seq<byte>): (k: EncodedKey)
    ensures k.keyBytes == utf8(key) && k.keyString == Some(key)
    ensures k.hashCode.None?
  {
    EncodedKey(Some(key), utf8(key), None)
  }

  /** A key read back from a serialized store: its string is decoded only when asked for. */
  function FromBytes(key: seq<byte>): (k: EncodedKey)
    ensures k.keyBytes == key && k.keyString.None? && k.hashCode.None?
  {
    EncodedKey(None, key, None)
  }

  /** The caches of `k` agree with the codec and the hash function. */
  predicate CachesConsistent(k: EncodedKey, decode: seq<byte> -> string, hash: seq<byte> -> int32) {
    && (k.hashCode.Some? ==> k.hashCode.value == hash(k.keyBytes))
    && (k.keyString.Some? ==> k.keyString.value == decode(k.keyBytes))
  }

  datatype Computed<+T> = Computed(value: T, key: EncodedKey)

  /** The key's string, decoded once and cached afterwards. */
  function KeyString(k: EncodedKey, decode: seq<byte> -> string): (r: Computed<string>)
    ensures r.key.keyBytes == k.keyBytes && r.key.hashCode == k.hashCode
    ensures r.key.keyString == Some(r.value)
    ensures k.keyString.Some? ==> r.value == k.keyString.value
    ensures k.keyString.None? ==> r.value == decode(k.keyBytes)
  {
    if k.keyString.Some? then Computed(k.keyString.value, k)
    else var s := decode(k.keyBytes); Computed(s, k.(keyString := Some(s)))
  }

  /** The key's hash code, computed once and cached afterwards. */
  function GetHashCode(k: EncodedKey, hash: seq<byte> -> int32): (r: Computed<int32>)
    ensures r.key.keyBytes == k.keyBytes && r.key.keyString == k.keyString
    ensures r.key.hashCode == Some(r.value)
    ensures k.hashCode.Some? ==> r.value == k.hashCode.value
    ensures k.hashCode.None? ==> r.value == hash(k.keyBytes)
  {
    if k.hashCode.Some? then Computed(k.hashCode.value, k)
    else var h := hash(k.keyBytes); Computed(h, k.(hashCode := Some(h)))
  }

  /** Asking for the string or the hash code keeps consistent caches
      consistent, and a key with consistent caches always reports the same
      string and hash code however many times it is asked. */
  lemma CachingPreservesConsistency(k: EncodedKey, decode: seq<byte> -> string, hash: seq<byte> -> int32)
    requires CachesConsistent(k, decode, hash)
    ensures CachesConsistent(KeyString(k, decode).key, decode, hash)
    ensures CachesConsistent(GetHashCode(k, hash).key, decode, hash)
    ensures KeyString(k, decode).value == decode(k.keyBytes)
    ensures GetHashCode(k, hash).value == hash(k.keyBytes)
    ensures KeyString(KeyString(k, decode).key, decode).value == KeyString(k, decode).value
    ensures GetHashCode(GetHashCode(k, hash).key, hash).value == GetHashCode(k, hash).value
  {
  }

  /** Both keys carry a cached hash code and the two differ. */
  predicate CachedHashesDiffer(a: EncodedKey, b: EncodedKey) {
    a.hashCode.Some? && b.hashCode.Some? && a.hashCode.value != b.hashCode.value
  }

  /** Key equality: `other` is None when the compared object is null or not
      a key. After the length test, two cached hash codes that differ decide
      the answer; otherwise the bytes are compared one by one. The ghost
      `hash` names the hash function the caches were filled from. */
  method Equals(k: EncodedKey, other: Option<EncodedKey>, ghost decode: seq<byte> -> string, ghost hash: seq<byte> -> int32)
    returns (r: bool)
    ensures r <==> other.Some? && !CachedHashesDiffer(k, other.value) && k.keyBytes == other.value.keyBytes
    ensures other.Some? && CachesConsistent(k, decode, hash) && CachesConsistent(other.value, decode, hash) ==>
      (r <==> k.keyBytes == other.value.keyBytes)
  {
    if other.None? {
      return false;
    }
    var a, b := k.keyBytes, other.value.keyBytes;
    if |a| != |b| {
      return false;
    }
    if CachedHashesDiffer(k, other.value) {
      return false;
    }
    var i := 0;
    while i < |a|
      invariant 0 <= i <= |a|
      invariant a[..i] == b[..i]
    {
      if a[i] != b[i] {
        return false;
      }
      i := i + 1;
    }
    assert a == a[..i] && b == b[..i];
    return true;
  }
}
