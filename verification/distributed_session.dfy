/** A session whose entries live in a distributed cache: loaded lazily, at
    most once, on first use; changed in memory; written back as one
    serialized record on commit.

    The cache is a map from session id to blob; a missing entry stands for a
    null read. Keys are held in their UTF-8 encoded form (the encoding itself
    is done by the caller), which makes byte equality the store's key
    equality, as `EncodedKeys.Equals` justifies. */
module DistributedSessions {
  import opened Results
  import opened ByteStream
  import opened RecordCodec
  import opened Establishment

  type Cache = map<string, seq<byte>>

  datatype Session = Session(
    sessionId: string,
    store: Store,
    loaded: bool,
    isModified: bool,
    isNewSessionKey: bool,
    capability: Capability)

  /** The outcome of one operation: the session afterwards, the operation's
      value or exception, and whether it read the cache. */
  datatype Outcome<+T> = Outcome(session: Session, result: Result<T>, fetched: bool)

  /** A session as the middleware creates it: empty, not loaded, unmodified. */
  function NewSession(sessionId: string, capability: Capability, isNewSessionKey: bool): (s: Session)
    ensures s.sessionId == sessionId && s.capability == capability && s.isNewSessionKey == isNewSessionKey
    ensures s.store == map[] && !s.loaded && !s.isModified
    ensures Valid(s)
  {
    Session(sessionId, map[], false, false, isNewSessionKey, capability)
  }

  /** What every reachable session satisfies: it is only ever marked modified
      after a load succeeded, and every key fits the key-length field. */
  ghost predicate Valid(s: Session) {
    (s.isModified ==> s.loaded) && KeysFit(s.store)
  }

  /** The parts of a session that no operation changes. */
  predicate SameIdentity(a: Session, b: Session) {
    a.sessionId == b.sessionId && a.isNewSessionKey == b.isNewSessionKey
  }

  // ---- loading ---------------------------------------------------------------------

  /** Loads the session from the cache unless it is loaded already. A missing
      entry loads nothing; an unreadable blob loads nothing and marks the
      session modified so that commit replaces it; a blob that ends early
      leaves the entries read so far in the store and the session unloaded. */
  function Load(s: Session, cache: Cache): (r: Outcome<()>)
    ensures r.fetched <==> !s.loaded
    ensures s.loaded ==> r == Outcome(s, Ok(()), false)
    ensures SameIdentity(s, r.session) && r.session.capability == s.capability
    ensures r.result.Ok? <==> r.session.loaded
    ensures s.store.Keys <= r.session.store.Keys
    ensures s.isModified ==> r.session.isModified
    ensures !s.loaded && s.sessionId !in cache ==> r == Outcome(s.(loaded := true), Ok(()), true)
    ensures !s.loaded && s.sessionId in cache && (|cache[s.sessionId]| == 0 || cache[s.sessionId][0] != SerializationRevision) ==>
      r == Outcome(s.(loaded := true, isModified := true), Ok(()), true)
    ensures var read := if s.sessionId in cache then Deserialize(cache[s.sessionId], s.store) else Unreadable;
      !s.loaded && read.Decoded? ==> r == Outcome(s.(store := read.store, loaded := true), Ok(()), true)
    ensures var read := if s.sessionId in cache then Deserialize(cache[s.sessionId], s.store) else Unreadable;
      !s.loaded && read.Threw? ==> r == Outcome(s.(store := read.store), Err(read.error), true)
    ensures r.session.isModified ==> s.isModified || r.session.loaded
    ensures Valid(s) ==> Valid(r.session)
  {
    if s.loaded then Outcome(s, Ok(()), false)
    else if s.sessionId !in cache then Outcome(s.(loaded := true), Ok(()), true)
    else
      match Deserialize(cache[s.sessionId], s.store)
      case Unreadable => Outcome(s.(loaded := true, isModified := true), Ok(()), true)
      case Decoded(store) => Outcome(s.(store := store, loaded := true), Ok(()), true)
      case Threw(store, e) => Outcome(s.(store := store), Err(e), true)
  }

  /** A load that succeeded is never repeated: loading again reads nothing
      and changes nothing. */
  lemma LoadOnce(s: Session, cache: Cache, cache': Cache)
    requires Load(s, cache).result.Ok?
    ensures Load(Load(s, cache).session, cache') == Outcome(Load(s, cache).session, Ok(()), false)
  {
  }

  /** Loading a record cut off after its entry count fails with overflow or
      end-of-stream. The session stays unloaded, so the next operation reads the
      cache again, and it keeps the entries that precede the cut, never all of
      them. */
  lemma LoadCutRecord(s: Session, cache: Cache, store: Store, order: seq<Key>, p: nat) returns (j: nat)
    requires !s.loaded
    requires IsEnumeration(order, store)
    requires 1 <= |store| <= EntryCountLimit && KeysFit(store) && RecordFits(store, order)
    requires 4 <= p < |Serialize(store, order).value|
    requires s.sessionId in cache && cache[s.sessionId] == Serialize(store, order).value[..p]
    ensures j < |order| == |store|
    ensures var r := Load(s, cache);
      && r.fetched
      && (r.result == Err(Overflow) || r.result == Err(EndOfStream))
      && r.session == s.(store := s.store + Restrict(store, order[..j]))
  {
    j := TruncatedRecordThrows(store, order, s.store, p);
  }

  // ---- reading ---------------------------------------------------------------------

  function TryGetValue(s: Session, cache: Cache, key: Key): (r: Outcome<Option<Value>>)
    ensures var l := Load(s, cache);
      && r.fetched == l.fetched
      && r.session == l.session
      && (l.result.Err? ==> r.result == Err(l.result.error))
      && (l.result.Ok? ==>
            && r.result.Ok?
            && (r.result.value.Some? <==> key in l.session.store)
            && (r.result.value.Some? ==> r.result.value.value == l.session.store[key]))
  {
    var l := Load(s, cache);
    if l.result.Err? then Outcome(l.session, Err(l.result.error), l.fetched)
    else Outcome(l.session, Ok(if key in l.session.store then Some(l.session.store[key]) else None), l.fetched)
  }

  /** The keys of the store, in their encoded form; `EncodedKeys.KeyString`
      turns each into a string. */
  function Keys(s: Session, cache: Cache): (r: Outcome<set<Key>>)
    ensures var l := Load(s, cache);
      && r.fetched == l.fetched
      && r.session == l.session
      && (l.result.Err? ==> r.result == Err(l.result.error))
      && (l.result.Ok? ==> r.result == Ok(l.session.store.Keys))
  {
    var l := Load(s, cache);
    if l.result.Err? then Outcome(l.session, Err(l.result.error), l.fetched)
    else Outcome(l.session, Ok(l.session.store.Keys), l.fetched)
  }

  // ---- writing ---------------------------------------------------------------------

  /** Stores a copy of `value` under `key`. A key too long for its length
      field is refused before anything is loaded; a session that can no
      longer be established is refused after loading, with its entries and
      modified flag as the load left them. */
  function Set(s: Session, cache: Cache, hasStarted: bool, key: Key, value: Value): (r: Outcome<()>)
    ensures |key| > KeyLengthLimit ==> r == Outcome(s, Err(ArgumentOutOfRange), false)
    ensures |key| <= KeyLengthLimit ==> r.fetched == !s.loaded
    ensures |key| <= KeyLengthLimit && Load(s, cache).result.Err? ==> r == Load(s, cache)
    ensures var l := Load(s, cache).session;
      |key| <= KeyLengthLimit && Load(s, cache).result.Ok? && hasStarted && !Latched(l.capability) ==>
        r == Outcome(l, Err(InvalidOperation), !s.loaded)
    ensures var l := Load(s, cache).session;
      |key| <= KeyLengthLimit && Load(s, cache).result.Ok? && (!hasStarted || Latched(l.capability)) ==>
        && r.result.Ok?
        && r.session == l.(store := l.store[key := value], isModified := true, capability := r.session.capability)
        && Latched(r.session.capability)
    ensures r.result.Ok? ==> key in r.session.store && r.session.store[key] == value && r.session.isModified
    ensures SameIdentity(s, r.session)
    ensures LatchStep(s.capability, r.session.capability)
    ensures hasStarted ==> r.session.capability == s.capability
    ensures s.isModified ==> r.session.isModified
    ensures Valid(s) ==> Valid(r.session)
  {
    if |key| > KeyLengthLimit then Outcome(s, Err(ArgumentOutOfRange), false)
    else
      var l := Load(s, cache);
      if l.result.Err? then l
      else
        var attempt := TryEstablishSession(l.session.capability, hasStarted);
        if !attempt.established then Outcome(l.session, Err(InvalidOperation), l.fetched)
        else Outcome(l.session.(store := l.session.store[key := value], isModified := true, capability := attempt.capability), Ok(()), l.fetched)
  }

  /** Removes `key`; the session becomes modified exactly when the key was present. */
  function Remove(s: Session, cache: Cache, key: Key): (r: Outcome<()>)
    ensures r.fetched == Load(s, cache).fetched
    ensures Load(s, cache).result.Err? ==> r == Load(s, cache)
    ensures var l := Load(s, cache).session;
      Load(s, cache).result.Ok? ==>
        && r.result.Ok?
        && r.session.store == l.store - {key}
        && (r.session.isModified <==> l.isModified || key in l.store)
        && r.session == l.(store := r.session.store, isModified := r.session.isModified)
    ensures s.isModified ==> r.session.isModified
    ensures SameIdentity(s, r.session) && r.session.capability == s.capability
    ensures Valid(s) ==> Valid(r.session)
  {
    var l := Load(s, cache);
    if l.result.Err? then l
    else
      var removed := key in l.session.store;
      Outcome(l.session.(store := l.session.store - {key}, isModified := l.session.isModified || removed), Ok(()), l.fetched)
  }

  /** Empties the store; the session becomes modified exactly when it held an entry. */
  function Clear(s: Session, cache: Cache): (r: Outcome<()>)
    ensures r.fetched == Load(s, cache).fetched
    ensures Load(s, cache).result.Err? ==> r == Load(s, cache)
    ensures var l := Load(s, cache).session;
      Load(s, cache).result.Ok? ==>
        && r.result.Ok?
        && r.session.store == map[]
        && (r.session.isModified <==> l.isModified || |l.store| > 0)
        && r.session == l.(store := map[], isModified := r.session.isModified)
    ensures s.isModified ==> r.session.isModified
    ensures SameIdentity(s, r.session) && r.session.capability == s.capability
    ensures Valid(s) ==> Valid(r.session)
  {
    var l := Load(s, cache);
    if l.result.Err? then l
    else Outcome(l.session.(store := map[], isModified := l.session.isModified || |l.session.store| > 0), Ok(()), l.fetched)
  }

  // ---- committing ------------------------------------------------------------------

  datatype Committed = Committed(session: Session, cache: Cache, result: Result<()>)

  /** Writes a modified session back under its id, its entries enumerated in
      `order`. The modified flag is cleared before the store is serialized,
      so a store that cannot be serialized leaves the cache untouched and the
      session unmodified. */
  function Commit(s: Session, cache: Cache, order: seq<Key>): (r: Committed)
    requires IsEnumeration(order, s.store)
    ensures !s.isModified ==> r == Committed(s, cache, Ok(()))
    ensures s.isModified ==> r.session == s.(isModified := false)
    ensures r.result.Err? ==> r.cache == cache && r.result.error in {ArgumentOutOfRange, OutOfMemory, StreamTooLong}
    ensures s.isModified && r.result.Ok? ==>
      Serialize(s.store, order).Ok? && r.cache == cache[s.sessionId := Serialize(s.store, order).value]
  {
    if !s.isModified then Committed(s, cache, Ok(()))
    else
      var s' := s.(isModified := false);
      var blob := Serialize(s.store, order);
      if blob.Err? then Committed(s', cache, Err(blob.error))
      else Committed(s', cache[s.sessionId := blob.value], Ok(()))
  }

  /** What a commit writes, the next request reads: a fresh session with the
      same id, loading from the cache the commit produced, holds exactly the
      committed entries. */
  lemma CommitThenLoad(s: Session, cache: Cache, order: seq<Key>, capability: Capability, isNewSessionKey: bool)
    requires IsEnumeration(order, s.store)
    requires s.isModified && Commit(s, cache, order).result.Ok?
    ensures var next := NewSession(s.sessionId, capability, isNewSessionKey);
      Load(next, Commit(s, cache, order).cache) == Outcome(next.(store := s.store, loaded := true), Ok(()), true)
  {
    var next := NewSession(s.sessionId, capability, isNewSessionKey);
    var committed := Commit(s, cache, order);
    CommittedRecord(s, cache, order);
    RoundTrip(s.store, order, next.store);
    assert next.store + s.store == s.store;
    LoadDecodedRecord(next, committed.cache, s.store);
  }

  /** An unloaded session whose cached record reads completely takes what was read. */
  lemma LoadDecodedRecord(s: Session, cache: Cache, read: Store)
    requires !s.loaded && s.sessionId in cache
    requires Deserialize(cache[s.sessionId], s.store) == Decoded(read)
    ensures Load(s, cache) == Outcome(s.(store := read, loaded := true), Ok(()), true)
  {
  }

  /** A successful commit of a modified session stores its serialized record, which
      therefore fits the format and the memory stream. */
  lemma CommittedRecord(s: Session, cache: Cache, order: seq<Key>)
    requires IsEnumeration(order, s.store)
    requires s.isModified && Commit(s, cache, order).result.Ok?
    ensures |s.store| <= EntryCountLimit && KeysFit(s.store) && RecordFits(s.store, order)
    ensures s.sessionId in Commit(s, cache, order).cache
    ensures Commit(s, cache, order).cache[s.sessionId] == Serialize(s.store, order).value
  {
  }

  /** Commit fails exactly on a modified store the record format or the
      memory stream cannot hold. In a valid session that is one with more
      entries than the entry-count field holds, or whose record outgrows the
      array limit, which fails with out-of-memory, or with IOException once it
      outgrows the largest C# int. */
  lemma CommitFailsOnlyWhenTooLarge(s: Session, cache: Cache, order: seq<Key>)
    requires IsEnumeration(order, s.store)
    ensures Commit(s, cache, order).result.Err? <==>
      s.isModified && (|s.store| > EntryCountLimit || !KeysFit(s.store) || !RecordFits(s.store, order))
    ensures Valid(s) ==> (Commit(s, cache, order).result.Err? <==>
      s.isModified && (|s.store| > EntryCountLimit || !RecordFits(s.store, order)))
    ensures Valid(s) && s.isModified && |s.store| <= EntryCountLimit && !RecordFits(s.store, order) ==>
      Commit(s, cache, order).result in {Err(OutOfMemory), Err(StreamTooLong)}
    ensures Commit(s, cache, order).result == Err(StreamTooLong) ==> 4 + EntriesLength(s.store, order) > MaxStreamLength
    ensures Valid(s) ==> Valid(Commit(s, cache, order).session)
  {
  }
}
