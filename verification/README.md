# Distributed session state, modelled in Dafny

This project models the core of ASP.NET's distributed session state:

- **The session object** (`DistributedSession`). It is a key/value store bound to a session id. It loads lazily from a distributed cache, at most once. Changes are made in memory and tracked by a modified flag. On commit, the whole store is written back as one binary record.
- **The record format.** It has a revision byte and a 3-byte entry count. Each entry then holds a 2-byte key length, the UTF-8 key, a 4-byte value length and the value. All numbers are big-endian.
- **The session middleware and its establisher** (`SessionMiddleware`, `SessionEstablisher`):
  - The middleware reuses the session key carried by the request's cookie when that key is valid. Otherwise it mints a new key.
  - The establisher decides, when the response starts, whether the cookie for a minted key is written. It does this with a one-way latch.
  - After the rest of the pipeline has run, the middleware commits the session. It does this even when the pipeline threw, and it swallows any exception the commit raises.

Modules, one file each:

| file | module | what it holds |
|---|---|---|
| `results.dfy` | `Results` | `Option`, `Result`, and the exceptions the code throws |
| `int32.dfy` | `Int32` | C# `int` arithmetic: 32-bit wrap-around, `<<` and `\|` on two's-complement values |
| `byte_stream.dfy` | `ByteStream` | a memory stream read through a cursor: `ReadByte` (−1 at the end), `Read`, and the `ReadBytes` loop |
| `number_codec.dfy` | `NumberCodec` | the 2/3/4-byte number writers and readers |
| `record_codec.dfy` | `RecordCodec` | `Serialize` / `Deserialize` of the whole store, and the round trip |
| `encoded_key.dfy` | `EncodedKeys` | the dictionary key: encoded bytes, a cached string, a cached hash, `Equals` |
| `establishment.dfy` | `Establishment` | the capability and its latch, the session cookie, the start of the response |
| `distributed_session.dfy` | `DistributedSessions` | the session: `Load`, `TryGetValue`, `Keys`, `Set`, `Remove`, `Clear`, `Commit` |
| `session_middleware.dfy` | `SessionMiddleware` | key selection, the pipeline as a list of steps, `Invoke`, and the end-to-end properties |

Modelling choices:

- **C# `int`.** It is an unbounded `int` that is wrapped explicitly wherever the code can overflow. This matters for the 4-byte reader: bytes `80 00 00 00` read as −2147483648.
- **Bytes.** A byte is an integer in 0..255.
- **Streams.** A stream is a byte sequence plus a cursor.
- **The number readers.** They are written in closed form, as digits, or −1 when the field is cut off. Lemmas prove this equal to the literal C# expression `ReadByte() << 8 | ReadByte()` and its 3- and 4-byte forms.
- **The cache.** It is a `map<string, seq<byte>>`. A missing entry is a null read.
- **Keys.** The store maps encoded keys to values, because key equality is byte equality. `EncodedKeys.Equals` shows that the cached-hash short-circuit does not change this.
- **Enumeration order.** The dictionary's enumeration order is an input: `order`, or `enumerate` at the middleware level. The serialized bytes depend on it; the round trip does not.
- **The capability.** The `Func<bool>` capability is a value `ReturnTrue | Establisher(cookieValue, latch)` held by the session. The response-start callback reads the latch from there.
- **Response headers.** The header dictionary ignores the case of names. The model files each header under its name with ASCII letters lower-cased, and looks names up the same way.
- **The application.** It is a list of steps: session operations, an explicit commit, starting the response, and throwing. The middleware's own commit follows them.
- **Collaborators.** The cookie protector, the key generator, the UTF-8 codec and SipHash are function parameters or given answers.

## Model

| member | source | states |
|---|---|---|
| `ByteStream.ReadByte` | src/Microsoft.AspNet.Session/DistributedSession.cs:211-214 | the next byte and a cursor one further on; at the end of the data, −1 and a cursor that does not move |
| `ByteStream.Read` | src/Microsoft.AspNet.Session/DistributedSession.cs:255 | a memory-stream read copies the requested number of bytes, or all that remain when fewer do, and advances past them |
| `ByteStream.Fill` | src/Microsoft.AspNet.Session/DistributedSession.cs:252-261 | the read loop yields exactly the requested bytes once enough remain, and fails with end-of-stream when the data runs out first |
| `ByteStream.ReadBytes` | src/Microsoft.AspNet.Session/DistributedSession.cs:249-263 | allocating the buffer fails before anything is read: with overflow for a negative count, with out-of-memory for a count above the runtime's array limit 0x7FFFFFC7. A count within the limit that the stream can supply returns exactly that slice and advances past it; a larger one fails with end-of-stream |
| `NumberCodec.SerializeNumAs2Bytes` | src/Microsoft.AspNet.Session/DistributedSession.cs:201-209 | succeeds exactly for 0..65535 and otherwise throws argument-out-of-range; writes two bytes whose big-endian value is the number |
| `NumberCodec.SerializeNumAs3Bytes` | src/Microsoft.AspNet.Session/DistributedSession.cs:216-225 | succeeds exactly for 0..16777215 and otherwise throws argument-out-of-range; writes three bytes whose big-endian value is the number |
| `NumberCodec.SerializeNumAs4Bytes` | src/Microsoft.AspNet.Session/DistributedSession.cs:232-242 | succeeds exactly for non-negative numbers and otherwise throws argument-out-of-range; writes four bytes whose big-endian value is the number |
| `NumberCodec.SerializeNumBigEndian` | src/Microsoft.AspNet.Session/DistributedSession.cs:201-242 | every writer's output, read as an unsigned big-endian number, is the number written |
| `NumberCodec.Or2Bytes` | src/Microsoft.AspNet.Session/DistributedSession.cs:211-214 | on two bytes, `a << 8 \| b` in 32-bit arithmetic is their big-endian value |
| `NumberCodec.Or3Bytes` | src/Microsoft.AspNet.Session/DistributedSession.cs:227-230 | on three bytes, the shifted OR is their big-endian value |
| `NumberCodec.Or4Bytes` | src/Microsoft.AspNet.Session/DistributedSession.cs:244-247 | on four bytes, the shifted OR is their big-endian value wrapped to a signed 32-bit number |
| `NumberCodec.OrOfShiftedBytesTruncated` | src/Microsoft.AspNet.Session/DistributedSession.cs:211-247 | when a field is cut off, the last `ReadByte` yields −1, and OR with −1 makes the whole field read −1 with the stream at its end |
| `NumberCodec.DeserializeNumFrom2BytesIsOrExpression` | src/Microsoft.AspNet.Session/DistributedSession.cs:211-214 | the C# read expression, with its two `ReadByte` calls in order, equals the closed-form 2-byte reader: the big-endian value, or −1 when cut off |
| `NumberCodec.DeserializeNumFrom3BytesIsOrExpression` | src/Microsoft.AspNet.Session/DistributedSession.cs:227-230 | the same for the 3-byte reader |
| `NumberCodec.DeserializeNumFrom4BytesIsOrExpression` | src/Microsoft.AspNet.Session/DistributedSession.cs:244-247 | the same for the 4-byte reader, whose value wraps to negative when the high bit is set |
| `NumberCodec.DeserializeNumFrom2Bytes` | src/Microsoft.AspNet.Session/DistributedSession.cs:211-214 | with two bytes left, reads their unsigned big-endian value and moves past them; with fewer, reads −1 and leaves the stream at its end |
| `NumberCodec.DeserializeNumFrom3Bytes` | src/Microsoft.AspNet.Session/DistributedSession.cs:227-230 | the same for three bytes |
| `NumberCodec.DeserializeNumFrom4Bytes` | src/Microsoft.AspNet.Session/DistributedSession.cs:244-247 | the same for four bytes, with the big-endian value wrapped to a signed 32-bit number |
| `NumberCodec.OrOfShiftedBytes` | src/Microsoft.AspNet.Session/DistributedSession.cs:211-247 | each `ReadByte` of the C# read expression moves the cursor by one while bytes remain, so the expression ends just past its field, or at the end of a stream that runs out |
| `NumberCodec.NumRoundTrip2` | src/Microsoft.AspNet.Session/DistributedSession.cs:201-214 | a written 2-byte field reads back as its number, leaving the cursor just after it, whatever follows |
| `NumberCodec.NumRoundTrip3` | src/Microsoft.AspNet.Session/DistributedSession.cs:216-230 | the same for 3-byte fields |
| `NumberCodec.NumRoundTrip4` | src/Microsoft.AspNet.Session/DistributedSession.cs:232-247 | the same for 4-byte fields and every non-negative number |
| `RecordCodec.Serialize` | src/Microsoft.AspNet.Session/DistributedSession.cs:149-179 | succeeds exactly when the entry count fits three bytes, every key fits 65535 bytes and the whole record fits a byte array (0x7FFFFFC7 bytes). A count too large fails first with argument-out-of-range. With fitting keys, an oversize record fails with out-of-memory, or with IOException only when the record is longer than the largest C# int. A successful record starts with revision 1 and is as long as its fields |
| `RecordCodec.StreamFailure` | src/Microsoft.AspNet.Session/DistributedSession.cs:166-179 | the entries' writes into the memory stream fail exactly when some key is longer than 65535 bytes or the stream would outgrow a byte array; an over-long key alone gives argument-out-of-range, an oversize stream alone out-of-memory or IOException, and IOException only once the stream would pass the largest C# int |
| `RecordCodec.SerializedEntriesLength` | src/Microsoft.AspNet.Session/DistributedSession.cs:171-178 | each written entry takes 2 + key + 4 + value bytes, so the entries take exactly the length the stream-growth check counts |
| `RecordCodec.SerializeEntries` | src/Microsoft.AspNet.Session/DistributedSession.cs:171-178 | writing the entries fails exactly when some key is longer than 65535 bytes, and then with argument-out-of-range |
| `RecordCodec.DeserializeEntries` | src/Microsoft.AspNet.Session/DistributedSession.cs:191-198 | reading entries only adds keys to the store and only keys that fit; with no entries left to read it returns the store unchanged; the only exceptions are overflow, end-of-stream and out-of-memory |
| `RecordCodec.Deserialize` | src/Microsoft.AspNet.Session/DistributedSession.cs:181-199 | a blob is unreadable exactly when it is empty or its first byte is not revision 1; a revision byte followed by a cut-off count reads no entries and succeeds; the only exceptions are overflow, end-of-stream and out-of-memory |
| `RecordCodec.OversizeValueThrows` | src/Microsoft.AspNet.Session/DistributedSession.cs:249-251 | a record whose first value-length field announces 0x7FFFFFFF bytes fails with out-of-memory when the value read (line 197) allocates its buffer, whatever bytes follow, and adds nothing to the store |
| `RecordCodec.DeserializeEntriesRoundTrip` | src/Microsoft.AspNet.Session/DistributedSession.cs:166-198 | the serialized entries of any list of distinct keys read back into the accumulated store plus exactly those entries |
| `RecordCodec.RoundTrip` | src/Microsoft.AspNet.Session/DistributedSession.cs:158-199 | any store whose keys, entry count and record length fit serializes successfully, in any enumeration order, and reading the record back into a store yields that store updated with every entry |
| `RecordCodec.CutEntries` | src/Microsoft.AspNet.Session/DistributedSession.cs:192-198 | the serialized entries of distinct keys, cut off before their end, make the entry loop throw overflow or end-of-stream after storing a proper prefix of the entries |
| `RecordCodec.TruncatedRecordThrows` | src/Microsoft.AspNet.Session/DistributedSession.cs:181-263 | the record of a non-empty store cut off anywhere after its entry count throws overflow or end-of-stream when read, and the store then holds the entries that precede the cut, never all of them |
| `EncodedKeys.FromString` | src/Microsoft.AspNet.Session/DistributedSession.cs:272-276 | a key built from a string holds the string's UTF-8 bytes and remembers the string |
| `EncodedKeys.FromBytes` | src/Microsoft.AspNet.Session/DistributedSession.cs:278-281 | a key built from bytes holds them, with nothing cached |
| `EncodedKeys.KeyString` | src/Microsoft.AspNet.Session/DistributedSession.cs:283-293 | the string is the cached one when present, and otherwise the decoding of the bytes, which is then cached |
| `EncodedKeys.GetHashCode` | src/Microsoft.AspNet.Session/DistributedSession.cs:323-330 | the hash is the cached one when present, and otherwise the hash of the bytes, which is then cached |
| `EncodedKeys.CachingPreservesConsistency` | src/Microsoft.AspNet.Session/DistributedSession.cs:283-330 | caches filled from the codec and the hash function stay consistent, and asking twice gives the same string and hash |
| `EncodedKeys.Equals` | src/Microsoft.AspNet.Session/DistributedSession.cs:297-321 | equal exactly when the other object is a key with the same bytes and the two cached hashes do not both exist and differ; with consistent caches, equal exactly when the bytes are equal |
| `Establishment.TryEstablishSession` | src/Microsoft.AspNetCore.Session/SessionMiddleware.cs:182-186 | answers true exactly when the latch was already set or the response has not started; the answer is the new latch; the latch only ever goes from clear to set; once the response has started the capability never changes |
| `Establishment.SecureFlag` | src/Microsoft.AspNetCore.Session/SessionMiddleware.cs:165-173 | Always gives a secure cookie, None (`Never` in the model) an insecure one, SameAsRequest one that is secure exactly over HTTPS |
| `Establishment.SessionCookie` | src/Microsoft.AspNetCore.Session/SessionMiddleware.cs:158-177 | the cookie carries the configured name, the protected key, the configured domain and HttpOnly flag, the configured path or the default path "/", and the Secure flag of the policy |
| `Establishment.SetCookie` | src/Microsoft.AspNetCore.Session/SessionMiddleware.cs:158-180 | appends exactly that cookie and marks the response uncacheable, as `MarkNoCache` states |
| `Establishment.SetHeader` | src/Microsoft.AspNetCore.Session/SessionMiddleware.cs:177-179 | after a header assignment, the header reads back under its name in any letter case, and the dictionary holds one more name at most: the assigned one |
| `Establishment.SetHeaderKeepsOthers` | src/Microsoft.AspNetCore.Session/SessionMiddleware.cs:177-179 | a header assignment leaves every header whose name differs in more than letter case as it was |
| `Establishment.MarkNoCache` | src/Microsoft.AspNetCore.Session/SessionMiddleware.cs:177-179 | the three assignments leave the existing headers with Cache-Control, Pragma and Expires set to no-cache, no-cache and -1 |
| `Establishment.MarkNoCacheIgnoresCase` | src/Microsoft.AspNetCore.Session/SessionMiddleware.cs:177-179 | a no-cache header already present in another letter case is replaced, not duplicated: the dictionary gains only the names it lacked, each no-cache header reads back as its new value under any casing, and every other header is unchanged |
| `Establishment.OnStartingCallback` | src/Microsoft.AspNetCore.Session/SessionMiddleware.cs:148-156 | writes the cookie exactly when the establisher's latch is set, and otherwise leaves the response unchanged |
| `Establishment.StartResponse` | src/Microsoft.AspNetCore.Session/SessionMiddleware.cs:140-156 | starting a response runs the callback once: a started response is unchanged by starting it again; otherwise it gains exactly the cookies the latch calls for |
| `DistributedSessions.NewSession` | src/Microsoft.AspNet.Session/DistributedSession.cs:44-54 | a new session is empty, unloaded and unmodified, and satisfies the session invariant |
| `DistributedSessions.Load` | src/Microsoft.AspNet.Session/DistributedSession.cs:109-135 | it reads the cache exactly when the session is not yet loaded, and a loaded session is left alone. A missing entry just marks the session loaded. An empty blob or a wrong revision byte marks it loaded and modified with its entries unchanged. A blob that reads completely replaces the store with what was read and marks the session loaded. A blob whose reading throws passes the exception on, keeps the entries read before it and leaves the session unloaded. Loading succeeds exactly when it leaves the session loaded. It never removes keys, never clears the modified flag, and keeps the invariant |
| `DistributedSessions.LoadOnce` | src/Microsoft.AspNet.Session/DistributedSession.cs:109-135 | after a successful load, loading again, from any cache, reads nothing and changes nothing |
| `DistributedSessions.LoadCutRecord` | src/Microsoft.AspNet.Session/DistributedSession.cs:120-135 | loading a committed record cut off after its entry count fails with overflow or end-of-stream, leaves the session unloaded and adds only the entries that precede the cut |
| `DistributedSessions.TryGetValue` | src/Microsoft.AspNet.Session/DistributedSession.cs:67-71 | it loads first and passes a load failure on. Otherwise it finds a value exactly when the key is in the loaded store, and that value is the stored one |
| `DistributedSessions.Keys` | src/Microsoft.AspNet.Session/DistributedSession.cs:57-64 | it loads first and passes a load failure on. Otherwise it returns exactly the keys of the loaded store |
| `DistributedSessions.Set` | src/Microsoft.AspNet.Session/DistributedSession.cs:74-92 | a key longer than 65535 bytes throws before any load, changing nothing. Otherwise it loads first. If the response has started and the latch is clear, it throws invalid-operation and leaves the store and modified flag as loaded. Otherwise the value is stored under the key, the session is modified, and the latch is set. The flag is never cleared and the latch only moves forward |
| `DistributedSessions.Remove` | src/Microsoft.AspNet.Session/DistributedSession.cs:95-99 | after loading, the key is gone and the session is modified exactly when it already was or the key was present |
| `DistributedSessions.Clear` | src/Microsoft.AspNet.Session/DistributedSession.cs:102-107 | after loading, the store is empty and the session is modified exactly when it already was or the store held an entry |
| `DistributedSessions.Commit` | src/Microsoft.AspNet.Session/DistributedSession.cs:138-156 | an unmodified session commits as a no-op. Otherwise the modified flag is cleared whatever happens next. A failure is argument-out-of-range, out-of-memory or IOException and leaves the cache untouched; success writes the serialized store under the session id |
| `DistributedSessions.CommitThenLoad` | src/Microsoft.AspNet.Session/DistributedSession.cs:109-156 | a fresh session with the same id, loading from the cache a commit produced, holds exactly the committed entries |
| `DistributedSessions.CommittedRecord` | src/Microsoft.AspNet.Session/DistributedSession.cs:138-156 | a successful commit of a modified session stores its serialized record under the session id, so that record fits the format and the memory stream |
| `DistributedSessions.CommitFailsOnlyWhenTooLarge` | src/Microsoft.AspNet.Session/DistributedSession.cs:138-179 | commit fails exactly on a modified store with too many entries, an over-long key or a record longer than a byte array holds. In a session satisfying the invariant, only the entry count and the record length can make it fail; a record that is too long fails with out-of-memory, or with IOException when it also passes the largest C# int |
| `SessionMiddleware.AllWhiteSpace` | src/Microsoft.AspNetCore.Session/SessionMiddleware.cs:95 | the white-space scan is true exactly when every character is white space in the .NET sense |
| `SessionMiddleware.Utf16Length` | src/Microsoft.AspNetCore.Session/SessionMiddleware.cs:95-99 | a string's .NET length lies between its character count and twice that, and equals the count when no character is outside the Basic Multilingual Plane |
| `SessionMiddleware.IsNullOrWhiteSpace` | src/Microsoft.AspNetCore.Session/SessionMiddleware.cs:95 | true exactly for a missing key or one whose every character is white space |
| `SessionMiddleware.Reusable` | src/Microsoft.AspNetCore.Session/SessionMiddleware.cs:95 | the negation of the middleware's test holds exactly for a present key with a character that is not white space and the generator's key length |
| `SessionMiddleware.ResolveSessionKey` | src/Microsoft.AspNetCore.Session/SessionMiddleware.cs:89-105 | the cookie's key is reused, with the constant capability and not new, exactly when it is present, not all white space and as long as the generator's key length. Otherwise a minted key of another length throws a format exception, and one of the right length gets an establisher with a clear latch holding its protected form |
| `SessionMiddleware.Operate` | src/Microsoft.AspNet.Session/DistributedSession.cs:57-107 | every session operation other than a commit reads the cache only while the session is unloaded, and leaves it loaded when that read succeeds. It never clears the modified flag and keeps the invariant. It moves the latch only forward, and not at all once the response has started |
| `SessionMiddleware.Apply` | src/Microsoft.AspNetCore.Session/SessionMiddleware.cs:111-114 | one step of the application: at most one cache read, and none once loaded. Only a commit writes the cache or clears the modified flag; it writes the serialized store when the session was modified and the write succeeds, and otherwise leaves the cache alone. Starting the response changes only the response; an application exception changes nothing |
| `SessionMiddleware.Run` | src/Microsoft.AspNetCore.Session/SessionMiddleware.cs:111-114 | the pipeline keeps the session's identity, moves the latch only forward, and ends in an exception whenever the application throws |
| `SessionMiddleware.RunFetchesAtMostOnce` | src/Microsoft.AspNet.Session/DistributedSession.cs:109-135 | over the whole pipeline the session is loaded from the cache at most once, and not at all when it is already loaded |
| `SessionMiddleware.RunPreservesSession` | src/Microsoft.AspNet.Session/DistributedSession.cs:74-156 | the pipeline keeps the session invariant. A pipeline in which the application never commits leaves the cache alone and never clears the modified flag |
| `SessionMiddleware.ApplyKeepsCookiesAgreed` | src/Microsoft.AspNetCore.Session/SessionMiddleware.cs:148-186 | after any step, a response that has not started has no new cookie, and a started one has exactly the session cookie when the latch is set and none otherwise |
| `SessionMiddleware.RunKeepsCookiesAgreed` | src/Microsoft.AspNetCore.Session/SessionMiddleware.cs:145-186 | the same agreement holds after the whole pipeline |
| `SessionMiddleware.Invoke` | src/Microsoft.AspNetCore.Session/SessionMiddleware.cs:89-146 | a format exception from key selection ends the request before any session exists. So does the invalid-operation exception of registering the establisher's callback on a response that has already started (line 145). Otherwise the session is committed after the pipeline, even when the pipeline threw, into the cache the pipeline left. The request ends with the pipeline's own exception or success, whatever the commit did |
| `SessionMiddleware.Respond` | src/Microsoft.AspNetCore.Session/SessionMiddleware.cs:145-156 | a response already started is sent as it is. After a middleware that returned normally, starting an unstarted response runs the registered callback, which adds exactly the cookies the final latch calls for; after one that threw, no callback runs and no cookie is added |
| `SessionMiddleware.InvokeReadsCacheAtMostOnce` | src/Microsoft.AspNet.Session/DistributedSession.cs:109-135 | a request loads the session from the cache at most once; the extra read a commit makes and a reload after a caught load failure are not modelled |
| `SessionMiddleware.ResponseCookies` | src/Microsoft.AspNetCore.Session/SessionMiddleware.cs:133-186 | the response the client receives gains at most one cookie. That is the session cookie, exactly when the establisher's latch is set and the response started inside the pipeline or after a pipeline that returned normally. Only a minted key can have it, and it carries the protected form of that key |
| `SessionMiddleware.SessionSurvivesToNextRequest` | src/Microsoft.AspNetCore.Session/SessionMiddleware.cs:93-108 | after a request saved its session, a later request whose cookie unprotects to the same key reuses that key with the constant capability. Its first load yields exactly the saved entries |
| `SessionMiddleware.InvokeSavesEveryModifiedSession` | src/Microsoft.AspNetCore.Session/SessionMiddleware.cs:100-129 | a request saves its session exactly when a session was created, the pipeline left it modified, its entry count fits three bytes and its record fits a byte array |

## Left out

- Cache I/O and `async`. The cache is a map, and awaiting is sequential composition. Cache connectivity failures are not modelled.
- The sliding expiration written with each commit (the idle timeout). Nothing in the model reads it.
- The cache read that `CommitAsync` performs only to decide whether to log "session started". It and all other logging are left out. For this reason `SessionMiddleware.InvokeReadsCacheAtMostOnce` counts loads, not cache reads.
- Concurrent requests on one session id (last commit wins). The model runs one request at a time.
- Encoding and hashing: the UTF-8 encoder and decoder and SipHash are function parameters. Session operations take keys already encoded, and `DistributedSessions.Keys` returns encoded keys; `EncodedKeys.KeyString` turns one back into a string.
- Key generation: its cryptographic randomness is not modelled. The minted key is an input.
- Cookie protection: `Protect`/`Unprotect` are given as functions. A failed unprotect is None.
- The session store (`DistributedSessionStore.Create`, `ISessionStore`). It is a thin factory, modelled by `DistributedSessions.NewSession`.
- Option classes and their defaults, `SessionFeature`, and the samples.
- Setting the session feature, and application code replacing it: the middleware always commits the session it created.
- Application code that catches an exception from a session operation. In the model, an exception ends the pipeline. A caught load failure would let a later operation load again.
- HTTP transport: cookie header formatting and everything after the response starts.
- `SessionMiddleware.Respond`: the server is not part of the modelled code. The model follows a server that runs OnStarting callbacks when it starts the response after the middleware returned normally, and runs none when the middleware threw. The status and headers of the server's error response are not modelled; its cookies are those the pipeline wrote.
- Null arguments. None of the session operations takes null: `Set(null, value)` throws from the UTF-8 encoder before loading, `Set(key, null)` is refused by `[NotNull]`, and `TryGetValue(null)` and `Remove(null)` throw after their load (DistributedSession.cs:69-76, 97-98, 275). The model's keys and values are always present.
- `ByteStream.ReadBytes`: an allocation within the runtime's array limit always succeeds. Running out of memory below that limit depends on the process, not on the blob.
- The copy `Set` makes of its value. Dafny sequences are values, so the stored value cannot alias the caller's.
- `DistributedSessions.TryGetValue`: returns the stored value as a value. The code hands out the stored array itself, so a caller who writes into it changes the store without marking the session modified; the model cannot express that aliasing.
- `DistributedSessions.Keys`: returns the set of keys at the time of the call. The code returns a deferred projection over the live dictionary's keys, in the dictionary's order, which sees later changes and fails if enumerated across one.
- The key generator's length is an input (`Oracles.sessionKeyLength`). The default generator's 36-character GUID keys are not part of this model.
- `Deserialize` with a null stream. `LoadAsync` never passes one.
- The `string.Length` of a key is its UTF-16 length (`Utf16Length`). The model's strings are sequences of Unicode scalar values.
- SessionDefaults is not part of this model; the default cookie path is taken to be "/".
- `RecordCodec.Serialize`: the memory stream's growth follows the .NET `MemoryStream`, which is not part of the modelled code: a write whose new length overflows an `int` throws IOException, and a longer buffer than the array limit cannot be allocated. The process running out of memory below that limit is not modelled.
- `Establishment.FoldName`: folds only the ASCII letters A-Z. The header dictionary's ordinal case-insensitive comparison also folds other letters, so two names that differ only in the case of a non-ASCII letter are one header there and two in the model.
- `SessionMiddleware.Invoke`: the server is not part of the modelled code. The model follows a server whose `OnStarting` throws InvalidOperationException once the response has started, so a minted key on such a response ends the request before any session exists.
- `RecordCodec.TruncatedRecordThrows`: states that a cut-off record raises overflow or end-of-stream, not which one a given cut point raises. It is overflow for a cut in a length field and end-of-stream for a cut in key or value bytes.

## Behaviour of the code worth knowing

- `Set` checks the key length before it loads the session (DistributedSession.cs:77-83).
- A value-length field can announce up to 0x7FFFFFFF bytes, more than a byte array can hold. Allocating the buffer then throws out-of-memory before the value is read (DistributedSession.cs:197, 251). Stored values are byte arrays, so a record the code wrote never announces such a length.
- A revision byte followed by a cut-off entry count reads a count of −1 (DistributedSession.cs:191, 229). The entry loop then runs zero times: the load succeeds, and the session is not marked modified.
- A cut-off key-length or value-length field reads −1 (DistributedSession.cs:213, 246). Allocating the buffer then throws an overflow exception, not end-of-stream (DistributedSession.cs:251). Either exception propagates out of `Load` and out of the operation that triggered it. The entries read so far stay in the store (DistributedSession.cs:197), and the session stays unloaded (DistributedSession.cs:133 is not reached), so the next operation reads the cache again.
- The capability ORs "response not started" into its latch and answers with the latch (SessionMiddleware.cs:182-186). A latch set before the response started therefore keeps answering true afterwards.
- `CommitAsync` clears the modified flag (DistributedSession.cs:147) before it serializes. A commit that throws therefore leaves the session unmodified, and a later commit of the same session writes nothing unless the session changes again.
- The record is built in a memory stream before anything is written to the cache (DistributedSession.cs:149-153). A store whose record is longer than a byte array can hold fails to commit, although every value in it fits.
- An unreadable blob marks the session modified and leaves the store as it was rather than emptying it (DistributedSession.cs:183-189). The store is empty unless an earlier failed load left entries in it.
