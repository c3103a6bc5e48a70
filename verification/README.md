# golib core, modelled in Dafny

This project models the sequential core of the `golib` Go library. The library is the
shared infrastructure of a family of gin web services. It covers the following parts:

- **Connection pool.** A connection pool with idle eviction, waiting callers and
  hand-off.
- **Headers and conversions.**
  - the 36-byte npc message header;
  - the big-endian integer helpers (`exnum`);
  - the in-place byte replacement (`exbytes`).
- **Strings.**
  - the string helpers (`exstrings`);
  - the `JoinInts` family of decimal joins.
- **HTTP client rules.**
  - body encoding and its precedence;
  - the Content-Type;
  - the GET URL;
  - the retry loop;
  - the ral code ("remote access layer" success code).
- **MySQL client.**
  - configuration defaults;
  - the `?` placeholder substitution of the gorm log formatter;
  - `isPrintable`;
  - the service-name fallback.
- **Redis client.**
  - configuration defaults;
  - the borrow test;
  - statistics;
  - the pipeline's `Put` and `Exec`.
- **Logging context (`xlog`).**
  - log id and request id precedence and caching;
  - the generated request id;
  - the no-log flag;
  - notices;
  - the docker file-name prefix of the JSON encoder.
- **Access-log middleware.**
  - the response-capturing writer;
  - the truncated request and response text;
  - form lookup;
  - the cookie rendering.
- **Environment.**
  - the docker-guarded environment (`env`);
  - secret substitution in configuration structs.

Everything is a pure function or a method over immutable values. Go's pointer receivers become
functions returning the receiver's new value. The following stand outside the model and
appear as parameters:

- the clock;
- the network;
- encoders the code only calls (JSON, mcpack, `url.Values.Encode`, `filepath.Join`,
  `unicode.IsPrint`);
- the outcome of callbacks.

Go's `int` and `uint` are taken at 64 bits. Durations are nanoseconds as `int`. `byte`,
`uint16`, `uint32` and `uint64` are integer subset types, and two's complement is written
out explicitly.

Modules:

- `Wrappers`
- `Bytes` (little- and big-endian fields)
- `Pool` and `PoolProps`
- `NpcHeader`
- `ExNum`
- `ExBytes`
- `ExStrings`
- `JoinInt`
- `GoStrings` (one-character `TrimLeft` and `TrimRight`)
- `Http`
- `Mysql`
- `Redis`
- `RedisPipeline`
- `XlogUtil`
- `JsonEncoder`
- `AccessLog`
- `Env`
- `Secret`

One observation that is not a defect: `GetLogID` looks up the header `X_LOGID` and then
`x_logid`. Both keys canonicalise to `X_logid` (the underscore is not a word separator
in MIME header canonicalisation), so the second lookup always repeats the first
(`XlogUtil.LogIdHeadersCoincide`).

## Model

| member | source | states |
|---|---|---|
| Pool.NewChannelPool | pool/channel.go:70-112 | the capacity, factory and close checks, in that order, each with its own error; on success the pool holds `InitialCap` fresh idle connections, all stamped with the start instant; a factory failure releases the pool and closes the connections made so far |
| Pool.EvictCount | pool/channel.go:128-145 | the length of the leading run of idle entries that Get discards (stale, or failing the ping); the entry after the run is usable |
| Pool.Get | pool/channel.go:122-167 | a released pool answers ErrClosed and changes nothing; otherwise Get never touches the waiter mailboxes or the configuration |
| Pool.Admit | pool/channel.go:147-171 | the `default:` branch. It creates a connection exactly when it is under MaxCap and the factory succeeds. A factory failure leaves the pool unchanged. A saturated pool fails fast when not waiting, and otherwise registers a new waiter key |
| Pool.OnReceipt | pool/channel.go:174-186 | a closed channel gives ErrMaxActiveConnReached; a fresh hand-off is returned to the caller; a stale one is closed and Get goes round again |
| Pool.Wake | pool/channel.go:173-186 | a waiter with nothing delivered stays waiting; one with a delivery consumes its mailbox slot and gets that connection unless it went stale |
| Pool.Put | pool/channel.go:207-250 | nil is rejected. Otherwise, in order: a released pool drops the connection; a waiter gets it; a store with room parks it at the back; else it is closed. A hand-off serves exactly one waiter and touches neither the store nor the count |
| Pool.Close | pool/channel.go:252-263 | nil is rejected; once released nothing is closed or counted; otherwise the count drops by one and the close callback runs |
| Pool.CloseConn | pool/channel.go:252-263 | the pool's own close of an idle connection: a no-op after release, else count minus one and one callback logged |
| Pool.Release | pool/channel.go:272-290 | marks the pool released and empties the store, closing the parked connections in queue order; the live count is unchanged; a second Release changes nothing |
| Pool.Len | pool/channel.go:292-294 | the number of parked connections, 0 once released |
| Pool.GetStats | pool/channel.go:296-306 | ActiveCount is the live count, IdleCount is Len |
| Pool.TimeOutAsWritten | pool/channel.go:188-196 | the timeout branch as written: without a delivery the key is deleted and the call is Blocked; with one it reports the wait-timeout error |
| Pool.TimeOut | pool/channel.go:188-196 | the corrected timeout: always the wait-timeout error, the key deregistered, nothing else changed when no hand-off arrived |
| PoolProps.FreshPoolServesFirstConnection | pool/channel.go:70-112 | a fresh pool reports InitialCap active and InitialCap idle connections; asked at the instant it was built, its first Get hands out the first connection created unless a failing ping discards it; with no connections made up front and a working factory, the first Get opens one |
| PoolProps.GetValid | pool/channel.go:122-200 | Get keeps the pool invariant |
| PoolProps.AdmitValid | pool/channel.go:147-171 | the create / fail / register branch keeps the invariant |
| PoolProps.WakeValid | pool/channel.go:173-186 | a resumed waiter keeps the invariant |
| PoolProps.PutValid | pool/channel.go:207-250 | Put of a connection a caller holds keeps the invariant |
| PoolProps.PutHandOffValid | pool/channel.go:216-237 | the hand-off path keeps the invariant |
| PoolProps.PutParkValid | pool/channel.go:240-244 | parking keeps the invariant |
| PoolProps.CloseValid | pool/channel.go:252-263 | Close of a held connection keeps the invariant |
| PoolProps.ReleaseValid | pool/channel.go:272-290 | Release keeps the invariant |
| PoolProps.TimeOutValid | pool/channel.go:188-196 | the corrected timeout keeps the invariant |
| PoolProps.EvictStepValid | pool/channel.go:134-145 | one eviction round of Get's loop keeps the invariant |
| PoolProps.TakeStepValid | pool/channel.go:130-146 | handing out the oldest idle entry keeps the invariant |
| PoolProps.GetTakesFirstUsable | pool/channel.go:128-146 | Get closes exactly the leading run of evictable entries, in order, and returns the first usable one |
| PoolProps.GetFallsThrough | pool/channel.go:128-167 | when every idle entry is evictable, Get closes them all in order and then behaves as the `default:` branch |
| PoolProps.GetNeverReturnsEvictable | pool/channel.go:134-146 | Get never hands out a stale or ping-failing idle connection |
| PoolProps.FactoryFailureRestoresCount | pool/channel.go:149-159 | with nothing idle and room under MaxCap, a failing factory leaves the pool exactly as it was |
| PoolProps.SaturatedFailsFast | pool/channel.go:164-166 | without waiting, a saturated pool with nothing idle answers ErrMaxActiveConnReached and changes nothing |
| PoolProps.SaturatedRegistersWaiter | pool/channel.go:168-171 | with waiting enabled, a saturated pool parks the caller under a new key |
| PoolProps.HandOffDeliversSameConnection | pool/channel.go:216-237 | a Put while someone waits delivers that very connection to the waiter it picks, which receives it on waking |
| PoolProps.PutServesOnlyWaiters | pool/channel.go:216-237 | Put only ever writes to a registered waiter's slot |
| PoolProps.ReleaseClosesEachIdleOnce | pool/channel.go:272-290 | Release closes each parked connection exactly once and keeps the live count |
| PoolProps.ReleaseTerminal | pool/channel.go:272-290 | after Release, Get reports ErrClosed, Put and Close close nothing, and Release again changes nothing |
| PoolProps.StatsCounts | pool/pool.go:6-12 | ActiveCount counts idle and in-use connections and IdleCount only idle ones: IdleCount ≤ ActiveCount ≤ MaxCap, and the difference is the connections held by callers or in flight |
| PoolProps.TimedOutWaiterBlocksForever | pool/channel.go:188-196 | as written, a waiter that times out before any hand-off is Blocked and no later Put can ever reach it |
| PoolProps.TimeOutEndsTheWait | pool/channel.go:188-196 | corrected, the call always ends with the wait-timeout error and the waiter is forgotten. A hand-off that raced the timeout is parked, passed to another waiter, or closed; it is never left with the caller |
| NpcHeader.Layout | gomcpack/npc/header.go:9-22 | the header is 36 bytes long |
| NpcHeader.LayoutOffsets | gomcpack/npc/header.go:42-48 | field offsets: Id 0, Version 2, LogId 4, Provider 8-24, MagicNum 24, Reserved 28, BodyLen 32, each little-endian |
| NpcHeader.Unmarshal | gomcpack/npc/header.go:24-36 | succeeds iff at least 36 bytes; a short buffer is "incomplete header" and the receiver is unchanged; otherwise each field is read little-endian at its offset |
| NpcHeader.Marshal | gomcpack/npc/header.go:38-50 | succeeds iff at least 36 bytes; a short buffer is "not enough buffer" and is returned untouched; otherwise bytes from 36 on are kept |
| NpcHeader.Write | gomcpack/npc/header.go:52-58 | always hands the writer exactly one 36-byte header |
| NpcHeader.Read | gomcpack/npc/header.go:60-69 | `io.ReadFull` of 36 bytes: no input is EOF and a partial header is ErrUnexpectedEOF, with the receiver unchanged in both cases; otherwise Unmarshal of the 36 bytes read |
| NpcHeader.UnmarshalMarshal | gomcpack/npc/header.go:24-50 | decoding what was encoded gives the header back, whatever the receiver and buffer held |
| NpcHeader.MarshalUnmarshal | gomcpack/npc/header.go:24-50 | re-encoding a decoded header reproduces the 36 bytes it came from |
| NpcHeader.MarshalOwnBufferIsIdentity | gomcpack/npc/header.go:24-50 | marshalling a header into the buffer it was read from leaves the buffer unchanged |
| NpcHeader.AnyMagicAccepted | gomcpack/npc/header.go:9-12 | the decoder never checks the magic number: any value in bytes 24-28 decodes |
| ExNum.BytesToUint16 | utils/extend/exnum/bytes.go:10-12 | reads the first two bytes big-endian: encoding the result gives those bytes back |
| ExNum.Uint16ToBytes | utils/extend/exnum/bytes.go:14-18 | two bytes, high byte first |
| ExNum.BytesToUint32 | utils/extend/exnum/bytes.go:20-22 | reads the first four bytes big-endian |
| ExNum.Uint32ToBytes | utils/extend/exnum/bytes.go:24-28 | four bytes; byte i is base-256 digit 3-i |
| ExNum.BytesToUint64 | utils/extend/exnum/bytes.go:30-32 | reads the first eight bytes big-endian |
| ExNum.Uint64ToBytes | utils/extend/exnum/bytes.go:34-38 | eight bytes; byte i is base-256 digit 7-i |
| ExNum.BytesToInt16 | utils/extend/exnum/bytes.go:40-42 | the unsigned reading reinterpreted in two's complement |
| ExNum.Int16ToBytes | utils/extend/exnum/bytes.go:44-48 | the two's-complement bit pattern, big-endian |
| ExNum.BytesToInt32 | utils/extend/exnum/bytes.go:50-52 | as for 16 bits, at 32 |
| ExNum.Int32ToBytes | utils/extend/exnum/bytes.go:54-58 | as for 16 bits, at 32 |
| ExNum.BytesToInt64 | utils/extend/exnum/bytes.go:60-62 | as for 16 bits, at 64 |
| ExNum.Int64ToBytes | utils/extend/exnum/bytes.go:64-68 | as for 16 bits, at 64 |
| ExNum.Uint16Of | utils/extend/exnum/bytes.go:46 | Go's `uint16(v)`: v modulo 2^16 |
| ExNum.Int16Of | utils/extend/exnum/bytes.go:41 | Go's `int16(u)`: the pattern read in two's complement |
| ExNum.Uint32Of | utils/extend/exnum/bytes.go:56 | Go's `uint32(v)`: congruent to v modulo 2^32 |
| ExNum.Int32Of | utils/extend/exnum/bytes.go:51 | Go's `int32(u)`: the pattern read in two's complement, congruent to u modulo 2^32 |
| ExNum.Uint64Of | utils/extend/exnum/bytes.go:66 | Go's `uint64(v)`: congruent to v modulo 2^64 |
| ExNum.Int64Of | utils/extend/exnum/bytes.go:61 | Go's `int64(u)`: the pattern read in two's complement, congruent to u modulo 2^64 |
| ExNum.UnsignedRoundTrip | utils/extend/exnum/bytes.go:10-38 | decoding an encoding gives the value back at 16, 32 and 64 bits |
| ExNum.SignedRoundTrip | utils/extend/exnum/bytes.go:40-68 | negative values survive the unsigned encoding at every width |
| ExNum.TrailingBytesIgnored16 | utils/extend/exnum/bytes.go:10-12 | `BytesToUint16`, and `BytesToInt16` (line 40) which wraps it, read only the first two bytes of any slice of two or more |
| ExNum.TrailingBytesIgnored32 | utils/extend/exnum/bytes.go:20-22 | `BytesToUint32`, and `BytesToInt32` (line 50) which wraps it, read only the first four bytes of any slice of four or more |
| ExNum.TrailingBytesIgnored64 | utils/extend/exnum/bytes.go:30-32 | `BytesToUint64`, and `BytesToInt64` (line 60) which wraps it, read only the first eight bytes of any slice of eight or more |
| ExBytes.Replace | utils/extend/exbytes/bytes.go:17-44 | n = 0 returns s. A longer replacement is `bytes.Replace`. Otherwise the first `Limit(s, n)` non-overlapping occurrences, left to right, are replaced (all of them when n < 0), and the result is never longer than s. The caller's s is overwritten on that path, holding the result followed by its own old bytes, and is untouched on the others |
| ExBytes.ReplaceInPlace | utils/extend/exbytes/bytes.go:26-43 | the in-place loop, run over one buffer standing for s's storage with each `copy` a memmove, computes the reference replacement and leaves that buffer as the result followed by s's old bytes |
| ExBytes.IndexFirstMatch | utils/extend/exbytes/bytes.go:32 | the search finds an occurrence with none before it, or reports that none exists |
| ExBytes.ReplaceLength | utils/extend/exbytes/bytes.go:37-39 | each replacement changes the length by \|rep\| - \|pat\| |
| ExBytes.ReplaceCountBound | utils/extend/exbytes/bytes.go:31 | at most n replacements are made |
| ExBytes.NoOccurrenceNoChange | utils/extend/exbytes/bytes.go:32-34 | without an occurrence the input comes back unchanged |
| ExBytes.EmptyPatternNoChange | utils/extend/exbytes/bytes.go:26-43 | an empty pattern with an empty replacement changes nothing |
| ExBytes.InPlaceNeverGrows | utils/extend/exbytes/bytes.go:22-43 | with \|pat\| ≥ \|rep\| the result is at most as long as the input |
| ExStrings.MultiJoinString | utils/extend/exstrings/string.go:22-28 | the arguments concatenated in order; none gives "" |
| ExStrings.Join | utils/extend/exstrings/string.go:56-73 | the small-length special cases agree with the general join: the parts with sep between neighbours only |
| ExStrings.JoinEnds | utils/extend/exstrings/string.go:56-73 | a join starts with the first part and ends with the last |
| ExStrings.JoinLength | utils/extend/exstrings/string.go:56-73 | the joined length is the parts' total plus one separator per gap |
| ExStrings.JoinEmptySep | utils/extend/exstrings/string.go:56-73 | with an empty separator, join is concatenation |
| ExStrings.JoinChars | utils/extend/exstrings/string.go:56-73 | every character of a join not in sep comes from some part |
| ExStrings.JoinKeepsParts | utils/extend/exstrings/string.go:56-73 | conversely, every character of every part appears in the join |
| ExStrings.Reverse | utils/extend/exstrings/string.go:31-37 | the swap loop yields the runes in reverse order |
| ExStrings.RevIndex | utils/extend/exstrings/string.go:31-37 | rune k of the reversal is rune \|s\|-1-k |
| ExStrings.RevInvolution | utils/extend/exstrings/string.go:31-37 | reversing twice gives the input |
| ExStrings.Repeat | utils/extend/exstrings/string.go:45-52 | a negative count is refused, as is a byte length `len(s)*count` (UTF-8 bytes, not runes) overflowing int; otherwise count copies |
| ExStrings.RepeatFits | utils/extend/exstrings/string.go:45-52 | the refusal rule is exactly the overflow of the result's own byte length, and an accepted result is `len(s)*count` bytes long |
| ExStrings.Utf8LenAppend | utils/extend/exstrings/string.go:48 | the byte length `len` is additive over concatenation |
| ExStrings.CopiesIndex | utils/extend/exstrings/string.go:45-52 | rune k of the repetition is rune k mod \|s\| of s |
| ExStrings.CopiesAdd | utils/extend/exstrings/string.go:45-52 | m copies then n copies are m + n copies |
| ExStrings.CopiesLength | utils/extend/exstrings/string.go:45-52 | the repetition has \|s\| * count runes |
| JoinInt.Digits | utils/extend/exstrings/join_int.go:17 | decimal digits of a natural number: non-empty, all digits, no leading zero |
| JoinInt.FormatInt | utils/extend/exstrings/join_int.go:73 | `strconv.FormatInt(v, 10)`: a leading '-' exactly for negatives |
| JoinInt.FormatUint | utils/extend/exstrings/join_int.go:143 | `strconv.FormatUint(v, 10)`: never a '-' |
| JoinInt.FormatIntParses | utils/extend/exstrings/join_int.go:73 | parsing the decimal text gives the number back |
| JoinInt.FormatUintIsFormatInt | utils/extend/exstrings/join_int.go:143 | unsigned formatting agrees with signed formatting on naturals |
| JoinInt.JoinDecimal | utils/extend/exstrings/join_int.go:67-78 | the shared loop: a separator before every number but the first, since a written number is never empty |
| JoinInt.JoinInt64s | utils/extend/exstrings/join_int.go:67-78 | the decimal texts joined with sep; starts with the first number and ends with the last |
| JoinInt.JoinUint64s | utils/extend/exstrings/join_int.go:137-148 | the decimal texts joined with sep; without '-' in sep the result has none |
| JoinInt.JoinInts | utils/extend/exstrings/join_int.go:11-22 | as JoinInt64s after widening |
| JoinInt.JoinInt8s | utils/extend/exstrings/join_int.go:25-36 | as JoinInt64s after widening; each number's text is at most 4 characters, sign included |
| JoinInt.JoinInt16s | utils/extend/exstrings/join_int.go:39-50 | as JoinInt64s after widening; each number's text is at most 6 characters, sign included |
| JoinInt.JoinInt32s | utils/extend/exstrings/join_int.go:53-64 | as JoinInt64s after widening; each number's text is at most 11 characters, sign included |
| JoinInt.JoinUints | utils/extend/exstrings/join_int.go:81-92 | as JoinUint64s after widening |
| JoinInt.JoinUint8s | utils/extend/exstrings/join_int.go:95-106 | as JoinUint64s after widening; each number's text is at most 3 digits |
| JoinInt.JoinUint16s | utils/extend/exstrings/join_int.go:109-120 | as JoinUint64s after widening; each number's text is at most 5 digits |
| JoinInt.JoinUint32s | utils/extend/exstrings/join_int.go:123-134 | as JoinUint64s after widening; each number's text is at most 10 digits |
| JoinInt.FormatWidth | utils/extend/exstrings/join_int.go:25-64 | numbers below 10^k in magnitude format to at most k digits, plus one for a '-' |
| JoinInt.NegativeShowsMinus | utils/extend/exstrings/join_int.go:67-78 | a negative element's text starts with '-' and parses back to the element, so the joined text holds a '-' whatever the separator |
| Http.GetContentType | base/http.go:101-113 | application/json exactly for "_json"; every other encoding, including "_mcPack" and "", is form-urlencoded |
| Http.RequestContentType | base/http.go:251-255 | a non-empty BodyType is sent as is; otherwise the encoding's type |
| Http.FormValues | base/http.go:134-148 | a map of any values becomes form values, strings kept, others JSON-encoded; it fails exactly when some value cannot be encoded |
| Http.PostBodyMatchesContentType | base/http.go:101-155 | a post built from RequestBody alone carries JSON under application/json for "_json", and a URL-encoded form under form-urlencoded for any other encoding except "_mcPack", whose mcpack body goes out under form-urlencoded |
| Http.GetRequestData | base/http.go:114-155 | no body gives ""; a form body is accepted only as one of the two map types, and any other type is "unSupport RequestBody type"; a string map is URL-encoded |
| Http.GetData | base/http.go:89-100 | the three sources in order; what the ranking means is stated by Http.GetDataPriority and Http.DataIgnoresEncoding |
| Http.GetDataPriority | base/http.go:89-100 | the body sources are ranked: a non-empty Data map decides alone and cannot fail, whatever Encode, JsonBody and RequestBody hold; without it a JsonBody decides alone, as GetJsonData; only then RequestBody counts |
| Http.DataIgnoresEncoding | base/http.go:89-100 | a non-empty Data map is always posted URL-encoded, so with Encode "_json" and no BodyType the header says application/json over a form-encoded body |
| Http.GetUrl | base/http.go:273-278 | the query is appended after '?' only when non-empty; the URL always starts with domain + path |
| Http.GetUrlSplits | base/http.go:273-278 | when domain and path hold no '?', splitting the URL at its first '?' gives back domain + path and exactly the query data |
| Http.HttpGetUrl | base/http.go:266-278 | an encoding error stops the request; otherwise the URL from the data |
| Http.HttpPostRequest | base/http.go:303-313 | the body is GetData, posted to domain + path with the chosen Content-Type; an encoding error stops it |
| Http.GetJsonData | base/http.go:165-168 | a nil JsonBody marshals to "null"; otherwise it fails exactly when JSON encoding fails |
| Http.HttpPostJsonAsWritten | base/http.go:336-346 | as written, a JSON post is sent with Content-Type "_json" |
| Http.HttpPostJson | base/http.go:78-81 | corrected, a JSON post is sent with the caller's BodyType or else application/json |
| Http.PostJsonContentType | base/http.go:336-346 | without a BodyType the two differ exactly in the Content-Type header: "_json" as written, application/json corrected |
| Http.GetRetryPolicy | base/http.go:169-175 | the request's own retry policy when set, the default otherwise; its effect on a request is stated by Http.HttpDoWithOptions |
| Http.GetBackOffPolicy | base/http.go:176-183 | the request's own back-off when set, the default otherwise; its effect on a request is stated by Http.HttpDoWithOptions |
| Http.DefaultRetry | base/http.go:589-591 | retry on a transport error, a missing response, a 5xx or a zero status; stated against the ral code by Http.DefaultRetryIsRalFailure |
| Http.DefaultBackOff | base/http.go:596-598 | retry at once; that a default request never waits is stated by Http.HttpDoWithOptions |
| Http.HttpDoWithOptions | base/http.go:169-183 | the request's own retry and back-off policies drive the loop when set. Under the default retry policy a request ends without error exactly when its last attempt got a response with a non-zero status below 500, and its ral code is then 0 exactly for a status below 400. Under the default back-off every wait is 0 |
| Http.CalRalCode | base/http.go:495-500 | 0 exactly when there is no error and a response with status in 1..399; -1 otherwise |
| Http.MaxAttempts | base/http.go:411-454 | the loop makes at least one attempt |
| Http.HttpDo | base/http.go:411-491 | Each attempt count runs from 1 to Retry + 1 (1 for negative Retry). Every earlier attempt was retry-eligible and not cancelled. The loop stops on the policy's first refusal. A cancelled back-off returns the context error. A transport error or "hit retry policy" is wrapped as "giving up after N attempt(s)". httpCode is the last response's status. The ral code is that of the final error. Waits are the back-off of attempts 1..N-1 |
| Http.DefaultRetryIsRalFailure | base/http.go:589-591 | the default policy retries exactly the ral failures that are not a 4xx response without transport error |
| Mysql.CheckConf | base/mysql.go:38-61 | zero settings take their defaults: 10 idle, 1000 open, 3600 s lifetime, 3 s connect, 1 s write and 1 s read. Non-zero settings are kept. LogMode is forced on. Names and credentials are kept |
| Mysql.CheckConfIdempotent | base/mysql.go:38-61 | after defaulting no setting is zero, so defaulting again changes nothing |
| Mysql.InitMysqlClient | base/mysql.go:218-259 | an open error is returned as is; otherwise the pool limits come from the defaulted configuration; logging is on; the logger's service is Service, or DataBase when Service is empty |
| Mysql.IsPrintable | base/mysql.go:209-216 | true exactly when every rune is printable; "" is printable |
| Mysql.SplitQ | base/mysql.go:149 | `Split(t, -1)` on '?': one more piece than there are '?', none containing '?' |
| Mysql.SplitQJoin | base/mysql.go:149 | joining the pieces with '?' gives the statement back |
| Mysql.FormatQuestion | base/mysql.go:147-155 | the loop puts the k-th formatted value after piece k. This equals substituting values for '?' left to right, leaving '?' where values run out and appending the surplus values at the end |
| Mysql.InterleaveIsSubst | base/mysql.go:147-155 | the interleaving equals the left-to-right substitution plus the surplus |
| Mysql.GormLogFormat | base/mysql.go:100-207 | fewer than two values log nothing. A "sql" record crashes, as Go panics, exactly when a position is missing or one of the type assertions fails: the argument list at 4, the statement at 3, the duration at 2, the int64 at 5, or a non-nil seventh value that is not a context. Otherwise, when the statement has no `$n` placeholder, it is the "mysql do success" line with the substituted statement, the context's log id and request id ("" without a context) and the affected rows |
| Redis.CheckConf | redis/redis.go:28-47 | zero settings take their defaults: 100 idle, 100 active, 10 ms idle timeout, and 1 s each for connect, read and write; others are kept |
| Redis.CheckConfIdempotent | redis/redis.go:28-47 | after defaulting no setting is zero, and defaulting is idempotent |
| Redis.InitRedisClient | redis/redis.go:56-91 | never an error; the pool takes the defaulted limits and waits for a free connection; service and address are copied |
| Redis.TestOnBorrow | redis/redis.go:77-83 | no PING under a minute of idle time, the PING's outcome after; its meaning is stated by Redis.BorrowCheck |
| Redis.BorrowCheck | redis/redis.go:77-83 | the borrow check is monotone in idle time: a connection that passes after a long idle passes after any shorter one with the same PING outcome; a refusal is always PING's own error; under a minute the PING outcome does not matter |
| Redis.Stats | redis/redis.go:140-146 | in-use plus idle equals active; in-use is non-negative when idle ≤ active |
| RedisPipeline.Put | redis/pipeline.go:36-46 | no args is "no key found in args" and the queue is unchanged; otherwise the command is appended at the end |
| RedisPipeline.PutKeepsOrder | redis/pipeline.go:36-46 | two puts queue their commands in call order behind the earlier ones |
| RedisPipeline.Exec | redis/pipeline.go:48-93 | every queued command is sent in order. A flush error returns no replies, is stored on the pipeline and gives ral code -1. Otherwise one reply per command is recorded on that command, the returned error is the last receive's, and the queue is kept |
| XlogUtil.GetString | xlog/util.go:39 | gin's GetString: the stored string, "" when missing or not a string |
| XlogUtil.CanonicalKey | xlog/util.go:46-48 | MIME header canonicalisation keeps the key's length and changes only the case of its characters |
| XlogUtil.CanonicalIgnoresCase | xlog/util.go:46-48 | two keys of token characters that differ only in case have the same canonical form, so the `X_LOGID` and `x_logid` lookups read one header |
| XlogUtil.HeaderGet | xlog/util.go:46-48 | the first value under the canonical key, "" when absent |
| XlogUtil.HeaderGetIgnoresCase | xlog/util.go:46-48 | a header lookup ignores the case of the name it is given (for names of token characters) |
| XlogUtil.LogIdHeadersCoincide | xlog/util.go:19-23 | X_LOGID and x_logid name the same header, so the fallback lookup reads the same value |
| XlogUtil.GenValue | xlog/util.go:93-94 | the nanosecond clock taken as uint64, low 31 bits kept and bit 31 set: a value in [2^31, 2^32-1] |
| XlogUtil.GenRequestId | xlog/util.go:91-96 | the generated id is ten decimal digits and parses back to that value |
| XlogUtil.GetLogID | xlog/util.go:28-58 | no context gives a fresh id. A cached id wins. Then the X_LOGID header, then x_logid, then a fresh id, which is cached. Never empty |
| XlogUtil.GetLogIDStable | xlog/util.go:38-41 | asking again returns the cached id, whatever the clock says, and changes nothing |
| XlogUtil.GetRequestID | xlog/util.go:60-89 | no context gives a fresh id. A cached id wins. Then the Uber-Trace-Id header, then a fresh id, which is cached. Never empty |
| XlogUtil.GetRequestIDStable | xlog/util.go:71-74 | asking again returns the cached id and leaves the log id alone |
| XlogUtil.SetNoLogFlag | xlog/util.go:139-141 | sets the `_no_log` key and keeps every other key |
| XlogUtil.NoLog | xlog/util.go:143-152 | true exactly when a context holds the boolean true under `_no_log` |
| XlogUtil.NoLogAfterSet | xlog/util.go:139-152 | after SetNoLogFlag, NoLog holds |
| XlogUtil.AddNotice | xlog/util.go:99-108 | writes the key only when the metadata carries a notice map, otherwise nothing changes |
| XlogUtil.GetCustomerKeyValue | xlog/util.go:111-126 | the notice map exactly when the metadata carries one, nil otherwise |
| XlogUtil.AddThenGetNotice | xlog/util.go:99-126 | an added notice can be read back where there is a notice map; without one nothing is stored |
| JsonEncoder.GetLevelType | xlog/json_encoder.go:63-68 | the normal file exactly for levels up to Info; the split is stated by JsonEncoder.LevelTypeSplit |
| JsonEncoder.LevelTypeSplit | xlog/json_encoder.go:63-68 | the file split is monotone in the level; Debug and Info go to the normal file, Warn through Fatal to the warn/fatal file |
| JsonEncoder.Topic | xlog/json_encoder.go:44-48 | a leading `_tp` field among two or more names the topic and is dropped, otherwise "server"; what may be dropped is stated by JsonEncoder.TopicDropsOnlyTopicField |
| JsonEncoder.TopicDropsOnlyTopicField | xlog/json_encoder.go:44-48 | only the topic field is ever dropped: either the topic is "server" and the fields are kept, or they are the `_tp` field naming the topic followed by those left; a non-empty field list never becomes empty |
| JsonEncoder.EncodeEntry | xlog/json_encoder.go:42-61 | off docker, or without a buffer, the inner encoder's answer is returned untouched; on docker the buffer gets the prefix "tt= tp=" + tail + " "; the error is the inner one |
| JsonEncoder.PrefixIsRemovable | xlog/json_encoder.go:55-59 | cutting the prefix off the output recovers the inner encoding |
| JsonEncoder.LoneTopicFieldKept | xlog/json_encoder.go:45 | a lone `_tp` field is not taken as a topic and stays in the fields |
| AccessLog.RemoveNewlines | middleware/accesslog.go:33 | the result has no newline and is no longer than the input |
| AccessLog.RemoveNewlinesKeepsText | middleware/accesslog.go:33 | text without newlines is unchanged, and removing twice is removing once |
| AccessLog.WriteString | middleware/accesslog.go:32-38 | the newline-free text is recorded (when capturing) and sent; the count is of the bytes sent |
| AccessLog.Write | middleware/accesslog.go:40-50 | bytes are recorded and sent unchanged |
| AccessLog.CapturedIsSent | middleware/accesslog.go:32-50 | each write keeps the captured copy equal to what was sent |
| AccessLog.NewBodyLogWriter | middleware/accesslog.go:77-82 | with a positive response limit the writer starts capturing, empty |
| AccessLog.CaptureMatchesResponse | middleware/accesslog.go:32-50 | whatever the handlers write, the captured body is exactly what reached the client |
| AccessLog.LoggedResponseIsSentPrefix | middleware/accesslog.go:77-98 | the logged response is the first at most 10240 bytes the client received, all of them when shorter |
| AccessLog.Truncate | middleware/accesslog.go:93-97 | a prefix of at most n bytes; the whole when short enough |
| AccessLog.LoggedResponse | middleware/accesslog.go:91-98 | the captured body cut to 10240 bytes, "" without a capture |
| AccessLog.FirstContained | middleware/accesslog.go:103-118 | the first list entry contained in the path, and none before it |
| AccessLog.BodyText | middleware/accesslog.go:100-122 | a path matching an mcpack URI logs the body's numbers; else a path matching an ignore URI logs nothing; else the raw body |
| AccessLog.McpackBeforeIgnore | middleware/accesslog.go:103-119 | an mcpack match wins over an ignore match |
| AccessLog.FormatByteSlice | middleware/accesslog.go:105 | `%v` of a byte slice is bracketed |
| AccessLog.RequestParam | middleware/accesslog.go:100-130 | the body text, "&" + query when there is a query, the whole cut to 10240 bytes |
| AccessLog.GetReqValueByKey | middleware/accesslog.go:178-183 | the first form value under the key, "" when missing or empty |
| AccessLog.GetReqValueIsFirstPair | middleware/accesslog.go:178-183 | on a form parsed from key=value pairs, the value is that of the first pair under the key, "" when no pair has it; the key is in the form exactly when some pair has it |
| GoStrings.TrimRight | middleware/accesslog.go:190 | `strings.TrimRight` with a one-character cutset: a prefix that does not end in the character, with only that character removed after it |
| AccessLog.GetCookieAsWritten | middleware/accesslog.go:185-191 | as written the rendering never ends in '&' |
| AccessLog.GetCookie | middleware/accesslog.go:185-191 | corrected: the "name=value" pairs joined with '&', starting with the first pair |
| AccessLog.GetCookieAgrees | middleware/accesslog.go:185-191 | the two agree when the last cookie's value does not end in '&' |
| AccessLog.GetCookieDiffers | middleware/accesslog.go:185-191 | conversely, whenever the last cookie's value ends in '&' the two renderings differ, so they agree exactly when it does not |
| AccessLog.TrailingAmpLost | middleware/accesslog.go:185-191 | a single cookie a="b&" renders as "a=b" as written and "a=b&" corrected |
| Env.IsDockerPlatform | env/env.go:46-48 | the platform flag `Init` fixed; that no setter changes it is stated by Env.DockerIsFixed |
| Env.GetAppName | env/env.go:57-59 | the current app name; that a docker process keeps APP_NAME is stated by Env.DockerKeepsAppName |
| Env.GetConfDirPath | env/env.go:78-80 | "conf" joined under the root; the root it uses is stated by Env.DirsUnderRoot |
| Env.GetLogDirPath | env/env.go:83-85 | "log" joined under the root; the root it uses is stated by Env.DirsUnderRoot |
| Env.Init | env/env.go:27-43 | the platform is docker exactly when CLUSTER_TYPE is non-empty, in release mode; there the app name comes from APP_NAME; no root path is set |
| Env.SetAppName | env/env.go:51-55 | changes the name only off docker, and nothing else |
| Env.SetRootPath | env/env.go:62-66 | changes the root only off docker, and nothing else |
| Env.GetRootPath | env/env.go:69-75 | never empty: the set root, else "." |
| Env.DockerIsFixed | env/env.go:46-66 | no setter changes the platform flag; on docker no setter changes anything |
| Env.SetThenGetRoot | env/env.go:62-75 | off docker the last root set is read back, "" falling back to "."; on docker the root stays "." |
| Env.DockerKeepsAppName | env/env.go:36-59 | a docker process keeps APP_NAME whatever it sets |
| Env.DirsUnderRoot | env/env.go:78-85 | the configuration and log directories are "conf" and "log" under the same root, the set one off docker and "." otherwise |
| GoStrings.TrimLeft | env/secret.go:10 | `strings.TrimLeft` with a one-character cutset: a suffix that does not start with the character, with only that character removed before it |
| GoStrings.TrimLeftRun | env/secret.go:10 | a leading run of the character in front of a text that does not start with it is removed exactly |
| GoStrings.TrimRightRun | env/secret.go:10 | a trailing run of the character after a text that does not end with it is removed exactly |
| Secret.SecretFileName | env/secret.go:10 | the name neither starts with '@' nor ends with '.' |
| Secret.SecretFileNameOfDecorated | env/secret.go:10 | a run of '@', a core and a run of '.' give back the core |
| Secret.MysqlSecretFile | base/mysql.go:36 | the MySQL prefix "@@mysql." names the file "mysql" |
| Secret.SecretPath | env/secret.go:11 | the loaded file is `<conf dir>/secret/<name>.secret.yaml` |
| Secret.SecretValue | env/secret.go:43 | the stored secret, "" for a missing key |
| Secret.CommonSecretChange | env/secret.go:20-50 | A non-struct source, a non-pointer destination or missing secrets change nothing. Otherwise only settable string fields, among the first NumField of the source, whose value starts with the prefix change, each to the secret under the text after the prefix. A source with more fields than the destination panics |

## Left out

- Concurrency: mutexes, `sync.Map` iteration order (Put's "any waiter" is an index parameter), channel blocking and `time.After` are reduced to a sequential state machine; clocks are parameters.
- Pool.Get: the idle store is modelled as an ordered queue; the blocking receive of a waiter is split into `Get` returning `Waiting`, `Wake` and `TimeOut`.
- ExBytes.Replace: with an empty pattern and a longer replacement, `bytes.Replace` inserts between UTF-8 runes; the model inserts between bytes.
- ExBytes.Replace: `old` and `new` are values here. When they are slices of `s`'s own storage, Go reads them after the loop may have overwritten them (s = "yxy", old = s[0:1], new = s[1:2], n = -1 gives "xxy", where the model gives "xxx"); such aliasing is not modelled.
- ExStrings.Reverse: a string is its rune sequence; invalid UTF-8 (which Go turns into U+FFFD) is not modelled.
- ExStrings.Repeat: modelled from the panic conditions its comment documents; `RepeatToBytes` is not part of this model, and `exstrings.Replace` (a wrapper over `UnsafeReplaceToBytes`, not part of this model) is left out.
- ExStrings.Join: lists of four or more go through `JoinToBytes`, which is not part of this model; they are given the join's documented meaning.
- `UnsafeToBytes`, `exbytes.ToString` and the float conversions of `exnum` (which decode little-endian but encode big-endian) are left out: unsafe memory tricks and floating point.
- Mysql.GormLogFormat: the `$n` placeholder branch (regular expressions), the "log" record branch, the per-type value rendering (reflection) and the floating-point cost field are left out; values arrive already rendered, and a context arrives as the strings it holds under the two id keys.
- Mysql.IsPrintable: the caller's `string(b)` turns invalid UTF-8 into U+FFFD, which Go counts as printable; the model starts from a string of runes, so byte slices that are not UTF-8 are not modelled.
- Mysql.CheckConf: the secret substitution at base/mysql.go:39 is modelled separately as `Secret.CommonSecretChange`; CheckConf starts from the substituted configuration.
- Mysql.InitMysqlClient: the DSN text, gorm itself and the tracer callbacks are left out; the open error is a parameter.
- Http.HttpDo: request-body rewinding, draining, the HTTP client initialisation, `GetTransPort`, `InitHttp`, the trace timing and the log fields other than httpCode and ralCode are left out; the back-off sleep is recorded, not slept.
- Http.HttpPostRequest: headers, cookies, basic auth and the SERVICE / trace / log-id headers set by `makeRequest` are left out.
- Redis: `Do`, `Close`, dialling and redigo's pool are left out (network); `TestOnBorrow` receives the PING outcome.
- RedisPipeline.Exec: the per-command send errors, which the code overwrites, and the log line are left out.
- XlogUtil: the panic recovery in GetLogID / GetRequestID, `PrintNotice` (logging only), and the logger wrappers are left out.
- JsonEncoder.EncodeEntry: zap's JSON encoder and `appendLogFileTail` are parameters.
- AccessLog: the handler body (timing, logging, gin context plumbing) and the `AddNotice` middleware are left out; the URI lists are parameters (the package variables are empty).
- Env.GetConfDirPath: `filepath.Join` (with its path cleaning) is a parameter.
- Env.Init: the local IP lookup and the console messages are left out.
- Secret.CommonSecretChange: reflection is replaced by a list of the destination's fields; the YAML loading is the `secrets` parameter; on a panic the fields already changed are not reported.
- ExNum decoders require enough bytes: Go panics on a shorter slice.

## Findings

| source | as written | input that shows it | evidently intended | confidence | as-written member | corrected member |
|---|---|---|---|---|---|---|
| pool/channel.go:188-196 | after the wait timeout the key is deleted and the code does a receive with no default on a channel nobody can write to any more | a waiting Get whose timer fires before any Put served it | return ErrExceedMaxWaitTimeout, recycling a hand-off that raced the timer | high, not executed | Pool.TimeOutAsWritten, PoolProps.TimedOutWaiterBlocksForever | Pool.TimeOut, PoolProps.TimeOutEndsTheWait |
| base/http.go:344 | `HttpPostJson` stores the encoding name "_json" in `BodyType`, which `makeRequest` sends verbatim as the Content-Type | any HttpPostJson call without a BodyType: the header is `Content-Type: _json` | application/json, as the options' comment promises (base/http.go:78-81) | high, not executed | Http.HttpPostJsonAsWritten, Http.PostJsonContentType | Http.HttpPostJson, Http.PostJsonContentType |
| middleware/accesslog.go:190 | `TrimRight(cStr, "&")` removes every trailing '&', including those ending the last cookie's value | one cookie a with value "b&" logs "a=b" | drop only the separator after the last pair | medium, not executed | AccessLog.GetCookieAsWritten, AccessLog.TrailingAmpLost | AccessLog.GetCookie, AccessLog.GetCookieAgrees, AccessLog.GetCookieDiffers |
