/** The log-id and request-id helpers of `xlog/util.go` over a model of the gin
    request context: the key/value store `ctx.Keys`, the request headers, and the
    notice map kept in the request's metadata. The clock reading that seeds a generated
    id is a parameter. */
module XlogUtil {
  import opened Wrappers
  import opened JoinInt

  const ContextKeyRequestID: string := "requestId"
  const ContextKeyLogID: string := "logID"
  const ContextKeyNoLog: string := "_no_log"

  const TraceHeaderKey: string := "Uber-Trace-Id"
  const LogIDHeaderKey: string := "X_LOGID"
  const LogIDHeaderKeyLower: string := "x_logid"

  /** A value stored in the context: a string, a boolean, or anything else. */
  datatype Val = VStr(s: string) | VBool(b: bool) | VOther(id: nat)

  /** The notice slot of the request metadata: absent, a `map[string]interface{}`, or a
      value of another type. */
  datatype Notice = NoNotice | NoticeMap(m: map<string, Val>) | NotAMap

  /** A gin context: its keys, the request headers when there is a request with a
      header (keys in canonical form, as the server stores them), and the request
      metadata when the context carries it. */
  datatype Ctx = Ctx(keys: map<string, Val>, header: Option<map<string, seq<string>>>, meta: Option<Notice>)

  /** `ctx.GetString`: the string stored under `key`, or "" when there is none or it is
      not a string. */
  function GetString(c: Ctx, key: string): (r: string)
    ensures key in c.keys && c.keys[key].VStr? ==> r == c.keys[key].s
    ensures !(key in c.keys && c.keys[key].VStr?) ==> r == ""
  {
    if key in c.keys && c.keys[key].VStr? then c.keys[key].s else ""
  }

  /** A byte that may appear in a header field name (an RFC 7230 token character). */
  predicate IsTokenChar(ch: char)
  {
    ('a' <= ch <= 'z') || ('A' <= ch <= 'Z') || ('0' <= ch <= '9') || ch in "!#$%&'*+-.^_`|~"
  }

  function Upper(ch: char): char
  {
    if 'a' <= ch <= 'z' then (ch as int - 32) as char else ch
  }

  function Lower(ch: char): char
  {
    if 'A' <= ch <= 'Z' then (ch as int + 32) as char else ch
  }

  /** `textproto.CanonicalMIMEHeaderKey`: the first letter and every letter after a '-'
      upper case, the others lower case; a key with a character that is not a token
      character is left as it is. */
  function CanonicalKey(key: string): (r: string)
    ensures |r| == |key|
    ensures forall k | 0 <= k < |key| :: Lower(r[k]) == Lower(key[k])
  {
    if exists k | 0 <= k < |key| :: !IsTokenChar(key[k]) then key
    else seq(|key|, k requires 0 <= k < |key| => CaseAt(key, k))
  }

  /** The case `CanonicalKey` gives character `k`: upper at the start and after '-'. */
  function CaseAt(key: string, k: nat): (r: char)
    requires k < |key|
    ensures Lower(r) == Lower(key[k])
  {
    if k == 0 || key[k - 1] == '-' then Upper(key[k]) else Lower(key[k])
  }

  /** `Header.Get`: the first value stored under the canonical form of `key`, or "". */
  function HeaderGet(h: map<string, seq<string>>, key: string): (r: string)
    ensures var ck := CanonicalKey(key); ck !in h || h[ck] == [] ==> r == ""
    ensures var ck := CanonicalKey(key); ck in h && h[ck] != [] ==> r == h[ck][0]
  {
    var ck := CanonicalKey(key);
    if ck in h && h[ck] != [] then h[ck][0] else ""
  }

  /** The two log-id header names are one header: both canonicalise to "X_logid", so the
      lower-case fallback reads the same values as the first lookup. */
  lemma LogIdHeadersCoincide(h: map<string, seq<string>>)
    ensures CanonicalKey(LogIDHeaderKey) == CanonicalKey(LogIDHeaderKeyLower) == "X_logid"
    ensures HeaderGet(h, LogIDHeaderKey) == HeaderGet(h, LogIDHeaderKeyLower)
  {
    CanonicalLogIdUpper();
    CanonicalLogIdLower();
  }

  lemma CanonicalLogIdUpper()
    ensures CanonicalKey(LogIDHeaderKey) == "X_logid"
  {
    assert forall k | 0 <= k < |LogIDHeaderKey| :: IsTokenChar(LogIDHeaderKey[k]);
  }

  lemma CanonicalLogIdLower()
    ensures CanonicalKey(LogIDHeaderKeyLower) == "X_logid"
  {
    assert forall k | 0 <= k < |LogIDHeaderKeyLower| :: IsTokenChar(LogIDHeaderKeyLower[k]);
  }

  /** Canonicalisation ignores case: two keys of token characters that differ only in
      the case of their letters have the same canonical form. */
  lemma {:induction false} CanonicalIgnoresCase(a: string, b: string)
    requires |a| == |b|
    requires forall k | 0 <= k < |a| :: IsTokenChar(a[k])
    requires forall k | 0 <= k < |a| :: Lower(a[k]) == Lower(b[k])
    ensures CanonicalKey(a) == CanonicalKey(b)
  {
    forall k | 0 <= k < |b|
      ensures IsTokenChar(b[k])
      ensures Upper(a[k]) == Upper(b[k])
    {
      LowerDecides(a[k], b[k]);
    }
    assert !exists k | 0 <= k < |b| :: !IsTokenChar(b[k]);
    forall k | 0 <= k < |a|
      ensures CanonicalKey(a)[k] == CanonicalKey(b)[k]
    {
      if k > 0 {
        LowerDecides(a[k - 1], b[k - 1]);
      }
    }
  }

  /** So a header lookup ignores the case of the name it is given. */
  lemma HeaderGetIgnoresCase(h: map<string, seq<string>>, a: string, b: string)
    requires |a| == |b|
    requires forall k | 0 <= k < |a| :: IsTokenChar(a[k])
    requires forall k | 0 <= k < |a| :: Lower(a[k]) == Lower(b[k])
    ensures HeaderGet(h, a) == HeaderGet(h, b)
  {
    CanonicalIgnoresCase(a, b);
  }

  /** A character is decided up to case by its lower-case form. */
  lemma LowerDecides(x: char, y: char)
    requires IsTokenChar(x) && Lower(x) == Lower(y)
    ensures IsTokenChar(y) && Upper(x) == Upper(y)
    ensures x == '-' <==> y == '-'
  {
  }

  /** The value `genRequestId` formats: the clock's nanoseconds as `uint64`, masked with
      0x7FFFFFFF (keeping the low 31 bits) and or-ed with 0x80000000 (setting bit 31,
      which the mask has just cleared). */
  function GenValue(nanos: int): (r: nat)
    ensures 0x8000_0000 <= r <= 0xFFFF_FFFF
  {
    var usec := nanos % 0x1_0000_0000_0000_0000;
    usec % 0x8000_0000 + 0x8000_0000
  }

  /** `genRequestId`: the decimal form of `GenValue`. */
  function GenRequestId(nanos: int): (r: string)
    ensures |r| == 10
    ensures forall k | 0 <= k < |r| :: '0' <= r[k] <= '9'
    ensures ParseInt(r) == GenValue(nanos)
  {
    var v := GenValue(nanos);
    Pow10Values();
    DigitsLength(v, 10);
    FormatUintIsFormatInt(v);
    FormatUint(v)
  }

  /** `GetLogID`: without a context, a fresh id and nothing stored. Otherwise a cached
      non-empty id wins; then the `X_LOGID` header, then `x_logid`, then a fresh id; the
      result is cached in the context. */
  function GetLogID(ctx: Option<Ctx>, nanos: int): (r: (string, Option<Ctx>))
    ensures ctx.None? ==> r == (GenRequestId(nanos), None)
    ensures ctx.Some? && GetString(ctx.value, ContextKeyLogID) != "" ==> r == (GetString(ctx.value, ContextKeyLogID), ctx)
    ensures ctx.Some? && GetString(ctx.value, ContextKeyLogID) == "" ==>
              && r.1 == Some(ctx.value.(keys := ctx.value.keys[ContextKeyLogID := VStr(r.0)]))
              && (var h := ctx.value.header;
                  if h.Some? && HeaderGet(h.value, LogIDHeaderKey) != "" then r.0 == HeaderGet(h.value, LogIDHeaderKey)
                  else if h.Some? && HeaderGet(h.value, LogIDHeaderKeyLower) != "" then r.0 == HeaderGet(h.value, LogIDHeaderKeyLower)
                  else r.0 == GenRequestId(nanos))
    ensures r.0 != ""
  {
    match ctx
    case None => (GenRequestId(nanos), None)
    case Some(c) =>
      var cached := GetString(c, ContextKeyLogID);
      if cached != "" then (cached, ctx)
      else
        var fromHeader :=
          if c.header.None? then ""
          else if HeaderGet(c.header.value, LogIDHeaderKey) != "" then HeaderGet(c.header.value, LogIDHeaderKey)
          else HeaderGet(c.header.value, LogIDHeaderKeyLower);
        var id := if fromHeader == "" then GenRequestId(nanos) else fromHeader;
        (id, Some(c.(keys := c.keys[ContextKeyLogID := VStr(id)])))
  }

  /** Once `GetLogID` has answered, it keeps answering the same: the second call returns
      the cached id, whatever the clock says, and changes nothing. */
  lemma GetLogIDStable(c: Ctx, nanos: int, nanos': int)
    ensures var (id, c') := GetLogID(Some(c), nanos);
      GetLogID(c', nanos') == (id, c')
  {
  }

  /** `GetRequestID`: without a context, a fresh id. Otherwise the cached id, then the
      `Uber-Trace-Id` header, then a fresh id; the result is cached. */
  function GetRequestID(ctx: Option<Ctx>, nanos: int): (r: (string, Option<Ctx>))
    ensures ctx.None? ==> r == (GenRequestId(nanos), None)
    ensures ctx.Some? && GetString(ctx.value, ContextKeyRequestID) != "" ==> r == (GetString(ctx.value, ContextKeyRequestID), ctx)
    ensures ctx.Some? && GetString(ctx.value, ContextKeyRequestID) == "" ==>
              && r.1 == Some(ctx.value.(keys := ctx.value.keys[ContextKeyRequestID := VStr(r.0)]))
              && (var h := ctx.value.header;
                  if h.Some? && HeaderGet(h.value, TraceHeaderKey) != "" then r.0 == HeaderGet(h.value, TraceHeaderKey)
                  else r.0 == GenRequestId(nanos))
    ensures r.0 != ""
  {
    match ctx
    case None => (GenRequestId(nanos), None)
    case Some(c) =>
      var cached := GetString(c, ContextKeyRequestID);
      if cached != "" then (cached, ctx)
      else
        var fromHeader := if c.header.None? then "" else HeaderGet(c.header.value, TraceHeaderKey);
        var id := if fromHeader == "" then GenRequestId(nanos) else fromHeader;
        (id, Some(c.(keys := c.keys[ContextKeyRequestID := VStr(id)])))
  }

  /** The request id is cached too: asking again returns the same id. The log id and the
      request id live under different keys, so asking for one leaves the other alone. */
  lemma GetRequestIDStable(c: Ctx, nanos: int, nanos': int)
    ensures var (id, c') := GetRequestID(Some(c), nanos);
      GetRequestID(c', nanos') == (id, c')
    ensures var (_, c') := GetRequestID(Some(c), nanos);
      GetString(c'.value, ContextKeyLogID) == GetString(c, ContextKeyLogID)
  {
  }

  /** `SetNoLogFlag`: store boolean true under "_no_log". */
  function SetNoLogFlag(c: Ctx): (r: Ctx)
    ensures r.keys.Keys == c.keys.Keys + {ContextKeyNoLog}
    ensures forall k | k in c.keys && k != ContextKeyNoLog :: r.keys[k] == c.keys[k]
    ensures r.header == c.header && r.meta == c.meta
  {
    c.(keys := c.keys[ContextKeyNoLog := VBool(true)])
  }

  /** `NoLog`: true exactly when "_no_log" holds boolean true; false without a context. */
  function NoLog(ctx: Option<Ctx>): (r: bool)
    ensures ctx.None? ==> !r
    ensures ctx.Some? ==> (r <==> ContextKeyNoLog in ctx.value.keys && ctx.value.keys[ContextKeyNoLog] == VBool(true))
  {
    ctx.Some? && ContextKeyNoLog in ctx.value.keys && ctx.value.keys[ContextKeyNoLog] == VBool(true)
  }

  /** Setting the flag makes `NoLog` answer true. */
  lemma NoLogAfterSet(c: Ctx)
    ensures NoLog(Some(SetNoLogFlag(c)))
  {
  }

  /** `AddNotice`: writes `key` into the notice map when the context carries metadata
      whose notice slot is a map; otherwise nothing changes. */
  function AddNotice(c: Ctx, key: string, v: Val): (r: Ctx)
    ensures r.keys == c.keys && r.header == c.header
    ensures !(c.meta.Some? && c.meta.value.NoticeMap?) ==> r == c
    ensures c.meta.Some? && c.meta.value.NoticeMap? ==> r.meta == Some(NoticeMap(c.meta.value.m[key := v]))
  {
    match c.meta
    case Some(NoticeMap(m)) => c.(meta := Some(NoticeMap(m[key := v])))
    case _ => c
  }

  /** `GetCustomerKeyValue`: the notice map, or nil without metadata or a notice map. */
  function GetCustomerKeyValue(c: Ctx): (r: Option<map<string, Val>>)
    ensures r.Some? <==> c.meta.Some? && c.meta.value.NoticeMap?
    ensures r.Some? ==> r.value == c.meta.value.m
  {
    match c.meta
    case Some(NoticeMap(m)) => Some(m)
    case _ => None
  }

  /** A notice added where there is a notice map can be read back; where there is none,
      adding is lost and reading gives nil. */
  lemma AddThenGetNotice(c: Ctx, key: string, v: Val)
    ensures var r := GetCustomerKeyValue(AddNotice(c, key, v));
      && (GetCustomerKeyValue(c).Some? ==> r.Some? && key in r.value && r.value[key] == v)
      && (GetCustomerKeyValue(c).None? ==> r.None?)
  {
  }
}
