/** The decision rules of the HTTP client in `base/http.go`: how a request body is
    chosen and encoded, which Content-Type is sent, how the GET URL is built, the retry
    loop's control, and the ral code logged for a finished request. The network, the
    JSON / mcpack / URL encoders and the clock are parameters. */
module Http {
  import opened Wrappers

  const EncodeJson: string := "_json"
  const EncodeForm: string := "_form"
  const EncodeMcPack: string := "_mcPack"

  const ContentTypeJson: string := "application/json"
  const ContentTypeForm: string := "application/x-www-form-urlencoded"

  /** A value held in an `interface{}` map: a Go string, or anything else. */
  datatype Value = Str(s: string) | Other(id: nat)

  /** A request body as the form encoder tells it apart: `map[string]string`,
      `map[string]interface{}`, or a value of any other type. */
  datatype Body =
    | StringMap(strs: map<string, string>)
    | AnyMap(vals: map<string, Value>)
    | OtherBody(v: Value)

  /** The encoders the client calls and does not define. `json` and `mcpack` may fail
      (the message is returned); `valueJson` is jsoniter on one map value, `None` when it
      fails; `urlEncode` is `url.Values.Encode` of single-valued keys. */
  datatype Codecs = Codecs(
    json: Body -> Result<string, string>,
    mcpack: Body -> Result<string, string>,
    valueJson: Value -> Option<string>,
    urlEncode: map<string, string> -> string)

  /** `HttpRequestOptions`, without headers and cookies. */
  datatype Options = Options(
    requestBody: Option<Body>,
    encode: string,
    data: map<string, string>,
    jsonBody: Option<Body>,
    bodyType: string)

  datatype EncodeError = Unsupported | Marshal(msg: string)

  /** `GetContentType`: JSON for "_json"; every other encoding, known or not, is sent
      as a form. */
  function GetContentType(o: Options): (r: string)
    ensures r == ContentTypeJson <==> o.encode == EncodeJson
    ensures r != ContentTypeJson ==> r == ContentTypeForm
  {
    match o.encode
    case "_json" => ContentTypeJson
    case "_mcPack" => ContentTypeForm
    case "_form" => ContentTypeForm
    case _ => ContentTypeForm
  }

  /** The Content-Type header `makeRequest` sets: an explicit `BodyType` wins. */
  function RequestContentType(o: Options): (r: string)
    ensures o.bodyType != "" ==> r == o.bodyType
    ensures o.bodyType == "" ==> r == GetContentType(o)
  {
    if o.bodyType == "" then GetContentType(o) else o.bodyType
  }

  /** The form values of a `map[string]interface{}`: strings as they are, other values
      through jsoniter; `None` as soon as one value cannot be encoded. */
  function FormValues(vals: map<string, Value>, c: Codecs): (r: Option<map<string, string>>)
    ensures r.Some? <==> forall k | k in vals && !vals[k].Str? :: c.valueJson(vals[k]).Some?
    ensures r.Some? ==> r.value.Keys == vals.Keys
    ensures r.Some? ==> forall k | k in vals && vals[k].Str? :: r.value[k] == vals[k].s
  {
    if forall k | k in vals && !vals[k].Str? :: c.valueJson(vals[k]).Some? then
      Some(map k | k in vals :: if vals[k].Str? then vals[k].s else c.valueJson(vals[k]).value)
    else None
  }

  /** `GetRequestData`: no body encodes to ""; "_json" and "_mcPack" use their encoders;
      any other encoding is a form, which only the two map types can be. */
  function GetRequestData(o: Options, c: Codecs): (r: Result<string, EncodeError>)
    ensures o.requestBody.None? ==> r == Ok("")
    ensures o.requestBody.Some? && o.encode != EncodeJson && o.encode != EncodeMcPack ==>
              (r == Err(Unsupported) <==> o.requestBody.value.OtherBody?)
    ensures o.requestBody.Some? && o.requestBody.value.StringMap? && o.encode != EncodeJson && o.encode != EncodeMcPack ==>
              r == Ok(c.urlEncode(o.requestBody.value.strs))
  {
    match o.requestBody
    case None => Ok("")
    case Some(body) =>
      if o.encode == EncodeJson then Lift(c.json(body))
      else if o.encode == EncodeMcPack then Lift(c.mcpack(body))
      else
        match body
        case StringMap(strs) => Ok(c.urlEncode(strs))
        case AnyMap(vals) =>
          (match FormValues(vals, c)
           case None => Err(Marshal("value not encodable"))
           case Some(form) => Ok(c.urlEncode(form)))
        case OtherBody(_) => Err(Unsupported)
  }

  function Lift(e: Result<string, string>): (r: Result<string, EncodeError>)
    ensures r.Ok? <==> e.Ok?
  {
    match e
    case Ok(s) => Ok(s)
    case Err(m) => Err(Marshal(m))
  }

  /** `GetData`: the old `Data` map wins when non-empty, then `JsonBody`, then
      `RequestBody`. */
  function GetData(o: Options, c: Codecs): (r: Result<string, EncodeError>)
    ensures |o.data| > 0 ==> r == Ok(c.urlEncode(o.data))
    ensures |o.data| == 0 && o.jsonBody.Some? ==> r == Lift(c.json(o.jsonBody.value))
    ensures |o.data| == 0 && o.jsonBody.None? ==> r == GetRequestData(o, c)
  {
    if |o.data| > 0 then Ok(c.urlEncode(o.data))
    else if o.jsonBody.Some? then Lift(c.json(o.jsonBody.value))
    else GetRequestData(o, c)
  }

  /** The sources of `GetData` are ranked: a non-empty `Data` map decides the body alone
      (and cannot fail), whatever `Encode`, `JsonBody` and `RequestBody` hold; without it a
      `JsonBody` decides alone, as `GetJsonData`; only then does `RequestBody` count. */
  lemma GetDataPriority(o: Options, o': Options, c: Codecs)
    ensures |o.data| > 0 ==> GetData(o, c) == Ok(c.urlEncode(o.data))
    ensures |o.data| > 0 && o'.data == o.data ==> GetData(o', c) == GetData(o, c)
    ensures |o.data| == 0 && o.jsonBody.Some? ==> GetData(o, c) == GetJsonData(o, c)
    ensures |o.data| == 0 && o'.data == o.data && o.jsonBody.Some? && o'.jsonBody == o.jsonBody ==>
              GetData(o', c) == GetData(o, c)
    ensures |o.data| == 0 && o.jsonBody.None? ==> GetData(o, c) == GetRequestData(o, c)
  {
  }

  /** The URL `HttpGet` requests: the query is attached only when there is one. */
  function GetUrl(domain: string, path: string, urlData: string): (r: string)
    ensures urlData == "" ==> r == domain + path
    ensures urlData != "" ==> r == domain + path + "?" + urlData
    ensures r[..|domain + path|] == domain + path
  {
    if urlData == "" then domain + path else domain + path + "?" + urlData
  }

  /** The two halves of a URL: the text before its first '?' and the query after it
      ("" when there is no '?'). */
  function SplitQuery(u: string): (r: (string, string))
    ensures '?' !in r.0
    ensures '?' !in u ==> r == (u, "")
  {
    if u == [] then ("", "")
    else if u[0] == '?' then ("", u[1..])
    else
      var (p, q) := SplitQuery(u[1..]);
      assert '?' !in u ==> [u[0]] + p == u by {
        if '?' !in u {
          assert '?' !in u[1..];
        }
      }
      ([u[0]] + p, q)
  }

  lemma {:induction false} SplitQueryAt(a: string, b: string)
    requires '?' !in a
    ensures SplitQuery(a + "?" + b) == (a, b)
  {
    if a == [] {
      assert a + "?" + b == "?" + b;
    } else {
      assert (a + "?" + b)[1..] == a[1..] + "?" + b;
      SplitQueryAt(a[1..], b);
      assert [a[0]] + a[1..] == a;
    }
  }

  /** `GetUrl` can be undone: when domain and path hold no '?', splitting the URL at its
      first '?' gives back domain + path and exactly the query data, empty or not. */
  lemma GetUrlSplits(domain: string, path: string, urlData: string)
    requires '?' !in domain + path
    ensures SplitQuery(GetUrl(domain, path, urlData)) == (domain + path, urlData)
  {
    if urlData != "" {
      SplitQueryAt(domain + path, urlData);
    }
  }

  /** `HttpGet` up to the request: an encoding error is returned before any request is
      made; otherwise the URL. */
  function HttpGetUrl(domain: string, path: string, o: Options, c: Codecs): (r: Result<string, EncodeError>)
    ensures GetData(o, c).Err? <==> r.Err?
    ensures GetData(o, c).Err? ==> r == Err(GetData(o, c).error)
    ensures GetData(o, c).Ok? ==> r == Ok(GetUrl(domain, path, GetData(o, c).value))
  {
    match GetData(o, c)
    case Err(e) => Err(e)
    case Ok(d) => Ok(GetUrl(domain, path, d))
  }

  /** A request as `makeRequest` builds it, up to the transport: the URL, the
      Content-Type header and the body. */
  datatype Request = Request(url: string, contentType: string, body: string)

  /** `HttpPost` up to the request: the body is `GetData`, posted to domain + path with
      the Content-Type `makeRequest` picks. An encoding error stops it first. */
  function HttpPostRequest(domain: string, path: string, o: Options, c: Codecs): (r: Result<Request, EncodeError>)
    ensures GetData(o, c).Err? ==> r == Err(GetData(o, c).error)
    ensures GetData(o, c).Ok? ==> r == Ok(Request(domain + path, RequestContentType(o), GetData(o, c).value))
  {
    match GetData(o, c)
    case Err(e) => Err(e)
    case Ok(d) => Ok(Request(domain + path, RequestContentType(o), d))
  }

  /** `GetJsonData`: the JSON text of `JsonBody`; a nil body marshals to "null". */
  function GetJsonData(o: Options, c: Codecs): (r: Result<string, EncodeError>)
    ensures o.jsonBody.None? ==> r == Ok("null")
    ensures o.jsonBody.Some? ==> (r.Ok? <==> c.json(o.jsonBody.value).Ok?)
  {
    if o.jsonBody.None? then Ok("null") else Lift(c.json(o.jsonBody.value))
  }

  /** A post built from `RequestBody` alone carries a body in the format its
      Content-Type names when `Encode` is "_json" or a form; an "_mcPack" body is sent
      under the form Content-Type. */
  lemma PostBodyMatchesContentType(domain: string, path: string, o: Options, c: Codecs)
    requires o.bodyType == "" && |o.data| == 0 && o.jsonBody.None? && o.requestBody.Some?
    requires HttpPostRequest(domain, path, o, c).Ok?
    ensures var q := HttpPostRequest(domain, path, o, c).value;
      && q.url == domain + path
      && (o.encode == EncodeJson ==> q.contentType == ContentTypeJson && c.json(o.requestBody.value) == Ok(q.body))
      && (o.encode == EncodeMcPack ==> q.contentType == ContentTypeForm && c.mcpack(o.requestBody.value) == Ok(q.body))
      && (o.encode != EncodeJson && o.encode != EncodeMcPack ==>
            && q.contentType == ContentTypeForm
            && (o.requestBody.value.StringMap? ==> q.body == c.urlEncode(o.requestBody.value.strs))
            && (o.requestBody.value.AnyMap? ==> q.body == c.urlEncode(FormValues(o.requestBody.value.vals, c).value)))
  {
  }

  /** A non-empty `Data` map is always posted URL-encoded, whatever Content-Type the
      encoding or `BodyType` names: with "_json" the header says application/json over a
      form-encoded body. */
  lemma DataIgnoresEncoding(domain: string, path: string, o: Options, c: Codecs)
    requires |o.data| > 0
    ensures HttpPostRequest(domain, path, o, c) == Ok(Request(domain + path, RequestContentType(o), c.urlEncode(o.data)))
    ensures o.encode == EncodeJson && o.bodyType == "" ==> HttpPostRequest(domain, path, o, c).value.contentType == ContentTypeJson
  {
  }

  /** `HttpPostJson` as written: it stores the encoding name "_json" in `BodyType`, and
      `makeRequest` sends a non-empty `BodyType` verbatim as the Content-Type. */
  function HttpPostJsonAsWritten(domain: string, path: string, o: Options, c: Codecs): (r: Result<Request, EncodeError>)
    ensures r.Ok? <==> GetJsonData(o, c).Ok?
    ensures r.Ok? ==> r.value.contentType == EncodeJson
  {
    match GetJsonData(o, c)
    case Err(e) => Err(e)
    case Ok(d) => Ok(Request(domain + path, RequestContentType(o.(bodyType := EncodeJson)), d))
  }

  /** `HttpPostJson` as the options' documentation describes it (JSON posts default to
      application/json): the constant names an encoding, so it belongs in `Encode`, where
      `GetContentType` maps it to application/json unless the caller set a `BodyType`. */
  function HttpPostJson(domain: string, path: string, o: Options, c: Codecs): (r: Result<Request, EncodeError>)
    ensures r.Ok? <==> GetJsonData(o, c).Ok?
    ensures r.Ok? ==> r.value.url == domain + path && r.value.body == GetJsonData(o, c).value
    ensures r.Ok? ==> r.value.contentType == (if o.bodyType != "" then o.bodyType else ContentTypeJson)
  {
    match GetJsonData(o, c)
    case Err(e) => Err(e)
    case Ok(d) => Ok(Request(domain + path, RequestContentType(o.(encode := EncodeJson)), d))
  }

  /** A JSON post without an explicit `BodyType`: as written the server is told the body
      is of type "_json"; corrected, it is told application/json. Only the header differs. */
  lemma PostJsonContentType(domain: string, path: string, o: Options, c: Codecs)
    requires o.bodyType == "" && GetJsonData(o, c).Ok?
    ensures HttpPostJsonAsWritten(domain, path, o, c).value.contentType == "_json"
    ensures HttpPostJson(domain, path, o, c).value.contentType == ContentTypeJson
    ensures HttpPostJsonAsWritten(domain, path, o, c).value.(contentType := ContentTypeJson) == HttpPostJson(domain, path, o, c).value
  {
  }

  /** A response as far as the client's decisions look at it. */
  datatype Response = Response(statusCode: int, body: seq<int>)

  /** One attempt as the outside world answers it: the response and the transport
      error `Do` returned, and whether the request's context is cancelled during the
      back-off wait that follows. */
  datatype Attempt = Attempt(resp: Option<Response>, err: Option<string>, cancelled: bool)

  /** Why a finished request reports an error. */
  datatype Cause = Transport(msg: string) | HitRetryPolicy

  datatype DoError =
    | Cancelled
      /** "giving up after N attempt(s)", wrapping the cause. */
    | GivingUp(attempts: nat, cause: Cause)

  /** What the retry loop leaves behind. `ralCode` is `None` when the loop is cut short by
      cancellation (the log fields are returned without it). */
  datatype DoResult = DoResult(attempts: nat, httpCode: int, waits: seq<int>, err: Option<DoError>, ralCode: Option<int>)

  type RetryPolicy = (Option<Response>, Option<string>) -> bool
  type BackOffPolicy = int -> int

  /** `defaultRetryPolicy`: retry on a transport error, a missing response, a 5xx or a
      zero status. */
  function DefaultRetry(resp: Option<Response>, err: Option<string>): (r: bool)
    ensures r <==> err.Some? || resp.None? || resp.value.statusCode >= 500 || resp.value.statusCode == 0
  {
    err.Some? || resp.None? || resp.value.statusCode >= 500 || resp.value.statusCode == 0
  }

  /** `defaultBackOffPolicy`: retry at once. */
  function DefaultBackOff(attempt: int): (r: int)
    ensures r == 0
  {
    0
  }

  /** `GetRetryPolicy`: the request's own policy when set, the default otherwise. */
  function GetRetryPolicy(custom: Option<RetryPolicy>): (r: RetryPolicy)
    ensures custom.Some? ==> forall resp, err :: r(resp, err) == custom.value(resp, err)
    ensures custom.None? ==> forall resp, err :: r(resp, err) == DefaultRetry(resp, err)
  {
    if custom.Some? then custom.value else DefaultRetry
  }

  /** `GetBackOffPolicy`: the request's own policy when set, the default (0) otherwise. */
  function GetBackOffPolicy(custom: Option<BackOffPolicy>): (r: BackOffPolicy)
    ensures custom.Some? ==> forall n :: r(n) == custom.value(n)
    ensures custom.None? ==> forall n :: r(n) == 0
  {
    if custom.Some? then custom.value else DefaultBackOff
  }

  /** `calRalCode`: -1 for an error, no response, a status of 400 or more, or status 0;
      0 otherwise. */
  function CalRalCode<E>(resp: Option<Response>, err: Option<E>): (r: int)
    ensures r == 0 || r == -1
    ensures r == 0 <==> err.None? && resp.Some? && resp.value.statusCode != 0 && resp.value.statusCode < 400
  {
    if err.Some? || resp.None? || resp.value.statusCode >= 400 || resp.value.statusCode == 0 then -1 else 0
  }

  /** The most attempts the loop makes for a configured `Retry`. */
  function MaxAttempts(retry: int): (r: nat)
    ensures r >= 1
  {
    if retry < 0 then 1 else retry + 1
  }

  /** The loop of `httpDo`, attempt by attempt. `world[k]` answers attempt k + 1; the
      world has an answer for every attempt the loop can make. */
  method HttpDo(retry: int, policy: RetryPolicy, backOff: BackOffPolicy, world: seq<Attempt>) returns (res: DoResult)
    requires |world| >= MaxAttempts(retry)
    ensures 1 <= res.attempts <= MaxAttempts(retry)
    ensures forall k | 0 <= k < res.attempts - 1 :: policy(world[k].resp, world[k].err) && !world[k].cancelled
    ensures var last := world[res.attempts - 1];
      && (res.err == Some(Cancelled) <==> policy(last.resp, last.err) && res.attempts <= retry && last.cancelled)
      && (res.err != Some(Cancelled) && res.attempts < MaxAttempts(retry) ==> !policy(last.resp, last.err))
      && (res.err.None? <==> last.err.None? && !policy(last.resp, last.err))
      && (res.err.Some? && res.err != Some(Cancelled) ==>
            res.err == Some(GivingUp(res.attempts, if last.err.Some? then Transport(last.err.value) else HitRetryPolicy)))
      && (res.err != Some(Cancelled) ==>
            && res.httpCode == (if last.resp.Some? then last.resp.value.statusCode else 0)
            && res.ralCode == Some(CalRalCode(last.resp, res.err)))
      && (res.err == Some(Cancelled) ==> res.httpCode == 0 && res.ralCode.None?)
    ensures |res.waits| == (if res.err == Some(Cancelled) then res.attempts else res.attempts - 1)
    ensures forall k | 0 <= k < |res.waits| :: res.waits[k] == backOff(k + 1)
  {
    var n := 0;
    var waits: seq<int> := [];
    while true
      invariant 0 <= n < MaxAttempts(retry)
      invariant forall k | 0 <= k < n :: policy(world[k].resp, world[k].err) && !world[k].cancelled
      invariant |waits| == n && forall k | 0 <= k < n :: waits[k] == backOff(k + 1)
      decreases MaxAttempts(retry) - n
    {
      var a := world[n];
      n := n + 1;
      var shouldRetry := policy(a.resp, a.err);
      if !shouldRetry || n > retry {
        var cause := if a.err.Some? then Some(Transport(a.err.value))
                     else if shouldRetry then Some(HitRetryPolicy)
                     else None;
        var err := if cause.Some? then Some(GivingUp(n, cause.value)) else None;
        var code := if a.resp.Some? then a.resp.value.statusCode else 0;
        return DoResult(n, code, waits, err, Some(CalRalCode(a.resp, err)));
      }
      waits := waits + [backOff(n)];
      if a.cancelled {
        return DoResult(n, 0, waits, Some(Cancelled), None);
      }
    }
  }

  /** Whatever the default policy retries, `calRalCode` counts as a failure; so a request
      that ends with ral code 0 was not retried by the default policy. */
  lemma DefaultRetryIsRalFailure(resp: Option<Response>, err: Option<string>)
    ensures DefaultRetry(resp, err) ==> CalRalCode(resp, err) == -1
    ensures CalRalCode(resp, err) == 0 ==> !DefaultRetry(resp, err)
    ensures DefaultRetry(resp, err) <==>
              CalRalCode(resp, err) == -1 && !(err.None? && resp.Some? && 400 <= resp.value.statusCode < 500)
  {
  }

  /** `httpDo` with the request's own policies, or the defaults where it has none. With
      the default retry policy a request ends without error exactly when its last attempt
      got a response with a non-zero status below 500, and then its ral code is 0
      exactly for a status below 400; with the default back-off it never waits. */
  method HttpDoWithOptions(retry: int, customRetry: Option<RetryPolicy>, customBackOff: Option<BackOffPolicy>,
                           world: seq<Attempt>) returns (res: DoResult)
    requires |world| >= MaxAttempts(retry)
    ensures 1 <= res.attempts <= MaxAttempts(retry)
    ensures var last := world[res.attempts - 1];
      && (customRetry.None? ==>
            (res.err.None? <==> last.err.None? && last.resp.Some? && last.resp.value.statusCode != 0
                                && last.resp.value.statusCode < 500))
      && (customRetry.Some? ==> (res.err.None? <==> last.err.None? && !customRetry.value(last.resp, last.err)))
    ensures customRetry.None? && res.err.None? ==> (res.ralCode == Some(0) <==> res.httpCode < 400)
    ensures customBackOff.None? ==> forall k | 0 <= k < |res.waits| :: res.waits[k] == 0
    ensures customBackOff.Some? ==> forall k | 0 <= k < |res.waits| :: res.waits[k] == customBackOff.value(k + 1)
  {
    res := HttpDo(retry, GetRetryPolicy(customRetry), GetBackOffPolicy(customBackOff), world);
  }
}
