/** The access-log middleware of `middleware/accesslog.go`: the response-capturing
    writer, the truncated request and response text that goes into the log line, form
    lookups and the cookie rendering. Strings here are Go byte strings, one `char` per
    byte. The request, the handler chain and the logger are outside the model. */
module AccessLog {
  import opened Wrappers
  import opened Bytes
  import opened ExStrings
  import opened JoinInt
  import opened GoStrings

  const PrintRequestLen: nat := 10240
  const PrintResponseLen: nat := 10240

  /** `bodyLogWriter`: the captured copy of the response (`None` when capturing is off)
      and what went out through the wrapped writer. */
  datatype BodyLogWriter = BodyLogWriter(body: Option<string>, sent: string)

  /** `strings.Replace(s, "\n", "", -1)`: `s` without its newlines. */
  function RemoveNewlines(s: string): (r: string)
    ensures '\n' !in r
    ensures |r| <= |s|
  {
    if s == [] then ""
    else if s[0] == '\n' then RemoveNewlines(s[1..])
    else [s[0]] + RemoveNewlines(s[1..])
  }

  /** Removing newlines keeps every other byte, in order: a text without newlines is
      left as it is, and removing twice is removing once. */
  lemma {:induction false} RemoveNewlinesKeepsText(s: string)
    ensures '\n' !in s ==> RemoveNewlines(s) == s
    ensures RemoveNewlines(RemoveNewlines(s)) == RemoveNewlines(s)
  {
    if s != [] {
      RemoveNewlinesKeepsText(s[1..]);
      if s[0] != '\n' {
        assert ([s[0]] + RemoveNewlines(s[1..]))[1..] == RemoveNewlines(s[1..]);
      }
    }
  }

  /** `WriteString`: the newlines are removed first; the result is recorded (when
      capturing) and sent; the count returned is that of the bytes sent. */
  function WriteString(w: BodyLogWriter, s: string): (r: (BodyLogWriter, nat))
    ensures r.0.sent == w.sent + RemoveNewlines(s)
    ensures w.body.None? ==> r.0.body.None?
    ensures w.body.Some? ==> r.0.body == Some(w.body.value + RemoveNewlines(s))
    ensures r.1 == |RemoveNewlines(s)|
  {
    var t := RemoveNewlines(s);
    (BodyLogWriter(if w.body.Some? then Some(w.body.value + t) else None, w.sent + t), |t|)
  }

  /** `Write`: the bytes are recorded and sent unchanged. */
  function Write(w: BodyLogWriter, b: string): (r: (BodyLogWriter, nat))
    ensures r.0.sent == w.sent + b
    ensures w.body.Some? ==> r.0.body == Some(w.body.value + b)
    ensures w.body.None? ==> r.0.body.None?
    ensures r.1 == |b|
  {
    (BodyLogWriter(if w.body.Some? then Some(w.body.value + b) else None, w.sent + b), |b|)
  }

  /** What is captured is exactly what was sent, as long as capturing started with the
      writer. */
  lemma CapturedIsSent(w: BodyLogWriter, s: string, b: string)
    requires w.body == Some(w.sent)
    ensures var w1 := WriteString(w, s).0; w1.body == Some(w1.sent)
    ensures var w2 := Write(w, b).0; w2.body == Some(w2.sent)
  {
  }

  /** The writer the handler installs: capturing, since the response limit is positive. */
  function NewBodyLogWriter(): (w: BodyLogWriter)
    ensures w.body == Some("") && w.sent == ""
  {
    BodyLogWriter(if PrintResponseLen <= 0 then None else Some(""), "")
  }

  /** A write the handler chain makes through the installed writer. */
  datatype WriteOp = WriteStr(s: string) | WriteBytes(b: string)

  /** The writer after a sequence of writes, in order. */
  function Apply(w: BodyLogWriter, ops: seq<WriteOp>): (r: BodyLogWriter)
    decreases |ops|
  {
    if ops == [] then w
    else
      var w1 := match ops[0]
        case WriteStr(s) => WriteString(w, s).0
        case WriteBytes(b) => Write(w, b).0;
      Apply(w1, ops[1..])
  }

  /** Whatever the handlers write, the captured body is exactly what reached the client. */
  lemma {:induction false} CaptureMatchesResponse(w: BodyLogWriter, ops: seq<WriteOp>)
    requires w.body == Some(w.sent)
    ensures Apply(w, ops).body == Some(Apply(w, ops).sent)
    decreases |ops|
  {
    if ops != [] {
      match ops[0]
      case WriteStr(s) =>
        CapturedIsSent(w, s, "");
        CaptureMatchesResponse(WriteString(w, s).0, ops[1..]);
      case WriteBytes(b) =>
        CapturedIsSent(w, "", b);
        CaptureMatchesResponse(Write(w, b).0, ops[1..]);
    }
  }

  /** The logged response is the first bytes the client received, at most 10240 of them. */
  lemma LoggedResponseIsSentPrefix(ops: seq<WriteOp>)
    ensures var w := Apply(NewBodyLogWriter(), ops);
      var r := LoggedResponse(w);
      |r| <= PrintResponseLen && |r| <= |w.sent| && r == w.sent[..|r|]
      && (|w.sent| <= PrintResponseLen ==> r == w.sent)
  {
    CaptureMatchesResponse(NewBodyLogWriter(), ops);
  }

  /** The first `n` bytes of `s`, or all of it when it is shorter. */
  function Truncate(s: string, n: nat): (r: string)
    ensures |r| <= n && |r| <= |s|
    ensures r == s[..|r|]
    ensures |s| <= n ==> r == s
    ensures |s| > n ==> |r| == n
  {
    if |s| <= n then s else s[..n]
  }

  /** The logged response: the captured body cut to 10240 bytes, "" when nothing was
      captured. */
  function LoggedResponse(w: BodyLogWriter): (r: string)
    ensures |r| <= PrintResponseLen
    ensures w.body.Some? ==> r == Truncate(w.body.value, PrintResponseLen)
    ensures w.body.None? ==> r == ""
  {
    if w.body.None? then "" else Truncate(w.body.value, PrintResponseLen)
  }

  /** `strings.Contains`. */
  predicate Contains(s: string, sub: string)
  {
    exists k | 0 <= k <= |s| - |sub| :: OccursAt(s, sub, k)
  }

  /** `sub` occurs in `s` starting at byte `k`. */
  predicate OccursAt(s: string, sub: string, k: nat)
  {
    k + |sub| <= |s| && s[k..k + |sub|] == sub
  }

  /** The first list entry contained in `path`, if any. */
  function FirstContained(path: string, uris: seq<string>): (r: Option<nat>)
    ensures r.Some? ==> r.value < |uris| && Contains(path, uris[r.value])
    ensures r.Some? ==> forall k | 0 <= k < r.value :: !Contains(path, uris[k])
    ensures r.None? ==> forall k | 0 <= k < |uris| :: !Contains(path, uris[k])
  {
    if uris == [] then None
    else if Contains(path, uris[0]) then Some(0)
    else
      match FirstContained(path, uris[1..])
      case None => None
      case Some(k) => Some(k + 1)
  }

  /** `fmt.Sprintf("%v", b)` of a byte slice: its numbers in brackets, space-separated. */
  function FormatByteSlice(b: seq<byte>): (r: string)
    ensures |r| >= 2 && r[0] == '[' && r[|r| - 1] == ']'
  {
    "[" + JoinRef(FormatAll(b), " ") + "]"
  }

  /** A request body as a Go string: one character per byte. */
  function BytesToString(b: seq<byte>): (r: string)
    ensures |r| == |b|
  {
    seq(|b|, k requires 0 <= k < |b| => b[k] as char)
  }

  /** The logged `requestParam`. A path matching an mcpack URI logs the body as numbers;
      otherwise a path matching an ignore URI logs no body; otherwise the raw body. A
      non-empty query is appended after "&", and the whole is cut to 10240 bytes. */
  function RequestParam(path: string, body: seq<byte>, rawQuery: string,
                        mcpackUris: seq<string>, ignoreUris: seq<string>): (r: string)
    ensures |r| <= PrintRequestLen
    ensures var s := if rawQuery == "" then BodyText(path, body, mcpackUris, ignoreUris)
                     else BodyText(path, body, mcpackUris, ignoreUris) + "&" + rawQuery;
      r == Truncate(s, PrintRequestLen)
  {
    var bodyStr := BodyText(path, body, mcpackUris, ignoreUris);
    var withQuery := if rawQuery != "" then bodyStr + "&" + rawQuery else bodyStr;
    Truncate(withQuery, PrintRequestLen)
  }

  /** The body part of `requestParam`, before the query and the cut. */
  function BodyText(path: string, body: seq<byte>, mcpackUris: seq<string>, ignoreUris: seq<string>): (r: string)
    ensures FirstContained(path, mcpackUris).Some? ==> r == FormatByteSlice(body)
    ensures FirstContained(path, mcpackUris).None? && FirstContained(path, ignoreUris).Some? ==> r == ""
    ensures FirstContained(path, mcpackUris).None? && FirstContained(path, ignoreUris).None? ==> r == BytesToString(body)
  {
    if FirstContained(path, mcpackUris).Some? then FormatByteSlice(body)
    else if FirstContained(path, ignoreUris).Some? then ""
    else BytesToString(body)
  }

  /** An mcpack match wins over an ignore match for the same path. */
  lemma McpackBeforeIgnore(path: string, body: seq<byte>, mcpackUris: seq<string>, ignoreUris: seq<string>, m: nat, i: nat)
    requires m < |mcpackUris| && Contains(path, mcpackUris[m])
    requires i < |ignoreUris| && Contains(path, ignoreUris[i])
    ensures BodyText(path, body, mcpackUris, ignoreUris) == FormatByteSlice(body)
  {
  }

  /** `getReqValueByKey`: the first form value under `k`; "" when the key is missing or
      has no values. */
  function GetReqValueByKey(form: map<string, seq<string>>, k: string): (r: string)
    ensures k in form && |form[k]| > 0 ==> r == form[k][0]
    ensures !(k in form && |form[k]| > 0) ==> r == ""
  {
    if k in form && |form[k]| > 0 then form[k][0] else ""
  }

  /** The form as `ParseForm` builds it from the request's `key=value` pairs: each key
      maps to its values in the order the pairs come. */
  function ParsedForm(pairs: seq<(string, string)>): (r: map<string, seq<string>>)
  {
    if pairs == [] then map[]
    else
      var m := ParsedForm(pairs[1..]);
      m[pairs[0].0 := [pairs[0].1] + (if pairs[0].0 in m then m[pairs[0].0] else [])]
  }

  /** The independent reading: scan the pairs for the first one under `k`. */
  function FirstValue(pairs: seq<(string, string)>, k: string): (r: string)
  {
    if pairs == [] then ""
    else if pairs[0].0 == k then pairs[0].1
    else FirstValue(pairs[1..], k)
  }

  /** On a parsed form, `getReqValueByKey` is the value of the first pair under the key,
      and "" when no pair has that key. */
  lemma {:induction false} GetReqValueIsFirstPair(pairs: seq<(string, string)>, k: string)
    ensures GetReqValueByKey(ParsedForm(pairs), k) == FirstValue(pairs, k)
    ensures k in ParsedForm(pairs) <==> exists j | 0 <= j < |pairs| :: pairs[j].0 == k
  {
    if pairs != [] {
      GetReqValueIsFirstPair(pairs[1..], k);
      if pairs[0].0 != k {
        if exists j | 0 <= j < |pairs| :: pairs[j].0 == k {
          var j :| 0 <= j < |pairs| && pairs[j].0 == k;
          assert pairs[1..][j - 1].0 == k;
        }
      } else {
        assert pairs[0].0 == k;
      }
    }
  }

  datatype Cookie = Cookie(name: string, value: string)

  /** "name=value" for one cookie. */
  function Pair(c: Cookie): (r: string)
  {
    c.name + "=" + c.value
  }

  function Pairs(cs: seq<Cookie>): (r: seq<string>)
    ensures |r| == |cs|
    ensures forall k | 0 <= k < |cs| :: r[k] == Pair(cs[k])
  {
    seq(|cs|, k requires 0 <= k < |cs| => Pair(cs[k]))
  }

  /** The loop of `getCookie` before the trim: every pair followed by '&'. */
  function PairsWithAmp(cs: seq<Cookie>): (r: string)
  {
    if cs == [] then "" else Pair(cs[0]) + "&" + PairsWithAmp(cs[1..])
  }

  /** `getCookie` as written: the pairs each followed by '&', then `TrimRight` of '&'.
      The trim removes every trailing '&', including those that end the last cookie's
      value. */
  function GetCookieAsWritten(cs: seq<Cookie>): (r: string)
    ensures r == [] || r[|r| - 1] != '&'
  {
    TrimRight(PairsWithAmp(cs), '&')
  }

  /** The evident intent of `getCookie`: the pairs joined with '&'. */
  function GetCookie(cs: seq<Cookie>): (r: string)
    ensures r == JoinRef(Pairs(cs), "&")
    ensures cs != [] ==> |Pair(cs[0])| <= |r| && r[..|Pair(cs[0])|] == Pair(cs[0])
  {
    var r := JoinRef(Pairs(cs), "&");
    if cs == [] then r else JoinEnds(Pairs(cs), "&"); r
  }

  /** The two agree unless the last cookie's value ends in '&': the trim then only takes
      off the separator the loop added. */
  lemma {:induction false} GetCookieAgrees(cs: seq<Cookie>)
    requires cs == [] || cs[|cs| - 1].value == [] || cs[|cs| - 1].value[|cs[|cs| - 1].value| - 1] != '&'
    ensures GetCookieAsWritten(cs) == GetCookie(cs)
  {
    if cs != [] {
      PairsWithAmpIsJoin(cs);
      var j := JoinRef(Pairs(cs), "&");
      JoinEndsWithoutAmp(cs);
      TrimRightLast(j, '&');
    }
  }

  /** The converse: when the last cookie's value ends in '&', the trim takes that '&'
      too, so the two renderings differ. */
  lemma GetCookieDiffers(cs: seq<Cookie>)
    requires cs != [] && cs[|cs| - 1].value != [] && cs[|cs| - 1].value[|cs[|cs| - 1].value| - 1] == '&'
    ensures GetCookieAsWritten(cs) != GetCookie(cs)
  {
    JoinEndsWithAmp(cs);
  }

  /** The join ends with the last pair, hence in '&' when the last value does. */
  lemma JoinEndsWithAmp(cs: seq<Cookie>)
    requires cs != [] && cs[|cs| - 1].value != [] && cs[|cs| - 1].value[|cs[|cs| - 1].value| - 1] == '&'
    ensures var j := JoinRef(Pairs(cs), "&"); j != [] && j[|j| - 1] == '&'
  {
    var j := JoinRef(Pairs(cs), "&");
    JoinEnds(Pairs(cs), "&");
    var last := Pair(cs[|cs| - 1]);
    assert j[|j| - |last|..] == last;
    assert j[|j| - 1] == last[|last| - 1];
  }

  /** The join ends with the last pair, so it ends in '&' only when the last value does. */
  lemma JoinEndsWithoutAmp(cs: seq<Cookie>)
    requires cs != [] && (cs[|cs| - 1].value == [] || cs[|cs| - 1].value[|cs[|cs| - 1].value| - 1] != '&')
    ensures var j := JoinRef(Pairs(cs), "&"); j != [] && j[|j| - 1] != '&'
  {
    var j := JoinRef(Pairs(cs), "&");
    JoinEnds(Pairs(cs), "&");
    var last := Pair(cs[|cs| - 1]);
    assert j[|j| - |last|..] == last;
    assert last[|last| - 1] != '&';
    assert j[|j| - 1] == last[|last| - 1];
  }

  /** Each pair followed by '&' is the join plus one final '&'. */
  lemma {:induction false} PairsWithAmpIsJoin(cs: seq<Cookie>)
    requires cs != []
    ensures PairsWithAmp(cs) == JoinRef(Pairs(cs), "&") + "&"
  {
    if |cs| > 1 {
      PairsWithAmpIsJoin(cs[1..]);
      assert Pairs(cs)[1..] == Pairs(cs[1..]);
    } else {
      assert cs[1..] == [];
    }
  }

  /** A cookie whose value ends in '&' loses that '&' in the as-written rendering. */
  lemma TrailingAmpLost()
    ensures GetCookieAsWritten([Cookie("a", "b&")]) == "a=b"
    ensures GetCookie([Cookie("a", "b&")]) == "a=b&"
  {
    var c := Cookie("a", "b&");
    assert Pair(c) == "a=b&";
    assert [c][1..] == [];
    assert PairsWithAmp([c]) == "a=b&&";
    assert "a=b&&"[..4] == "a=b&";
    assert "a=b&"[..3] == "a=b";
    assert TrimRight("a=b", '&') == "a=b";
    assert TrimRight("a=b&", '&') == "a=b";
    assert TrimRight("a=b&&", '&') == "a=b";
    assert Pairs([c]) == ["a=b&"];
  }
}
