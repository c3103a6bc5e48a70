/** The entry encoder of `xlog/json_encoder.go`: it takes the log topic from a leading
    "_tp" field and, on the docker platform, puts a "tt= tp=<file tail> " prefix before
    the inner JSON encoding. The inner encoder and the file-tail rule are parameters. */
module JsonEncoder {
  import opened Wrappers

  const TopicType: string := "_tp"
  const LogNameServer: string := "server"

  /** A zap field: its key and its string payload. */
  datatype Field = Field(key: string, str: string)

  /** zapcore's levels: Debug -1, Info 0, Warn 1, Error 2, DPanic 3, Panic 4, Fatal 5. */
  const DebugLevel: int := -1
  const InfoLevel: int := 0
  const WarnLevel: int := 1
  const FatalLevel: int := 5

  /** The two log-file kinds the file tail distinguishes. */
  datatype LevelType = LogNormal | LogWarnFatal

  /** `getLevelType`: Info and below go to the normal file, everything above to the
      warn/fatal file. */
  function GetLevelType(level: int): (r: LevelType)
    ensures r == LogNormal <==> level <= InfoLevel
  {
    if level <= InfoLevel then LogNormal else LogWarnFatal
  }

  /** The split is monotone: a level that goes to the normal file takes every lower level
      with it, and one that goes to the warn/fatal file takes every higher one. Debug and
      Info go to the normal file, Warn through Fatal to the warn/fatal file. */
  lemma LevelTypeSplit(l1: int, l2: int)
    requires l1 <= l2
    ensures GetLevelType(l2) == LogNormal ==> GetLevelType(l1) == LogNormal
    ensures GetLevelType(l1) == LogWarnFatal ==> GetLevelType(l2) == LogWarnFatal
    ensures GetLevelType(DebugLevel) == LogNormal && GetLevelType(InfoLevel) == LogNormal
    ensures forall l | WarnLevel <= l <= FatalLevel :: GetLevelType(l) == LogWarnFatal
  {
  }

  /** The topic and the fields left to encode: with at least two fields and "_tp" first,
      that field names the topic and is dropped; otherwise the topic is "server". */
  function Topic(fields: seq<Field>): (r: (string, seq<Field>))
    ensures |fields| > 1 && fields[0].key == TopicType ==> r == (fields[0].str, fields[1..])
    ensures !(|fields| > 1 && fields[0].key == TopicType) ==> r == (LogNameServer, fields)
  {
    if |fields| > 1 && fields[0].key == TopicType then (fields[0].str, fields[1..]) else (LogNameServer, fields)
  }

  /** Only the topic field is ever dropped: either nothing is taken and the topic is
      "server", or the fields are the `_tp` field naming the topic followed by those left.
      A non-empty field list never becomes empty. */
  lemma TopicDropsOnlyTopicField(fields: seq<Field>)
    ensures var (topic, rest) := Topic(fields);
      || (rest == fields && topic == LogNameServer)
      || (|rest| > 0 && [Field(TopicType, topic)] + rest == fields)
    ensures fields != [] ==> Topic(fields).1 != []
  {
    if |fields| > 1 && fields[0].key == TopicType {
      assert [Field(TopicType, fields[0].str)] + fields[1..] == fields;
    }
  }

  /** The inner encoder's answer: the buffer (nil is `None`) and its error. */
  datatype Encoded = Encoded(buf: Option<string>, err: Option<string>)

  /** `EncodeEntry`. Off the docker platform, or when the inner encoder gives no buffer,
      its answer is returned untouched; on docker the buffer gets the prefix
      "tt= tp=" + tail + " ", where the tail comes from the topic and the level type. */
  function EncodeEntry(level: int, fields: seq<Field>, docker: bool,
                       inner: seq<Field> -> Encoded, tail: (string, LevelType) -> string): (r: Encoded)
    ensures var (topic, rest) := Topic(fields);
      var e := inner(rest);
      && r.err == e.err
      && (!docker || e.buf.None? ==> r == e)
      && (docker && e.buf.Some? ==>
            r.buf == Some("tt= tp=" + tail(topic, GetLevelType(level)) + " " + e.buf.value))
  {
    var (topic, rest) := Topic(fields);
    var e := inner(rest);
    if !docker || e.buf.None? then e
    else
      var prefix := "tt= tp=" + tail(topic, GetLevelType(level)) + " ";
      Encoded(Some(prefix + e.buf.value), e.err)
  }

  /** The prefix takes nothing away: the inner encoding is the output with the prefix
      cut off. */
  lemma PrefixIsRemovable(level: int, fields: seq<Field>, inner: seq<Field> -> Encoded, tail: (string, LevelType) -> string)
    requires inner(Topic(fields).1).buf.Some?
    ensures var out := EncodeEntry(level, fields, true, inner, tail).buf.value;
      var p := "tt= tp=" + tail(Topic(fields).0, GetLevelType(level)) + " ";
      |p| <= |out| && out[..|p|] == p && out[|p|..] == inner(Topic(fields).1).buf.value
  {
  }

  /** A lone "_tp" field is not taken as the topic: it is encoded like any other field. */
  lemma LoneTopicFieldKept(f: Field)
    requires f.key == TopicType
    ensures Topic([f]) == (LogNameServer, [f])
  {
  }
}
