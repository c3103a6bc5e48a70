/** The MySQL client setup and SQL log formatting of `base/mysql.go`: defaulting of the
    configuration, the logger's service name, printability of byte values, and the
    rendering of a '?'-placeholder statement with its formatted arguments. gorm, the
    driver and reflection-based value formatting are outside the model. */
module Mysql {
  import opened Wrappers
  import opened ExStrings

  /** Go's `time.Second`, in nanoseconds. */
  const Second: int := 1_000_000_000

  const DefaultMaxIdleConns: int := 10
  const DefaultMaxOpenConns: int := 1000
  const DefaultConnMaxLifeTime: int := 3600 * Second
  const DefaultConnTimeOut: int := 3 * Second
  const DefaultWriteTimeOut: int := 1 * Second
  const DefaultReadTimeOut: int := 1 * Second

  /** `MysqlConf`; durations are nanosecond counts. */
  datatype MysqlConf = MysqlConf(
    service: string,
    dataBase: string,
    addr: string,
    user: string,
    password: string,
    maxIdleConns: int,
    maxOpenConns: int,
    connMaxLifeTime: int,
    connTimeOut: int,
    writeTimeOut: int,
    readTimeOut: int,
    logMode: bool)

  /** The defaulting part of `checkConf` (run after the secret substitution): zero pool
      sizes and durations take their defaults and the SQL log is always switched on. */
  function CheckConf(c: MysqlConf): (r: MysqlConf)
    ensures r.maxIdleConns == OrDefault(c.maxIdleConns, DefaultMaxIdleConns)
    ensures r.maxOpenConns == OrDefault(c.maxOpenConns, DefaultMaxOpenConns)
    ensures r.connMaxLifeTime == OrDefault(c.connMaxLifeTime, DefaultConnMaxLifeTime)
    ensures r.connTimeOut == OrDefault(c.connTimeOut, DefaultConnTimeOut)
    ensures r.writeTimeOut == OrDefault(c.writeTimeOut, DefaultWriteTimeOut)
    ensures r.readTimeOut == OrDefault(c.readTimeOut, DefaultReadTimeOut)
    ensures r.logMode
    ensures r.service == c.service && r.dataBase == c.dataBase && r.addr == c.addr
    ensures r.user == c.user && r.password == c.password
  {
    c.(maxIdleConns := OrDefault(c.maxIdleConns, DefaultMaxIdleConns),
       maxOpenConns := OrDefault(c.maxOpenConns, DefaultMaxOpenConns),
       connMaxLifeTime := OrDefault(c.connMaxLifeTime, DefaultConnMaxLifeTime),
       connTimeOut := OrDefault(c.connTimeOut, DefaultConnTimeOut),
       writeTimeOut := OrDefault(c.writeTimeOut, DefaultWriteTimeOut),
       readTimeOut := OrDefault(c.readTimeOut, DefaultReadTimeOut),
       logMode := true)
  }

  /** After defaulting no setting is zero, and defaulting again changes nothing. */
  lemma CheckConfIdempotent(c: MysqlConf)
    ensures var d := CheckConf(c);
      && d.maxIdleConns != 0 && d.maxOpenConns != 0 && d.connMaxLifeTime != 0
      && d.connTimeOut != 0 && d.writeTimeOut != 0 && d.readTimeOut != 0
    ensures CheckConf(CheckConf(c)) == CheckConf(c)
  {
  }

  /** The logger `InitMysqlClient` installs. */
  datatype GormWriter = GormWriter(logMode: bool, service: string, addr: string, database: string)

  /** What `InitMysqlClient` configures on an opened client. */
  datatype Client = Client(maxIdleConns: int, maxOpenConns: int, connMaxLifetime: int, logMode: bool, logger: GormWriter)

  /** `InitMysqlClient`, with the outcome of `gorm.Open` as a parameter: an open error is
      returned as it is; otherwise the pool takes the defaulted settings and the logger's
      service falls back to the database name. */
  function InitMysqlClient(conf: MysqlConf, openErr: Option<string>): (r: Result<Client, string>)
    ensures openErr.Some? <==> r.Err?
    ensures openErr.Some? ==> r.error == openErr.value
    ensures r.Ok? ==> r.value.logMode && r.value.logger.logMode
    ensures r.Ok? ==> r.value.logger.service == (if conf.service != "" then conf.service else conf.dataBase)
    ensures r.Ok? ==> r.value.logger.service != "" || (conf.service == "" && conf.dataBase == "")
    ensures r.Ok? ==> r.value.logger.addr == conf.addr && r.value.logger.database == conf.dataBase
    ensures r.Ok? ==>
              && r.value.maxIdleConns == CheckConf(conf).maxIdleConns
              && r.value.maxOpenConns == CheckConf(conf).maxOpenConns
              && r.value.connMaxLifetime == CheckConf(conf).connMaxLifeTime
  {
    var c := CheckConf(conf);
    if openErr.Some? then Err(openErr.value)
    else
      var service := if c.service != "" then c.service else c.dataBase;
      Ok(Client(c.maxIdleConns, c.maxOpenConns, c.connMaxLifeTime, c.logMode,
                GormWriter(c.logMode, service, c.addr, c.dataBase)))
  }

  /** `isPrintable`, with `unicode.IsPrint` as a parameter: scan the runes and stop at the
      first one that is not printable. */
  method IsPrintable(s: string, isPrint: char -> bool) returns (r: bool)
    ensures r <==> forall k | 0 <= k < |s| :: isPrint(s[k])
    ensures s == "" ==> r
  {
    var i := 0;
    while i < |s|
      invariant 0 <= i <= |s|
      invariant forall k | 0 <= k < i :: isPrint(s[k])
    {
      if !isPrint(s[i]) {
        return false;
      }
      i := i + 1;
    }
    return true;
  }

  /** How many '?' the template holds. */
  function CountQ(t: string): (r: nat)
  {
    if t == [] then 0 else (if t[0] == '?' then 1 else 0) + CountQ(t[1..])
  }

  /** `sqlRegexp.Split(t, -1)`: the pieces of `t` between its '?'s, one more piece than
      there are '?'s. */
  function SplitQ(t: string): (r: seq<string>)
    ensures |r| == CountQ(t) + 1
    ensures forall k | 0 <= k < |r| :: '?' !in r[k]
  {
    if t == [] then [""]
    else if t[0] == '?' then [""] + SplitQ(t[1..])
    else
      var p := SplitQ(t[1..]);
      [[t[0]] + p[0]] + p[1..]
  }

  /** Splitting at '?' loses nothing: joining the pieces with '?' gives the template. */
  lemma {:induction false} SplitQJoin(t: string)
    ensures JoinRef(SplitQ(t), "?") == t
  {
    if t != [] {
      SplitQJoin(t[1..]);
      var p := SplitQ(t[1..]);
      if t[0] == '?' {
        assert ([""] + p)[1..] == p;
      } else if |p| > 1 {
        assert ([[t[0]] + p[0]] + p[1..])[1..] == p[1..];
        assert JoinRef(p, "?") == p[0] + "?" + JoinRef(p[1..], "?");
      }
    }
  }

  /** The rest of a value list once its first value is used. */
  function Rest(vals: seq<string>): (r: seq<string>)
  {
    if vals == [] then [] else vals[1..]
  }

  /** The formatting loop's meaning: each piece, followed by the value of the same index
      when there is one. */
  function Interleave(pieces: seq<string>, vals: seq<string>): (r: string)
  {
    if pieces == [] then ""
    else pieces[0] + (if vals != [] then vals[0] else "") + Interleave(pieces[1..], Rest(vals))
  }

  /** The independent reading of '?' formatting: scan the template and put the next
      value in place of each '?'; a '?' with no value left disappears. */
  function Subst(t: string, vals: seq<string>): (r: string)
  {
    if t == [] then ""
    else if t[0] == '?' then (if vals != [] then vals[0] else "") + Subst(t[1..], Rest(vals))
    else [t[0]] + Subst(t[1..], vals)
  }

  /** The one surplus value the loop appends after the last piece, if there is one. */
  function Surplus(t: string, vals: seq<string>): (r: string)
  {
    if |vals| > CountQ(t) then vals[CountQ(t)] else ""
  }

  /** The '?' branch of `gormLogKeyValueFormatter`: walk the pieces and add formatted
      value `index` after piece `index` while there is one. */
  method FormatQuestion(t: string, vals: seq<string>) returns (sql: string)
    ensures sql == Interleave(SplitQ(t), vals)
    ensures sql == Subst(t, vals) + Surplus(t, vals)
  {
    var pieces := SplitQ(t);
    sql := "";
    var i := 0;
    while i < |pieces|
      invariant 0 <= i <= |pieces|
      invariant sql + Interleave(pieces[i..], Drop(vals, i)) == Interleave(pieces, vals)
    {
      var v := if i < |vals| then vals[i] else "";
      InterleaveStep(pieces, vals, i);
      StrAssoc4(sql, pieces[i], v, Interleave(pieces[i + 1..], Drop(vals, i + 1)));
      sql := sql + pieces[i] + v;
      i := i + 1;
    }
    assert pieces[i..] == [];
    InterleaveIsSubst(t, vals);
  }

  /** An argument gorm passes to the logger, as far as the formatter looks at it: a
      string, the statement's argument list already rendered one string per value, a
      `time.Duration` in nanoseconds, an `int64`, a `context.Context` (by the strings it
      holds under the log-id and request-id keys, "" where there is no string), nil, or
      anything else. */
  datatype LogArg =
    | Text(s: string)
    | Rendered(vals: seq<string>)
    | Duration(nanos: int)
    | Int64(v: int)
    | Context(logId: string, requestId: string)
    | Nil
    | Opaque

  /** What `gormLogKeyValueFormatter` produces for a statement. `NumericSql` stands for
      the `$n` placeholder branch, which is not part of this model; `Crash` is a Go
      panic on a missing or mistyped argument; `NotSql` is every other kind of entry. */
  datatype LogEntry =
    | Empty
    | SqlLine(msg: string, sql: string, logId: string, requestId: string, affectedRows: int)
    | NumericSql(template: string)
    | NotSql
    | Crash

  /** The template uses `$n` placeholders. */
  predicate HasNumericPlaceholder(t: string)
  {
    exists k | 0 <= k < |t| - 1 :: t[k] == '$' && '0' <= t[k + 1] <= '9'
  }

  /** The type assertions of the "sql" branch all hold: `values[4].([]interface{})`,
      `values[3].(string)`, `values[2].(time.Duration)`, `values[5].(int64)`, and
      `values[6].(context.Context)` when there is a non-nil seventh value. */
  predicate WellTyped(values: seq<LogArg>)
  {
    && |values| >= 6 && values[2].Duration? && values[3].Text? && values[4].Rendered? && values[5].Int64?
    && (|values| >= 7 && values[6] != Nil ==> values[6].Context?)
  }

  /** The log id and request id read from the optional seventh value. */
  function Ids(values: seq<LogArg>): (r: (string, string))
    ensures |values| < 7 || values[6] == Nil || !values[6].Context? ==> r == ("", "")
  {
    if |values| >= 7 && values[6].Context? then (values[6].logId, values[6].requestId) else ("", "")
  }

  /** `gormLogKeyValueFormatter` for "sql" entries: at most one argument gives an empty
      message and no fields; a failed type assertion panics; a '?' template is rendered
      with the argument values, next to the ids of the context and the affected rows. */
  function GormLogFormat(values: seq<LogArg>): (r: LogEntry)
    ensures |values| <= 1 <==> r == Empty
    ensures r == NotSql <==> |values| > 1 && values[0] != Text("sql")
    ensures r == Crash <==> |values| > 1 && values[0] == Text("sql") && !WellTyped(values)
    ensures r.SqlLine? ==> r.msg == "mysql do success"
    ensures r.SqlLine? <==> |values| > 1 && values[0] == Text("sql") && WellTyped(values)
                             && !HasNumericPlaceholder(values[3].s)
    ensures r.SqlLine? ==> r.sql == Subst(values[3].s, values[4].vals) + Surplus(values[3].s, values[4].vals)
    ensures r.SqlLine? ==> r.affectedRows == values[5].v
    ensures r.SqlLine? && |values| >= 7 && values[6].Context? ==> r.logId == values[6].logId && r.requestId == values[6].requestId
    ensures r.SqlLine? && (|values| == 6 || values[6] == Nil) ==> r.logId == "" && r.requestId == ""
  {
    if |values| <= 1 then Empty
    else if values[0] != Text("sql") then NotSql
    else if !WellTyped(values) then Crash
    else if HasNumericPlaceholder(values[3].s) then NumericSql(values[3].s)
    else
      InterleaveIsSubst(values[3].s, values[4].vals);
      var (logId, requestId) := Ids(values);
      SqlLine("mysql do success", Interleave(SplitQ(values[3].s), values[4].vals), logId, requestId, values[5].v)
  }

  /** The values left after `n` have been used. */
  function Drop(vals: seq<string>, n: nat): (r: seq<string>)
  {
    if n >= |vals| then [] else vals[n..]
  }

  lemma DropStep(vals: seq<string>, n: nat)
    ensures Rest(Drop(vals, n)) == Drop(vals, n + 1)
    ensures n < |vals| <==> Drop(vals, n) != []
  {
  }

  /** One round of the formatting loop: piece `i`, then value `i` when there is one. */
  lemma InterleaveStep(pieces: seq<string>, vals: seq<string>, i: nat)
    requires i < |pieces|
    ensures Interleave(pieces[i..], Drop(vals, i))
         == pieces[i] + (if i < |vals| then vals[i] else "") + Interleave(pieces[i + 1..], Drop(vals, i + 1))
  {
    assert pieces[i..][1..] == pieces[i + 1..];
    DropStep(vals, i);
    if i < |vals| {
      assert Drop(vals, i)[0] == vals[i];
    }
  }

  /** The loop over the split pieces computes the scan-and-substitute reading, plus the
      one surplus value at the end. */
  lemma {:induction false} InterleaveIsSubst(t: string, vals: seq<string>)
    ensures Interleave(SplitQ(t), vals) == Subst(t, vals) + Surplus(t, vals)
  {
    if t != [] {
      InterleaveIsSubst(t[1..], if t[0] == '?' then Rest(vals) else vals);
      if t[0] == '?' {
        QuestionStep(t, vals);
      } else {
        LiteralStep(t, vals);
      }
    }
  }

  /** A leading '?' opens an empty first piece, and uses up one value. */
  lemma QuestionStep(t: string, vals: seq<string>)
    requires t != [] && t[0] == '?'
    requires Interleave(SplitQ(t[1..]), Rest(vals)) == Subst(t[1..], Rest(vals)) + Surplus(t[1..], Rest(vals))
    ensures Interleave(SplitQ(t), vals) == Subst(t, vals) + Surplus(t, vals)
  {
    var p := SplitQ(t[1..]);
    var v := if vals != [] then vals[0] else "";
    assert SplitQ(t) == [""] + p;
    assert ([""] + p)[1..] == p;
    var a, b := Subst(t[1..], Rest(vals)), Surplus(t[1..], Rest(vals));
    assert Interleave(SplitQ(t), vals) == "" + v + (a + b);
    assert Subst(t, vals) == v + a;
    assert CountQ(t) == 1 + CountQ(t[1..]);
    if vals != [] {
      assert Surplus(t, vals) == b by {
        if |vals| > CountQ(t) {
          assert vals[CountQ(t)] == vals[1..][CountQ(t[1..])];
        }
      }
    }
    StrAssoc(v, a, b);
  }

  /** A leading ordinary character joins the first piece and uses no value. */
  lemma LiteralStep(t: string, vals: seq<string>)
    requires t != [] && t[0] != '?'
    requires Interleave(SplitQ(t[1..]), vals) == Subst(t[1..], vals) + Surplus(t[1..], vals)
    ensures Interleave(SplitQ(t), vals) == Subst(t, vals) + Surplus(t, vals)
  {
    var p := SplitQ(t[1..]);
    var v := if vals != [] then vals[0] else "";
    var q := [[t[0]] + p[0]] + p[1..];
    assert SplitQ(t) == q;
    assert q[1..] == p[1..];
    var after := Interleave(p[1..], Rest(vals));
    assert Interleave(q, vals) == [t[0]] + p[0] + v + after;
    assert Interleave(p, vals) == p[0] + v + after;
    StrAssoc4([t[0]], p[0], v, after);
    var a, b := Subst(t[1..], vals), Surplus(t[1..], vals);
    assert Interleave(q, vals) == [t[0]] + (a + b);
    assert Subst(t, vals) == [t[0]] + a;
    assert Surplus(t, vals) == b;
    StrAssoc([t[0]], a, b);
  }

  lemma StrAssoc(x: string, y: string, z: string)
    ensures "" + x + (y + z) == x + y + z
    ensures x + (y + z) == x + y + z
  {
  }

  lemma StrAssoc4(w: string, x: string, y: string, z: string)
    ensures w + x + y + z == w + (x + y + z)
  {
  }
}
