/** The Redis pipeline of `redis/pipeline.go`: commands are queued by `Put` and sent
    together by `Exec`, which then reads one reply per queued command. The connection is
    a parameter: the outcome of the flush and the replies it returns. */
module RedisPipeline {
  import opened Wrappers

  /** A reply value as the connection returns it. */
  type Reply = nat

  /** A queued command, with the reply and error `Exec` records on it. */
  datatype Command = Command(cmd: string, args: seq<string>, reply: Option<Reply>, err: Option<string>)

  datatype Pipeline = Pipeline(cmds: seq<Command>, err: Option<string>)

  const NoKeyFound: string := "no key found in args"

  /** `Put`: a command without arguments is refused and the queue stays as it was;
      otherwise the command is appended at the end. */
  function Put(p: Pipeline, cmd: string, args: seq<string>): (r: (Pipeline, Option<string>))
    ensures args == [] <==> r.1 == Some(NoKeyFound)
    ensures args == [] ==> r.0 == p
    ensures args != [] ==> r.1.None? && r.0.err == p.err
    ensures args != [] ==> |r.0.cmds| == |p.cmds| + 1 && r.0.cmds[..|p.cmds|] == p.cmds
    ensures args != [] ==> r.0.cmds[|p.cmds|] == Command(cmd, args, None, None)
  {
    if |args| < 1 then (p, Some(NoKeyFound))
    else (p.(cmds := p.cmds + [Command(cmd, args, None, None)]), None)
  }

  /** What `Exec` leaves: the pipeline with its bookkeeping, the commands sent in order,
      the replies returned, the error returned, and the logged ral code. */
  datatype ExecResult = ExecResult(p: Pipeline, sent: seq<(string, seq<string>)>, res: seq<Reply>, err: Option<string>, ralCode: int)

  /** `Exec`: send every queued command in order and flush. A failed flush returns no
      replies and is stored on the pipeline. Otherwise one reply is received per command,
      in order, and recorded with its error on the command; the error returned is the last
      receive's. The queue is not emptied. `replies[k]` is what receive k returns. */
  method Exec(p: Pipeline, flushErr: Option<string>, replies: seq<(Reply, Option<string>)>) returns (out: ExecResult)
    requires |replies| >= |p.cmds|
    ensures |out.sent| == |p.cmds|
    ensures forall k | 0 <= k < |p.cmds| :: out.sent[k] == (p.cmds[k].cmd, p.cmds[k].args)
    ensures |out.p.cmds| == |p.cmds|
    ensures forall k | 0 <= k < |p.cmds| :: out.p.cmds[k].cmd == p.cmds[k].cmd && out.p.cmds[k].args == p.cmds[k].args
    ensures flushErr.Some? ==> out.res == [] && out.err == flushErr && out.p == p.(err := flushErr) && out.ralCode == -1
    ensures flushErr.None? ==> out.ralCode == 0 && out.p.err == p.err
    ensures flushErr.None? ==> |out.res| == |p.cmds|
    ensures flushErr.None? ==> forall k | 0 <= k < |p.cmds| ::
              out.res[k] == replies[k].0 && out.p.cmds[k].reply == Some(replies[k].0) && out.p.cmds[k].err == replies[k].1
    ensures flushErr.None? ==> out.err == (if p.cmds == [] then None else replies[|p.cmds| - 1].1)
  {
    var sent: seq<(string, seq<string>)> := [];
    var i := 0;
    while i < |p.cmds|
      invariant 0 <= i <= |p.cmds| && |sent| == i
      invariant forall k | 0 <= k < i :: sent[k] == (p.cmds[k].cmd, p.cmds[k].args)
    {
      sent := sent + [(p.cmds[i].cmd, p.cmds[i].args)];
      i := i + 1;
    }
    if flushErr.Some? {
      return ExecResult(p.(err := flushErr), sent, [], flushErr, -1);
    }
    var cmds := p.cmds;
    var res: seq<Reply> := [];
    var err: Option<string> := None;
    i := 0;
    while i < |cmds|
      invariant 0 <= i <= |cmds| && |cmds| == |p.cmds| && |res| == i
      invariant forall k | 0 <= k < |cmds| :: cmds[k].cmd == p.cmds[k].cmd && cmds[k].args == p.cmds[k].args
      invariant forall k | 0 <= k < i :: res[k] == replies[k].0 && cmds[k].reply == Some(replies[k].0) && cmds[k].err == replies[k].1
      invariant err == (if i == 0 then None else replies[i - 1].1)
    {
      var (reply, e) := replies[i];
      res := res + [reply];
      err := e;
      cmds := cmds[i := cmds[i].(reply := Some(reply), err := e)];
      i := i + 1;
    }
    return ExecResult(p.(cmds := cmds), sent, res, err, 0);
  }

  /** Queuing keeps order: after two successful puts the earlier command comes first,
      and both sit behind what was queued before. */
  lemma PutKeepsOrder(p: Pipeline, c1: string, a1: seq<string>, c2: string, a2: seq<string>)
    requires a1 != [] && a2 != []
    ensures var q := Put(Put(p, c1, a1).0, c2, a2).0;
      q.cmds == p.cmds + [Command(c1, a1, None, None), Command(c2, a2, None, None)]
  {
  }
}
