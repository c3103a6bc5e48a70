/** The channel-backed connection pool, as a sequential state machine.

    Every operation is a pure function from a pool state (plus what the outside world
    decides: the clock, whether the factory or a ping succeeds, which waiter `Put` picks)
    to a result and the next state. A goroutine that blocks in `Get` is split in two steps:
    `Get` returns `Waiting(id)` after registering the waiter, and a later `Wake(id)` (after a
    `Put` handed a connection to it) or `TimeOut(id)` finishes the call. */
module Pool {
  import opened Wrappers

  /** A non-nil connection handle; the factory hands out fresh numbers. */
  type Res = nat

  /** Instants and durations, in nanoseconds. */
  type Time = int

  datatype PoolError =
    | InvalidCapacity        // "invalid capacity settings"
    | InvalidFactory         // "invalid factory func settings"
    | InvalidClose           // "invalid close func settings"
    | InitFailed             // "init pool error, factory resp: ..."
    | FactoryFailed          // the factory's own error, returned by Get
    | Closed                 // ErrClosed
    | MaxActiveConnReached   // ErrMaxActiveConnReached
    | ExceedMaxWaitTimeout   // ErrExceedMaxWaitTimeout
    | NilConn                // "connection is nil. rejecting"
    | CloseCallbackFailed    // the close callback's own error

  /** The pool configuration; the three callbacks are reduced to whether they are set. */
  datatype Config = Config(
    initialCap: int,
    maxCap: int,
    maxIdle: int,
    hasFactory: bool,
    hasClose: bool,
    hasPing: bool,
    idleTimeout: Time,
    waitTimeOut: Time)

  /** A parked connection and the instant it was returned. */
  datatype IdleEntry = IdleEntry(conn: Res, t: Time)

  /** The pool. `released` means the idle channel and the callbacks have been cleared.
      `waiters` are the registered, not yet served waiter keys in registration order;
      `mailbox` holds hand-offs already sent to a waiter's channel but not yet received.
      `out` (connections held by callers) and `closedLog` (every call of the close
      callback, in order) are bookkeeping of the model, not fields of the Go struct. */
  datatype PoolState = PoolState(
    maxCap: int,
    maxIdle: int,
    idleTimeout: Time,
    wait: bool,
    hasPing: bool,
    opening: int,
    released: bool,
    idle: seq<IdleEntry>,
    waiters: seq<nat>,
    mailbox: map<nat, IdleEntry>,
    nextRequest: nat,
    nextConn: Res,
    out: set<Res>,
    closedLog: seq<Res>)

  /** The snapshot returned by `Stats`. */
  datatype Stats = Stats(activeCount: int, idleCount: int)

  /** How a (possibly resumed) `Get` call ends. */
  datatype GetResult = Got(conn: Res) | GetFailed(err: PoolError) | Waiting(id: nat)

  /** The error result of `Put` and `Close`. */
  datatype Outcome = Pass | Fail(err: PoolError)

  /** What a waiter's receive yields: a hand-off, or the closed-channel signal. */
  datatype Receipt = Delivered(entry: IdleEntry) | ChannelClosed

  /** How a timed-out wait ends in the code as written: an error, or a receive that never returns. */
  datatype TimeoutResult = TimedOut(err: PoolError) | Blocked

  /** The result of building a pool, with the connections closed while giving up. */
  datatype Built = Built(pool: Result<PoolState, PoolError>, closed: seq<Res>)

  // ---------------------------------------------------------------------------
  // Small vocabulary

  function ConnsOf(es: seq<IdleEntry>): (cs: seq<Res>)
    ensures |cs| == |es|
    ensures forall i :: 0 <= i < |es| ==> cs[i] == es[i].conn
  {
    seq(|es|, i requires 0 <= i < |es| => es[i].conn)
  }

  function IdleConns(es: seq<IdleEntry>): set<Res>
  {
    set i | 0 <= i < |es| :: es[i].conn
  }

  function MailConns(m: map<nat, IdleEntry>): set<Res>
  {
    set k | k in m :: m[k].conn
  }

  /** Every connection some owner holds: the idle store, a caller, or a waiter's channel. */
  function Live(s: PoolState): set<Res>
  {
    IdleConns(s.idle) + s.out + MailConns(s.mailbox)
  }

  predicate ValidCapacity(c: Config)
  {
    c.initialCap <= c.maxIdle && c.maxCap >= c.maxIdle && c.initialCap >= 0
  }

  /** Idle for longer than the timeout: `t + IdleTimeout` strictly before `now`. */
  predicate Stale(idleTimeout: Time, e: IdleEntry, now: Time)
  {
    idleTimeout > 0 && e.t + idleTimeout < now
  }

  /** `Get` discards this idle entry rather than returning it. */
  predicate Evictable(idleTimeout: Time, hasPing: bool, e: IdleEntry, now: Time, pingOk: Res -> bool)
  {
    Stale(idleTimeout, e, now) || (hasPing && !pingOk(e.conn))
  }

  /** The number of leading idle entries that `Get` evicts before it finds a usable one. */
  function EvictCount(idleTimeout: Time, hasPing: bool, es: seq<IdleEntry>, now: Time, pingOk: Res -> bool): (k: nat)
    ensures k <= |es|
    ensures forall i :: 0 <= i < k ==> Evictable(idleTimeout, hasPing, es[i], now, pingOk)
    ensures k < |es| ==> !Evictable(idleTimeout, hasPing, es[k], now, pingOk)
  {
    if |es| == 0 || !Evictable(idleTimeout, hasPing, es[0], now, pingOk) then 0
    else 1 + EvictCount(idleTimeout, hasPing, es[1..], now, pingOk)
  }

  function RemoveAt(ws: seq<nat>, k: nat): (r: seq<nat>)
    requires k < |ws|
    ensures |r| == |ws| - 1
    ensures forall x :: x in r ==> x in ws
  {
    ws[..k] + ws[k + 1..]
  }

  function RemoveKey(ws: seq<nat>, id: nat): (r: seq<nat>)
    ensures id !in r
    ensures forall x :: x in r <==> x in ws && x != id
    ensures |r| <= |ws|
  {
    if |ws| == 0 then []
    else if ws[0] == id then RemoveKey(ws[1..], id)
    else [ws[0]] + RemoveKey(ws[1..], id)
  }

  // ---------------------------------------------------------------------------
  // Invariant

  predicate IdleDistinct(es: seq<IdleEntry>)
  {
    forall i, j :: 0 <= i < j < |es| ==> es[i].conn != es[j].conn
  }

  predicate MailDistinct(m: map<nat, IdleEntry>)
  {
    forall a, b :: a in m && b in m && a != b ==> m[a].conn != m[b].conn
  }

  predicate WaitersDistinct(ws: seq<nat>)
  {
    forall i, j :: 0 <= i < j < |ws| ==> ws[i] != ws[j]
  }

  /** The capacity bounds: MaxIdle within MaxCap, the store within MaxIdle, the live count
      within MaxCap, and a released pool's store empty. */
  predicate Bounded(s: PoolState)
  {
    && 0 <= s.maxIdle <= s.maxCap
    && |s.idle| <= s.maxIdle
    && s.opening <= s.maxCap
    && (s.released ==> s.idle == [])
  }

  /** Single ownership: no connection is in two places, and every one was issued. */
  predicate Owned(s: PoolState)
  {
    && IdleDistinct(s.idle)
    && MailDistinct(s.mailbox)
    && IdleConns(s.idle) !! s.out
    && IdleConns(s.idle) !! MailConns(s.mailbox)
    && s.out !! MailConns(s.mailbox)
    && (forall c :: c in Live(s) ==> c < s.nextConn)
  }

  /** Waiter keys: distinct, issued, and a waiter is either pending or served, not both. */
  predicate Keyed(s: PoolState)
  {
    && WaitersDistinct(s.waiters)
    && (forall w :: w in s.waiters ==> 0 < w <= s.nextRequest && w !in s.mailbox)
    && (forall k :: k in s.mailbox ==> 0 < k <= s.nextRequest)
  }

  /** While the pool is open the live count is the number of owned connections. */
  predicate Counted(s: PoolState)
  {
    !s.released ==> s.opening == |s.idle| + |s.out| + |s.mailbox|
  }

  /** The pool invariant. */
  predicate Valid(s: PoolState)
  {
    Bounded(s) && Owned(s) && Keyed(s) && Counted(s)
  }

  // ---------------------------------------------------------------------------
  // Operations

  /** NewChannelPool: validate, then create `InitialCap` connections eagerly. The factory
      call numbered `failAt` (counting from 0), if any, fails. */
  function NewChannelPool(cfg: Config, now: Time, failAt: Option<nat>): (b: Built)
    ensures b.pool.Ok? <==>
              ValidCapacity(cfg) && cfg.hasFactory && cfg.hasClose
              && (failAt.None? || failAt.value >= cfg.initialCap)
    ensures !ValidCapacity(cfg) ==> b.pool == Err(InvalidCapacity) && b.closed == []
    ensures ValidCapacity(cfg) && !cfg.hasFactory ==> b.pool == Err(InvalidFactory) && b.closed == []
    ensures ValidCapacity(cfg) && cfg.hasFactory && !cfg.hasClose ==> b.pool == Err(InvalidClose) && b.closed == []
    ensures b.pool.Ok? ==>
              && b.closed == []
              && var p := b.pool.value;
              && Valid(p) && !p.released
              && p.opening == cfg.initialCap
              && |p.idle| == cfg.initialCap
              && (forall i :: 0 <= i < |p.idle| ==> p.idle[i].t == now)
              && p.out == {} && p.mailbox == map[] && p.waiters == [] && p.closedLog == []
              && p.wait == (cfg.waitTimeOut > 0)
    // giving up: every connection made so far is closed once, in creation order
    ensures b.pool == Err(InitFailed) ==>
              && failAt.Some?
              && |b.closed| == failAt.value
              && forall i :: 0 <= i < |b.closed| ==> b.closed[i] == i
  {
    if !ValidCapacity(cfg) then Built(Err(InvalidCapacity), [])
    else if !cfg.hasFactory then Built(Err(InvalidFactory), [])
    else if !cfg.hasClose then Built(Err(InvalidClose), [])
    else if failAt.Some? && failAt.value < cfg.initialCap then
      Built(Err(InitFailed), seq(failAt.value, i => i))
    else
      Built(Ok(InitialState(cfg, now)), [])
  }

  /** The pool NewChannelPool returns: `InitialCap` connections, numbered from 0, idle
      since `now`, and nothing else issued. */
  function InitialState(cfg: Config, now: Time): (p: PoolState)
    requires ValidCapacity(cfg)
    ensures Valid(p) && !p.released
    ensures p.opening == cfg.initialCap && |p.idle| == cfg.initialCap
    ensures forall i :: 0 <= i < |p.idle| ==> p.idle[i].t == now
    ensures p.out == {} && p.mailbox == map[] && p.waiters == [] && p.closedLog == []
    ensures p.wait == (cfg.waitTimeOut > 0)
  {
    var idle := seq(cfg.initialCap, i requires 0 <= i < cfg.initialCap => IdleEntry(i, now));
    var p := PoolState(cfg.maxCap, cfg.maxIdle, cfg.idleTimeout, cfg.waitTimeOut > 0, cfg.hasPing,
                       cfg.initialCap, false, idle, [], map[], 0, cfg.initialCap, {}, []);
    assert Bounded(p) && Keyed(p) && Counted(p);
    p
  }

  /** The pool's own Close on an idle connection: a no-op once released (the callback is
      cleared), otherwise the live count drops and the callback runs. */
  function CloseConn(s: PoolState, c: Res): (t: PoolState)
    ensures s.released ==> t == s
    ensures !s.released ==> t.opening == s.opening - 1 && t.closedLog == s.closedLog + [c]
    ensures t.idle == s.idle && t.out == s.out && t.mailbox == s.mailbox && t.waiters == s.waiters
    ensures t.released == s.released && t.nextConn == s.nextConn
  {
    if s.released then s else s.(opening := s.opening - 1, closedLog := s.closedLog + [c])
  }

  /** The `default:` branch of Get: no idle entry to take. Create if under MaxCap, fail fast
      when not waiting, otherwise register a waiter. */
  function Admit(s: PoolState, factoryOk: bool): (r: (GetResult, PoolState))
    ensures r.0.Got? <==> s.opening < s.maxCap && factoryOk
    ensures r.0.Got? ==>
              && r.0.conn == s.nextConn
              && r.1.opening == s.opening + 1 <= s.maxCap
              && r.1.out == s.out + {r.0.conn}
              && r.1.idle == s.idle && r.1.mailbox == s.mailbox && r.1.waiters == s.waiters
              && r.1.closedLog == s.closedLog
    ensures s.opening < s.maxCap && !factoryOk ==> r == (GetFailed(FactoryFailed), s)
    ensures s.opening >= s.maxCap && !s.wait ==> r == (GetFailed(MaxActiveConnReached), s)
    ensures s.opening >= s.maxCap && s.wait ==>
              && r.0.Waiting? && r.0.id > s.nextRequest
              && r.1 == s.(nextRequest := r.0.id, waiters := s.waiters + [r.0.id])
  {
    if s.opening < s.maxCap then
      if factoryOk then
        (Got(s.nextConn), s.(opening := s.opening + 1, nextConn := s.nextConn + 1, out := s.out + {s.nextConn}))
      else
        (GetFailed(FactoryFailed), s)
    else if !s.wait then
      (GetFailed(MaxActiveConnReached), s)
    else
      var id := s.nextRequest + 1;
      (Waiting(id), s.(nextRequest := id, waiters := s.waiters + [id]))
  }

  /** Get: `ErrClosed` once released (the channel is nil, or closed and drained); otherwise
      the `for` loop: take idle entries oldest first, closing each stale or ping-failing one
      and going round again, until one is usable; with none left fall through to `Admit`. */
  function Get(s: PoolState, now: Time, pingOk: Res -> bool, factoryOk: bool): (r: (GetResult, PoolState))
    decreases |s.idle|
    ensures s.released ==> r == (GetFailed(Closed), s)
    // Get never touches hand-offs in flight, nor the configuration
    ensures r.1.mailbox == s.mailbox && r.1.released == s.released
    ensures r.1.maxCap == s.maxCap && r.1.maxIdle == s.maxIdle && r.1.wait == s.wait
  {
    if s.released then (GetFailed(Closed), s)
    else if |s.idle| > 0 then
      var e := s.idle[0];
      var rest := s.(idle := s.idle[1..]);
      if Evictable(s.idleTimeout, s.hasPing, e, now, pingOk) then
        Get(CloseConn(rest, e.conn), now, pingOk, factoryOk)
      else
        (Got(e.conn), rest.(out := s.out + {e.conn}))
    else
      Admit(s, factoryOk)
  }

  /** What a waiting Get does with what it received (hand-off path): a closed channel is
      reported as `ErrMaxActiveConnReached`; a stale hand-off is closed and the loop goes on;
      the hand-off is never pinged. */
  function OnReceipt(s: PoolState, rc: Receipt, now: Time, pingOk: Res -> bool, factoryOk: bool): (r: (GetResult, PoolState))
    ensures rc == ChannelClosed ==> r == (GetFailed(MaxActiveConnReached), s)
    ensures rc.Delivered? && !Stale(s.idleTimeout, rc.entry, now) ==>
              r == (Got(rc.entry.conn), s.(out := s.out + {rc.entry.conn}))
    ensures rc.Delivered? && Stale(s.idleTimeout, rc.entry, now) ==>
              r == Get(CloseConn(s, rc.entry.conn), now, pingOk, factoryOk)
  {
    match rc
    case ChannelClosed => (GetFailed(MaxActiveConnReached), s)
    case Delivered(e) =>
      if Stale(s.idleTimeout, e, now) then Get(CloseConn(s, e.conn), now, pingOk, factoryOk)
      else (Got(e.conn), s.(out := s.out + {e.conn}))
  }

  /** A waiting Get resumes: it receives the hand-off sent to its key, if any; otherwise it
      is still blocked. */
  function Wake(s: PoolState, id: nat, now: Time, pingOk: Res -> bool, factoryOk: bool): (r: (GetResult, PoolState))
    ensures id !in s.mailbox ==> r == (Waiting(id), s)
    // the hand-off sent to this waiter is consumed; a fresh one is returned as it is
    ensures id in s.mailbox ==> id !in r.1.mailbox
    ensures id in s.mailbox && !Stale(s.idleTimeout, s.mailbox[id], now) ==> r.0 == Got(s.mailbox[id].conn)
  {
    if id in s.mailbox then
      OnReceipt(s.(mailbox := s.mailbox - {id}), Delivered(s.mailbox[id]), now, pingOk, factoryOk)
    else (Waiting(id), s)
  }

  /** Put: nil is rejected; once released the connection is "closed" by a cleared callback
      (nothing happens); otherwise hand it to the waiter at position `pick` (modulo the number
      of waiters), else park it if the store has room, else close it. */
  function Put(s: PoolState, conn: Option<Res>, now: Time, pick: nat, closeOk: bool): (r: (Outcome, PoolState))
    ensures conn.None? ==> r == (Fail(NilConn), s)
    ensures conn.Some? && s.released ==> r == (Pass, s.(out := s.out - {conn.value}))
    // hand-off: exactly one waiter leaves the queue and receives the connection stamped `now`;
    // the idle store and the live count are untouched
    ensures conn.Some? && !s.released && s.wait && |s.waiters| > 0 ==>
              && r.0 == Pass
              && var id := s.waiters[pick % |s.waiters|];
              && r.1.mailbox == s.mailbox[id := IdleEntry(conn.value, now)]
              && |r.1.waiters| == |s.waiters| - 1
              && (forall w :: w in r.1.waiters ==> w in s.waiters)
              && r.1.idle == s.idle && r.1.opening == s.opening && r.1.closedLog == s.closedLog
    // no waiter: park if fewer than MaxIdle are idle, else close
    ensures conn.Some? && !s.released && !(s.wait && |s.waiters| > 0) && |s.idle| < s.maxIdle ==>
              r == (Pass, s.(idle := s.idle + [IdleEntry(conn.value, now)], out := s.out - {conn.value}))
    ensures conn.Some? && !s.released && !(s.wait && |s.waiters| > 0) && |s.idle| >= s.maxIdle ==>
              && r.0 == (if closeOk then Pass else Fail(CloseCallbackFailed))
              && r.1.opening == s.opening - 1 && r.1.closedLog == s.closedLog + [conn.value]
              && r.1.idle == s.idle && r.1.out == s.out - {conn.value}
  {
    match conn
    case None => (Fail(NilConn), s)
    case Some(c) =>
      if s.released then (Pass, s.(out := s.out - {c}))
      else if s.wait && |s.waiters| > 0 then
        var k := pick % |s.waiters|;
        var id := s.waiters[k];
        (Pass, s.(waiters := RemoveAt(s.waiters, k), mailbox := s.mailbox[id := IdleEntry(c, now)],
                  out := s.out - {c}))
      else if |s.idle| < s.maxIdle then
        (Pass, s.(idle := s.idle + [IdleEntry(c, now)], out := s.out - {c}))
      else
        (if closeOk then Pass else Fail(CloseCallbackFailed),
         CloseConn(s, c).(out := s.out - {c}))
  }

  /** Close: a caller discards a connection. Nil is rejected; once released nothing happens
      (the callback is cleared); otherwise the live count drops and the callback runs. */
  function Close(s: PoolState, conn: Option<Res>, closeOk: bool): (r: (Outcome, PoolState))
    ensures conn.None? ==> r == (Fail(NilConn), s)
    ensures conn.Some? && s.released ==> r.0 == Pass && r.1.closedLog == s.closedLog && r.1.opening == s.opening
    ensures conn.Some? && !s.released ==>
              && r.0 == (if closeOk then Pass else Fail(CloseCallbackFailed))
              && r.1.opening == s.opening - 1 && r.1.closedLog == s.closedLog + [conn.value]
    ensures conn.Some? ==> r.1.out == s.out - {conn.value} && r.1.idle == s.idle
  {
    match conn
    case None => (Fail(NilConn), s)
    case Some(c) =>
      if s.released then (Pass, s.(out := s.out - {c}))
      else (if closeOk then Pass else Fail(CloseCallbackFailed), CloseConn(s, c).(out := s.out - {c}))
  }

  /** Release: clear the channel and callbacks, then close every parked connection in queue
      order. The live count is left as it was. A second Release finds the channel nil. */
  function Release(s: PoolState): (t: PoolState)
    ensures t.released
    ensures s.released ==> t == s
    ensures !s.released ==> t.idle == []
    ensures !s.released ==> t.closedLog == s.closedLog + ConnsOf(s.idle)
    ensures t.opening == s.opening && t.out == s.out && t.mailbox == s.mailbox && t.waiters == s.waiters
  {
    if s.released then s
    else s.(released := true, idle := [], closedLog := s.closedLog + ConnsOf(s.idle))
  }

  /** Len: the number of parked connections; a released pool's channel is nil, so 0. */
  function Len(s: PoolState): (n: nat)
    ensures s.released ==> n == 0
    ensures !s.released ==> n == |s.idle|
  {
    if s.released then 0 else |s.idle|
  }

  /** Stats: the live count and the idle count. */
  function GetStats(s: PoolState): (st: Stats)
    ensures st.activeCount == s.opening
    ensures st.idleCount == Len(s)
  {
    Stats(s.opening, Len(s))
  }

  /** The timeout branch of a waiting Get AS WRITTEN: the key is deleted, then the code does a
      plain receive on the waiter's channel. If a hand-off already arrived it is put back and
      the wait-timeout error returned; if not, nothing can ever arrive and the call blocks. */
  function TimeOutAsWritten(s: PoolState, id: nat, now: Time, pick: nat, closeOk: bool): (r: (TimeoutResult, PoolState))
    ensures id !in s.mailbox ==> r == (Blocked, s.(waiters := RemoveKey(s.waiters, id)))
    ensures id in s.mailbox ==> r.0 == TimedOut(ExceedMaxWaitTimeout)
  {
    var s1 := s.(waiters := RemoveKey(s.waiters, id));
    if id in s1.mailbox then
      var e := s1.mailbox[id];
      (TimedOut(ExceedMaxWaitTimeout), Put(s1.(mailbox := s1.mailbox - {id}, out := s1.out + {e.conn}),
                                           Some(e.conn), now, pick, closeOk).1)
    else (Blocked, s1)
  }

  /** The timeout branch as evidently intended: deregister, recycle a hand-off that arrived
      in the meantime through Put, and report the wait-timeout error in every case. */
  function TimeOut(s: PoolState, id: nat, now: Time, pick: nat, closeOk: bool): (r: (GetResult, PoolState))
    ensures r.0 == GetFailed(ExceedMaxWaitTimeout)
    ensures id !in r.1.waiters
    ensures id !in s.mailbox ==> r.1 == s.(waiters := RemoveKey(s.waiters, id))
  {
    var s1 := s.(waiters := RemoveKey(s.waiters, id));
    if id in s1.mailbox then
      var e := s1.mailbox[id];
      var t := Put(s1.(mailbox := s1.mailbox - {id}, out := s1.out + {e.conn}), Some(e.conn), now, pick, closeOk).1;
      assert id !in t.waiters;
      (GetFailed(ExceedMaxWaitTimeout), t)
    else (GetFailed(ExceedMaxWaitTimeout), s1)
  }
}
