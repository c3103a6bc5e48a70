/** Properties of the pool state machine: the ownership and capacity invariant is kept by
    every operation, `Get` never hands out an evictable idle connection, and the shutdown,
    hand-off and statistics behaviour of the Go code. */
module PoolProps {
  import opened Wrappers
  import opened Pool

  // ---------------------------------------------------------------------------
  // Set bookkeeping

  lemma IdleConnsCons(es: seq<IdleEntry>)
    requires |es| > 0
    ensures IdleConns(es) == {es[0].conn} + IdleConns(es[1..])
  {
    forall c | c in IdleConns(es) ensures c in {es[0].conn} + IdleConns(es[1..]) {
      var i :| 0 <= i < |es| && es[i].conn == c;
      if i > 0 { assert es[1..][i - 1].conn == c; }
    }
    forall c | c in IdleConns(es[1..]) ensures c in IdleConns(es) {
      var i :| 0 <= i < |es[1..]| && es[1..][i].conn == c;
      assert es[i + 1].conn == c;
    }
  }

  lemma IdleConnsSnoc(es: seq<IdleEntry>, e: IdleEntry)
    ensures IdleConns(es + [e]) == IdleConns(es) + {e.conn}
  {
    var xs := es + [e];
    forall c | c in IdleConns(xs) ensures c in IdleConns(es) + {e.conn} {
      var i :| 0 <= i < |xs| && xs[i].conn == c;
      if i < |es| { assert es[i].conn == c; }
    }
    forall c | c in IdleConns(es) ensures c in IdleConns(xs) {
      var i :| 0 <= i < |es| && es[i].conn == c;
      assert xs[i].conn == c;
    }
    assert xs[|es|].conn == e.conn;
  }

  lemma MailConnsAdd(m: map<nat, IdleEntry>, id: nat, e: IdleEntry)
    requires id !in m
    ensures MailConns(m[id := e]) == MailConns(m) + {e.conn}
  {
    var m' := m[id := e];
    forall c | c in MailConns(m) ensures c in MailConns(m') {
      var k :| k in m && m[k].conn == c;
      assert m'[k].conn == c;
    }
    assert m'[id].conn == e.conn;
  }

  lemma MailConnsRemove(m: map<nat, IdleEntry>, id: nat)
    requires id in m && MailDistinct(m)
    ensures MailConns(m - {id}) == MailConns(m) - {m[id].conn}
  {
    var m' := m - {id};
    forall c | c in MailConns(m) - {m[id].conn} ensures c in MailConns(m') {
      var k :| k in m && m[k].conn == c;
      assert k != id;
      assert m'[k].conn == c;
    }
  }

  // ---------------------------------------------------------------------------
  // Every operation keeps the invariant

  /** One trip round Get's loop that closes the oldest idle entry. */
  lemma EvictStepValid(s: PoolState)
    requires Valid(s) && !s.released && |s.idle| > 0
    ensures Valid(CloseConn(s.(idle := s.idle[1..]), s.idle[0].conn))
  {
    IdleConnsCons(s.idle);
    var t := CloseConn(s.(idle := s.idle[1..]), s.idle[0].conn);
    assert IdleConns(t.idle) <= IdleConns(s.idle);
    assert Live(t) <= Live(s);
  }

  /** Handing the oldest idle entry to the caller keeps single ownership. */
  lemma TakeOwned(s: PoolState, t: PoolState)
    requires Owned(s) && |s.idle| > 0
    requires t.idle == s.idle[1..] && t.out == s.out + {s.idle[0].conn}
    requires t.mailbox == s.mailbox && t.nextConn == s.nextConn
    ensures Owned(t)
  {
    IdleConnsCons(s.idle);
    assert s.idle[0].conn in IdleConns(s.idle);
    assert Live(t) == Live(s);
    forall i, j | 0 <= i < j < |t.idle| ensures t.idle[i].conn != t.idle[j].conn {
      assert t.idle[i] == s.idle[i + 1] && t.idle[j] == s.idle[j + 1];
    }
  }

  /** The trip round Get's loop that hands out the oldest idle entry. */
  lemma TakeStepValid(s: PoolState)
    requires Valid(s) && |s.idle| > 0
    ensures Valid(s.(idle := s.idle[1..], out := s.out + {s.idle[0].conn}))
  {
    TakeOwned(s, s.(idle := s.idle[1..], out := s.out + {s.idle[0].conn}));
  }

  /** Registering a new waiter key above every issued key keeps the keys consistent. */
  lemma RegisterKeyed(s: PoolState)
    requires Keyed(s)
    ensures Keyed(s.(nextRequest := s.nextRequest + 1, waiters := s.waiters + [s.nextRequest + 1]))
  {
    var id := s.nextRequest + 1;
    var t := s.(nextRequest := id, waiters := s.waiters + [id]);
    forall i, j | 0 <= i < j < |t.waiters| ensures t.waiters[i] != t.waiters[j] {
      if j == |s.waiters| { assert t.waiters[i] == s.waiters[i] && s.waiters[i] in s.waiters; }
    }
    forall w | w in t.waiters ensures 0 < w <= t.nextRequest && w !in t.mailbox {
      if w != id { assert w in s.waiters; }
    }
  }

  /** Ownership depends only on the three owners and the next connection number. */
  lemma OwnedFrame(s: PoolState, t: PoolState)
    requires Owned(s)
    requires t.idle == s.idle && t.out == s.out && t.mailbox == s.mailbox && t.nextConn == s.nextConn
    ensures Owned(t)
  {
    assert Live(t) == Live(s);
  }

  lemma AdmitValid(s: PoolState, factoryOk: bool)
    requires Valid(s) && !s.released
    ensures Valid(Admit(s, factoryOk).1)
  {
    var t := Admit(s, factoryOk).1;
    if s.opening < s.maxCap && factoryOk {
      assert t == s.(opening := s.opening + 1, nextConn := s.nextConn + 1, out := s.out + {s.nextConn});
      CreateValid(s);
    } else if s.opening >= s.maxCap && s.wait {
      assert t == s.(nextRequest := s.nextRequest + 1, waiters := s.waiters + [s.nextRequest + 1]);
      RegisterValid(s);
    } else {
      assert t == s;
    }
  }

  /** Handing a fresh connection to the caller keeps the invariant. */
  lemma CreateValid(s: PoolState)
    requires Valid(s) && !s.released && s.opening < s.maxCap
    ensures Valid(s.(opening := s.opening + 1, nextConn := s.nextConn + 1, out := s.out + {s.nextConn}))
  {
    var t := s.(opening := s.opening + 1, nextConn := s.nextConn + 1, out := s.out + {s.nextConn});
    CreateOwned(s);
    assert s.nextConn !in s.out by {
      assert s.out <= Live(s);
    }
    assert Counted(t) by {
      assert |t.out| == |s.out| + 1;
    }
    KeyedFrame(s, t);
  }

  /** The waiter bookkeeping depends only on the waiters, the mailbox and the request
      counter. */
  lemma KeyedFrame(s: PoolState, t: PoolState)
    requires Keyed(s)
    requires t.waiters == s.waiters && t.mailbox == s.mailbox && t.nextRequest == s.nextRequest
    ensures Keyed(t)
  {
  }

  /** Parking the caller under a fresh waiter key keeps the invariant. */
  lemma RegisterValid(s: PoolState)
    requires Valid(s)
    ensures Valid(s.(nextRequest := s.nextRequest + 1, waiters := s.waiters + [s.nextRequest + 1]))
  {
    RegisterKeyed(s);
    OwnedFrame(s, s.(nextRequest := s.nextRequest + 1, waiters := s.waiters + [s.nextRequest + 1]));
  }

  /** Issuing the next connection number to a caller keeps single ownership. */
  lemma CreateOwned(s: PoolState)
    requires Owned(s)
    ensures Owned(s.(opening := s.opening + 1, nextConn := s.nextConn + 1, out := s.out + {s.nextConn}))
  {
    var t := s.(opening := s.opening + 1, nextConn := s.nextConn + 1, out := s.out + {s.nextConn});
    assert s.nextConn !in Live(s);
    assert Live(t) == Live(s) + {s.nextConn};
  }

  lemma {:induction false} GetValid(s: PoolState, now: Time, pingOk: Res -> bool, factoryOk: bool)
    requires Valid(s)
    ensures Valid(Get(s, now, pingOk, factoryOk).1)
    decreases |s.idle|
  {
    if s.released {
    } else if |s.idle| > 0 {
      var e := s.idle[0];
      if Evictable(s.idleTimeout, s.hasPing, e, now, pingOk) {
        EvictStepValid(s);
        GetValid(CloseConn(s.(idle := s.idle[1..]), e.conn), now, pingOk, factoryOk);
      } else {
        TakeStepValid(s);
      }
    } else {
      AdmitValid(s, factoryOk);
    }
  }

  /** Serving the waiter at position k keeps the keys consistent. */
  lemma ServeKeyed(s: PoolState, k: nat, e: IdleEntry)
    requires Keyed(s) && k < |s.waiters|
    ensures Keyed(s.(waiters := RemoveAt(s.waiters, k), mailbox := s.mailbox[s.waiters[k] := e]))
  {
    var id := s.waiters[k];
    var t := s.(waiters := RemoveAt(s.waiters, k), mailbox := s.mailbox[id := e]);
    assert id in s.waiters;
    assert t.waiters == s.waiters[..k] + s.waiters[k + 1..];
    forall i, j | 0 <= i < j < |t.waiters| ensures t.waiters[i] != t.waiters[j] {
      var i' := if i < k then i else i + 1;
      var j' := if j < k then j else j + 1;
      assert t.waiters[i] == s.waiters[i'] && t.waiters[j] == s.waiters[j'];
    }
    forall w | w in t.waiters ensures 0 < w <= t.nextRequest && w !in t.mailbox {
      var i :| 0 <= i < |t.waiters| && t.waiters[i] == w;
      var i' := if i < k then i else i + 1;
      assert w == s.waiters[i'];
    }
  }

  /** Moving a caller's connection into a fresh waiter slot keeps single ownership. */
  lemma HandOffOwned(s: PoolState, t: PoolState, c: Res, id: nat, now: Time)
    requires Owned(s) && c in s.out && id !in s.mailbox
    requires t.idle == s.idle && t.out == s.out - {c} && t.nextConn == s.nextConn
    requires t.mailbox == s.mailbox[id := IdleEntry(c, now)]
    ensures Owned(t)
  {
    MailConnsAdd(s.mailbox, id, IdleEntry(c, now));
    assert Live(t) == Live(s);
    forall a, b | a in t.mailbox && b in t.mailbox && a != b ensures t.mailbox[a].conn != t.mailbox[b].conn {
      if a == id { assert t.mailbox[b].conn in MailConns(s.mailbox); }
      else if b == id { assert t.mailbox[a].conn in MailConns(s.mailbox); }
    }
  }

  lemma PutHandOffValid(s: PoolState, c: Res, now: Time, pick: nat)
    requires Valid(s) && c in s.out && !s.released && s.wait && |s.waiters| > 0
    ensures Valid(s.(waiters := RemoveAt(s.waiters, pick % |s.waiters|),
                     mailbox := s.mailbox[s.waiters[pick % |s.waiters|] := IdleEntry(c, now)],
                     out := s.out - {c}))
  {
    var k := pick % |s.waiters|;
    var id := s.waiters[k];
    var t := s.(waiters := RemoveAt(s.waiters, k), mailbox := s.mailbox[id := IdleEntry(c, now)], out := s.out - {c});
    assert id in s.waiters;
    ServeKeyed(s, k, IdleEntry(c, now));
    HandOffOwned(s, t, c, id, now);
  }

  /** Parking a caller's connection at the back of the store keeps single ownership. */
  lemma ParkOwned(s: PoolState, t: PoolState, c: Res, now: Time)
    requires Owned(s) && c in s.out
    requires t.idle == s.idle + [IdleEntry(c, now)] && t.out == s.out - {c}
    requires t.mailbox == s.mailbox && t.nextConn == s.nextConn
    ensures Owned(t)
  {
    IdleConnsSnoc(s.idle, IdleEntry(c, now));
    assert Live(t) == Live(s);
    forall i, j | 0 <= i < j < |t.idle| ensures t.idle[i].conn != t.idle[j].conn {
      if j == |s.idle| { assert t.idle[i].conn in IdleConns(s.idle); }
    }
  }

  lemma PutParkValid(s: PoolState, c: Res, now: Time)
    requires Valid(s) && c in s.out && !s.released && |s.idle| < s.maxIdle
    ensures Valid(s.(idle := s.idle + [IdleEntry(c, now)], out := s.out - {c}))
  {
    var t := s.(idle := s.idle + [IdleEntry(c, now)], out := s.out - {c});
    ParkOwned(s, t, c, now);
  }

  /** Dropping a caller's connection keeps single ownership. */
  lemma DropOwned(s: PoolState, t: PoolState, c: Res)
    requires Owned(s)
    requires t.idle == s.idle && t.out == s.out - {c} && t.mailbox == s.mailbox && t.nextConn == s.nextConn
    ensures Owned(t)
  {
    assert Live(t) <= Live(s);
  }

  lemma PutValid(s: PoolState, c: Res, now: Time, pick: nat, closeOk: bool)
    requires Valid(s) && c in s.out
    ensures Valid(Put(s, Some(c), now, pick, closeOk).1)
  {
    var t := Put(s, Some(c), now, pick, closeOk).1;
    if s.released {
      DropOwned(s, t, c);
    } else if s.wait && |s.waiters| > 0 {
      PutHandOffValid(s, c, now, pick);
    } else if |s.idle| < s.maxIdle {
      PutParkValid(s, c, now);
    } else {
      DropOwned(s, t, c);
    }
  }

  lemma CloseValid(s: PoolState, c: Res, closeOk: bool)
    requires Valid(s) && c in s.out
    ensures Valid(Close(s, Some(c), closeOk).1)
  {
    DropOwned(s, Close(s, Some(c), closeOk).1, c);
  }

  lemma ReleaseValid(s: PoolState)
    requires Valid(s)
    ensures Valid(Release(s))
  {
    assert Live(Release(s)) <= Live(s);
  }

  /** A waiter takes its hand-off out of its slot: the connection is either the caller's
      (`keep`) or closed, and ownership stays single. */
  lemma ReceiveOwned(s: PoolState, t: PoolState, id: nat, keep: bool)
    requires Owned(s) && id in s.mailbox
    requires t.idle == s.idle && t.mailbox == s.mailbox - {id} && t.nextConn == s.nextConn
    requires t.out == if keep then s.out + {s.mailbox[id].conn} else s.out
    ensures Owned(t)
  {
    MailConnsRemove(s.mailbox, id);
    assert s.mailbox[id].conn in MailConns(s.mailbox);
    assert Live(t) <= Live(s);
  }

  lemma ReceiveKeyed(s: PoolState, t: PoolState, id: nat)
    requires Keyed(s) && id in s.mailbox
    requires t.waiters == s.waiters && t.mailbox == s.mailbox - {id} && t.nextRequest == s.nextRequest
    ensures Keyed(t)
  {
  }

  lemma WakeValid(s: PoolState, id: nat, now: Time, pingOk: Res -> bool, factoryOk: bool)
    requires Valid(s)
    ensures Valid(Wake(s, id, now, pingOk, factoryOk).1)
  {
    if id in s.mailbox {
      var e := s.mailbox[id];
      var s1 := s.(mailbox := s.mailbox - {id});
      if Stale(s.idleTimeout, e, now) {
        var s2 := CloseConn(s1, e.conn);
        ReceiveOwned(s, s2, id, false);
        ReceiveKeyed(s, s2, id);
        GetValid(s2, now, pingOk, factoryOk);
      } else {
        var s2 := s1.(out := s1.out + {e.conn});
        ReceiveOwned(s, s2, id, true);
        ReceiveKeyed(s, s2, id);
      }
    }
  }

  /** Withdrawing a key from the waiter list keeps the keys consistent. */
  lemma WithdrawKeyed(s: PoolState, id: nat)
    requires Keyed(s)
    ensures Keyed(s.(waiters := RemoveKey(s.waiters, id)))
  {
    RemoveKeyDistinct(s.waiters, id);
  }

  lemma TimeOutValid(s: PoolState, id: nat, now: Time, pick: nat, closeOk: bool)
    requires Valid(s)
    ensures Valid(TimeOut(s, id, now, pick, closeOk).1)
  {
    var s1 := s.(waiters := RemoveKey(s.waiters, id));
    WithdrawKeyed(s, id);
    OwnedFrame(s, s1);
    if id in s1.mailbox {
      var e := s1.mailbox[id];
      var s2 := s1.(mailbox := s1.mailbox - {id}, out := s1.out + {e.conn});
      ReceiveOwned(s1, s2, id, true);
      ReceiveKeyed(s1, s2, id);
      PutValid(s2, e.conn, now, pick, closeOk);
    }
  }

  lemma {:induction false} RemoveKeyDistinct(ws: seq<nat>, id: nat)
    requires WaitersDistinct(ws)
    ensures WaitersDistinct(RemoveKey(ws, id))
  {
    if |ws| > 0 {
      assert WaitersDistinct(ws[1..]) by {
        forall i, j | 0 <= i < j < |ws[1..]| ensures ws[1..][i] != ws[1..][j] {
          assert ws[1..][i] == ws[i + 1] && ws[1..][j] == ws[j + 1];
        }
      }
      RemoveKeyDistinct(ws[1..], id);
      if ws[0] != id {
        var r := RemoveKey(ws[1..], id);
        assert ws[0] !in ws[1..];
        assert ws[0] !in r;
      }
    }
  }

  /** A freshly built pool reports `InitialCap` connections, all idle; asked at the
      instant it was built, its first `Get` hands out the first connection created,
      unless a failing ping discards it; and with no connections made up front, the
      first `Get` opens one through the factory. */
  lemma FreshPoolServesFirstConnection(cfg: Config, now: Time, failAt: Option<nat>, pingOk: Res -> bool,
                                       factoryOk: bool)
    requires NewChannelPool(cfg, now, failAt).pool.Ok?
    ensures var p := NewChannelPool(cfg, now, failAt).pool.value;
      && GetStats(p) == Stats(cfg.initialCap, cfg.initialCap)
      && (cfg.initialCap > 0 && (!cfg.hasPing || pingOk(p.idle[0].conn)) ==>
            Get(p, now, pingOk, factoryOk).0 == Got(p.idle[0].conn))
      && (cfg.initialCap == 0 && cfg.maxCap > 0 && factoryOk ==> Get(p, now, pingOk, factoryOk).0.Got?)
  {
  }

  // ---------------------------------------------------------------------------
  // Acquisition

  lemma ConnsOfCons(es: seq<IdleEntry>, k: nat)
    requires 0 < k <= |es|
    ensures ConnsOf(es[..k]) == [es[0].conn] + ConnsOf(es[1..][..k - 1])
  {
    assert es[1..][..k - 1] == es[1..k];
  }

  /** The pool after `n` evictions from the front of the store, with the `n` callbacks logged. */
  function Evicted(s: PoolState, n: nat): (t: PoolState)
    requires n <= |s.idle|
  {
    s.(idle := s.idle[n..], opening := s.opening - n, closedLog := s.closedLog + ConnsOf(s.idle[..n]))
  }

  /** One eviction followed by n more is n + 1 evictions. */
  lemma EvictedStep(s: PoolState, n: nat)
    requires !s.released && n < |s.idle|
    ensures Evicted(CloseConn(s.(idle := s.idle[1..]), s.idle[0].conn), n) == Evicted(s, n + 1)
  {
    var s1 := CloseConn(s.(idle := s.idle[1..]), s.idle[0].conn);
    assert s1.idle[n..] == s.idle[n + 1..];
    ConnsOfCons(s.idle, n + 1);
    assert s1.closedLog + ConnsOf(s1.idle[..n]) == s.closedLog + ConnsOf(s.idle[..n + 1]);
  }

  /** Get takes idle entries oldest first: it closes exactly the leading run of stale or
      ping-failing entries (the live count drops by their number), then returns the first
      usable one and leaves the rest parked. */
  lemma {:induction false} GetTakesFirstUsable(s: PoolState, now: Time, pingOk: Res -> bool, factoryOk: bool)
    requires !s.released
    requires EvictCount(s.idleTimeout, s.hasPing, s.idle, now, pingOk) < |s.idle|
    decreases |s.idle|
    ensures var k := EvictCount(s.idleTimeout, s.hasPing, s.idle, now, pingOk);
            var e := Evicted(s, k);
            Get(s, now, pingOk, factoryOk)
            == (Got(s.idle[k].conn), e.(idle := e.idle[1..], out := e.out + {s.idle[k].conn}))
  {
    var k := EvictCount(s.idleTimeout, s.hasPing, s.idle, now, pingOk);
    if Evictable(s.idleTimeout, s.hasPing, s.idle[0], now, pingOk) {
      var s1 := CloseConn(s.(idle := s.idle[1..]), s.idle[0].conn);
      GetTakesFirstUsable(s1, now, pingOk, factoryOk);
      assert EvictCount(s.idleTimeout, s.hasPing, s1.idle, now, pingOk) == k - 1;
      EvictedStep(s, k - 1);
    } else {
      EvictedNone(s);
    }
  }

  lemma EvictedNone(s: PoolState)
    ensures Evicted(s, 0) == s
  {
    assert s.idle[..0] == [] && s.idle[0..] == s.idle;
  }

  /** When every idle entry is stale or fails its ping, Get closes them all, in order, and
      then behaves as on an empty store: create under MaxCap, else fail fast or wait. */
  lemma {:induction false} GetFallsThrough(s: PoolState, now: Time, pingOk: Res -> bool, factoryOk: bool)
    requires !s.released
    requires EvictCount(s.idleTimeout, s.hasPing, s.idle, now, pingOk) == |s.idle|
    decreases |s.idle|
    ensures Get(s, now, pingOk, factoryOk) == Admit(Evicted(s, |s.idle|), factoryOk)
  {
    if |s.idle| == 0 {
      EvictedNone(s);
    } else {
      var s1 := CloseConn(s.(idle := s.idle[1..]), s.idle[0].conn);
      GetFallsThrough(s1, now, pingOk, factoryOk);
      EvictedStep(s, |s.idle| - 1);
    }
  }

  lemma IdleBelowNext(s: PoolState, i: nat)
    requires Owned(s) && i < |s.idle|
    ensures s.idle[i].conn < s.nextConn
  {
    assert s.idle[i].conn in IdleConns(s.idle);
    assert s.idle[i].conn in Live(s);
  }

  lemma GetNeverReturnsEvictable(s: PoolState, now: Time, pingOk: Res -> bool, factoryOk: bool, i: nat)
    requires Owned(s) && !s.released && i < |s.idle|
    requires Evictable(s.idleTimeout, s.hasPing, s.idle[i], now, pingOk)
    ensures Get(s, now, pingOk, factoryOk).0 != Got(s.idle[i].conn)
  {
    var k := EvictCount(s.idleTimeout, s.hasPing, s.idle, now, pingOk);
    if k < |s.idle| {
      GetTakesFirstUsable(s, now, pingOk, factoryOk);
      assert i != k;
      assert IdleDistinct(s.idle);
      if i < k { assert s.idle[i].conn != s.idle[k].conn; }
      else { assert s.idle[k].conn != s.idle[i].conn; }
    } else {
      GetFallsThrough(s, now, pingOk, factoryOk);
      IdleBelowNext(s, i);
    }
  }

  /** With nothing idle and room under MaxCap, a failing factory leaves the pool exactly as
      it was: the optimistic increment is undone. */
  lemma FactoryFailureRestoresCount(s: PoolState, now: Time, pingOk: Res -> bool)
    requires !s.released && s.idle == [] && s.opening < s.maxCap
    ensures Get(s, now, pingOk, false) == (GetFailed(FactoryFailed), s)
  {
  }

  /** Without waiting (WaitTimeOut <= 0), a saturated pool with nothing idle fails at once
      and is left unchanged. */
  lemma SaturatedFailsFast(s: PoolState, now: Time, pingOk: Res -> bool, factoryOk: bool)
    requires !s.released && s.idle == [] && s.opening >= s.maxCap && !s.wait
    ensures Get(s, now, pingOk, factoryOk) == (GetFailed(MaxActiveConnReached), s)
  {
  }

  /** A waiting-enabled pool, saturated with nothing idle, parks the caller as a new waiter. */
  lemma SaturatedRegistersWaiter(s: PoolState, now: Time, pingOk: Res -> bool, factoryOk: bool)
    requires Valid(s) && !s.released && s.idle == [] && s.opening >= s.maxCap && s.wait
    ensures var r := Get(s, now, pingOk, factoryOk);
            && r.0.Waiting? && r.0.id !in s.waiters && r.0.id !in s.mailbox
            && r.1.waiters == s.waiters + [r.0.id] && r.1.opening == s.opening
  {
  }

  // ---------------------------------------------------------------------------
  // Hand-off

  /** A Put while some Get waits hands that exact connection to the waiter it picks: when
      the waiter wakes before the connection goes stale it gets the very same connection,
      not a new one, and the idle store was never involved. */
  lemma HandOffDeliversSameConnection(s: PoolState, c: Res, now: Time, pick: nat, closeOk: bool,
                                      later: Time, pingOk: Res -> bool, factoryOk: bool)
    requires Valid(s) && !s.released && s.wait && |s.waiters| > 0 && c in s.out
    requires !Stale(s.idleTimeout, IdleEntry(c, now), later)
    ensures var id := s.waiters[pick % |s.waiters|];
            var t := Put(s, Some(c), now, pick, closeOk).1;
            && id !in t.waiters
            && t.idle == s.idle
            && Wake(t, id, later, pingOk, factoryOk).0 == Got(c)
  {
  }

  /** Put only ever writes to the slot of a registered waiter. */
  lemma PutServesOnlyWaiters(s: PoolState, conn: Option<Res>, now: Time, pick: nat, closeOk: bool, id: nat)
    requires id !in s.waiters && id !in s.mailbox
    ensures id !in Put(s, conn, now, pick, closeOk).1.mailbox
    ensures id !in Put(s, conn, now, pick, closeOk).1.waiters
  {
  }

  // ---------------------------------------------------------------------------
  // Shutdown

  /** Release closes every parked connection exactly once and leaves the live count alone. */
  lemma ReleaseClosesEachIdleOnce(s: PoolState)
    requires Valid(s) && !s.released
    ensures var t := Release(s);
            && t.closedLog == s.closedLog + ConnsOf(s.idle)
            && (forall i, j :: |s.closedLog| <= i < j < |t.closedLog| ==> t.closedLog[i] != t.closedLog[j])
            && (forall c :: c in IdleConns(s.idle) <==> c in t.closedLog[|s.closedLog|..])
            && t.opening == s.opening
  {
    var t := Release(s);
    forall i, j | |s.closedLog| <= i < j < |t.closedLog| ensures t.closedLog[i] != t.closedLog[j] {
      assert t.closedLog[i] == s.idle[i - |s.closedLog|].conn;
      assert t.closedLog[j] == s.idle[j - |s.closedLog|].conn;
    }
    assert t.closedLog[|s.closedLog|..] == ConnsOf(s.idle);
    forall c | c in IdleConns(s.idle) ensures c in ConnsOf(s.idle) {
      var i :| 0 <= i < |s.idle| && s.idle[i].conn == c;
      assert ConnsOf(s.idle)[i] == c;
    }
  }

  /** Release is idempotent and terminal: afterwards Get reports ErrClosed, Put and Close of
      a non-nil connection succeed without calling the close callback or touching the live
      count, and Len is 0. */
  lemma ReleaseTerminal(s: PoolState, now: Time, pingOk: Res -> bool, factoryOk: bool,
                        c: Res, pick: nat, closeOk: bool)
    ensures var t := Release(s);
            && Release(t) == t
            && Get(t, now, pingOk, factoryOk) == (GetFailed(Closed), t)
            && Put(t, Some(c), now, pick, closeOk).0 == Pass
            && Put(t, Some(c), now, pick, closeOk).1.closedLog == t.closedLog
            && Put(t, Some(c), now, pick, closeOk).1.opening == t.opening
            && Close(t, Some(c), closeOk).0 == Pass
            && Close(t, Some(c), closeOk).1.closedLog == t.closedLog
            && Len(t) == 0
  {
  }

  // ---------------------------------------------------------------------------
  // Statistics

  /** ActiveCount counts idle and in-use connections, IdleCount only idle ones, so the
      in-use count ActiveCount - IdleCount is the number of connections held by callers or
      in flight to a waiter, and never negative. */
  lemma StatsCounts(s: PoolState)
    requires Valid(s) && !s.released
    ensures var st := GetStats(s);
            && st.idleCount == Len(s) == |s.idle|
            && st.idleCount <= st.activeCount <= s.maxCap
            && st.activeCount - st.idleCount == |s.out| + |s.mailbox|
  {
  }

  // ---------------------------------------------------------------------------
  // The wait timeout

  /** As written, a waiter that times out before any hand-off reached it blocks for good:
      its key is gone, so no later Put can serve it, and Get never writes to a waiter slot. */
  lemma TimedOutWaiterBlocksForever(s: PoolState, id: nat, now: Time, pick: nat, closeOk: bool,
                                    c: Option<Res>, pick2: nat, later: Time)
    requires Valid(s) && id in s.waiters
    ensures var r := TimeOutAsWritten(s, id, now, pick, closeOk);
            && r.0 == Blocked
            && id !in r.1.waiters && id !in r.1.mailbox
            && id !in Put(r.1, c, later, pick2, closeOk).1.mailbox
  {
    var r := TimeOutAsWritten(s, id, now, pick, closeOk);
    PutServesOnlyWaiters(r.1, c, later, pick2, closeOk, id);
  }

  /** The corrected timeout always ends the call with the wait-timeout error and forgets
      the waiter, and a hand-off that raced with the timeout goes back through Put instead
      of being lost: the connection is parked, handed to another waiter, or closed. */
  lemma TimeOutEndsTheWait(s: PoolState, id: nat, now: Time, pick: nat, closeOk: bool)
    requires !s.released && id in s.mailbox
    ensures var r := TimeOut(s, id, now, pick, closeOk);
            var c := s.mailbox[id].conn;
            && r.0 == GetFailed(ExceedMaxWaitTimeout)
            && id !in r.1.mailbox && id !in r.1.waiters
            && c !in r.1.out
            && (c in IdleConns(r.1.idle) || c in MailConns(r.1.mailbox) || r.1.closedLog == s.closedLog + [c])
  {
    var r := TimeOut(s, id, now, pick, closeOk);
    var c := s.mailbox[id].conn;
    var s1 := s.(waiters := RemoveKey(s.waiters, id));
    var s2 := s1.(mailbox := s1.mailbox - {id}, out := s1.out + {c});
    assert r.1 == Put(s2, Some(c), now, pick, closeOk).1;
    if s2.wait && |s2.waiters| > 0 {
      var w := s2.waiters[pick % |s2.waiters|];
      assert w != id;
      assert r.1.mailbox[w] == IdleEntry(c, now);
    } else if |s2.idle| < s2.maxIdle {
      assert r.1.idle[|r.1.idle| - 1].conn == c;
    }
  }
}
