/** The Redis client setup of `redis/redis.go`: configuration defaults, the pool
    settings the client is built with, the borrow-time health rule, and the pool
    statistics. redigo itself (dialing, the pool, the wire protocol) is outside the
    model. */
module Redis {
  import opened Wrappers

  /** Go durations, in nanoseconds. */
  const Millisecond: int := 1_000_000
  const Second: int := 1_000_000_000
  const Minute: int := 60 * Second

  const DefaultMaxIdle: int := 100
  const DefaultMaxActive: int := 100
  const DefaultIdleTimeout: int := 10 * Millisecond
  const DefaultTimeOut: int := 1 * Second

  /** `RedisConf`; durations are nanosecond counts. */
  datatype RedisConf = RedisConf(
    service: string,
    addr: string,
    password: string,
    maxIdle: int,
    maxActive: int,
    idleTimeout: int,
    connTimeOut: int,
    readTimeOut: int,
    writeTimeOut: int)

  /** `checkConf`: zero pool sizes become 100, a zero idle timeout 10ms, and zero
      connect, read and write timeouts 1s; everything else is kept. */
  function CheckConf(c: RedisConf): (r: RedisConf)
    ensures r.maxIdle == OrDefault(c.maxIdle, DefaultMaxIdle)
    ensures r.maxActive == OrDefault(c.maxActive, DefaultMaxActive)
    ensures r.idleTimeout == OrDefault(c.idleTimeout, DefaultIdleTimeout)
    ensures r.connTimeOut == OrDefault(c.connTimeOut, DefaultTimeOut)
    ensures r.readTimeOut == OrDefault(c.readTimeOut, DefaultTimeOut)
    ensures r.writeTimeOut == OrDefault(c.writeTimeOut, DefaultTimeOut)
    ensures r.service == c.service && r.addr == c.addr && r.password == c.password
  {
    c.(maxIdle := OrDefault(c.maxIdle, DefaultMaxIdle),
       maxActive := OrDefault(c.maxActive, DefaultMaxActive),
       idleTimeout := OrDefault(c.idleTimeout, DefaultIdleTimeout),
       connTimeOut := OrDefault(c.connTimeOut, DefaultTimeOut),
       readTimeOut := OrDefault(c.readTimeOut, DefaultTimeOut),
       writeTimeOut := OrDefault(c.writeTimeOut, DefaultTimeOut))
  }

  /** After defaulting no setting is zero, and defaulting again changes nothing. */
  lemma CheckConfIdempotent(c: RedisConf)
    ensures var d := CheckConf(c);
      && d.maxIdle != 0 && d.maxActive != 0 && d.idleTimeout != 0
      && d.connTimeOut != 0 && d.readTimeOut != 0 && d.writeTimeOut != 0
    ensures CheckConf(CheckConf(c)) == CheckConf(c)
  {
  }

  /** The settings the redigo pool is created with. */
  datatype PoolConfig = PoolConfig(maxIdle: int, maxActive: int, idleTimeout: int, wait: bool)

  /** The client: its pool, the service name and the remote address. */
  datatype Client = Client(pool: PoolConfig, service: string, remoteAddr: string)

  /** `InitRedisClient`: no connection is made here, so it never fails; the pool uses the
      defaulted settings and waits for a free connection. */
  function InitRedisClient(conf: RedisConf): (r: (Client, Option<string>))
    ensures r.1.None?
    ensures r.0.service == conf.service && r.0.remoteAddr == conf.addr
    ensures r.0.pool.wait
    ensures var d := CheckConf(conf);
      r.0.pool == PoolConfig(d.maxIdle, d.maxActive, d.idleTimeout, true)
  {
    var d := CheckConf(conf);
    (Client(PoolConfig(d.maxIdle, d.maxActive, d.idleTimeout, true), conf.service, conf.addr), None)
  }

  /** `TestOnBorrow`: a connection idle for less than a minute is handed out without a
      PING; an older one passes only if its PING (the `ping` outcome) succeeds. */
  function TestOnBorrow(idleFor: int, ping: Option<string>): (r: Option<string>)
    ensures idleFor < Minute ==> r.None?
    ensures idleFor >= Minute ==> r == ping
  {
    if idleFor < Minute then None else ping
  }

  /** The borrow check is monotone in idle time: a connection that passes after a long
      idle passes after any shorter one with the same PING outcome. A refusal is always
      the PING's own error, and under a minute the PING outcome does not matter. */
  lemma BorrowCheck(idle: int, idle': int, ping: Option<string>, ping': Option<string>)
    requires idle <= idle'
    ensures TestOnBorrow(idle', ping).None? ==> TestOnBorrow(idle, ping).None?
    ensures TestOnBorrow(idle, ping).Some? ==> TestOnBorrow(idle, ping) == ping
    ensures idle < Minute ==> TestOnBorrow(idle, ping) == TestOnBorrow(idle, ping')
  {
  }

  /** `Stats`: idle and active copied from the pool's snapshot, in use their difference. */
  function Stats(idleCount: int, activeCount: int): (r: (int, int, int))
    ensures r.1 == idleCount && r.2 == activeCount
    ensures r.0 + r.1 == r.2
    ensures idleCount <= activeCount ==> r.0 >= 0
  {
    (activeCount - idleCount, idleCount, activeCount)
  }
}
