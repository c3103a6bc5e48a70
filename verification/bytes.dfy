/** Bytes and fixed-width unsigned integers as the Go `encoding/binary` package reads and
    writes them: `FromLE`/`ToLE` put the least significant byte first, `FromBE`/`ToBE` the
    most significant byte first. Values are unbounded naturals below `Pow256(n)` for an
    n-byte field. */
module Bytes {

  /** Go's `byte`. */
  type byte = x: int | 0 <= x < 0x100

  /** Go's fixed-width unsigned integers. */
  type uint16 = x: nat | x < 0x1_0000
  type uint32 = x: nat | x < 0x1_0000_0000
  type uint64 = x: nat | x < 0x1_0000_0000_0000_0000

  /** The number of distinct values of an n-byte field. */
  function Pow256(n: nat): (r: nat)
    ensures r >= 1
  {
    if n == 0 then 1 else 256 * Pow256(n - 1)
  }

  /** Little-endian value of `b`: `b[0]` weighs 1, `b[1]` weighs 256, and so on. */
  function FromLE(b: seq<byte>): (r: nat)
    ensures r < Pow256(|b|)
  {
    if b == [] then 0
    else
      var rest := FromLE(b[1..]);
      MulMono(rest, Pow256(|b| - 1) - 1, 256);
      b[0] + 256 * rest
  }

  /** The n-byte little-endian encoding of `v`; it decodes back to `v`. */
  function ToLE(v: nat, n: nat): (r: seq<byte>)
    requires v < Pow256(n)
    ensures |r| == n
    ensures FromLE(r) == v
  {
    if n == 0 then []
    else
      DivBound(v, Pow256(n - 1));
      var rest := ToLE(v / 256, n - 1);
      assert ([v % 256] + rest)[1..] == rest;
      [v % 256] + rest
  }

  /** Big-endian value of `b`: the last byte weighs 1, the one before it 256, and so on. */
  function FromBE(b: seq<byte>): (r: nat)
    ensures r < Pow256(|b|)
  {
    if b == [] then 0
    else
      var front := FromBE(b[..|b| - 1]);
      MulMono(front, Pow256(|b| - 1) - 1, 256);
      256 * front + b[|b| - 1]
  }

  /** The n-byte big-endian encoding of `v`; it decodes back to `v`. */
  function ToBE(v: nat, n: nat): (r: seq<byte>)
    requires v < Pow256(n)
    ensures |r| == n
    ensures FromBE(r) == v
  {
    if n == 0 then []
    else
      DivBound(v, Pow256(n - 1));
      var front := ToBE(v / 256, n - 1);
      var r := front + [v % 256];
      assert r[..|r| - 1] == front;
      r
  }

  /** Encoding after decoding gives back the bytes: an n-byte field has no redundant
      representation. */
  lemma {:induction false} ToLEFromLE(b: seq<byte>)
    ensures ToLE(FromLE(b), |b|) == b
  {
    if b != [] {
      ToLEFromLE(b[1..]);
      DivUnique(FromLE(b), 256, FromLE(b[1..]), b[0]);
    }
  }

  lemma {:induction false} ToBEFromBE(b: seq<byte>)
    ensures ToBE(FromBE(b), |b|) == b
  {
    if b != [] {
      var front, last := b[..|b| - 1], b[|b| - 1];
      var v := FromBE(b);
      assert v == 256 * FromBE(front) + last;
      ToBEFromBE(front);
      DivUnique(v, 256, FromBE(front), last);
      ToBEStep(v, |b|);
      assert front + [last] == b;
    }
  }

  /** One step of the big-endian encoding: the low byte goes last. */
  lemma ToBEStep(v: nat, n: nat)
    requires 0 < n && v < Pow256(n)
    ensures v / 256 < Pow256(n - 1)
    ensures ToBE(v, n) == ToBE(v / 256, n - 1) + [v % 256]
  {
    DivBound(v, Pow256(n - 1));
  }

  /** Big-endian digit rule: byte i of the n-byte encoding of `v` is digit n-1-i of `v`
      in base 256, so byte 0 is the most significant. */
  lemma {:induction false} ToBEDigit(v: nat, n: nat, i: nat)
    requires v < Pow256(n) && i < n
    ensures ToBE(v, n)[i] == (v / Pow256(n - 1 - i)) % 256
  {
    if i == n - 1 {
      assert Pow256(0) == 1;
    } else {
      ToBEDigit(v / 256, n - 1, i);
      DivDiv(v, 256, Pow256(n - 2 - i));
    }
  }

  /** Little-endian digit rule: byte i of the n-byte encoding of `v` is digit i of `v`
      in base 256, so byte 0 is the least significant. */
  lemma {:induction false} ToLEDigit(v: nat, n: nat, i: nat)
    requires v < Pow256(n) && i < n
    ensures ToLE(v, n)[i] == (v / Pow256(i)) % 256
  {
    if i > 0 {
      ToLEDigit(v / 256, n - 1, i - 1);
      DivDiv(v, 256, Pow256(i - 1));
    }
  }

  lemma DivDiv(a: nat, b: nat, c: nat)
    requires b > 0 && c > 0
    ensures a / b / c == a / (b * c)
  {
    var x, r1 := a / b, a % b;
    var q, r2 := x / c, x % c;
    Regroup(a, b, c, x, q, r1, r2);
    RemainderBound(b, c, r1, r2);
    DivUnique(a, b * c, q, b * r2 + r1);
  }

  /** Substituting `x = c * q + r2` into `a = b * x + r1`. */
  lemma Regroup(a: int, b: int, c: int, x: int, q: int, r1: int, r2: int)
    requires a == b * x + r1 && x == c * q + r2
    ensures a == (b * c) * q + (b * r2 + r1)
  {
    assert b * (c * q + r2) == b * (c * q) + b * r2;
    assert b * (c * q) == (b * c) * q;
  }

  /** The combined remainder stays below the combined divisor. */
  lemma RemainderBound(b: nat, c: nat, r1: nat, r2: nat)
    requires r1 < b && r2 < c
    ensures b * r2 + r1 < b * c
  {
    MulMono(r2, c - 1, b);
    assert b * (c - 1) == b * c - b;
  }

  lemma DivBound(v: nat, p: nat)
    requires v < 256 * p
    ensures v / 256 < p
  {
  }

  lemma MulMono(a: nat, b: nat, c: nat)
    requires a <= b
    ensures c * a <= c * b
  {
  }

  /** Euclidean division has one quotient: `d * q + r` with `r < d` divides to `q`. */
  lemma DivUnique(a: nat, d: nat, q: nat, r: nat)
    requires d > 0 && r < d && a == d * q + r
    ensures a / d == q && a % d == r
  {
    var q', r' := a / d, a % d;
    if q > q' {
      MulMono(1, q - q', d);
    } else if q < q' {
      MulMono(1, q' - q, d);
    }
  }
}
