/** The `JoinInts` family: the decimal forms of a list of integers, separated by `sep`.
    Every variant writes into an empty buffer and puts `sep` before a number exactly when
    the buffer is already non-empty. Go's `int` and `uint` are taken at their 64-bit
    width. */
module JoinInt {
  import opened Bytes
  import opened ExNum
  import opened ExStrings

  type int8 = x: int | -0x80 <= x < 0x80
  type uint8 = byte

  /** The character of decimal digit `d`. */
  function DigitChar(d: nat): (c: char)
    requires d < 10
    ensures '0' <= c <= '9'
  {
    ('0' as int + d) as char
  }

  /** The value of a decimal digit character. */
  function DigitValue(c: char): (d: nat)
  {
    if '0' <= c <= '9' then c as int - '0' as int else 0
  }

  /** Base-10 digits of `n`, most significant first, without leading zeros. */
  function Digits(n: nat): (r: string)
    ensures |r| >= 1
    ensures forall k | 0 <= k < |r| :: '0' <= r[k] <= '9'
    ensures r[0] == '0' ==> n == 0 && |r| == 1
  {
    if n < 10 then [DigitChar(n)] else Digits(n / 10) + [DigitChar(n % 10)]
  }

  function Pow10(n: nat): (r: nat)
    ensures r >= 1
  {
    if n == 0 then 1 else 10 * Pow10(n - 1)
  }

  lemma Pow10Values()
    ensures Pow10(3) == 1000 && Pow10(5) == 100_000
    ensures Pow10(9) == 1_000_000_000 && Pow10(10) == 10_000_000_000
  {
    assert Pow10(3) == 1000;
    assert Pow10(5) == 100 * Pow10(3);
    assert Pow10(6) == 1000 * Pow10(3);
    assert Pow10(9) == 1000 * Pow10(6);
  }

  /** A number with k digits is written with k characters. */
  lemma {:induction false} DigitsLength(v: nat, k: nat)
    requires k >= 1 && Pow10(k - 1) <= v < Pow10(k)
    ensures |Digits(v)| == k
  {
    if k > 1 {
      assert Pow10(k - 1) == 10 * Pow10(k - 2);
      DigitsLength(v / 10, k - 1);
    }
  }

  /** A number below 10^k is written with at most k characters. */
  lemma {:induction false} DigitsAtMost(v: nat, k: nat)
    requires k >= 1 && v < Pow10(k)
    ensures |Digits(v)| <= k
  {
    if v >= 10 {
      assert Pow10(k) == 10 * Pow10(k - 1);
      DigitsAtMost(v / 10, k - 1);
    }
  }

  /** Numbers of magnitude below 10^k are written with at most k characters, plus one
      for the '-' of a negative number. */
  lemma FormatWidth(xs: seq<int>, k: nat)
    requires k >= 1
    requires forall j | 0 <= j < |xs| :: -(Pow10(k) as int) < xs[j] < Pow10(k)
    ensures forall j | 0 <= j < |xs| :: |FormatAll(xs)[j]| <= k + (if xs[j] < 0 then 1 else 0)
  {
    forall j | 0 <= j < |xs|
      ensures |FormatAll(xs)[j]| <= k + (if xs[j] < 0 then 1 else 0)
    {
      FormatIntWidth(xs[j], k);
    }
  }

  lemma FormatIntWidth(v: int, k: nat)
    requires k >= 1 && -(Pow10(k) as int) < v < Pow10(k)
    ensures |FormatInt(v)| <= k + (if v < 0 then 1 else 0)
  {
    if v < 0 {
      DigitsAtMost(-v, k);
    } else {
      DigitsAtMost(v, k);
    }
  }

  /** `strconv.FormatInt(v, 10)`: a '-' before the digits of a negative value. */
  function FormatInt(v: int): (r: string)
    ensures |r| >= 1
    ensures r[0] == '-' <==> v < 0
    ensures forall k | 1 <= k < |r| :: '0' <= r[k] <= '9'
  {
    if v < 0 then "-" + Digits(-v) else Digits(v)
  }

  /** `strconv.FormatUint(u, 10)`. */
  function FormatUint(u: nat): (r: string)
    ensures |r| >= 1
    ensures '-' !in r
  {
    Digits(u)
  }

  /** Reads back a digit string, most significant digit first. */
  function ParseDigits(s: string): (r: nat)
  {
    if s == [] then 0 else 10 * ParseDigits(s[..|s| - 1]) + DigitValue(s[|s| - 1])
  }

  /** Reads back a decimal with an optional leading '-'. */
  function ParseInt(s: string): (r: int)
  {
    if |s| > 0 && s[0] == '-' then -(ParseDigits(s[1..]) as int) else ParseDigits(s)
  }

  lemma {:induction false} ParseDigitsOfDigits(n: nat)
    ensures ParseDigits(Digits(n)) == n
  {
    if n >= 10 {
      var d := Digits(n);
      assert d[..|d| - 1] == Digits(n / 10);
      ParseDigitsOfDigits(n / 10);
    }
  }

  /** The decimal form loses nothing: reading it back gives the value. */
  lemma FormatIntParses(v: int)
    ensures ParseInt(FormatInt(v)) == v
  {
    if v < 0 {
      assert FormatInt(v)[1..] == Digits(-v);
      ParseDigitsOfDigits(-v);
    } else {
      ParseDigitsOfDigits(v);
    }
  }

  /** The unsigned form of a non-negative value is its signed form. */
  lemma FormatUintIsFormatInt(u: nat)
    ensures FormatUint(u) == FormatInt(u)
    ensures ParseInt(FormatUint(u)) == u
  {
    FormatIntParses(u);
  }

  /** The decimal forms of a list of values, in order. */
  function FormatAll(xs: seq<int>): (r: seq<string>)
    ensures |r| == |xs|
    ensures forall k | 0 <= k < |xs| :: r[k] == FormatInt(xs[k])
  {
    seq(|xs|, k requires 0 <= k < |xs| => FormatInt(xs[k]))
  }

  /** One more number: `sep` goes first unless it is the first number. */
  lemma JoinDecimalStep(xs: seq<int>, sep: string, i: nat)
    requires i < |xs|
    ensures JoinRef(FormatAll(xs[..i + 1]), sep)
         == (if i > 0 then JoinRef(FormatAll(xs[..i]), sep) + sep else "") + FormatInt(xs[i])
  {
    assert FormatAll(xs[..i + 1]) == FormatAll(xs[..i]) + [FormatInt(xs[i])];
    if i > 0 {
      JoinSnoc(FormatAll(xs[..i]), FormatInt(xs[i]), sep);
    } else {
      assert FormatAll(xs[..i + 1]) == [FormatInt(xs[i])];
    }
  }

  /** The shared loop: `sep` only once the buffer holds something, then the number. */
  method JoinDecimal(xs: seq<int>, sep: string) returns (r: string)
    ensures r == JoinRef(FormatAll(xs), sep)
    ensures xs == [] ==> r == ""
    ensures |xs| == 1 ==> r == FormatInt(xs[0])
  {
    var buf := "";
    var i := 0;
    while i < |xs|
      invariant 0 <= i <= |xs|
      invariant buf == JoinRef(FormatAll(xs[..i]), sep)
      invariant |buf| > 0 <==> i > 0
    {
      JoinDecimalStep(xs, sep, i);
      if |buf| > 0 {
        buf := buf + sep;
      }
      buf := buf + FormatInt(xs[i]);
      i := i + 1;
    }
    assert xs[..i] == xs;
    r := buf;
  }

  /** `JoinInt64s`. The first and last numbers sit at the ends of the output. */
  method JoinInt64s(i: seq<int64>, sep: string) returns (r: string)
    ensures r == JoinRef(FormatAll(i), sep)
    ensures i != [] ==> |FormatInt(i[0])| <= |r| && r[..|FormatInt(i[0])|] == FormatInt(i[0])
    ensures i != [] ==>
              && |FormatInt(i[|i| - 1])| <= |r|
              && r[|r| - |FormatInt(i[|i| - 1])|..] == FormatInt(i[|i| - 1])
  {
    r := JoinDecimal(i, sep);
    if i != [] {
      JoinEnds(FormatAll(i), sep);
    }
  }

  /** `JoinUint64s`: no '-' can come from a number, so one appears only through `sep`. */
  method JoinUint64s(i: seq<uint64>, sep: string) returns (r: string)
    ensures r == JoinRef(FormatAll(i), sep)
    ensures '-' !in sep ==> '-' !in r
  {
    r := JoinDecimal(i, sep);
    if '-' in r && '-' !in sep {
      JoinChars(FormatAll(i), sep, '-');
      var k :| 0 <= k < |i| && '-' in FormatAll(i)[k];
      FormatUintIsFormatInt(i[k]);
      assert false;
    }
  }

  /** `JoinInts`: Go's `int` is 64 bits wide, so this is `JoinInt64s`. */
  method JoinInts(i: seq<int64>, sep: string) returns (r: string)
    ensures r == JoinRef(FormatAll(i), sep)
  {
    r := JoinInt64s(i, sep);
  }

  /** `JoinInt8s`, `JoinInt16s`, `JoinInt32s`: widening to `int64` keeps every value, so
      each is `JoinInt64s` of the same numbers; the width bounds how long each number's
      text can be ("-128", "-32768", "-2147483648" are the longest). */
  method JoinInt8s(i: seq<int8>, sep: string) returns (r: string)
    ensures r == JoinRef(FormatAll(i), sep)
    ensures forall k | 0 <= k < |i| :: |FormatAll(i)[k]| <= 4
  {
    r := JoinInt64s(i, sep);
    Pow10Values();
    FormatWidth(i, 3);
  }

  method JoinInt16s(i: seq<int16>, sep: string) returns (r: string)
    ensures r == JoinRef(FormatAll(i), sep)
    ensures forall k | 0 <= k < |i| :: |FormatAll(i)[k]| <= 6
  {
    r := JoinInt64s(i, sep);
    Pow10Values();
    FormatWidth(i, 5);
  }

  method JoinInt32s(i: seq<int32>, sep: string) returns (r: string)
    ensures r == JoinRef(FormatAll(i), sep)
    ensures forall k | 0 <= k < |i| :: |FormatAll(i)[k]| <= 11
  {
    r := JoinInt64s(i, sep);
    Pow10Values();
    FormatWidth(i, 10);
  }

  /** `JoinUints`, `JoinUint8s`, `JoinUint16s`, `JoinUint32s`: each is `JoinUint64s` of
      the widened numbers, each number at most 3, 5 or 10 digits long for the narrow
      widths. */
  method JoinUints(i: seq<uint64>, sep: string) returns (r: string)
    ensures r == JoinRef(FormatAll(i), sep)
    ensures '-' !in sep ==> '-' !in r
  {
    r := JoinUint64s(i, sep);
  }

  method JoinUint8s(i: seq<uint8>, sep: string) returns (r: string)
    ensures r == JoinRef(FormatAll(i), sep)
    ensures '-' !in sep ==> '-' !in r
    ensures forall k | 0 <= k < |i| :: |FormatAll(i)[k]| <= 3
  {
    r := JoinUint64s(i, sep);
    Pow10Values();
    FormatWidth(i, 3);
  }

  method JoinUint16s(i: seq<uint16>, sep: string) returns (r: string)
    ensures r == JoinRef(FormatAll(i), sep)
    ensures '-' !in sep ==> '-' !in r
    ensures forall k | 0 <= k < |i| :: |FormatAll(i)[k]| <= 5
  {
    r := JoinUint64s(i, sep);
    Pow10Values();
    FormatWidth(i, 5);
  }

  method JoinUint32s(i: seq<uint32>, sep: string) returns (r: string)
    ensures r == JoinRef(FormatAll(i), sep)
    ensures '-' !in sep ==> '-' !in r
    ensures forall k | 0 <= k < |i| :: |FormatAll(i)[k]| <= 10
  {
    r := JoinUint64s(i, sep);
    Pow10Values();
    FormatWidth(i, 10);
  }

  /** A negative number shows up in the output as its '-'-led decimal form, so the
      joined text holds a '-' whatever the separator. */
  lemma NegativeShowsMinus(xs: seq<int>, sep: string, k: nat)
    requires k < |xs| && xs[k] < 0
    ensures FormatAll(xs)[k][0] == '-'
    ensures ParseInt(FormatAll(xs)[k]) == xs[k]
    ensures '-' in JoinRef(FormatAll(xs), sep)
  {
    FormatIntParses(xs[k]);
    JoinKeepsParts(FormatAll(xs), sep, k, '-');
  }
}
