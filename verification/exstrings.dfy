/** The `exstrings` helpers: concatenation, joining with a separator, rune-wise reversal
    and repetition. A Go string is modelled by its rune sequence (`seq<char>`); where Go
    looks at the byte length (`Repeat`'s overflow test), it is `Utf8Len`. */
module ExStrings {
  import opened Wrappers
  import opened Bytes

  /** The reference concatenation of a list of strings, in order. */
  function Concat(parts: seq<string>): (r: string)
  {
    if parts == [] then "" else parts[0] + Concat(parts[1..])
  }

  /** Concatenating a list with one more part appends that part. */
  lemma {:induction false} ConcatSnoc(parts: seq<string>, x: string)
    ensures Concat(parts + [x]) == Concat(parts) + x
  {
    if parts != [] {
      assert (parts + [x])[1..] == parts[1..] + [x];
      ConcatSnoc(parts[1..], x);
    }
  }

  /** Concatenation distributes over splitting the list anywhere. */
  lemma {:induction false} ConcatAppend(a: seq<string>, b: seq<string>)
    ensures Concat(a + b) == Concat(a) + Concat(b)
  {
    if a == [] {
      assert a + b == b;
    } else {
      assert (a + b)[1..] == a[1..] + b;
      ConcatAppend(a[1..], b);
      assert a[0] + (Concat(a[1..]) + Concat(b)) == a[0] + Concat(a[1..]) + Concat(b);
    }
  }

  /** `MultiJoinString`: write every argument into one buffer, in order. */
  method MultiJoinString(strs: seq<string>) returns (r: string)
    ensures r == Concat(strs)
    ensures strs == [] ==> r == ""
  {
    r := "";
    var i := 0;
    while i < |strs|
      invariant 0 <= i <= |strs|
      invariant r == Concat(strs[..i])
    {
      ConcatSnoc(strs[..i], strs[i]);
      assert strs[..i + 1] == strs[..i] + [strs[i]];
      r := r + strs[i];
      i := i + 1;
    }
    assert strs[..i] == strs;
  }

  /** The reference join: the parts with `sep` between neighbours, and nowhere else. */
  function JoinRef(parts: seq<string>, sep: string): (r: string)
  {
    if parts == [] then ""
    else if |parts| == 1 then parts[0]
    else parts[0] + sep + JoinRef(parts[1..], sep)
  }

  /** Joining one more part adds `sep` and the part at the end. */
  lemma {:induction false} JoinSnoc(parts: seq<string>, x: string, sep: string)
    requires parts != []
    ensures JoinRef(parts + [x], sep) == JoinRef(parts, sep) + sep + x
  {
    if |parts| > 1 {
      assert (parts + [x])[1..] == parts[1..] + [x];
      JoinSnoc(parts[1..], x, sep);
    }
  }

  /** The joined length is the parts' lengths plus one separator per gap. */
  lemma {:induction false} JoinLength(parts: seq<string>, sep: string)
    requires parts != []
    ensures |JoinRef(parts, sep)| == |Concat(parts)| + (|parts| - 1) * |sep|
  {
    if |parts| > 1 {
      JoinLength(parts[1..], sep);
    }
  }

  /** With an empty separator, joining is concatenation. */
  lemma {:induction false} JoinEmptySep(parts: seq<string>)
    ensures JoinRef(parts, "") == Concat(parts)
  {
    if |parts| > 1 {
      JoinEmptySep(parts[1..]);
    } else if |parts| == 1 {
      assert Concat(parts[1..]) == "";
    }
  }

  /** A joined list starts with its first part and ends with its last: `sep` is never
      put at either end. */
  lemma {:induction false} JoinEnds(parts: seq<string>, sep: string)
    requires parts != []
    ensures |parts[0]| <= |JoinRef(parts, sep)| && JoinRef(parts, sep)[..|parts[0]|] == parts[0]
    ensures |parts[|parts| - 1]| <= |JoinRef(parts, sep)|
    ensures JoinRef(parts, sep)[|JoinRef(parts, sep)| - |parts[|parts| - 1]|..] == parts[|parts| - 1]
  {
    if |parts| > 1 {
      JoinEnds(parts[1..], sep);
      var rest := JoinRef(parts[1..], sep);
      assert JoinRef(parts, sep) == parts[0] + sep + rest;
      assert (parts[0] + sep + rest)[|parts[0] + sep + rest| - |parts[|parts| - 1]|..] == rest[|rest| - |parts[|parts| - 1]|..];
    }
  }

  /** The converse: every character of every part shows up in the join. */
  lemma {:induction false} JoinKeepsParts(parts: seq<string>, sep: string, k: nat, c: char)
    requires k < |parts| && c in parts[k]
    ensures c in JoinRef(parts, sep)
  {
    if k > 0 {
      JoinKeepsParts(parts[1..], sep, k - 1, c);
    }
  }

  /** Every character of a join comes from the separator or from one of the parts. */
  lemma {:induction false} JoinChars(parts: seq<string>, sep: string, c: char)
    requires c in JoinRef(parts, sep) && c !in sep
    ensures exists k :: 0 <= k < |parts| && c in parts[k]
  {
    if |parts| == 1 {
      assert c in parts[0];
    } else if |parts| > 1 {
      if c in parts[0] {
      } else {
        JoinChars(parts[1..], sep, c);
        var k :| 0 <= k < |parts[1..]| && c in parts[1..][k];
        assert c in parts[k + 1];
      }
    }
  }

  /** `Join`: zero to three elements are built directly; longer lists go through the
      byte-buffer join, whose documented meaning is `JoinRef`. */
  function Join(a: seq<string>, sep: string): (r: string)
    ensures r == JoinRef(a, sep)
    ensures |a| == 0 ==> r == ""
    ensures |a| == 1 ==> r == a[0]
  {
    match |a|
    case 0 => ""
    case 1 => a[0]
    case 2 => a[0] + sep + a[1]
    case 3 =>
      assert JoinRef(a[1..], sep) == a[1] + sep + a[2] by {
        assert a[1..][1..] == a[2..];
      }
      a[0] + sep + a[1] + sep + a[2]
    case _ => JoinRef(a, sep)
  }

  /** The reference reversal: the last rune first. */
  function Rev(s: string): (r: string)
  {
    if s == [] then [] else Rev(s[1..]) + [s[0]]
  }

  /** Rune k of the reversal is rune |s|-1-k of the input. */
  lemma {:induction false} RevIndex(s: string)
    ensures |Rev(s)| == |s|
    ensures forall k | 0 <= k < |s| :: Rev(s)[k] == s[|s| - 1 - k]
  {
    if s != [] {
      RevIndex(s[1..]);
    }
  }

  /** Reversing twice gives the input back. */
  lemma RevInvolution(s: string)
    ensures Rev(Rev(s)) == s
  {
    RevIndex(s);
    RevIndex(Rev(s));
  }

  /** `Reverse`: swap runes from both ends towards the middle. */
  method Reverse(s: string) returns (r: string)
    ensures r == Rev(s)
    ensures |r| == |s|
  {
    r := s;
    var n := |s|;
    var i, j := 0, n - 1;
    while i < n / 2
      invariant 0 <= i <= n / 2 && j == n - 1 - i
      invariant |r| == n
      invariant forall k | 0 <= k < i :: r[k] == s[n - 1 - k] && r[n - 1 - k] == s[k]
      invariant forall k | i <= k < n - i :: r[k] == s[k]
    {
      r := r[i := r[j]][j := r[i]];
      i, j := i + 1, j - 1;
    }
    RevIndex(s);
  }

  /** Why `Repeat` refuses to run (Go panics). */
  datatype RepeatError = NegativeCount | Overflow

  /** Go's largest `int`, on a 64-bit platform. */
  const MaxInt: int := 0x7fff_ffff_ffff_ffff

  /** The reference repetition: `n` copies of `s`, one after another. */
  function Copies(s: string, n: nat): (r: string)
  {
    if n == 0 then "" else s + Copies(s, n - 1)
  }

  /** The number of bytes UTF-8 needs for one rune. */
  function RuneLen(c: char): (r: nat)
    ensures 1 <= r <= 4
  {
    if c as int < 0x80 then 1
    else if c as int < 0x800 then 2
    else if c as int < 0x1_0000 then 3
    else 4
  }

  /** `len(s)`: the length of the UTF-8 encoding of `s`, in bytes. */
  function Utf8Len(s: string): (r: nat)
    ensures |s| <= r <= 4 * |s|
  {
    if s == [] then 0 else RuneLen(s[0]) + Utf8Len(s[1..])
  }

  /** Byte lengths add up over concatenation. */
  lemma {:induction false} Utf8LenAppend(s: string, t: string)
    ensures Utf8Len(s + t) == Utf8Len(s) + Utf8Len(t)
  {
    if s != [] {
      assert (s + t)[1..] == s[1..] + t;
      Utf8LenAppend(s[1..], t);
    } else {
      assert s + t == t;
    }
  }

  /** `Repeat`, from its documented contract: `count` copies of `s`; a negative count, or
      a byte length `len(s) * count` that overflows `int`, is refused. */
  function Repeat(s: string, count: int): (r: Result<string, RepeatError>)
    ensures count < 0 <==> r == Err(NegativeCount)
    ensures r.Ok? <==> 0 <= count && Utf8Len(s) * count <= MaxInt
    ensures r.Ok? ==> r.value == Copies(s, count)
  {
    if count < 0 then Err(NegativeCount)
    else if Utf8Len(s) * count > MaxInt then Err(Overflow)
    else Ok(Copies(s, count))
  }

  /** The byte length of n copies is n times the byte length of `s`. */
  lemma {:induction false} CopiesUtf8Len(s: string, n: nat)
    ensures Utf8Len(Copies(s, n)) == Utf8Len(s) * n
  {
    if n > 0 {
      CopiesUtf8Len(s, n - 1);
      Utf8LenAppend(s, Copies(s, n - 1));
      MulSucc(Utf8Len(s), n);
    }
  }

  lemma MulSucc(a: nat, n: nat)
    requires n > 0
    ensures a * n == a + a * (n - 1)
  {
  }

  /** What `Repeat` hands back fits in an `int` as a byte length: the refusal rule is
      exactly the overflow of the result's own `len`. */
  lemma RepeatFits(s: string, count: int)
    requires count >= 0
    ensures Repeat(s, count).Ok? <==> Utf8Len(Copies(s, count)) <= MaxInt
    ensures Repeat(s, count).Ok? ==> Utf8Len(Repeat(s, count).value) == Utf8Len(s) * count
  {
    CopiesUtf8Len(s, count);
  }

  /** Copies add up: m copies followed by n copies are m + n copies. */
  lemma {:induction false} CopiesAdd(s: string, m: nat, n: nat)
    ensures Copies(s, m) + Copies(s, n) == Copies(s, m + n)
  {
    if m > 0 {
      CopiesAdd(s, m - 1, n);
    }
  }

  /** Rune k of the repetition is rune k mod |s| of `s`. */
  lemma {:induction false} CopiesIndex(s: string, n: nat, k: nat)
    requires s != [] && k < |Copies(s, n)|
    ensures Copies(s, n)[k] == s[k % |s|]
  {
    if k >= |s| {
      CopiesIndex(s, n - 1, k - |s|);
      ModShift(k, |s|);
    }
  }

  lemma {:induction false} CopiesLength(s: string, n: nat)
    ensures |Copies(s, n)| == |s| * n
  {
    if n > 0 {
      CopiesLength(s, n - 1);
    }
  }

  lemma ModShift(k: nat, d: nat)
    requires 0 < d <= k
    ensures (k - d) % d == k % d
  {
    var q := k / d;
    assert k == d * q + k % d;
    assert q >= 1;
    assert k - d == d * (q - 1) + k % d;
    DivUnique(k - d, d, q - 1, k % d);
  }
}
