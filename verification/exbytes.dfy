/** `exbytes.Replace`: replaces up to n leftmost non-overlapping occurrences of the
    pattern (Go's `old`, `pat` here) in `s` by the replacement (Go's `new`, `rep` here).
    When `rep` is no longer than `pat` the result is written over `s` itself (the
    returned slice is a prefix of `s`'s storage); otherwise the standard library's
    copying `bytes.Replace` is used. */
module ExBytes {
  import opened Wrappers
  import opened Bytes

  /** `sep` occurs in `s` starting at position `k`. */
  predicate MatchAt(s: seq<byte>, sep: seq<byte>, k: nat)
  {
    k + |sep| <= |s| && forall j | 0 <= j < |sep| :: s[k + j] == sep[j]
  }

  /** The first position at or after `p` where `sep` occurs in `s`, if any. */
  function IndexFrom(s: seq<byte>, sep: seq<byte>, p: nat): (r: Option<nat>)
    ensures r.Some? ==> p <= r.value && r.value + |sep| <= |s|
    decreases |s| + 1 - p
  {
    if p + |sep| > |s| then None
    else if MatchAt(s, sep, p) then Some(p)
    else IndexFrom(s, sep, p + 1)
  }

  /** `bytes.Index`: the first position where `sep` occurs in `s`, if any. */
  function Index(s: seq<byte>, sep: seq<byte>): (r: Option<nat>)
  {
    IndexFrom(s, sep, 0)
  }

  /** `IndexFrom` finds an occurrence, and no occurrence lies between `p` and it; `None`
      means there is none from `p` on. */
  lemma {:induction false} IndexFirstMatch(s: seq<byte>, sep: seq<byte>, p: nat)
    ensures var r := IndexFrom(s, sep, p);
      && (r.Some? ==> MatchAt(s, sep, r.value))
      && (forall k: nat | p <= k && (r.None? || k < r.value) :: !MatchAt(s, sep, k))
    decreases |s| + 1 - p
  {
    if p + |sep| <= |s| && !MatchAt(s, sep, p) {
      IndexFirstMatch(s, sep, p + 1);
    }
  }

  /** Searching a suffix is searching the whole from the suffix's start: the relative
      answer `bytes.Index(s[i:], sep)` is the absolute one minus `i`. */
  lemma {:induction false} IndexOfSuffix(s: seq<byte>, sep: seq<byte>, i: nat, p: nat)
    requires i <= |s|
    ensures match IndexFrom(s[i..], sep, p)
      case None => IndexFrom(s, sep, i + p).None?
      case Some(q) => IndexFrom(s, sep, i + p) == Some(i + q)
    decreases |s| + 1 - i - p
  {
    if p + |sep| <= |s| - i {
      if !MatchAt(s[i..], sep, p) {
        IndexOfSuffix(s, sep, i, p + 1);
      }
    }
  }

  /** The reference meaning of the in-place loop, from read position `i` on: replace the
      leftmost occurrence of `pat`, continue after it, and stop after `n` replacements,
      at the end of the input, or when no occurrence is left. */
  function ReplaceFrom(s: seq<byte>, pat: seq<byte>, rep: seq<byte>, i: nat, n: nat): (r: seq<byte>)
    requires i <= |s|
    ensures |r| == |s| - i - Times(CountFrom(s, pat, i, n), |pat| - |rep|)
    decreases n
  {
    if n == 0 || i == |s| then s[i..]
    else
      match IndexFrom(s, pat, i)
      case None => s[i..]
      case Some(q) => s[i..q] + rep + ReplaceFrom(s, pat, rep, q + |pat|, n - 1)
  }

  /** How many replacements `ReplaceFrom` makes. */
  function CountFrom(s: seq<byte>, pat: seq<byte>, i: nat, n: nat): (r: nat)
    requires i <= |s|
    decreases n
  {
    if n == 0 || i == |s| then 0
    else
      match IndexFrom(s, pat, i)
      case None => 0
      case Some(q) => 1 + CountFrom(s, pat, q + |pat|, n - 1)
  }

  /** The whole-input reference replacement with at most `n` replacements. */
  function ReplaceSpec(s: seq<byte>, pat: seq<byte>, rep: seq<byte>, n: nat): (r: seq<byte>)
  {
    ReplaceFrom(s, pat, rep, 0, n)
  }

  /** `bytes.Replace`, used when `rep` is longer than `pat`. A negative `n` means no limit.
      An empty `pat` matches before every byte and at the end. */
  function StdReplace(s: seq<byte>, pat: seq<byte>, rep: seq<byte>, n: int): (r: seq<byte>)
  {
    if |pat| == 0 then InsertEverywhere(s, rep, if n < 0 then |s| + 1 else n)
    else ReplaceSpec(s, pat, rep, if n < 0 then |s| else n)
  }

  /** `rep` inserted at the first `k` of the positions 0, 1, …, |s|. */
  function InsertEverywhere(s: seq<byte>, rep: seq<byte>, k: nat): (r: seq<byte>)
  {
    if k == 0 then s
    else if |s| == 0 then rep
    else rep + [s[0]] + InsertEverywhere(s[1..], rep, k - 1)
  }

  /** The limit the loop runs under: Go replaces a negative `n` by `len(s)`. */
  function Limit(s: seq<byte>, n: int): nat
  {
    if n < 0 then |s| else n
  }

  /** `Replace`: `n == 0` returns `s` itself, a longer replacement goes to the standard
      library, and otherwise the in-place loop runs with a negative `n` read as `len(s)`.
      `after` is the caller's `s` once the call returns: the in-place loop leaves the
      result in its first bytes and the old bytes behind them; the other paths leave it
      alone. */
  method Replace(s: seq<byte>, pat: seq<byte>, rep: seq<byte>, n: int) returns (r: seq<byte>, after: seq<byte>)
    ensures n == 0 ==> r == s
    ensures n != 0 && |pat| < |rep| ==> r == StdReplace(s, pat, rep, n)
    ensures n != 0 && |pat| >= |rep| ==> r == ReplaceSpec(s, pat, rep, Limit(s, n))
    ensures |pat| >= |rep| ==> |r| <= |s|
    ensures n == 0 || |pat| < |rep| ==> after == s
    ensures n != 0 && |pat| >= |rep| ==> after == r + s[|r|..]
  {
    if n == 0 {
      return s, s;
    }
    if |pat| < |rep| {
      return StdReplace(s, pat, rep, n), s;
    }
    r, after := ReplaceInPlace(s, pat, rep, Limit(s, n));
    InPlaceNeverGrows(s, pat, rep, Limit(s, n));
  }

  /** The in-place loop over `buf`, which stands for `s`'s own storage: every copy
      writes into `buf` itself. The write cursor `w` stays at or behind the read cursor
      `i`, so a byte is overwritten only after it has been read, and the prefix returned
      is the reference replacement. Nothing is written at or past the final write
      cursor, so the storage afterwards is the result followed by `s`'s old bytes. */
  method ReplaceInPlace(s: seq<byte>, pat: seq<byte>, rep: seq<byte>, limit: nat) returns (r: seq<byte>, storage: seq<byte>)
    requires |pat| >= |rep|
    ensures r == ReplaceSpec(s, pat, rep, limit)
    ensures |r| <= |s| && storage == r + s[|r|..]
  {
    var buf := s;
    var i, j, w := 0, 0, 0;
    ghost var written: seq<byte> := [];
    ghost var budget := limit;
    while i < |buf| && j < limit
      invariant 0 <= w <= i <= |s| && j <= limit && budget == limit - j
      invariant |buf| == |s|
      invariant buf[i..] == s[i..] && buf[w..] == s[w..]
      invariant buf[..w] == written
      invariant Progress(s, pat, rep, limit, written, i, budget)
      decreases limit - j
    {
      var wid := Index(buf[i..], pat);
      if wid.None? {
        NoMatchRest(s, pat, rep, i, budget);
        break;
      }
      ghost var budget' := budget - 1;
      buf, w, i, written := Advance(s, pat, rep, limit, buf, w, i, budget, budget', wid.value, written);
      j, budget := j + 1, budget';
    }
    if i == |s| || budget == 0 {
      assert ReplaceFrom(s, pat, rep, i, budget) == s[i..];
    }
    storage := CopyTail(buf, s, w, i);
    r := storage[..w + (|s| - i)];
  }

  /** One iteration of the loop, for an occurrence `k` bytes past the read cursor. */
  method Advance(s: seq<byte>, pat: seq<byte>, rep: seq<byte>, limit: nat, buf: seq<byte>, w: nat, i: nat, ghost n: nat,
                 ghost n': nat, k: nat, ghost written: seq<byte>)
    returns (buf': seq<byte>, w': nat, i': nat, ghost written': seq<byte>)
    requires |rep| <= |pat| && w <= i < |s| && n > 0 && n' == n - 1
    requires |buf| == |s| && buf[i..] == s[i..] && buf[w..] == s[w..] && buf[..w] == written
    requires Index(buf[i..], pat) == Some(k)
    requires Progress(s, pat, rep, limit, written, i, n)
    ensures w' <= i' <= |s| && i <= i' && |buf'| == |s|
    ensures buf'[i'..] == s[i'..] && buf'[w'..] == s[w'..] && buf'[..w'] == written'
    ensures Progress(s, pat, rep, limit, written', i', n')
  {
    assert Index(s[i..], pat) == Some(k);
    buf' := ReplaceOne(buf, s, w, i, k, pat, rep);
    written', w', i' := written + s[i..i + k] + rep, w + k + |rep|, i + k + |pat|;
    assert buf'[w'..] == s[w'..] by {
      assert buf[w'..] == buf[w..][w' - w..];
      assert s[w'..] == s[w..][w' - w..];
    }
    WrittenStep(s, pat, rep, limit, written, i, n, n', k, i');
  }

  /** The loop's exit: the unread input `buf[i:]` moves down to the write cursor; the
      storage behind the moved bytes still holds `s`'s old bytes. */
  function CopyTail(buf: seq<byte>, s: seq<byte>, w: nat, i: nat): (r: seq<byte>)
    requires |buf| == |s| && w <= i <= |s| && buf[i..] == s[i..] && buf[w..] == s[w..]
    ensures |r| == |s|
    ensures r[..w + (|s| - i)] == buf[..w] + s[i..]
    ensures r[w + (|s| - i)..] == s[w + (|s| - i)..]
  {
    assert buf[i..i + (|s| - i)] == s[i..];
    var m := CopyWithin(buf, w, i, |s| - i);
    assert m[w + (|s| - i)..] == s[w + (|s| - i)..] by {
      assert buf[w + (|s| - i)..] == buf[w..][|s| - i..];
      assert s[w + (|s| - i)..] == s[w..][|s| - i..];
    }
    m
  }

  /** What the loop has produced so far: the bytes `written` followed by the reference
      output from read position `i` with `n` replacements left make the whole result. */
  function Progress(s: seq<byte>, pat: seq<byte>, rep: seq<byte>, limit: nat, written: seq<byte>, i: nat, n: nat): bool
  {
    i <= |s| && written + ReplaceFrom(s, pat, rep, i, n) == ReplaceSpec(s, pat, rep, limit)
  }

  /** The loop invariant across one replacement: the bytes written so far grow by the
      skipped bytes and `rep`, and the reference output resumes after the occurrence. */
  lemma WrittenStep(s: seq<byte>, pat: seq<byte>, rep: seq<byte>, limit: nat, written: seq<byte>, i: nat, n: nat, n': nat,
                    k: nat, i': nat)
    requires i < |s| && n > 0 && n' == n - 1 && Index(s[i..], pat) == Some(k) && i' == i + k + |pat|
    requires Progress(s, pat, rep, limit, written, i, n)
    ensures i' <= |s|
    ensures Progress(s, pat, rep, limit, written + s[i..i + k] + rep, i', n')
  {
    IndexOfSuffixFound(s, pat, i, k);
    UnfoldMatch(s, pat, rep, i, n, n', i + k, i');
    PrefixGrows(written, s[i..i + k], rep, ReplaceFrom(s, pat, rep, i', n'),
                ReplaceFrom(s, pat, rep, i, n), ReplaceSpec(s, pat, rep, limit));
  }

  /** Moving the head `a + b` of the remaining output onto the written prefix keeps the
      whole output the same. */
  lemma PrefixGrows(written: seq<byte>, a: seq<byte>, b: seq<byte>, tail: seq<byte>, rest: seq<byte>, whole: seq<byte>)
    requires rest == a + b + tail && written + rest == whole
    ensures written + a + b + tail == whole
  {
    ConcatAssoc(written, a, b, tail);
  }

  /** One loop iteration: the `k` unmatched bytes before the occurrence move down to the
      write cursor and `rep` follows them; the input after the occurrence is untouched. */
  function ReplaceOne(buf: seq<byte>, s: seq<byte>, w: nat, i: nat, k: nat, pat: seq<byte>, rep: seq<byte>): (r: seq<byte>)
    requires |buf| == |s| && w <= i && i + k + |pat| <= |s| && |rep| <= |pat|
    requires buf[i..] == s[i..]
    ensures |r| == |s|
    ensures r[..w + k + |rep|] == buf[..w] + s[i..i + k] + rep
    ensures r[i + k + |pat|..] == s[i + k + |pat|..]
    ensures r[w + k + |rep|..] == buf[w + k + |rep|..]
  {
    assert buf[i..i + k] == s[i..i + k] by {
      assert buf[i..i + k] == buf[i..][..k];
    }
    var moved := CopyWithin(buf, w, i, k);
    assert moved[i + k + |pat|..] == s[i + k + |pat|..] by {
      assert moved[i + k + |pat|..] == moved[i + k..][|pat|..];
    }
    assert moved[w + k + |rep|..] == buf[w + k + |rep|..] by {
      assert moved[w + k + |rep|..] == moved[w + k..][|rep|..];
      assert buf[w + k + |rep|..] == buf[w + k..][|rep|..];
    }
    WriteAt(moved, w + k, rep)
  }

  /** Go's `copy(buf[dst:], buf[src:src+len])` with the destination at or before the
      source: the bytes move down and everything from `src + len` on is untouched. */
  function CopyWithin(buf: seq<byte>, dst: nat, src: nat, len: nat): (r: seq<byte>)
    requires dst <= src && src + len <= |buf|
    ensures |r| == |buf|
    ensures r[..dst + len] == buf[..dst] + buf[src..src + len]
    ensures r[src + len..] == buf[src + len..]
    ensures r[dst + len..] == buf[dst + len..]
  {
    buf[..dst] + buf[src..src + len] + buf[dst + len..]
  }

  /** Go's `copy(buf[dst:], data)` when `data` fits. */
  function WriteAt(buf: seq<byte>, dst: nat, data: seq<byte>): (r: seq<byte>)
    requires dst + |data| <= |buf|
    ensures |r| == |buf|
    ensures r[..dst + |data|] == buf[..dst] + data
    ensures r[dst + |data|..] == buf[dst + |data|..]
  {
    buf[..dst] + data + buf[dst + |data|..]
  }

  /** A match `k` bytes into the suffix from `i` is a match at `i + k` in the whole. */
  lemma IndexOfSuffixFound(s: seq<byte>, sep: seq<byte>, i: nat, k: nat)
    requires i <= |s| && Index(s[i..], sep) == Some(k)
    ensures IndexFrom(s, sep, i) == Some(i + k)
  {
    IndexOfSuffix(s, sep, i, 0);
  }

  /** One replacement: when the next occurrence from `i` is at `q`, the reference output
      from `i` is the bytes before it, `rep`, and the reference output after it. */
  lemma UnfoldMatch(s: seq<byte>, pat: seq<byte>, rep: seq<byte>, i: nat, n: nat, n': nat, q: nat, next: nat)
    requires i < |s| && n > 0 && n' == n - 1 && IndexFrom(s, pat, i) == Some(q) && next == q + |pat|
    ensures next <= |s|
    ensures ReplaceFrom(s, pat, rep, i, n) == s[i..q] + rep + ReplaceFrom(s, pat, rep, next, n')
  {
  }

  lemma ConcatAssoc(a: seq<byte>, b: seq<byte>, c: seq<byte>, d: seq<byte>)
    ensures a + (b + c + d) == a + b + c + d
  {
  }

  /** No occurrence from `i` on: the rest is copied unchanged. */
  lemma NoMatchRest(s: seq<byte>, pat: seq<byte>, rep: seq<byte>, i: nat, n: nat)
    requires i <= |s| && Index(s[i..], pat).None?
    ensures ReplaceFrom(s, pat, rep, i, n) == s[i..]
  {
    IndexOfSuffix(s, pat, i, 0);
  }

  /** Length formula: each replacement shortens the text by |pat| - |rep|. */
  lemma ReplaceLength(s: seq<byte>, pat: seq<byte>, rep: seq<byte>, i: nat, n: nat)
    requires i <= |s|
    ensures |ReplaceFrom(s, pat, rep, i, n)| == |s| - i - CountFrom(s, pat, i, n) * (|pat| - |rep|)
  {
    TimesIsMul(CountFrom(s, pat, i, n), |pat| - |rep|);
  }

  /** `c` copies of `d` added up. The length of `ReplaceFrom` is stated with it, so that
      the solver meets no product of two unknowns until `ReplaceLength`. */
  function Times(c: nat, d: int): (r: int)
  {
    if c == 0 then 0 else d + Times(c - 1, d)
  }

  lemma {:induction false} TimesIsMul(c: nat, d: int)
    ensures Times(c, d) == c * d
  {
    if c > 0 {
      TimesIsMul(c - 1, d);
    }
  }

  /** At most `n` replacements are made. */
  lemma {:induction false} ReplaceCountBound(s: seq<byte>, pat: seq<byte>, i: nat, n: nat)
    requires i <= |s|
    ensures CountFrom(s, pat, i, n) <= n
    decreases n
  {
    if n > 0 && i < |s| && IndexFrom(s, pat, i).Some? {
      ReplaceCountBound(s, pat, IndexFrom(s, pat, i).value + |pat|, n - 1);
    }
  }

  /** When `pat` does not occur in `s`, nothing is replaced. */
  lemma NoOccurrenceNoChange(s: seq<byte>, pat: seq<byte>, rep: seq<byte>, n: nat)
    requires forall k: nat :: !MatchAt(s, pat, k)
    ensures ReplaceSpec(s, pat, rep, n) == s
    ensures CountFrom(s, pat, 0, n) == 0
  {
    IndexFirstMatch(s, pat, 0);
  }

  /** An empty `pat` with an empty `rep` (the only in-place case with an empty `pat`)
      leaves the input as it was, however large the limit. */
  lemma {:induction false} EmptyPatternNoChange(s: seq<byte>, i: nat, n: nat)
    requires i <= |s|
    ensures ReplaceFrom(s, [], [], i, n) == s[i..]
    decreases n
  {
    if n > 0 && i < |s| {
      assert MatchAt(s, [], i);
      EmptyPatternNoChange(s, i, n - 1);
    }
  }

  /** With `|pat| >= |rep|` the result is never longer than the input. */
  lemma InPlaceNeverGrows(s: seq<byte>, pat: seq<byte>, rep: seq<byte>, n: nat)
    requires |pat| >= |rep|
    ensures |ReplaceSpec(s, pat, rep, n)| <= |s|
  {
    ReplaceLength(s, pat, rep, 0, n);
    MulNonneg(CountFrom(s, pat, 0, n), |pat| - |rep|);
  }

  lemma MulNonneg(c: nat, d: nat)
    ensures c * d >= 0
  {
  }
}
