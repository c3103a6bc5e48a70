/** The parts of Go's `strings` package the library leans on, for a cutset of one
    character. */
module GoStrings {

  /** `strings.TrimLeft(s, cutset)` with a one-character cutset: every leading `c`
      removed, and nothing else. */
  function TrimLeft(s: string, c: char): (r: string)
    ensures |r| <= |s| && r == s[|s| - |r|..]
    ensures r == [] || r[0] != c
    ensures forall k | 0 <= k < |s| - |r| :: s[k] == c
  {
    if s != [] && s[0] == c then TrimLeft(s[1..], c) else s
  }

  /** `strings.TrimRight(s, cutset)` with a one-character cutset: every trailing `c`
      removed, and nothing else. */
  function TrimRight(s: string, c: char): (r: string)
    ensures |r| <= |s| && r == s[..|r|]
    ensures r == [] || r[|r| - 1] != c
    ensures forall k | |r| <= k < |s| :: s[k] == c
  {
    if s != [] && s[|s| - 1] == c then TrimRight(s[..|s| - 1], c) else s
  }

  /** `n` copies of `c`. */
  function Run(c: char, n: nat): (r: string)
    ensures |r| == n
    ensures forall k | 0 <= k < n :: r[k] == c
  {
    seq(n, _ => c)
  }

  /** Trimming on the left removes exactly a leading run of `c`. */
  lemma {:induction false} TrimLeftRun(c: char, a: nat, s: string)
    requires s == [] || s[0] != c
    ensures TrimLeft(Run(c, a) + s, c) == s
  {
    if a > 0 {
      var t := Run(c, a) + s;
      assert t[0] == c;
      assert t[1..] == Run(c, a - 1) + s;
      TrimLeftRun(c, a - 1, s);
    } else {
      assert Run(c, a) + s == s;
    }
  }

  /** Trimming on the right removes exactly a trailing run of `c`. */
  lemma {:induction false} TrimRightRun(core: string, c: char, d: nat)
    requires core == [] || core[|core| - 1] != c
    ensures TrimRight(core + Run(c, d), c) == core
  {
    if d > 0 {
      var shorter := core + Run(c, d - 1);
      RunGrows(c, d);
      assert core + Run(c, d) == shorter + [c];
      TrimRightLast(shorter, c);
      TrimRightRun(core, c, d - 1);
    } else {
      assert core + Run(c, d) == core;
    }
  }

  /** A run one longer is the run with one more `c` at the end. */
  lemma RunGrows(c: char, d: nat)
    requires d > 0
    ensures Run(c, d) == Run(c, d - 1) + [c]
  {
  }

  /** A trailing `c` is trimmed and the trimming goes on before it. */
  lemma TrimRightLast(s: string, c: char)
    ensures TrimRight(s + [c], c) == TrimRight(s, c)
  {
    assert (s + [c])[..|s|] == s;
  }
}
