/**
 * Substring vocabulary shared by the normaliser, the placeholder logic and
 * the crawler: prefixes, occurrences, and the "can these two strings be laid
 * over each other" test that the replacement lemmas are phrased in.
 */
module Strings {

  /** Python's `s.startswith(p)`. */
  predicate StartsWith(s: string, p: string) {
    |p| <= |s| && s[..|p|] == p
  }

  /** Python's `s.endswith(p)`. */
  predicate EndsWith(s: string, p: string) {
    |p| <= |s| && s[|s| - |p|..] == p
  }

  /** `q` occurs in `s` starting at index `j`. */
  predicate OccursAt(q: string, s: string, j: int) {
    0 <= j && j + |q| <= |s| && s[j..j + |q|] == q
  }

  /** Python's `q in s`. */
  predicate Contains(s: string, q: string) {
    exists j | 0 <= j <= |s| - |q| :: OccursAt(q, s, j)
  }

  /** `q` occurs nowhere in `s`. */
  predicate NoOcc(q: string, s: string) {
    forall j | 0 <= j <= |s| - |q| :: !OccursAt(q, s, j)
  }

  /** `a` and `b` agree on every index both of them have, so one is a
      prefix of the other. */
  predicate Compatible(a: string, b: string) {
    forall m | 0 <= m < |a| && m < |b| :: a[m] == b[m]
  }

  /** `n` copies of `c`, as in Python's `c * n`. */
  function Repeat(c: char, n: nat): (r: string)
    ensures |r| == n
    ensures forall i :: 0 <= i < n ==> r[i] == c
  {
    if n == 0 then "" else Repeat(c, n - 1) + [c]
  }

  lemma {:induction false} ContainsIffNotNoOcc(s: string, q: string)
    ensures Contains(s, q) <==> !NoOcc(q, s)
  {
  }

  /** An occurrence in a suffix is an occurrence in the whole string. */
  lemma {:induction false} OccursAtShift(q: string, s: string, a: string, j: int)
    requires OccursAt(q, s, j)
    ensures OccursAt(q, a + s, |a| + j)
  {
    assert (a + s)[|a| + j..|a| + j + |q|] == s[j..j + |q|];
  }

  /** An occurrence in a prefix is an occurrence in the whole string. */
  lemma {:induction false} OccursAtExtend(q: string, s: string, b: string, j: int)
    requires OccursAt(q, s, j)
    ensures OccursAt(q, s + b, j)
  {
    assert (s + b)[j..j + |q|] == s[j..j + |q|];
  }

  /** No occurrence in a string means none in any of its suffixes. */
  lemma {:induction false} NoOccSuffix(q: string, s: string, k: nat)
    requires k <= |s| && NoOcc(q, s)
    ensures NoOcc(q, s[k..])
  {
    forall j | 0 <= j <= |s[k..]| - |q|
      ensures !OccursAt(q, s[k..], j)
    {
      if OccursAt(q, s[k..], j) {
        assert s[k..][j..j + |q|] == s[k + j..k + j + |q|];
        assert OccursAt(q, s, k + j);
      }
    }
  }

  /** No occurrence in a string means none in any of its prefixes. */
  lemma {:induction false} NoOccPrefix(q: string, s: string, k: nat)
    requires k <= |s| && NoOcc(q, s)
    ensures NoOcc(q, s[..k])
  {
    forall j | 0 <= j <= |s[..k]| - |q|
      ensures !OccursAt(q, s[..k], j)
    {
      if OccursAt(q, s[..k], j) {
        assert s[..k][j..j + |q|] == s[j..j + |q|];
        assert OccursAt(q, s, j);
      }
    }
  }

  /** A non-empty suffix of `x + [c]` ends in `c`, and the rest of it is a
      suffix of `x`. */
  lemma {:induction false} SuffixPeel(x: string, c: char, t: string)
    requires |t| >= 1 && EndsWith(x + [c], t)
    ensures t[|t| - 1] == c && EndsWith(x, t[..|t| - 1])
  {
    var y := x + [c];
    assert t[|t| - 1] == y[|y| - |t|..][|t| - 1];
    assert x[|x| - (|t| - 1)..] == y[|y| - |t|..][..|t| - 1];
  }

  /** A string ends with `t` when their last characters agree and the
      rest of `t` is a suffix of the rest of the string. */
  lemma {:induction false} SuffixGlue(s: string, t: string)
    requires |s| >= 1 && |t| >= 1 && s[|s| - 1] == t[|t| - 1]
    requires EndsWith(s[..|s| - 1], t[..|t| - 1])
    ensures EndsWith(s, t)
  {
    var s', t' := s[..|s| - 1], t[..|t| - 1];
    assert s[|s| - |t|..] == s'[|s'| - |t'|..] + [s[|s| - 1]];
    assert t == t' + [t[|t| - 1]];
  }

  /** The same for a string given as `x + [c]`. */
  lemma {:induction false} SuffixGlueSnoc(x: string, c: char, t: string)
    requires |t| >= 1 && t[|t| - 1] == c && EndsWith(x, t[..|t| - 1])
    ensures EndsWith(x + [c], t)
  {
    var y := x + [c];
    assert y[..|y| - 1] == x;
    SuffixGlue(y, t);
  }

  /** The converse of `SuffixGlue`. */
  lemma {:induction false} SuffixPeelLast(s: string, t: string)
    requires |t| >= 1 && EndsWith(s, t)
    ensures s[|s| - 1] == t[|t| - 1] && EndsWith(s[..|s| - 1], t[..|t| - 1])
  {
    assert t[|t| - 1] == s[|s| - |t|..][|t| - 1];
    assert s[..|s| - 1][|s| - |t|..] == s[|s| - |t|..][..|t| - 1];
  }

  /** An occurrence of `b` inside an occurrence of `a` is an occurrence in
      the whole text. */
  lemma {:induction false} ContainsTrans(s: string, a: string, b: string)
    requires Contains(s, a) && Contains(a, b)
    ensures Contains(s, b)
  {
    var i :| 0 <= i <= |s| - |a| && OccursAt(a, s, i);
    var k :| 0 <= k <= |a| - |b| && OccursAt(b, a, k);
    assert a == s[i..i + |a|];
    forall m | 0 <= m < |b| ensures s[i + k + m] == b[m] {
      assert b[m] == a[k + m] == s[i..i + |a|][k + m];
    }
    assert s[i + k..i + k + |b|] == b;
    assert OccursAt(b, s, i + k);
  }
}
