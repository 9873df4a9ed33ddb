/**
 * Python's `str.replace(p, r)` for a non-empty pattern: a left-to-right scan
 * that replaces every non-overlapping occurrence of `p`, together with the
 * facts the normaliser and the placeholder restore rely on: replacing is
 * splitting on the pattern and joining with the replacement, a replacement
 * that cannot be laid over a pattern never re-creates it, and a string that
 * cannot overlap the pattern survives the replacement.
 */
module Replace {
  import opened Strings
  import opened LineBreaks

  /** `s.replace(p, r)`. */
  function ReplaceAll(s: string, p: string, r: string): string
    requires |p| > 0
  {
    if |s| < |p| then s
    else if StartsWith(s, p) then r + ReplaceAll(s[|p|..], p, r)
    else [s[0]] + ReplaceAll(s[1..], p, r)
  }

  /** `s.split(p)`: the same scan, cutting the text at each occurrence. */
  function SplitOn(s: string, p: string): (pieces: seq<string>)
    requires |p| > 0
    ensures |pieces| >= 1
  {
    if |s| < |p| then [s]
    else if StartsWith(s, p) then [""] + SplitOn(s[|p|..], p)
    else
      var rest := SplitOn(s[1..], p);
      [[s[0]] + rest[0]] + rest[1..]
  }

  /** Prepending to the first piece prepends to the join. */
  lemma {:induction false} JoinConsFirst(x: string, ws: seq<string>, sep: string)
    requires |ws| >= 1
    ensures Join([x + ws[0]] + ws[1..], sep) == x + Join(ws, sep)
  {
    var v := [x + ws[0]] + ws[1..];
    if |ws| > 1 {
      assert v[1..] == ws[1..];
    }
  }

  /** Cutting at the pattern and gluing the pieces back with the pattern
      gives back the text. */
  lemma {:induction false} JoinSplitOn(s: string, p: string)
    requires |p| > 0
    ensures Join(SplitOn(s, p), p) == s
  {
    if |s| < |p| {
    } else if StartsWith(s, p) {
      var t := s[|p|..];
      var rest := SplitOn(t, p);
      JoinSplitOn(t, p);
      assert SplitOn(s, p) == [""] + rest;
      assert ([""] + rest)[1..] == rest;
      assert Join([""] + rest, p) == "" + p + Join(rest, p);
      assert s == p + t;
    } else {
      var t := s[1..];
      var rest := SplitOn(t, p);
      JoinSplitOn(t, p);
      assert SplitOn(s, p) == [[s[0]] + rest[0]] + rest[1..];
      JoinConsFirst([s[0]], rest, p);
      assert s == [s[0]] + t;
    }
  }

  /** Replacing is splitting on the pattern and joining with the
      replacement, as Python documents `str.replace`. */
  lemma {:induction false} ReplaceIsSplitJoin(s: string, p: string, r: string)
    requires |p| > 0
    ensures ReplaceAll(s, p, r) == Join(SplitOn(s, p), r)
  {
    if |s| < |p| {
    } else if StartsWith(s, p) {
      ReplaceIsSplitJoin(s[|p|..], p, r);
      var rest := SplitOn(s[|p|..], p);
      assert ([""] + rest)[1..] == rest;
    } else {
      ReplaceIsSplitJoin(s[1..], p, r);
      JoinConsFirst([s[0]], SplitOn(s[1..], p), r);
    }
  }

  /** A text without the pattern is left alone. */
  lemma {:induction false} ReplaceAbsent(s: string, p: string, r: string)
    requires |p| > 0 && NoOcc(p, s)
    ensures ReplaceAll(s, p, r) == s
  {
    if |s| >= |p| {
      assert !OccursAt(p, s, 0);
      NoOccSuffix(p, s, 1);
      ReplaceAbsent(s[1..], p, r);
      assert s == [s[0]] + s[1..];
    }
  }

  /** If the pattern occurs, the replacement shows up in the result. */
  lemma {:induction false} ReplacementShows(s: string, p: string, r: string, j: int)
    requires |p| > 0 && OccursAt(p, s, j)
    ensures Contains(ReplaceAll(s, p, r), r)
  {
    if StartsWith(s, p) {
      assert OccursAt(r, ReplaceAll(s, p, r), 0);
    } else {
      assert j > 0;
      assert OccursAt(p, s[1..], j - 1) by {
        assert s[1..][j - 1..j - 1 + |p|] == s[j..j + |p|];
      }
      ReplacementShows(s[1..], p, r, j - 1);
      var m :| 0 <= m <= |ReplaceAll(s[1..], p, r)| - |r| && OccursAt(r, ReplaceAll(s[1..], p, r), m);
      OccursAtShift(r, ReplaceAll(s[1..], p, r), [s[0]], m);
    }
  }

  /** The replacement `r` can never be laid over `q` so that `q` appears:
      no suffix of `r` is compatible with `q`, and no proper suffix of `q`
      is compatible with `r`. */
  predicate Safe(q: string, r: string) {
    && (forall j | 0 <= j < |r| :: !Compatible(r[j..], q))
    && (forall k | 1 <= k < |q| :: !Compatible(q[k..], r))
  }

  /** A step that replaced the pattern at the head of `t` puts `r` first,
      so whatever the result starts with agrees with `r`. */
  lemma {:induction false} ReplacedHead(t: string, p: string, r: string, u: string)
    requires |p| > 0 && |t| >= |p| && StartsWith(ReplaceAll(t, p, r), u)
    ensures StartsWith(t, p) ==> Compatible(u, r)
  {
    var out := ReplaceAll(t, p, r);
    if StartsWith(t, p) {
      forall m | 0 <= m < |u| && m < |r| ensures u[m] == r[m] {
        assert out[m] == r[m];
        assert out[..|u|][m] == out[m];
      }
    }
  }

  /** Under `Safe`, a result that starts with a proper suffix of `q` comes
      from a text that starts with it. */
  lemma {:induction false} PrefixBack(t: string, p: string, r: string, q: string, k: int)
    requires |p| > 0 && 1 <= k <= |q|
    requires forall k' | 1 <= k' < |q| :: !Compatible(q[k'..], r)
    requires StartsWith(ReplaceAll(t, p, r), q[k..])
    ensures StartsWith(t, q[k..])
    decreases |q| - k
  {
    var out := ReplaceAll(t, p, r);
    if k == |q| || |t| < |p| {
    } else {
      ReplacedHead(t, p, r, q[k..]);
      var rest := ReplaceAll(t[1..], p, r);
      assert out == [t[0]] + rest;
      assert out[0] == q[k];
      assert StartsWith(rest, q[k + 1..]) by {
        assert rest[..|q[k + 1..]|] == out[1..|q[k..]|];
      }
      PrefixBack(t[1..], p, r, q, k + 1);
      assert t[..|q[k..]|] == [t[0]] + t[1..][..|q[k + 1..]|];
      assert q[k..] == [q[k]] + q[k + 1..];
    }
  }

  /** Under `Safe`, an occurrence of `q` at the head of the result of a
      step that copied the first character was already at the head of the
      text. */
  lemma {:induction false} HeadOccurrenceBack(s: string, p: string, r: string, q: string)
    requires |p| > 0 && |q| > 0 && Safe(q, r)
    requires |s| >= |p| && !StartsWith(s, p)
    requires OccursAt(q, ReplaceAll(s, p, r), 0)
    ensures OccursAt(q, s, 0)
  {
    var x := ReplaceAll(s[1..], p, r);
    var out := ReplaceAll(s, p, r);
    assert out == [s[0]] + x;
    assert s[0] == q[0] by {
      assert out[..|q|][0] == out[0];
    }
    if |q| > 1 {
      assert StartsWith(x, q[1..]) by {
        assert x[..|q| - 1] == out[1..|q|];
      }
      PrefixBack(s[1..], p, r, q, 1);
      assert s[1..][..|q| - 1] == q[1..];
      forall i | 0 <= i < |q| ensures s[i] == q[i] {
        if i > 0 {
          assert s[1..][..|q| - 1][i - 1] == s[i];
        }
      }
    }
    assert s[..|q|] == q;
  }

  /** Replacing never re-creates the pattern itself, and never creates a
      string `q` that was absent, as long as the replacement is `Safe`
      for it. */
  lemma {:induction false} ReplaceKeepsAbsent(s: string, p: string, r: string, q: string)
    requires |p| > 0 && |q| > 0 && Safe(q, r)
    requires q == p || NoOcc(q, s)
    ensures NoOcc(q, ReplaceAll(s, p, r))
  {
    var out := ReplaceAll(s, p, r);
    if |s| < |p| {
    } else if StartsWith(s, p) {
      var tail := s[|p|..];
      if q != p {
        NoOccSuffix(q, s, |p|);
      }
      ReplaceKeepsAbsent(tail, p, r, q);
      var x := ReplaceAll(tail, p, r);
      assert out == r + x;
      forall j | 0 <= j <= |out| - |q| ensures !OccursAt(q, out, j) {
        if OccursAt(q, out, j) {
          if j >= |r| {
            assert x[j - |r|..j - |r| + |q|] == out[j..j + |q|];
            assert OccursAt(q, x, j - |r|);
          } else {
            assert Compatible(r[j..], q) by {
              forall m | 0 <= m < |r[j..]| && m < |q| ensures r[j..][m] == q[m] {
                assert out[j + m] == r[j + m];
                assert out[j..j + |q|][m] == out[j + m];
              }
            }
          }
        }
      }
    } else {
      if q != p {
        NoOccSuffix(q, s, 1);
      }
      ReplaceKeepsAbsent(s[1..], p, r, q);
      var x := ReplaceAll(s[1..], p, r);
      assert out == [s[0]] + x;
      forall j | 0 <= j <= |out| - |q| ensures !OccursAt(q, out, j) {
        if OccursAt(q, out, j) {
          if j >= 1 {
            assert x[j - 1..j - 1 + |q|] == out[j..j + |q|];
            assert OccursAt(q, x, j - 1);
          } else {
            HeadOccurrenceBack(s, p, r, q);
          }
        }
      }
    }
  }

  /** `p` and `q` cannot be laid over each other at any offset, so an
      occurrence of `q` never overlaps an occurrence of `p`. */
  predicate NoOverlap(p: string, q: string) {
    && (forall k | 0 <= k < |q| :: !Compatible(q[k..], p))
    && (forall j | 0 <= j < |p| :: !Compatible(p[j..], q))
  }

  /** A text that starts with a suffix of `q` still does after replacing. */
  lemma {:induction false} PrefixKept(s: string, p: string, r: string, q: string, k: int)
    requires |p| > 0 && NoOverlap(p, q) && 0 <= k <= |q|
    requires StartsWith(s, q[k..])
    ensures StartsWith(ReplaceAll(s, p, r), q[k..])
    decreases |q| - k
  {
    if k == |q| || |s| < |p| {
    } else if StartsWith(s, p) {
      assert false;
    } else {
      assert StartsWith(s[1..], q[k + 1..]) by {
        assert s[1..][..|q[k + 1..]|] == s[..|q[k..]|][1..];
      }
      PrefixKept(s[1..], p, r, q, k + 1);
      var x := ReplaceAll(s[1..], p, r);
      assert ([s[0]] + x)[..|q[k..]|] == [s[0]] + x[..|q[k + 1..]|];
      assert q[k..] == [q[k]] + q[k + 1..];
    }
  }

  /** An occurrence of `q` that starts inside an occurrence of `p` at the
      head of `s` agrees with the rest of `p`. */
  lemma {:induction false} PatternOverlap(s: string, p: string, q: string, j: int)
    requires StartsWith(s, p) && OccursAt(q, s, j)
    ensures j < |p| ==> Compatible(p[j..], q)
  {
    if j < |p| {
      forall m | 0 <= m < |p[j..]| && m < |q| ensures p[j..][m] == q[m] {
        assert s[..|p|][j + m] == s[j + m];
        assert s[j..j + |q|][m] == s[j + m];
      }
    }
  }

  /** A string that cannot overlap the pattern survives the replacement. */
  lemma {:induction false} ReplaceKeepsPresent(s: string, p: string, r: string, q: string, j: int)
    requires |p| > 0 && NoOverlap(p, q) && OccursAt(q, s, j)
    ensures Contains(ReplaceAll(s, p, r), q)
  {
    var out := ReplaceAll(s, p, r);
    if |s| < |p| {
    } else if StartsWith(s, p) {
      PatternOverlap(s, p, q, j);
      var tail := s[|p|..];
      assert OccursAt(q, tail, j - |p|) by {
        assert tail[j - |p|..j - |p| + |q|] == s[j..j + |q|];
      }
      ReplaceKeepsPresent(tail, p, r, q, j - |p|);
      var x := ReplaceAll(tail, p, r);
      var m :| 0 <= m <= |x| - |q| && OccursAt(q, x, m);
      OccursAtShift(q, x, r, m);
    } else if j == 0 {
      assert StartsWith(s, q[0..]);
      PrefixKept(s, p, r, q, 0);
      assert OccursAt(q, out, 0);
    } else {
      assert OccursAt(q, s[1..], j - 1) by {
        assert s[1..][j - 1..j - 1 + |q|] == s[j..j + |q|];
      }
      ReplaceKeepsPresent(s[1..], p, r, q, j - 1);
      var x := ReplaceAll(s[1..], p, r);
      var m :| 0 <= m <= |x| - |q| && OccursAt(q, x, m);
      OccursAtShift(q, x, [s[0]], m);
    }
  }

  /** `Contains` form of `ReplaceKeepsPresent`. */
  lemma {:induction false} ReplaceKeepsContained(s: string, p: string, r: string, q: string)
    requires |p| > 0 && NoOverlap(p, q) && Contains(s, q)
    ensures Contains(ReplaceAll(s, p, r), q)
  {
    var j :| 0 <= j <= |s| - |q| && OccursAt(q, s, j);
    ReplaceKeepsPresent(s, p, r, q, j);
  }
}
