/**
 * Placeholder tokens survive `clean_text` (api-crawler/crawler.py lines
 * 31-68 applied at line 140): a token has no whitespace to strip, shares no
 * overlap with the four artifact patterns, holds no lower-case letter for
 * the word repair to split at, and its line is never blank, so it reaches
 * the cleaned content intact and the restore loops of lines 143-148 can
 * find it.
 */
module TokenSurvival {
  import opened Chars
  import opened Strings
  import opened LineBreaks
  import opened Replace
  import opened Normalizer
  import opened RepairFacts
  import opened SqueezeFacts
  import opened Tokens

  /** An inert string has no whitespace, no line feed and no place where a
      lower-case letter meets an upper-case one. */
  lemma {:induction false} InertShape(q: string)
    requires Inert(q)
    ensures forall i | 0 <= i < |q| :: !IsSpace(q[i])
    ensures '\n' !in q
    ensures NoBoundary(q)
  {
    assert forall i | 0 <= i < |q| :: !IsSpace(q[i]) && !IsLower(q[i]) by {
      forall i | 0 <= i < |q| ensures !IsSpace(q[i]) && !IsLower(q[i]) {
        if i > 0 {
          assert TokenTail(q[i]);
        }
      }
    }
  }

  /** A run of non-whitespace characters in `x` lies inside any infix
      `r` of `x` that has only whitespace around it. */
  lemma {:induction false} OccursInInfix(x: string, a: int, r: string, q: string, j: int)
    requires 0 <= a && a + |r| <= |x| && r == x[a..a + |r|]
    requires forall k :: 0 <= k < a ==> IsSpace(x[k])
    requires forall k :: a + |r| <= k < |x| ==> IsSpace(x[k])
    requires |q| > 0 && OccursAt(q, x, j)
    requires forall i | 0 <= i < |q| :: !IsSpace(q[i])
    ensures OccursAt(q, r, j - a)
  {
    var e := j + |q| - 1;
    assert x[j] == x[j..j + |q|][0] == q[0];
    assert x[e] == x[j..j + |q|][|q| - 1] == q[|q| - 1];
    forall i | 0 <= i < |q| ensures r[j - a + i] == q[i] {
      assert r[j - a + i] == x[j + i] == x[j..j + |q|][i];
    }
    assert r[j - a..j - a + |q|] == q;
  }

  /** Stripping cannot cut into a run of non-whitespace characters. */
  lemma {:induction false} StripKeepsPresent(x: string, q: string, j: int)
    requires |q| > 0 && OccursAt(q, x, j)
    requires forall i | 0 <= i < |q| :: !IsSpace(q[i])
    ensures Contains(Strip(x), q)
  {
    OccursInInfix(x, StripStart(x), Strip(x), q, j);
  }

  /** A pattern that starts with neither a bracket-free token character
      nor an upper-case letter after a bracket cannot overlap an inert
      string. */
  lemma {:induction false} InertNoOverlap(p: string, q: string)
    requires Inert(q) && |p| > 1
    requires !TokenTail(p[0]) && !IsUpper(p[1])
    requires forall j | 1 <= j < |p| :: p[j] != '['
    ensures NoOverlap(p, q)
  {
    forall k | 0 <= k < |q| ensures !Compatible(q[k..], p) {
      if k == 0 {
        assert q[k..][1] != p[1];
      } else {
        assert TokenTail(q[k]);
        assert q[k..][0] != p[0];
      }
    }
    forall j | 0 <= j < |p| ensures !Compatible(p[j..], q) {
      if j == 0 {
        assert p[j..][1] != q[1];
      } else {
        assert p[j..][0] != q[0];
      }
    }
  }

  /** A pattern made only of characters that never appear in an inert
      string cannot overlap one. */
  lemma {:induction false} ForeignNoOverlap(p: string, q: string)
    requires Inert(q) && |p| > 0
    requires forall j | 0 <= j < |p| :: !TokenTail(p[j]) && p[j] != '['
    ensures NoOverlap(p, q)
  {
    forall k | 0 <= k < |q| ensures !Compatible(q[k..], p) {
      if k > 0 {
        assert TokenTail(q[k]);
      }
      assert q[k..][0] != p[0];
    }
    forall j | 0 <= j < |p| ensures !Compatible(p[j..], q) {
      assert p[j..][0] != q[0];
    }
  }

  /** None of the four artifact patterns can overlap an inert string. */
  lemma {:induction false} PatternsMissInert(q: string)
    requires Inert(q)
    ensures NoOverlap(EmailPattern, q) && NoOverlap(NotePattern, q)
    ensures NoOverlap(ArrowPattern, q) && NoOverlap(HeartPattern, q)
  {
    assert forall j | 1 <= j < |EmailPattern| :: EmailPattern[j] != '[';
    InertNoOverlap(EmailPattern, q);
    ForeignNoOverlap(NotePattern, q);
    ForeignNoOverlap(ArrowPattern, q);
    ForeignNoOverlap(HeartPattern, q);
  }

  /** The artifact substitutions keep every inert string they find. */
  lemma {:induction false} SubstituteKeepsInert(s: string, q: string)
    requires Inert(q) && Contains(s, q)
    ensures Contains(Substitute(s), q)
  {
    PatternsMissInert(q);
    var a := ReplaceAll(s, EmailPattern, EmailReplacement);
    var b := ReplaceAll(a, NotePattern, NoteReplacement);
    var c := ReplaceAll(b, ArrowPattern, ArrowReplacement);
    ReplaceKeepsContained(s, EmailPattern, EmailReplacement, q);
    ReplaceKeepsContained(a, NotePattern, NoteReplacement, q);
    ReplaceKeepsContained(b, ArrowPattern, ArrowReplacement, q);
    ReplaceKeepsContained(c, HeartPattern, HeartReplacement, q);
  }

  /** The cleaning of one line keeps every inert string of the line. */
  lemma {:induction false} LineKeepsInert(x: string, q: string)
    requires Inert(q) && Contains(x, q)
    ensures Contains(ProcessLine(x), q)
  {
    InertShape(q);
    var j :| 0 <= j <= |x| - |q| && OccursAt(q, x, j);
    StripKeepsPresent(x, q, j);
    var line := Substitute(Strip(x));
    SubstituteKeepsInert(Strip(x), q);
    var m :| 0 <= m <= |line| - |q| && OccursAt(q, line, m);
    RepairKeepsPresent(line, q, m);
  }

  /** A line that holds an inert string is never dropped by the blank-line
      collapse, and its cleaned form lands in the output text. */
  lemma {:induction false} CleanedLineShows(text: string, k: int, q: string)
    requires 0 <= k < |Lines(text)| && Inert(q)
    requires Contains(ProcessAll(Lines(text))[k], q)
    ensures Contains(CleanText(text), q)
  {
    var ps := ProcessAll(Lines(text));
    assert ps[k] != "";
    SqueezeKeepsLine(ps, k);
    var i :| 0 <= i < |Squeeze(ps)| && Squeeze(ps)[i] == ps[k];
    OccurrenceInJoin(CleanLines(text), "\n", i, q);
  }

  /** An inert string anywhere in the text is still in `clean_text` of
      it: in particular every placeholder token. */
  lemma {:induction false} InertSurvivesClean(text: string, q: string, j: int)
    requires Inert(q) && OccursAt(q, text, j)
    ensures Contains(CleanText(text), q)
  {
    InertShape(q);
    OccurrenceInLine(text, q, j);
    var k :| 0 <= k < |Lines(text)| && Contains(Lines(text)[k], q);
    LineKeepsInert(Lines(text)[k], q);
    CleanedLineShows(text, k, q);
  }

  lemma {:induction false} TokenSurvivesClean(text: string, n: nat, j: int)
    requires OccursAt(CodeToken(n), text, j) || OccursAt(TableToken(n), text, j)
    ensures OccursAt(CodeToken(n), text, j) ==> Contains(CleanText(text), CodeToken(n))
    ensures OccursAt(TableToken(n), text, j) ==> Contains(CleanText(text), TableToken(n))
  {
    TokensInert(n);
    if OccursAt(CodeToken(n), text, j) {
      InertSurvivesClean(text, CodeToken(n), j);
    }
    if OccursAt(TableToken(n), text, j) {
      InertSurvivesClean(text, TableToken(n), j);
    }
  }
}
