/**
 * Properties of the artifact substitutions of `clean_text`
 * (api-crawler/crawler.py lines 40-43): they never re-create one of their
 * own patterns, they map empty text to empty text and non-empty text to
 * non-empty text, they keep a stripped line stripped, and they bring in no
 * character that neither the line nor a replacement holds.
 */
module SubstituteFacts {
  import opened Chars
  import opened Strings
  import opened Replace
  import opened Normalizer

  // ---------------------------------------------------------------------
  // No replacement can be laid over a pattern applied at or before it.
  // ---------------------------------------------------------------------

  /** A replacement that never holds the first character of `q`, and whose
      first character appears nowhere in `q` after its head, is safe. */
  lemma {:induction false} SafeByHeads(q: string, r: string)
    requires |q| > 0 && |r| > 0
    requires forall j | 0 <= j < |r| :: r[j] != q[0]
    requires forall k | 1 <= k < |q| :: q[k] != r[0]
    ensures Safe(q, r)
  {
    forall j | 0 <= j < |r| ensures !Compatible(r[j..], q) {
      assert r[j..][0] != q[0];
    }
    forall k | 1 <= k < |q| ensures !Compatible(q[k..], r) {
      assert q[k..][0] != r[0];
    }
  }

  /** The e-mail replacement cannot be laid over the e-mail pattern: the
      only overlaps on a first character are cut short one or five places
      later. */
  lemma {:induction false} EmailSafeAgainstItself()
    ensures Safe(EmailPattern, EmailReplacement)
  {
    var q, r := EmailPattern, EmailReplacement;
    forall j | 0 <= j < |r| ensures !Compatible(r[j..], q) {
      assert r[j..][0] != q[0];
    }
    forall k | 1 <= k < |q| ensures !Compatible(q[k..], r) {
      if k == 1 {
        assert q[k..][5] != r[5];
      } else if k == 11 || k == 14 {
        assert q[k..][1] != r[1];
      } else {
        assert q[k..][0] != r[0];
      }
    }
  }

  /** "[NOTE]" shares its opening bracket with the e-mail pattern but
      differs from it right after. */
  lemma {:induction false} EmailSafeAgainstNote()
    ensures Safe(EmailPattern, NoteReplacement)
  {
    var q, r := EmailPattern, NoteReplacement;
    forall j | 0 <= j < |r| ensures !Compatible(r[j..], q) {
      if j == 0 {
        assert r[j..][1] != q[1];
      } else {
        assert r[j..][0] != q[0];
      }
    }
    forall k | 1 <= k < |q| ensures !Compatible(q[k..], r) {
      assert q[k..][0] != r[0];
    }
  }

  /** Every pattern is safe against its own replacement and against every
      replacement applied after it. */
  lemma {:induction false} PatternsSafe()
    ensures Safe(EmailPattern, EmailReplacement)
    ensures Safe(EmailPattern, NoteReplacement)
    ensures Safe(EmailPattern, ArrowReplacement)
    ensures Safe(EmailPattern, HeartReplacement)
    ensures Safe(NotePattern, NoteReplacement)
    ensures Safe(NotePattern, ArrowReplacement)
    ensures Safe(NotePattern, HeartReplacement)
    ensures Safe(ArrowPattern, ArrowReplacement)
    ensures Safe(ArrowPattern, HeartReplacement)
    ensures Safe(HeartPattern, HeartReplacement)
  {
    EmailSafeAgainstItself();
    EmailSafeAgainstNote();
    SafeByHeads(EmailPattern, ArrowReplacement);
    SafeByHeads(EmailPattern, HeartReplacement);
    SafeByHeads(NotePattern, NoteReplacement);
    SafeByHeads(NotePattern, ArrowReplacement);
    SafeByHeads(NotePattern, HeartReplacement);
    SafeByHeads(ArrowPattern, ArrowReplacement);
    SafeByHeads(ArrowPattern, HeartReplacement);
    SafeByHeads(HeartPattern, HeartReplacement);
  }

  /** After the four replacements none of the four patterns is left, even
      where a replacement ends next to text that starts a pattern. */
  lemma {:induction false} SubstituteNoPatterns(s: string)
    ensures NoOcc(EmailPattern, Substitute(s))
    ensures NoOcc(NotePattern, Substitute(s))
    ensures NoOcc(ArrowPattern, Substitute(s))
    ensures NoOcc(HeartPattern, Substitute(s))
  {
    PatternsSafe();
    var a := ReplaceAll(s, EmailPattern, EmailReplacement);
    var b := ReplaceAll(a, NotePattern, NoteReplacement);
    var c := ReplaceAll(b, ArrowPattern, ArrowReplacement);
    var d := ReplaceAll(c, HeartPattern, HeartReplacement);
    ReplaceKeepsAbsent(s, EmailPattern, EmailReplacement, EmailPattern);
    ReplaceKeepsAbsent(a, NotePattern, NoteReplacement, EmailPattern);
    ReplaceKeepsAbsent(a, NotePattern, NoteReplacement, NotePattern);
    ReplaceKeepsAbsent(b, ArrowPattern, ArrowReplacement, EmailPattern);
    ReplaceKeepsAbsent(b, ArrowPattern, ArrowReplacement, NotePattern);
    ReplaceKeepsAbsent(b, ArrowPattern, ArrowReplacement, ArrowPattern);
    ReplaceKeepsAbsent(c, HeartPattern, HeartReplacement, EmailPattern);
    ReplaceKeepsAbsent(c, HeartPattern, HeartReplacement, NotePattern);
    ReplaceKeepsAbsent(c, HeartPattern, HeartReplacement, ArrowPattern);
    ReplaceKeepsAbsent(c, HeartPattern, HeartReplacement, HeartPattern);
  }

  /** A line holding none of the patterns passes the substitutions
      unchanged; with `SubstituteNoPatterns` this makes them idempotent. */
  lemma {:induction false} SubstituteNoop(s: string)
    requires NoOcc(EmailPattern, s) && NoOcc(NotePattern, s)
    requires NoOcc(ArrowPattern, s) && NoOcc(HeartPattern, s)
    ensures Substitute(s) == s
  {
    ReplaceAbsent(s, EmailPattern, EmailReplacement);
    ReplaceAbsent(s, NotePattern, NoteReplacement);
    ReplaceAbsent(s, ArrowPattern, ArrowReplacement);
    ReplaceAbsent(s, HeartPattern, HeartReplacement);
  }

  lemma {:induction false} SubstituteIdempotent(s: string)
    ensures Substitute(Substitute(s)) == Substitute(s)
  {
    SubstituteNoPatterns(s);
    SubstituteNoop(Substitute(s));
  }

  // ---------------------------------------------------------------------
  // Ends, emptiness and characters of a replacement result.
  // ---------------------------------------------------------------------

  /** Replacing with a non-empty string keeps empty text empty and
      non-empty text non-empty; the result starts with the first character
      of the text or of the replacement, and likewise at the end. */
  lemma {:induction false} ReplaceEnds(s: string, p: string, r: string)
    requires |p| > 0 && |r| > 0
    ensures var out := ReplaceAll(s, p, r);
      && (|s| == 0 <==> |out| == 0)
      && (|s| > 0 ==> (out[0] == s[0] || out[0] == r[0]))
      && (|s| > 0 ==> (out[|out| - 1] == s[|s| - 1] || out[|out| - 1] == r[|r| - 1]))
  {
    var out := ReplaceAll(s, p, r);
    if |s| < |p| {
    } else if StartsWith(s, p) {
      var t := s[|p|..];
      var rest := ReplaceAll(t, p, r);
      ReplaceEnds(t, p, r);
      assert out == r + rest;
      assert out[0] == r[0];
      if |t| > 0 {
        assert t[|t| - 1] == s[|s| - 1];
        assert out[|out| - 1] == rest[|rest| - 1];
      } else {
        assert out[|out| - 1] == r[|r| - 1];
      }
    } else {
      var t := s[1..];
      var rest := ReplaceAll(t, p, r);
      ReplaceEnds(t, p, r);
      assert out == [s[0]] + rest;
      assert out[0] == s[0];
      if |t| > 0 {
        assert t[|t| - 1] == s[|s| - 1];
        assert out[|out| - 1] == rest[|rest| - 1];
      }
    }
  }

  /** A character found in neither the text nor the replacement is not in
      the result. */
  lemma {:induction false} ReplaceKeepsOut(s: string, p: string, r: string, c: char)
    requires |p| > 0 && c !in s && c !in r
    ensures c !in ReplaceAll(s, p, r)
  {
    if |s| < |p| {
    } else if StartsWith(s, p) {
      assert c !in s[|p|..] by {
        forall i | 0 <= i < |s[|p|..]| ensures s[|p|..][i] != c {
          assert s[|p|..][i] == s[|p| + i];
        }
      }
      ReplaceKeepsOut(s[|p|..], p, r, c);
    } else {
      assert c !in s[1..] by {
        forall i | 0 <= i < |s[1..]| ensures s[1..][i] != c {
          assert s[1..][i] == s[1 + i];
        }
      }
      ReplaceKeepsOut(s[1..], p, r, c);
    }
  }

  /** The substitutions keep a line empty exactly when it was empty. */
  lemma {:induction false} SubstituteEmpty(s: string)
    ensures |Substitute(s)| == 0 <==> |s| == 0
  {
    var a := ReplaceAll(s, EmailPattern, EmailReplacement);
    var b := ReplaceAll(a, NotePattern, NoteReplacement);
    var c := ReplaceAll(b, ArrowPattern, ArrowReplacement);
    ReplaceEnds(s, EmailPattern, EmailReplacement);
    ReplaceEnds(a, NotePattern, NoteReplacement);
    ReplaceEnds(b, ArrowPattern, ArrowReplacement);
    ReplaceEnds(c, HeartPattern, HeartReplacement);
  }

  /** A replacement that starts and ends with non-space characters keeps
      a stripped line stripped. */
  lemma {:induction false} ReplaceStripped(s: string, p: string, r: string)
    requires |p| > 0 && |r| > 0 && !IsSpace(r[0]) && !IsSpace(r[|r| - 1])
    requires Stripped(s)
    ensures Stripped(ReplaceAll(s, p, r))
  {
    ReplaceEnds(s, p, r);
  }

  /** The substitutions keep a stripped line stripped. */
  lemma {:induction false} SubstituteStripped(s: string)
    requires Stripped(s)
    ensures Stripped(Substitute(s))
  {
    var a := ReplaceAll(s, EmailPattern, EmailReplacement);
    var b := ReplaceAll(a, NotePattern, NoteReplacement);
    var c := ReplaceAll(b, ArrowPattern, ArrowReplacement);
    ReplaceStripped(s, EmailPattern, EmailReplacement);
    ReplaceStripped(a, NotePattern, NoteReplacement);
    ReplaceStripped(b, ArrowPattern, ArrowReplacement);
    ReplaceStripped(c, HeartPattern, HeartReplacement);
  }

  /** The substitutions bring in no line feed. */
  lemma {:induction false} SubstituteNoNewline(s: string)
    requires '\n' !in s
    ensures '\n' !in Substitute(s)
  {
    var a := ReplaceAll(s, EmailPattern, EmailReplacement);
    var b := ReplaceAll(a, NotePattern, NoteReplacement);
    var c := ReplaceAll(b, ArrowPattern, ArrowReplacement);
    ReplaceKeepsOut(s, EmailPattern, EmailReplacement, '\n');
    ReplaceKeepsOut(a, NotePattern, NoteReplacement, '\n');
    ReplaceKeepsOut(b, ArrowPattern, ArrowReplacement, '\n');
    ReplaceKeepsOut(c, HeartPattern, HeartReplacement, '\n');
  }
}
