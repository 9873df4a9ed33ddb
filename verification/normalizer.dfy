/**
 * The text normaliser `clean_text` of api-crawler/crawler.py: every line is
 * stripped, a fixed set of artifact substitutions is applied, words that
 * HTML flattening glued together are split again, and runs of blank lines
 * are collapsed.
 *
 * The loops of the source are modelled by the methods `RepairScan` and
 * `CleanTextScan`; each is proved equal to a declarative definition
 * (`Repair`, `CleanText`) that the lemmas are stated about. `CleanText`
 * cleans every line first and collapses blank lines afterwards; since a
 * line's cleaning depends on that line alone, this computes what the
 * single loop of the source does.
 */
module Normalizer {
  import opened Chars
  import opened Strings
  import opened LineBreaks
  import opened Replace

  // ---------------------------------------------------------------------
  // Artifact substitutions (crawler.py lines 40-43), applied in this order.
  // ---------------------------------------------------------------------

  const EmailPattern: string := "[email protected]"
  const EmailReplacement: string := "email@example.com"
  /** U+1F6A7 CONSTRUCTION SIGN */
  const NotePattern: string := "\U{1F6A7}"
  const NoteReplacement: string := "[NOTE]"
  /** U+2794 HEAVY WIDE-HEADED RIGHTWARDS ARROW */
  const ArrowPattern: string := "\U{2794}"
  const ArrowReplacement: string := "->"
  /** U+2764 HEAVY BLACK HEART followed by U+FE0F VARIATION SELECTOR-16 */
  const HeartPattern: string := "\U{2764}\U{FE0F}"
  const HeartReplacement: string := "<3"

  /** The four chained `str.replace` calls. */
  function Substitute(line: string): string
  {
    var a := ReplaceAll(line, EmailPattern, EmailReplacement);
    var b := ReplaceAll(a, NotePattern, NoteReplacement);
    var c := ReplaceAll(b, ArrowPattern, ArrowReplacement);
    ReplaceAll(c, HeartPattern, HeartReplacement)
  }

  // ---------------------------------------------------------------------
  // Joined-word repair (crawler.py lines 45-59).
  // ---------------------------------------------------------------------

  /** A lower-case letter at `i - 1` directly followed by an upper-case
      letter at `i`: the place where a space is missing. */
  predicate Boundary(s: string, i: int) {
    0 < i < |s| && IsLower(s[i - 1]) && IsUpper(s[i])
  }

  predicate NoBoundary(s: string) {
    forall i | 0 < i < |s| :: !Boundary(s, i)
  }

  /** The line with exactly one space inserted before every `Boundary`.
      Its first and last characters are those of the line, and lines of
      length at most one are left alone. */
  function Repair(s: string): (r: string)
    ensures |s| <= 1 ==> r == s
    ensures |s| > 0 ==> |r| > 0 && r[0] == s[0] && r[|r| - 1] == s[|s| - 1]
    ensures |r| >= |s|
  {
    if |s| <= 1 then s
    else Repair(s[..|s| - 1]) + (if Boundary(s, |s| - 1) then " " else "") + [s[|s| - 1]]
  }

  /** The acronym guard of line 53. */
  predicate EndsWithAcronym(w: string) {
    EndsWith(w, "REST") || EndsWith(w, "API") || EndsWith(w, "UI") ||
    EndsWith(w, "JSON") || EndsWith(w, "SDK")
  }

  /** Every listed acronym ends in an upper-case letter, so a word whose last
      character is lower-case never ends in one: the guard of line 53 never
      changes the outcome of the test of line 52. */
  lemma {:induction false} AcronymGuardImplied(w: string)
    requires |w| > 0 && IsLower(w[|w| - 1])
    ensures !EndsWithAcronym(w)
  {
    // Each `EndsWith` pins the last character to an upper-case letter.
  }

  /** The scan of lines 47-59 as written: a current-word buffer, flushed to
      `words` when an upper-case letter follows a lower-case one outside an
      acronym, and the words joined with single spaces. */
  method RepairScan(line: string) returns (r: string)
    ensures r == Repair(line)
  {
    if |line| <= 1 {
      return line;
    }
    var words: seq<string> := [];
    var current := [line[0]];
    var i := 1;
    assert line[..1] == current;
    while i < |line|
      invariant 1 <= i <= |line|
      invariant |current| > 0 && current[|current| - 1] == line[i - 1]
      invariant Join(words + [current], " ") == Repair(line[..i])
    {
      var c := line[i];
      assert line[..i + 1][..i] == line[..i];
      assert line[..i + 1][i] == c;
      if IsLower(current[|current| - 1]) {
        AcronymGuardImplied(current);
      }
      if IsUpper(c) && IsLower(current[|current| - 1]) && !EndsWithAcronym(current) {
        JoinSnoc(words + [current], [c], " ");
        assert words + [current] + [[c]] == (words + [current]) + [[c]];
        words := words + [current];
        current := [c];
      } else {
        JoinExtendLast(words, current, [c], " ");
        current := current + [c];
      }
      i := i + 1;
    }
    assert line[..i] == line;
    r := Join(words + [current], " ");
  }

  // ---------------------------------------------------------------------
  // Per-line cleaning and blank-line collapsing (lines 34-68).
  // ---------------------------------------------------------------------

  /** One input line through lines 34-59: strip, substitute, repair (the
      repair only runs on lines longer than one character). */
  function ProcessLine(raw: string): string
  {
    var line := Substitute(Strip(raw));
    if |line| > 1 then Repair(line) else line
  }

  function ProcessAll(ls: seq<string>): (r: seq<string>)
    ensures |r| == |ls|
    ensures forall i :: 0 <= i < |ls| ==> r[i] == ProcessLine(ls[i])
  {
    seq(|ls|, i requires 0 <= i < |ls| => ProcessLine(ls[i]))
  }

  /** Reference for the blank-line collapse: drop exactly the blank lines
      that directly follow a blank line. The first and the last line of the
      input are always kept. */
  function Squeeze(ls: seq<string>): (r: seq<string>)
    ensures |r| <= |ls|
    ensures |ls| > 0 ==> |r| > 0 && r[0] == ls[0] && r[|r| - 1] == ls[|ls| - 1]
  {
    if |ls| == 0 then []
    else
      var n := |ls|;
      Squeeze(ls[..n - 1]) + (if ls[n - 1] == "" && n >= 2 && ls[n - 2] == "" then [] else [ls[n - 1]])
  }

  /** Appending one line to the input appends it to the squeezed output,
      unless it is a blank line directly after a blank line. */
  lemma {:induction false} SqueezeSnoc(ls: seq<string>, x: string)
    ensures Squeeze(ls + [x]) ==
      Squeeze(ls) + (if x == "" && |ls| > 0 && ls[|ls| - 1] == "" then [] else [x])
  {
    assert (ls + [x])[..|ls|] == ls;
  }

  lemma {:induction false} PrefixSnoc(ls: seq<string>, i: int)
    requires 0 <= i < |ls|
    ensures ls[..i] + [ls[i]] == ls[..i + 1]
  {
  }

  lemma {:induction false} ProcessAllSnoc(ls: seq<string>, x: string)
    ensures ProcessAll(ls + [x]) == ProcessAll(ls) + [ProcessLine(x)]
  {
  }

  /** The list `cleaned` that `clean_text` builds before joining. */
  function CleanLines(text: string): seq<string>
  {
    Squeeze(ProcessAll(Lines(text)))
  }

  /** `clean_text` as a declarative definition. */
  function CleanText(text: string): string
  {
    Join(CleanLines(text), "\n")
  }

  /** One line through the strip of line 34 and the body of the loop of
      lines 38-59, before the collapse. */
  method LineScan(raw: string) returns (line: string)
    ensures line == ProcessLine(raw)
  {
    var stripped := Strip(raw);
    line := Substitute(stripped);
    if |line| > 1 {
      line := RepairScan(line);
    }
  }

  /** `clean_text` as written: one pass over the lines that strips,
      substitutes and repairs each of them (`LineScan`) and collapses blank
      runs with a `prev_empty` flag that starts out false. */
  method CleanTextScan(text: string) returns (r: string)
    ensures r == CleanText(text)
  {
    var raw := Lines(text);
    var cleaned: seq<string> := [];
    var prevEmpty := false;
    // The lines after lines 40-59, before the collapse.
    ghost var processed: seq<string> := [];
    var i := 0;
    while i < |raw|
      invariant 0 <= i <= |raw|
      invariant processed == ProcessAll(raw[..i])
      invariant cleaned == Squeeze(processed)
      invariant prevEmpty == (i > 0 && processed[i - 1] == "")
    {
      var line := LineScan(raw[i]);
      CleanStep(raw, i, processed, line);
      processed := processed + [line];
      if line != "" {
        cleaned := cleaned + [line];
        prevEmpty := false;
      } else if !prevEmpty {
        cleaned := cleaned + [""];
        prevEmpty := true;
      }
      i := i + 1;
    }
    assert raw[..i] == raw;
    r := Join(cleaned, "\n");
  }

  /** One more input line extends the cleaned lines by its cleaned form,
      and the collapsed list by that form unless it is a blank line after a
      blank line. */
  lemma {:induction false} CleanStep(raw: seq<string>, i: int, processed: seq<string>, line: string)
    requires 0 <= i < |raw| && processed == ProcessAll(raw[..i]) && line == ProcessLine(raw[i])
    ensures processed + [line] == ProcessAll(raw[..i + 1])
    ensures Squeeze(processed + [line]) ==
      Squeeze(processed) + (if line == "" && i > 0 && processed[i - 1] == "" then [] else [line])
  {
    ProcessAllSnoc(raw[..i], raw[i]);
    PrefixSnoc(raw, i);
    SqueezeSnoc(processed, line);
  }
}
