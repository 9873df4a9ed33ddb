/**
 * Whole-text properties of `clean_text` (api-crawler/crawler.py lines
 * 31-68): every cleaned line is a fixed point of the per-line cleaning,
 * cleaning twice loses at most one trailing line feed and cleaning a third
 * time changes nothing, the non-blank lines survive one for one and in
 * order, and no lower-case letter is left directly before an upper-case one.
 */
module CleanFacts {
  import opened Chars
  import opened Strings
  import opened LineBreaks
  import opened Replace
  import opened Normalizer
  import opened RepairFacts
  import opened SubstituteFacts
  import opened SqueezeFacts

  // ---------------------------------------------------------------------
  // One line.
  // ---------------------------------------------------------------------

  /** The repair adds no character other than a space. */
  lemma {:induction false} RepairKeepsOut(s: string, c: char)
    requires c != ' ' && c !in s
    ensures c !in Repair(s)
  {
    if |s| > 1 {
      var s' := s[..|s| - 1];
      assert c !in s' by {
        forall i | 0 <= i < |s'| ensures s'[i] != c {
          assert s'[i] == s[i];
        }
      }
      RepairKeepsOut(s', c);
    }
  }

  /** A stripped line is an infix of the line, so it has no character the
      line lacks. */
  lemma {:induction false} StripKeepsOut(s: string, c: char)
    requires c !in s
    ensures c !in Strip(s)
  {
    var r := Strip(s);
    forall i | 0 <= i < |r| ensures r[i] != c {
      assert r[i] == s[StripStart(s) + i];
    }
  }

  /** None of the four patterns can be produced by the repair. */
  lemma {:induction false} PatternsRepairSafe()
    ensures RepairSafe(EmailPattern) && RepairSafe(NotePattern)
    ensures RepairSafe(ArrowPattern) && RepairSafe(HeartPattern)
  {
    assert NoSpaceBeforeUpper(EmailPattern) by {
      forall i | 0 <= i < |EmailPattern| - 1
        ensures EmailPattern[i] == ' ' ==> !IsUpper(EmailPattern[i + 1])
      {
        if i == 6 {
          assert EmailPattern[7] == 'p';
        } else {
          assert EmailPattern[i] != ' ';
        }
      }
    }
  }

  /** The cleaning of one line: its result is stripped, holds none of the
      patterns, is empty exactly when the stripped line is empty, and has
      a line feed only if the line had one. */
  lemma {:induction false} ProcessLineShape(x: string)
    ensures Stripped(ProcessLine(x))
    ensures ProcessLine(x) == "" <==> Strip(x) == ""
    ensures '\n' !in x ==> '\n' !in ProcessLine(x)
    ensures NoOcc(EmailPattern, ProcessLine(x)) && NoOcc(NotePattern, ProcessLine(x))
    ensures NoOcc(ArrowPattern, ProcessLine(x)) && NoOcc(HeartPattern, ProcessLine(x))
    ensures NoBoundary(ProcessLine(x))
  {
    var line := Substitute(Strip(x));
    SubstituteEmpty(Strip(x));
    SubstituteStripped(Strip(x));
    SubstituteNoPatterns(Strip(x));
    if '\n' !in x {
      StripKeepsOut(x, '\n');
      SubstituteNoNewline(Strip(x));
    }
    if |line| > 1 {
      PatternsRepairSafe();
      RepairKeepsAbsent(line, EmailPattern);
      RepairKeepsAbsent(line, NotePattern);
      RepairKeepsAbsent(line, ArrowPattern);
      RepairKeepsAbsent(line, HeartPattern);
      if '\n' !in x {
        RepairKeepsOut(line, '\n');
      }
      RepairNoBoundary(line);
    }
  }

  /** A cleaned line is its own cleaning. */
  lemma {:induction false} ProcessLineFixed(x: string)
    ensures ProcessLine(ProcessLine(x)) == ProcessLine(x)
  {
    var y := ProcessLine(x);
    ProcessLineShape(x);
    SubstituteNoop(y);
    if |y| > 1 {
      RepairBoundaryFree(y);
    }
  }

  // ---------------------------------------------------------------------
  // The line list and the joined text.
  // ---------------------------------------------------------------------

  /** The input lines whose stripped form is not blank, in order. */
  function Kept(ls: seq<string>): seq<string>
  {
    if |ls| == 0 then []
    else Kept(ls[..|ls| - 1]) + (if Strip(ls[|ls| - 1]) == "" then [] else [ls[|ls| - 1]])
  }

  /** One trailing blank line removed, if there is one. */
  function DropTrailingBlank(ls: seq<string>): seq<string>
  {
    if |ls| > 0 && ls[|ls| - 1] == "" then ls[..|ls| - 1] else ls
  }

  predicate AllFixed(ls: seq<string>) {
    forall i | 0 <= i < |ls| :: ProcessLine(ls[i]) == ls[i]
  }

  lemma {:induction false} ProcessAllNonBlank(ls: seq<string>)
    ensures NonBlank(ProcessAll(ls)) == ProcessAll(Kept(ls))
  {
    if |ls| > 0 {
      var n := |ls|;
      var init, x := ls[..n - 1], ls[n - 1];
      var y := ProcessLine(x);
      ProcessAllNonBlank(init);
      PrefixSnoc(ls, n - 1);
      assert ls[..n] == ls;
      ProcessAllSnoc(init, x);
      NonBlankSnoc(ProcessAll(init), y);
      ProcessLineShape(x);
      ProcessAllSnoc(Kept(init), x);
    }
  }

  /** The non-blank lines of `clean_text`'s result are the cleanings of the
      input lines that are not blank once stripped, one for one and in the
      same order. */
  lemma {:induction false} CleanLinesNonBlank(text: string)
    ensures NonBlank(CleanLines(text)) == ProcessAll(Kept(Lines(text)))
  {
    SqueezeNonBlank(ProcessAll(Lines(text)));
    ProcessAllNonBlank(Lines(text));
  }

  /** Any line of `ProcessAll(ls)` for line-feed-free `ls` is
      line-feed-free, boundary-free and its own cleaning. */
  lemma {:induction false} ProcessedLine(ls: seq<string>, y: string)
    requires NoNewlines(ls) && y in ProcessAll(ls)
    ensures '\n' !in y && NoBoundary(y) && ProcessLine(y) == y
  {
    var k :| 0 <= k < |ls| && ProcessAll(ls)[k] == y;
    ProcessLineShape(ls[k]);
    ProcessLineFixed(ls[k]);
  }

  lemma {:induction false} CleanLine(text: string, i: int)
    requires 0 <= i < |CleanLines(text)|
    ensures var y := CleanLines(text)[i];
      '\n' !in y && NoBoundary(y) && ProcessLine(y) == y
  {
    SqueezeFromInput(ProcessAll(Lines(text)));
    ProcessedLine(Lines(text), CleanLines(text)[i]);
  }

  /** The cleaned lines have no line feed, no double blank line, and each
      is its own cleaning. */
  lemma {:induction false} CleanLinesShape(text: string)
    ensures NoNewlines(CleanLines(text))
    ensures NoDoubleBlank(CleanLines(text))
    ensures AllFixed(CleanLines(text))
  {
    var L := CleanLines(text);
    SqueezeNoDoubleBlank(ProcessAll(Lines(text)));
    forall i | 0 <= i < |L| ensures '\n' !in L[i] && ProcessLine(L[i]) == L[i] {
      CleanLine(text, i);
    }
  }

  lemma {:induction false} ProcessAllFixed(L: seq<string>)
    requires AllFixed(L)
    ensures ProcessAll(L) == L
  {
  }

  /** Dropping a trailing blank line keeps the lines line-feed-free, free
      of double blank lines and fixed. */
  lemma {:induction false} DropTrailingBlankShape(L: seq<string>)
    requires NoNewlines(L) && NoDoubleBlank(L) && AllFixed(L)
    ensures var L' := DropTrailingBlank(L);
      NoNewlines(L') && NoDoubleBlank(L') && AllFixed(L')
  {
    var L' := DropTrailingBlank(L);
    forall i | 0 <= i < |L'| ensures L'[i] == L[i] {
    }
  }

  /** Cleaning the join of already-cleaned lines gives them back, less one
      trailing blank line that `splitlines` does not see. */
  lemma {:induction false} CleanOfJoin(L: seq<string>)
    requires NoNewlines(L) && NoDoubleBlank(L) && AllFixed(L)
    ensures CleanText(Join(L, "\n")) == Join(DropTrailingBlank(L), "\n")
  {
    var L' := DropTrailingBlank(L);
    LinesJoin(L);
    DropTrailingBlankShape(L);
    ProcessAllFixed(L');
    SqueezeFixed(L');
  }

  /** The join ends with the last line. */
  lemma {:induction false} JoinEndsWithLast(L: seq<string>)
    requires |L| > 0
    ensures EndsWith(Join(L, "\n"), L[|L| - 1])
  {
    var n := |L|;
    var w := L[n - 1];
    if n >= 2 {
      var x := Join(L[..n - 1], "\n");
      JoinLast(L, "\n");
      var s := x + "\n" + w;
      assert s[|s| - |w|..] == w;
    } else {
      assert Join(L, "\n") == w;
      assert w[|w| - |w|..] == w;
    }
  }

  /** A join whose last line is blank ends in the separator, and the rest
      is the join of the other lines. */
  lemma {:induction false} JoinTrailingBlank(L: seq<string>)
    requires |L| >= 2 && L[|L| - 1] == ""
    ensures var c := Join(L, "\n");
      EndsWith(c, "\n") && c[..|c| - 1] == Join(L[..|L| - 1], "\n")
  {
    JoinLast(L, "\n");
  }

  /** A join whose last line is non-blank and line-feed-free does not end
      in a line feed. */
  lemma {:induction false} JoinNoTrailingNewline(L: seq<string>)
    requires |L| > 0 && L[|L| - 1] != "" && '\n' !in L[|L| - 1]
    ensures !EndsWith(Join(L, "\n"), "\n")
  {
    var w := L[|L| - 1];
    JoinEndsWithLast(L);
    var c := Join(L, "\n");
    assert c[|c| - |w|..] == w;
    assert c[|c| - 1] == c[|c| - |w|..][|w| - 1];
    assert w[|w| - 1] in w;
    assert c[|c| - 1..][0] != '\n';
  }

  /** Dropping a trailing blank line from line-feed-free lines drops the
      trailing line feed of their join, and only then. */
  lemma {:induction false} JoinDropTrailingBlank(L: seq<string>)
    requires NoNewlines(L)
    ensures var c := Join(L, "\n");
      Join(DropTrailingBlank(L), "\n") == (if EndsWith(c, "\n") then c[..|c| - 1] else c)
  {
    if |L| >= 2 && L[|L| - 1] == "" {
      JoinTrailingBlank(L);
    } else if |L| > 0 && L[|L| - 1] != "" {
      JoinNoTrailingNewline(L);
    }
  }

  /** `clean_text(clean_text(t))` equals `clean_text(t)`, except that a
      trailing line feed is lost: `'\n'.join` of a list ending in a blank
      line ends in a line feed, and `splitlines` drops what follows it. */
  lemma {:induction false} CleanTextNearIdempotent(text: string)
    ensures var c := CleanText(text);
      CleanText(c) == (if EndsWith(c, "\n") then c[..|c| - 1] else c)
  {
    var L := CleanLines(text);
    CleanLinesShape(text);
    CleanOfJoin(L);
    JoinDropTrailingBlank(L);
  }

  /** Without double blank lines there is at most one trailing blank line
      to drop. */
  lemma {:induction false} DropTrailingBlankOnce(L: seq<string>)
    requires NoDoubleBlank(L)
    ensures DropTrailingBlank(DropTrailingBlank(L)) == DropTrailingBlank(L)
  {
    if |L| >= 2 && L[|L| - 1] == "" {
      assert L[|L| - 2] != "";
    }
  }

  /** After two passes the text no longer changes. */
  lemma {:induction false} CleanTextSettles(text: string)
    ensures CleanText(CleanText(CleanText(text))) == CleanText(CleanText(text))
  {
    var L := CleanLines(text);
    CleanLinesShape(text);
    CleanOfJoin(L);
    DropTrailingBlankShape(L);
    CleanOfJoin(DropTrailingBlank(L));
    DropTrailingBlankOnce(L);
  }

  /** A blank first line followed by some non-blank line makes the cleaned
      text start with a line feed. */
  lemma {:induction false} CleanTextLeadingBlank(text: string, k: int)
    requires 0 < k < |Lines(text)|
    requires Strip(Lines(text)[0]) == "" && Strip(Lines(text)[k]) != ""
    ensures |CleanText(text)| > 0 && CleanText(text)[0] == '\n'
  {
    var ls := Lines(text);
    var p := ProcessAll(ls);
    ProcessLineShape(ls[0]);
    ProcessLineShape(ls[k]);
    LeadingBlankKept(p, k);
    var L := CleanLines(text);
    assert CleanText(text) == "" + "\n" + Join(L[1..], "\n");
  }

  /** Splitting a text on line feeds never puts a lower-case letter of one
      piece next to an upper-case letter of another. */
  lemma {:induction false} JoinNoBoundary(L: seq<string>)
    requires forall i | 0 <= i < |L| :: NoBoundary(L[i])
    ensures NoBoundary(Join(L, "\n"))
  {
    if |L| >= 2 {
      JoinNoBoundary(L[1..]);
      var a := L[0];
      var b := Join(L[1..], "\n");
      var s := a + "\n" + b;
      forall i | 0 < i < |s| ensures !Boundary(s, i) {
        if i < |a| {
          assert s[i - 1] == a[i - 1] && s[i] == a[i];
          assert !Boundary(a, i);
        } else if i > |a| + 1 {
          assert s[i - 1] == b[i - |a| - 2] && s[i] == b[i - |a| - 1];
          assert !Boundary(b, i - |a| - 1);
        }
      }
    }
  }

  /** No lower-case letter is directly followed by an upper-case one
      anywhere in the cleaned text. */
  lemma {:induction false} CleanTextNoBoundary(text: string)
    ensures NoBoundary(CleanText(text))
  {
    var L := CleanLines(text);
    forall i | 0 <= i < |L| ensures NoBoundary(L[i]) {
      CleanLine(text, i);
    }
    JoinNoBoundary(L);
  }
}
