/**
 * The text stored for a code element (api-crawler/crawler.py lines 94-96):
 * every line is right-stripped, the lines are joined again with line feeds,
 * and the whole block is stripped, so the indentation of the first line is
 * lost while that of later lines is kept.
 */
module CodeBlocks {
  import opened Chars
  import opened Strings
  import opened LineBreaks

  /** `line.rstrip()` of every line. */
  function RStripAll(ls: seq<string>): (r: seq<string>)
    ensures |r| == |ls|
    ensures forall i :: 0 <= i < |ls| ==> r[i] == RStrip(ls[i])
  {
    seq(|ls|, i requires 0 <= i < |ls| => RStrip(ls[i]))
  }

  /** `'\n'.join(line.rstrip() for line in raw.splitlines()).strip()`. */
  function CodeText(raw: string): string
  {
    Strip(Join(RStripAll(Lines(raw)), "\n"))
  }

  /** No whitespace other than a line feed directly before a line feed: no
      line of the text ends in whitespace, except that a blank line stays
      blank. */
  predicate LinesTrimmed(c: string) {
    forall i | 0 <= i < |c| - 1 :: c[i + 1] == '\n' ==> c[i] == '\n' || !IsSpace(c[i])
  }

  /** A piece with no line feed and no trailing whitespace. */
  predicate TrimmedLine(w: string) {
    '\n' !in w && (|w| == 0 || !IsSpace(w[|w| - 1]))
  }

  lemma {:induction false} JoinTrimmed(ws: seq<string>)
    requires forall k | 0 <= k < |ws| :: TrimmedLine(ws[k])
    ensures LinesTrimmed(Join(ws, "\n"))
  {
    if |ws| >= 2 {
      var a := ws[0];
      var t := Join(ws[1..], "\n");
      JoinTrimmed(ws[1..]);
      var c := a + "\n" + t;
      assert Join(ws, "\n") == c;
      forall i | 0 <= i < |c| - 1 && c[i + 1] == '\n' ensures c[i] == '\n' || !IsSpace(c[i]) {
        if i == |a| - 1 {
          assert c[i] == a[|a| - 1];
        } else if i > |a| {
          assert c[i] == t[i - |a| - 1] && c[i + 1] == t[i - |a|];
        }
      }
    }
  }

  /** An infix of a text whose lines are trimmed has trimmed lines. */
  lemma {:induction false} InfixTrimmed(c: string, a: int, b: int)
    requires 0 <= a <= b <= |c| && LinesTrimmed(c)
    ensures LinesTrimmed(c[a..b])
  {
    var d := c[a..b];
    forall i | 0 <= i < |d| - 1 && d[i + 1] == '\n' ensures d[i] == '\n' || !IsSpace(d[i]) {
      assert d[i] == c[a + i] && d[i + 1] == c[a + i + 1];
    }
  }

  /** Right-stripping lines that hold no line feed trims each of them. */
  lemma {:induction false} RStripAllTrimmed(ls: seq<string>)
    requires NoNewlines(ls)
    ensures forall k | 0 <= k < |ls| :: TrimmedLine(RStripAll(ls)[k])
  {
    forall k | 0 <= k < |ls| ensures TrimmedLine(RStripAll(ls)[k]) {
      RStripTrimmed(ls[k]);
    }
  }

  lemma {:induction false} RStripTrimmed(l: string)
    requires '\n' !in l
    ensures TrimmedLine(RStrip(l))
  {
    var r := RStrip(l);
    forall c | c in r ensures c != '\n' {
      var i :| 0 <= i < |r| && r[i] == c;
      assert l[i] == c;
    }
  }

  /** A stored code block has no whitespace at either end, and no line of
      it ends in whitespace. */
  lemma {:induction false} CodeTextShape(raw: string)
    ensures Stripped(CodeText(raw))
    ensures LinesTrimmed(CodeText(raw))
  {
    var rs := RStripAll(Lines(raw));
    RStripAllTrimmed(Lines(raw));
    JoinTrimmed(rs);
    StripTrimmed(Join(rs, "\n"));
  }

  lemma {:induction false} StripTrimmed(j: string)
    requires LinesTrimmed(j)
    ensures LinesTrimmed(Strip(j))
  {
    InfixTrimmed(j, StripStart(j), StripStart(j) + |Strip(j)|);
  }

  /** A text that may end in a line feed but not in other whitespace. */
  predicate EndTrimmed(s: string) {
    |s| == 0 || s[|s| - 1] == '\n' || !IsSpace(s[|s| - 1])
  }

  /** The pieces of a text with trimmed lines are trimmed. */
  lemma {:induction false} PiecesTrimmed(s: string)
    requires LinesTrimmed(s) && EndTrimmed(s)
    ensures forall k | 0 <= k < |Split(s)| :: TrimmedLine(Split(s)[k])
  {
    if |s| > 0 {
      var t := s[1..];
      assert LinesTrimmed(t) by {
        InfixTrimmed(s, 1, |s|);
      }
      assert EndTrimmed(t) by {
        if |t| > 0 {
          assert t[|t| - 1] == s[|s| - 1];
        }
      }
      PiecesTrimmed(t);
      var rest := Split(t);
      if s[0] != '\n' {
        FirstPieceTrimmed(s);
        forall k | 1 <= k < |Split(s)| ensures TrimmedLine(Split(s)[k]) {
          assert Split(s)[k] == rest[k];
        }
      }
    }
  }

  /** The first piece of a text that does not start with a line feed: its
      first character followed by the first piece of the rest. */
  lemma {:induction false} FirstPieceTrimmed(s: string)
    requires |s| > 0 && s[0] != '\n' && LinesTrimmed(s) && EndTrimmed(s)
    requires TrimmedLine(Split(s[1..])[0])
    ensures TrimmedLine(Split(s)[0])
  {
    var t := s[1..];
    var r0 := Split(t)[0];
    assert Split(s)[0] == [s[0]] + r0;
    if r0 == "" && |t| > 0 {
      assert t[0] == '\n';
    }
  }

  /** A text whose last character is not a line feed has a non-empty last
      piece. */
  lemma {:induction false} SplitLastPiece(s: string)
    requires |s| > 0 && s[|s| - 1] != '\n'
    ensures Split(s)[|Split(s)| - 1] != ""
  {
    if |s| > 1 {
      var t := s[1..];
      assert t[|t| - 1] == s[|s| - 1];
      SplitLastPiece(t);
    }
  }

  /** Right-stripping trimmed lines changes nothing. */
  lemma {:induction false} RStripAllTrimmedFixed(ls: seq<string>)
    requires forall k | 0 <= k < |ls| :: TrimmedLine(ls[k])
    ensures RStripAll(ls) == ls
  {
  }

  /** A stripped text with trimmed lines is its own code text. */
  lemma {:induction false} CodeTextFixed(c: string)
    requires Stripped(c) && LinesTrimmed(c)
    ensures CodeText(c) == c
  {
    if |c| > 0 {
      PiecesTrimmed(c);
      SplitLastPiece(c);
      assert Lines(c) == Split(c);
      RStripAllTrimmedFixed(Split(c));
      JoinSplit(c);
    }
  }

  /** Storing a stored code block again changes nothing. */
  lemma {:induction false} CodeTextIdempotent(raw: string)
    ensures CodeText(CodeText(raw)) == CodeText(raw)
  {
    CodeTextShape(raw);
    CodeTextFixed(CodeText(raw));
  }

  /** The whole-block strip takes the indentation of the first line only:
      a block `  a` / `  b` is stored as `a` / `  b`. */
  lemma {:induction false} FirstLineLosesIndent()
    ensures CodeText("  a\n  b") == "a\n  b"
  {
    IndentedLines();
    assert RStrip("  a") == "  a" && RStrip("  b") == "  b";
    assert RStripAll(["  a", "  b"]) == ["  a", "  b"];
    IndentedStrip();
  }

  lemma {:induction false} IndentedLines()
    ensures Lines("  a\n  b") == ["  a", "  b"]
    ensures Join(["  a", "  b"], "\n") == "  a\n  b"
  {
    SplitCons("  a", "  b");
    SplitNoNewline("  b");
    assert "  a" + "\n" + "  b" == "  a\n  b";
  }

  lemma {:induction false} IndentedStrip()
    ensures Strip("  a\n  b") == "a\n  b"
  {
    StripIndented("  ", "a\n  b");
    assert "  " + "a\n  b" == "  a\n  b";
  }

  /** Stripping whitespace followed by a stripped text leaves that text. */
  lemma {:induction false} StripIndented(w: string, t: string)
    requires forall i | 0 <= i < |w| :: IsSpace(w[i])
    requires Stripped(t)
    ensures Strip(w + t) == t
  {
    LStripSkipsSpaces(w, t);
  }

  /** Left-stripping skips any run of leading whitespace. */
  lemma {:induction false} LStripSkipsSpaces(w: string, t: string)
    requires forall i | 0 <= i < |w| :: IsSpace(w[i])
    ensures LStrip(w + t) == LStrip(t)
  {
    if |w| > 0 {
      assert (w + t)[1..] == w[1..] + t;
      LStripSkipsSpaces(w[1..], t);
    } else {
      assert w + t == t;
    }
  }
}
