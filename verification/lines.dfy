/**
 * Line structure of text: `str.split('\n')`, `str.splitlines()` and
 * `sep.join(...)`, with line feed as the only line break.
 */
module LineBreaks {
  import opened Strings

  /** `s.split('\n')`: always at least one piece, none holding a line feed. */
  function Split(s: string): (r: seq<string>)
    ensures |r| >= 1
    ensures forall i :: 0 <= i < |r| ==> '\n' !in r[i]
  {
    if |s| == 0 then [""]
    else
      var rest := Split(s[1..]);
      if s[0] == '\n' then [""] + rest
      else [[s[0]] + rest[0]] + rest[1..]
  }

  /** `s.splitlines()`: like `Split`, but a final empty piece (the text
      after a trailing line feed, or the whole of an empty text) is dropped. */
  function Lines(s: string): (r: seq<string>)
    ensures forall i :: 0 <= i < |r| ==> '\n' !in r[i]
  {
    var parts := Split(s);
    if parts[|parts| - 1] == "" then parts[..|parts| - 1] else parts
  }

  /** `sep.join(ws)`. */
  function Join(ws: seq<string>, sep: string): string
  {
    if |ws| == 0 then ""
    else if |ws| == 1 then ws[0]
    else ws[0] + sep + Join(ws[1..], sep)
  }

  predicate NoNewlines(ls: seq<string>) {
    forall i :: 0 <= i < |ls| ==> '\n' !in ls[i]
  }

  /** Appending one more piece adds one separator and the piece. */
  lemma {:induction false} JoinSnoc(ws: seq<string>, w: string, sep: string)
    requires |ws| >= 1
    ensures Join(ws + [w], sep) == Join(ws, sep) + sep + w
  {
    if |ws| == 1 {
      assert ws + [w] == [ws[0], w];
    } else {
      assert (ws + [w])[1..] == ws[1..] + [w];
      JoinSnoc(ws[1..], w, sep);
    }
  }

  /** The join of two or more pieces is the join of all but the last, a
      separator, and the last piece. */
  lemma {:induction false} JoinLast(ws: seq<string>, sep: string)
    requires |ws| >= 2
    ensures Join(ws, sep) == Join(ws[..|ws| - 1], sep) + sep + ws[|ws| - 1]
  {
    JoinSnoc(ws[..|ws| - 1], ws[|ws| - 1], sep);
    assert ws[..|ws| - 1] + [ws[|ws| - 1]] == ws;
  }

  /** Extending the last piece extends the joined text. */
  lemma {:induction false} JoinExtendLast(ws: seq<string>, w: string, x: string, sep: string)
    ensures Join(ws + [w + x], sep) == Join(ws + [w], sep) + x
  {
    if |ws| == 0 {
    } else {
      JoinSnoc(ws, w + x, sep);
      JoinSnoc(ws, w, sep);
    }
  }

  /** Rejoining the pieces of a split gives back the text. */
  lemma {:induction false} JoinSplit(s: string)
    ensures Join(Split(s), "\n") == s
  {
    if |s| > 0 {
      var rest := Split(s[1..]);
      JoinSplit(s[1..]);
      if s[0] == '\n' {
        assert Split(s) == [""] + rest;
        assert ([""] + rest)[1..] == rest;
      } else {
        var r := [[s[0]] + rest[0]] + rest[1..];
        assert Split(s) == r;
        if |rest| == 1 {
        } else {
          assert r[1..] == rest[1..];
        }
      }
    }
  }

  /** A text without line feeds splits into itself. */
  lemma {:induction false} SplitNoNewline(w: string)
    requires '\n' !in w
    ensures Split(w) == [w]
  {
    if |w| > 0 {
      assert '\n' !in w[1..] by {
        forall c | c in w[1..] ensures c != '\n' {
          var i :| 0 <= i < |w[1..]| && w[1..][i] == c;
          assert w[i + 1] == c;
        }
      }
      SplitNoNewline(w[1..]);
      assert [w[0]] + w[1..] == w;
    }
  }

  /** Splitting `a + "\n" + t` peels off `a` as the first piece. */
  lemma {:induction false} SplitCons(a: string, t: string)
    requires '\n' !in a
    ensures Split(a + "\n" + t) == [a] + Split(t)
  {
    var s := a + "\n" + t;
    if |a| == 0 {
      assert s[1..] == t;
    } else {
      assert s[1..] == a[1..] + "\n" + t;
      SplitCons(a[1..], t);
      assert [s[0]] + a[1..] == a;
    }
  }

  /** Splitting joined lines gives the lines back. */
  lemma {:induction false} SplitJoin(ls: seq<string>)
    requires |ls| >= 1 && NoNewlines(ls)
    ensures Split(Join(ls, "\n")) == ls
  {
    if |ls| == 1 {
      SplitNoNewline(ls[0]);
    } else {
      SplitJoin(ls[1..]);
      SplitCons(ls[0], Join(ls[1..], "\n"));
    }
  }

  /** `'\n'.join(ls).splitlines()` gives back `ls`, except that one trailing
      empty line is lost. */
  lemma {:induction false} LinesJoin(ls: seq<string>)
    requires NoNewlines(ls)
    ensures Lines(Join(ls, "\n")) ==
      (if |ls| > 0 && ls[|ls| - 1] == "" then ls[..|ls| - 1] else ls)
  {
    if |ls| == 0 {
      assert Join(ls, "\n") == "";
      assert Split("") == [""];
    } else {
      SplitJoin(ls);
      assert Split(Join(ls, "\n")) == ls;
    }
  }

  /** A non-empty text has at least one line. */
  lemma {:induction false} LinesNonEmpty(s: string)
    requires s != ""
    ensures |Lines(s)| >= 1
  {
    var parts := Split(s);
    if |parts| == 1 {
      JoinSplit(s);
    }
  }

  /** A line-feed-free prefix of a text is a prefix of its first piece. */
  lemma {:induction false} PrefixInFirstPiece(s: string, q: string)
    requires '\n' !in q && StartsWith(s, q)
    ensures StartsWith(Split(s)[0], q)
  {
    if |q| > 0 {
      assert s[0] == q[0];
      assert StartsWith(s[1..], q[1..]) by {
        assert s[1..][..|q| - 1] == s[..|q|][1..];
      }
      PrefixInFirstPiece(s[1..], q[1..]);
      var rest := Split(s[1..]);
      assert Split(s)[0] == [s[0]] + rest[0];
      assert ([s[0]] + rest[0])[..|q|] == [s[0]] + rest[0][..|q| - 1];
    }
  }

  /** A line-feed-free string occurring in a text occurs inside one piece. */
  lemma {:induction false} OccurrenceInPiece(s: string, q: string, j: int)
    requires '\n' !in q && OccursAt(q, s, j)
    ensures exists k :: 0 <= k < |Split(s)| && Contains(Split(s)[k], q)
  {
    if j == 0 {
      assert StartsWith(s, q);
      PrefixInFirstPiece(s, q);
      assert OccursAt(q, Split(s)[0], 0);
    } else {
      assert OccursAt(q, s[1..], j - 1) by {
        assert s[1..][j - 1..j - 1 + |q|] == s[j..j + |q|];
      }
      OccurrenceInPiece(s[1..], q, j - 1);
      var rest := Split(s[1..]);
      var k', m :| 0 <= k' < |rest| && 0 <= m <= |rest[k']| - |q| && OccursAt(q, rest[k'], m);
      if s[0] == '\n' {
        assert Split(s)[k' + 1] == rest[k'];
      } else if k' == 0 {
        OccursAtShift(q, rest[0], [s[0]], m);
        assert OccursAt(q, Split(s)[0], 1 + m);
      } else {
        assert Split(s)[k'] == rest[k'];
      }
    }
  }

  /** The same, for `splitlines`: a non-empty, line-feed-free string that
      occurs in a text occurs inside one of its lines. */
  lemma {:induction false} OccurrenceInLine(s: string, q: string, j: int)
    requires |q| > 0 && '\n' !in q && OccursAt(q, s, j)
    ensures exists k :: 0 <= k < |Lines(s)| && Contains(Lines(s)[k], q)
  {
    OccurrenceInPiece(s, q, j);
    var parts := Split(s);
    var k :| 0 <= k < |parts| && Contains(parts[k], q);
    assert parts[k] != "";
    assert Lines(s)[k] == parts[k];
  }

  /** An occurrence inside one joined piece is an occurrence in the join. */
  lemma {:induction false} OccurrenceInJoin(ls: seq<string>, sep: string, i: int, q: string)
    requires 0 <= i < |ls| && Contains(ls[i], q)
    ensures Contains(Join(ls, sep), q)
  {
    var m :| 0 <= m <= |ls[i]| - |q| && OccursAt(q, ls[i], m);
    if |ls| == 1 {
    } else if i == 0 {
      OccursAtExtend(q, ls[0], sep + Join(ls[1..], sep), m);
      assert ls[0] + sep + Join(ls[1..], sep) == ls[0] + (sep + Join(ls[1..], sep));
    } else {
      OccurrenceInJoin(ls[1..], sep, i - 1, q);
      var m' :| 0 <= m' <= |Join(ls[1..], sep)| - |q| && OccursAt(q, Join(ls[1..], sep), m');
      OccursAtShift(q, Join(ls[1..], sep), ls[0] + sep, m');
    }
  }
}
