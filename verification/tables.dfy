/**
 * Rendering a table to text (api-crawler/crawler.py lines 99-131): an
 * optional header line and dash rule, then one line per row that has
 * cells, except rows that repeat the header line.
 */
module Tables {
  import opened Chars
  import opened Strings
  import opened LineBreaks
  import opened Options

  /** A piece of a cell's content: text, or a `code` element and its
      `get_text()`. */
  datatype Inline = Words(text: string) | InlineCode(code: string)

  /** A `th` (`header` set) or `td` cell of a row, with its content in
      document order. */
  datatype Cell = Cell(header: bool, parts: seq<Inline>)

  /** A table as the DOM queries of lines 103, 116 and 118 see it: the cells
      of every `tr`, in document order. */
  datatype Table = Table(rows: seq<seq<Cell>>)

  /** `get_text()` of a sequence of pieces. */
  function PartsText(ps: seq<Inline>): string
  {
    if |ps| == 0 then ""
    else
      (match ps[0] case Words(w) => w case InlineCode(k) => k) + PartsText(ps[1..])
  }

  /** `find('code')`: the text of the first code element, if any. */
  function FirstCode(ps: seq<Inline>): (r: Option<string>)
    ensures r.None? <==> forall i | 0 <= i < |ps| :: ps[i].Words?
    ensures r.Some? ==> InlineCode(r.value) in ps
  {
    if |ps| == 0 then None
    else if ps[0].InlineCode? then Some(ps[0].code)
    else FirstCode(ps[1..])
  }

  /** `find('code')` finds the first code element of the cell: nothing
      exactly when there is none, and otherwise the one that only text
      precedes. */
  lemma {:induction false} FirstCodeFirst(ps: seq<Inline>)
    ensures FirstCode(ps).None? <==> forall i | 0 <= i < |ps| :: ps[i].Words?
    ensures FirstCode(ps).Some? ==> exists i | 0 <= i < |ps| ::
      ps[i] == InlineCode(FirstCode(ps).value) && forall j | 0 <= j < i :: ps[j].Words?
  {
    if |ps| > 0 && ps[0].Words? {
      FirstCodeFirst(ps[1..]);
      if FirstCode(ps).Some? {
        var i :| 0 <= i < |ps[1..]| && ps[1..][i] == InlineCode(FirstCode(ps).value) &&
          forall j | 0 <= j < i :: ps[1..][j].Words?;
        assert ps[i + 1] == InlineCode(FirstCode(ps).value);
        forall j | 0 <= j < i + 1 ensures ps[j].Words? {
          if j > 0 {
            assert ps[j] == ps[1..][j - 1];
          }
        }
      }
    } else if |ps| > 0 {
      assert ps[0] == InlineCode(FirstCode(ps).value);
    }
  }

  /** The cells of a row that are header cells, in order. */
  function RowHeaders(row: seq<Cell>): seq<Cell>
  {
    if |row| == 0 then []
    else (if row[0].header then [row[0]] else []) + RowHeaders(row[1..])
  }

  /** The header cells of a row are exactly its `th` cells. */
  lemma {:induction false} RowHeadersMembers(row: seq<Cell>)
    ensures forall i | 0 <= i < |RowHeaders(row)| :: RowHeaders(row)[i].header && RowHeaders(row)[i] in row
    ensures forall i | 0 <= i < |row| && row[i].header :: row[i] in RowHeaders(row)
  {
    if |row| > 0 {
      RowHeadersMembers(row[1..]);
      var r, rest := RowHeaders(row), RowHeaders(row[1..]);
      var h := if row[0].header then [row[0]] else [];
      assert r == h + rest;
      forall i | 0 <= i < |r| ensures r[i].header && r[i] in row {
        if i < |h| {
          assert r[i] == row[0];
        } else {
          assert r[i] == rest[i - |h|];
          assert rest[i - |h|] in row[1..];
        }
      }
      forall i | 0 <= i < |row| && row[i].header ensures row[i] in r {
        if i == 0 {
          assert r[0] == row[0];
        } else {
          assert row[i] == row[1..][i - 1];
          assert row[i] in rest;
        }
      }
    }
  }

  /** One more cell is one more header cell exactly when it is a `th`: the
      header cells keep the order and the repetitions of the row. */
  lemma {:induction false} RowHeadersSnoc(row: seq<Cell>, c: Cell)
    ensures RowHeaders(row + [c]) == RowHeaders(row) + (if c.header then [c] else [])
  {
    var t := row + [c];
    if |row| == 0 {
      assert t == [c] && t[1..] == [];
      assert RowHeaders(t) == (if c.header then [c] else []) + RowHeaders([]);
    } else {
      assert t[0] == row[0] && t[1..] == row[1..] + [c];
      RowHeadersSnoc(row[1..], c);
      assert RowHeaders(t) == (if row[0].header then [row[0]] else []) + RowHeaders(row[1..] + [c]);
    }
  }

  /** `find_all('th')`: the header cells of all rows, in document order. */
  function HeaderCells(rows: seq<seq<Cell>>): seq<Cell>
  {
    if |rows| == 0 then [] else RowHeaders(rows[0]) + HeaderCells(rows[1..])
  }

  function Headers(t: Table): seq<Cell>
  {
    HeaderCells(t.rows)
  }

  /** The rendered text of a cell: the stripped code between backticks when
      the cell holds code, its stripped text otherwise. */
  function CellText(c: Cell): (r: string)
    ensures FirstCode(c.parts).None? ==> Stripped(r)
    ensures FirstCode(c.parts).Some? ==>
      |r| >= 2 && r[0] == '`' && r[|r| - 1] == '`' && Stripped(r[1..|r| - 1])
  {
    match FirstCode(c.parts)
    case Some(k) => "`" + Strip(k) + "`"
    case None => Strip(PartsText(c.parts))
  }

  /** `" | ".join(...)` over the cell texts of a row. */
  function RowText(cells: seq<Cell>): string
  {
    Join(seq(|cells|, i requires 0 <= i < |cells| => CellText(cells[i])), " | ")
  }

  /** Width of the dash rule per header cell (line 114). */
  const RuleWidth: nat := 20

  /** The header line and the dash rule, when there are headers. */
  function HeaderLines(headers: seq<Cell>): seq<string>
  {
    if |headers| == 0 then [] else [RowText(headers), Repeat('-', |headers| * RuleWidth)]
  }

  /** What rows are compared with when there are headers: the first line
      of the table text, i.e. the header line up to its first line feed. */
  function Key(headers: seq<Cell>): Option<string>
  {
    if |headers| == 0 then None else Some(Split(RowText(headers))[0])
  }

  /** The text of a row, or nothing for a row without cells. */
  function RowLine(cells: seq<Cell>): Option<string>
  {
    if |cells| == 0 then None else Some(RowText(cells))
  }

  function RowLines(rows: seq<seq<Cell>>): (r: seq<Option<string>>)
    ensures |r| == |rows| && forall i | 0 <= i < |rows| :: r[i] == RowLine(rows[i])
  {
    seq(|rows|, i requires 0 <= i < |rows| => RowLine(rows[i]))
  }

  /** Whether a row gets a line: it has cells and, when there is a key,
      its text differs from the key. */
  predicate Kept(key: Option<string>, line: Option<string>) {
    line.Some? && (key.None? || line.value != key.value)
  }

  /** The texts of the kept rows, in order. */
  function Emitted(key: Option<string>, lines: seq<Option<string>>): (r: seq<string>)
    ensures |r| <= |lines|
  {
    if |lines| == 0 then []
    else
      var n := |lines|;
      Emitted(key, lines[..n - 1]) +
        (if Kept(key, lines[n - 1]) then [lines[n - 1].value] else [])
  }

  /** Every line followed by a line feed. */
  function ConcatLines(ls: seq<string>): string
  {
    if |ls| == 0 then "" else ls[0] + "\n" + ConcatLines(ls[1..])
  }

  /** The lines of the rendered table. */
  function TableLines(t: Table): seq<string>
  {
    HeaderLines(Headers(t)) + Emitted(Key(Headers(t)), RowLines(t.rows))
  }

  /** `table_text` as lines 101-131 leave it. */
  function TableText(t: Table): string
  {
    ConcatLines(TableLines(t))
  }

  /** Lines 101-131 for one table as written: the text grows line by line,
      and each row is compared with the first line of the text so far. */
  method TableScan(t: Table) returns (text: string)
    ensures text == TableText(t)
  {
    text := "";
    var headers := Headers(t);
    var key := Key(headers);
    var lines := RowLines(t.rows);
    if |headers| > 0 {
      var rule := Repeat('-', |headers| * RuleWidth);
      text := text + RowText(headers) + "\n";
      text := text + rule + "\n";
      ConcatPair(RowText(headers), rule);
      assert HeaderLines(headers) == [RowText(headers), rule];
    }
    var i := 0;
    assert Emitted(key, lines[..0]) == [];
    assert HeaderLines(headers) + [] == HeaderLines(headers);
    while i < |t.rows|
      invariant 0 <= i <= |t.rows|
      invariant text == ConcatLines(HeaderLines(headers) + Emitted(key, lines[..i]))
    {
      var cells := t.rows[i];
      var before := HeaderLines(headers) + Emitted(key, lines[..i]);
      EmittedStep(HeaderLines(headers), key, lines, i);
      if |cells| > 0 {
        var rowText := RowText(cells);
        if |headers| > 0 {
          FirstLineIsKey(headers, Emitted(key, lines[..i]));
        }
        assert lines[i] == Some(rowText);
        if |headers| == 0 || rowText != Lines(text)[0] {
          assert Kept(key, lines[i]);
          ConcatSnoc(before, rowText);
          text := text + rowText + "\n";
          assert text == ConcatLines(before + [rowText]);
        } else {
          assert !Kept(key, lines[i]);
          assert before == HeaderLines(headers) + Emitted(key, lines[..i + 1]);
        }
      } else {
        assert lines[i] == None;
        assert before == HeaderLines(headers) + Emitted(key, lines[..i + 1]);
      }
      i := i + 1;
    }
    assert lines[..i] == lines;
  }

  /** One more row extends the kept lines by that row's text, if it is
      kept. */
  lemma {:induction false} EmittedStep(hs: seq<string>, key: Option<string>, lines: seq<Option<string>>, i: int)
    requires 0 <= i < |lines|
    ensures hs + Emitted(key, lines[..i + 1]) ==
      hs + Emitted(key, lines[..i]) + (if Kept(key, lines[i]) then [lines[i].value] else [])
  {
    assert lines[..i + 1][..i] == lines[..i];
  }

  lemma {:induction false} ConcatPair(a: string, b: string)
    ensures ConcatLines([a, b]) == "" + a + "\n" + b + "\n"
  {
    assert [a, b][1..] == [b];
    assert [b][1..] == [];
    assert ConcatLines([b]) == b + "\n" + "";
    assert ConcatLines([a, b]) == a + "\n" + (b + "\n" + "");
  }

  /** Appending a line appends it and a line feed to the text. */
  lemma {:induction false} ConcatSnoc(ls: seq<string>, x: string)
    ensures ConcatLines(ls + [x]) == ConcatLines(ls) + x + "\n"
  {
    if |ls| > 0 {
      assert (ls + [x])[1..] == ls[1..] + [x];
      ConcatSnoc(ls[1..], x);
    } else {
      assert ([x])[1..] == [];
    }
  }

  /** The first line of a text that starts with `a` and a line feed is the
      first line of `a`. */
  lemma {:induction false} SplitHead(a: string, t: string)
    ensures |Split(a + "\n" + t)| >= 2
    ensures Split(a + "\n" + t)[0] == Split(a)[0]
  {
    var s := a + "\n" + t;
    if |a| == 0 {
      assert s[0] == '\n';
    } else if a[0] == '\n' {
      assert s[0] == '\n';
    } else {
      assert s[1..] == a[1..] + "\n" + t;
      SplitHead(a[1..], t);
    }
  }

  /** With headers, the first line of the text is always the header key. */
  lemma {:induction false} FirstLineIsKey(headers: seq<Cell>, rest: seq<string>)
    requires |headers| > 0
    ensures var text := ConcatLines(HeaderLines(headers) + rest);
      |Lines(text)| > 0 && Key(headers) == Some(Lines(text)[0])
  {
    var ls := HeaderLines(headers) + rest;
    assert ls[0] == RowText(headers);
    SplitHead(RowText(headers), ConcatLines(ls[1..]));
  }

  // ---------------------------------------------------------------------
  // Properties of the rendered table.
  // ---------------------------------------------------------------------

  /** The text splits at its line feeds into its lines and a final empty
      piece. */
  lemma {:induction false} SplitConcat(ls: seq<string>)
    requires NoNewlines(ls)
    ensures Split(ConcatLines(ls)) == ls + [""]
  {
    if |ls| > 0 {
      assert NoNewlines(ls[1..]) by {
        forall i | 0 <= i < |ls[1..]| ensures '\n' !in ls[1..][i] {
          assert ls[1..][i] == ls[i + 1];
        }
      }
      SplitConcat(ls[1..]);
      SplitCons(ls[0], ConcatLines(ls[1..]));
      assert [ls[0]] + (ls[1..] + [""]) == ls + [""];
    }
  }

  /** Reading the text back with `splitlines` gives exactly the lines it
      was made of, as long as no line holds a line feed of its own. */
  lemma {:induction false} ConcatLinesLines(ls: seq<string>)
    requires NoNewlines(ls)
    ensures Lines(ConcatLines(ls)) == ls
  {
    SplitConcat(ls);
    assert (ls + [""])[..|ls|] == ls;
  }

  /** The rendered table, read back line by line, gives the header line and
      the dash rule (when there are headers) followed by the kept rows. */
  lemma {:induction false} TableTextLines(t: Table)
    requires NoNewlines(TableLines(t))
    ensures Lines(TableText(t)) == TableLines(t)
    ensures |Headers(t)| > 0 ==>
      |Lines(TableText(t))| >= 2 && Lines(TableText(t))[0] == RowText(Headers(t)) &&
      Lines(TableText(t))[1] == Repeat('-', |Headers(t)| * RuleWidth)
  {
    ConcatLinesLines(TableLines(t));
  }

  /** The text is empty exactly when there are no lines, and otherwise it
      ends in a line feed. */
  lemma {:induction false} TableTextEnds(t: Table)
    ensures TableText(t) == "" <==> |TableLines(t)| == 0
    ensures TableText(t) != "" ==> TableText(t)[|TableText(t)| - 1] == '\n'
  {
    ConcatEnds(TableLines(t));
  }

  /** Lines each followed by a line feed: empty exactly when there are no
      lines, and otherwise ending in a line feed. */
  lemma {:induction false} ConcatEnds(ls: seq<string>)
    ensures ConcatLines(ls) == "" <==> |ls| == 0
    ensures ConcatLines(ls) != "" ==> ConcatLines(ls)[|ConcatLines(ls)| - 1] == '\n'
  {
    if |ls| > 0 {
      var init, last := ls[..|ls| - 1], ls[|ls| - 1];
      assert init + [last] == ls;
      ConcatSnoc(init, last);
      var c := ConcatLines(ls);
      assert c == ConcatLines(init) + last + "\n";
      assert c[|c| - 1] == '\n';
    }
  }

  /** Every emitted line is the text of a kept row. */
  lemma {:induction false} EmittedFromKept(key: Option<string>, lines: seq<Option<string>>, x: string)
    requires x in Emitted(key, lines)
    ensures exists i :: 0 <= i < |lines| && Kept(key, lines[i]) && lines[i].value == x
  {
    var n := |lines|;
    var init := lines[..n - 1];
    if x in Emitted(key, init) {
      EmittedFromKept(key, init, x);
      var i :| 0 <= i < |init| && Kept(key, init[i]) && init[i].value == x;
      assert lines[i] == init[i];
    }
  }

  /** Every kept row gets its line. */
  lemma {:induction false} KeptEmitted(key: Option<string>, lines: seq<Option<string>>, i: int)
    requires 0 <= i < |lines| && Kept(key, lines[i])
    ensures lines[i].value in Emitted(key, lines)
  {
    var n := |lines|;
    var init := lines[..n - 1];
    if i < n - 1 {
      assert init[i] == lines[i];
      KeptEmitted(key, init, i);
    }
  }

  /** Without headers and with no empty row, every row gives one line, in
      order. */
  lemma {:induction false} EmittedAllRows(lines: seq<Option<string>>)
    requires forall i | 0 <= i < |lines| :: lines[i].Some?
    ensures Emitted(None, lines) == seq(|lines|, i requires 0 <= i < |lines| => lines[i].value)
  {
    if |lines| > 0 {
      EmittedAllRows(lines[..|lines| - 1]);
    }
  }

  /** A single-line header is never repeated: no row that renders to the
      header line gets a line of its own. */
  lemma {:induction false} HeaderRowSkipped(t: Table)
    requires |Headers(t)| > 0 && '\n' !in RowText(Headers(t))
    ensures RowText(Headers(t)) !in Emitted(Key(Headers(t)), RowLines(t.rows))
  {
    SplitNoNewline(RowText(Headers(t)));
    if RowText(Headers(t)) in Emitted(Key(Headers(t)), RowLines(t.rows)) {
      EmittedFromKept(Key(Headers(t)), RowLines(t.rows), RowText(Headers(t)));
      assert false;
    }
  }
}
