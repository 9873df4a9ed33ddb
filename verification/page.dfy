/**
 * `get_page_content` of api-crawler/crawler.py (lines 70-150) over an
 * abstract article: the DOM is given as a sequence of nodes in document
 * order, with code elements and tables as nodes of their own. Code elements
 * are replaced by numbered `[CODE_BLOCK_k]` tokens (lines 90-97), then
 * tables by `[TABLE_k]` tokens (lines 99-133), the remaining text is
 * cleaned (line 140) and the stored elements are put back (lines 142-148).
 */
module Page {
  import opened Options
  import opened Chars
  import opened Strings
  import opened Normalizer
  import opened Tokens
  import opened CodeBlocks
  import opened Tables
  import opened Restore
  import opened RestoreFacts
  import opened TokenSurvival

  /** A child of the article, after anchors have been rewritten to text:
      text or a code element (`Leaf`), a table, or a `script`/`style`
      element, whose text is dropped by lines 136-137. */
  datatype Node = Leaf(piece: Inline) | TableNode(table: Table) | Hidden(text: string)

  /** The focus element: the `get_text()` of its first `h1`, if any, and its
      content in document order (the heading's text among it). */
  datatype Article = Article(heading: Option<string>, body: seq<Node>)

  /** The pair that `get_page_content` returns. */
  datatype PageResult = PageResult(title: Option<string>, content: Option<string>)

  // ---------------------------------------------------------------------
  // Code elements, in document order (lines 90-97).
  // ---------------------------------------------------------------------

  /** `f` applied to every element, as a list comprehension. */
  function MapSeq<T, U>(f: T -> U, xs: seq<T>): (r: seq<U>)
    ensures |r| == |xs| && forall i | 0 <= i < |xs| :: r[i] == f(xs[i])
  {
    seq(|xs|, i requires 0 <= i < |xs| => f(xs[i]))
  }

  lemma {:induction false} MapSeqSnoc<T, U>(f: T -> U, xs: seq<T>, i: int)
    requires 0 <= i < |xs|
    ensures MapSeq(f, xs[..i + 1]) == MapSeq(f, xs[..i]) + [f(xs[i])]
  {
    var l, r := MapSeq(f, xs[..i + 1]), MapSeq(f, xs[..i]) + [f(xs[i])];
    forall k | 0 <= k <= i ensures l[k] == r[k] {
      assert xs[..i + 1][k] == xs[k];
      if k < i {
        assert xs[..i][k] == xs[k];
      }
    }
  }

  /** Both loops of lines 91-97 and 100-133 walk the elements in document
      order and give the `k`-th matching element the number `k`: each node
      is mapped by `f` with the number of matching elements before it, `w`
      counting the matches inside one node. */
  function NumberedMap<T, U>(f: (T, nat) -> U, w: T -> nat, xs: seq<T>, base: nat): (r: seq<U>)
    ensures |r| == |xs|
  {
    if |xs| == 0 then [] else [f(xs[0], base)] + NumberedMap(f, w, xs[1..], base + w(xs[0]))
  }

  /** The number of matching elements in `xs`. */
  function Weight<T>(w: T -> nat, xs: seq<T>): nat
  {
    if |xs| == 0 then 0 else w(xs[0]) + Weight(w, xs[1..])
  }

  /** Element `i` is mapped with the weight of the elements before it. */
  lemma {:induction false} NumberedMapAt<T, U>(f: (T, nat) -> U, w: T -> nat, xs: seq<T>, base: nat, i: int)
    requires 0 <= i < |xs|
    ensures NumberedMap(f, w, xs, base)[i] == f(xs[i], base + Weight(w, xs[..i]))
  {
    if i > 0 {
      NumberedMapAt(f, w, xs[1..], base + w(xs[0]), i - 1);
      assert xs[..i][0] == xs[0];
      assert xs[..i][1..] == xs[1..][..i - 1];
    } else {
      assert xs[..0] == [];
    }
  }

  function InlineCodes(p: Inline): seq<string>
  {
    if p.InlineCode? then [p.code] else []
  }

  function PartsCodes(ps: seq<Inline>): seq<string>
  {
    if |ps| == 0 then [] else InlineCodes(ps[0]) + PartsCodes(ps[1..])
  }

  function CellsCodes(cs: seq<Cell>): seq<string>
  {
    if |cs| == 0 then [] else PartsCodes(cs[0].parts) + CellsCodes(cs[1..])
  }

  function RowsCodes(rows: seq<seq<Cell>>): seq<string>
  {
    if |rows| == 0 then [] else CellsCodes(rows[0]) + RowsCodes(rows[1..])
  }

  function NodeCodes(n: Node): seq<string>
  {
    match n
    case Leaf(p) => InlineCodes(p)
    case TableNode(t) => RowsCodes(t.rows)
    case Hidden(_) => []
  }

  /** The raw text of every code element of the article, in document
      order, code inside table cells included. */
  function NodesCodes(ns: seq<Node>): seq<string>
  {
    if |ns| == 0 then [] else NodeCodes(ns[0]) + NodesCodes(ns[1..])
  }

  /** A code element becomes the token of its number; `base` elements came
      before it. */
  function ExtractPart(p: Inline, base: nat): Inline
  {
    if p.InlineCode? then Words(CodeToken(base + 1)) else p
  }

  function ExtractParts(ps: seq<Inline>, base: nat): (r: seq<Inline>)
    ensures |r| == |ps|
  {
    if |ps| == 0 then []
    else [ExtractPart(ps[0], base)] + ExtractParts(ps[1..], base + |InlineCodes(ps[0])|)
  }

  function ExtractCells(cs: seq<Cell>, base: nat): (r: seq<Cell>)
    ensures |r| == |cs|
  {
    if |cs| == 0 then []
    else
      [Cell(cs[0].header, ExtractParts(cs[0].parts, base))] +
        ExtractCells(cs[1..], base + |PartsCodes(cs[0].parts)|)
  }

  function ExtractRows(rows: seq<seq<Cell>>, base: nat): (r: seq<seq<Cell>>)
    ensures |r| == |rows|
  {
    if |rows| == 0 then []
    else [ExtractCells(rows[0], base)] + ExtractRows(rows[1..], base + |CellsCodes(rows[0])|)
  }

  function ExtractNode(n: Node, base: nat): Node
  {
    match n
    case Leaf(p) => Leaf(ExtractPart(p, base))
    case TableNode(t) => TableNode(Table(ExtractRows(t.rows, base)))
    case Hidden(_) => n
  }

  function CodeCount(n: Node): nat
  {
    |NodeCodes(n)|
  }

  /** The article after the loop of lines 91-97. */
  function ExtractCodes(ns: seq<Node>, base: nat): (r: seq<Node>)
    ensures |r| == |ns|
  {
    NumberedMap(ExtractNode, CodeCount, ns, base)
  }

  /** `code_blocks`: every code element's text with its lines right-stripped
      and the whole stripped. */
  function CodeTexts(raws: seq<string>): (r: seq<string>)
    ensures |r| == |raws| && forall i | 0 <= i < |raws| :: r[i] == CodeText(raws[i])
  {
    MapSeq(CodeText, raws)
  }

  // ---------------------------------------------------------------------
  // Tables, in document order (lines 99-133).
  // ---------------------------------------------------------------------

  function NodeTables(n: Node): seq<Table>
  {
    if n.TableNode? then [n.table] else []
  }

  function NodesTables(ns: seq<Node>): seq<Table>
  {
    if |ns| == 0 then [] else NodeTables(ns[0]) + NodesTables(ns[1..])
  }

  function ExtractTable(n: Node, base: nat): Node
  {
    if n.TableNode? then Leaf(Words(TableToken(base + 1))) else n
  }

  function TableCount(n: Node): nat
  {
    |NodeTables(n)|
  }

  /** The article after the loop of lines 100-133. */
  function ExtractTables(ns: seq<Node>, base: nat): (r: seq<Node>)
    ensures |r| == |ns|
  {
    NumberedMap(ExtractTable, TableCount, ns, base)
  }

  /** `tables`: the rendered text of every table. */
  function TableTexts(ts: seq<Table>): (r: seq<string>)
    ensures |r| == |ts| && forall i | 0 <= i < |ts| :: r[i] == TableText(ts[i])
  {
    MapSeq(TableText, ts)
  }

  // ---------------------------------------------------------------------
  // The text of the article (line 140) and the whole function.
  // ---------------------------------------------------------------------

  function CellsGetText(cs: seq<Cell>): string
  {
    if |cs| == 0 then "" else PartsText(cs[0].parts) + CellsGetText(cs[1..])
  }

  function RowsGetText(rows: seq<seq<Cell>>): string
  {
    if |rows| == 0 then "" else CellsGetText(rows[0]) + RowsGetText(rows[1..])
  }

  function NodeText(n: Node): string
  {
    match n
    case Leaf(p) => PartsText([p])
    case TableNode(t) => RowsGetText(t.rows)
    case Hidden(_) => ""
  }

  /** `article.get_text()` once scripts and styles are gone. */
  function Flatten(ns: seq<Node>): string
  {
    if |ns| == 0 then "" else NodeText(ns[0]) + Flatten(ns[1..])
  }

  /** The title: the stripped heading, or the address when there is no
      `h1` (line 88). */
  function Title(url: string, a: Article): string
  {
    match a.heading
    case Some(h) => Strip(h)
    case None => url
  }

  function StoredCodes(a: Article): seq<string>
  {
    CodeTexts(NodesCodes(a.body))
  }

  function StoredTables(a: Article): seq<string>
  {
    TableTexts(NodesTables(ExtractCodes(a.body, 0)))
  }

  /** The cleaned text, with tokens, before anything is put back. */
  function Placeheld(a: Article): string
  {
    CleanText(Flatten(ExtractTables(ExtractCodes(a.body, 0), 0)))
  }

  /** `get_page_content` on a page whose focus element is `article`, with
      the restore loops as written: code blocks first, then tables. */
  function PageContent(url: string, article: Option<Article>): PageResult
  {
    match article
    case None => PageResult(None, None)
    case Some(a) =>
      PageResult(Some(Title(url, a)),
        Some(RestoreAsWritten(Placeheld(a), StoredCodes(a), StoredTables(a))))
  }

  /** The same page with the two restore loops swapped (tables first), so
      that a code token inside a table's text is put back as well. */
  function PageContentFixed(url: string, article: Option<Article>): PageResult
  {
    match article
    case None => PageResult(None, None)
    case Some(a) =>
      PageResult(Some(Title(url, a)),
        Some(RestoreFixed(Placeheld(a), StoredCodes(a), StoredTables(a))))
  }

  /** Node `i` is a code element outside any table. */
  predicate IsCode(a: Article, i: int) {
    0 <= i < |a.body| && a.body[i].Leaf? && a.body[i].piece.InlineCode?
  }

  /** Node `i` is a table. */
  predicate IsTable(a: Article, i: int) {
    0 <= i < |a.body| && a.body[i].TableNode?
  }

  /** `get_page_content` step by step: each table rendered by the row loop,
      the text cleaned by the line loop, and the elements put back by the
      two restore loops in the order of lines 142-148. A missing focus
      element gives `(None, None)`; otherwise there is a title, the heading
      or the address, and a content. Every table is in the content when no
      stored table holds a table token; every code element outside a table
      is in the content, fenced, when no stored code block holds a code or
      table token. */
  method GetPageContent(url: string, article: Option<Article>) returns (r: PageResult)
    ensures r == PageContent(url, article)
    ensures article.None? <==> r.title.None?
    ensures r.title.Some? <==> r.content.Some?
    ensures article.Some? && article.value.heading.None? ==> r.title == Some(url)
    ensures article.Some? && TokenFree(StoredTables(article.value), TableKind, |StoredTables(article.value)|) ==>
      forall i | IsTable(article.value, i) ::
        Contains(r.content.value, Frame(TableKind, StoredTable(article.value, i)))
    ensures article.Some? && CodesTokenFree(article.value) ==>
      forall i | IsCode(article.value, i) ::
        Contains(r.content.value, Frame(CodeKind, CodeText(article.value.body[i].piece.code)))
  {
    if article.None? {
      return PageResult(None, None);
    }
    var a := article.value;
    var title := if a.heading.Some? then Strip(a.heading.value) else url;
    var body := ExtractCodes(a.body, 0);
    var tables := RenderTables(NodesTables(body));
    var content := CleanTextScan(Flatten(ExtractTables(body, 0)));
    content := RestoreAsWrittenScan(content, StoredCodes(a), tables);
    r := PageResult(Some(title), Some(content));
    if TokenFree(StoredTables(a), TableKind, |StoredTables(a)|) {
      forall i | IsTable(a, i) ensures Contains(r.content.value, Frame(TableKind, StoredTable(a, i))) {
        TableElementShown(url, a, i);
      }
    }
    if CodesTokenFree(a) {
      forall i | IsCode(a, i) ensures Contains(r.content.value, Frame(CodeKind, CodeText(a.body[i].piece.code))) {
        CodeElementShown(url, a, i);
      }
    }
  }

  /** The table loop of lines 100-133, one table after the other. */
  method RenderTables(found: seq<Table>) returns (tables: seq<string>)
    ensures tables == TableTexts(found)
  {
    tables := [];
    var i := 0;
    while i < |found|
      invariant 0 <= i <= |found|
      invariant tables == TableTexts(found[..i])
    {
      var text := TableScan(found[i]);
      TableTextsSnoc(found, i);
      tables := tables + [text];
      i := i + 1;
    }
    assert found[..i] == found;
  }

  lemma {:induction false} TableTextsSnoc(found: seq<Table>, i: int)
    requires 0 <= i < |found|
    ensures TableTexts(found[..i + 1]) == TableTexts(found[..i]) + [TableText(found[i])]
  {
    MapSeqSnoc(TableText, found, i);
  }

  // ---------------------------------------------------------------------
  // Where each element goes.
  // ---------------------------------------------------------------------

  lemma {:induction false} NodesCodesAppend(xs: seq<Node>, ys: seq<Node>)
    ensures NodesCodes(xs + ys) == NodesCodes(xs) + NodesCodes(ys)
  {
    if |xs| > 0 {
      assert (xs + ys)[1..] == xs[1..] + ys;
      NodesCodesAppend(xs[1..], ys);
    } else {
      assert xs + ys == ys;
    }
  }

  lemma {:induction false} NodesTablesAppend(xs: seq<Node>, ys: seq<Node>)
    ensures NodesTables(xs + ys) == NodesTables(xs) + NodesTables(ys)
  {
    if |xs| > 0 {
      assert (xs + ys)[1..] == xs[1..] + ys;
      NodesTablesAppend(xs[1..], ys);
    } else {
      assert xs + ys == ys;
    }
  }

  lemma {:induction false} FlattenAppend(xs: seq<Node>, ys: seq<Node>)
    ensures Flatten(xs + ys) == Flatten(xs) + Flatten(ys)
  {
    if |xs| > 0 {
      assert (xs + ys)[1..] == xs[1..] + ys;
      FlattenAppend(xs[1..], ys);
    } else {
      assert xs + ys == ys;
    }
  }

  lemma {:induction false} Around<T>(xs: seq<T>, i: int)
    requires 0 <= i < |xs|
    ensures xs == xs[..i] + [xs[i]] + xs[i + 1..]
  {
  }

  /** The code elements before node `i`, those of node `i`, and those after
      it, one after the other. */
  lemma {:induction false} CodesAround(ns: seq<Node>, i: int)
    requires 0 <= i < |ns|
    ensures NodesCodes(ns) == NodesCodes(ns[..i]) + NodeCodes(ns[i]) + NodesCodes(ns[i + 1..])
  {
    Around(ns, i);
    NodesCodesAppend(ns[..i] + [ns[i]], ns[i + 1..]);
    NodesCodesAppend(ns[..i], [ns[i]]);
    assert NodesCodes([ns[i]]) == NodeCodes(ns[i]) by {
      assert [ns[i]][1..] == [];
    }
  }

  lemma {:induction false} TablesAround(ns: seq<Node>, i: int)
    requires 0 <= i < |ns|
    ensures NodesTables(ns) == NodesTables(ns[..i]) + NodeTables(ns[i]) + NodesTables(ns[i + 1..])
  {
    Around(ns, i);
    NodesTablesAppend(ns[..i] + [ns[i]], ns[i + 1..]);
    NodesTablesAppend(ns[..i], [ns[i]]);
    assert NodesTables([ns[i]]) == NodeTables(ns[i]) by {
      assert [ns[i]][1..] == [];
    }
  }

  /** The text of node `i` sits in the article's text right after the text
      of the nodes before it. */
  lemma {:induction false} TextAround(ns: seq<Node>, i: int)
    requires 0 <= i < |ns|
    ensures OccursAt(NodeText(ns[i]), Flatten(ns), |Flatten(ns[..i])|)
  {
    Around(ns, i);
    FlattenAppend(ns[..i] + [ns[i]], ns[i + 1..]);
    FlattenAppend(ns[..i], [ns[i]]);
    assert Flatten([ns[i]]) == NodeText(ns[i]) by {
      assert [ns[i]][1..] == [];
    }
  }

  /** Node `i` is numbered after the code elements of the nodes before it. */
  lemma {:induction false} ExtractCodesAt(ns: seq<Node>, base: nat, i: int)
    requires 0 <= i < |ns|
    ensures ExtractCodes(ns, base)[i] == ExtractNode(ns[i], base + |NodesCodes(ns[..i])|)
  {
    NumberedMapAt(ExtractNode, CodeCount, ns, base, i);
    CodeWeight(ns[..i]);
  }

  lemma {:induction false} CodeWeight(ns: seq<Node>)
    ensures Weight(CodeCount, ns) == |NodesCodes(ns)|
  {
    if |ns| > 0 {
      CodeWeight(ns[1..]);
    }
  }

  /** Node `i` is numbered after the tables before it. */
  lemma {:induction false} ExtractTablesAt(ns: seq<Node>, base: nat, i: int)
    requires 0 <= i < |ns|
    ensures ExtractTables(ns, base)[i] == ExtractTable(ns[i], base + |NodesTables(ns[..i])|)
  {
    NumberedMapAt(ExtractTable, TableCount, ns, base, i);
    TableWeight(ns[..i]);
  }

  lemma {:induction false} TableWeight(ns: seq<Node>)
    ensures Weight(TableCount, ns) == |NodesTables(ns)|
  {
    if |ns| > 0 {
      TableWeight(ns[1..]);
    }
  }

  // ---------------------------------------------------------------------
  // No code element is left for the table renderer.
  // ---------------------------------------------------------------------

  predicate PartsPlain(ps: seq<Inline>) {
    forall i | 0 <= i < |ps| :: ps[i].Words?
  }

  predicate CellsPlain(cs: seq<Cell>) {
    forall i | 0 <= i < |cs| :: PartsPlain(cs[i].parts)
  }

  predicate RowsPlain(rows: seq<seq<Cell>>) {
    forall i | 0 <= i < |rows| :: CellsPlain(rows[i])
  }

  lemma {:induction false} ExtractPartsPlain(ps: seq<Inline>, base: nat)
    ensures PartsPlain(ExtractParts(ps, base))
  {
    if |ps| > 0 {
      var r := ExtractParts(ps, base);
      ExtractPartsPlain(ps[1..], base + |InlineCodes(ps[0])|);
      forall i | 0 <= i < |r| ensures r[i].Words? {
        if i > 0 {
          assert r[i] == ExtractParts(ps[1..], base + |InlineCodes(ps[0])|)[i - 1];
        }
      }
    }
  }

  lemma {:induction false} ExtractCellsPlain(cs: seq<Cell>, base: nat)
    ensures CellsPlain(ExtractCells(cs, base))
  {
    if |cs| > 0 {
      var r := ExtractCells(cs, base);
      var b := base + |PartsCodes(cs[0].parts)|;
      ExtractPartsPlain(cs[0].parts, base);
      ExtractCellsPlain(cs[1..], b);
      forall i | 0 <= i < |r| ensures PartsPlain(r[i].parts) {
        if i > 0 {
          assert r[i] == ExtractCells(cs[1..], b)[i - 1];
        }
      }
    }
  }

  lemma {:induction false} ExtractRowsPlain(rows: seq<seq<Cell>>, base: nat)
    ensures RowsPlain(ExtractRows(rows, base))
  {
    if |rows| > 0 {
      var r := ExtractRows(rows, base);
      var b := base + |CellsCodes(rows[0])|;
      ExtractCellsPlain(rows[0], base);
      ExtractRowsPlain(rows[1..], b);
      forall i | 0 <= i < |r| ensures CellsPlain(r[i]) {
        if i > 0 {
          assert r[i] == ExtractRows(rows[1..], b)[i - 1];
        }
      }
    }
  }

  /** Every code element, table cells included, is replaced by its token
      before any table is rendered, so no cell of a table that reaches the
      renderer holds code: the backtick branch of lines 108-110 and 123-125
      is never taken. */
  lemma {:induction false} CellsHoldNoCode(a: Article, k: int, r: int, c: int)
    requires var ts := NodesTables(ExtractCodes(a.body, 0));
      0 <= k < |ts| && 0 <= r < |ts[k].rows| && 0 <= c < |ts[k].rows[r]|
    ensures FirstCode(NodesTables(ExtractCodes(a.body, 0))[k].rows[r][c].parts) == None
  {
    var ns := ExtractCodes(a.body, 0);
    TablesOfExtracted(a.body, 0, k);
  }

  lemma {:induction false} TablesOfExtracted(ns: seq<Node>, base: nat, k: int)
    requires 0 <= k < |NodesTables(ExtractCodes(ns, base))|
    ensures RowsPlain(NodesTables(ExtractCodes(ns, base))[k].rows)
  {
    var e := ExtractCodes(ns, base);
    var b := base + |NodeCodes(ns[0])|;
    assert e[1..] == ExtractCodes(ns[1..], b);
    var head := NodeTables(e[0]);
    if k < |head| {
      ExtractRowsPlain(ns[0].table.rows, base);
    } else {
      TablesOfExtracted(ns[1..], b, k - |head|);
    }
  }

  // ---------------------------------------------------------------------
  // Each element reaches the page.
  // ---------------------------------------------------------------------

  lemma {:induction false} WordsText(w: string)
    ensures NodeText(Leaf(Words(w))) == w
  {
    assert [Words(w)][1..] == [];
    assert PartsText([Words(w)]) == w + PartsText([]);
  }

  /** A word node puts its text into the article's text. */
  lemma {:induction false} WordsPlaced(ns: seq<Node>, i: int, w: string)
    requires 0 <= i < |ns| && ns[i] == Leaf(Words(w))
    ensures Contains(Flatten(ns), w)
  {
    TextAround(ns, i);
    WordsText(w);
    Located(w, Flatten(ns), |Flatten(ns[..i])|);
  }

  lemma {:induction false} Located(q: string, s: string, j: int)
    requires OccursAt(q, s, j)
    ensures Contains(s, q)
  {
  }

  /** The token of the `k`-th code element survives the cleaning. */
  lemma {:induction false} CodeTokenPlaced(a: Article, i: int)
    requires 0 <= i < |a.body| && a.body[i].Leaf? && a.body[i].piece.InlineCode?
    ensures Contains(Placeheld(a), KindToken(CodeKind, |NodesCodes(a.body[..i])| + 1))
  {
    var k := |NodesCodes(a.body[..i])| + 1;
    var ns2 := ExtractTables(ExtractCodes(a.body, 0), 0);
    CodeLeafExtracted(a, i);
    WordsPlaced(ns2, i, CodeToken(k));
    var j :| 0 <= j <= |Flatten(ns2)| - |CodeToken(k)| && OccursAt(CodeToken(k), Flatten(ns2), j);
    TokenSurvivesClean(Flatten(ns2), k, j);
  }

  /** After both passes a code element is the text of its token. */
  lemma {:induction false} CodeLeafExtracted(a: Article, i: int)
    requires 0 <= i < |a.body| && a.body[i].Leaf? && a.body[i].piece.InlineCode?
    ensures var k := |NodesCodes(a.body[..i])| + 1;
      ExtractTables(ExtractCodes(a.body, 0), 0)[i] == Leaf(Words(CodeToken(k)))
  {
    CodeBecomesToken(a.body, i);
    TablePassKeepsLeaf(ExtractCodes(a.body, 0), i);
  }

  /** The code pass turns a code element into the text of its token. */
  lemma {:induction false} CodeBecomesToken(ns: seq<Node>, i: int)
    requires 0 <= i < |ns| && ns[i].Leaf? && ns[i].piece.InlineCode?
    ensures ExtractCodes(ns, 0)[i] == Leaf(Words(CodeToken(|NodesCodes(ns[..i])| + 1)))
  {
    ExtractCodesAt(ns, 0, i);
  }

  /** The table pass leaves every leaf alone. */
  lemma {:induction false} TablePassKeepsLeaf(ns: seq<Node>, i: int)
    requires 0 <= i < |ns| && ns[i].Leaf?
    ensures ExtractTables(ns, 0)[i] == ns[i]
  {
    ExtractTablesAt(ns, 0, i);
  }

  /** The `k`-th stored code block is the cleaned code of the `k`-th code
      element. */
  lemma {:induction false} CodeNumbered(a: Article, i: int)
    requires 0 <= i < |a.body| && a.body[i].Leaf? && a.body[i].piece.InlineCode?
    ensures var k := |NodesCodes(a.body[..i])| + 1;
      k <= |StoredCodes(a)| && StoredCodes(a)[k - 1] == CodeText(a.body[i].piece.code)
  {
    CodesAround(a.body, i);
  }

  /** No stored code block holds a code token or a table token. */
  predicate CodesTokenFree(a: Article) {
    TokenFree(StoredCodes(a), CodeKind, |StoredCodes(a)|) &&
    TokenFree(StoredCodes(a), TableKind, |StoredTables(a)|)
  }

  /** A code element outside any table ends up in the page as a fenced block
      holding its cleaned code, provided no stored code block holds a code
      token or a table token. */
  lemma {:induction false} CodeElementShown(url: string, a: Article, i: int)
    requires IsCode(a, i) && CodesTokenFree(a)
    ensures PageContent(url, Some(a)).content.Some?
    ensures Contains(PageContent(url, Some(a)).content.value,
      Frame(CodeKind, CodeText(a.body[i].piece.code)))
  {
    var k := |NodesCodes(a.body[..i])| + 1;
    CodeTokenPlaced(a, i);
    CodeNumbered(a, i);
    assert forall m | 1 <= m <= |StoredTables(a)| :: NoOcc(KindToken(TableKind, m), StoredCodes(a)[k - 1]) by {
      forall m | 1 <= m <= |StoredTables(a)| ensures NoOcc(KindToken(TableKind, m), StoredCodes(a)[k - 1]) {
        assert BodiesAvoid(StoredCodes(a), KindToken(TableKind, m));
      }
    }
    RestoreAsWrittenShowsCode(Placeheld(a), StoredCodes(a), StoredTables(a), k);
  }

  /** With the restore loops swapped, the same holds without the premise on
      table tokens. */
  lemma {:induction false} CodeElementShownFixed(url: string, a: Article, i: int)
    requires IsCode(a, i)
    requires TokenFree(StoredCodes(a), CodeKind, |StoredCodes(a)|)
    ensures PageContentFixed(url, Some(a)).content.Some?
    ensures Contains(PageContentFixed(url, Some(a)).content.value,
      Frame(CodeKind, CodeText(a.body[i].piece.code)))
  {
    CodeTokenPlaced(a, i);
    CodeNumbered(a, i);
    RestoreFixedShowsCode(Placeheld(a), StoredCodes(a), StoredTables(a), |NodesCodes(a.body[..i])| + 1);
  }

  /** The rendered text of the table at node `i`, as stored by line 132:
      its code elements already replaced by their tokens. */
  function StoredTable(a: Article, i: int): string
    requires 0 <= i < |a.body| && a.body[i].TableNode?
  {
    TableText(ExtractNode(a.body[i], |NodesCodes(a.body[..i])|).table)
  }

  /** The number of tables before node `i`. */
  function TablesBefore(a: Article, i: int): nat
    requires 0 <= i <= |a.body|
  {
    |NodesTables(ExtractCodes(a.body, 0)[..i])|
  }

  /** The token of the `k`-th table survives the cleaning. */
  lemma {:induction false} TableTokenPlaced(a: Article, i: int)
    requires 0 <= i < |a.body| && a.body[i].TableNode?
    ensures Contains(Placeheld(a), KindToken(TableKind, TablesBefore(a, i) + 1))
  {
    var k := TablesBefore(a, i) + 1;
    var text := Flatten(ExtractTables(ExtractCodes(a.body, 0), 0));
    TableTokenInText(a, i);
    var j :| 0 <= j <= |text| - |TableToken(k)| && OccursAt(TableToken(k), text, j);
    TokenSurvivesClean(text, k, j);
  }

  lemma {:induction false} TableTokenInText(a: Article, i: int)
    requires 0 <= i < |a.body| && a.body[i].TableNode?
    ensures Contains(Flatten(ExtractTables(ExtractCodes(a.body, 0), 0)), TableToken(TablesBefore(a, i) + 1))
  {
    ExtractedTableNode(a, i);
    TableTokenAt(ExtractCodes(a.body, 0), i);
  }

  /** Table node `i` leaves the token of its number in the text. */
  lemma {:induction false} TableTokenAt(ns: seq<Node>, i: int)
    requires 0 <= i < |ns| && ns[i].TableNode?
    ensures Contains(Flatten(ExtractTables(ns, 0)), TableToken(|NodesTables(ns[..i])| + 1))
  {
    ExtractTablesAt(ns, 0, i);
    WordsPlaced(ExtractTables(ns, 0), i, TableToken(|NodesTables(ns[..i])| + 1));
  }

  /** Node `i` is still a table after the code extraction, with its code
      elements numbered after those of the nodes before it. */
  lemma {:induction false} ExtractedTableNode(a: Article, i: int)
    requires 0 <= i < |a.body| && a.body[i].TableNode?
    ensures ExtractCodes(a.body, 0)[i].TableNode?
    ensures ExtractCodes(a.body, 0)[i].table == ExtractNode(a.body[i], |NodesCodes(a.body[..i])|).table
  {
    TableStaysTable(a.body, i);
  }

  /** The code pass keeps a table a table. */
  lemma {:induction false} TableStaysTable(ns: seq<Node>, i: int)
    requires 0 <= i < |ns| && ns[i].TableNode?
    ensures ExtractCodes(ns, 0)[i] == TableNode(ExtractNode(ns[i], |NodesCodes(ns[..i])|).table)
  {
    ExtractCodesAt(ns, 0, i);
  }

  /** The `k`-th stored table is the rendering of the `k`-th table. */
  lemma {:induction false} TableNumbered(a: Article, i: int)
    requires 0 <= i < |a.body| && a.body[i].TableNode?
    ensures TablesBefore(a, i) < |StoredTables(a)|
    ensures StoredTables(a)[TablesBefore(a, i)] == StoredTable(a, i)
  {
    var ns1 := ExtractCodes(a.body, 0);
    ExtractedTableNode(a, i);
    TablesAround(ns1, i);
    var ts := NodesTables(ns1);
    var k := TablesBefore(a, i);
    assert ts[k] == ns1[i].table;
    TableTextsAt(ts, k);
  }

  lemma {:induction false} TableTextsAt(ts: seq<Table>, k: int)
    requires 0 <= k < |ts|
    ensures TableTexts(ts)[k] == TableText(ts[k])
  {
  }

  /** A table ends up in the page between line feeds, provided no stored
      table holds a table token. The table loop runs last, so a code token
      in the table's text stays there (`RestoreFacts.AsWrittenLeavesCodeToken`). */
  lemma {:induction false} TableElementShown(url: string, a: Article, i: int)
    requires IsTable(a, i)
    requires TokenFree(StoredTables(a), TableKind, |StoredTables(a)|)
    ensures PageContent(url, Some(a)).content.Some?
    ensures Contains(PageContent(url, Some(a)).content.value, Frame(TableKind, StoredTable(a, i)))
  {
    TableTokenPlaced(a, i);
    TableNumbered(a, i);
    RestoreAsWrittenShowsTable(Placeheld(a), StoredCodes(a), StoredTables(a), TablesBefore(a, i) + 1);
  }

  /** With the restore loops swapped, a table shows up verbatim only when
      its text holds no code token: otherwise the code loop puts the fenced
      block inside it. */
  lemma {:induction false} TableElementShownFixed(url: string, a: Article, i: int)
    requires IsTable(a, i)
    requires TokenFree(StoredTables(a), TableKind, |StoredTables(a)|)
    requires forall m | 1 <= m <= |StoredCodes(a)| :: NoOcc(KindToken(CodeKind, m), StoredTable(a, i))
    ensures PageContentFixed(url, Some(a)).content.Some?
    ensures Contains(PageContentFixed(url, Some(a)).content.value, Frame(TableKind, StoredTable(a, i)))
  {
    TableTokenPlaced(a, i);
    TableNumbered(a, i);
    RestoreFixedShowsTable(Placeheld(a), StoredCodes(a), StoredTables(a), TablesBefore(a, i) + 1);
  }
}
