/**
 * Putting the extracted elements back (api-crawler/crawler.py lines
 * 142-148): every `[CODE_BLOCK_i]` in the cleaned content is replaced by a
 * fenced block and every `[TABLE_i]` by the table text between line feeds,
 * each token by one `str.replace` over the whole content, for i = 1, 2, ...
 */
module Restore {
  import opened Strings
  import opened Replace
  import opened Tokens

  /** The two kinds of extracted element. */
  datatype Kind = CodeKind | TableKind

  function Prefix(kind: Kind): string
  {
    match kind
    case CodeKind => CodePrefix
    case TableKind => TablePrefix
  }

  /** The token of the `n`-th element of a kind: `CodeToken(n)` or
      `TableToken(n)`. */
  function KindToken(kind: Kind, n: nat): string
  {
    Token(Prefix(kind), n)
  }

  /** What opens and closes a restored element: three backticks between
      line feeds around a code block (line 144), a bare line feed around a
      table (line 148). */
  function Opener(kind: Kind): string
  {
    match kind
    case CodeKind => "\n```\n"
    case TableKind => "\n"
  }

  /** `f'\n```\n{code}\n```\n'` and `f'\n{table}\n'`. */
  function Frame(kind: Kind, body: string): string
  {
    Opener(kind) + body + Opener(kind)
  }

  /** The restore loop for one kind after its first `|bodies|` rounds:
      round `i` replaces every occurrence of token `i` by the framed
      `bodies[i - 1]`. */
  function RestoreKind(content: string, kind: Kind, bodies: seq<string>): string
  {
    if |bodies| == 0 then content
    else
      var n := |bodies|;
      ReplaceAll(RestoreKind(content, kind, bodies[..n - 1]), KindToken(kind, n), Frame(kind, bodies[n - 1]))
  }

  /** Lines 142-148 as written: code blocks first, then tables. */
  function RestoreAsWritten(content: string, codes: seq<string>, tables: seq<string>): string
  {
    RestoreKind(RestoreKind(content, CodeKind, codes), TableKind, tables)
  }

  /** The restore with the two loops swapped: tables first, so that a code
      token inside a table's text is put back by the code loop. */
  function RestoreFixed(content: string, codes: seq<string>, tables: seq<string>): string
  {
    RestoreKind(RestoreKind(content, TableKind, tables), CodeKind, codes)
  }
}
