/**
 * The placeholder tokens of `get_page_content` (api-crawler/crawler.py lines
 * 97 and 133): `[CODE_BLOCK_n]` and `[TABLE_n]`, where `n` is written in
 * decimal as Python's `str` writes a non-negative integer.
 */
module Tokens {
  import opened Chars
  import opened Strings

  // ---------------------------------------------------------------------
  // Decimal numerals.
  // ---------------------------------------------------------------------

  function DigitChar(d: nat): (c: char)
    requires d < 10
    ensures IsDigit(c)
  {
    (('0' as int) + d) as char
  }

  function DigitValue(c: char): (d: nat)
    requires IsDigit(c)
    ensures d < 10
  {
    (c as int) - ('0' as int)
  }

  /** `str(n)` for a non-negative integer: its decimal digits, most
      significant first, with no leading zero. */
  function NatToString(n: nat): (r: string)
    ensures |r| >= 1
    ensures forall i :: 0 <= i < |r| ==> IsDigit(r[i])
    ensures |r| > 1 ==> r[0] != '0'
  {
    if n < 10 then [DigitChar(n)] else NatToString(n / 10) + [DigitChar(n % 10)]
  }

  predicate AllDigits(s: string) {
    forall i | 0 <= i < |s| :: IsDigit(s[i])
  }

  /** `int(s)` for a string of decimal digits. */
  function ParseNat(s: string): nat
    requires AllDigits(s)
  {
    if |s| == 0 then 0 else 10 * ParseNat(s[..|s| - 1]) + DigitValue(s[|s| - 1])
  }

  /** Reading back the numeral gives the number: `int(str(n)) == n`. */
  lemma {:induction false} ParseNatToString(n: nat)
    ensures ParseNat(NatToString(n)) == n
  {
    var r := NatToString(n);
    if n >= 10 {
      ParseNatToString(n / 10);
      assert r[..|r| - 1] == NatToString(n / 10);
    }
  }

  /** Different numbers have different numerals. */
  lemma {:induction false} NatToStringInjective(i: nat, j: nat)
    requires NatToString(i) == NatToString(j)
    ensures i == j
  {
    ParseNatToString(i);
    ParseNatToString(j);
  }

  // ---------------------------------------------------------------------
  // Tokens.
  // ---------------------------------------------------------------------

  const CodePrefix: string := "[CODE_BLOCK_"
  const TablePrefix: string := "[TABLE_"

  /** The token that stands for a numbered element: prefix, numeral, `]`. */
  function Token(prefix: string, n: nat): (t: string)
    ensures |t| == |prefix| + |NatToString(n)| + 1
    ensures t[..|prefix|] == prefix && t[|t| - 1] == ']'
    ensures forall i :: |prefix| <= i < |t| - 1 ==> IsDigit(t[i])
  {
    prefix + NatToString(n) + "]"
  }

  /** `f'[CODE_BLOCK_{n}]'`, line 97. */
  function CodeToken(n: nat): string
  {
    Token(CodePrefix, n)
  }

  /** `f'[TABLE_{n}]'`, line 133. */
  function TableToken(n: nat): string
  {
    Token(TablePrefix, n)
  }

  /** A character that may follow the opening bracket of a token. */
  predicate TokenTail(c: char) {
    IsUpper(c) || IsDigit(c) || c == '_' || c == ']'
  }

  /** An opening bracket followed by an upper-case letter and then only
      upper-case letters, digits, underscores and closing brackets: text
      that `clean_text` carries through unchanged. */
  predicate Inert(q: string) {
    |q| >= 2 && q[0] == '[' && IsUpper(q[1]) &&
    forall i | 1 <= i < |q| :: TokenTail(q[i])
  }

  /** A well-formed token prefix: a bracket, an upper-case letter, and then
      upper-case letters and underscores. */
  predicate GoodPrefix(prefix: string) {
    |prefix| >= 2 && prefix[0] == '[' && IsUpper(prefix[1]) &&
    forall i | 1 <= i < |prefix| :: IsUpper(prefix[i]) || prefix[i] == '_'
  }

  lemma {:induction false} PrefixesGood()
    ensures GoodPrefix(CodePrefix) && GoodPrefix(TablePrefix)
  {
    assert forall i | 1 <= i < |CodePrefix| :: IsUpper(CodePrefix[i]) || CodePrefix[i] == '_';
    assert forall i | 1 <= i < |TablePrefix| :: IsUpper(TablePrefix[i]) || TablePrefix[i] == '_';
  }

  lemma {:induction false} TokenInert(prefix: string, n: nat)
    requires GoodPrefix(prefix)
    ensures Inert(Token(prefix, n))
  {
    var t := Token(prefix, n);
    forall i | 1 <= i < |t| ensures TokenTail(t[i]) {
      if i < |prefix| {
        assert t[i] == t[..|prefix|][i] == prefix[i];
      }
    }
  }

  /** Every code and table token is inert. */
  lemma {:induction false} TokensInert(n: nat)
    ensures Inert(CodeToken(n)) && Inert(TableToken(n))
  {
    PrefixesGood();
    TokenInert(CodePrefix, n);
    TokenInert(TablePrefix, n);
  }

  /** A token can only occur in another token with the same prefix at its
      start, and then the closing bracket forces the numerals to agree. */
  lemma {:induction false} TokenInToken(prefix: string, m: nat, n: nat, j: int)
    requires GoodPrefix(prefix)
    requires OccursAt(Token(prefix, m), Token(prefix, n), j)
    ensures m == n
  {
    var a, b := Token(prefix, m), Token(prefix, n);
    var dm, dn := NatToString(m), NatToString(n);
    if j > 0 {
      assert false;
    }
    var k := |prefix| + |dm|;
    assert a[k] == ']' && b[k] == a[k];
    if |dm| < |dn| {
      assert false;
    }
    assert |dm| == |dn|;
    forall i | 0 <= i < |dm| ensures dm[i] == dn[i] {
      assert dm[i] == a[|prefix| + i] && dn[i] == b[|prefix| + i];
    }
    NatToStringInjective(m, n);
  }

  /** `[CODE_BLOCK_i]` is never a substring of `[CODE_BLOCK_j]` for
      `i != j`, and likewise for tables. */
  lemma {:induction false} TokensDistinct(m: nat, n: nat)
    requires m != n
    ensures NoOcc(CodeToken(m), CodeToken(n))
    ensures NoOcc(TableToken(m), TableToken(n))
  {
    PrefixesGood();
    forall j | 0 <= j <= |CodeToken(n)| - |CodeToken(m)|
      ensures !OccursAt(CodeToken(m), CodeToken(n), j)
    {
      if OccursAt(CodeToken(m), CodeToken(n), j) {
        TokenInToken(CodePrefix, m, n, j);
      }
    }
    forall j | 0 <= j <= |TableToken(n)| - |TableToken(m)|
      ensures !OccursAt(TableToken(m), TableToken(n), j)
    {
      if OccursAt(TableToken(m), TableToken(n), j) {
        TokenInToken(TablePrefix, m, n, j);
      }
    }
  }

  /** A code token never occurs in a table token, nor the other way round:
      they differ right after the bracket. */
  lemma {:induction false} CodeAndTableTokensApart(m: nat, n: nat)
    ensures NoOcc(CodeToken(m), TableToken(n))
    ensures NoOcc(TableToken(m), CodeToken(n))
  {
    var c, t := CodeToken(m), TableToken(n);
    assert c[1] == CodePrefix[1] == 'C';
    assert t[1] == TablePrefix[1] == 'T';
    PrefixesGood();
    TokenInert(CodePrefix, m);
    TokenInert(TablePrefix, n);
    forall j | 0 <= j <= |t| - |c| ensures !OccursAt(c, t, j) {
      if j == 0 {
        assert t[1] != c[1];
      } else {
        assert t[j] != c[0];
      }
    }
    var c', t' := CodeToken(n), TableToken(m);
    assert c'[1] == CodePrefix[1] == 'C';
    assert t'[1] == TablePrefix[1] == 'T';
    TokenInert(CodePrefix, n);
    TokenInert(TablePrefix, m);
    forall j | 0 <= j <= |c'| - |t'| ensures !OccursAt(t', c', j) {
      if j == 0 {
        assert c'[1] != t'[1];
      } else {
        assert c'[j] != t'[0];
      }
    }
  }
}
