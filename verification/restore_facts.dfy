/**
 * Properties of the restore of api-crawler/crawler.py lines 142-148: a
 * framed element can neither re-create a token nor be cut by a later
 * round, so when no stored element holds a token, every token is gone
 * afterwards and every element whose token was in the content is in the
 * result. Restoring code blocks before tables, as the source does, breaks
 * this for a table whose text holds a code token.
 */
module RestoreFacts {
  import opened Strings
  import opened Replace
  import opened Tokens
  import opened Restore

  // ---------------------------------------------------------------------
  // Frames and tokens cannot be laid over each other.
  // ---------------------------------------------------------------------

  /** None of the characters of `a` occurs in `q`. */
  predicate Avoids(a: string, q: string) {
    forall i | 0 <= i < |a| :: a[i] !in q
  }

  /** An inert string holds neither a line feed nor a backtick. */
  lemma {:induction false} InertAvoidsOpeners(q: string, kind: Kind)
    requires Inert(q)
    ensures Avoids(Opener(kind), q)
  {
    forall c | c in q ensures c != '\n' && c != '`' {
      var i :| 0 <= i < |q| && q[i] == c;
      if i > 0 {
        assert TokenTail(q[i]);
      }
    }
  }

  /** A suffix of `a + x + b` that starts inside `x`, leaves room for `q`
      within `x` and is compatible with `q` puts `q` inside `x`. */
  lemma {:induction false} CompatibleInside(q: string, a: string, x: string, b: string, j: int)
    requires |a| <= j && j - |a| + |q| <= |x|
    ensures Compatible((a + x + b)[j..], q) ==> OccursAt(q, x, j - |a|)
  {
    var r := a + x + b;
    var j' := j - |a|;
    if Compatible(r[j..], q) {
      forall m | 0 <= m < |q| ensures x[j' + m] == q[m] {
        assert r[j..][m] == r[j + m] == x[j' + m];
      }
      assert x[j'..j' + |q|] == q;
    }
  }

  /** A suffix of `a + x + b` that starts inside `x` and is compatible with
      `q` would put `q` inside `x` or a character of `b` inside `q`. */
  lemma {:induction false} MiddleIncompatible(q: string, a: string, x: string, b: string, j: int)
    requires |q| > 0 && |b| > 0 && Avoids(b, q) && NoOcc(q, x)
    requires |a| <= j < |a| + |x|
    ensures !Compatible((a + x + b)[j..], q)
  {
    var r := a + x + b;
    var j' := j - |a|;
    if |x| - j' >= |q| {
      CompatibleInside(q, a, x, b, j);
    } else {
      var m := |x| - j';
      assert r[j..][m] == r[|a| + |x|] == b[0];
      assert b[0] !in q;
      assert q[m] != r[j..][m];
    }
  }

  /** A string framed by characters foreign to `q`, whose middle does not
      hold `q`, can neither create `q` nor overlap it. */
  lemma {:induction false} Framed(q: string, a: string, x: string, b: string)
    requires |q| > 0 && |a| > 0 && |b| > 0
    requires Avoids(a, q) && Avoids(b, q) && NoOcc(q, x)
    ensures Safe(q, a + x + b) && NoOverlap(q, a + x + b)
  {
    var r := a + x + b;
    forall j | 0 <= j < |r| ensures !Compatible(r[j..], q) {
      if j < |a| {
        assert r[j..][0] == a[j];
      } else if j < |a| + |x| {
        MiddleIncompatible(q, a, x, b, j);
      } else {
        assert r[j..][0] == b[j - |a| - |x|];
      }
    }
    forall k | 0 <= k < |q| ensures !Compatible(q[k..], r) {
      assert r[0] == a[0];
      assert q[k..][0] == q[k];
    }
  }

  /** Every frame is safe for, and never overlaps, an inert string that
      its body does not hold. */
  lemma {:induction false} FrameFramesInert(q: string, kind: Kind, body: string)
    requires Inert(q) && NoOcc(q, body)
    ensures Safe(q, Frame(kind, body)) && NoOverlap(q, Frame(kind, body))
  {
    InertAvoidsOpeners(q, kind);
    Framed(q, Opener(kind), body, Opener(kind));
  }

  /** Two compatible strings: the shorter one starts the longer one. */
  lemma {:induction false} CompatibleStarts(a: string, b: string)
    requires Compatible(a, b) && |a| <= |b|
    ensures OccursAt(a, b, 0)
  {
    assert b[..|a|] == a;
  }

  /** Two compatible tokens of one kind are the same token. */
  lemma {:induction false} SameKindCompatible(kind: Kind, m: nat, n: nat)
    requires Compatible(KindToken(kind, m), KindToken(kind, n))
    ensures m == n
  {
    PrefixesGood();
    var p, q := KindToken(kind, m), KindToken(kind, n);
    if |p| <= |q| {
      CompatibleStarts(p, q);
      TokenInToken(Prefix(kind), m, n, 0);
    } else {
      assert false;
    }
  }

  /** An inert string cannot be laid over another inert string from inside
      it, since only their first characters are brackets. */
  lemma {:induction false} InsideIncompatible(p: string, q: string, k: int)
    requires Inert(p) && Inert(q) && 0 < k < |q|
    ensures !Compatible(q[k..], p)
  {
    assert TokenTail(q[k]);
    assert q[k..][0] != p[0];
  }

  /** Tokens of one kind with different numbers never overlap. */
  lemma {:induction false} TokensNoOverlap(kind: Kind, m: nat, n: nat)
    requires m != n
    ensures NoOverlap(KindToken(kind, m), KindToken(kind, n))
  {
    PrefixesGood();
    var p, q := KindToken(kind, m), KindToken(kind, n);
    TokenInert(Prefix(kind), m);
    TokenInert(Prefix(kind), n);
    forall k | 0 <= k < |q| ensures !Compatible(q[k..], p) {
      if k == 0 {
        if Compatible(q, p) {
          SameKindCompatible(kind, n, m);
        }
      } else {
        InsideIncompatible(p, q, k);
      }
    }
    forall j | 0 <= j < |p| ensures !Compatible(p[j..], q) {
      if j == 0 {
        if Compatible(p, q) {
          SameKindCompatible(kind, m, n);
        }
      } else {
        InsideIncompatible(q, p, j);
      }
    }
  }

  /** Two inert strings that differ right after the bracket cannot be laid
      over each other at any offset. */
  lemma {:induction false} DifferentHeads(p: string, q: string)
    requires Inert(p) && Inert(q) && p[1] != q[1]
    ensures forall k | 0 <= k < |q| :: !Compatible(q[k..], p)
  {
    forall k | 0 <= k < |q| ensures !Compatible(q[k..], p) {
      if k == 0 {
        assert q[k..][1] != p[1];
      } else {
        InsideIncompatible(p, q, k);
      }
    }
  }

  /** A code token and a table token never overlap. */
  lemma {:induction false} KindsNoOverlap(m: nat, n: nat)
    ensures NoOverlap(KindToken(CodeKind, m), KindToken(TableKind, n))
    ensures NoOverlap(KindToken(TableKind, n), KindToken(CodeKind, m))
  {
    PrefixesGood();
    var c, t := KindToken(CodeKind, m), KindToken(TableKind, n);
    TokenInert(CodePrefix, m);
    TokenInert(TablePrefix, n);
    assert c[1] == CodePrefix[1] == 'C';
    assert t[1] == TablePrefix[1] == 'T';
    DifferentHeads(c, t);
    DifferentHeads(t, c);
  }

  // ---------------------------------------------------------------------
  // The rounds of one restore loop.
  // ---------------------------------------------------------------------

  /** No stored element holds `q`. */
  predicate BodiesAvoid(bodies: seq<string>, q: string) {
    forall k | 0 <= k < |bodies| :: NoOcc(q, bodies[k])
  }

  /** No stored element holds any of the tokens 1..n of a kind. */
  predicate TokenFree(bodies: seq<string>, kind: Kind, n: nat) {
    forall i | 1 <= i <= n :: BodiesAvoid(bodies, KindToken(kind, i))
  }

  lemma {:induction false} BodiesAvoidPrefix(bodies: seq<string>, q: string, m: nat)
    requires BodiesAvoid(bodies, q) && m <= |bodies|
    ensures BodiesAvoid(bodies[..m], q)
  {
    forall k | 0 <= k < m ensures NoOcc(q, bodies[..m][k]) {
      assert bodies[..m][k] == bodies[k];
    }
  }

  lemma {:induction false} TokenFreePrefix(bodies: seq<string>, kind: Kind, n: nat, m: nat)
    requires TokenFree(bodies, kind, n) && m <= |bodies|
    ensures TokenFree(bodies[..m], kind, n)
  {
    forall i | 1 <= i <= n ensures BodiesAvoid(bodies[..m], KindToken(kind, i)) {
      BodiesAvoidPrefix(bodies, KindToken(kind, i), m);
    }
  }

  /** The restore loop never creates an inert string that neither the
      content nor any stored element holds. */
  lemma {:induction false} RestoreKeepsAbsent(content: string, kind: Kind, bodies: seq<string>, q: string)
    requires Inert(q) && NoOcc(q, content) && BodiesAvoid(bodies, q)
    ensures NoOcc(q, RestoreKind(content, kind, bodies))
  {
    if |bodies| > 0 {
      var n := |bodies|;
      BodiesAvoidPrefix(bodies, q, n - 1);
      RestoreKeepsAbsent(content, kind, bodies[..n - 1], q);
      FrameFramesInert(q, kind, bodies[n - 1]);
      ReplaceKeepsAbsent(RestoreKind(content, kind, bodies[..n - 1]), KindToken(kind, n), Frame(kind, bodies[n - 1]), q);
    }
  }

  /** One round removes its own token for good and keeps every earlier
      token away. */
  lemma {:induction false} RoundClears(prev: string, kind: Kind, bodies: seq<string>, i: nat)
    requires |bodies| > 0 && 1 <= i <= |bodies|
    requires TokenFree(bodies, kind, |bodies|)
    requires i < |bodies| ==> NoOcc(KindToken(kind, i), prev)
    ensures var n := |bodies|;
      NoOcc(KindToken(kind, i), ReplaceAll(prev, KindToken(kind, n), Frame(kind, bodies[n - 1])))
  {
    var n := |bodies|;
    PrefixesGood();
    TokenInert(Prefix(kind), i);
    assert BodiesAvoid(bodies, KindToken(kind, i));
    FrameFramesInert(KindToken(kind, i), kind, bodies[n - 1]);
    ReplaceKeepsAbsent(prev, KindToken(kind, n), Frame(kind, bodies[n - 1]), KindToken(kind, i));
  }

  /** When no stored element holds a token of its kind, the restore loop
      leaves none of the tokens 1..n in the content. */
  lemma {:induction false} RestoreClears(content: string, kind: Kind, bodies: seq<string>)
    requires TokenFree(bodies, kind, |bodies|)
    ensures forall i | 1 <= i <= |bodies| :: NoOcc(KindToken(kind, i), RestoreKind(content, kind, bodies))
  {
    if |bodies| > 0 {
      var n := |bodies|;
      TokenFreePrefix(bodies, kind, n, n - 1);
      assert TokenFree(bodies[..n - 1], kind, n - 1);
      RestoreClears(content, kind, bodies[..n - 1]);
      forall i | 1 <= i <= n ensures NoOcc(KindToken(kind, i), RestoreKind(content, kind, bodies)) {
        RoundClears(RestoreKind(content, kind, bodies[..n - 1]), kind, bodies, i);
      }
    }
  }

  /** The restore loop keeps any string that no token of its kind can
      overlap. */
  lemma {:induction false} RestoreKeepsPresent(content: string, kind: Kind, bodies: seq<string>, q: string)
    requires forall i | 1 <= i <= |bodies| :: NoOverlap(KindToken(kind, i), q)
    requires Contains(content, q)
    ensures Contains(RestoreKind(content, kind, bodies), q)
  {
    if |bodies| > 0 {
      var n := |bodies|;
      RestoreKeepsPresent(content, kind, bodies[..n - 1], q);
      ReplaceKeepsContained(RestoreKind(content, kind, bodies[..n - 1]), KindToken(kind, n), Frame(kind, bodies[n - 1]), q);
    }
  }

  /** Token `k` of the content survives the rounds before its own. */
  lemma {:induction false} TokenReachesRound(content: string, kind: Kind, bodies: seq<string>, k: nat)
    requires 1 <= k <= |bodies| && Contains(content, KindToken(kind, k))
    ensures Contains(RestoreKind(content, kind, bodies[..k - 1]), KindToken(kind, k))
  {
    forall i | 1 <= i <= |bodies[..k - 1]| ensures NoOverlap(KindToken(kind, i), KindToken(kind, k)) {
      TokensNoOverlap(kind, i, k);
    }
    RestoreKeepsPresent(content, kind, bodies[..k - 1], KindToken(kind, k));
  }

  /** When no stored element holds a token of its kind, every element
      whose token is in the content shows up framed in the result. */
  lemma {:induction false} RestoreShows(content: string, kind: Kind, bodies: seq<string>, k: nat)
    requires TokenFree(bodies, kind, |bodies|)
    requires 1 <= k <= |bodies| && Contains(content, KindToken(kind, k))
    ensures Contains(RestoreKind(content, kind, bodies), Frame(kind, bodies[k - 1]))
  {
    var n := |bodies|;
    if k == n {
      LastRoundShows(content, kind, bodies);
    } else {
      var prev := RestoreKind(content, kind, bodies[..n - 1]);
      TokenFreePrefix(bodies, kind, n, n - 1);
      assert TokenFree(bodies[..n - 1], kind, n - 1);
      RestoreShows(content, kind, bodies[..n - 1], k);
      assert bodies[..n - 1][k - 1] == bodies[k - 1];
      LaterRoundKeepsFrame(prev, kind, bodies, k);
    }
  }

  /** The last token of the content is replaced by its frame in the last
      round. */
  lemma {:induction false} LastRoundShows(content: string, kind: Kind, bodies: seq<string>)
    requires |bodies| > 0 && Contains(content, KindToken(kind, |bodies|))
    ensures Contains(RestoreKind(content, kind, bodies), Frame(kind, bodies[|bodies| - 1]))
  {
    var n := |bodies|;
    var prev := RestoreKind(content, kind, bodies[..n - 1]);
    TokenReachesRound(content, kind, bodies, n);
    var j :| 0 <= j <= |prev| - |KindToken(kind, n)| && OccursAt(KindToken(kind, n), prev, j);
    ReplacementShows(prev, KindToken(kind, n), Frame(kind, bodies[n - 1]), j);
  }

  /** A later round cannot cut a frame whose body holds no token. */
  lemma {:induction false} LaterRoundKeepsFrame(prev: string, kind: Kind, bodies: seq<string>, k: nat)
    requires 1 <= k < |bodies| && TokenFree(bodies, kind, |bodies|)
    requires Contains(prev, Frame(kind, bodies[k - 1]))
    ensures var n := |bodies|;
      Contains(ReplaceAll(prev, KindToken(kind, n), Frame(kind, bodies[n - 1])), Frame(kind, bodies[k - 1]))
  {
    var n := |bodies|;
    PrefixesGood();
    TokenInert(Prefix(kind), n);
    assert BodiesAvoid(bodies, KindToken(kind, n));
    FrameFramesInert(KindToken(kind, n), kind, bodies[k - 1]);
    ReplaceKeepsContained(prev, KindToken(kind, n), Frame(kind, bodies[n - 1]), Frame(kind, bodies[k - 1]));
  }

  // ---------------------------------------------------------------------
  // Both loops.
  // ---------------------------------------------------------------------

  /** With tables restored before code blocks, no token is left, provided
      no code block holds any token and no table holds a table token; a
      table may hold code tokens. */
  lemma {:induction false} RestoreFixedClears(content: string, codes: seq<string>, tables: seq<string>)
    requires TokenFree(tables, TableKind, |tables|)
    requires TokenFree(codes, CodeKind, |codes|) && TokenFree(codes, TableKind, |tables|)
    ensures forall i | 1 <= i <= |codes| ::
      NoOcc(KindToken(CodeKind, i), RestoreFixed(content, codes, tables))
    ensures forall i | 1 <= i <= |tables| ::
      NoOcc(KindToken(TableKind, i), RestoreFixed(content, codes, tables))
  {
    var mid := RestoreKind(content, TableKind, tables);
    RestoreClears(content, TableKind, tables);
    RestoreClears(mid, CodeKind, codes);
    forall i | 1 <= i <= |tables|
      ensures NoOcc(KindToken(TableKind, i), RestoreKind(mid, CodeKind, codes))
    {
      PrefixesGood();
      TokenInert(TablePrefix, i);
      RestoreKeepsAbsent(mid, CodeKind, codes, KindToken(TableKind, i));
    }
  }

  /** With tables restored first, every code block whose token is in the
      content shows up fenced in the result. */
  lemma {:induction false} RestoreFixedShowsCode(content: string, codes: seq<string>, tables: seq<string>, k: nat)
    requires TokenFree(codes, CodeKind, |codes|)
    requires 1 <= k <= |codes| && Contains(content, KindToken(CodeKind, k))
    ensures Contains(RestoreFixed(content, codes, tables), Frame(CodeKind, codes[k - 1]))
  {
    forall i | 1 <= i <= |tables| ensures NoOverlap(KindToken(TableKind, i), KindToken(CodeKind, k)) {
      KindsNoOverlap(k, i);
    }
    RestoreKeepsPresent(content, TableKind, tables, KindToken(CodeKind, k));
    RestoreShows(RestoreKind(content, TableKind, tables), CodeKind, codes, k);
  }

  /** With tables restored first, every table whose token is in the content
      and whose text holds no code token shows up between line feeds. */
  lemma {:induction false} RestoreFixedShowsTable(content: string, codes: seq<string>, tables: seq<string>, k: nat)
    requires TokenFree(tables, TableKind, |tables|)
    requires 1 <= k <= |tables| && Contains(content, KindToken(TableKind, k))
    requires forall i | 1 <= i <= |codes| :: NoOcc(KindToken(CodeKind, i), tables[k - 1])
    ensures Contains(RestoreFixed(content, codes, tables), Frame(TableKind, tables[k - 1]))
  {
    RestoreShows(content, TableKind, tables, k);
    forall i | 1 <= i <= |codes| ensures NoOverlap(KindToken(CodeKind, i), Frame(TableKind, tables[k - 1])) {
      PrefixesGood();
      TokenInert(CodePrefix, i);
      FrameFramesInert(KindToken(CodeKind, i), TableKind, tables[k - 1]);
    }
    RestoreKeepsPresent(RestoreKind(content, TableKind, tables), CodeKind, codes, Frame(TableKind, tables[k - 1]));
  }

  /** The order as written clears every token as well, but only as long as
      no table holds a code token. */
  lemma {:induction false} RestoreAsWrittenClears(content: string, codes: seq<string>, tables: seq<string>)
    requires TokenFree(codes, CodeKind, |codes|)
    requires TokenFree(tables, TableKind, |tables|) && TokenFree(tables, CodeKind, |codes|)
    ensures forall i | 1 <= i <= |codes| ::
      NoOcc(KindToken(CodeKind, i), RestoreAsWritten(content, codes, tables))
    ensures forall i | 1 <= i <= |tables| ::
      NoOcc(KindToken(TableKind, i), RestoreAsWritten(content, codes, tables))
  {
    var mid := RestoreKind(content, CodeKind, codes);
    RestoreClears(content, CodeKind, codes);
    RestoreClears(mid, TableKind, tables);
    forall i | 1 <= i <= |codes|
      ensures NoOcc(KindToken(CodeKind, i), RestoreKind(mid, TableKind, tables))
    {
      PrefixesGood();
      TokenInert(CodePrefix, i);
      RestoreKeepsAbsent(mid, TableKind, tables, KindToken(CodeKind, i));
    }
  }

  /** In the order as written, every code block whose token is in the
      content shows up fenced in the result, provided that block holds no
      table token for the table loop to cut. */
  lemma {:induction false} RestoreAsWrittenShowsCode(content: string, codes: seq<string>, tables: seq<string>, k: nat)
    requires TokenFree(codes, CodeKind, |codes|)
    requires 1 <= k <= |codes| && Contains(content, KindToken(CodeKind, k))
    requires forall i | 1 <= i <= |tables| :: NoOcc(KindToken(TableKind, i), codes[k - 1])
    ensures Contains(RestoreAsWritten(content, codes, tables), Frame(CodeKind, codes[k - 1]))
  {
    RestoreShows(content, CodeKind, codes, k);
    forall i | 1 <= i <= |tables| ensures NoOverlap(KindToken(TableKind, i), Frame(CodeKind, codes[k - 1])) {
      PrefixesGood();
      TokenInert(TablePrefix, i);
      FrameFramesInert(KindToken(TableKind, i), CodeKind, codes[k - 1]);
    }
    RestoreKeepsPresent(RestoreKind(content, CodeKind, codes), TableKind, tables, Frame(CodeKind, codes[k - 1]));
  }

  /** In the order as written, every table whose token is in the content
      shows up between line feeds: the table loop runs last, so nothing can
      cut its frame afterwards. */
  lemma {:induction false} RestoreAsWrittenShowsTable(content: string, codes: seq<string>, tables: seq<string>, k: nat)
    requires TokenFree(tables, TableKind, |tables|)
    requires 1 <= k <= |tables| && Contains(content, KindToken(TableKind, k))
    ensures Contains(RestoreAsWritten(content, codes, tables), Frame(TableKind, tables[k - 1]))
  {
    forall i | 1 <= i <= |codes| ensures NoOverlap(KindToken(CodeKind, i), KindToken(TableKind, k)) {
      KindsNoOverlap(i, k);
    }
    RestoreKeepsPresent(content, CodeKind, codes, KindToken(TableKind, k));
    RestoreShows(RestoreKind(content, CodeKind, codes), TableKind, tables, k);
  }

  // ---------------------------------------------------------------------
  // A table that holds a code token.
  // ---------------------------------------------------------------------

  /** A string longer than a text does not occur in it. */
  lemma {:induction false} TooLong(q: string, s: string)
    requires |q| > |s|
    ensures NoOcc(q, s)
  {
  }

  /** A table token does not occur in a code token followed by a line
      feed. */
  lemma {:induction false} TableTokenNotInCodeRow(m: nat, n: nat)
    ensures NoOcc(KindToken(TableKind, m), KindToken(CodeKind, n) + "\n")
  {
    var t, c := KindToken(TableKind, m), KindToken(CodeKind, n);
    var s := c + "\n";
    KindsNoOverlap(n, m);
    PrefixesGood();
    TokenInert(TablePrefix, m);
    forall j | 0 <= j <= |s| - |t| ensures !OccursAt(t, s, j) {
      OccurrenceBeforeNewline(t, c, j);
    }
  }

  /** An occurrence of `t` in `c + "\n"` that starts inside `c` agrees
      with `c` from there on. */
  lemma {:induction false} OccurrenceBeforeNewline(t: string, c: string, j: int)
    requires 0 <= j < |c|
    ensures OccursAt(t, c + "\n", j) ==> Compatible(c[j..], t)
  {
    var s := c + "\n";
    if OccursAt(t, s, j) {
      forall k | 0 <= k < |c[j..]| && k < |t| ensures c[j..][k] == t[k] {
        assert s[j..j + |t|][k] == t[k];
      }
    }
  }

  /** A table whose text is a code token followed by a line feed: its
      frame holds the code token. */
  lemma {:induction false} FrameHoldsToken(n: nat)
    ensures Contains(Frame(TableKind, KindToken(CodeKind, n) + "\n"), KindToken(CodeKind, n))
  {
    var code := KindToken(CodeKind, n);
    var w := Frame(TableKind, code + "\n");
    assert w[1..1 + |code|] == code;
    assert OccursAt(code, w, 1);
  }

  /** The code loop leaves a content without code tokens alone. */
  lemma {:induction false} CodeRoundSkipsTable(codes: seq<string>)
    requires |codes| == 1
    ensures RestoreKind(KindToken(TableKind, 1), CodeKind, codes) == KindToken(TableKind, 1)
  {
    var table := KindToken(TableKind, 1);
    assert codes[..0] == [];
    CodeAndTableTokensApart(1, 1);
    ReplaceAbsent(table, KindToken(CodeKind, 1), Frame(CodeKind, codes[0]));
  }

  /** The table loop over a content that is just the table's token holds
      the framed table. */
  lemma {:induction false} TableRoundShows(tables: seq<string>)
    requires |tables| == 1
    ensures Contains(RestoreKind(KindToken(TableKind, 1), TableKind, tables), Frame(TableKind, tables[0]))
  {
    var table := KindToken(TableKind, 1);
    assert tables[..0] == [];
    assert RestoreKind(table, TableKind, tables[..0]) == table;
    assert RestoreKind(table, TableKind, tables) == ReplaceAll(table, table, Frame(TableKind, tables[0]));
    assert OccursAt(table, table, 0);
    ReplacementShows(table, table, Frame(TableKind, tables[0]), 0);
  }

  /** Lines 93-97 replace a code element inside a table cell by its token
      before line 100 renders the table, so the table's text can hold
      `[CODE_BLOCK_1]`. Restored as written, the code loop runs before the
      table's text is back in the content, and the token is left in the
      page. */
  lemma {:induction false} AsWrittenLeavesCodeToken()
    ensures var codes, tables := ["x"], [KindToken(CodeKind, 1) + "\n"];
      Contains(RestoreAsWritten(KindToken(TableKind, 1), codes, tables), KindToken(CodeKind, 1))
  {
    var code, table := KindToken(CodeKind, 1), KindToken(TableKind, 1);
    var codes, tables := ["x"], [code + "\n"];
    CodeRoundSkipsTable(codes);
    TableRoundShows(tables);
    FrameHoldsToken(1);
    ContainsTrans(RestoreKind(table, TableKind, tables), Frame(TableKind, code + "\n"), code);
  }

  /** The same page restored with tables first: no token is left, and the
      code block is in the result. */
  lemma {:induction false} FixedPutsCodeBack()
    ensures var codes, tables := ["x"], [KindToken(CodeKind, 1) + "\n"];
      var out := RestoreFixed(KindToken(TableKind, 1), codes, tables);
      NoOcc(KindToken(CodeKind, 1), out) && NoOcc(KindToken(TableKind, 1), out) &&
      Contains(out, Frame(CodeKind, "x"))
  {
    var code, table := KindToken(CodeKind, 1), KindToken(TableKind, 1);
    var codes, tables := ["x"], [code + "\n"];
    FixedClearsExample(codes, tables);
    TableRoundShows(tables);
    FrameHoldsToken(1);
    ContainsTrans(RestoreKind(table, TableKind, tables), Frame(TableKind, code + "\n"), code);
    RestoreShows(RestoreKind(table, TableKind, tables), CodeKind, codes, 1);
  }

  lemma {:induction false} FixedClearsExample(codes: seq<string>, tables: seq<string>)
    requires codes == ["x"] && tables == [KindToken(CodeKind, 1) + "\n"]
    ensures TokenFree(codes, CodeKind, 1) && TokenFree(codes, TableKind, 1)
    ensures TokenFree(tables, TableKind, 1)
    ensures var out := RestoreFixed(KindToken(TableKind, 1), codes, tables);
      NoOcc(KindToken(CodeKind, 1), out) && NoOcc(KindToken(TableKind, 1), out)
  {
    TooLong(KindToken(CodeKind, 1), "x");
    TooLong(KindToken(TableKind, 1), "x");
    TableTokenNotInCodeRow(1, 1);
    RestoreFixedClears(KindToken(TableKind, 1), codes, tables);
  }

  // ---------------------------------------------------------------------
  // The loops as written.
  // ---------------------------------------------------------------------

  /** One restore loop as written (lines 143-144 for code blocks, 147-148
      for tables). When no stored element holds a token of its kind, no
      token 1..n is left and every element whose token was in the content
      is in the result, framed. */
  method RestoreScan(content: string, kind: Kind, bodies: seq<string>) returns (r: string)
    ensures r == RestoreKind(content, kind, bodies)
    ensures TokenFree(bodies, kind, |bodies|) ==>
      forall i | 1 <= i <= |bodies| :: NoOcc(KindToken(kind, i), r)
    ensures TokenFree(bodies, kind, |bodies|) ==>
      forall k | 1 <= k <= |bodies| && Contains(content, KindToken(kind, k)) ::
        Contains(r, Frame(kind, bodies[k - 1]))
  {
    r := content;
    var i := 0;
    while i < |bodies|
      invariant 0 <= i <= |bodies|
      invariant r == RestoreKind(content, kind, bodies[..i])
    {
      assert bodies[..i + 1][..i] == bodies[..i];
      r := ReplaceAll(r, KindToken(kind, i + 1), Frame(kind, bodies[i]));
      i := i + 1;
    }
    assert bodies[..i] == bodies;
    if TokenFree(bodies, kind, |bodies|) {
      RestoreClears(content, kind, bodies);
      forall k | 1 <= k <= |bodies| && Contains(content, KindToken(kind, k))
        ensures Contains(r, Frame(kind, bodies[k - 1]))
      {
        RestoreShows(content, kind, bodies, k);
      }
    }
  }

  /** Lines 142-148 as written: the code loop, then the table loop. Every
      table whose token is in the content is shown; every code block whose
      token is in the content is shown unless it holds a table token; and
      no token is left as long as no table's text holds a code token. */
  method RestoreAsWrittenScan(content: string, codes: seq<string>, tables: seq<string>) returns (r: string)
    ensures r == RestoreAsWritten(content, codes, tables)
    ensures TokenFree(tables, TableKind, |tables|) ==>
      forall k | 1 <= k <= |tables| && Contains(content, KindToken(TableKind, k)) ::
        Contains(r, Frame(TableKind, tables[k - 1]))
    ensures TokenFree(codes, CodeKind, |codes|) ==>
      forall k | 1 <= k <= |codes| && Contains(content, KindToken(CodeKind, k)) &&
        (forall i | 1 <= i <= |tables| :: NoOcc(KindToken(TableKind, i), codes[k - 1])) ::
        Contains(r, Frame(CodeKind, codes[k - 1]))
    ensures (TokenFree(codes, CodeKind, |codes|) && TokenFree(tables, TableKind, |tables|) &&
             TokenFree(tables, CodeKind, |codes|)) ==>
      (forall i | 1 <= i <= |codes| :: NoOcc(KindToken(CodeKind, i), r)) &&
      (forall i | 1 <= i <= |tables| :: NoOcc(KindToken(TableKind, i), r))
  {
    r := RestoreScan(content, CodeKind, codes);
    r := RestoreScan(r, TableKind, tables);
    if TokenFree(tables, TableKind, |tables|) {
      forall k | 1 <= k <= |tables| && Contains(content, KindToken(TableKind, k))
        ensures Contains(r, Frame(TableKind, tables[k - 1]))
      {
        RestoreAsWrittenShowsTable(content, codes, tables, k);
      }
    }
    if TokenFree(codes, CodeKind, |codes|) {
      forall k | 1 <= k <= |codes| && Contains(content, KindToken(CodeKind, k)) &&
        (forall i | 1 <= i <= |tables| :: NoOcc(KindToken(TableKind, i), codes[k - 1]))
        ensures Contains(r, Frame(CodeKind, codes[k - 1]))
      {
        RestoreAsWrittenShowsCode(content, codes, tables, k);
      }
      if TokenFree(tables, TableKind, |tables|) && TokenFree(tables, CodeKind, |codes|) {
        RestoreAsWrittenClears(content, codes, tables);
      }
    }
  }
}
