/**
 * Properties of the joined-word repair of `clean_text`
 * (api-crawler/crawler.py lines 45-59): it only inserts spaces, exactly one
 * per lower-to-upper boundary, leaves no such boundary behind, is idempotent,
 * and neither creates nor breaks up strings of the right shape.
 */
module RepairFacts {
  import opened Chars
  import opened Strings
  import opened Normalizer

  /** Appending a character to a non-empty line appends it to the repaired
      line, after a space exactly when it ends a lower-to-upper boundary. */
  lemma {:induction false} RepairSnoc(x: string, c: char)
    requires |x| >= 1
    ensures Repair(x + [c]) ==
      Repair(x) + (if IsLower(x[|x| - 1]) && IsUpper(c) then " " else "") + [c]
  {
    BoundaryLast(x, c);
    RepairStep(x, c);
  }

  lemma {:induction false} RepairStep(x: string, c: char)
    requires |x| >= 1
    ensures Repair(x + [c]) == Repair(x) + (if Boundary(x + [c], |x|) then " " else "") + [c]
  {
    var s := x + [c];
    assert s[..|s| - 1] == x;
  }

  lemma {:induction false} BoundaryLast(x: string, c: char)
    requires |x| >= 1
    ensures Boundary(x + [c], |x|) <==> IsLower(x[|x| - 1]) && IsUpper(c)
  {
    var s := x + [c];
    assert s[|x|] == c && s[|x| - 1] == x[|x| - 1];
  }

  /** Number of lower-to-upper boundaries in `s`. */
  function Boundaries(s: string): nat
  {
    if |s| <= 1 then 0
    else Boundaries(s[..|s| - 1]) + (if Boundary(s, |s| - 1) then 1 else 0)
  }

  /** `s` with every space deleted. */
  function DropSpaces(s: string): string
  {
    if |s| == 0 then ""
    else DropSpaces(s[..|s| - 1]) + (if s[|s| - 1] == ' ' then "" else [s[|s| - 1]])
  }

  lemma {:induction false} DropSpacesAppend(a: string, b: string)
    ensures DropSpaces(a + b) == DropSpaces(a) + DropSpaces(b)
    decreases |b|
  {
    if |b| == 0 {
      assert a + b == a;
    } else {
      var b' := b[..|b| - 1];
      assert (a + b)[..|a + b| - 1] == a + b';
      assert (a + b)[|a + b| - 1] == b[|b| - 1];
      DropSpacesAppend(a, b');
    }
  }

  lemma {:induction false} DropSpacesSnoc(y: string, c: char)
    ensures DropSpaces(y + [c]) == DropSpaces(y) + (if c == ' ' then "" else [c])
  {
    assert (y + [c])[..|y|] == y;
  }

  /** The repair adds exactly one character per lower-to-upper boundary. */
  lemma {:induction false} RepairLength(s: string)
    ensures |Repair(s)| == |s| + Boundaries(s)
  {
    if |s| > 1 {
      RepairLength(s[..|s| - 1]);
    }
  }

  /** Deleting all spaces from the repaired line and from the line gives
      the same text: the repair changes nothing but spaces. */
  lemma {:induction false} RepairDropSpaces(s: string)
    ensures DropSpaces(Repair(s)) == DropSpaces(s)
  {
    if |s| > 1 {
      var s' := s[..|s| - 1];
      var c := s[|s| - 1];
      var sp := if Boundary(s, |s| - 1) then " " else "";
      var x := Repair(s');
      RepairDropSpaces(s');
      assert Repair(s) == (x + sp) + [c];
      DropSpacesSnoc(x + sp, c);
      DropSpacesAppend(x, sp);
      assert DropSpaces(sp) == "";
    }
  }

  /** The repaired line is the line with exactly `Boundaries(s)` spaces
      added and nothing else changed. */
  lemma {:induction false} RepairInsertsOnlySpaces(s: string)
    ensures |Repair(s)| == |s| + Boundaries(s)
    ensures DropSpaces(Repair(s)) == DropSpaces(s)
  {
    RepairLength(s);
    RepairDropSpaces(s);
  }

  /** After the repair no lower-case letter is directly followed by an
      upper-case one. */
  lemma {:induction false} RepairNoBoundary(s: string)
    ensures NoBoundary(Repair(s))
  {
    if |s| > 1 {
      var s' := s[..|s| - 1];
      var c := s[|s| - 1];
      var sp := if Boundary(s, |s| - 1) then " " else "";
      RepairNoBoundary(s');
      var x := Repair(s');
      var out := Repair(s);
      assert out == x + sp + [c];
      forall i | 0 < i < |out| ensures !Boundary(out, i) {
        if i < |x| {
          assert out[i - 1] == x[i - 1] && out[i] == x[i];
          assert !Boundary(x, i);
        } else if i == |x| {
          assert out[i - 1] == x[|x| - 1] == s'[|s'| - 1] == s[|s| - 2];
        }
      }
    }
  }

  /** A line without boundaries is left alone. */
  lemma {:induction false} RepairBoundaryFree(s: string)
    requires NoBoundary(s)
    ensures Repair(s) == s
  {
    if |s| > 1 {
      var s' := s[..|s| - 1];
      assert NoBoundary(s') by {
        forall i | 0 < i < |s'| ensures !Boundary(s', i) {
          assert !Boundary(s, i);
        }
      }
      RepairBoundaryFree(s');
      assert !Boundary(s, |s| - 1);
      assert s == s' + [s[|s| - 1]];
    }
  }

  /** The repair is idempotent. */
  lemma {:induction false} RepairIdempotent(s: string)
    ensures Repair(Repair(s)) == Repair(s)
  {
    RepairNoBoundary(s);
    RepairBoundaryFree(Repair(s));
  }

  /** "GetStarted" becomes "Get Started". */
  lemma {:induction false} RepairGetStarted()
    ensures Repair("GetStarted") == "Get Started"
  {
    GetIsWord();
    StartedIsWord();
    RepairAcrossBoundary("Get", "Started");
    assert "Get" + "Started" == "GetStarted";
    assert "Get" + " " + "Started" == "Get Started";
  }

  lemma {:induction false} GetIsWord()
    ensures Repair("Get") == "Get"
  {
    assert NoBoundary("Get") by {
      forall i | 0 < i < 3 ensures !Boundary("Get", i) {
        assert "Get"[i] != 'G';
      }
    }
    RepairBoundaryFree("Get");
  }

  lemma {:induction false} StartedIsWord()
    ensures NoBoundary("Started")
  {
    forall i | 0 < i < 7 ensures !IsUpper("Started"[i]) {
    }
  }

  /** "RESTApi" is not split inside the acronym: the only lower-to-upper
      step would need a lower-case letter before the 'A'. */
  lemma {:induction false} RepairRestApi()
    ensures Repair("RESTApi") == "RESTApi"
  {
    assert NoBoundary("RESTApi") by {
      forall i | 0 < i < 7 ensures !Boundary("RESTApi", i) {
        if i <= 4 {
          assert !IsLower("RESTApi"[i - 1]);
        } else {
          assert !IsUpper("RESTApi"[i]);
        }
      }
    }
    RepairBoundaryFree("RESTApi");
  }

  /** "JSONData" is not split either. */
  lemma {:induction false} RepairJsonData()
    ensures Repair("JSONData") == "JSONData"
  {
    assert NoBoundary("JSONData") by {
      forall i | 0 < i < 8 ensures !Boundary("JSONData", i) {
        if i <= 5 {
          assert !IsLower("JSONData"[i - 1]);
        } else {
          assert !IsUpper("JSONData"[i]);
        }
      }
    }
    RepairBoundaryFree("JSONData");
  }

  /** Joining two boundary-free words at a boundary inserts one space. */
  lemma {:induction false} RepairAcrossBoundary(a: string, b: string)
    requires |a| > 0 && |b| > 0 && IsLower(a[|a| - 1]) && IsUpper(b[0])
    requires Repair(a) == a && NoBoundary(b)
    ensures Repair(a + b) == a + " " + b
  {
    RepairAcrossPrefix(a, b, |b|);
    assert b[..|b|] == b;
  }

  /** The first character of `b` after `a` gets a space before it. */
  lemma {:induction false} RepairAcrossFirst(a: string, b: string)
    requires |a| > 0 && |b| > 0 && IsLower(a[|a| - 1]) && IsUpper(b[0])
    requires Repair(a) == a
    ensures Repair(a + b[..1]) == a + " " + b[..1]
  {
    assert a + b[..1] == a + [b[0]];
    RepairSnoc(a, b[0]);
  }

  lemma {:induction false} RepairAcrossPrefix(a: string, b: string, k: int)
    requires |a| > 0 && |b| > 0 && IsLower(a[|a| - 1]) && IsUpper(b[0])
    requires Repair(a) == a && NoBoundary(b)
    requires 1 <= k <= |b|
    ensures Repair(a + b[..k]) == a + " " + b[..k]
  {
    if k == 1 {
      RepairAcrossFirst(a, b);
    } else {
      RepairAcrossPrefix(a, b, k - 1);
      RepairAcrossStep(a, b, k);
    }
  }

  /** One more boundary-free character after the space adds no space. */
  lemma {:induction false} RepairAcrossStep(a: string, b: string, k: int)
    requires NoBoundary(b) && 2 <= k <= |b|
    requires Repair(a + b[..k - 1]) == a + " " + b[..k - 1]
    ensures Repair(a + b[..k]) == a + " " + b[..k]
  {
    var x := a + b[..k - 1];
    assert a + b[..k] == x + [b[k - 1]];
    RepairSnoc(x, b[k - 1]);
    assert x[|x| - 1] == b[k - 2];
    assert !Boundary(b, k - 1);
    assert b[..k] == b[..k - 1] + [b[k - 1]];
  }

  /** No space in `t` is directly followed by an upper-case letter. */
  predicate NoSpaceBeforeUpper(t: string) {
    forall i | 0 <= i < |t| - 1 :: t[i] == ' ' ==> !IsUpper(t[i + 1])
  }

  lemma {:induction false} SpaceNotBeforeUpper(t: string, i: int)
    requires NoSpaceBeforeUpper(t) && 0 <= i < |t| - 1
    ensures t[i] == ' ' ==> !IsUpper(t[i + 1])
  {
  }

  lemma {:induction false} NoBoundaryPrefix(t: string)
    requires |t| > 0 && NoBoundary(t)
    ensures NoBoundary(t[..|t| - 1])
  {
    var t' := t[..|t| - 1];
    forall i | 0 < i < |t'| ensures !Boundary(t', i) {
      assert t'[i - 1] == t[i - 1] && t'[i] == t[i];
      assert !Boundary(t, i);
    }
  }

  lemma {:induction false} NoSpaceBeforeUpperPrefix(t: string)
    requires |t| > 0 && NoSpaceBeforeUpper(t)
    ensures NoSpaceBeforeUpper(t[..|t| - 1])
  {
    var t' := t[..|t| - 1];
    forall i | 0 <= i < |t'| - 1 ensures t'[i] == ' ' ==> !IsUpper(t'[i + 1]) {
      assert t'[i] == t[i] && t'[i + 1] == t[i + 1];
    }
  }

  /** A non-empty string that does not end in a space and has no space
      before an upper-case letter: the repair cannot manufacture such a
      string out of the spaces it inserts. */
  predicate RepairSafe(q: string) {
    |q| > 0 && q[|q| - 1] != ' ' && NoSpaceBeforeUpper(q)
  }

  /** A suffix of the repaired line without a space before an upper-case
      letter was already a suffix of the line. */
  lemma {:induction false} SuffixBack(s: string, t: string)
    requires NoSpaceBeforeUpper(t) && EndsWith(Repair(s), t)
    ensures EndsWith(s, t)
    decreases |t|, 1
  {
    if |t| > 0 && |s| > 1 {
      if Boundary(s, |s| - 1) {
        SuffixBackAtBoundary(s, t);
      } else {
        SuffixBackPlain(s, t);
      }
    }
  }

  /** Where the repair put a space before the last character, a suffix
      without a space before an upper-case letter is that character alone. */
  lemma {:induction false} SuffixBackAtBoundary(s: string, t: string)
    requires |t| > 0 && |s| > 1 && Boundary(s, |s| - 1)
    requires NoSpaceBeforeUpper(t) && EndsWith(Repair(s), t)
    ensures EndsWith(s, t)
  {
    var s' := s[..|s| - 1];
    var c := s[|s| - 1];
    var x := Repair(s');
    assert Repair(s) == (x + " ") + [c];
    SuffixPeel(x + " ", c, t);
    SpaceBeforeLast(x, t);
    assert s[|s| - 1..] == t;
  }

  /** A suffix of `x + " " + [c]` longer than one character has the space
      next to last. */
  lemma {:induction false} SpaceBeforeLast(x: string, t: string)
    requires |t| >= 1 && EndsWith(x + " ", t[..|t| - 1])
    ensures |t| >= 2 ==> t[|t| - 2] == ' '
  {
    if |t| >= 2 {
      SuffixPeel(x, ' ', t[..|t| - 1]);
    }
  }

  /** Where the repair put no space before the last character, the suffix
      minus its last character comes back from the rest of the line. */
  lemma {:induction false} SuffixBackPlain(s: string, t: string)
    requires |t| > 0 && |s| > 1 && !Boundary(s, |s| - 1)
    requires NoSpaceBeforeUpper(t) && EndsWith(Repair(s), t)
    ensures EndsWith(s, t)
    decreases |t|, 0
  {
    var s' := s[..|s| - 1];
    var c := s[|s| - 1];
    var x := Repair(s');
    assert Repair(s) == x + [c];
    SuffixPeel(x, c, t);
    var t' := t[..|t| - 1];
    NoSpaceBeforeUpperPrefix(t);
    SuffixBack(s', t');
    SuffixGlue(s, t);
  }

  /** An occurrence that ends at the very end of the repaired line was
      already an occurrence in the line. */
  lemma {:induction false} TailOccurrenceBack(s: string, q: string)
    requires RepairSafe(q) && OccursAt(q, Repair(s), |Repair(s)| - |q|)
    ensures OccursAt(q, s, |s| - |q|)
  {
    SuffixBack(s, q);
  }

  /** The repair never creates an occurrence of a `RepairSafe` string:
      in particular none of the substitution patterns. */
  lemma {:induction false} RepairKeepsAbsent(s: string, q: string)
    requires RepairSafe(q) && NoOcc(q, s)
    ensures NoOcc(q, Repair(s))
  {
    if |s| > 1 {
      var s' := s[..|s| - 1];
      var c := s[|s| - 1];
      var sp := if Boundary(s, |s| - 1) then " " else "";
      NoOccPrefix(q, s, |s| - 1);
      RepairKeepsAbsent(s', q);
      var x := Repair(s');
      var out := Repair(s);
      assert out == x + sp + [c];
      forall j | 0 <= j <= |out| - |q| ensures !OccursAt(q, out, j) {
        if OccursAt(q, out, j) {
          if j + |q| <= |x| {
            assert x[j..j + |q|] == out[j..j + |q|];
            assert OccursAt(q, x, j);
          } else if j + |q| < |out| {
            assert false;
          } else {
            TailOccurrenceBack(s, q);
          }
        }
      }
    }
  }

  /** Repairing a prefix of a line gives a prefix of the repaired line. */
  lemma {:induction false} RepairPrefix(s: string, m: int)
    requires 0 <= m <= |s|
    ensures |Repair(s[..m])| <= |Repair(s)|
    ensures Repair(s)[..|Repair(s[..m])|] == Repair(s[..m])
  {
    if m == |s| {
      assert s[..m] == s;
    } else if |s| > 1 {
      var s' := s[..|s| - 1];
      assert s[..m] == s'[..m];
      RepairPrefix(s', m);
      assert Repair(s) == Repair(s') + (if Boundary(s, |s| - 1) then " " else "") + [s[|s| - 1]];
    }
  }

  /** A boundary-free suffix of the line is still a suffix after the
      repair. */
  lemma {:induction false} SuffixKept(s: string, t: string)
    requires NoBoundary(t) && EndsWith(s, t)
    ensures EndsWith(Repair(s), t)
  {
    if |t| > 0 && |s| > 1 {
      var s' := s[..|s| - 1];
      var c := s[|s| - 1];
      var sp := if Boundary(s, |s| - 1) then " " else "";
      var x := Repair(s');
      var t' := t[..|t| - 1];
      SuffixPeelLast(s, t);
      assert Repair(s) == (x + sp) + [c];
      if |t| >= 2 {
        SuffixPeelLast(s', t');
        assert t'[|t'| - 1] == t[|t| - 2];
        assert !Boundary(t, |t| - 1);
        assert sp == "";
        NoBoundaryPrefix(t);
        SuffixKept(s', t');
      }
      SuffixGlueSnoc(x + sp, c, t);
    }
  }

  /** A boundary-free string survives the repair wherever it occurs. */
  lemma {:induction false} RepairKeepsPresent(s: string, q: string, j: int)
    requires NoBoundary(q) && OccursAt(q, s, j)
    ensures Contains(Repair(s), q)
  {
    var m := j + |q|;
    assert EndsWith(s[..m], q) by {
      assert s[..m][m - |q|..] == s[j..j + |q|];
    }
    SuffixKept(s[..m], q);
    RepairPrefix(s, m);
    var p := Repair(s[..m]);
    var out := Repair(s);
    assert out[|p| - |q|..|p|] == p[|p| - |q|..];
    assert OccursAt(q, out, |p| - |q|);
  }
}
