/**
 * Properties of the blank-line collapse of `clean_text`
 * (api-crawler/crawler.py lines 61-66): no two blank lines end up next to
 * each other, the non-blank lines are kept one for one and in order, every
 * kept line comes from the input, and input that has no double blank line
 * is left alone.
 */
module SqueezeFacts {
  import opened Normalizer

  /** No blank line directly follows another. */
  predicate NoDoubleBlank(ls: seq<string>) {
    forall i | 0 <= i < |ls| - 1 :: !(ls[i] == "" && ls[i + 1] == "")
  }

  /** The non-blank lines of `ls`, in order. */
  function NonBlank(ls: seq<string>): seq<string>
  {
    if |ls| == 0 then []
    else NonBlank(ls[..|ls| - 1]) + (if ls[|ls| - 1] == "" then [] else [ls[|ls| - 1]])
  }

  lemma {:induction false} NonBlankSnoc(ls: seq<string>, x: string)
    ensures NonBlank(ls + [x]) == NonBlank(ls) + (if x == "" then [] else [x])
  {
    assert (ls + [x])[..|ls|] == ls;
  }

  lemma {:induction false} SqueezeNoDoubleBlank(ls: seq<string>)
    ensures NoDoubleBlank(Squeeze(ls))
  {
    if |ls| > 0 {
      var n := |ls|;
      var init := ls[..n - 1];
      SqueezeNoDoubleBlank(init);
      var r0 := Squeeze(init);
      var r := Squeeze(ls);
      if !(ls[n - 1] == "" && n >= 2 && ls[n - 2] == "") {
        assert r == r0 + [ls[n - 1]];
        forall i | 0 <= i < |r| - 1 ensures !(r[i] == "" && r[i + 1] == "") {
          if i < |r0| - 1 {
            assert r[i] == r0[i] && r[i + 1] == r0[i + 1];
          } else if n >= 2 {
            assert r[i] == r0[|r0| - 1] == init[n - 2];
          }
        }
      }
    }
  }

  /** A list without double blank lines is its own collapse. */
  lemma {:induction false} SqueezeFixed(ls: seq<string>)
    requires NoDoubleBlank(ls)
    ensures Squeeze(ls) == ls
  {
    if |ls| > 0 {
      var n := |ls|;
      var init := ls[..n - 1];
      assert NoDoubleBlank(init) by {
        forall i | 0 <= i < |init| - 1 ensures !(init[i] == "" && init[i + 1] == "") {
          assert init[i] == ls[i] && init[i + 1] == ls[i + 1];
        }
      }
      SqueezeFixed(init);
      if n >= 2 {
        assert !(ls[n - 2] == "" && ls[n - 1] == "");
      }
      assert init + [ls[n - 1]] == ls;
    }
  }

  /** The collapse drops blank lines only: the non-blank lines of the
      output are exactly those of the input. */
  lemma {:induction false} SqueezeNonBlank(ls: seq<string>)
    ensures NonBlank(Squeeze(ls)) == NonBlank(ls)
  {
    if |ls| > 0 {
      var n := |ls|;
      var init := ls[..n - 1];
      SqueezeNonBlank(init);
      var r0 := Squeeze(init);
      var last := ls[n - 1];
      assert init + [last] == ls;
      NonBlankSnoc(init, last);
      if last == "" && n >= 2 && ls[n - 2] == "" {
        assert Squeeze(ls) == r0;
      } else {
        assert Squeeze(ls) == r0 + [last];
        NonBlankSnoc(r0, last);
      }
    }
  }

  /** Every line of the output is a line of the input. */
  lemma {:induction false} SqueezeFromInput(ls: seq<string>)
    ensures forall x | x in Squeeze(ls) :: x in ls
  {
    if |ls| > 0 {
      var n := |ls|;
      var init := ls[..n - 1];
      SqueezeFromInput(init);
      forall x | x in Squeeze(ls) ensures x in ls {
        if x in Squeeze(init) {
          assert x in init;
        } else {
          assert x == ls[n - 1];
        }
      }
    }
  }

  /** A non-blank input line is in the output. */
  lemma {:induction false} SqueezeKeepsLine(ls: seq<string>, k: int)
    requires 0 <= k < |ls| && ls[k] != ""
    ensures exists i :: 0 <= i < |Squeeze(ls)| && Squeeze(ls)[i] == ls[k]
  {
    var n := |ls|;
    var init := ls[..n - 1];
    if k == n - 1 {
      assert Squeeze(ls)[|Squeeze(ls)| - 1] == ls[k];
    } else {
      assert init[k] == ls[k];
      SqueezeKeepsLine(init, k);
      var i :| 0 <= i < |Squeeze(init)| && Squeeze(init)[i] == ls[k];
      assert Squeeze(ls)[i] == Squeeze(init)[i];
    }
  }

  /** Because `prev_empty` starts out false, a blank first line is kept,
      and it stays apart from the first non-blank line that follows it. */
  lemma {:induction false} LeadingBlankKept(ls: seq<string>, k: int)
    requires 0 < k < |ls| && ls[0] == "" && ls[k] != ""
    ensures |Squeeze(ls)| >= 2 && Squeeze(ls)[0] == ""
  {
    SqueezeKeepsLine(ls, k);
  }
}
