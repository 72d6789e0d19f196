/** What `parse_func` returns, stated without its scan: it fails exactly
    when the source does not start with `func(` or the parentheses opened
    there never close, it never passes on an error from `parse_params`, and
    the parameter list it hands over is always wrapped in parentheses. */
module FuncFacts {
  import opened PyStr
  import opened GoCode
  import opened ParamsFacts

  /** Read from an opening parenthesis, the depth stays positive up to the
      first point where it returns to 0; that point is a ')' read at depth 1. */
  lemma ClosingIsParen(t: string, k: nat)
    requires t != [] && t[0] == '(' && Closing(t) == Some(k)
    ensures 1 <= k < |t| && t[k] == ')'
    ensures Depth(t[..k]) == 1
    ensures forall m :: 0 < m <= k ==> Depth(t[..m]) > 0
  {
    ClosingSpec(t);
    DepthNext(t, 0);
    assert t[..0] == [];
    DepthPositive(t, k, k);
    DepthNext(t, k);
  }

  /** The induction behind `ClosingIsParen`: the depth after each of the
      first `j` characters is positive. */
  lemma {:induction false} DepthPositive(t: string, k: nat, j: nat)
    requires t != [] && t[0] == '(' && k < |t| && j <= k
    requires forall m :: 0 < m <= k ==> Depth(t[..m]) != 0
    ensures forall m :: 0 < m <= j ==> Depth(t[..m]) > 0
  {
    if j == 1 {
      DepthNext(t, 0);
      assert t[..0] == [];
    } else if j > 1 {
      DepthPositive(t, k, j - 1);
      DepthNext(t, j - 1);
    }
  }

  /** `parse_func` hands `parse_params` a text that starts with '(' and ends
      with ')', so the only error it ever raises is its own. */
  lemma FuncErrorIsInvalidFunction(src: string)
    ensures ParsedFunc(src).Err? ==> ParsedFunc(src).error == InvalidFunction(src)
  {
    if "func(" <= src && Closing(src[4..]).Some? {
      var t, k := src[4..], Closing(src[4..]).value;
      ClosingIsParen(t, k);
      assert src[4..4 + k + 1] == t[..k + 1];
    }
  }

  /** `parse_func` fails exactly when `src` does not start with `func(`, or
      the depth counted from that '(' never returns to 0. */
  lemma FuncFailsIff(src: string)
    ensures ParsedFunc(src).Err? <==>
      !("func(" <= src) || forall m :: 4 < m <= |src| ==> Depth(src[4..m]) != 0
  {
    FuncErrorIsInvalidFunction(src);
    if "func(" <= src {
      var t := src[4..];
      ClosingSpec(t);
      assert forall m :: 4 < m <= |src| ==> src[4..m] == t[..m - 4];
      if Closing(t).Some? {
        var k := Closing(t).value;
        ClosingIsParen(t, k);
        assert src[4..4 + k + 1] == t[..k + 1];
      }
    }
  }

  /** When the depth first returns to 0 after index `i`, `parse_func`
      succeeds: its parameters are those `parse_params` reads from
      `src[4..i + 1]`, and its result is the rest of `src`, stripped. */
  lemma FuncSucceedsAt(src: string, i: nat)
    requires "func(" <= src && 4 <= i < |src|
    requires Depth(src[4..i + 1]) == 0
    requires forall m :: 4 < m <= i ==> Depth(src[4..m]) != 0
    ensures src[i] == ')'
    ensures ParsedFunc(src) ==
      Ok(Signature(Grouped(Decls(src[4..i + 1], i + 1 - 4)), Strip(src[i + 1..])))
  {
    var t := src[4..];
    assert forall m :: 0 < m <= i + 1 - 4 ==> t[..m] == src[4..4 + m];
    ClosingAt(t, i - 4);
    ClosingIsParen(t, i - 4);
    ParsedParamsSpec(src[4..i + 1]);
    assert src[4..i + 1] == t[..i - 4 + 1];
  }
}
