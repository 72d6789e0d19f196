/** The Go function-signature splitter: `parse_func` splits the text of a
    Go function type into its parameters and its return-type text, and
    `parse_params` decomposes a parenthesised parameter list into
    (name, type) pairs. Each is modelled twice: as a specification
    function and as a method that runs the source's loop, proved equal. */
module GoCode {
  import opened PyStr

  datatype Option<T> = None | Some(value: T)

  /** One parameter of the result: its name and the text of its type. */
  datatype Param = Param(name: string, typ: string)

  /** One comma-separated declaration of a parameter list, after it is
      stripped and split at its first space; `typ` is empty when the
      declaration is a bare name (the `a` of `a, b int`). */
  datatype Decl = Decl(name: string, typ: string)

  /** What `parse_func` returns: the parameters and the return-type text. */
  datatype Signature = Signature(params: seq<Param>, result: string)

  /** The source's `Error` exception, with the text it complains about. */
  datatype Error =
    | InvalidFunction(source: string)  // "invalid function source: ..."
    | InvalidParams(source: string)    // "invalid params: ..."

  datatype Result<T> = Ok(value: T) | Err(error: Error)

  // ---------------------------------------------------------------------
  // Parenthesis depth

  /** How reading `c` moves the depth counter: up on `(`, down on `)`. */
  function Delta(c: char): int {
    if c == '(' then 1 else if c == ')' then -1 else 0
  }

  /** The depth counter after reading all of `s`, starting from 0: the
      number of `(` in `s` minus the number of `)`. */
  function Depth(s: string): int {
    if s == [] then 0 else Delta(s[0]) + Depth(s[1..])
  }

  /** Reading one more character moves the depth by that character's delta. */
  lemma {:induction false} DepthSnoc(s: string, c: char)
    ensures Depth(s + [c]) == Depth(s) + Delta(c)
  {
    if s != [] {
      assert (s + [c])[1..] == s[1..] + [c];
      DepthSnoc(s[1..], c);
    }
  }

  lemma DepthNext(s: string, i: nat)
    requires i < |s|
    ensures Depth(s[..i + 1]) == Depth(s[..i]) + Delta(s[i])
  {
    assert s[..i + 1] == s[..i] + [s[i]];
    DepthSnoc(s[..i], s[i]);
  }

  // ---------------------------------------------------------------------
  // parse_params

  /** Index `i` of `src` ends a declaration: it holds ',' or ')' and the
      depth before it is exactly 1, so it is not inside a nested type. */
  predicate IsBoundary(src: string, i: nat)
    requires i < |src|
  {
    (src[i] == ',' || src[i] == ')') && Depth(src[..i]) == 1
  }

  /** Where the next declaration begins once the first `n` characters are
      read (the source's `lastI`): just past the last boundary read, or
      index 1 when there is none yet. */
  function NextStart(src: string, n: nat): (start: nat)
    requires n <= |src|
    ensures 1 <= start <= if n == 0 then 1 else n
  {
    if n == 0 then 1
    else if IsBoundary(src, n - 1) then n
    else NextStart(src, n - 1)
  }

  /** One declaration's text, stripped and split at its first space. */
  function Declare(segment: string): Decl {
    var (name, typ) := Partition(Strip(segment));
    Decl(name, typ)
  }

  /** The declarations closed by a boundary among the first `n`
      characters, each stripped and split, in source order. */
  function Decls(src: string, n: nat): seq<Decl>
    requires n <= |src|
  {
    if n == 0 then []
    else if IsBoundary(src, n - 1) then
      Decls(src, n - 1) + [Declare(src[NextStart(src, n - 1)..n - 1])]
    else
      Decls(src, n - 1)
  }

  /** Parameters emitted so far and names still waiting for a type. */
  datatype Pending = Pending(emitted: seq<Param>, names: seq<string>)

  /** Every name of `names`, in order, paired with `typ`. */
  function Typed(names: seq<string>, typ: string): seq<Param> {
    seq(|names|, k requires 0 <= k < |names| => Param(names[k], typ))
  }

  /** The backfill step for one declaration: buffer its name; when it has
      a type, emit every buffered name with that type and clear the buffer. */
  function Absorb(st: Pending, d: Decl): Pending {
    var names := st.names + [d.name];
    if d.typ != "" then Pending(st.emitted + Typed(names, d.typ), [])
    else Pending(st.emitted, names)
  }

  /** The backfill state after absorbing `ds` from left to right. */
  function Fold(ds: seq<Decl>): Pending {
    if ds == [] then Pending([], []) else Absorb(Fold(ds[..|ds| - 1]), ds[|ds| - 1])
  }

  /** The parameters that the declarations `ds` produce; names still
      buffered at the end are dropped. */
  function Backfill(ds: seq<Decl>): seq<Param> {
    Fold(ds).emitted
  }

  /** The list shape `parse_params` demands: `(` first and `)` last. */
  predicate ParenShaped(src: string) {
    |src| > 0 && src[0] == '(' && src[|src| - 1] == ')'
  }

  /** What `parse_params(src)` returns or raises. */
  function ParsedParams(src: string): Result<seq<Param>> {
    if ParenShaped(src) then Ok(Backfill(Decls(src, |src|)))
    else Err(InvalidParams(src))
  }

  lemma FoldSnoc(ds: seq<Decl>, d: Decl)
    ensures Fold(ds + [d]) == Absorb(Fold(ds), d)
  {
    assert (ds + [d])[..|ds|] == ds;
  }

  lemma TypedNext(names: seq<string>, k: nat, typ: string)
    requires k < |names|
    ensures Typed(names[..k + 1], typ) == Typed(names[..k], typ) + [Param(names[k], typ)]
  {
  }

  /** How reading `src[i]` changes the scan state of `parse_params`. */
  lemma ScanNext(src: string, i: nat)
    requires i < |src|
    ensures Depth(src[..i + 1]) == Depth(src[..i]) + Delta(src[i])
    ensures NextStart(src, i + 1) == if IsBoundary(src, i) then i + 1 else NextStart(src, i)
    ensures Fold(Decls(src, i + 1)) ==
      if IsBoundary(src, i) then
        Absorb(Fold(Decls(src, i)), Declare(src[NextStart(src, i)..i]))
      else
        Fold(Decls(src, i))
  {
    DepthNext(src, i);
    if IsBoundary(src, i) {
      FoldSnoc(Decls(src, i), Declare(src[NextStart(src, i)..i]));
    }
  }

  /** The inner loop of `parse_params`: every buffered name is emitted with
      `typ`, in order, and the buffer ends empty. The source rebinds the
      buffer inside this loop but goes on iterating over the list it
      started with. */
  method EmitGroup(ret: seq<Param>, names: seq<string>, typ: string)
      returns (ret': seq<Param>, names': seq<string>)
    ensures ret' == ret + Typed(names, typ) && names' == []
  {
    var group := names;
    ret', names' := ret, names;
    var k := 0;
    while k < |group|
      invariant 0 <= k <= |group|
      invariant ret' == ret + Typed(group[..k], typ)
      invariant names' == if k == 0 then group else []
    {
      TypedNext(group, k, typ);
      ret' := ret' + [Param(group[k], typ)];
      names' := [];
      k := k + 1;
    }
    assert group[..k] == group;
  }

  /** `parse_params`, as the source runs it: one left-to-right scan that
      keeps the depth, the start of the current declaration (`lastI`),
      the buffer of untyped names and the list of emitted parameters. */
  method ParseParams(src: string) returns (r: Result<seq<Param>>)
    ensures r == ParsedParams(src)
  {
    if !(|src| > 0 && src[0] == '(' && src[|src| - 1] == ')') {
      return Err(InvalidParams(src));
    }
    var ret: seq<Param> := [];
    var depth := 0;
    var lastI := 1;
    var names: seq<string> := [];
    var i := 0;
    while i < |src|
      invariant 0 <= i <= |src|
      invariant depth == Depth(src[..i])
      invariant lastI == NextStart(src, i)
      invariant Pending(ret, names) == Fold(Decls(src, i))
    {
      ScanNext(src, i);
      var c := src[i];
      if (c == ',' || c == ')') && depth == 1 {
        var (name, typ) := Partition(Strip(src[lastI..i]));
        ghost var before := Pending(ret, names);
        names := names + [name];
        lastI := i + 1;
        if typ != "" {
          ret, names := EmitGroup(ret, names, typ);
        }
        assert Pending(ret, names) == Absorb(before, Decl(name, typ));
      }
      if c == '(' {
        depth := depth + 1;
      } else if c == ')' {
        depth := depth - 1;
      }
      i := i + 1;
    }
    assert src[..i] == src;
    return Ok(ret);
  }

  // ---------------------------------------------------------------------
  // parse_func

  /** The first index `k` of `t` after which the depth of `t` read from
      its start is 0, if there is one. */
  function Closing(t: string): (r: Option<nat>)
    ensures r.Some? ==> r.value < |t|
  {
    if t == [] then None
    else match Closing(t[..|t| - 1])
      case Some(k) => Some(k)
      case None => if Depth(t) == 0 then Some(|t| - 1) else None
  }

  /** `Closing` finds the first index at which the depth returns to 0, and
      finds nothing exactly when the depth never does. */
  lemma {:induction false} ClosingSpec(t: string)
    ensures Closing(t).Some? ==>
      Closing(t).value < |t| && Depth(t[..Closing(t).value + 1]) == 0
    ensures forall n :: 0 < n <= |t| && (Closing(t).None? || n <= Closing(t).value) ==>
      Depth(t[..n]) != 0
  {
    if t != [] {
      var p := t[..|t| - 1];
      ClosingSpec(p);
      assert forall n :: 0 <= n <= |p| ==> p[..n] == t[..n];
      assert t[..|t|] == t;
    }
  }

  /** What `parse_func(src)` returns or raises: the parameter list is the
      text from the `(` after `func` to the parenthesis that brings the
      depth back to 0; what follows it, stripped, is the return type. */
  function ParsedFunc(src: string): Result<Signature> {
    if !("func(" <= src) then Err(InvalidFunction(src))
    else match Closing(src[4..])
      case None => Err(InvalidFunction(src))
      case Some(k) =>
        match ParsedParams(src[4..4 + k + 1])
        case Err(e) => Err(e)
        case Ok(params) => Ok(Signature(params, Strip(src[4 + k + 1..])))
  }

  /** `parse_func`, as the source runs it: scan from the `(` after `func`,
      update the depth, and stop at the first character after which it
      is 0. */
  method ParseFunc(src: string) returns (r: Result<Signature>)
    ensures r == ParsedFunc(src)
  {
    if !("func(" <= src) {
      return Err(InvalidFunction(src));
    }
    var start := |"func"|;
    ghost var t := src[start..];
    var depth := 0;
    var i := start;
    while i < |src|
      invariant start <= i <= |src|
      invariant depth == Depth(t[..i - start])
      invariant forall m :: 0 < m <= i - start ==> Depth(t[..m]) != 0
    {
      ClosingNext(t, i - start);
      if src[i] == '(' {
        depth := depth + 1;
      } else if src[i] == ')' {
        depth := depth - 1;
      }
      if depth == 0 {
        ParsedFuncAt(src, i);
        var params := ParseParams(src[start..i + 1]);
        match params {
          case Err(e) => return Err(e);
          case Ok(ps) => return Ok(Signature(ps, Strip(src[i + 1..])));
        }
      }
      i := i + 1;
    }
    assert t[..i - start] == t;
    ClosingNone(t);
    return Err(InvalidFunction(src));
  }

  /** Once `Closing` has found index `i` of `src`, `parse_func` returns
      what `parse_params` makes of `src[4..i + 1]`, with the rest of `src`
      stripped. */
  lemma ParsedFuncAt(src: string, i: nat)
    requires "func(" <= src && 4 <= i < |src|
    requires Closing(src[4..]) == Some(i - 4)
    ensures ParsedFunc(src) == match ParsedParams(src[4..i + 1])
      case Err(e) => Err(e)
      case Ok(ps) => Ok(Signature(ps, Strip(src[i + 1..])))
  {
  }

  /** How reading `t[n]` changes the scan state of `parse_func`, while the
      depth has not yet returned to 0. */
  lemma ClosingNext(t: string, n: nat)
    requires n < |t|
    requires forall m :: 0 < m <= n ==> Depth(t[..m]) != 0
    ensures Depth(t[..n + 1]) == Depth(t[..n]) + Delta(t[n])
    ensures Depth(t[..n + 1]) == 0 ==> Closing(t) == Some(n)
  {
    DepthNext(t, n);
    if Depth(t[..n + 1]) == 0 {
      ClosingAt(t, n);
    }
  }

  /** The first zero of the depth is what `Closing` finds. */
  lemma ClosingAt(t: string, k: nat)
    requires k < |t|
    requires forall m :: 0 < m <= k ==> Depth(t[..m]) != 0
    requires Depth(t[..k + 1]) == 0
    ensures Closing(t) == Some(k)
  {
    ClosingSpec(t);
  }

  /** When the depth never returns to 0, `Closing` finds nothing. */
  lemma ClosingNone(t: string)
    requires forall m :: 0 < m <= |t| ==> Depth(t[..m]) != 0
    ensures Closing(t) == None
  {
    ClosingSpec(t);
  }
}
