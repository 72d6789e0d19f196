/** Parameter lists written out from their declarations, and what
    `parse_params` and `parse_func` read back from them: the scan splits a
    list exactly at the commas placed between declarations, however deeply
    parenthesised the declarations themselves are. */
module Rendering {
  import opened PyStr
  import opened GoCode
  import opened ParamsFacts

  // ---------------------------------------------------------------------
  // Depth of concatenated text

  /** Depth adds up over concatenation. */
  lemma {:induction false} DepthConcat(a: string, b: string)
    ensures Depth(a + b) == Depth(a) + Depth(b)
  {
    if a == [] {
      assert a + b == b;
    } else {
      DepthConcat(a[1..], b);
      assert (a + b)[0] == a[0];
      assert (a + b)[1..] == a[1..] + b;
    }
  }

  /** Text without parentheses has depth 0. */
  lemma {:induction false} DepthFlat(s: string)
    requires '(' !in s && ')' !in s
    ensures Depth(s) == 0
  {
    if s != [] {
      DepthFlat(s[1..]);
    }
  }

  // ---------------------------------------------------------------------
  // Text that can form one declaration

  /** Text that can stand for one declaration inside a parameter list: its
      parentheses balance, and each ',' and ')' in it lies inside a
      parenthesis opened within the text, so none of them ends the
      declaration. */
  predicate Nested(s: string) {
    Depth(s) == 0 &&
    forall n :: 0 <= n < |s| && (s[n] == ',' || s[n] == ')') ==> Depth(s[..n]) > 0
  }

  /** In nested text the depth never drops below 0. */
  lemma {:induction false} NestedPrefix(s: string, n: nat)
    requires Nested(s) && n <= |s|
    ensures Depth(s[..n]) >= 0
  {
    if n > 0 {
      NestedPrefix(s, n - 1);
      DepthNext(s, n - 1);
    }
  }

  /** Text with no parenthesis and no comma is nested. */
  lemma FlatNested(s: string)
    requires '(' !in s && ')' !in s && ',' !in s
    ensures Nested(s)
  {
    DepthFlat(s);
  }

  /** Nested texts put side by side are nested. */
  lemma NestedConcat(a: string, b: string)
    requires Nested(a) && Nested(b)
    ensures Nested(a + b)
  {
    var s := a + b;
    DepthConcat(a, b);
    forall n | 0 <= n < |s| && (s[n] == ',' || s[n] == ')')
      ensures Depth(s[..n]) > 0
    {
      if n >= |a| {
        assert s[..n] == a + b[..n - |a|];
        assert s[n] == b[n - |a|];
        DepthConcat(a, b[..n - |a|]);
      } else {
        assert s[..n] == a[..n];
      }
    }
  }

  /** Text whose depth never drops below 0 and ends at 0 is nested once
      wrapped in parentheses: inside them, every ',' and ')' is at depth at
      least 1. */
  lemma NestedWrap(s: string)
    requires Depth(s) == 0
    requires forall n :: 0 <= n <= |s| ==> Depth(s[..n]) >= 0
    ensures Nested("(" + s + ")")
  {
    var w := "(" + s + ")";
    DepthConcat("(", s);
    DepthConcat("(" + s, ")");
    forall n | 0 <= n < |w| && (w[n] == ',' || w[n] == ')')
      ensures Depth(w[..n]) > 0
    {
      if n > 0 {
        assert w[..n] == "(" + s[..n - 1];
        DepthConcat("(", s[..n - 1]);
      }
    }
  }

  // ---------------------------------------------------------------------
  // Parameter lists

  /** Declaration texts joined by commas. */
  function Body(texts: seq<string>): string
    requires |texts| >= 1
  {
    if |texts| == 1 then texts[0]
    else Body(texts[..|texts| - 1]) + "," + texts[|texts| - 1]
  }

  /** A parameter list: declaration texts joined by commas, in parentheses.
      `()` is the list of the single empty text. */
  function Render(texts: seq<string>): string
    requires |texts| >= 1
  {
    "(" + Body(texts) + ")"
  }

  /** The declarations the texts stand for. */
  function DeclareAll(texts: seq<string>): (ds: seq<Decl>)
    ensures |ds| == |texts|
  {
    seq(|texts|, k requires 0 <= k < |texts| => Declare(texts[k]))
  }

  /** The raw text of each declaration `parse_params` reads among the
      first `n` characters of `src`, before it is stripped and split. */
  ghost function Segments(src: string, n: nat): seq<string>
    requires n <= |src|
  {
    if n == 0 then []
    else if IsBoundary(src, n - 1) then Segments(src, n - 1) + [src[NextStart(src, n - 1)..n - 1]]
    else Segments(src, n - 1)
  }

  /** The declarations read are the raw texts, each stripped and split. */
  lemma {:induction false} DeclsOfSegments(src: string, n: nat)
    requires n <= |src|
    ensures Decls(src, n) == DeclareAll(Segments(src, n))
  {
    if n > 0 {
      DeclsOfSegments(src, n - 1);
      if IsBoundary(src, n - 1) {
        DeclareAllSnoc(Segments(src, n));
        assert Segments(src, n)[..|Segments(src, n)| - 1] == Segments(src, n - 1);
      }
    }
  }

  /** The joined text ends with the last declaration text. */
  lemma BodyEnds(texts: seq<string>)
    requires |texts| >= 1
    ensures |texts[|texts| - 1]| <= |Body(texts)|
    ensures Body(texts)[|Body(texts)| - |texts[|texts| - 1]|..] == texts[|texts| - 1]
  {
  }

  /** Reading a character that is not a boundary leaves the declarations
      read so far and the start of the current one as they were. */
  lemma StepInside(src: string, i: nat)
    requires i < |src| && !IsBoundary(src, i)
    ensures Segments(src, i + 1) == Segments(src, i)
    ensures NextStart(src, i + 1) == NextStart(src, i)
    ensures Depth(src[..i + 1]) == Depth(src[..i]) + Delta(src[i])
  {
    DepthNext(src, i);
  }

  /** Reading a ',' or ')' at depth 1 declares the text since the start of
      the current declaration and starts the next one after it. */
  lemma StepBoundary(src: string, i: nat)
    requires i < |src| && (src[i] == ',' || src[i] == ')') && Depth(src[..i]) == 1
    ensures IsBoundary(src, i)
    ensures Segments(src, i + 1) == Segments(src, i) + [src[NextStart(src, i)..i]]
    ensures NextStart(src, i + 1) == i + 1
    ensures Depth(src[..i + 1]) == if src[i] == ',' then 1 else 0
  {
    DepthNext(src, i);
  }

  /** Adding one more text adds its declaration. */
  lemma DeclareAllSnoc(texts: seq<string>)
    requires |texts| >= 1
    ensures DeclareAll(texts) ==
      DeclareAll(texts[..|texts| - 1]) + [Declare(texts[|texts| - 1])]
  {
  }

  /** Scanning nested text at depth 1 right after a boundary finds no
      boundary in it: the declarations read so far and the start of the
      current one stay as they were, and the depth is back to 1 at its end
      without ever dropping below 1. */
  lemma {:induction false} ScanNested(src: string, s: nat, t: string, o: nat)
    requires 1 <= s && o <= |t| && s + |t| <= |src| && src[s..s + |t|] == t
    requires Nested(t)
    requires Depth(src[..s]) == 1 && NextStart(src, s) == s
    ensures Segments(src, s + o) == Segments(src, s)
    ensures NextStart(src, s + o) == s
    ensures Depth(src[..s + o]) == 1 + Depth(t[..o])
    ensures forall m :: s <= m <= s + o ==> Depth(src[..m]) >= 1
  {
    if o > 0 {
      ScanNested(src, s, t, o - 1);
      var i := s + o - 1;
      assert src[i] == t[o - 1];
      NestedPrefix(t, o - 1);
      NestedPrefix(t, o);
      DepthNext(t, o - 1);
      StepInside(src, i);
    }
  }

  /** Reading `"(" + Body(texts)`, which ends before index `e`, declares
      every text but the last, leaves the last one pending from its start,
      and keeps the depth at 1 or more after the opening parenthesis. */
  lemma {:induction false} ScanBody(src: string, texts: seq<string>, e: nat)
    requires |texts| >= 1 && forall k :: 0 <= k < |texts| ==> Nested(texts[k])
    requires e == 1 + |Body(texts)| <= |src| && src[0] == '(' && src[1..e] == Body(texts)
    ensures Segments(src, e) == texts[..|texts| - 1]
    ensures NextStart(src, e) == e - |texts[|texts| - 1]|
    ensures Depth(src[..e]) == 1
    ensures forall m :: 0 < m <= e ==> Depth(src[..m]) >= 1
  {
    var last := texts[|texts| - 1];
    if |texts| == 1 {
      ScanOpen(src);
      ScanNested(src, 1, last, |last|);
      assert last[..|last|] == last;
      assert texts[..0] == [];
    } else {
      var p := texts[..|texts| - 1];
      var d := 1 + |Body(p)|;
      assert Body(texts) == Body(p) + "," + last;
      assert src[1..d] == src[1..e][..|Body(p)|] == Body(p);
      ScanBody(src, p, d);
      ScanBodyStep(src, texts, e, d);
    }
  }

  /** The step of `ScanBody` from all texts but the last to all of them. */
  lemma ScanBodyStep(src: string, texts: seq<string>, e: nat, d: nat)
    requires |texts| >= 2 && forall k :: 0 <= k < |texts| ==> Nested(texts[k])
    requires e == 1 + |Body(texts)| <= |src| && src[0] == '(' && src[1..e] == Body(texts)
    requires d == 1 + |Body(texts[..|texts| - 1])|
    requires Segments(src, d) == texts[..|texts| - 2]
    requires NextStart(src, d) == d - |texts[|texts| - 2]|
    requires Depth(src[..d]) == 1
    requires forall m :: 0 < m <= d ==> Depth(src[..m]) >= 1
    ensures Segments(src, e) == texts[..|texts| - 1]
    ensures NextStart(src, e) == e - |texts[|texts| - 1]|
    ensures Depth(src[..e]) == 1
    ensures forall m :: 0 < m <= e ==> Depth(src[..m]) >= 1
  {
    var last := texts[|texts| - 1];
    var p := texts[..|texts| - 1];
    assert p[..|p| - 1] == texts[..|texts| - 2] && p[|p| - 1] == texts[|texts| - 2];
    var whole := src[1..e];
    assert Body(texts) == Body(p) + "," + last;
    BodyEnds(p);
    assert src[d] == whole[|Body(p)|] == ',';
    assert src[d + 1..d + 1 + |last|] == whole[|Body(p)| + 1..] == last;
    assert src[1..d] == whole[..|Body(p)|] == Body(p);
    assert src[d - |p[|p| - 1]|..d] == src[1..d][|Body(p)| - |p[|p| - 1]|..];
    ScanComma(src, d, p, last);
    assert e == d + 1 + |last|;
    forall m | 0 < m <= e ensures Depth(src[..m]) >= 1 {
      if m > d {
        assert d < m <= d + 1 + |last|;
      }
    }
  }

  /** Reading a ',' at depth 1 and then nested text: the declaration
      pending before the comma is added, and the text after it becomes the
      pending one. */
  lemma ScanComma(src: string, e: nat, done: seq<string>, t: string)
    requires |done| >= 1 && e < |src| && src[e] == ',' && Depth(src[..e]) == 1
    requires |done[|done| - 1]| <= e
    requires src[e - |done[|done| - 1]|..e] == done[|done| - 1]
    requires Segments(src, e) == done[..|done| - 1]
    requires NextStart(src, e) == e - |done[|done| - 1]|
    requires e + 1 + |t| <= |src| && src[e + 1..e + 1 + |t|] == t && Nested(t)
    ensures Segments(src, e + 1 + |t|) == done
    ensures NextStart(src, e + 1 + |t|) == e + 1
    ensures Depth(src[..e + 1 + |t|]) == 1
    ensures forall m :: e < m <= e + 1 + |t| ==> Depth(src[..m]) >= 1
  {
    StepBoundary(src, e);
    assert done[..|done| - 1] + [done[|done| - 1]] == done;
    ScanNested(src, e + 1, t, |t|);
    assert t[..|t|] == t;
  }

  /** Reading the opening parenthesis declares nothing and enters depth 1. */
  lemma ScanOpen(src: string)
    requires src != [] && src[0] == '('
    ensures Segments(src, 1) == [] && NextStart(src, 1) == 1 && Depth(src[..1]) == 1
  {
    assert src[..0] == [];
    StepInside(src, 0);
  }

  /** `parse_params` splits a rendered list of nested texts exactly into
      those texts, so it reads back the declarations they stand for; the
      depth stays positive until the closing parenthesis, where it returns
      to 0. */
  lemma RenderDecls(texts: seq<string>)
    requires |texts| >= 1 && forall k :: 0 <= k < |texts| ==> Nested(texts[k])
    ensures Segments(Render(texts), |Render(texts)|) == texts
    ensures Decls(Render(texts), |Render(texts)|) == DeclareAll(texts)
    ensures Depth(Render(texts)) == 0
    ensures forall m :: 0 < m < |Render(texts)| ==> Depth(Render(texts)[..m]) >= 1
  {
    var src := Render(texts);
    var e := 1 + |Body(texts)|;
    assert src[1..e] == Body(texts);
    ScanBody(src, texts, e);
    BodyEnds(texts);
    StepBoundary(src, e);
    var last := texts[|texts| - 1];
    assert src[e - |last|..e] == last;
    assert texts[..|texts| - 1] + [last] == texts;
    assert src[..e + 1] == src;
    DeclsOfSegments(src, |src|);
  }

  /** What `parse_params` returns for a rendered list: the backfilled
      declarations of its texts. */
  lemma ParamsOfRender(texts: seq<string>)
    requires |texts| >= 1 && forall k :: 0 <= k < |texts| ==> Nested(texts[k])
    ensures ParsedParams(Render(texts)) == Ok(Backfill(DeclareAll(texts)))
  {
    RenderDecls(texts);
  }

  /** What `parse_func` returns for `func`, a rendered list and any text
      after it: the backfilled declarations, and that text stripped. */
  lemma FuncOfRender(texts: seq<string>, rest: string)
    requires |texts| >= 1 && forall k :: 0 <= k < |texts| ==> Nested(texts[k])
    ensures ParsedFunc("func" + Render(texts) + rest) ==
      Ok(Signature(Backfill(DeclareAll(texts)), Strip(rest)))
  {
    var r := Render(texts);
    var src := "func" + r + rest;
    var t := src[4..];
    assert t == r + rest;
    assert "func(" <= src;
    RenderDecls(texts);
    assert forall m :: 0 < m <= |r| ==> t[..m] == r[..m];
    ClosingAt(t, |r| - 1);
    assert src[4..4 + |r|] == r;
    assert src[4 + |r|..] == rest;
    ParamsOfRender(texts);
  }

  /** `FuncOfRender`, for a source given as a whole that is `func`, a
      rendered list and some text after it. */
  lemma FuncOfParts(src: string, texts: seq<string>, rest: string)
    requires |texts| >= 1 && forall k :: 0 <= k < |texts| ==> Nested(texts[k])
    requires src == "func" + Render(texts) + rest
    ensures ParsedFunc(src) == Ok(Signature(Backfill(DeclareAll(texts)), Strip(rest)))
  {
    FuncOfRender(texts, rest);
  }

  /** `ParamsOfRender`, for a source given as a whole. */
  lemma ParamsOfParts(src: string, texts: seq<string>)
    requires |texts| >= 1 && forall k :: 0 <= k < |texts| ==> Nested(texts[k])
    requires src == Render(texts)
    ensures ParsedParams(src) == Ok(Backfill(DeclareAll(texts)))
  {
    ParamsOfRender(texts);
  }

  // ---------------------------------------------------------------------
  // One declaration per parameter

  /** `Strip` gives back text that neither starts nor ends with whitespace,
      whatever whitespace is put in front of it. */
  lemma {:induction false} StripAfterSpace(ws: string, s: string)
    requires AllSpace(ws) && s != [] && !IsSpace(s[0]) && !IsSpace(s[|s| - 1])
    ensures Strip(ws + s) == s
  {
    if ws != [] {
      assert (ws + s)[0] == ws[0] && IsSpace(ws[0]);
      assert (ws + s)[1..] == ws[1..] + s;
      assert AllSpace(ws[1..]) by {
        forall i | 0 <= i < |ws| - 1 ensures IsSpace(ws[1..][i]) {
          assert ws[1..][i] == ws[i + 1];
        }
      }
      StripAfterSpace(ws[1..], s);
    } else {
      assert ws + s == s;
    }
  }

  /** `partition(" ")` splits at a space that follows a space-free head. */
  lemma {:induction false} PartitionAt(a: string, b: string)
    requires ' ' !in a
    ensures Partition(a + " " + b) == (a, b)
  {
    var s := a + " " + b;
    if a == [] {
      assert s[0] == ' ' && s[1..] == b;
    } else {
      assert s[0] == a[0] != ' ';
      assert s[1..] == a[1..] + " " + b;
      assert ' ' !in a[1..] by {
        forall i | 0 <= i < |a| - 1 ensures a[1..][i] != ' ' {
          assert a[1..][i] == a[i + 1];
        }
      }
      PartitionAt(a[1..], b);
      assert a == [a[0]] + a[1..];
    }
  }

  /** A declaration text with a name and a type: whatever whitespace comes
      first is stripped, and the split is at the space after the name. */
  lemma DeclareTyped(ws: string, name: string, typ: string)
    requires AllSpace(ws) && name != [] && ' ' !in name && !IsSpace(name[0])
    requires typ != [] && !IsSpace(typ[|typ| - 1])
    ensures Declare(ws + name + " " + typ) == Decl(name, typ)
  {
    var s := name + " " + typ;
    assert s[0] == name[0] && s[|s| - 1] == typ[|typ| - 1];
    assert ws + name + " " + typ == ws + s;
    StripAfterSpace(ws, s);
    PartitionAt(name, typ);
  }

  /** A declaration text with a name only: it declares that name untyped. */
  lemma DeclareUntyped(ws: string, name: string)
    requires AllSpace(ws) && name != [] && ' ' !in name
    requires !IsSpace(name[0]) && !IsSpace(name[|name| - 1])
    ensures Declare(ws + name) == Decl(name, "")
  {
    StripAfterSpace(ws, name);
    PartitionSpec(name);
  }

  /** Every prefix of text without parentheses has depth 0. */
  lemma FlatPrefixes(s: string)
    requires '(' !in s && ')' !in s
    ensures forall n :: 0 <= n <= |s| ==> Depth(s[..n]) == 0
  {
    forall n | 0 <= n <= |s| ensures Depth(s[..n]) == 0 {
      assert forall c :: c in s[..n] ==> c in s;
      DepthFlat(s[..n]);
    }
  }

  /** A parameter that `parse_params` can read back: a name without spaces
      and a type, both non-empty, neither with whitespace at the outer ends,
      and both nested. */
  predicate Readable(p: Param) {
    p.name != [] && p.typ != [] && ' ' !in p.name
    && !IsSpace(p.name[0]) && !IsSpace(p.typ[|p.typ| - 1])
    && Nested(p.name) && Nested(p.typ)
  }

  /** The declaration text of one parameter: its name, a space, its type. */
  function Text(p: Param): string {
    p.name + " " + p.typ
  }

  /** Each readable parameter is declared back from its text. */
  lemma DeclareText(p: Param)
    requires Readable(p)
    ensures Declare(Text(p)) == Decl(p.name, p.typ)
    ensures Nested(Text(p))
  {
    TextStripped(p);
    PartitionAt(p.name, p.typ);
    NestedText(p);
  }

  /** The text of a readable parameter is its own stripped form. */
  lemma TextStripped(p: Param)
    requires Readable(p)
    ensures Strip(Text(p)) == Text(p)
  {
    var s := Text(p);
    assert s[0] == p.name[0] && s[|s| - 1] == p.typ[|p.typ| - 1];
    StripAfterSpace("", s);
    assert "" + s == s;
  }

  /** The text of a readable parameter is nested. */
  lemma NestedText(p: Param)
    requires Readable(p)
    ensures Nested(Text(p))
  {
    FlatNested(" ");
    NestedConcat(p.name, " ");
    NestedConcat(p.name + " ", p.typ);
  }

  /** When every declaration is typed, each is emitted as it stands. */
  lemma {:induction false} BackfillAllTyped(ds: seq<Decl>)
    requires forall k :: 0 <= k < |ds| ==> ds[k].typ != ""
    ensures Fold(ds).names == []
    ensures Backfill(ds) == seq(|ds|, k requires 0 <= k < |ds| => Param(ds[k].name, ds[k].typ))
  {
    if ds != [] {
      var p, d := ds[..|ds| - 1], ds[|ds| - 1];
      assert ds == p + [d];
      BackfillAllTyped(p);
      BackfillTypedGroup(p, d);
    }
  }

  /** The declaration texts of `ps`, one per parameter. */
  function Texts(ps: seq<Param>): (texts: seq<string>)
    ensures |texts| == |ps|
  {
    seq(|ps|, k requires 0 <= k < |ps| => Text(ps[k]))
  }

  /** A parameter list written the way Go prints one, each parameter with
      its own type; the empty list is `()`. */
  function Format(ps: seq<Param>): string {
    if ps == [] then "()" else Render(Texts(ps))
  }

  /** The texts of readable parameters are nested and declare them back. */
  lemma DeclareTexts(ps: seq<Param>)
    requires forall k :: 0 <= k < |ps| ==> Readable(ps[k])
    ensures forall k :: 0 <= k < |ps| ==>
      Nested(Texts(ps)[k]) && DeclareAll(Texts(ps))[k] == Decl(ps[k].name, ps[k].typ)
  {
    forall k | 0 <= k < |ps|
      ensures Nested(Texts(ps)[k]) && DeclareAll(Texts(ps))[k] == Decl(ps[k].name, ps[k].typ)
    {
      DeclareText(ps[k]);
    }
  }

  /** `parse_params` reads back every list of readable parameters that
      `Format` writes. */
  lemma FormatRoundTrip(ps: seq<Param>)
    requires forall k :: 0 <= k < |ps| ==> Readable(ps[k])
    ensures ParsedParams(Format(ps)) == Ok(ps)
  {
    if ps == [] {
      EmptyList();
    } else {
      DeclareTexts(ps);
      ParamsOfRender(Texts(ps));
      BackfillOfTexts(ps);
    }
  }

  /** Backfilling the declarations of readable parameters gives them back. */
  lemma BackfillOfTexts(ps: seq<Param>)
    requires forall k :: 0 <= k < |ps| ==> Readable(ps[k])
    ensures Backfill(DeclareAll(Texts(ps))) == ps
  {
    var ds := DeclareAll(Texts(ps));
    DeclareTexts(ps);
    BackfillAllTyped(ds);
    var emitted := Backfill(ds);
    assert |emitted| == |ps|;
    forall k | 0 <= k < |ps| ensures emitted[k] == ps[k] {
      assert emitted[k] == Param(ds[k].name, ds[k].typ);
    }
  }

  /** `()` holds no parameter: its one declaration is empty and untyped. */
  lemma EmptyList()
    ensures ParsedParams("()") == Ok([])
  {
    FlatNested("");
    ParamsOfRender([""]);
    assert Render([""]) == "()";
    BackfillDropsUntyped([], "");
    assert [] + [Decl("", "")] == DeclareAll([""]);
  }
}
