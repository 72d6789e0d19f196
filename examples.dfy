/** The examples in the docstrings of `parse_func` and `parse_params`, and
    the edge cases where the code decides what the documentation leaves
    open. Each is proved for symbolic names, types and result texts of the
    shape of the example; the short ones are then proved again for the
    literal text of the docstring, fixed by a precondition. */
module DocExamples {
  import opened PyStr
  import opened GoCode
  import opened ParamsFacts
  import opened FuncFacts
  import opened Rendering

  // ---------------------------------------------------------------------
  // Shapes of the examples

  /** A parameter name as Go writes it: non-empty, without spaces, not
      starting or ending with whitespace, and nested. */
  predicate Word(s: string) {
    s != [] && ' ' !in s && !IsSpace(s[0]) && !IsSpace(s[|s| - 1]) && Nested(s)
  }

  /** A type as Go writes it: non-empty, not ending with whitespace, and
      nested. */
  predicate TypeText(t: string) {
    t != [] && !IsSpace(t[|t| - 1]) && Nested(t)
  }

  /** Text that `strip` leaves as it is. */
  predicate Stripped(s: string) {
    s != [] && !IsSpace(s[0]) && !IsSpace(s[|s| - 1])
  }

  /** The declaration `" name type"` that follows a comma. */
  lemma SpacedDecl(name: string, typ: string)
    requires Word(name) && TypeText(typ)
    ensures Nested(" " + name + " " + typ)
    ensures Declare(" " + name + " " + typ) == Decl(name, typ)
  {
    FlatNested(" ");
    NestedConcat(" ", name);
    NestedConcat(" " + name, " ");
    NestedConcat(" " + name + " ", typ);
    DeclareTyped(" ", name, typ);
  }

  /** The result text after the space that follows `)`. */
  lemma StripSpaced(r: string)
    requires Stripped(r)
    ensures Strip(" " + r) == r
  {
    StripAfterSpace(" ", r);
  }

  /** A type with one parenthesised part, such as a function type: the
      commas and the `)` inside it do not end a declaration. */
  lemma WrappedType(p: string, q: string, r: string)
    requires '(' !in p && ')' !in p && ',' !in p
    requires '(' !in q && ')' !in q
    requires '(' !in r && ')' !in r && ',' !in r
    ensures Nested(p + "(" + q + ")" + r)
  {
    Parenthesised(q);
    FlatNested(p);
    FlatNested(r);
    var w := "(" + q + ")";
    NestedConcat(p, w);
    NestedConcat(p + w, r);
    assert p + w + r == p + "(" + q + ")" + r;
  }

  /** Text without parentheses is nested once wrapped in them. */
  lemma Parenthesised(q: string)
    requires '(' !in q && ')' !in q
    ensures Nested("(" + q + ")")
  {
    FlatPrefixes(q);
    DepthFlat(q);
    NestedWrap(q);
  }

  // ---------------------------------------------------------------------
  // One parameter: `(a int)` and `func(a int) error`

  /** The list `(a T)`. */
  function SingleList(a: string, t: string): string {
    "(" + a + " " + t + ")"
  }

  lemma SingleDecl(a: string, t: string)
    requires Word(a) && TypeText(t)
    ensures Nested(a + " " + t)
    ensures Render([a + " " + t]) == SingleList(a, t)
    ensures Backfill(DeclareAll([a + " " + t])) == [Param(a, t)]
  {
    DeclareText(Param(a, t));
    assert Body([a + " " + t]) == a + " " + t;
    assert DeclareAll([a + " " + t]) == [] + [Decl(a, t)];
    BackfillTypedGroup([], Decl(a, t));
  }

  /** `parse_params` on `(a T)` returns the one parameter. */
  lemma SingleParams(src: string, a: string, t: string)
    requires Word(a) && TypeText(t)
    requires src == SingleList(a, t)
    ensures ParsedParams(src) == Ok([Param(a, t)])
  {
    SingleDecl(a, t);
    ParamsOfParts(src, [a + " " + t]);
    var ps := Backfill(DeclareAll([a + " " + t]));
    assert ps == [Param(a, t)];
  }

  /** The first docstring example of `parse_params`. */
  lemma GoSingleParams(src: string)
    requires src == "(a int)"
    ensures ParsedParams(src) == Ok([Param("a", "int")])
  {
    FlatNested("a");
    FlatNested("int");
    SingleParams(src, "a", "int");
  }

  /** `parse_func` on `func(a T) R` returns the one parameter and `R`. */
  lemma SingleFunc(src: string, a: string, t: string, r: string)
    requires Word(a) && TypeText(t) && Stripped(r)
    requires src == "func" + SingleList(a, t) + " " + r
    ensures ParsedFunc(src) == Ok(Signature([Param(a, t)], r))
  {
    SingleDecl(a, t);
    StripSpaced(r);
    FuncOfParts(src, [a + " " + t], " " + r);
    var ps := Backfill(DeclareAll([a + " " + t]));
    assert ps == [Param(a, t)];
    assert ParsedFunc(src) == Ok(Signature(ps, Strip(" " + r)));
  }

  /** `func(a int) error` has the shape `SingleFunc` reads. */
  lemma SingleFuncText(src: string)
    requires src == "func(a int) error"
    ensures Word("a") && TypeText("int") && Stripped("error")
    ensures src == "func" + SingleList("a", "int") + " " + "error"
  {
    FlatNested("a");
    FlatNested("int");
  }

  /** The first docstring example of `parse_func`. */
  lemma GoSingleFunc(src: string)
    requires src == "func(a int) error"
    ensures ParsedFunc(src) == Ok(Signature([Param("a", "int")], "error"))
  {
    SingleFuncText(src);
    SingleFunc(src, "a", "int", "error");
  }

  /** `parse_func` on `func(a T)`: nothing follows the list, so the
      return-type text is empty. */
  lemma SingleFuncNoResult(src: string, a: string, t: string)
    requires Word(a) && TypeText(t)
    requires src == "func" + SingleList(a, t)
    ensures ParsedFunc(src) == Ok(Signature([Param(a, t)], ""))
  {
    SingleDecl(a, t);
    assert src == "func" + SingleList(a, t) + "";
    FuncOfParts(src, [a + " " + t], "");
    assert Strip("") == "";
    var ps := Backfill(DeclareAll([a + " " + t]));
    assert ps == [Param(a, t)];
    assert ParsedFunc(src) == Ok(Signature(ps, Strip("")));
  }

  /** `func(a int)` has no return type. */
  lemma GoSingleFuncNoResult(src: string)
    requires src == "func(a int)"
    ensures ParsedFunc(src) == Ok(Signature([Param("a", "int")], ""))
  {
    FlatNested("a");
    FlatNested("int");
    SingleFuncNoResult(src, "a", "int");
  }

  // ---------------------------------------------------------------------
  // Grouped names: `(a, b int, c chan int, d func(e error) error)`

  /** The declaration texts of `(a, b T1, c T2, d T3)`. */
  function GroupedTexts(a: string, b: string, t1: string, c: string, t2: string, d: string,
                        t3: string): seq<string> {
    [a, " " + b + " " + t1, " " + c + " " + t2, " " + d + " " + t3]
  }

  /** The list `(a, b T1, c T2, d T3)`. */
  function GroupedList(a: string, b: string, t1: string, c: string, t2: string, d: string,
                       t3: string): string {
    "(" + a + ", " + b + " " + t1 + ", " + c + " " + t2 + ", " + d + " " + t3 + ")"
  }

  lemma Body4(t0: string, t1: string, t2: string, t3: string)
    ensures Body([t0, t1, t2, t3]) == t0 + "," + t1 + "," + t2 + "," + t3
  {
    assert Body([t0]) == t0;
    assert [t0, t1][..1] == [t0];
    assert Body([t0, t1]) == t0 + "," + t1;
    assert [t0, t1, t2][..2] == [t0, t1];
    assert Body([t0, t1, t2]) == t0 + "," + t1 + "," + t2;
    assert [t0, t1, t2, t3][..3] == [t0, t1, t2];
  }

  lemma GroupedJoin(a: string, b: string, t1: string, c: string, t2: string, d: string,
                    t3: string)
    ensures GroupedList(a, b, t1, c, t2, d, t3) == Render(GroupedTexts(a, b, t1, c, t2, d, t3))
  {
    Body4(a, " " + b + " " + t1, " " + c + " " + t2, " " + d + " " + t3);
  }

  lemma DeclareAll4(t0: string, t1: string, t2: string, t3: string)
    ensures DeclareAll([t0, t1, t2, t3]) == [Declare(t0), Declare(t1), Declare(t2), Declare(t3)]
  {
  }

  lemma GroupedDeclare(a: string, b: string, t1: string, c: string, t2: string, d: string,
                       t3: string)
    requires Word(a) && Word(b) && Word(c) && Word(d)
    requires TypeText(t1) && TypeText(t2) && TypeText(t3)
    ensures forall k :: 0 <= k < 4 ==> Nested(GroupedTexts(a, b, t1, c, t2, d, t3)[k])
    ensures DeclareAll(GroupedTexts(a, b, t1, c, t2, d, t3))
      == [Decl(a, ""), Decl(b, t1), Decl(c, t2), Decl(d, t3)]
  {
    var sb, sc, sd := " " + b + " " + t1, " " + c + " " + t2, " " + d + " " + t3;
    SpacedDecl(b, t1);
    SpacedDecl(c, t2);
    SpacedDecl(d, t3);
    DeclareUntyped("", a);
    assert "" + a == a;
    DeclareAll4(a, sb, sc, sd);
  }

  /** The untyped `a` waits for the next type, `t1`; each later name has
      its own type. */
  lemma GroupedBackfill(a: string, b: string, t1: string, c: string, t2: string, d: string,
                        t3: string)
    requires t1 != "" && t2 != "" && t3 != ""
    ensures Backfill([Decl(a, ""), Decl(b, t1), Decl(c, t2), Decl(d, t3)])
      == [Param(a, t1), Param(b, t1), Param(c, t2), Param(d, t3)]
  {
    var da, db, dc, dd := Decl(a, ""), Decl(b, t1), Decl(c, t2), Decl(d, t3);
    BackfillDropsUntyped([], a);
    assert [] + [da] == [da];
    assert Backfill([da]) == [] && Fold([da]).names == [a];
    BackfillTypedGroup([da], db);
    assert [da] + [db] == [da, db];
    assert Backfill([da, db]) == [Param(a, t1), Param(b, t1)];
    BackfillTypedGroup([da, db], dc);
    assert [da, db] + [dc] == [da, db, dc];
    assert Backfill([da, db, dc]) == [Param(a, t1), Param(b, t1), Param(c, t2)];
    BackfillTypedGroup([da, db, dc], dd);
    assert [da, db, dc] + [dd] == [da, db, dc, dd];
  }

  /** `parse_params` on `(a, b T1, c T2, d T3)`, the shape of its second
      docstring example `(a, b int, c string, f func(int, int) error)`:
      `a` takes the type of `b`, and a comma inside a type (see
      `WrappedType`) does not split it. */
  lemma GroupedParams(src: string, a: string, b: string, t1: string, c: string, t2: string,
                      d: string, t3: string)
    requires Word(a) && Word(b) && Word(c) && Word(d)
    requires TypeText(t1) && TypeText(t2) && TypeText(t3)
    requires src == GroupedList(a, b, t1, c, t2, d, t3)
    ensures ParsedParams(src) == Ok([Param(a, t1), Param(b, t1), Param(c, t2), Param(d, t3)])
  {
    var texts := GroupedTexts(a, b, t1, c, t2, d, t3);
    GroupedJoin(a, b, t1, c, t2, d, t3);
    GroupedDeclare(a, b, t1, c, t2, d, t3);
    GroupedBackfill(a, b, t1, c, t2, d, t3);
    ParamsOfParts(src, texts);
    var ps := Backfill(DeclareAll(texts));
    assert ps == [Param(a, t1), Param(b, t1), Param(c, t2), Param(d, t3)];
  }

  /** `parse_func` on `func(a, b T1, c T2, d T3) R`, the shape of its
      second docstring example
      `func(a, b int, c chan int, d func(e error) error) (int, error)`. */
  lemma GroupedFunc(src: string, a: string, b: string, t1: string, c: string, t2: string,
                    d: string, t3: string, r: string)
    requires Word(a) && Word(b) && Word(c) && Word(d)
    requires TypeText(t1) && TypeText(t2) && TypeText(t3) && Stripped(r)
    requires src == "func" + GroupedList(a, b, t1, c, t2, d, t3) + " " + r
    ensures ParsedFunc(src) ==
      Ok(Signature([Param(a, t1), Param(b, t1), Param(c, t2), Param(d, t3)], r))
  {
    var texts := GroupedTexts(a, b, t1, c, t2, d, t3);
    GroupedJoin(a, b, t1, c, t2, d, t3);
    assert src == "func" + GroupedList(a, b, t1, c, t2, d, t3) + (" " + r);
    GroupedDeclare(a, b, t1, c, t2, d, t3);
    GroupedBackfill(a, b, t1, c, t2, d, t3);
    StripSpaced(r);
    FuncOfParts(src, texts, " " + r);
    var ps := Backfill(DeclareAll(texts));
    assert ps == [Param(a, t1), Param(b, t1), Param(c, t2), Param(d, t3)];
    assert ParsedFunc(src) == Ok(Signature(ps, Strip(" " + r)));
  }

  // ---------------------------------------------------------------------
  // A trailing name without a type: `(a int, b)`

  /** Two declaration texts joined. */
  lemma Render2(t0: string, t1: string)
    ensures Render([t0, t1]) == "(" + t0 + "," + t1 + ")"
  {
    assert Body([t0]) == t0;
    assert [t0, t1][..1] == [t0];
    assert Body([t0, t1]) == t0 + "," + t1;
  }

  /** The list `(a T, b)`. */
  function TrailingList(a: string, t: string, b: string): string {
    "(" + a + " " + t + ", " + b + ")"
  }

  lemma TrailingParts(a: string, t: string, b: string)
    requires Word(a) && TypeText(t) && Word(b)
    ensures Nested(a + " " + t) && Nested(" " + b)
    ensures DeclareAll([a + " " + t, " " + b]) == [Decl(a, t), Decl(b, "")]
  {
    DeclareText(Param(a, t));
    FlatNested(" ");
    NestedConcat(" ", b);
    DeclareUntyped(" ", b);
  }

  lemma TrailingJoin(a: string, t: string, b: string)
    ensures Render([a + " " + t, " " + b]) == TrailingList(a, t, b)
  {
    Render2(a + " " + t, " " + b);
  }

  lemma TrailingBackfill(a: string, t: string, b: string)
    requires t != ""
    ensures Backfill([Decl(a, t), Decl(b, "")]) == [Param(a, t)]
  {
    BackfillTypedGroup([], Decl(a, t));
    assert [] + [Decl(a, t)] == [Decl(a, t)];
    BackfillDropsUntyped([Decl(a, t)], b);
    assert [Decl(a, t)] + [Decl(b, "")] == [Decl(a, t), Decl(b, "")];
  }

  /** A name left without a type at the end of the list is dropped, and
      no error is raised. */
  lemma TrailingNameDropped(src: string, a: string, t: string, b: string)
    requires Word(a) && TypeText(t) && Word(b)
    requires src == TrailingList(a, t, b)
    ensures ParsedParams(src) == Ok([Param(a, t)])
  {
    var texts := [a + " " + t, " " + b];
    TrailingParts(a, t, b);
    TrailingJoin(a, t, b);
    TrailingBackfill(a, t, b);
    ParamsOfParts(src, texts);
    var ps := Backfill(DeclareAll(texts));
    assert ps == [Param(a, t)];
  }

  /** `(a int, b)` returns only `a int`. */
  lemma GoTrailingNameDropped(src: string)
    requires src == "(a int, b)"
    ensures ParsedParams(src) == Ok([Param("a", "int")])
  {
    FlatNested("a");
    FlatNested("int");
    FlatNested("b");
    TrailingNameDropped(src, "a", "int", "b");
  }

  // ---------------------------------------------------------------------
  // An empty declaration: `(, b int)`

  /** The list `(, b T)`. */
  function EmptyFirstList(b: string, t: string): string {
    "(, " + b + " " + t + ")"
  }

  lemma EmptyFirstParts(b: string, t: string)
    requires Word(b) && TypeText(t)
    ensures Nested("") && Nested(" " + b + " " + t)
    ensures DeclareAll(["", " " + b + " " + t]) == [Decl("", ""), Decl(b, t)]
  {
    SpacedDecl(b, t);
    FlatNested("");
    assert Declare("") == Decl("", "");
  }

  lemma EmptyFirstJoin(b: string, t: string)
    ensures Render(["", " " + b + " " + t]) == EmptyFirstList(b, t)
  {
    Render2("", " " + b + " " + t);
  }

  lemma EmptyFirstBackfill(b: string, t: string)
    requires t != ""
    ensures Backfill([Decl("", ""), Decl(b, t)]) == [Param("", t), Param(b, t)]
  {
    BackfillDropsUntyped([], "");
    assert [] + [Decl("", "")] == [Decl("", "")];
    BackfillTypedGroup([Decl("", "")], Decl(b, t));
    assert [Decl("", "")] + [Decl(b, t)] == [Decl("", ""), Decl(b, t)];
  }

  /** An empty declaration counts as an untyped name `""`: it takes the
      type of the next typed declaration and is returned with an empty
      name. */
  lemma EmptyNameKept(src: string, b: string, t: string)
    requires Word(b) && TypeText(t)
    requires src == EmptyFirstList(b, t)
    ensures ParsedParams(src) == Ok([Param("", t), Param(b, t)])
  {
    var texts := ["", " " + b + " " + t];
    EmptyFirstParts(b, t);
    EmptyFirstJoin(b, t);
    EmptyFirstBackfill(b, t);
    ParamsOfParts(src, texts);
    var ps := Backfill(DeclareAll(texts));
    assert ps == [Param("", t), Param(b, t)];
  }

  /** `(, b int)` returns a parameter with an empty name. */
  lemma GoEmptyNameKept(src: string)
    requires src == "(, b int)"
    ensures ParsedParams(src) == Ok([Param("", "int"), Param("b", "int")])
  {
    FlatNested("b");
    FlatNested("int");
    EmptyNameKept(src, "b", "int");
  }

  // ---------------------------------------------------------------------
  // No parameters, and rejected sources

  /** `func() R` has no parameters: the one empty declaration in `()` is
      never typed, so it is dropped. */
  lemma NoParamsFunc(src: string, r: string)
    requires Stripped(r)
    requires src == "func() " + r
    ensures ParsedFunc(src) == Ok(Signature([], r))
  {
    FlatNested("");
    assert Body([""]) == "";
    assert src == "func" + Render([""]) + (" " + r);
    StripSpaced(r);
    FuncOfParts(src, [""], " " + r);
    assert Declare("") == Decl("", "");
    assert DeclareAll([""]) == [] + [Decl("", "")];
    BackfillDropsUntyped([], "");
    var ps := Backfill(DeclareAll([""]));
    assert ps == [];
    assert ParsedFunc(src) == Ok(Signature(ps, Strip(" " + r)));
  }

  /** `func() error`. */
  lemma GoNoParamsFunc(src: string)
    requires src == "func() error"
    ensures ParsedFunc(src) == Ok(Signature([], "error"))
  {
    NoParamsFunc(src, "error");
  }

  /** A source that does not start with `f` is not a function. */
  lemma NotAFunc(src: string)
    requires src != [] && src[0] != 'f'
    ensures ParsedFunc(src) == Err(InvalidFunction(src))
  {
    assert "func("[0] == 'f';
  }

  /** `notafunc(a int)` is rejected. */
  lemma GoNotAFunc(src: string)
    requires src == "notafunc(a int)"
    ensures ParsedFunc(src) == Err(InvalidFunction(src))
  {
    NotAFunc(src);
  }

  /** A parameter list that is never closed is rejected. */
  lemma UnclosedFunc(src: string, s: string)
    requires '(' !in s && ')' !in s
    requires src == "func(" + s
    ensures ParsedFunc(src) == Err(InvalidFunction(src))
  {
    FlatPrefixes(s);
    forall m | 4 < m <= |src| ensures Depth(src[4..m]) != 0 {
      assert src[4..m] == "(" + s[..m - 5];
      DepthConcat("(", s[..m - 5]);
    }
    FuncFailsIff(src);
    FuncErrorIsInvalidFunction(src);
  }

  /** `func(a int` is rejected. */
  lemma GoUnclosedFunc(src: string)
    requires src == "func(a int"
    ensures ParsedFunc(src) == Err(InvalidFunction(src))
  {
    UnclosedFunc(src, "a int");
  }
}
