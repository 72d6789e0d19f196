/** What `parse_params` computes, stated without its scan: where each
    declaration begins and ends, how one declaration splits into a name
    and a type, and which parameters the backfill of grouped names emits. */
module ParamsFacts {
  import opened PyStr
  import opened GoCode

  // ---------------------------------------------------------------------
  // Where declarations begin and end

  /** The boundaries among the first `n` characters of `src`, in order. */
  ghost function Boundaries(src: string, n: nat): seq<nat>
    requires n <= |src|
  {
    if n == 0 then []
    else if IsBoundary(src, n - 1) then Boundaries(src, n - 1) + [n - 1]
    else Boundaries(src, n - 1)
  }

  /** `Boundaries` lists exactly the boundaries before `n`, in increasing
      order; index 0 is never one. */
  lemma {:induction false} BoundariesSpec(src: string, n: nat)
    requires n <= |src|
    ensures forall k :: 0 <= k < |Boundaries(src, n)| ==>
      1 <= Boundaries(src, n)[k] < n && IsBoundary(src, Boundaries(src, n)[k])
    ensures forall j, k :: 0 <= j < k < |Boundaries(src, n)| ==>
      Boundaries(src, n)[j] < Boundaries(src, n)[k]
    ensures forall i :: 0 <= i < n && IsBoundary(src, i) ==> i in Boundaries(src, n)
  {
    if n > 0 {
      BoundariesSpec(src, n - 1);
      if IsBoundary(src, n - 1) {
        assert src[..0] == [];
      }
    }
  }

  /** Where the declaration closed by boundary `k` of `bs` begins: just
      past boundary `k - 1`, or at index 1 (after the opening parenthesis). */
  function SegmentStart(bs: seq<nat>, k: nat): nat
    requires k <= |bs|
  {
    if k == 0 then 1 else bs[k - 1] + 1
  }

  /** The source's `lastI` after `n` characters is just past the last
      boundary read, or 1, and no boundary lies between it and `n`. */
  lemma {:induction false} NextStartSpec(src: string, n: nat)
    requires n <= |src|
    ensures NextStart(src, n) == SegmentStart(Boundaries(src, n), |Boundaries(src, n)|)
    ensures forall i :: NextStart(src, n) <= i < n ==> !IsBoundary(src, i)
  {
    if n > 0 {
      NextStartSpec(src, n - 1);
    }
  }

  /** `ds` are the declarations that the boundaries `bs` (all before `n`)
      delimit in `src`: declaration `k` is the text strictly between
      boundary `k - 1` (or the opening parenthesis) and boundary `k`,
      stripped and split. */
  predicate Delimits(src: string, bs: seq<nat>, ds: seq<Decl>, n: nat) {
    |ds| == |bs| &&
    forall k {:trigger ds[k]} :: 0 <= k < |ds| ==>
      SegmentStart(bs, k) <= bs[k] < n <= |src| && ds[k] == Declare(src[SegmentStart(bs, k)..bs[k]])
  }

  /** A further boundary `b` delimits one more declaration, the text since
      the last boundary. */
  lemma DelimitsSnoc(src: string, bs: seq<nat>, ds: seq<Decl>, n: nat, b: nat)
    requires Delimits(src, bs, ds, n) && n <= b < |src| && SegmentStart(bs, |bs|) <= b
    ensures Delimits(src, bs + [b], ds + [Declare(src[SegmentStart(bs, |bs|)..b])], b + 1)
  {
    var cs, es := bs + [b], ds + [Declare(src[SegmentStart(bs, |bs|)..b])];
    forall k | 0 <= k < |es|
      ensures SegmentStart(cs, k) <= cs[k] < b + 1 <= |src|
      ensures es[k] == Declare(src[SegmentStart(cs, k)..cs[k]])
    {
      assert SegmentStart(cs, k) == SegmentStart(bs, k);
      if k < |bs| {
        assert cs[k] == bs[k] && es[k] == ds[k];
      }
    }
  }

  /** Boundaries before `n` are also before `n + 1`. */
  lemma DelimitsWiden(src: string, bs: seq<nat>, ds: seq<Decl>, n: nat)
    requires Delimits(src, bs, ds, n) && n < |src|
    ensures Delimits(src, bs, ds, n + 1)
  {
    forall k | 0 <= k < |ds|
      ensures SegmentStart(bs, k) <= bs[k] < n + 1 <= |src|
      ensures ds[k] == Declare(src[SegmentStart(bs, k)..bs[k]])
    {
      var dk := ds[k];
      assert SegmentStart(bs, k) <= bs[k] < n && dk == Declare(src[SegmentStart(bs, k)..bs[k]]);
    }
  }

  /** The declarations `parse_params` reads are those the boundaries
      delimit. */
  lemma {:induction false} DeclsSpec(src: string, n: nat)
    requires n <= |src|
    ensures Delimits(src, Boundaries(src, n), Decls(src, n), n)
  {
    if n > 0 {
      DeclsSpec(src, n - 1);
      if IsBoundary(src, n - 1) {
        NextStartSpec(src, n - 1);
        DelimitsSnoc(src, Boundaries(src, n - 1), Decls(src, n - 1), n - 1, n - 1);
      } else {
        assert Boundaries(src, n) == Boundaries(src, n - 1);
        assert Decls(src, n) == Decls(src, n - 1);
        DelimitsWiden(src, Boundaries(src, n - 1), Decls(src, n - 1), n - 1);
      }
    }
  }

  /** No boundary lies inside a declaration: a ',' or ')' nested deeper
      than the list itself never ends one. */
  lemma SegmentsHaveNoBoundary(src: string, n: nat)
    requires n <= |src|
    ensures forall k, i ::
      (0 <= i < n && 0 <= k < |Boundaries(src, n)| &&
       SegmentStart(Boundaries(src, n), k) <= i < Boundaries(src, n)[k]) ==> !IsBoundary(src, i)
  {
    BoundariesSpec(src, n);
    var bs := Boundaries(src, n);
    forall k, i | 0 <= i < n && 0 <= k < |bs| && SegmentStart(bs, k) <= i < bs[k]
      ensures !IsBoundary(src, i)
    {
      forall m | 0 <= m < |bs| ensures bs[m] != i {
        if m < k {
          assert bs[m] <= bs[k - 1];
        }
      }
    }
  }

  // ---------------------------------------------------------------------
  // One declaration

  /** A declaration's name holds no space; it has a type exactly when its
      stripped text holds a space, and then name, space and type give back
      that text; a typed declaration has a non-empty name. */
  lemma DeclareSpec(segment: string)
    ensures ' ' !in Declare(segment).name
    ensures Declare(segment).typ != "" <==> ' ' in Strip(segment)
    ensures ' ' in Strip(segment) ==>
      Strip(segment) == Declare(segment).name + [' '] + Declare(segment).typ
    ensures ' ' !in Strip(segment) ==> Declare(segment) == Decl(Strip(segment), "")
    ensures Declare(segment).typ != "" ==> Declare(segment).name != ""
  {
    var s := Strip(segment);
    var _ := StripSpec(segment);
    PartitionSpec(s);
    if ' ' in s {
      var (name, typ) := Partition(s);
      assert s[|name|] == ' ' && IsSpace(s[|name|]);
      assert 0 < |name| < |s| - 1;
    }
  }

  // ---------------------------------------------------------------------
  // Backfill of grouped names

  /** The names of `ds`, in order. */
  function Names(ds: seq<Decl>): (names: seq<string>)
    ensures |names| == |ds|
  {
    seq(|ds|, k requires 0 <= k < |ds| => ds[k].name)
  }

  /** The length of the shortest prefix of `ds` that holds every typed
      declaration: 0 when none is typed. */
  function TypedPrefix(ds: seq<Decl>): (k: nat)
    ensures k <= |ds|
    ensures k > 0 ==> ds[k - 1].typ != ""
  {
    if ds == [] then 0
    else if ds[|ds| - 1].typ != "" then |ds|
    else TypedPrefix(ds[..|ds| - 1])
  }

  /** Every declaration after the last typed one is untyped. */
  lemma {:induction false} TypedPrefixSpec(ds: seq<Decl>)
    ensures forall j :: TypedPrefix(ds) <= j < |ds| ==> ds[j].typ == ""
  {
    if ds != [] && ds[|ds| - 1].typ == "" {
      var p := ds[..|ds| - 1];
      TypedPrefixSpec(p);
      assert forall j :: 0 <= j < |p| ==> ds[j] == p[j];
    }
  }

  /** The first typed declaration at or after index `j`. */
  function NextTyped(ds: seq<Decl>, j: nat): (k: nat)
    requires j < TypedPrefix(ds)
    ensures j <= k < TypedPrefix(ds) && ds[k].typ != ""
    decreases TypedPrefix(ds) - j
  {
    if ds[j].typ != "" then j else NextTyped(ds, j + 1)
  }

  /** `NextTyped` skips only untyped declarations. */
  lemma {:induction false} NextTypedSpec(ds: seq<Decl>, j: nat)
    requires j < TypedPrefix(ds)
    ensures forall m :: j <= m < NextTyped(ds, j) ==> ds[m].typ == ""
    decreases TypedPrefix(ds) - j
  {
    if ds[j].typ == "" {
      NextTypedSpec(ds, j + 1);
    }
  }

  /** Go's grouping rule, stated without a buffer: every declaration up to
      the last typed one becomes a parameter with its own name and the
      type of the first typed declaration at or after it; untyped names
      after the last type are dropped. */
  function Grouped(ds: seq<Decl>): seq<Param> {
    seq(TypedPrefix(ds), j requires 0 <= j < TypedPrefix(ds) =>
      Param(ds[j].name, ds[NextTyped(ds, j)].typ))
  }

  /** Appending a declaration does not change where the declarations
      before the last typed one find their type. */
  lemma {:induction false} NextTypedSnoc(ds: seq<Decl>, d: Decl, j: nat)
    requires j < TypedPrefix(ds)
    ensures j < TypedPrefix(ds + [d])
    ensures NextTyped(ds + [d], j) == NextTyped(ds, j)
    decreases TypedPrefix(ds) - j
  {
    assert (ds + [d])[..|ds|] == ds;
    assert (ds + [d])[j] == ds[j];
    if ds[j].typ == "" {
      NextTypedSnoc(ds, d, j + 1);
    }
  }

  /** Appending a typed declaration gives its type to every declaration
      after the last earlier type, and to itself. */
  lemma NextTypedSnocTyped(p: seq<Decl>, d: Decl, j: nat)
    requires d.typ != "" && TypedPrefix(p) <= j <= |p|
    ensures TypedPrefix(p + [d]) == |p| + 1
    ensures NextTyped(p + [d], j) == |p|
    decreases |p| - j
  {
    var ds := p + [d];
    assert ds[|ds| - 1] == d;
    if j < |p| {
      TypedPrefixSpec(p);
      assert ds[j] == p[j];
      NextTypedSnocTyped(p, d, j + 1);
    }
  }

  /** Appending a typed declaration groups every name after the last
      earlier type with it. */
  lemma GroupedSnocTyped(p: seq<Decl>, d: Decl)
    requires d.typ != ""
    ensures TypedPrefix(p + [d]) == |p| + 1
    ensures Grouped(p + [d]) == Grouped(p) + Typed(Names(p[TypedPrefix(p)..]) + [d.name], d.typ)
  {
    GroupedSnocLength(p, d);
    var lhs := Grouped(p + [d]);
    var rhs := Grouped(p) + Typed(Names(p[TypedPrefix(p)..]) + [d.name], d.typ);
    forall j | 0 <= j < |lhs| ensures lhs[j] == rhs[j] {
      GroupedSnocEntry(p, d, j);
    }
  }

  /** The two sides of `GroupedSnocTyped`'s equation have the same length. */
  lemma GroupedSnocLength(p: seq<Decl>, d: Decl)
    requires d.typ != ""
    ensures TypedPrefix(p + [d]) == |p| + 1
    ensures |Grouped(p + [d])| == |p| + 1
    ensures |Grouped(p) + Typed(Names(p[TypedPrefix(p)..]) + [d.name], d.typ)| == |p| + 1
  {
    NextTypedSnocTyped(p, d, |p|);
    var tp := TypedPrefix(p);
    var pending := Names(p[tp..]) + [d.name];
    assert |pending| == |p| - tp + 1;
  }

  /** One entry of `GroupedSnocTyped`'s equation. */
  lemma GroupedSnocEntry(p: seq<Decl>, d: Decl, j: nat)
    requires d.typ != "" && j <= |p|
    ensures Grouped(p + [d])[j] ==
      (Grouped(p) + Typed(Names(p[TypedPrefix(p)..]) + [d.name], d.typ))[j]
  {
    var tp := TypedPrefix(p);
    var g, t := Grouped(p), Typed(Names(p[tp..]) + [d.name], d.typ);
    assert |g| == tp;
    if j < tp {
      GroupedSnocEarlier(p, d, j);
      assert (g + t)[j] == g[j];
    } else {
      GroupedSnocLater(p, d, j);
      assert (g + t)[j] == t[j - tp];
    }
  }

  /** An entry of `Grouped` before the last type keeps its type when a
      declaration is appended. */
  lemma GroupedSnocEarlier(p: seq<Decl>, d: Decl, j: nat)
    requires j < TypedPrefix(p)
    ensures j < TypedPrefix(p + [d])
    ensures Grouped(p + [d])[j] == Grouped(p)[j]
  {
    var ds := p + [d];
    NextTypedSnoc(p, d, j);
    assert ds[j] == p[j] && ds[NextTyped(p, j)] == p[NextTyped(p, j)];
  }

  /** An entry of `Grouped` after the last earlier type takes the type of
      the typed declaration appended. */
  lemma GroupedSnocLater(p: seq<Decl>, d: Decl, j: nat)
    requires d.typ != "" && TypedPrefix(p) <= j <= |p|
    ensures TypedPrefix(p + [d]) == |p| + 1
    ensures Grouped(p + [d])[j] ==
      Typed(Names(p[TypedPrefix(p)..]) + [d.name], d.typ)[j - TypedPrefix(p)]
  {
    var ds := p + [d];
    var tp := TypedPrefix(p);
    NextTypedSnocTyped(p, d, j);
    var pending := Names(p[tp..]) + [d.name];
    PendingName(p, d, tp, j);
    assert Grouped(ds)[j] == Param(ds[j].name, ds[|p|].typ);
    assert ds[|p|] == d;
    assert Typed(pending, d.typ)[j - tp] == Param(pending[j - tp], d.typ);
  }

  /** The names buffered since index `tp`, then `d`'s, are those of
      `p + [d]` from `tp` on. */
  lemma PendingName(p: seq<Decl>, d: Decl, tp: nat, j: nat)
    requires tp <= j <= |p|
    ensures (Names(p[tp..]) + [d.name])[j - tp] == (p + [d])[j].name
  {
    if j < |p| {
      assert p[tp..][j - tp] == p[j];
    }
  }

  /** Appending an untyped declaration changes nothing that is emitted. */
  lemma GroupedSnocUntyped(p: seq<Decl>, d: Decl)
    requires d.typ == ""
    ensures TypedPrefix(p + [d]) == TypedPrefix(p)
    ensures Grouped(p + [d]) == Grouped(p)
  {
    var ds := p + [d];
    assert ds[..|ds| - 1] == p;
    forall j | 0 <= j < TypedPrefix(p)
      ensures NextTyped(ds, j) == NextTyped(p, j)
    {
      NextTypedSnoc(p, d, j);
    }
  }

  /** The buffer-based backfill of the source emits exactly `Grouped(ds)`,
      and what is left in its buffer are the names after the last type. */
  lemma {:induction false} FoldIsGrouped(ds: seq<Decl>)
    ensures Fold(ds) == Pending(Grouped(ds), Names(ds[TypedPrefix(ds)..]))
  {
    if ds != [] {
      var p, d := ds[..|ds| - 1], ds[|ds| - 1];
      assert ds == p + [d];
      FoldIsGrouped(p);
      FoldSnoc(p, d);
      var tp := TypedPrefix(p);
      if d.typ != "" {
        GroupedSnocTyped(p, d);
        assert ds[|ds|..] == [];
      } else {
        GroupedSnocUntyped(p, d);
        assert ds[tp..] == p[tp..] + [d];
        assert Names(ds[tp..]) == Names(p[tp..]) + [d.name];
      }
    }
  }

  /** What the backfill emits: one parameter per declaration up to the last
      typed one, in source order, each with its own name and a non-empty
      type taken from the first typed declaration at or after it. */
  lemma BackfillSpec(ds: seq<Decl>)
    ensures |Backfill(ds)| == TypedPrefix(ds)
    ensures forall j :: 0 <= j < |Backfill(ds)| ==>
      Backfill(ds)[j].name == ds[j].name && Backfill(ds)[j].typ != ""
    ensures forall j :: 0 <= j < |Backfill(ds)| ==>
      Backfill(ds)[j].typ == ds[NextTyped(ds, j)].typ
  {
    FoldIsGrouped(ds);
  }

  /** A trailing declaration without a type is dropped, not reported. */
  lemma BackfillDropsUntyped(ds: seq<Decl>, name: string)
    ensures Backfill(ds + [Decl(name, "")]) == Backfill(ds)
    ensures Fold(ds + [Decl(name, "")]).names == Fold(ds).names + [name]
  {
    FoldSnoc(ds, Decl(name, ""));
  }

  /** A typed declaration emits every buffered name and its own, in order,
      with its type, and leaves the buffer empty. */
  lemma BackfillTypedGroup(ds: seq<Decl>, d: Decl)
    requires d.typ != ""
    ensures Backfill(ds + [d]) == Backfill(ds) + Typed(Fold(ds).names + [d.name], d.typ)
    ensures Fold(ds + [d]).names == []
  {
    FoldSnoc(ds, d);
  }

  // ---------------------------------------------------------------------
  // parse_params as a whole

  /** `parse_params` raises exactly when its input is not wrapped in
      parentheses; otherwise its parameters are the grouping of the
      declarations that the boundaries delimit. */
  lemma ParsedParamsSpec(src: string)
    ensures ParsedParams(src).Err? <==>
      !(|src| >= 2 && src[0] == '(' && src[|src| - 1] == ')')
    ensures ParsedParams(src).Err? ==> ParsedParams(src).error == InvalidParams(src)
    ensures ParsedParams(src).Ok? ==> ParsedParams(src).value == Grouped(Decls(src, |src|))
  {
    FoldIsGrouped(Decls(src, |src|));
  }
}
