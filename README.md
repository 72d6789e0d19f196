# gocode signature parser, modelled in Dafny

The Python helper `gocode.py` turns the text that `gocode` prints for a Go
function type into data for autocompletion. It has two parsing functions:

- `parse_func` checks that the text starts with `func(`.
  - It scans from that `(` with a parenthesis depth counter and stops at the first character where the depth is back to 0.
  - It hands the parameter list up to that point to `parse_params`.
  - It returns the parameters together with the rest of the text, stripped. That rest is the return type.
- `parse_params` checks that its input starts with `(` and ends with `)`.
  - It splits the input at every `,` or `)` read at depth 1, strips each declaration and splits it at its first space into a name and a type.
  - It keeps names without a type in a buffer. The next typed declaration gives its type to every buffered name, which is Go's `a, b int` grouping.

Both functions raise the module's `Error` on malformed input. The model
turns that into a `Result` carrying `InvalidFunction(src)` or
`InvalidParams(src)`.

The project has six modules:

- `PyStr` (`pystr.dfy`): the Python `str` built-ins the parser calls. These are `isspace` (Python 3's whitespace set), `strip()` and `partition(" ")`, each with its specification.
- `GoCode` (`gocode.dfy`): the data model.
  - A specification function for each parser: `ParsedParams` and `ParsedFunc`.
  - The two parsers as methods, `ParseParams` and `ParseFunc`, which run the source's loops.
    - `ParseParams` keeps the same depth counter, `lastI`, `names` buffer and output list as the source, with the inner loop over the buffered names as the method `EmitGroup`.
    - Each method is proved equal to its specification function.
- `ParamsFacts` (`params_facts.dfy`): what `parse_params` computes, stated without its scan. This covers where each declaration starts and ends, how a declaration splits into name and type, and which parameters the grouping emits.
- `FuncFacts` (`func_facts.dfy`): when `parse_func` fails, and what it returns when it succeeds.
- `Rendering` (`render.dfy`): parameter lists written out from declaration texts, and what the parsers read back from them. This includes a round trip through a printer of parameter lists.
- `DocExamples` (`examples.dfy`): the docstring examples and the edge cases.

Python's functions are deterministic, and so are the Dafny functions that
model them. Parsing the same text twice therefore gives the same result by
construction.

Where the written design of the parser and the code disagree, the model
follows the code:

- **Untyped trailing names.** A trailing name that never receives a type is silently dropped (gocode.py:75-87). It is not reported as an error. See `ParamsFacts.BackfillDropsUntyped` and `DocExamples.TrailingNameDropped`.
- **Empty names.** An emitted parameter can have an empty name. For `(, b int)` the empty first declaration is buffered as the name `""` and receives `int`. See `DocExamples.EmptyNameKept`. A typed declaration itself always has a non-empty name (`ParamsFacts.DeclareSpec`).
- **Boundary test and depth update.** `parse_params` tests for a boundary before it updates the depth with the current character (gocode.py:72-86). So the closing `)` of the list is a boundary because the depth before it is 1.
- **No balance check in `parse_params`.** `parse_params` only checks the `(`…`)` shape and never checks that its parentheses balance. For example, `((a int)` gives `Ok([])`. `parse_func` does reject a list that never closes.

## Model

| member | source | states |
|---|---|---|
| GoCode.ParseParams | gocode.py:55-87 | The scan of `parse_params` returns exactly `ParsedParams(src)`. The loop invariants keep the depth, `lastI` and the pair (output, buffer) equal to the fold of the declarations read so far. |
| GoCode.ParseFunc | gocode.py:39-53 | The scan of `parse_func` returns exactly `ParsedFunc(src)`. It stops at the first index where the depth is 0 and errors when there is none. |
| GoCode.EmitGroup | gocode.py:79-83 | The backfill loop emits every buffered name with the new type, in buffer order, after what was already emitted, and leaves the buffer empty. |
| GoCode.ScanNext | gocode.py:70-86 | One character moves the depth by its delta and starts a new declaration exactly at a boundary. At a boundary it absorbs the stripped, partitioned text since `lastI` into the buffer. |
| GoCode.ClosingSpec | gocode.py:42-52 | `Closing` finds the first index after which the depth is 0, and finds nothing exactly when the depth never returns to 0. |
| PyStr.TrimStartSpec | gocode.py:74 | `lstrip` keeps a suffix, cuts only whitespace and leaves no leading whitespace. |
| PyStr.TrimEndSpec | gocode.py:74 | `rstrip` keeps a prefix, cuts only whitespace and leaves no trailing whitespace. |
| PyStr.StripSpec | gocode.py:74 | `strip()` keeps one slice of its input, everything it removes on either side is whitespace, and the slice neither starts nor ends with whitespace. |
| PyStr.PartitionSpec | gocode.py:74 | `partition(" ")` gives a head without spaces. With a space present, head + " " + tail is the input; without one, the head is the whole input and the tail is empty. |
| ParamsFacts.BoundariesSpec | gocode.py:70-72 | The boundaries list exactly the indices holding `,` or `)` at depth 1, in increasing order, never index 0. |
| ParamsFacts.NextStartSpec | gocode.py:68-76 | `lastI` is just past the last boundary read, or 1, and no boundary lies between it and the scan position. |
| ParamsFacts.DeclsSpec | gocode.py:70-76 | Declaration k is the stripped, partitioned text strictly between boundary k-1 (or the opening `(`) and boundary k. |
| ParamsFacts.SegmentsHaveNoBoundary | gocode.py:72 | No `,` or `)` at depth 1 lies inside a declaration. |
| ParamsFacts.DeclareSpec | gocode.py:74 | A declaration's name has no space. It has a type iff its stripped text contains a space, and then name + " " + type is that text. A typed declaration has a non-empty name. |
| ParamsFacts.TypedPrefixSpec | gocode.py:75-82 | Every declaration after the last typed one is untyped. |
| ParamsFacts.NextTypedSpec | gocode.py:75-82 | The declarations before the next typed one are all untyped. |
| ParamsFacts.FoldIsGrouped | gocode.py:75-82 | The buffer-based backfill emits exactly the grouping: each name up to the last typed declaration paired with the next type. Its buffer holds the names after the last type. |
| ParamsFacts.BackfillSpec | gocode.py:75-82 | One parameter per declaration up to the last typed one, in source order. Each keeps its own name and takes the non-empty type of the first typed declaration at or after it. |
| ParamsFacts.BackfillDropsUntyped | gocode.py:75-87 | An untyped declaration emits nothing and only grows the buffer; at the end, buffered names are dropped. |
| ParamsFacts.BackfillTypedGroup | gocode.py:77-82 | A typed declaration emits every buffered name and its own name, in order, with its type, and empties the buffer. |
| ParamsFacts.ParsedParamsSpec | gocode.py:63-87 | `parse_params` fails iff the input is not `(`…`)`, and then with `InvalidParams(src)`. Otherwise it returns the grouping of the delimited declarations. |
| FuncFacts.ClosingIsParen | gocode.py:44-51 | Scanning from `(`, the depth stays positive up to the first 0, and that point is a `)` read at depth 1. |
| FuncFacts.FuncErrorIsInvalidFunction | gocode.py:39-53 | `parse_func` never passes on an error from `parse_params`: every failure is `InvalidFunction(src)`. |
| FuncFacts.FuncFailsIff | gocode.py:39-53 | `parse_func` fails iff the text does not start with `func(` or the depth from that `(` never returns to 0. |
| FuncFacts.FuncSucceedsAt | gocode.py:44-52 | At the first zero of the depth, index i, the character is `)`. The parameters are the grouping of the declarations in `src[4..i+1]`, and the return type is `src[i+1..]` stripped. |
| Rendering.NestedConcat | gocode.py:83-86 | Texts whose commas and `)` all lie inside their own parentheses keep that property when concatenated. |
| Rendering.NestedWrap | gocode.py:83-86 | A balanced text wrapped in parentheses, like the `(e error)` of a function type, hides its commas and `)` from the depth-1 test. |
| Rendering.RenderDecls | gocode.py:66-86 | A list written from nested texts is split by the scan into exactly those texts. Its depth stays positive until the final `)`. |
| Rendering.ParamsOfRender | gocode.py:55-87 | `parse_params` of such a list returns the backfilled declarations of its texts, whatever parentheses or commas they hold inside. |
| Rendering.FuncOfRender | gocode.py:39-53 | `parse_func` of `func`, such a list and any text returns those parameters and the text stripped. |
| Rendering.StripAfterSpace | gocode.py:74 | Leading whitespace before a text without whitespace at either end is all that `strip()` removes. |
| Rendering.PartitionAt | gocode.py:74 | `partition(" ")` splits at the space after a space-free head. |
| Rendering.DeclareTyped | gocode.py:74 | `name type`, after any leading whitespace, declares that name with that type. |
| Rendering.DeclareUntyped | gocode.py:74 | A bare name, after any leading whitespace, declares that name without a type. |
| Rendering.BackfillOfTexts | gocode.py:75-82 | When every declaration is written as `name type`, the backfill returns the parameters themselves. |
| Rendering.FormatRoundTrip | gocode.py:55-87 | `parse_params` reads back every list of readable parameters written one `name type` per parameter, including the empty list `()`. |
| Rendering.EmptyList | gocode.py:63-87 | `()` holds no parameter. |
| DocExamples.WrappedType | gocode.py:72-86 | A type with one parenthesised part, like `func(int, int) error`, is never split at its inner commas. |
| DocExamples.SingleParams | gocode.py:58 | `(a T)` gives `[(a, T)]`. |
| DocExamples.GoSingleParams | gocode.py:58 | `(a int)` gives `[("a", "int")]`. |
| DocExamples.SingleFunc | gocode.py:19-22 | `func(a T) R` gives `([(a, T)], R)`. |
| DocExamples.GoSingleFunc | gocode.py:19-22 | `func(a int) error` gives `([("a", "int")], "error")`. |
| DocExamples.SingleFuncNoResult | gocode.py:52 | `func(a T)` gives `([(a, T)], "")`. |
| DocExamples.GoSingleFuncNoResult | gocode.py:52 | `func(a int)` gives `([("a", "int")], "")`. |
| DocExamples.GroupedBackfill | gocode.py:75-82 | The declarations `a`, `b T1`, `c T2`, `d T3` give `a` and `b` the type `T1`. |
| DocExamples.GroupedParams | gocode.py:59 | `(a, b T1, c T2, d T3)` gives `[(a, T1), (b, T1), (c, T2), (d, T3)]`, which is the shape of `(a, b int, c string, f func(int, int) error)`. |
| DocExamples.GroupedFunc | gocode.py:24-35 | `func(a, b T1, c T2, d T3) R` gives those four parameters and `R`, which is the shape of the second `parse_func` example. |
| DocExamples.TrailingNameDropped | gocode.py:75-87 | `(a T, b)` gives `[(a, T)]`: the untyped trailing name is dropped without an error. |
| DocExamples.GoTrailingNameDropped | gocode.py:75-87 | `(a int, b)` gives `[("a", "int")]`. |
| DocExamples.EmptyNameKept | gocode.py:74-82 | `(, b T)` gives `[("", T), (b, T)]`. |
| DocExamples.GoEmptyNameKept | gocode.py:74-82 | `(, b int)` gives `[("", "int"), ("b", "int")]`. |
| DocExamples.NoParamsFunc | gocode.py:44-52 | `func() R` gives `([], R)`: the one empty declaration in `()` never gets a type. |
| DocExamples.GoNoParamsFunc | gocode.py:44-52 | `func() error` gives `([], "error")`. |
| DocExamples.NotAFunc | gocode.py:39-40 | A text not starting with `f` fails with `InvalidFunction`. |
| DocExamples.GoNotAFunc | gocode.py:39-40 | `notafunc(a int)` fails with `InvalidFunction`. |
| DocExamples.UnclosedFunc | gocode.py:44-53 | `func(` followed by text without parentheses fails with `InvalidFunction`. |
| DocExamples.GoUnclosedFunc | gocode.py:44-53 | `func(a int` fails with `InvalidFunction`. |

## Left out

- `autocomplete` (gocode.py:4-10) is not modelled. It runs the external `gocode` process and decodes its JSON output, which is I/O and code outside this file.
- The `print` calls inside the `parse_func` loop (gocode.py:45, 50) are debug output. They do not change the result, so they are left out.
- `parse_returns` (gocode.py:89-123) is commented out in the source, so it is not modelled.
- The `Error` exception class (gocode.py:125-127) is modelled as the `Error` datatype. The datatype records which check failed and the offending text. It does not build the formatted message string.
- Python `str` can hold lone surrogate code points, but Dafny's `char` is a Unicode scalar value. Texts containing lone surrogates are therefore outside the model.
- GroupedParams: the second `parse_params` docstring example is proved for any names and nested types of its shape. It is not proved for the literal text itself. `WrappedType` gives the nesting of types like `func(int, int) error`.
- GroupedFunc: the second `parse_func` docstring example is proved for any names, nested types and return text of its shape. It is not proved for the literal text itself. `WrappedType` covers `func(e error) error`.
