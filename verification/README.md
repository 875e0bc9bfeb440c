# errslice in Dafny

A model of the Go package `errslice`, which lets several independent errors
travel through an API that returns one `error`. The package defines

- `Slice`, a `[]error` that is itself an `error`, whose `Error()` renders its
  elements as an English list with an Oxford comma;
- `FromFast` and `From`, which coerce one error to a `Slice` (`From` also
  unpacks foreign named `[]error` types, found by reflection);
- `Append`, a variadic merge that drops nils, returns nil or a lone error
  unchanged, and otherwise builds a `Slice`, flattening `Slice` arguments one
  level;
- `AppendCall`, which overwrites an error variable with
  `Append(variable, f())`, for deferred cleanup calls.

Files:

- `wrappers.dfy` (module `Wrappers`): the `Option` datatype.
- `errslice.dfy` (module `ErrSlice`): the data model and every operation.
- `examples.dfy` (module `ErrSliceExamples`): the package's test tables and
  its `AppendCall` example, stated over the model.

How Go's values appear in the model:

- A Go `error` is `Error = Option<Err>`, and `None` is nil.
- `Err` has three cases. `Leaf(msg)` is any error whose dynamic type is not a
  `[]error`. `SliceErr(elems)` is a `Slice`. `Foreign(elems, text)` is a value
  of another named type with underlying type `[]error`, where `text` is what
  that type's own `Error()` returns.
- Datatype values have no identity. "Returned unchanged" therefore means
  "equal to the argument".
- The reflective probe `fromByReflection` becomes the total function
  `FromByReflection`. It gives `Some(elems)` exactly when the conversion to
  `[]error` would succeed (a `Slice` or a foreign `[]error`). It gives `None`
  where Go recovers from the panic.
- `Slice.Error` and `Append` are methods with the source's loops. Each is
  proved equal to a specification function: `Message`/`EnglishList` for
  rendering, `Merge` for `Append`. The properties are lemmas about those
  functions.
- `AppendCall` writes through an `ErrorSlot` object, which stands for Go's
  `*error`. The result of `f()` is passed in already computed.

Two consequences of the code worth stating:

- `Append` drops nil arguments but not nil elements. A `Slice` argument's
  elements are spliced as they are, nils included (errslice.go:117-118 and
  131-132). `ErrSlice.MergeKeepsNilElements` states this.
- `Slice.Error` calls `err.Error()` on every element (errslice.go:19), so it
  faults on a nil element. The model therefore makes non-nil elements a
  precondition of rendering (`RenderableElems`).
  `ErrSlice.MergeRenderable` shows that merging renderable errors keeps them
  renderable.

## Model

| member | source | states |
|---|---|---|
| `ErrSlice.SliceError` | errslice.go:16-34 | The loop with position-chosen separators returns the element messages as an English list: "" for none, the message alone for one, "a and b" for two, and "a, b, ..., and z" with an Oxford comma for three or more. Every element must be non-nil and renderable. |
| `ErrSlice.BuiltIsEnglishList` | errslice.go:18-32 | The text built by appending each message and the separator for its remaining count (", " normally, " and " or ", and " before the last, nothing after the last) equals the English list. |
| `ErrSlice.FromFast` | errslice.go:38-46 | Nil gives nil. A Slice is returned as it is, with the same elements. Any other error, a foreign []error included, is wrapped as the one-element Slice{err}. |
| `ErrSlice.FromByReflection` | errslice.go:52-61 | The probe never fails. It succeeds exactly for non-nil values whose underlying type is []error (a Slice or a foreign []error) and then yields their elements. Otherwise it reports no match. |
| `ErrSlice.From` | errslice.go:69-80 | Nil gives nil. A Slice is returned as it is. A foreign []error becomes a Slice of its elements in the same order. Any other error is wrapped as Slice{err}. |
| `ErrSlice.FromRefinesFromFast` | errslice.go:38-80 | From and FromFast agree on every input except a foreign []error. From unpacks that to the same elements in the same order, and FromFast wraps it as Slice{err}. |
| `ErrSlice.CoercionIdempotent` | errslice.go:38-75 | Coercing the Slice returned by a coercion gives that same Slice back. |
| `ErrSlice.CoercionKeepsMessage` | errslice.go:38-80 | Coercing a Slice or a plain error keeps its rendered message, and From and FromFast agree on it. |
| `ErrSlice.ForeignRenderedAsList` | errslice.go:76-78 | From turns a foreign []error into a Slice of its elements. That Slice renders as this package's English list, not as the foreign Error() text. |
| `ErrSlice.PresentInMembers` | errslice.go:92-114 | An error is among the non-nil arguments that Append scans exactly when some argument in that stretch is that error: nils are dropped and nothing else is. |
| `ErrSlice.Append` | errslice.go:86-138 | The fast path, the two scanning loops and the accumulating loop together compute exactly `Merge`: nil with no non-nil argument, the lone non-nil argument itself, or a Slice of the first one's From elements followed by each later non-nil argument's FromFast elements. |
| `ErrSlice.MergeNil` | errslice.go:88-98 | Append returns nil if and only if every argument is nil, including the empty argument list and the two-nil fast path. |
| `ErrSlice.MergeLone` | errslice.go:103-114 | With exactly one non-nil argument, Append returns that argument unchanged, wherever it sits among the nils. |
| `ErrSlice.MergeContributions` | errslice.go:115-137 | With two or more non-nil arguments, the result is a Slice. In argument order, its elements are the contributions of the non-nil arguments. The k-th (k ≥ 1) contributes exactly its FromFast elements, at that position. |
| `ErrSlice.MergeFlattensOneLevel` | errslice.go:126-136 | A later Slice argument contributes its own elements unchanged, so nested Slices inside it stay nested. A later non-Slice argument, a foreign []error included, is one entry. |
| `ErrSlice.MergeSeed` | errslice.go:115-123 | The result starts with the first non-nil argument's elements when it is a Slice or a foreign []error. Otherwise it starts with that argument itself. |
| `ErrSlice.MergeKeepsOrder` | errslice.go:82-137 | Merging plain errors neither drops, reorders nor deduplicates them. From recovers exactly the non-nil arguments in order. |
| `ErrSlice.MergePair` | errslice.go:86-137 | The two-argument merge: a nil side yields the other side unchanged. Otherwise the result is From(first) followed by FromFast(second). |
| `ErrSlice.MergeRenderable` | errslice.go:115-137 | Merging renderable errors gives a renderable error, so the result of Append can always be rendered. A foreign first argument must also have renderable elements. |
| `ErrSlice.MergeKeepsNilElements` | errslice.go:117-132 | Nil elements inside a Slice argument are carried into the result. Only nil arguments are dropped. |
| `ErrSlice.ForeignFlattenedOnlyFirst` | errslice.go:117-135 | A foreign []error is unpacked as the first non-nil argument. As a later argument it is kept as one opaque entry. |
| `ErrSlice.AppendCall` | errslice.go:142-144 | The slot becomes exactly Append(old slot, result of f). A nil side leaves the other side. Otherwise the slot becomes From(old) followed by FromFast(result). |
| `ErrSliceExamples.AllThreeRendering` | the_test.go:42 | The Slice of "one", "two" and "three" renders "one, two, and three". |
| `ErrSliceExamples.AppendOnlyNils` | the_test.go:37-39 | One, two or three nils merge to nil. |
| `ErrSliceExamples.AppendLone` | the_test.go:40-44 | A lone error, alone or beside a nil on either side, comes back itself. |
| `ErrSliceExamples.AppendTwo` | the_test.go:41-45 | "one" and "two", with or without a trailing nil, merge to a two-element Slice that renders "one and two". |
| `ErrSliceExamples.AppendThree` | the_test.go:42-48 | Three plain errors, Slice{one,two} with three, one with Slice{two,three}, and other{one,two} with three all merge to the same Slice{one,two,three}. |
| `ErrSliceExamples.FromTable` | the_test.go:92-107 | For the four test inputs: nil stays nil and renders ""; a Slice is kept; a plain error is wrapped; `other` is unpacked by From (rendering "one and two") and wrapped by FromFast (rendering "other: (one, two)"). |
| `ErrSliceExamples.ExampleWrite` | exampleappendcall_test.go:24-34 | A first Write fails with "no writing!". The deferred AppendCall then merges in Close's "no closing!", so the result is the two-element Slice. |
| `ErrSliceExamples.ExampleAppendCall` | exampleappendcall_test.go:36-44 | Iterating over From of that result prints "Error: no writing!" and then "Error: no closing!". |
| `ErrSliceExamples.AppendCallTwice` | errslice.go:142-144 | AppendCall into a nil slot stores the failure itself. A second failure makes a two-element Slice that renders "no writing! and no closing!". |

## Left out

- Reflection and panic/recover (errslice.go:52-61) are not modelled as such. Which values `reflect.Value.Convert` accepts is fixed by the `Err` case: `Slice` and `Foreign` are convertible and `Leaf` is not.
- Slice capacity and aliasing: `append` at errslice.go:132-134 may write into the backing array of a `Slice` or a foreign `[]error` passed as the first argument (`reflect.Value.Convert` at errslice.go:59 copies only the slice header). Dafny sequences are values, so the model always behaves as if it copied.
- Nil versus empty `Slice` inside a non-nil error: Go's `Slice(nil)` and `Slice{}` are both `SliceErr([])`. So `FromFast` and `From` of a non-nil error holding a nil `Slice` give an empty, not a nil, result.
- Pointer identity: "returned unchanged" is value equality. Errors compared by pointer (such as those from `errors.New`) are not distinguished when their messages are equal.
- The deferred call and the named result of `exampleWrite` (exampleappendcall_test.go:24-34): `AppendCall` receives `f()`'s result as a value. The example's loop over the bytes 'a' to 'z' is not modelled, because its writer fails on the first byte.
- Test plumbing: `fmt` `%v` formatting, `bytes.Buffer`, the `diff` comparison, `io.WriteCloser`, `os.Stdout`. The foreign type's own `Error()` (the_test.go:16-27) is foreign code, and its output is the `text` field of `Foreign`.
- ErrSlice.SliceError: requires every element to be non-nil, so the nil-pointer panic that `err.Error()` raises on a nil element (errslice.go:19) is not modelled.
- Concurrency: the package gives no synchronisation, and the model is sequential.
