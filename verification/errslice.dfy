/**
 * A model of package errslice: a composite error `Slice` (an ordered
 * sequence of errors that is itself an error), its English-list rendering,
 * the coercions `FromFast` and `From`, the variadic merge `Append` and the
 * deferred-call helper `AppendCall`.
 */
module ErrSlice {
  import opened Wrappers

  /** A non-nil Go error value, classified by what the package can see of it. */
  datatype Err =
      /** Any error whose dynamic type is not a `[]error`; `msg` is what its Error() returns. */
    | Leaf(msg: string)
      /** A value of the package's own type `Slice`. */
    | SliceErr(elems: seq<Error>)
      /** A value of some other named type whose underlying type is `[]error`;
          `text` is what that type's own Error() method returns. */
    | Foreign(elems: seq<Error>, text: string)

  /** A Go `error` interface value: None is nil. */
  type Error = Option<Err>

  // ---------------------------------------------------------------------
  // Rendering: Slice.Error
  // ---------------------------------------------------------------------

  /** Rendering reaches only non-nil elements: Slice.Error calls Error() on
      every element, which faults on a nil one. Nested Slices are rendered by
      the same method, so the condition holds recursively for them. */
  predicate Renderable(e: Err) {
    match e
    case SliceErr(es) => forall i :: 0 <= i < |es| ==> es[i].Some? && Renderable(es[i].value)
    case _ => true
  }

  /** Every element is non-nil and renderable: a Slice of them can be rendered. */
  predicate RenderableElems(es: seq<Error>) {
    Renderable(SliceErr(es))
  }

  /** What Error() returns for a non-nil error. */
  function Message(e: Err): string
    requires Renderable(e)
  {
    match e
    case Leaf(m) => m
    case SliceErr(es) => EnglishList(seq(|es|, i requires 0 <= i < |es| => Message(es[i].value)))
    case Foreign(_, t) => t
  }

  /** The messages of the elements of a renderable Slice, in order. */
  function MessagesOf(es: seq<Error>): (ms: seq<string>)
    requires RenderableElems(es)
    ensures |ms| == |es|
    ensures forall i :: 0 <= i < |es| ==> ms[i] == Message(es[i].value)
    ensures Message(SliceErr(es)) == EnglishList(ms)
  {
    seq(|es|, i requires 0 <= i < |es| => Message(es[i].value))
  }

  /** The messages joined by ", " (a non-empty list). */
  function CommaJoin(ms: seq<string>): string
    requires |ms| > 0
  {
    if |ms| == 1 then ms[0] else CommaJoin(ms[..|ms| - 1]) + ", " + ms[|ms| - 1]
  }

  /** An English list with an Oxford comma: "", "a", "a and b", "a, b, and c", ... */
  function EnglishList(ms: seq<string>): string {
    if |ms| == 0 then ""
    else if |ms| == 1 then ms[0]
    else if |ms| == 2 then ms[0] + " and " + ms[1]
    else CommaJoin(ms[..|ms| - 1]) + ", and " + ms[|ms| - 1]
  }

  /** The separator Slice.Error writes after element i of n, chosen by how
      many elements remain (n - i). */
  function Separator(n: nat, i: nat): string
    requires i < n
  {
    if n - i == 1 then ""
    else if n - i == 2 then (if n > 2 then "," else "") + " and "
    else ", "
  }

  /** The text Slice.Error has built after its first i iterations. */
  function Built(ms: seq<string>, i: nat): string
    requires i <= |ms|
  {
    if i == 0 then "" else Built(ms, i - 1) + ms[i - 1] + Separator(|ms|, i - 1)
  }

  /** Before the last two elements, the positional separators are plain commas. */
  lemma {:induction false} BuiltIsCommaList(ms: seq<string>, i: nat)
    requires 1 <= i <= |ms| - 2
    ensures Built(ms, i) == CommaJoin(ms[..i]) + ", "
  {
    if i > 1 {
      BuiltIsCommaList(ms, i - 1);
      assert ms[..i][..i - 1] == ms[..i - 1];
    }
  }

  /** The position-driven loop of Slice.Error produces the English list. */
  lemma {:induction false} BuiltIsEnglishList(ms: seq<string>)
    ensures Built(ms, |ms|) == EnglishList(ms)
  {
    var n := |ms|;
    if n >= 3 {
      BuiltIsCommaList(ms, n - 2);
      assert ms[..n - 1][..n - 2] == ms[..n - 2];
      assert Built(ms, n - 1) == CommaJoin(ms[..n - 2]) + ", " + ms[n - 2] + ", and ";
    } else if n == 2 {
      assert Built(ms, 1) == ms[0] + " and ";
    }
  }

  /** Slice.Error: each element's message followed by a separator chosen by
      position, giving an English list with an Oxford comma. */
  method SliceError(errs: seq<Error>) returns (s: string)
    requires RenderableElems(errs)
    ensures s == Message(SliceErr(errs))
    ensures s == EnglishList(MessagesOf(errs))
  {
    ghost var ms := MessagesOf(errs);
    var b: string := [];
    var i := 0;
    while i < |errs|
      invariant 0 <= i <= |errs|
      invariant b == Built(ms, i)
    {
      b := b + Message(errs[i].value);
      var remaining := |errs| - i;
      if remaining == 1 {
        // nothing after the last element
      } else if remaining == 2 {
        if |errs| > 2 {
          b := b + ",";
        }
        b := b + " and ";
      } else {
        b := b + ", ";
      }
      i := i + 1;
    }
    BuiltIsEnglishList(ms);
    s := b;
  }

  // ---------------------------------------------------------------------
  // Coercion: FromFast, fromByReflection, From
  // ---------------------------------------------------------------------

  /** FromFast: nil stays nil, a Slice is returned as it is, and any other
      error, a foreign []error included, becomes the one-element Slice{err}. */
  function FromFast(err: Error): (r: Option<seq<Error>>)
    ensures r.None? <==> err.None?
    ensures err.Some? && err.value.SliceErr? ==> r == Some(err.value.elems)
    ensures err.Some? && !err.value.SliceErr? ==> r == Some([err])
  {
    match err
    case None => None
    case Some(SliceErr(es)) => Some(es)
    case Some(_) => Some([err])
  }

  /** fromByReflection: the conversion of err to []error, which succeeds
      exactly when the dynamic type's underlying type is []error; a failed
      conversion is caught and reported as no match (None). */
  function FromByReflection(err: Error): (r: Option<seq<Error>>)
    ensures r.Some? <==> err.Some? && !err.value.Leaf?
    ensures r.Some? ==> r.value == err.value.elems
  {
    match err
    case Some(SliceErr(es)) => Some(es)
    case Some(Foreign(es, _)) => Some(es)
    case _ => None
  }

  /** From: like FromFast, but a foreign []error is unpacked into a Slice
      holding the same elements in the same order. */
  function From(err: Error): (r: Option<seq<Error>>)
    ensures r.None? <==> err.None?
    ensures err.Some? && err.value.SliceErr? ==> r == Some(err.value.elems)
    ensures err.Some? && err.value.Foreign? ==> r == Some(err.value.elems)
    ensures err.Some? && err.value.Leaf? ==> r == Some([err])
  {
    match err
    case None => None
    case Some(SliceErr(es)) => Some(es)
    case Some(_) =>
      match FromByReflection(err)
      case Some(es) => Some(es)
      case None => Some([err])
  }

  /** From and FromFast differ exactly on foreign []error values: From unpacks
      them, FromFast wraps them. */
  lemma FromRefinesFromFast(err: Error)
    ensures err.Some? && err.value.Foreign? ==>
              From(err) == Some(err.value.elems) && FromFast(err) == Some([err])
    ensures !(err.Some? && err.value.Foreign?) ==> From(err) == FromFast(err)
  {
  }

  /** Coercing twice is coercing once: the Slice a coercion returns is
      returned unchanged when coerced again. */
  lemma CoercionIdempotent(err: Error)
    ensures err.Some? ==> From(Some(SliceErr(From(err).value))) == From(err)
    ensures err.Some? ==> FromFast(Some(SliceErr(FromFast(err).value))) == FromFast(err)
  {
  }

  /** Coercing a Slice or a plain error keeps its rendered message: a Slice
      is returned as it is, and a one-element Slice renders as its element. */
  lemma CoercionKeepsMessage(err: Error)
    requires err.Some? && !err.value.Foreign? && Renderable(err.value)
    ensures Renderable(SliceErr(FromFast(err).value))
    ensures Message(SliceErr(FromFast(err).value)) == Message(err.value)
    ensures From(err) == FromFast(err)
  {
  }

  /** From renders a foreign []error with this package's English list of its
      elements, not with the foreign type's own Error(). */
  lemma ForeignRenderedAsList(es: seq<Error>, text: string)
    requires RenderableElems(es)
    ensures From(Some(Foreign(es, text))) == Some(es)
    ensures Message(SliceErr(From(Some(Foreign(es, text))).value)) == EnglishList(MessagesOf(es))
  {
  }

  // ---------------------------------------------------------------------
  // Append
  // ---------------------------------------------------------------------

  /** The non-nil arguments among errs[lo..hi], in argument order. */
  function PresentIn(errs: seq<Error>, lo: nat, hi: nat): (r: seq<Err>)
    requires lo <= hi <= |errs|
    decreases hi
  {
    if hi == lo then []
    else PresentIn(errs, lo, hi - 1) + (if errs[hi - 1].Some? then [errs[hi - 1].value] else [])
  }

  /** An error is among the non-nil arguments of errs[lo..hi] exactly when
      some argument in that stretch is that error. */
  lemma {:induction false} PresentInMembers(errs: seq<Error>, lo: nat, hi: nat, x: Err)
    requires lo <= hi <= |errs|
    ensures x in PresentIn(errs, lo, hi) <==> exists j :: lo <= j < hi && errs[j] == Some(x)
    decreases hi
  {
    if hi > lo {
      PresentInMembers(errs, lo, hi - 1, x);
      if errs[hi - 1] == Some(x) {
        assert x in PresentIn(errs, lo, hi);
      }
    }
  }

  /** The non-nil arguments, in argument order. */
  function Present(errs: seq<Error>): seq<Err> {
    PresentIn(errs, 0, |errs|)
  }

  /** What the arguments after the first non-nil one contribute: a Slice its
      elements (one level only), anything else itself as one entry. */
  function Spliced(es: seq<Err>): seq<Error> {
    if es == [] then []
    else Spliced(es[..|es| - 1]) + FromFast(Some(es[|es| - 1])).value
  }

  /** The documented meaning of Append: no non-nil argument gives nil, a lone
      non-nil argument is returned unchanged, and otherwise the result is a
      Slice of the first non-nil argument's elements as From sees them,
      followed by what each later non-nil argument contributes. */
  function Merge(errs: seq<Error>): Error {
    var present := Present(errs);
    if |present| == 0 then None
    else if |present| == 1 then Some(present[0])
    else Some(SliceErr(From(Some(present[0])).value + Spliced(present[1..])))
  }

  /** Every argument in errs[lo..hi] is nil. */
  predicate NilsBetween(errs: seq<Error>, lo: nat, hi: nat)
    requires lo <= hi <= |errs|
  {
    forall j :: lo <= j < hi ==> errs[j].None?
  }

  /** The common case Append answers first: exactly two arguments, both nil. */
  predicate TwoNils(errs: seq<Error>) {
    |errs| == 2 && errs[0].None? && errs[1].None?
  }

  /** Dropping nils commutes with splitting the argument list. */
  lemma {:induction false} PresentSplit(errs: seq<Error>, lo: nat, mid: nat, hi: nat)
    requires lo <= mid <= hi <= |errs|
    ensures PresentIn(errs, lo, hi) == PresentIn(errs, lo, mid) + PresentIn(errs, mid, hi)
    decreases hi
  {
    if hi > mid {
      PresentSplit(errs, lo, mid, hi - 1);
      var last := if errs[hi - 1].Some? then [errs[hi - 1].value] else [];
      calc {
        PresentIn(errs, lo, hi);
        PresentIn(errs, lo, hi - 1) + last;
        (PresentIn(errs, lo, mid) + PresentIn(errs, mid, hi - 1)) + last;
        PresentIn(errs, lo, mid) + (PresentIn(errs, mid, hi - 1) + last);
      }
    }
  }

  /** A stretch of arguments has no non-nil argument exactly when all are nil. */
  lemma {:induction false} PresentNone(errs: seq<Error>, lo: nat, hi: nat)
    requires lo <= hi <= |errs|
    ensures PresentIn(errs, lo, hi) == [] <==> NilsBetween(errs, lo, hi)
    decreases hi
  {
    if hi > lo {
      PresentNone(errs, lo, hi - 1);
      if errs[hi - 1].Some? {
        assert |PresentIn(errs, lo, hi)| == |PresentIn(errs, lo, hi - 1)| + 1;
      } else {
        assert PresentIn(errs, lo, hi) == PresentIn(errs, lo, hi - 1);
      }
    }
  }

  /** When errs[f] is the first non-nil argument and only nils lie between it
      and position s, the non-nil arguments are errs[f] followed by those from s on. */
  lemma PresentAfterFirst(errs: seq<Error>, f: nat, s: nat)
    requires f < s <= |errs|
    requires errs[f].Some?
    requires NilsBetween(errs, 0, f) && NilsBetween(errs, f + 1, s)
    ensures Present(errs) == [errs[f].value] + PresentIn(errs, s, |errs|)
  {
    PresentNone(errs, 0, f);
    PresentNone(errs, f + 1, s);
    PresentSplit(errs, 0, s, |errs|);
    PresentSplit(errs, 0, f + 1, s);
    assert PresentIn(errs, 0, f + 1) == [errs[f].value];
  }

  /** Splicing commutes with concatenating argument lists. */
  lemma {:induction false} SplicedConcat(a: seq<Err>, b: seq<Err>)
    ensures Spliced(a + b) == Spliced(a) + Spliced(b)
  {
    if b == [] {
      assert a + b == a;
    } else {
      var init, last := b[..|b| - 1], b[|b| - 1];
      assert a + b == (a + init) + [last];
      assert (a + b)[..|a + b| - 1] == a + init;
      SplicedConcat(a, init);
    }
  }

  /** Splicing one error gives what FromFast gives for it. */
  lemma SplicedSingle(e: Err)
    ensures Spliced([e]) == FromFast(Some(e)).value
  {
  }

  /** What one argument after the first non-nil one adds to the result. */
  function Contribution(e: Error): seq<Error> {
    if e.Some? then FromFast(e).value else []
  }

  /** One more argument adds its contribution at the end, or nothing if nil. */
  lemma SplicedStep(errs: seq<Error>, s: nat, p: nat, seed: seq<Error>, acc: seq<Error>)
    requires s <= p < |errs|
    requires acc == seed + Spliced(PresentIn(errs, s, p))
    ensures acc + Contribution(errs[p]) == seed + Spliced(PresentIn(errs, s, p + 1))
  {
    var e := errs[p];
    var done := PresentIn(errs, s, p);
    if e.Some? {
      assert PresentIn(errs, s, p + 1) == done + [e.value];
      calc {
        Spliced(done + [e.value]);
        { SplicedConcat(done, [e.value]); }
        Spliced(done) + Spliced([e.value]);
        { SplicedSingle(e.value); }
        Spliced(done) + Contribution(e);
      }
      assert (seed + Spliced(done)) + Contribution(e) == seed + (Spliced(done) + Contribution(e));
    } else {
      assert PresentIn(errs, s, p + 1) == PresentIn(errs, s, p);
    }
  }

  /** Once the first two non-nil arguments, at f and s, are found, the merge
      is the first one's From elements followed by the contributions from s on. */
  lemma MergeAfterSecond(errs: seq<Error>, f: nat, s: nat)
    requires f < s < |errs|
    requires errs[f].Some? && errs[s].Some?
    requires NilsBetween(errs, 0, f) && NilsBetween(errs, f + 1, s)
    ensures Merge(errs) == Some(SliceErr(From(errs[f]).value + Spliced(PresentIn(errs, s, |errs|))))
  {
    PresentAfterFirst(errs, f, s);
    PresentSplit(errs, s, s + 1, |errs|);
    assert PresentIn(errs, s, s + 1) == [errs[s].value];
  }

  /** Append: nil arguments are dropped, a lone non-nil argument is returned
      unchanged, and two or more are merged into a Slice; Slices are
      flattened one level, a foreign []error only as the first non-nil
      argument. */
  method Append(errs: seq<Error>) returns (r: Error)
    ensures r == Merge(errs)
  {
    // the two-nil fast path
    if TwoNils(errs) {
      MergeNil(errs);
      return None;
    }

    var p := 0;

    // find the first non-nil argument
    while true
      invariant 0 <= p <= |errs|
      invariant NilsBetween(errs, 0, p)
      decreases |errs| - p
    {
      if p >= |errs| {
        MergeNil(errs);
        return None;
      }
      if errs[p].Some? {
        break;
      }
      p := p + 1;
    }
    ghost var f := p;
    var first := errs[p].value;
    p := p + 1;

    // find the second non-nil argument
    while true
      invariant f < p <= |errs|
      invariant NilsBetween(errs, 0, f) && NilsBetween(errs, f + 1, p)
      decreases |errs| - p
    {
      if p >= |errs| {
        PresentAfterFirst(errs, f, |errs|);
        return Some(first);
      }
      if errs[p].Some? {
        break;
      }
      p := p + 1;
    }
    ghost var s := p;

    var acc: seq<Error>;
    if first.SliceErr? {
      acc := first.elems;
    } else if FromByReflection(Some(first)).Some? {
      acc := FromByReflection(Some(first)).value;
    } else {
      acc := [Some(first)];
    }
    ghost var seed := From(Some(first)).value;
    assert acc == seed + Spliced(PresentIn(errs, s, s));

    // splice in the second and every later non-nil argument
    while p < |errs|
      invariant s <= p <= |errs|
      invariant acc == seed + Spliced(PresentIn(errs, s, p))
    {
      var e := errs[p];
      SplicedStep(errs, s, p, seed, acc);
      if e.Some? {
        if e.value.SliceErr? {
          acc := acc + e.value.elems;
        } else {
          acc := acc + [e];
        }
      } else {
        assert acc + Contribution(e) == acc;
      }
      p := p + 1;
    }
    MergeAfterSecond(errs, f, s);
    r := Some(SliceErr(acc));
  }

  // ---------------------------------------------------------------------
  // Properties of Append
  // ---------------------------------------------------------------------

  /** Append returns nil exactly when every argument is nil (no arguments included). */
  lemma MergeNil(errs: seq<Error>)
    ensures Merge(errs) == None <==> forall j :: 0 <= j < |errs| ==> errs[j].None?
  {
    PresentNone(errs, 0, |errs|);
  }

  /** A lone non-nil argument comes back unchanged, wherever the nils sit. */
  lemma MergeLone(errs: seq<Error>, k: nat)
    requires k < |errs| && errs[k].Some?
    requires forall j :: 0 <= j < |errs| && j != k ==> errs[j].None?
    ensures Merge(errs) == errs[k]
  {
    PresentAfterFirst(errs, k, |errs|);
  }

  /** With two or more non-nil arguments the result is a Slice whose elements
      are, in argument order, each non-nil argument's contribution; the k-th
      (k >= 1) contributes exactly what FromFast gives for it. */
  lemma MergeContributions(errs: seq<Error>, k: nat)
    requires 1 <= k < |Present(errs)|
    ensures var p := Present(errs);
            Merge(errs) == Some(SliceErr(From(Some(p[0])).value + (Spliced(p[1..k])
                                         + FromFast(Some(p[k])).value + Spliced(p[k + 1..]))))
  {
    var p := Present(errs);
    assert p[1..] == (p[1..k] + [p[k]]) + p[k + 1..];
    SplicedConcat(p[1..k] + [p[k]], p[k + 1..]);
    SplicedConcat(p[1..k], [p[k]]);
    SplicedSingle(p[k]);
  }

  /** Flattening is one level deep: a later Slice argument contributes its
      elements as they are (their own elements are not spliced), and a later
      foreign []error is one opaque entry. */
  lemma MergeFlattensOneLevel(errs: seq<Error>, k: nat)
    requires 1 <= k < |Present(errs)|
    ensures var p := Present(errs);
            var before := From(Some(p[0])).value + Spliced(p[1..k]);
            var elems := Merge(errs).value.elems;
            Merge(errs).value.SliceErr? &&
            (p[k].SliceErr? ==> elems == before + p[k].elems + Spliced(p[k + 1..])) &&
            (!p[k].SliceErr? ==> elems == before + [Some(p[k])] + Spliced(p[k + 1..]))
  {
    MergeContributions(errs, k);
    var p := Present(errs);
    var before, after := From(Some(p[0])).value + Spliced(p[1..k]), Spliced(p[k + 1..]);
    var mine := FromFast(Some(p[k])).value;
    assert From(Some(p[0])).value + (Spliced(p[1..k]) + mine + after) == before + mine + after;
  }

  /** The first non-nil argument seeds the result as From sees it: a Slice
      or a foreign []error contributes its elements, anything else itself. */
  lemma MergeSeed(errs: seq<Error>)
    requires |Present(errs)| >= 2
    ensures var first := Present(errs)[0];
            var elems := Merge(errs).value.elems;
            Merge(errs).value.SliceErr? &&
            (!first.Leaf? ==> elems[..|first.elems|] == first.elems) &&
            (first.Leaf? ==> elems[0] == Some(first))
  {
  }

  /** Spliced plain errors are wrapped one by one, in order. */
  lemma {:induction false} SplicedLeaves(es: seq<Err>)
    requires forall i :: 0 <= i < |es| ==> es[i].Leaf?
    ensures |Spliced(es)| == |es|
    ensures forall i :: 0 <= i < |es| ==> Spliced(es)[i] == Some(es[i])
  {
    if es != [] {
      SplicedLeaves(es[..|es| - 1]);
    }
  }

  /** Merging plain errors neither reorders nor deduplicates them: the result
      holds every non-nil argument once, in argument order, and From recovers
      them all. */
  lemma MergeKeepsOrder(errs: seq<Error>)
    requires |Present(errs)| >= 1
    requires forall e :: e in Present(errs) ==> e.Leaf?
    ensures var p := Present(errs);
            var back := From(Merge(errs));
            back.Some? && |back.value| == |p| &&
            forall i :: 0 <= i < |p| ==> back.value[i] == Some(p[i])
  {
    var p := Present(errs);
    SplicedLeaves(p[1..]);
  }

  /** The two-argument merge AppendCall performs: nil on either side yields
      the other side unchanged; otherwise the first is coerced with From and
      the second contributes what FromFast gives. */
  lemma MergePair(a: Error, b: Error)
    ensures Merge([a, b]) == if a.None? then b
                             else if b.None? then a
                             else Some(SliceErr(From(a).value + FromFast(b).value))
  {
    assert PresentIn([a, b], 0, 1) == if a.Some? then [a.value] else [];
    var p := Present([a, b]);
    if a.Some? && b.Some? {
      assert p == [a.value, b.value];
      assert p[1..] == [b.value];
      SplicedSingle(b.value);
    }
  }

  /** Splicing renderable errors yields only renderable elements. */
  lemma {:induction false} SplicedRenderable(es: seq<Err>)
    requires forall i :: 0 <= i < |es| ==> Renderable(es[i])
    ensures RenderableElems(Spliced(es))
  {
    if es != [] {
      var init, last := es[..|es| - 1], es[|es| - 1];
      SplicedRenderable(init);
      assert Renderable(last);
      assert RenderableElems(FromFast(Some(last)).value);
    }
  }

  /** Merging renderable errors gives a renderable error, provided a foreign
      []error in first place, whose elements get unpacked, has renderable
      elements too. */
  lemma MergeRenderable(errs: seq<Error>)
    requires forall e :: e in Present(errs) ==> Renderable(e)
    requires |Present(errs)| >= 1 && Present(errs)[0].Foreign? ==> RenderableElems(Present(errs)[0].elems)
    ensures Merge(errs).Some? ==> Renderable(Merge(errs).value)
  {
    var p := Present(errs);
    if |p| >= 2 {
      assert p[0] in p;
      assert RenderableElems(From(Some(p[0])).value);
      assert forall i :: 1 <= i < |p| ==> p[i] in p;
      SplicedRenderable(p[1..]);
    } else if |p| == 1 {
      assert p[0] in p;
    }
  }

  /** Nil elements inside a Slice argument are spliced into the result as
      they are: Append drops nil arguments, not nil elements. */
  lemma MergeKeepsNilElements(x: Err)
    ensures Merge([Some(SliceErr([None])), Some(x)]) == Some(SliceErr([None] + FromFast(Some(x)).value))
    ensures Merge([Some(x), Some(SliceErr([None]))]) == Some(SliceErr(From(Some(x)).value + [None]))
  {
    MergePair(Some(SliceErr([None])), Some(x));
    MergePair(Some(x), Some(SliceErr([None])));
  }

  /** The flattening asymmetry: a foreign []error is unpacked when it is the
      first non-nil argument, and kept as one opaque entry when it comes later. */
  lemma ForeignFlattenedOnlyFirst(es: seq<Error>, text: string, x: Err)
    ensures Merge([Some(Foreign(es, text)), Some(x)]) == Some(SliceErr(es + FromFast(Some(x)).value))
    ensures Merge([Some(x), Some(Foreign(es, text))]) == Some(SliceErr(From(Some(x)).value + [Some(Foreign(es, text))]))
  {
    MergePair(Some(Foreign(es, text)), Some(x));
    MergePair(Some(x), Some(Foreign(es, text)));
  }

  // ---------------------------------------------------------------------
  // AppendCall
  // ---------------------------------------------------------------------

  /** A variable of type error that AppendCall writes through. */
  class ErrorSlot {
    var err: Error

    constructor (init: Error)
      ensures err == init
    {
      err := init;
    }
  }

  /** AppendCall: the slot becomes Append(old slot, result of f); f's result
      is passed in already computed. */
  method AppendCall(errp: ErrorSlot, result: Error)
    modifies errp
    ensures errp.err == Merge([old(errp.err), result])
    ensures errp.err == if old(errp.err).None? then result
                        else if result.None? then old(errp.err)
                        else Some(SliceErr(From(old(errp.err)).value + FromFast(result).value))
  {
    errp.err := Append([errp.err, result]);
    MergePair(old(errp.err), result);
  }
}
