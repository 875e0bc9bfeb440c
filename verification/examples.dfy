/**
 * The package's test table and its AppendCall example, stated over the model:
 * three plain errors "one", "two" and "three", a Slice of two of them, and a
 * foreign []error type `other` whose own Error() renders "other: (one, two)".
 */
module ErrSliceExamples {
  import opened Wrappers
  import opened ErrSlice

  const One: Err := Leaf("one")
  const Two: Err := Leaf("two")
  const Three: Err := Leaf("three")
  const OneAndTwo: Err := SliceErr([Some(One), Some(Two)])
  const Other: Err := Foreign([Some(One), Some(Two)], "other: (one, two)")

  /** The three plain errors, merged, render as an Oxford-comma list. */
  const AllThree: Err := SliceErr([Some(One), Some(Two), Some(Three)])

  lemma AllThreeRendering()
    ensures Renderable(AllThree)
    ensures Message(AllThree) == "one, two, and three"
  {
    assert MessagesOf(AllThree.elems) == ["one", "two", "three"];
    assert ["one", "two", "three"][..2] == ["one", "two"];
    assert ["one", "two"][..1] == ["one"];
  }

  /** Only nils, in any number, merge to nil. */
  lemma AppendOnlyNils()
    ensures Merge([None]) == None
    ensures Merge([None, None]) == None
    ensures Merge([None, None, None]) == None
  {
    MergeNil([None]);
    MergeNil([None, None]);
    MergeNil([None, None, None]);
  }

  /** A lone error comes back itself, wherever the nils sit. */
  lemma AppendLone(e: Err)
    ensures Merge([Some(e)]) == Some(e)
    ensures Merge([Some(e), None]) == Some(e)
    ensures Merge([None, Some(e)]) == Some(e)
  {
    MergeLone([Some(e)], 0);
    MergeLone([Some(e), None], 0);
    MergeLone([None, Some(e)], 1);
  }

  /** Two plain errors merge to a Slice rendered "one and two"; a trailing nil
      changes nothing. */
  lemma AppendTwo()
    ensures Merge([Some(One), Some(Two)]) == Some(OneAndTwo)
    ensures Merge([Some(One), Some(Two), None]) == Some(OneAndTwo)
    ensures Message(OneAndTwo) == "one and two"
  {
    MergePair(Some(One), Some(Two));
    assert [Some(One)] + [Some(Two)] == OneAndTwo.elems;
    var errs := [Some(One), Some(Two), None];
    MergeAfterSecond(errs, 0, 1);
    assert PresentIn(errs, 1, 3) == [Two];
    SplicedSingle(Two);
    assert MessagesOf(OneAndTwo.elems) == ["one", "two"];
  }

  /** Three plain errors merge to the three-element Slice. */
  lemma AppendThreePlain()
    ensures Merge([Some(One), Some(Two), Some(Three)]) == Some(AllThree)
  {
    var errs := [Some(One), Some(Two), Some(Three)];
    MergeAfterSecond(errs, 0, 1);
    assert PresentIn(errs, 1, 3) == [Two, Three];
    SplicedConcat([Two], [Three]);
    SplicedSingle(Two);
    SplicedSingle(Three);
    assert [Two] + [Three] == [Two, Three];
    assert [Some(One)] + ([Some(Two)] + [Some(Three)]) == AllThree.elems;
  }

  /** A Slice followed by an error, an error followed by a Slice, and a
      foreign []error followed by an error merge to the same Slice. */
  lemma AppendThreeFlattened()
    ensures Merge([Some(OneAndTwo), Some(Three)]) == Some(AllThree)
    ensures Merge([Some(One), Some(SliceErr([Some(Two), Some(Three)]))]) == Some(AllThree)
    ensures Merge([Some(Other), Some(Three)]) == Some(AllThree)
  {
    assert OneAndTwo.elems + [Some(Three)] == AllThree.elems;
    assert [Some(One)] + [Some(Two), Some(Three)] == AllThree.elems;
    MergePair(Some(OneAndTwo), Some(Three));
    MergePair(Some(One), Some(SliceErr([Some(Two), Some(Three)])));
    ForeignFlattenedOnlyFirst(Other.elems, Other.text, Three);
  }

  /** Three plain errors, a Slice followed by an error, an error followed by a
      Slice, and a foreign []error followed by an error all merge to the same
      three-element Slice. */
  lemma AppendThree()
    ensures Merge([Some(One), Some(Two), Some(Three)]) == Some(AllThree)
    ensures Merge([Some(OneAndTwo), Some(Three)]) == Some(AllThree)
    ensures Merge([Some(One), Some(SliceErr([Some(Two), Some(Three)]))]) == Some(AllThree)
    ensures Merge([Some(Other), Some(Three)]) == Some(AllThree)
  {
    AppendThreePlain();
    AppendThreeFlattened();
  }

  /** From and FromFast over the test inputs: nil stays nil (and renders as
      ""), a Slice is returned as it is, a plain error is wrapped, and the
      foreign []error is unpacked by From but wrapped by FromFast. */
  lemma FromTable()
    ensures From(None) == None && FromFast(None) == None
    ensures Message(SliceErr([])) == ""
    ensures From(Some(OneAndTwo)) == Some(OneAndTwo.elems) == FromFast(Some(OneAndTwo))
    ensures From(Some(One)) == Some([Some(One)]) == FromFast(Some(One))
    ensures Message(SliceErr(From(Some(One)).value)) == "one"
    ensures From(Some(Other)) == Some(OneAndTwo.elems)
    ensures Message(SliceErr(From(Some(Other)).value)) == "one and two"
    ensures FromFast(Some(Other)) == Some([Some(Other)])
    ensures Message(SliceErr(FromFast(Some(Other)).value)) == "other: (one, two)"
  {
  }

  /** The example's writer: its first Write fails with "no writing!", so the
      function returns that error, and the deferred AppendCall then merges in
      the failure of Close, "no closing!". */
  method ExampleWrite() returns (err: Error)
    ensures err == Some(SliceErr([Some(Leaf("no writing!")), Some(Leaf("no closing!"))]))
  {
    var result := new ErrorSlot(None);
    result.err := Some(Leaf("no writing!"));
    AppendCall(result, Some(Leaf("no closing!")));
    err := result.err;
    assert [Some(Leaf("no writing!"))] + [Some(Leaf("no closing!"))]
        == [Some(Leaf("no writing!")), Some(Leaf("no closing!"))];
  }

  /** The example's caller prints one line per error that From recovers. */
  method ExampleAppendCall() returns (lines: seq<string>)
    ensures lines == ["Error: no writing!", "Error: no closing!"]
  {
    var err := ExampleWrite();
    var errs := From(err).value;
    lines := [];
    for i := 0 to |errs|
      invariant |lines| == i
      invariant forall j :: 0 <= j < i ==> lines[j] == "Error: " + Message(errs[j].value)
    {
      lines := lines + ["Error: " + Message(errs[i].value)];
    }
    assert lines[0] == "Error: no writing!" && lines[1] == "Error: no closing!";
  }

  /** AppendCall into an empty slot stores the failure itself; a second
      failure turns the slot into a two-element Slice. */
  method AppendCallTwice() returns (first: Error, second: Error, text: string)
    ensures first == Some(Leaf("no writing!"))
    ensures second == Some(SliceErr([Some(Leaf("no writing!")), Some(Leaf("no closing!"))]))
    ensures text == "no writing! and no closing!"
  {
    var slot := new ErrorSlot(None);
    AppendCall(slot, Some(Leaf("no writing!")));
    first := slot.err;
    AppendCall(slot, Some(Leaf("no closing!")));
    second := slot.err;
    assert [Some(Leaf("no writing!"))] + [Some(Leaf("no closing!"))]
        == [Some(Leaf("no writing!")), Some(Leaf("no closing!"))];
    assert MessagesOf(second.value.elems) == ["no writing!", "no closing!"];
    text := SliceError(second.value.elems);
  }
}
