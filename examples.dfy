/**
 * Worked cases of marking and clearing on small pages.
 */
module Examples {
  import opened Wrappers
  import opened DomTree
  import opened RangeOps
  import opened RangeExtract
  import opened Marking
  import opened Unwrap
  import opened Resolution
  import opened Pages
  import Gestures

  const Yellow: string := "#ffeb3b"

  /** Offsets 3 and 7 of "hello world" mark "lo w": the text node is split around a
    * new marker. */
  lemma MarkInsideOneText()
    ensures var cs := [Elem(Plain("p"), [Text("hello world")])];
      && SurroundContents(cs, [0, 0, 3], [0, 0, 7], Yellow)
         == Ok([Elem(Plain("p"), [Text("hel"), Elem(Marker(Yellow), [Text("lo w")]), Text("orld")])])
  {
    var t := [Text("hello world")];
    var cs := [Elem(Plain("p"), t)];
    var a, b := [0, 0, 3], [0, 0, 7];
    assert "hello world"[..3] + "hello world"[7..] == "helorld";
    assert "hello world"[3..7] == "lo w";
    assert "helorld"[..3] == "hel" && "helorld"[3..] == "orld";
    assert a[1..] == [0, 3] && b[1..] == [0, 7];
    assert !PartiallySelectsElement(t, [0, 3], [0, 7]);
    assert !PartiallySelectsElement(cs, a, b);
    assert ExtractSeq(t, [0, 3], [0, 7]) == Extraction([Text("helorld")], [Text("lo w")], [0, 3]);
    assert ExtractSeq(cs, a, b) == Extraction([Elem(Plain("p"), [Text("helorld")])], [Text("lo w")], [0, 0, 3]);
    var m := Elem(Marker(Yellow), [Text("lo w")]);
    assert InsertSeq([Text("helorld")], [0, 3], m) == [Text("hel"), m, Text("orld")];
    assert InsertSeq([Elem(Plain("p"), [Text("helorld")])], [0, 0, 3], m)
        == [Elem(Plain("p"), [Text("hel"), m, Text("orld")])];
    assert ExtractAndInsert(cs, a, b, Yellow)
        == [Elem(Plain("p"), [Text("hel"), Elem(Marker(Yellow), [Text("lo w")]), Text("orld")])];
  }

  function Para(s: string): Node {
    Elem(Plain("p"), [Text(s)])
  }

  /** Extracting from offset 1 of "ab" to offset 1 of "cd" splits both paragraphs. */
  lemma ExtractAcrossParagraphs()
    ensures ExtractSeq([Para("ab"), Para("cd")], [0, 0, 1], [1, 0, 1])
         == Extraction([Para("a"), Para("d")], [Para("b"), Para("c")], [1])
  {
    assert [0, 0, 1][1..] == [0, 1] && [1, 0, 1][1..] == [0, 1] && [0, 1][1..] == [1];
    assert "ab"[..1] == "a" && "ab"[1..] == "b" && "cd"[..1] == "c" && "cd"[1..] == "d";
    assert BeforeSeq([Text("ab")], [0, 1]) == [Text("a")];
    assert BeforeSeq([Text("cd")], [0, 1]) == [Text("c")];
    assert Before(Para("ab"), [0, 1]) == Para("a");
    assert After(Para("ab"), [0, 1]) == Para("b");
    assert Before(Para("cd"), [0, 1]) == Para("c");
    assert After(Para("cd"), [0, 1]) == Para("d");
  }

  lemma UnwrapPara(t: string)
    ensures UnwrapNode(Para(t)) == [Para(t)] && UnwrapSeq([Para(t)]) == [Para(t)]
  {
    UnwrapSeqSingle(Text(t));
    UnwrapSeqSingle(Para(t));
  }

  /** Clearing a marker that holds two paragraphs leaves them side by side. */
  lemma UnwrapAcrossParagraphs()
    ensures UnwrapSeq([Para("a"), Elem(Marker(Yellow), [Para("b"), Para("c")]), Para("d")])
         == [Para("a"), Para("b"), Para("c"), Para("d")]
  {
    var m := Elem(Marker(Yellow), [Para("b"), Para("c")]);
    assert [Para("a"), m, Para("d")] == [Para("a")] + [m] + [Para("d")];
    UnwrapMid([Para("a")], m, [Para("d")]);
    UnwrapPara("a");
    UnwrapPara("b");
    UnwrapPara("c");
    UnwrapPara("d");
    UnwrapSeqAppend([Para("b")], [Para("c")]);
    assert [Para("b")] + [Para("c")] == [Para("b"), Para("c")];
  }

  /** A range from the first paragraph into the second cannot be surrounded: the
    * fallback wraps a copy of each paragraph's part, and clearing then leaves four
    * paragraphs where there were two. */
  lemma MarkAcrossParagraphs()
    ensures var cs := [Para("ab"), Para("cd")];
      var marked := ExtractAndInsert(cs, [0, 0, 1], [1, 0, 1], Yellow);
      && SurroundContents(cs, [0, 0, 1], [1, 0, 1], Yellow).Fail?
      && marked == [Para("a"), Elem(Marker(Yellow), [Para("b"), Para("c")]), Para("d")]
      && UnwrapSeq(marked) == [Para("a"), Para("b"), Para("c"), Para("d")]
  {
    var cs := [Para("ab"), Para("cd")];
    ExtractAcrossParagraphs();
    UnwrapAcrossParagraphs();
  }

  /** A drag from offset 7 back to offset 3 of "hello world" marks the same "lo w" as a
    * forward drag; one that reaches offset 12 is refused and leaves the page alone. */
  lemma DragInsideOneText(caret: CaretOracle, color: string)
    ensures var cs := [Elem(Plain("p"), [Text("hello world")])];
      var press := GesturePoint(10, 10, Some(BoundaryPoint([0, 0], 7)));
      && ResolveRange(cs, press, GesturePoint(0, 10, Some(BoundaryPoint([0, 0], 3))), caret)
         == Ok(Range([0, 0, 3], [0, 0, 7]))
      && ResolveRange(cs, press, GesturePoint(30, 10, Some(BoundaryPoint([0, 0], 12))), caret)
         == Fail(InvalidTextOffset)
      && AfterGesture(cs, press, GesturePoint(30, 10, Some(BoundaryPoint([0, 0], 12))), caret, color) == cs
  {
    var cs := [Elem(Plain("p"), [Text("hello world")])];
    var press := GesturePoint(10, 10, Some(BoundaryPoint([0, 0], 7)));
    assert |"hello world"| == 11;
    assert NodeAtSeq(cs, [0, 0]) == Some(Text("hello world"));
    SameNodeResolution(cs, press, GesturePoint(0, 10, Some(BoundaryPoint([0, 0], 3))), caret);
    assert [0, 0] + [Min(7, 3)] == [0, 0, 3] && [0, 0] + [Max(7, 3)] == [0, 0, 7];
    var far := GesturePoint(30, 10, Some(BoundaryPoint([0, 0], 12)));
    assert SameNodeRange(cs, press.caret.value, far.caret.value) == Fail(InvalidTextOffset);
    assert ResolveRange(cs, press, far, caret) == Fail(InvalidTextOffset);
  }

  /** A layout of two paragraphs "ab" and "cd": left of x = 50 the caret falls after "a",
    * elsewhere after "c". */
  function TwoParagraphCaret(x: int, y: int): Option<BoundaryPoint> {
    if x < 50 then Some(BoundaryPoint([0, 0], 1)) else Some(BoundaryPoint([1, 0], 1))
  }

  /** A drag from the second paragraph back into the first takes the slow path: both
    * coordinates are probed again, the range runs forward from "a|b" to "c|d", and the
    * page is marked across the two paragraphs. */
  lemma DragAcrossParagraphs()
    ensures var cs := [Para("ab"), Para("cd")];
      var press := GesturePoint(60, 20, Some(BoundaryPoint([1, 0], 1)));
      var release := GesturePoint(10, 5, Some(BoundaryPoint([0, 0], 1)));
      && ResolveRange(cs, press, release, TwoParagraphCaret) == Ok(Range([0, 0, 1], [1, 0, 1]))
      && AfterGesture(cs, press, release, TwoParagraphCaret, Yellow)
         == [Para("a"), Elem(Marker(Yellow), [Para("b"), Para("c")]), Para("d")]
  {
    var cs := [Para("ab"), Para("cd")];
    var press := GesturePoint(60, 20, Some(BoundaryPoint([1, 0], 1)));
    var release := GesturePoint(10, 5, Some(BoundaryPoint([0, 0], 1)));
    assert [0, 0, 1][1..] == [0, 1] && [1, 0, 1][1..] == [0, 1] && [0, 1][1..] == [1];
    assert KeyOf(BoundaryPoint([1, 0], 1)) == [1, 0, 1] && KeyOf(BoundaryPoint([0, 0], 1)) == [0, 0, 1];
    ProbedSucceeds(cs, press, release, TwoParagraphCaret);
    MarkAcrossParagraphs();
  }

  /** A move of exactly 5 pixels (3 across, 4 down) is still a click; 4 and 4 is a drag. */
  lemma ThresholdCases()
    ensures !Gestures.ExceedsDragThreshold(3, 4) && !Gestures.ExceedsDragThreshold(-5, 0)
    ensures Gestures.ExceedsDragThreshold(4, 4) && Gestures.ExceedsDragThreshold(0, -6)
  {
  }
}
