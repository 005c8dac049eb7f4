/**
 * The page the content script works on, changed in place: marking the current
 * range (`highlightSelection`), resolving and marking a gesture
 * (`highlightBetweenPoints`), and removing every marker (`clearHighlights`).
 */
module Pages {
  import opened Wrappers
  import opened DomTree
  import opened RangeExtract
  import opened Marking
  import opened Unwrap
  import opened Resolution

  /** What a gesture step does to the page: mark the resolved range, or nothing when
    * resolution fails. */
  function AfterGesture(cs: seq<Node>, start: GesturePoint, end: GesturePoint, caret: CaretOracle, color: string): seq<Node> {
    match ResolveRange(cs, start, end, caret)
    case Ok(r) => ExtractAndInsert(cs, r.start, r.end, color)
    case Fail(_) => cs
  }

  /** A gesture step never changes the page's text. */
  lemma GesturePreservesText(cs: seq<Node>, start: GesturePoint, end: GesturePoint, caret: CaretOracle, color: string)
    ensures FlatSeq(AfterGesture(cs, start, end, caret, color)) == FlatSeq(cs)
  {
    match ResolveRange(cs, start, end, caret)
    case Ok(r) => MarkPreservesText(cs, r.start, r.end, color);
    case Fail(_) =>
  }

  /** A gesture step that resolves leaves one more marker of `color`, holding the range's text;
    * one that fails leaves the page as it was. */
  lemma GestureMarks(cs: seq<Node>, start: GesturePoint, end: GesturePoint, caret: CaretOracle, color: string)
    ensures var r := ResolveRange(cs, start, end, caret);
      r.Fail? ==> AfterGesture(cs, start, end, caret, color) == cs
    ensures var r := ResolveRange(cs, start, end, caret);
      r.Ok? ==> MarkerCountSeq(AfterGesture(cs, start, end, caret, color)) > MarkerCountSeq(cs)
  {
    match ResolveRange(cs, start, end, caret)
    case Ok(r) => MarkCount(cs, r.start, r.end, color);
    case Fail(_) =>
  }

  class Page {
    /** `document.body`'s children. */
    var body: seq<Node>

    constructor (initial: seq<Node>)
      ensures body == initial
    {
      body := initial;
    }

    /** `highlightSelection` with `selected` the selection's range, if it has one: wrap a
      * non-collapsed range in a marker of `color`, by `surroundContents` or, when that
      * throws, by extracting, appending to the span and inserting it. */
    method HighlightSelection(selected: Option<Range>, color: string)
      requires selected.Some? ==> ValidKeySeq(body, selected.value.start) && ValidKeySeq(body, selected.value.end)
      requires selected.Some? ==> KeyLe(selected.value.start, selected.value.end)
      modifies this
      ensures selected.None? || selected.value.start == selected.value.end ==> body == old(body)
      ensures selected.Some? && selected.value.start != selected.value.end ==>
        body == ExtractAndInsert(old(body), selected.value.start, selected.value.end, color)
      ensures FlatSeq(body) == FlatSeq(old(body))
    {
      if selected.None? {
        return;
      }
      var range := selected.value;
      if range.start == range.end {
        return;
      }
      MarkPreservesText(body, range.start, range.end, color);
      var attempt := SurroundContents(body, range.start, range.end, color);
      match attempt
      case Ok(surrounded) =>
        body := surrounded;
      case Fail(_) =>
        var e := ExtractSeq(body, range.start, range.end);
        var span := Elem(Marker(color), e.fragment);
        body := InsertSeq(e.rest, e.at, span);
    }

    /** `highlightBetweenPoints(start, end)`: resolve the gesture to a range and, when
      * that succeeds, select it and mark it. */
    method HighlightBetweenPoints(start: GesturePoint, end: GesturePoint, caret: CaretOracle, color: string)
      returns (outcome: Result<Range, Failure>)
      modifies this
      ensures outcome == ResolveRange(old(body), start, end, caret)
      ensures body == AfterGesture(old(body), start, end, caret, color)
    {
      outcome := ResolveRange(body, start, end, caret);
      if outcome.Ok? {
        HighlightSelection(Some(outcome.value), color);
      }
    }

    /** One marker of the static list: move its children before it one by one, then remove it. */
    method UnwrapMarker(loc: Location)
      requires MarkerAt(body, loc)
      modifies this
      ensures IsContainer(old(body), loc.parent)
      ensures body == SetChildrenAt(old(body), loc.parent, Spliced(ChildrenAt(old(body), loc.parent), loc.index))
    {
      var parent, j := loc.parent, loc.index;
      // `cur` is the parent's live child list, kept equal to what `body` holds there.
      var cur := ChildrenAt(body, parent);
      ghost var kids := cur;
      var pos := j;
      SetChildrenAtSame(body, parent);
      while |cur[pos].children| > 0
        invariant IsContainer(old(body), parent) && kids == ChildrenAt(old(body), parent)
        invariant 0 <= j < |kids| && IsMarker(kids[j])
        invariant 0 <= pos < |cur| && IsMarker(cur[pos]) && Spliced(cur, pos) == Spliced(kids, j)
        invariant body == SetChildrenAt(old(body), parent, cur)
        decreases |cur[pos].children|
      {
        var next := MoveFirstChildOut(cur, pos);
        MoveOutSplices(cur, pos);
        SetChildrenAtTwice(old(body), parent, cur, next);
        body := SetChildrenAt(body, parent, next);
        cur, pos := next, pos + 1;
      }
      RemoveEmpty(cur, pos);
      SetChildrenAtTwice(old(body), parent, cur, cur[..pos] + cur[pos + 1..]);
      body := SetChildrenAt(body, parent, cur[..pos] + cur[pos + 1..]);
    }

    /** `clearHighlights`: unwrap every marker of `querySelectorAll('.extension-highlight')`,
      * in document order. */
    method ClearHighlights()
      modifies this
      ensures MarkerCountSeq(body) == 0
      ensures body == UnwrapSeq(old(body))
      ensures FlatSeq(body) == FlatSeq(old(body))
    {
      var highlights := MarkerCountSeq(body);
      for k := 0 to highlights
        invariant MarkerCountSeq(body) == highlights - k
        invariant UnwrapSeq(body) == UnwrapSeq(old(body))
      {
        var next := FirstMarker(body);
        var loc := next.value;
        ghost var before := body;
        UnwrapMarker(loc);
        var kids := ChildrenAt(before, loc.parent);
        SplicedFacts(kids, loc.index);
        UnwrapSetChildren(before, loc.parent, Spliced(kids, loc.index));
        SetChildrenAtCount(before, loc.parent, Spliced(kids, loc.index));
        SetChildrenAtSpec(before, loc.parent, Spliced(kids, loc.index));
      }
      UnwrapIdentity(body);
      UnwrapText(old(body));
    }
  }
}
