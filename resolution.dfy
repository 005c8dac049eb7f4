/**
 * Turning the two points of a drag gesture into one forward-ordered range
 * (`highlightBetweenPoints`), before any marking happens.
 */
module Resolution {
  import opened Wrappers
  import opened DomTree

  /** A caret position as `caretRangeFromPoint` reports it: the container's path and
    * the offset inside it. */
  datatype BoundaryPoint = BoundaryPoint(path: seq<int>, offset: int)

  function KeyOf(p: BoundaryPoint): Key {
    p.path + [p.offset]
  }

  /** `document.caretRangeFromPoint(x, y)` on the current layout, when it finds a caret. */
  type CaretOracle = (int, int) -> Option<BoundaryPoint>

  /** A point of the gesture: its coordinates and the caret found under them when the
    * point was recorded (`getTextNodeOffset`). */
  datatype GesturePoint = GesturePoint(x: int, y: int, caret: Option<BoundaryPoint>)

  /** `getTextNodeOffset`: the caret under the event's coordinates. */
  function PointAt(x: int, y: int, caret: CaretOracle): GesturePoint
  {
    GesturePoint(x, y, caret(x, y))
  }

  /** A range between two boundary points. */
  datatype Range = Range(start: Key, end: Key)

  /** Why no range was built; each case ends the handler with a diagnostic and no marking. */
  datatype Failure =
    | InvalidTextOffset    // same node, but the offsets do not fit the node's length
    | NoCaretRange         // a re-probe found no caret
    | InvalidContainer     // a probe's container is absent
    | BoundaryOutOfRange   // `setStart` / `setEnd` refused a boundary point
    | CollapsedRange       // start and end coincide

  function Min(x: int, y: int): int { if x <= y then x else y }
  function Max(x: int, y: int): int { if x <= y then y else x }

  /** The range is usable: both ends are boundary points of the page, in document order,
    * and it is not collapsed. */
  predicate ForwardRange(cs: seq<Node>, r: Range) {
    ValidKeySeq(cs, r.start) && ValidKeySeq(cs, r.end) && KeyLe(r.start, r.end) && r.start != r.end
  }

  /** Both recorded carets lie in the same node. */
  predicate SameNode(start: GesturePoint, end: GesturePoint) {
    start.caret.Some? && end.caret.Some? && start.caret.value.path == end.caret.value.path
  }

  /** The fast path for two carets in the same node: from the smaller offset to the larger,
    * provided the node is a text node and both fit its length (an element has no length,
    * so the bounds test fails for it). */
  function SameNodeRange(cs: seq<Node>, p: BoundaryPoint, q: BoundaryPoint): (r: Result<Range, Failure>)
    requires p.path == q.path
    ensures r.Ok? ==> ValidKeySeq(cs, r.value.start) && ValidKeySeq(cs, r.value.end) && KeyLe(r.value.start, r.value.end)
    ensures r.Fail? ==> r.error == InvalidTextOffset
  {
    var lo, hi := Min(p.offset, q.offset), Max(p.offset, q.offset);
    if |p.path| >= 1 && NodeAtSeq(cs, p.path).Some? && NodeAtSeq(cs, p.path).value.Text?
       && lo >= 0 && hi <= |NodeAtSeq(cs, p.path).value.data|
    then
      ValidKeyInText(cs, p.path, lo);
      ValidKeyInText(cs, p.path, hi);
      KeyLeSameContainer(p.path, lo, hi);
      Ok(Range(p.path + [lo], p.path + [hi]))
    else
      Fail(InvalidTextOffset)
  }

  /** `path` names the body or a node of it. */
  predicate NamesNode(cs: seq<Node>, path: seq<int>) {
    path == [] || NodeAtSeq(cs, path).Some?
  }

  /** The slow path: order the two probe carets by `compareBoundaryPoints(START_TO_START)`
    * and set the range from the earlier to the later. */
  function ProbedRange(cs: seq<Node>, sp: BoundaryPoint, ep: BoundaryPoint): (r: Result<Range, Failure>)
    ensures r.Ok? ==> ValidKeySeq(cs, r.value.start) && ValidKeySeq(cs, r.value.end) && KeyLe(r.value.start, r.value.end)
    ensures r.Ok? ==> {r.value.start, r.value.end} == {KeyOf(sp), KeyOf(ep)}
  {
    if !NamesNode(cs, sp.path) || !NamesNode(cs, ep.path) then Fail(InvalidContainer)
    else
      var ks, ke := KeyOf(sp), KeyOf(ep);
      var first, last := if CompareKeys(ks, ke) <= 0 then ks else ke, if CompareKeys(ks, ke) <= 0 then ke else ks;
      KeyLeTotal(ks, ke);
      if ValidKeySeq(cs, first) && ValidKeySeq(cs, last) then Ok(Range(first, last))
      else Fail(BoundaryOutOfRange)
  }

  /** `highlightBetweenPoints` up to the point where it hands the range on: the fast path
    * when both recorded carets are in the same node, otherwise fresh probes at both
    * coordinates; a collapsed result is refused. */
  function ResolveRange(cs: seq<Node>, start: GesturePoint, end: GesturePoint, caret: CaretOracle): (r: Result<Range, Failure>)
    ensures r.Ok? ==> ForwardRange(cs, r.value)
  {
    var built :=
      if SameNode(start, end) then SameNodeRange(cs, start.caret.value, end.caret.value)
      else
        match (caret(start.x, start.y), caret(end.x, end.y))
        case (Some(sp), Some(ep)) => ProbedRange(cs, sp, ep)
        case _ => Fail(NoCaretRange);
    if built.Ok? && built.value.start == built.value.end then Fail(CollapsedRange) else built
  }

  // ---------------------------------------------------------------------------
  // Properties

  /** Swapping press and release resolves to the same range, or fails the same way. */
  lemma ResolveSymmetric(cs: seq<Node>, start: GesturePoint, end: GesturePoint, caret: CaretOracle)
    ensures ResolveRange(cs, start, end, caret) == ResolveRange(cs, end, start, caret)
  {
    match (caret(start.x, start.y), caret(end.x, end.y))
    case (Some(sp), Some(ep)) =>
      var ks, ke := KeyOf(sp), KeyOf(ep);
      CompareKeysAntisymmetric(ks, ke);
      assert ProbedRange(cs, sp, ep) == ProbedRange(cs, ep, sp);
    case _ =>
  }

  /** The fast path, spelled out: when both carets are in the same node, the range is
    * marked exactly when that node is a text node and `0 <= min < max <= length`, and
    * it then runs from the smaller offset to the larger. */
  lemma SameNodeResolution(cs: seq<Node>, start: GesturePoint, end: GesturePoint, caret: CaretOracle)
    requires SameNode(start, end)
    ensures var p, lo, hi := start.caret.value.path, Min(start.caret.value.offset, end.caret.value.offset),
                             Max(start.caret.value.offset, end.caret.value.offset);
      var r := ResolveRange(cs, start, end, caret);
      && (r.Ok? <==> |p| >= 1 && NodeAtSeq(cs, p).Some? && NodeAtSeq(cs, p).value.Text?
                     && 0 <= lo < hi <= |NodeAtSeq(cs, p).value.data|)
      && (r.Ok? ==> r.value == Range(p + [lo], p + [hi]))
      && (r.Fail? ==> r.error in {InvalidTextOffset, CollapsedRange})
  {
    var p := start.caret.value.path;
    var lo, hi := Min(start.caret.value.offset, end.caret.value.offset), Max(start.caret.value.offset, end.caret.value.offset);
    if lo == hi {
      assert p + [lo] == p + [hi];
    } else {
      assert (p + [lo])[|p|] == lo && (p + [hi])[|p|] == hi;
    }
  }

  /** The slow path takes its start from whichever probe comes first in document order
    * and its end from the other. */
  lemma ProbedOrder(cs: seq<Node>, start: GesturePoint, end: GesturePoint, caret: CaretOracle)
    requires !SameNode(start, end)
    requires caret(start.x, start.y).Some? && caret(end.x, end.y).Some?
    ensures var ks, ke := KeyOf(caret(start.x, start.y).value), KeyOf(caret(end.x, end.y).value);
      var r := ResolveRange(cs, start, end, caret);
      r.Ok? ==> (KeyLe(ks, ke) ==> r.value == Range(ks, ke)) && (!KeyLe(ks, ke) ==> r.value == Range(ke, ks))
  {
  }

  /** The converse of `ProbedOrder`: when both probes find a boundary point of the page
    * and the two differ, the slow path succeeds with exactly that range. Its only
    * failures are an absent container, a boundary `setStart`/`setEnd` refuses, or a
    * collapsed range. */
  lemma ProbedSucceeds(cs: seq<Node>, start: GesturePoint, end: GesturePoint, caret: CaretOracle)
    requires !SameNode(start, end)
    requires caret(start.x, start.y).Some? && caret(end.x, end.y).Some?
    ensures var ks, ke := KeyOf(caret(start.x, start.y).value), KeyOf(caret(end.x, end.y).value);
      var r := ResolveRange(cs, start, end, caret);
      && (ValidKeySeq(cs, ks) && ValidKeySeq(cs, ke) && ks != ke ==>
            r == Ok(if KeyLe(ks, ke) then Range(ks, ke) else Range(ke, ks)))
      && (r.Fail? ==> r.error in {InvalidContainer, BoundaryOutOfRange, CollapsedRange})
  {
    var sp, ep := caret(start.x, start.y).value, caret(end.x, end.y).value;
    var ks, ke := KeyOf(sp), KeyOf(ep);
    if ValidKeySeq(cs, ks) && ValidKeySeq(cs, ke) {
      ValidKeyNamesNode(cs, sp.path, sp.offset);
      ValidKeyNamesNode(cs, ep.path, ep.offset);
      KeyLeTotal(ks, ke);
    }
  }

  /** A probe that finds no caret ends the gesture step without a range. */
  lemma MissingProbeFails(cs: seq<Node>, start: GesturePoint, end: GesturePoint, caret: CaretOracle)
    requires !SameNode(start, end)
    requires caret(start.x, start.y).None? || caret(end.x, end.y).None?
    ensures ResolveRange(cs, start, end, caret) == Fail(NoCaretRange)
  {
  }
}
