/**
 * The content script's controller: the on/off switch and its listeners, the press /
 * move / release gesture that marks text, the draggable floating button, and the
 * messages from the popup.
 *
 * Every handler is specified by a pure transition on a snapshot of the controller's
 * flags (`State`); the class methods update the fields in place and are proved to
 * land on that transition's result.
 */
module Gestures {
  import opened Wrappers
  import opened DomTree
  import opened Unwrap
  import opened Resolution
  import opened Pages

  /** Distance in pixels a press must move before it becomes a drag. */
  const DragThreshold: int := 5
  /** A release this many milliseconds after the press, or later, is no quick click. */
  const QuickClickMillis: int := 200
  /** The marker colour before any colour is chosen or restored. */
  const DefaultColor: string := "#ffeb3b"

  /** What the handlers ask about an event's target. */
  datatype Target = Target(
    onButton: bool,     // the floating button itself
    onControls: bool,   // inside the floating button or the colour picker
    formControl: bool,  // input, textarea, select or an editable element
    inLink: bool)       // inside a link

  datatype MouseEvent = MouseEvent(x: int, y: int, button: int, ctrlKey: bool, target: Target)

  /** The popup's requests. */
  datatype Message = Ping | StartHighlighting | StopHighlighting | UpdateColor(color: string) | ClearHighlights

  /** The controller's flags. */
  datatype State = State(
    isHighlighting: bool,
    listening: bool,          // the capturing mouse and clipboard listeners are attached
    bodyActive: bool,         // `extension-active` is on the body
    bodyDragging: bool,       // `dragging` is on the body
    currentColor: string,
    isMouseDown: bool,
    isDragging: bool,
    startPoint: Option<GesturePoint>,
    clickStartTime: int,
    isButtonDragging: bool,   // also: the button-drag listeners are attached
    startX: int, startY: int,
    initialX: int, initialY: int,
    buttonLeft: int, buttonTop: int)

  /** What a handler did: the new flags, whether it called `preventDefault` and
    * `stopPropagation`, and whether it called `highlightBetweenPoints`. */
  datatype Reaction = Reaction(next: State, prevented: bool, stopped: bool, marks: bool)

  function Ignored(s: State): Reaction {
    Reaction(s, false, false, false)
  }

  /** The flags the handlers keep in step with each other. */
  predicate Coherent(s: State) {
    && (s.isMouseDown <==> s.startPoint.Some?)
    && (s.isDragging ==> s.isMouseDown && s.bodyDragging)
    && s.listening == s.isHighlighting
    && s.bodyActive == s.isHighlighting
  }

  // ---------------------------------------------------------------------------
  // Switching on and off

  /** `enableHighlighting`. */
  function Enabled(s: State): (r: State)
    ensures r.isHighlighting && r.listening && r.bodyActive
    ensures Coherent(s) ==> Coherent(r)
    ensures r.isMouseDown == s.isMouseDown && r.isDragging == s.isDragging && r.startPoint == s.startPoint
    ensures r.currentColor == s.currentColor && r.isButtonDragging == s.isButtonDragging
  {
    s.(isHighlighting := true, listening := true, bodyActive := true)
  }

  /** `disableHighlighting`: the gesture flags are left as they are. */
  function Disabled(s: State): (r: State)
    ensures !r.isHighlighting && !r.listening && !r.bodyActive
    ensures Coherent(s) ==> Coherent(r)
    ensures r.isMouseDown == s.isMouseDown && r.isDragging == s.isDragging && r.startPoint == s.startPoint
    ensures r.currentColor == s.currentColor && r.isButtonDragging == s.isButtonDragging
  {
    s.(isHighlighting := false, listening := false, bodyActive := false)
  }

  /** `toggleHighlighting`, with the storage callback run at once. */
  function Toggled(s: State): State {
    var s' := s.(isHighlighting := !s.isHighlighting);
    if s'.isHighlighting then Enabled(s') else Disabled(s')
  }

  /** `initializePlugin`'s restore of the stored switch and colour (a missing or empty
    * colour keeps the default). */
  function Initial(storedHighlighting: bool, storedColor: Option<string>): (r: State)
    ensures Coherent(r) && !r.isMouseDown && !r.isButtonDragging
    ensures r.isHighlighting == storedHighlighting
    ensures r.currentColor == if storedColor.Some? && storedColor.value != "" then storedColor.value else DefaultColor
  {
    var s := State(false, false, false, false, DefaultColor, false, false, None, 0, false, 0, 0, 0, 0, 0, 0);
    var s1 := if storedColor.Some? && storedColor.value != "" then s.(currentColor := storedColor.value) else s;
    var s2 := s1.(isHighlighting := storedHighlighting);
    if s2.isHighlighting then Enabled(s2) else s2
  }

  /** The popup's requests, with their storage callbacks run at once. */
  function OnMessage(s: State, m: Message): State {
    match m
    case Ping => s
    case StartHighlighting => Enabled(s.(isHighlighting := true))
    case StopHighlighting => Disabled(s.(isHighlighting := false))
    case UpdateColor(c) => s.(currentColor := c)
    case ClearHighlights => s
  }

  // ---------------------------------------------------------------------------
  // The marking gesture

  /** `moveDistance > 5`, squared so that it stays on integers. */
  predicate ExceedsDragThreshold(dx: int, dy: int) {
    dx * dx + dy * dy > DragThreshold * DragThreshold
  }

  /** `handleMouseDown`. */
  function MouseDown(s: State, e: MouseEvent, caret: CaretOracle, now: int): Reaction {
    if !s.isHighlighting || s.isButtonDragging then Ignored(s)
    else if e.target.onControls then Ignored(s)
    else if e.target.formControl then Ignored(s)
    else if e.button != 0 then Ignored(s)
    else if e.ctrlKey then Ignored(s)
    else if e.target.inLink && !s.isDragging then Ignored(s)
    else
      var s' := s.(clickStartTime := now, isMouseDown := true, isDragging := false,
                   startPoint := Some(PointAt(e.x, e.y, caret)));
      Reaction(s', true, false, false)
  }

  /** `handleMouseMove`: past the threshold the press becomes a drag, and every move of a
    * drag marks from the press to the pointer. */
  function MouseMove(s: State, e: MouseEvent): Reaction {
    if !s.isHighlighting || s.isButtonDragging || !s.isMouseDown || s.startPoint.None? then Ignored(s)
    else if e.target.formControl then Ignored(s)
    else if e.ctrlKey then Ignored(s)
    else
      var start := s.startPoint.value;
      var s' := if !s.isDragging && ExceedsDragThreshold(e.x - start.x, e.y - start.y)
                then s.(isDragging := true, bodyDragging := true) else s;
      if s'.isDragging then Reaction(s', true, false, true) else Ignored(s')
  }

  /** The flags after a press is over. */
  function Released(s: State): (r: State)
    ensures !r.isMouseDown && !r.isDragging && !r.bodyDragging && r.startPoint.None?
    ensures Coherent(s) ==> Coherent(r)
    ensures r.isHighlighting == s.isHighlighting && r.currentColor == s.currentColor
    ensures r.isButtonDragging == s.isButtonDragging && r.buttonLeft == s.buttonLeft && r.buttonTop == s.buttonTop
  {
    s.(isMouseDown := false, isDragging := false, bodyDragging := false, startPoint := None)
  }

  /** A release soon after the press, on a link, is left to the link. */
  predicate QuickLinkClick(s: State, e: MouseEvent, now: int) {
    s.isMouseDown && !s.isDragging && now - s.clickStartTime < QuickClickMillis && e.target.inLink
  }

  /** `handleMouseUp`. */
  function MouseUp(s: State, e: MouseEvent, now: int): Reaction {
    if !s.isHighlighting || s.isButtonDragging then Ignored(s)
    else if e.target.formControl then Ignored(s)
    else if e.ctrlKey then Reaction(Released(s), false, false, false)
    else if s.isMouseDown && s.isDragging then Reaction(Released(s), true, true, true)
    else if QuickLinkClick(s, e, now) then Ignored(s)
    else Reaction(Released(s), false, false, false)
  }

  /** The page after a handler: when it marks, the gesture from the press to the event's
    * point, resolved against the page as it is then. */
  function PageAfter(body: seq<Node>, s: State, r: Reaction, e: MouseEvent, caret: CaretOracle): seq<Node> {
    if r.marks && s.startPoint.Some? then
      AfterGesture(body, s.startPoint.value, PointAt(e.x, e.y, caret), caret, s.currentColor)
    else body
  }

  /** Moves fed to the move handler one after another: the final flags, and whether any
    * of them marked. */
  function MoveRun(s: State, es: seq<MouseEvent>): (State, bool)
    decreases |es|
  {
    if es == [] then (s, false)
    else
      var r := MouseMove(s, es[0]);
      var rest := MoveRun(r.next, es[1..]);
      (rest.0, r.marks || rest.1)
  }

  // ---------------------------------------------------------------------------
  // The floating button

  /** `Math.max(0, Math.min(hi, v))`. */
  function Clamp(v: int, hi: int): (r: int)
    ensures r >= 0
    ensures hi >= 0 ==> r <= hi
  {
    Max(0, Min(hi, v))
  }

  /** `startDragging`, with `left` and `top` the button's current position. */
  function ButtonPress(s: State, e: MouseEvent, left: int, top: int): Reaction {
    if !e.target.onButton then Ignored(s)
    else Reaction(s.(isButtonDragging := true, startX := e.x, startY := e.y, initialX := left, initialY := top),
                  true, true, false)
  }

  /** `handleButtonDrag` in a `viewW` x `viewH` viewport for a `buttonW` x `buttonH` button. */
  function ButtonDrag(s: State, e: MouseEvent, viewW: int, viewH: int, buttonW: int, buttonH: int): Reaction {
    if !s.isButtonDragging then Ignored(s)
    else
      var newX, newY := s.initialX + (e.x - s.startX), s.initialY + (e.y - s.startY);
      Reaction(s.(buttonLeft := Clamp(newX, viewW - buttonW), buttonTop := Clamp(newY, viewH - buttonH)),
               true, true, false)
  }

  /** `stopButtonDrag`. */
  function ButtonRelease(s: State): Reaction {
    if !s.isButtonDragging then Ignored(s)
    else Reaction(s.(isButtonDragging := false), true, true, false)
  }

  /** The floating button's click: toggle, unless a marking drag is in progress. */
  function ButtonClick(s: State): State {
    if !s.isDragging then Toggled(s) else s
  }

  // ---------------------------------------------------------------------------
  // The controller, in place

  class Highlighter {
    var isHighlighting: bool
    var listening: bool
    var bodyActive: bool
    var bodyDragging: bool
    var currentColor: string
    var isMouseDown: bool
    var isDragging: bool
    var startPoint: Option<GesturePoint>
    var clickStartTime: int
    var isButtonDragging: bool
    var startX: int
    var startY: int
    var initialX: int
    var initialY: int
    var buttonLeft: int
    var buttonTop: int
    /** The page being marked. */
    const page: Page

    function Snapshot(): State
      reads this
    {
      State(isHighlighting, listening, bodyActive, bodyDragging, currentColor, isMouseDown, isDragging,
            startPoint, clickStartTime, isButtonDragging, startX, startY, initialX, initialY,
            buttonLeft, buttonTop)
    }

    /** `initializePlugin`, given what storage holds. */
    constructor (p: Page, storedHighlighting: bool, storedColor: Option<string>)
      ensures page == p
      ensures Snapshot() == Initial(storedHighlighting, storedColor)
    {
      page := p;
      isHighlighting, listening, bodyActive, bodyDragging := false, false, false, false;
      currentColor := DefaultColor;
      isMouseDown, isDragging, startPoint, clickStartTime := false, false, None, 0;
      isButtonDragging := false;
      startX, startY, initialX, initialY, buttonLeft, buttonTop := 0, 0, 0, 0, 0, 0;
      new;
      if storedColor.Some? && storedColor.value != "" {
        currentColor := storedColor.value;
      }
      isHighlighting := storedHighlighting;
      if isHighlighting {
        Enable();
      }
    }

    method Enable()
      modifies this
      ensures Snapshot() == Enabled(old(Snapshot()))
    {
      isHighlighting := true;
      listening := true;
      bodyActive := true;
    }

    method Disable()
      modifies this
      ensures Snapshot() == Disabled(old(Snapshot()))
    {
      isHighlighting := false;
      listening := false;
      bodyActive := false;
    }

    method Toggle()
      modifies this
      ensures Snapshot() == Toggled(old(Snapshot()))
    {
      isHighlighting := !isHighlighting;
      if isHighlighting {
        Enable();
      } else {
        Disable();
      }
    }

    /** The colour input's `change`. */
    method ChooseColor(color: string)
      modifies this
      ensures Snapshot() == old(Snapshot()).(currentColor := color)
    {
      currentColor := color;
    }

    /** The runtime message listener; `response` is what it sends back, if anything. */
    method Receive(m: Message) returns (response: Option<string>)
      modifies this, page
      ensures Snapshot() == OnMessage(old(Snapshot()), m)
      ensures response == if m.Ping? then Some("ok") else None
      ensures page.body == if m.ClearHighlights? then UnwrapSeq(old(page.body)) else old(page.body)
    {
      response := None;
      match m
      case Ping =>
        response := Some("ok");
      case StartHighlighting =>
        isHighlighting := true;
        Enable();
      case StopHighlighting =>
        isHighlighting := false;
        Disable();
      case UpdateColor(c) =>
        currentColor := c;
      case ClearHighlights =>
        page.ClearHighlights();
    }

    method HandleMouseDown(e: MouseEvent, caret: CaretOracle, now: int) returns (prevented: bool)
      modifies this
      ensures Snapshot() == MouseDown(old(Snapshot()), e, caret, now).next
      ensures prevented == MouseDown(old(Snapshot()), e, caret, now).prevented
    {
      prevented := false;
      if !isHighlighting || isButtonDragging {
        return;
      }
      if e.target.onControls {
        return;
      }
      if e.target.formControl {
        return;
      }
      if e.button != 0 {
        return;
      }
      if e.ctrlKey {
        return;
      }
      if e.target.inLink && !isDragging {
        return;
      }
      clickStartTime := now;
      isMouseDown := true;
      isDragging := false;
      startPoint := Some(PointAt(e.x, e.y, caret));
      prevented := true;
    }

    method HandleMouseMove(e: MouseEvent, caret: CaretOracle) returns (prevented: bool)
      modifies this, page
      ensures Snapshot() == MouseMove(old(Snapshot()), e).next
      ensures prevented == MouseMove(old(Snapshot()), e).prevented
      ensures page.body == PageAfter(old(page.body), old(Snapshot()), MouseMove(old(Snapshot()), e), e, caret)
    {
      prevented := false;
      if !isHighlighting || isButtonDragging || !isMouseDown || startPoint.None? {
        return;
      }
      if e.target.formControl {
        return;
      }
      if e.ctrlKey {
        return;
      }
      var start := startPoint.value;
      if !isDragging {
        if ExceedsDragThreshold(e.x - start.x, e.y - start.y) {
          isDragging := true;
          bodyDragging := true;
        }
      }
      if isDragging {
        prevented := true;
        var _ := page.HighlightBetweenPoints(start, PointAt(e.x, e.y, caret), caret, currentColor);
      }
    }

    method HandleMouseUp(e: MouseEvent, caret: CaretOracle, now: int) returns (prevented: bool, stopped: bool)
      modifies this, page
      ensures Snapshot() == MouseUp(old(Snapshot()), e, now).next
      ensures prevented == MouseUp(old(Snapshot()), e, now).prevented
      ensures stopped == MouseUp(old(Snapshot()), e, now).stopped
      ensures page.body == PageAfter(old(page.body), old(Snapshot()), MouseUp(old(Snapshot()), e, now), e, caret)
    {
      prevented, stopped := false, false;
      if !isHighlighting || isButtonDragging {
        return;
      }
      if e.target.formControl {
        return;
      }
      if e.ctrlKey {
        isMouseDown, isDragging, bodyDragging, startPoint := false, false, false, None;
        return;
      }
      if isMouseDown && isDragging {
        // Without a recorded start, `highlightBetweenPoints` throws inside its own `try`.
        if startPoint.Some? {
          var _ := page.HighlightBetweenPoints(startPoint.value, PointAt(e.x, e.y, caret), caret, currentColor);
        }
        prevented, stopped := true, true;
      } else if isMouseDown {
        var clickDuration := now - clickStartTime;
        if clickDuration < QuickClickMillis && e.target.inLink {
          return;
        }
      }
      isMouseDown, isDragging, bodyDragging, startPoint := false, false, false, None;
    }

    method StartButtonDrag(e: MouseEvent, left: int, top: int) returns (prevented: bool)
      modifies this
      ensures Snapshot() == ButtonPress(old(Snapshot()), e, left, top).next
      ensures prevented == ButtonPress(old(Snapshot()), e, left, top).prevented
    {
      prevented := false;
      if !e.target.onButton {
        return;
      }
      isButtonDragging := true;
      startX, startY := e.x, e.y;
      initialX, initialY := left, top;
      prevented := true;
    }

    method HandleButtonDrag(e: MouseEvent, viewW: int, viewH: int, buttonW: int, buttonH: int) returns (prevented: bool)
      modifies this
      ensures Snapshot() == ButtonDrag(old(Snapshot()), e, viewW, viewH, buttonW, buttonH).next
      ensures prevented == ButtonDrag(old(Snapshot()), e, viewW, viewH, buttonW, buttonH).prevented
    {
      prevented := false;
      if !isButtonDragging {
        return;
      }
      var deltaX, deltaY := e.x - startX, e.y - startY;
      var newX, newY := initialX + deltaX, initialY + deltaY;
      var maxX, maxY := viewW - buttonW, viewH - buttonH;
      buttonLeft := Max(0, Min(maxX, newX));
      buttonTop := Max(0, Min(maxY, newY));
      prevented := true;
    }

    method StopButtonDrag() returns (prevented: bool)
      modifies this
      ensures Snapshot() == ButtonRelease(old(Snapshot())).next
      ensures prevented == ButtonRelease(old(Snapshot())).prevented
    {
      prevented := false;
      if !isButtonDragging {
        return;
      }
      isButtonDragging := false;
      prevented := true;
    }

    method OnButtonClick()
      modifies this
      ensures Snapshot() == ButtonClick(old(Snapshot()))
    {
      if !isDragging {
        Toggle();
      }
    }
  }

  // ---------------------------------------------------------------------------
  // Properties

  /** The mouse handlers keep the flags in step. */
  lemma PressKeepsCoherent(s: State, e: MouseEvent, caret: CaretOracle, now: int)
    requires Coherent(s)
    ensures Coherent(MouseDown(s, e, caret, now).next)
  {
  }

  lemma MoveKeepsCoherent(s: State, e: MouseEvent)
    requires Coherent(s)
    ensures Coherent(MouseMove(s, e).next)
  {
  }

  lemma ReleaseKeepsCoherent(s: State, e: MouseEvent, now: int)
    requires Coherent(s)
    ensures Coherent(MouseUp(s, e, now).next)
  {
  }

  /** So do the switch, the messages and the floating button. */
  lemma SwitchKeepsCoherent(s: State, m: Message)
    requires Coherent(s)
    ensures Coherent(OnMessage(s, m)) && Coherent(Toggled(s)) && Coherent(ButtonClick(s))
  {
  }

  lemma ButtonKeepsCoherent(s: State, e: MouseEvent, left: int, top: int, viewW: int, viewH: int, buttonW: int, buttonH: int)
    requires Coherent(s)
    ensures Coherent(ButtonPress(s, e, left, top).next) && Coherent(ButtonRelease(s).next)
    ensures Coherent(ButtonDrag(s, e, viewW, viewH, buttonW, buttonH).next)
  {
  }

  /** The threshold on squares is the threshold on the Euclidean distance `d`:
    * moving exactly 5 pixels is still a click. */
  lemma ThresholdIsDistance(dx: int, dy: int, d: real)
    requires d >= 0.0 && d * d == (dx * dx + dy * dy) as real
    ensures ExceedsDragThreshold(dx, dy) <==> d > 5.0
  {
    if d > 5.0 {
      assert d * d > 5.0 * d > 25.0;
    } else {
      assert d * d <= 5.0 * d <= 25.0;
    }
  }

  /** A press is recorded exactly when the switch is on, no button drag is running, and
    * the left button is pressed without Ctrl away from the controls, form fields and
    * (unless a drag is already flagged) links; it then starts a fresh, undragged press
    * at the event's point, and otherwise changes nothing. */
  lemma PressGuards(s: State, e: MouseEvent, caret: CaretOracle, now: int)
    ensures var r := MouseDown(s, e, caret, now);
      var accepted := s.isHighlighting && !s.isButtonDragging && !e.target.onControls && !e.target.formControl
                      && e.button == 0 && !e.ctrlKey && (!e.target.inLink || s.isDragging);
      && (accepted <==> r.prevented)
      && (!accepted ==> r.next == s)
      && (accepted ==> r.next.isMouseDown && !r.next.isDragging && r.next.startPoint == Some(PointAt(e.x, e.y, caret))
                       && r.next.clickStartTime == now)
      && !r.marks
  {
  }

  /** An undragged press becomes a drag on the first move farther than the threshold from
    * where it started, and that move marks; a nearer move changes nothing. */
  lemma DragStartsPastThreshold(s: State, e: MouseEvent)
    requires Coherent(s) && s.isHighlighting && !s.isButtonDragging && s.isMouseDown && !s.isDragging
    requires !e.target.formControl && !e.ctrlKey
    ensures var r := MouseMove(s, e);
      var dx, dy := e.x - s.startPoint.value.x, e.y - s.startPoint.value.y;
      && (r.next.isDragging <==> ExceedsDragThreshold(dx, dy))
      && (r.marks <==> ExceedsDragThreshold(dx, dy))
      && (!ExceedsDragThreshold(dx, dy) ==> r.next == s)
  {
  }

  /** A move is ignored when the switch is off, a button drag is running, no press is
    * recorded, it is over a form field or Ctrl is held. Otherwise it marks, and calls
    * `preventDefault`, exactly when the press is (or now becomes) a drag. */
  lemma MoveGuards(s: State, e: MouseEvent)
    ensures var r := MouseMove(s, e);
      var handled := s.isHighlighting && !s.isButtonDragging && s.isMouseDown && s.startPoint.Some?
                     && !e.target.formControl && !e.ctrlKey;
      && (!handled ==> r == Ignored(s))
      && (r.prevented <==> r.marks)
      && (r.marks <==> handled && r.next.isDragging)
      && (handled && s.isDragging ==> r.marks && r.next == s)
      && !r.stopped
  {
  }

  /** Released twice is released once. */
  lemma ReleasedIdempotent(s: State)
    ensures Released(Released(s)) == Released(s)
  {
  }

  /** Once a drag has started, no move ends it, and every move the handler accepts marks
    * from the press to the pointer: only a release (or a new press) clears it. */
  lemma DraggingPersists(s: State, e: MouseEvent)
    requires Coherent(s) && s.isDragging
    ensures MouseMove(s, e).next.isDragging
    ensures MouseMove(s, e).marks <==> s.isHighlighting && !s.isButtonDragging && !e.target.formControl && !e.ctrlKey
    ensures Enabled(s).isDragging && Disabled(s).isDragging && Toggled(s).isDragging
  {
  }

  /** Moves that all stay within the threshold of an undragged press change nothing and
    * mark nothing. */
  lemma {:induction false} SmallMovesChangeNothing(s: State, es: seq<MouseEvent>)
    requires Coherent(s) && s.isMouseDown && !s.isDragging
    requires forall i :: 0 <= i < |es| ==>
      !ExceedsDragThreshold(es[i].x - s.startPoint.value.x, es[i].y - s.startPoint.value.y)
    ensures MoveRun(s, es) == (s, false)
  {
    if es != [] {
      assert MouseMove(s, es[0]).next == s;
      SmallMovesChangeNothing(s, es[1..]);
    }
  }

  /** A release ends the press (and the drag) unless the switch is off, a button drag is
    * running, it lands on a form field, or it is a quick click on a link; it marks exactly
    * when it ends a drag without Ctrl. */
  lemma ReleaseResets(s: State, e: MouseEvent, now: int)
    ensures var r := MouseUp(s, e, now);
      var handled := s.isHighlighting && !s.isButtonDragging && !e.target.formControl;
      && (handled && (e.ctrlKey || !QuickLinkClick(s, e, now)) ==> r.next == Released(s))
      && (!handled ==> r == Ignored(s))
      && (r.marks <==> handled && !e.ctrlKey && s.isMouseDown && s.isDragging)
      && (r.prevented <==> r.marks) && (r.stopped <==> r.marks)
  {
  }

  /** A quick click on a link leaves the press recorded and the event alone. */
  lemma QuickLinkLeavesPress(s: State, e: MouseEvent, now: int)
    requires s.isHighlighting && !s.isButtonDragging && !e.target.formControl && !e.ctrlKey
    requires QuickLinkClick(s, e, now)
    ensures MouseUp(s, e, now) == Ignored(s)
    ensures MouseUp(s, e, now).next.isMouseDown
  {
  }

  /** A click: a press, moves within the threshold, a release. Nothing is marked, and the
    * press is over afterwards unless it was a quick click on a link. */
  lemma ClickMarksNothing(s: State, down: MouseEvent, es: seq<MouseEvent>, up: MouseEvent,
                          caret: CaretOracle, t0: int, t1: int)
    requires Coherent(s)
    requires MouseDown(s, down, caret, t0).prevented
    requires forall i :: 0 <= i < |es| ==> !ExceedsDragThreshold(es[i].x - down.x, es[i].y - down.y)
    requires !up.target.formControl
    ensures var s1 := MouseDown(s, down, caret, t0).next;
      var run := MoveRun(s1, es);
      var r := MouseUp(run.0, up, t1);
      && run == (s1, false) && !r.marks
      && (!(t1 - t0 < QuickClickMillis && up.target.inLink) || up.ctrlKey ==> !r.next.isMouseDown)
  {
    var s1 := MouseDown(s, down, caret, t0).next;
    PressGuards(s, down, caret, t0);
    SmallMovesChangeNothing(s1, es);
  }

  /** The page after a handler has the page's text, and a handler that does not mark
    * leaves the page alone. */
  lemma HandlerKeepsText(body: seq<Node>, s: State, r: Reaction, e: MouseEvent, caret: CaretOracle)
    ensures FlatSeq(PageAfter(body, s, r, e, caret)) == FlatSeq(body)
    ensures !r.marks ==> PageAfter(body, s, r, e, caret) == body
  {
    if r.marks && s.startPoint.Some? {
      GesturePreservesText(body, s.startPoint.value, PointAt(e.x, e.y, caret), caret, s.currentColor);
    }
  }

  /** Toggling twice restores the flags; switching on or off twice is switching once. */
  lemma ToggleInvolution(s: State)
    requires Coherent(s)
    ensures Toggled(Toggled(s)) == s
    ensures Toggled(s).isHighlighting == !s.isHighlighting
    ensures Enabled(Enabled(s)) == Enabled(s) && Disabled(Disabled(s)) == Disabled(s)
  {
  }

  /** The popup's start and stop requests are the switch's two positions, and no request
    * touches the gesture. */
  lemma MessagesSwitch(s: State, m: Message)
    requires Coherent(s)
    ensures m.StartHighlighting? ==> OnMessage(s, m) == (if s.isHighlighting then s else Toggled(s))
    ensures m.StopHighlighting? ==> OnMessage(s, m) == (if s.isHighlighting then Toggled(s) else s)
    ensures var t := OnMessage(s, m);
      t.isMouseDown == s.isMouseDown && t.isDragging == s.isDragging && t.startPoint == s.startPoint
  {
  }

  /** The clamp picks the point of `[0, hi]` nearest to `v`. */
  lemma ClampNearest(v: int, hi: int, w: int)
    requires 0 <= w <= hi
    ensures var r := Clamp(v, hi);
      (if r <= v then v - r else r - v) <= (if w <= v then v - w else w - v)
    ensures 0 <= v <= hi ==> Clamp(v, hi) == v
    ensures Clamp(Clamp(v, hi), hi) == Clamp(v, hi)
  {
  }

  /** Dragging the button keeps it inside the viewport when it fits there, and moves it
    * with the pointer while it stays inside. */
  lemma ButtonStaysInViewport(s: State, e: MouseEvent, viewW: int, viewH: int, buttonW: int, buttonH: int)
    requires s.isButtonDragging
    ensures var t := ButtonDrag(s, e, viewW, viewH, buttonW, buttonH).next;
      && 0 <= t.buttonLeft && 0 <= t.buttonTop
      && (buttonW <= viewW ==> t.buttonLeft + buttonW <= viewW)
      && (buttonH <= viewH ==> t.buttonTop + buttonH <= viewH)
      && (0 <= s.initialX + (e.x - s.startX) <= viewW - buttonW ==> t.buttonLeft == s.initialX + (e.x - s.startX))
      && (0 <= s.initialY + (e.y - s.startY) <= viewH - buttonH ==> t.buttonTop == s.initialY + (e.y - s.startY))
  {
  }

  /** A drag of the button toggles nothing and is invisible to the marking gesture. */
  lemma ButtonDragLeavesGesture(s: State, e: MouseEvent, left: int, top: int, viewW: int, viewH: int, buttonW: int, buttonH: int)
    ensures var t := ButtonPress(s, e, left, top).next;
      t.isHighlighting == s.isHighlighting && t.isMouseDown == s.isMouseDown && t.isDragging == s.isDragging
    ensures var t := ButtonDrag(s, e, viewW, viewH, buttonW, buttonH).next;
      t.isHighlighting == s.isHighlighting && t.isMouseDown == s.isMouseDown && t.isDragging == s.isDragging
  {
  }
}
