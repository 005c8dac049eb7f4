# chrome-highlight-text content script, modelled in Dafny

The extension's content script lets a reader mark text on a web page. When the
switch is on, a press, a drag and a release over the page wrap the text between
the press and the pointer in a coloured `<span class="extension-highlight">`. A
floating button toggles the switch, and the reader can drag it around the
viewport. The popup can ping the script, start or stop marking, change the
colour, or clear every marker from the page.

This project models the core of `content.js`:

- **DomTree** models the page (`wrappers.dfy` holds `Option` and `Result`).
  - The body is a forest of `Node = Text(data) | Elem(kind, children)`, where
    `kind` is a plain element or a highlight `Marker(color)`.
  - A boundary point is a key: the path to its container plus an offset.
    Document order is lexicographic order on keys, and `CompareKeys` is
    `compareBoundaryPoints`.
- **RangeOps / RangeExtract** model `range.extractContents()` and
  `range.insertNode(n)` as the DOM Standard defines them. Partially contained
  nodes are split, and a clone of each one goes into the fragment. The module
  proves what happens to the page's text and to its markers.
- **Marking** models `range.surroundContents(span)`. It throws exactly when an
  element is partially selected. Otherwise it is proved to build the same tree
  as the script's catch branch: extract, append to the span, insert the span.
- **Resolution** is `highlightBetweenPoints` up to the range it builds. There
  are two paths:
  - the fast path, when both recorded carets are in the same node;
  - re-probing both coordinates otherwise.

  A collapsed range is refused. `document.caretRangeFromPoint` is a parameter
  (`CaretOracle`).
- **Unwrap** is `clearHighlights`: every marker replaced by its own children.
- **Pages** holds the class `Page`, whose `body` the methods change in place:
  - `HighlightSelection` and `HighlightBetweenPoints`;
  - `ClearHighlights`, whose loop unwraps the markers one at a time, moving
    each marker's children out one by one as the source does.
- **Gestures** holds the controller:
  - the switch (`enable`/`disable`/`toggle`);
  - the mouse handlers;
  - the floating button's drag;
  - the popup's messages.

  Each handler is a pure transition on a snapshot of `globals` (`State`). The
  class `Highlighter` updates its fields in place, and each method is proved to
  land on its transition's result. `Coherent` is the invariant that every
  transition keeps.
- **Examples** checks concrete pages, such as offsets 3 to 7 of "hello world"
  and a range across two paragraphs.

`Date.now()` and the event's coordinates are parameters. So are the viewport
and button sizes, and the button's bounding box at press time.

## Model

| member | source | states |
|---|---|---|
| Resolution.SameNodeRange | content.js:462-473 | The fast path yields a range of valid, ordered boundary points, or fails only with the invalid-offset diagnostic. |
| Resolution.ProbedRange | content.js:476-497 | The slow path yields valid, ordered boundary points, and these are exactly the two probe carets. |
| Resolution.ResolveRange | content.js:454-518 | Any range handed on for marking is forward: valid ends, in document order, not collapsed. |
| Resolution.ResolveSymmetric | content.js:462-489 | Swapping press and release gives the same range, or the same failure. |
| Resolution.SameNodeResolution | content.js:462-473 | With both carets in one node, marking happens iff that node is a text node and 0 <= min < max <= length. The range then runs from min to max. Otherwise the failure is an invalid offset or a collapsed range. |
| Resolution.ProbedOrder | content.js:483-489 | The slow path starts at whichever probe comes first in document order and ends at the other. |
| Resolution.ProbedSucceeds | content.js:476-497 | The converse of `ProbedOrder`: with carets in different nodes, two probes that land on distinct boundary points of the page always give the range from the earlier to the later. The slow path fails only with an absent container, a refused boundary or a collapsed range. |
| Resolution.MissingProbeFails | content.js:476-501 | With carets in different nodes, a probe that finds no caret ends the step without a range. |
| DomTree.CompareKeys | content.js:483 | Returns -1, 0 or 1. It is 0 iff the points are equal, and <= 0 iff the first comes first in document order. |
| DomTree.KeyLeTotal | content.js:483-489 | Document order is total, so one of the two branches always applies. |
| DomTree.CompareKeysAntisymmetric | content.js:483-489 | Comparing in the other order negates the result. |
| DomTree.KeyLeSameContainer | content.js:463-469 | Within one container, the smaller offset comes first. |
| DomTree.TextPosMonotone | content.js:545 | Document order never runs against text order. |
| RangeOps.SplitText | content.js:545 | Splitting a partially contained node cuts its text exactly at the boundary's text position. |
| RangeOps.SplitCount | content.js:545 | Splitting never creates markers: each half has at most the original's, and together at least as many. |
| RangeExtract.ExtractSeq | content.js:545 | After extraction, the collapsed range's point is a valid boundary point of the tree left behind. A collapsed range extracts an empty fragment and leaves the tree as it is, as the DOM Standard's extract does before any splitting. |
| RangeExtract.ExtractText | content.js:545 | The fragment holds exactly the range's text and the tree keeps the rest. The collapsed range then sits at the range's starting text position. |
| RangeExtract.ExtractCount | content.js:545 | Extraction loses no marker and at most doubles them. |
| RangeOps.Before | content.js:545 | Definition (no contract): what stays in the tree of a node partially contained at the range's start or end. Stated by `SplitText` and `SplitCount`. |
| RangeOps.After | content.js:545 | Definition (no contract): the clone of a partially contained node that goes into the fragment. Stated by `SplitText` and `SplitCount`. |
| RangeExtract.InsertSeq | content.js:547 | Definition (no contract): `insertNode` at a boundary point, splitting a text node there. Stated by `InsertedPathFinds`, `InsertText` and `InsertCount`. |
| RangeExtract.InsertedPathFinds | content.js:547 | After `insertNode`, the inserted node is found at `InsertedPath`. |
| RangeExtract.InsertText | content.js:547 | Inserting a node puts its text at the point's text position, and leaves the rest untouched. |
| RangeExtract.InsertCount | content.js:547 | Inserting adds exactly the inserted node's markers. |
| Marking.FillInserted | content.js:545-547 | Inserting an empty element and then setting its children equals inserting the filled element. |
| Marking.PartiallySelectsElement | content.js:542 | Definition (no contract): the DOM's InvalidStateError condition for `surroundContents`, a node other than a text node partially contained in the range. |
| Marking.SurroundContents | content.js:541-543 | `surroundContents(span)` throws iff an element is partially selected. Otherwise it builds the same tree as the catch branch's extract-append-insert. |
| Marking.ExtractAndInsert | content.js:544-547 | Definition (no contract): the catch branch, `extractContents`, `appendChild` to a fresh span of the colour, `insertNode`. Its properties are `MarkPreservesText`, `MarkWrapsRange` and `MarkCount`. |
| Marking.MarkPreservesText | content.js:541-548 | Marking leaves the page's text unchanged. |
| Marking.MarkWrapsRange | content.js:531-548 | After marking, the node at `MarkerPath` is a marker of the chosen colour holding exactly the range's text. |
| Marking.MarkCount | content.js:541-548 | Marking adds at least one marker (exactly one on a page without markers) and at most doubles the old ones. |
| Pages.AfterGesture | content.js:454-518 | Definition (no contract): the page after one `highlightBetweenPoints` call, marked when the range resolves and unchanged otherwise. Stated by `GesturePreservesText` and `GestureMarks`. |
| Pages.GesturePreservesText | content.js:454-518 | A gesture step never changes the page's text. |
| Pages.GestureMarks | content.js:454-518 | A failed resolution leaves the page alone. A successful one adds a marker. |
| Pages.Page.HighlightSelection | content.js:520-556 | No range or a collapsed range changes nothing. Otherwise the body becomes the marked tree, whichever of `surroundContents` and the fallback did it, and the text is unchanged. |
| Pages.Page.HighlightBetweenPoints | content.js:454-518 | Returns the resolution outcome. The body is marked on success and untouched on failure. |
| Pages.Page.UnwrapMarker | content.js:560-566 | The loop moves one child out at a time and then removes the marker. Afterwards the parent's children are the old ones with the marker spliced out for its own children. |
| Pages.Page.ClearHighlights | content.js:558-567 | Afterwards no marker is left, the body is the unwrapped old body, and the text is unchanged. |
| Unwrap.UnwrapNode | content.js:558-567 | Definition (no contract): the reference result of `clearHighlights` for one node, a marker replaced by its own children. Stated by the lemmas below. |
| Unwrap.UnwrapSeq | content.js:558-567 | Definition (no contract): the reference result of `clearHighlights` for the page. `Pages.Page.ClearHighlights` is proved to land on it. |
| Unwrap.FirstMarker | content.js:559 | A found location holds a marker, and finding none means the page has no markers. That the search returns the first marker in document order follows from its definition, not its contract. |
| Unwrap.Spliced | content.js:561-565 | Splicing a marker out leaves its siblings plus its own children. |
| Unwrap.MoveFirstChildOut | content.js:563 | One `insertBefore` leaves the marker one place further on, having lost its first child. |
| Unwrap.MoveOutSplices | content.js:562-564 | Moving the first child out does not change what the parent's children splice to. |
| Unwrap.RemoveEmpty | content.js:565 | Removing the emptied marker is splicing it. |
| Unwrap.SplicedFacts | content.js:561-565 | Splicing one marker keeps the unwrapped page and removes exactly that marker. |
| Unwrap.UnwrapSetChildren | content.js:560-566 | Replacing one container's children by a list that unwraps the same keeps the unwrapped page. |
| Unwrap.UnwrapText | content.js:558-567 | Clearing keeps the text. |
| Unwrap.UnwrapClean | content.js:558-567 | Clearing leaves no marker. |
| Unwrap.UnwrapIdentity | content.js:558-567 | A page without markers is left as it is. |
| Unwrap.UnwrapIdempotent | content.js:558-567 | Clearing twice is clearing once. |
| DomTree.SetChildrenAtSpec | content.js:561-565 | Replacing a container's children leaves it a container holding exactly the new children. |
| DomTree.SetChildrenAtCount | content.js:561-565 | Replacing children changes the marker count by the difference between the new and old children's markers. |
| Gestures.Enabled | content.js:267-278 | Switching on keeps the flags coherent and leaves the press, the drag, the start point, the colour and the button drag as they were. The switch, the listeners and the body's class become on. |
| Gestures.Disabled | content.js:280-291 | Switching off keeps the flags coherent and leaves a press or drag in progress recorded, with the colour and the button drag unchanged. The switch, the listeners and the body's class become off. |
| Gestures.Toggled | content.js:255-265 | Definition (no contract): `toggleHighlighting` with its storage callback run at once. Stated by `ToggleInvolution` and `SwitchKeepsCoherent`. |
| Gestures.OnMessage | content.js:577-602 | Definition (no contract): the flags after each popup request. Stated by `MessagesSwitch` and `SwitchKeepsCoherent`. |
| Gestures.MouseDown | content.js:311-357 | Definition (no contract): `handleMouseDown`'s guards in source order, then a fresh press. Stated by `PressGuards` and `PressKeepsCoherent`. |
| Gestures.MouseMove | content.js:359-396 | Definition (no contract): `handleMouseMove`'s guards, the threshold test, and marking while dragging. Stated by `MoveGuards`, `DragStartsPastThreshold`, `DraggingPersists` and `MoveKeepsCoherent`. |
| Gestures.MouseUp | content.js:398-444 | Definition (no contract): `handleMouseUp`'s guards, the Ctrl reset, the end of a drag and the quick-link exception. Stated by `ReleaseResets`, `QuickLinkLeavesPress` and `ReleaseKeepsCoherent`. |
| Gestures.ButtonPress | content.js:166-187 | Definition (no contract): `startDragging`. Stated by `ButtonKeepsCoherent` and `ButtonDragLeavesGesture`. |
| Gestures.ButtonDrag | content.js:190-217 | Definition (no contract): `handleButtonDrag`'s clamped position. Stated by `ButtonStaysInViewport`, `ClampNearest` and `ButtonDragLeavesGesture`. |
| Gestures.ButtonRelease | content.js:220-241 | Definition (no contract): `stopButtonDrag`. Stated by `ButtonKeepsCoherent`. |
| Gestures.ButtonClick | content.js:104-108 | Definition (no contract): the floating button's click, which toggles unless a marking drag is flagged. Stated by `SwitchKeepsCoherent`. |
| Gestures.Initial | content.js:20-43 | The initial flags are coherent, with no press and no button drag. The switch is as stored. The colour is the stored one if present and non-empty, otherwise `#ffeb3b`. |
| Gestures.Released | content.js:440-443 | Ending a press keeps the flags coherent and leaves the switch, the colour and the button's drag and position untouched. The press, drag, `dragging` class and start point are cleared. |
| Gestures.ReleasedIdempotent | content.js:440-443 | Ending a press twice is ending it once. |
| Gestures.Clamp | content.js:207-208 | The clamped coordinate is never negative, and is at most the maximum when the maximum is not negative. |
| Gestures.Highlighter.constructor | content.js:20-43 | The controller starts in exactly the restored state of `Initial`. |
| Gestures.Highlighter.Enable | content.js:267-278 | The fields become `Enabled` of the old ones. |
| Gestures.Highlighter.Disable | content.js:280-291 | The fields become `Disabled` of the old ones. |
| Gestures.Highlighter.Toggle | content.js:255-265 | The fields become `Toggled` of the old ones. |
| Gestures.Highlighter.ChooseColor | content.js:75-80 | Only the colour changes. |
| Gestures.Highlighter.Receive | content.js:577-602 | The fields follow `OnMessage`. Only a ping is answered ("ok"). Only `clearHighlights` changes the page, to its unwrapped form. |
| Gestures.Highlighter.HandleMouseDown | content.js:311-357 | Fields and preventDefault follow `MouseDown`. |
| Gestures.Highlighter.HandleMouseMove | content.js:359-396 | Fields and preventDefault follow `MouseMove`. The page is marked from the press to the pointer exactly when the move marks. |
| Gestures.Highlighter.HandleMouseUp | content.js:398-444 | Fields, preventDefault and stopPropagation follow `MouseUp`. The page is marked exactly when a drag ends. |
| Gestures.Highlighter.StartButtonDrag | content.js:166-187 | Fields and preventDefault follow `ButtonPress`. |
| Gestures.Highlighter.HandleButtonDrag | content.js:190-217 | Fields and preventDefault follow `ButtonDrag`. |
| Gestures.Highlighter.StopButtonDrag | content.js:220-241 | Fields and preventDefault follow `ButtonRelease`. |
| Gestures.Highlighter.OnButtonClick | content.js:104-108 | The fields follow `ButtonClick`: toggle unless a marking drag is flagged. |
| Gestures.PressKeepsCoherent | content.js:311-357 | The press handler keeps the flags coherent. |
| Gestures.MoveKeepsCoherent | content.js:359-396 | The move handler keeps the flags coherent. |
| Gestures.ReleaseKeepsCoherent | content.js:398-444 | The release handler keeps the flags coherent. |
| Gestures.SwitchKeepsCoherent | content.js:255-291 | Messages, toggling and the button click keep the flags coherent. |
| Gestures.ButtonKeepsCoherent | content.js:166-241 | The button's press, drag and release keep the flags coherent. |
| Gestures.ThresholdIsDistance | content.js:371-379 | Comparing squares on integers is the same test as Euclidean distance > 5, so a move of exactly 5 pixels is no drag. |
| Gestures.PressGuards | content.js:311-357 | A press is recorded iff the handler calls preventDefault. That happens iff: the switch is on, no button drag is running, the left button is pressed without Ctrl, the target is not the controls or a form field, and the target is not a link unless a drag is flagged. A refused press changes nothing. An accepted one starts a fresh, undragged press at the event's point and time. Pressing never marks. |
| Gestures.MoveGuards | content.js:359-396 | A move is ignored when the switch is off, a button drag is running, no press is recorded, the target is a form field, or Ctrl is held. Otherwise it marks (and calls preventDefault, never stopPropagation) exactly when the press is or becomes a drag. A move during a drag leaves the flags as they are. |
| Gestures.DragStartsPastThreshold | content.js:370-395 | An undragged press becomes a drag, and marks, exactly on a move past the threshold. A nearer move changes nothing. |
| Gestures.DraggingPersists | content.js:359-396 | Once dragging, no move or switch ends it. Every move the handler accepts marks. |
| Gestures.SmallMovesChangeNothing | content.js:371-395 | Any run of moves within the threshold of an undragged press changes nothing and marks nothing. |
| Gestures.ReleaseResets | content.js:398-444 | A handled release ends the press, except for a quick link click without Ctrl. An unhandled release is ignored. A release marks iff it ends a drag without Ctrl, and it then calls both preventDefault and stopPropagation. |
| Gestures.QuickLinkLeavesPress | content.js:431-437 | A quick click on a link is left alone and keeps the press recorded. |
| Gestures.ClickMarksNothing | content.js:311-444 | For a release not over a form field: a press, moves within the threshold and the release mark nothing, and the press is over unless the release was a quick link click without Ctrl. (A release over a form field is ignored and leaves the press recorded, by `ReleaseResets`.) |
| Gestures.HandlerKeepsText | content.js:382-395 | The page after any handler has the same text. A handler that does not mark leaves the page alone. |
| Gestures.ToggleInvolution | content.js:255-291 | Toggling twice restores the flags, and toggling flips the switch. Switching on or off twice is switching once. |
| Gestures.MessagesSwitch | content.js:582-594 | Start and stop requests set the switch to on and off. No request touches the gesture flags. |
| Gestures.ClampNearest | content.js:207-208 | The clamp picks the nearest point of [0, max]. It is the identity inside that interval, and clamping twice is clamping once. |
| Gestures.ButtonStaysInViewport | content.js:190-212 | A dragged button stays inside the viewport when it fits there, and follows the pointer, horizontally and vertically, while inside. |
| Gestures.ButtonDragLeavesGesture | content.js:166-217 | A button press or drag does not change the switch, the press or the drag flags. |
| Examples.MarkInsideOneText | content.js:541-548 | Offsets 3 to 7 of "hello world" are surrounded as `hel` + marker(`lo w`) + `orld`. |
| Examples.ExtractAcrossParagraphs | content.js:545 | Extracting from "a\|b" to "c\|d" splits both paragraphs and leaves the point between them. |
| Examples.UnwrapAcrossParagraphs | content.js:558-567 | Clearing a marker that holds two paragraphs leaves four paragraphs in a row. |
| Examples.MarkAcrossParagraphs | content.js:541-548 | A range across two paragraphs cannot be surrounded, and the fallback wraps clones of both parts. |
| Examples.DragInsideOneText | content.js:462-473 | A backward drag resolves to the forward range. An offset past the text's length is refused and leaves the page alone. |
| Examples.DragAcrossParagraphs | content.js:476-497 | A backward drag from the second paragraph into the first is probed again, resolves to the forward range from "a\|b" to "c\|d", and marks across both paragraphs. |
| Examples.ThresholdCases | content.js:371-379 | A (3,4) move is a click. A (4,4) move is a drag. |

## Left out

- popup.js and background.js are not part of this model. They inject the content script and its CSS through `chrome.scripting`, keep the settings in `chrome.storage`, and send the messages that `Receive` handles.
- Building the floating button, the colour picker, their CSS classes, titles and tooltips is not modelled. This covers `createFloatingButton`, `removeExistingElements`, `updateFloatingButtonState`, the context menu placement of the picker, and the click and Escape handlers that hide it. None of these affects marking.
- The button's `dragging` class and its `style.left/top/right` strings are not modelled. Its position is the `buttonLeft`/`buttonTop` integers.
- Browser storage is not modelled. The callbacks of `chrome.storage.local.set` are run at once. `initializePlugin` reads its stored values from parameters. The position saved by `stopButtonDrag` and the `storage.onChanged` listener (content.js:605-615) are not modelled. That listener sets `isHighlighting` without attaching or removing the mouse listeners. So after a toggle in another tab the source itself leaves the listeners out of step with the switch, which `Gestures.Coherent` (listening exactly when switched on) rules out.
- The once-only guard of `initializePlugin` and its calls from the ping and start messages are not modelled. After initialisation they return at once.
- `window.getSelection()` is not modelled: `removeAllRanges`, `addRange`, and restoring the saved range. The range is handed to `HighlightSelection` directly. The press handler's clearing of the selection is a visual effect only.
- `handleCopy` and `handlePaste` only call `stopPropagation`. They are not modelled, and neither is the event propagation order between listeners.
- `console.log` diagnostics appear only as the `Failure` cases.
- Node identity is modelled by position (a path). The source keeps the pressed node object across later changes to the page. The model keeps the caret's path, which after marking may name a different node or none. So on later moves of one drag, the same-node test of `highlightBetweenPoints` (content.js:462) can come out differently from the source. Take a paragraph `[T1, B1, B2, T2]` (text, two elements, text), with the press in `T2` and a drag backward past `B1`. The first mark splits `T1` and shifts `T2` to another index, but the stored press path still names index 3. The source then compares node objects, takes the fast path with a stale offset and refuses. The model compares paths, takes the slow path and marks (or vice versa in other layouts).
- In the fast path the model refuses every element container: in `Resolution.SameNodeRange` only a text node passes the bounds test. For most elements this matches the source, where `.length` is `undefined` and the comparison of content.js:467 fails. But `<form>` and `<select>` elements do have a numeric `.length`. With both carets directly in such an element and the offsets within that length, the source would go on and mark, while the model refuses.
- `Math.sqrt` and floating point are not modelled. Coordinates are integers, and the threshold test compares squares (`Gestures.ThresholdIsDistance` shows the two tests agree).
- The static `querySelectorAll` list of `clearHighlights` is modelled as "the first marker in document order", taken once per marker. Unwrapping a marker never removes or reorders the markers after it, so this is the same sequence. Markers nested inside markers are counted, as `querySelectorAll` finds them too.
- The outer `catch` of `highlightSelection` for other exceptions is not modelled. On ranges whose ends are valid boundary points, `extractContents` and `insertNode` do not throw.
- Marker attributes other than the colour are not modelled: the class name and the `user-select` styles are fixed.
- `getBoundingClientRect`, `offsetWidth/offsetHeight` and `innerWidth/innerHeight` are parameters of the button methods.
- The button-drag listeners' attachment is folded into `isButtonDragging`: they are attached exactly while it is true. The source's check that the floating button exists in `handleButtonDrag` is always true once initialised.
- Disabling does not reset a press in progress. The source leaves `isMouseDown`, `isDragging` and `startPoint` as they are (`Gestures.DraggingPersists`). A description of the program that says the gesture returns to idle when the switch goes off does not match the code, and the model follows the code.
- Clearing does not restore the page as it was before marking. A description of the program says removal must fully restore the original tree, and that removing a mark across two paragraphs restores the two paragraphs. The code does neither. `extractContents` (content.js:545) leaves the clone halves of partially selected elements, and `clearHighlights` only unwraps markers. The model follows the code: `Examples.MarkAcrossParagraphs` ends with four paragraphs where there were two. What is proved is that clearing keeps the text (`Unwrap.UnwrapText`) and leaves no marker.
- `getTextNodeOffset` (content.js:446-452) is `Resolution.PointAt`, which only records the event's coordinates and applies the `caretRangeFromPoint` oracle to them. It has no property of its own beyond that abstraction, so it has no row.
- Unwrap.FirstMarker: its contract does not state that the location is the first marker in document order, only that a marker sits there and that none exists when nothing is found. `clearHighlights`' results (`Pages.Page.ClearHighlights`) do not depend on the order.
- Text offsets and lengths count Dafny characters (Unicode scalar values), not UTF-16 code units. The source counts UTF-16 units: the caret offsets of `caretRangeFromPoint`, `node.length` in the bounds test of content.js:467, and the split positions of `extractContents` and `insertNode` (content.js:545-547). The two agree on text inside the Basic Multilingual Plane. Outside it they differ: in a text node holding `a` followed by U+1F600 the source's length is 3 and the caret after the emoji is at 3, while the model's length is 2, so `Resolution.SameNodeRange` refuses where the source marks. On such text the oracle's offsets must be read as character counts for the model to match.
- The lemmas of `Marking` and `RangeExtract` hold for every pair of points in document order, the collapsed range included. There `surroundContents` inserts an empty marker, as the DOM does. The program never reaches that case: `Pages.Page.HighlightSelection` and `Resolution.ResolveRange` refuse a collapsed range first.
- Offsets 3 and 7 of "hello world" select "lo w" (half-open range semantics), and the model marks that (`Examples.MarkInsideOneText`).
