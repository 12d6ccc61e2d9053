# Draggable windows and scrolling lists over relative rectangles

This project models the state logic of a small pygame GUI package. It has
three widget pieces.

- **Subrect** (`Hierarchy`): a rectangle whose x and y are offsets inside a
  parent rectangle, or inside the display.
  - `rel2display` walks the parent chain and adds up the offsets.
  - `rel2parent` adds only the immediate parent's offset.
  - `rel2self` turns a display point into a local one.
- **ScrollWindow** and its **_ScrollBar** (`ScrollWindows`): a list of
  strings shown a page at a time from a scroll `index`.
  - It has an optional highlighted row that follows the pointer.
  - The bar has up and down arrow buttons, a track and a thumb that can be
    dragged.
  - Wheel, arrow, track and thumb events change the index by clamped steps.
  - A primary click on the highlighted row returns that item.
- **MoveWindow** (`MoveWindows`): a window with a handle strip along its top.
  - A primary press on the handle starts a drag; a release ends it.
  - While dragged, the window follows the pointer and, with `clamp` on, is
    kept within its parent or the display.
  - Every event is passed on to the contained widgets in order, and the
    first non-empty answer is returned.

Both widgets take keyword options checked against a table of defaults
(`Config`). An unknown name is an error, modelled as a `Failure` result.

Subrects, windows and bars are classes whose fields change in place.
Sharing matters here: a widget inside a moved window moves with it on the
display because its position is always recomputed through the chain. The
pure parts are functions:
- bar geometry;
- the drag index and thumb position;
- clamping;
- option merging;
- the state an event leads to.

Every method is proved against those functions. Lemmas state what the
functions mean.

Pointer position, pointer movement and the display size are parameters.
Events carry only their kind, button and position (`Events`).

## Model

| member | source | states |
|---|---|---|
| Basics.Trunc | guipack/scrollwindow.py:118-119 | storing a float in a rect field rounds toward zero: the result is within one of the value, below it for positive values and above it for negative ones |
| Geometry.MovedBy | guipack/movewindow.py:90 | moving a rect shifts its corner by exactly the delta and keeps its size |
| Geometry.ContainsShifted | guipack/scrollwindow.py:83-84 | the hit test (`collidepoint`, `Contains`) gives the same answer when the rect and the point are moved together, so testing in display or local coordinates agrees; an empty rect is never hit |
| Geometry.HalfTowardZero | guipack/movewindow.py:93 | halving as C does, rounding toward zero for either sign, as `clamp_ip` centres an oversized rect |
| Geometry.ClampAxis | guipack/movewindow.py:91-95 | a segment that fits ends up within the bounds; one already inside stays put; an oversized one is centred; one sticking out on one side is pushed flush to that side |
| Geometry.Clamp | guipack/movewindow.py:91-95 | clamping keeps the size, puts a rect that fits inside the bounds and leaves a rect already inside alone |
| Geometry.ClampIdempotent | guipack/movewindow.py:93 | clamping a clamped rect again changes nothing |
| Config.Given | guipack/movewindow.py:33-35 | the value given for a name is one the caller passed with that name; no value means the name was never passed |
| Config.FirstUnknown | guipack/movewindow.py:33-37 | the first keyword whose name is not in the table; every earlier one is recognised |
| Config.MergedMeaning | guipack/movewindow.py:26-37 | merging fails exactly when some keyword is unrecognised, naming the first one; on success the table keeps its names, each given name holds the caller's last value and the rest keep their defaults |
| Config.MergedKeepsDefault | guipack/movewindow.py:33-35 | a recognised name the caller did not pass keeps its default value |
| Config.FirstUnknownOfPrefix | guipack/movewindow.py:33-37 | the first unknown keyword of a list, found from that of the list without its last entry |
| Config.MergedFailureSticks | guipack/scrollwindow.py:50-54 | once an unknown keyword has raised, the keywords after it make no difference |
| Config.ProcessKwargs | guipack/scrollwindow.py:50-54 | the loop copying keywords into the option table yields the merged table, or the error for the first unknown name |
| Hierarchy.Subrect.constructor | guipack/subrect.py:8-10 | the rect fields are copied unchanged and the parent defaults to the display |
| Hierarchy.Subrect.Chain | guipack/subrect.py:26-30 | the chain walked upward is the rect and its ancestors, all well formed and no deeper than the rect |
| Hierarchy.Subrect.Rel2Parent | guipack/subrect.py:12-17 | keeps the size; under the display it is the rect itself |
| Hierarchy.Subrect.Rel2Display | guipack/subrect.py:19-31 | the loop over the parent chain terminates and yields the display origin (own offset plus every ancestor's) with the rect's size; under the display it is the rect itself; nothing is modified |
| Hierarchy.Subrect.Rel2Self | guipack/subrect.py:33-37 | the local point plus the display origin is the given point again (round trip); nothing is modified |
| Hierarchy.Rel2ParentAgainstDisplay | guipack/subrect.py:12-31 | one level below a top-level rect, `rel2parent` equals `rel2display`; deeper down they differ by exactly the grandparent's display origin |
| Hierarchy.ChildFollowsParent | guipack/subrect.py:25-31 | when a rect moves and the rects above it stay put, each rect directly inside it moves on the display by the same amount |
| Hierarchy.OriginUnchanged | guipack/subrect.py:25-31 | a chain none of whose rects moved keeps its display origin |
| ScrollWindows.MaxIndex | guipack/scrollwindow.py:207-211 | the largest index is length minus a page when the content is longer than a page, else 0, and never negative |
| ScrollWindows.MakeBar | guipack/scrollwindow.py:232-244 | for content longer than a page, the thumb is at least 10 pixels, and exactly the visible share of the track when above 10, and no taller than a track of at least 10; each row is worth track/length pixels; otherwise the thumb fills the track and a row is worth 10 |
| ScrollWindows.DragIndex | guipack/scrollwindow.py:108-117 | while dragging, the index is the grab-time index plus the floor of the travel over pixels per row, clamped to [0, length - page] |
| ScrollWindows.DragIndexMonotone | guipack/scrollwindow.py:108-117 | dragging further down never gives a smaller index |
| ScrollWindows.ThumbTop | guipack/scrollwindow.py:118-123 | scrolled to the end, the thumb sits flush on the down button; otherwise its top is button height + index × pixels per row, rounded toward zero (within one pixel below that value), so at index 0 it sits right under the up button and is never above it |
| ScrollWindows.ThumbOverrunsBeforeEnd | guipack/scrollwindow.py:118-123 | with the 10-pixel minimum thumb (100 rows, 5 to a page, 100-pixel track) the thumb one row before the end reaches into the down button, and at the end it jumps back up: the rule as written |
| ScrollWindows.RowWithinPage | guipack/scrollwindow.py:84-87 | a position inside a window of height h falls in a row at most one past the last full row, and within that row's pixel band |
| ScrollWindows.RowAtMeaning | guipack/scrollwindow.py:84-87 | the row lookup (`RowAt`) finds a row exactly when the pointer is over the window and not the bar, and that row's band holds the pointer; it is a row that fits or the partly visible one below |
| ScrollWindows.MergedOptionsUsable | guipack/scrollwindow.py:40-54 | merged options always hold the highlight flag and usable button images |
| ScrollWindows.HighlightOnByDefault | guipack/scrollwindow.py:40-49 | in the default table (`Defaults`) highlighting is on: without a `highlight` keyword the merged options have it on |
| ScrollWindows.PointedRow | guipack/scrollwindow.py:82-89 | the row computed with `rel2display` and `rel2self` is the row under the pointer over the window, or none over the bar or outside the window |
| ScrollWindows.ScrollBar.constructor | guipack/scrollwindow.py:215-230 | the arrow buttons sit at the two ends of the bar and the thumb under the up button; the thumb height is the truncated `make_bar` size; nothing is dragged |
| ScrollWindows.ScrollWindow.constructor | guipack/scrollwindow.py:91-104 | the window starts at index 0 with no highlight and no drag; a page is height // row height; the bar runs down the right edge, as wide as the buttons, with the up and down buttons at its two ends, the thumb just below the up button and its size and per-row travel given by `MakeBar` on the track between the buttons (scrollwindow.py:223-229) |
| ScrollWindows.ScrollWindow.Create | guipack/scrollwindow.py:19-34 | construction fails exactly when the keywords do not merge, with that error; otherwise the window takes its highlight flag from the merged options, and its button size (`ButtonSize`) from the first button image or, with no images, a square one row high; it keeps the given row height, starts with no highlight, no drag and no events received, and its bar runs down the right edge, as wide as the buttons and as tall as the window, with the arrow buttons at its two ends, the thumb just below the up button, and the thumb size and per-row travel `MakeBar` of the track between the buttons (scrollwindow.py:101-104, 223-229) |
| ScrollWindows.ScrollWindow.VisibleRows | guipack/scrollwindow.py:125-127 | the visible rows are the content from the index on, at most a page of them |
| ScrollWindows.ScrollWindow.HighlightedRow | guipack/scrollwindow.py:128-129 | a visible row is drawn highlighted exactly when its content index is the highlight index |
| ScrollWindows.ScrollWindow.HighlightAt | guipack/scrollwindow.py:77-89 | with highlighting off or during a drag the highlight is left as it was |
| ScrollWindows.ScrollWindow.HighlightIsRowUnderPointer | guipack/scrollwindow.py:82-88 | a new highlight (`HighlightAt`) is set exactly when the pointer is over the window and not the bar; it is the row whose band holds the pointer, a page row or the partial row below |
| ScrollWindows.ScrollWindow.WheelStepsOneRow | guipack/scrollwindow.py:170-178 | the wheel's effect (`WheelIndex`): button 4 moves one row toward the top and button 5 one row toward the end, staying put only when already there; other buttons leave the index; it stays in range |
| ScrollWindows.ScrollWindow.ArrowPressStepsOneRow | guipack/scrollwindow.py:180-192 | a press on the bar (`PressOnBar`): on an arrow it moves at most one row in that arrow's direction and leaves the drag; elsewhere it is a press on the track or thumb; the index stays in range |
| ScrollWindows.ScrollWindow.TrackPressPagesOrGrabs | guipack/scrollwindow.py:194-211 | a press on the track or thumb (`SliderPress`): a press on the thumb grabs it at the pointer without scrolling; otherwise the index moves by at most a page, back only from above the thumb and forward only from below it, and stays in range |
| ScrollWindows.ScrollWindow.AfterEventKeepsIndexInRange | guipack/scrollwindow.py:148-211 | every event's effect (`AfterEvent`) keeps the index within [0, max index], starts a drag only on content longer than a page, and a release ends any drag |
| ScrollWindows.ScrollWindow.OnScrollWheel | guipack/scrollwindow.py:170-178 | wheel up steps back one row unless at the top, wheel down steps forward one row unless at the end |
| ScrollWindows.ScrollWindow.OnArrowClick | guipack/scrollwindow.py:180-192 | reports a hit exactly when the pointer is on either arrow; a hit steps by one row as the press on the bar dictates, a miss leaves the index |
| ScrollWindows.ScrollWindow.OnBarClick | guipack/scrollwindow.py:194-211 | on the thumb a drag starts at the pointer and current index; above it the index goes back a page (not below 0); below it the index goes forward a page (not past the end) |
| ScrollWindows.ScrollWindow.OnPrimaryPress | guipack/scrollwindow.py:159-164 | a primary press with nothing highlighted acts on the bar only when it is over the bar and the content is longer than a page |
| ScrollWindows.ScrollWindow.GetEvents | guipack/scrollwindow.py:148-168 | returns the selection (`Selection`: the highlighted item on a primary press when it is in range, else nothing), leaves index and drag as `AfterEvent` gives them, and keeps the invariant |
| ScrollWindows.ScrollWindow.ActivateHighlight | guipack/scrollwindow.py:77-89 | the highlight becomes the row under the pointer, none off the content, and is left alone with highlighting off or while dragging |
| ScrollWindows.ScrollWindow.PointThenClick | guipack/scrollwindow.py:141-156 | pointing at a content row in one frame and pressing the primary button there returns that row's item; over the bar, off the window or past the content it returns nothing |
| ScrollWindows.ScrollWindow.UpdateBarRect | guipack/scrollwindow.py:106-123 | while dragging the index follows the pointer; the thumb is placed for the index by the thumb rule; the invariant is kept |
| ScrollWindows.ScrollWindow.Update | guipack/scrollwindow.py:139-142 | highlight first, then the bar, with both effects as stated above |
| MoveWindows.Dragged | guipack/movewindow.py:89-95 | a dragged window keeps its size; without clamping it is the moved rect; with clamping it lies inside bounds it fits in, and a move that stays inside is not altered |
| MoveWindows.ClampedDragStaysOffParentCorner | guipack/movewindow.py:91-95 | the bounds (`ClampBounds`) are the parent as a plain rect, or the display surface from the origin; a window that fits its parent therefore ends every clamped drag at a local offset at least the parent's own offset, and one that fits the display ends inside it |
| MoveWindows.FirstAnswer | guipack/movewindow.py:109-112 | the position of the first child whose answer is a non-empty string; no earlier child answers |
| MoveWindows.Ask | guipack/movewindow.py:110 | asking one child gives its selection and its event effect, and no other child changes |
| MoveWindows.Forward | guipack/movewindow.py:109-112 | returns the first answer that counts, or none; exactly the children up to that one receive the event and the later ones are untouched |
| MoveWindows.MergedOptionsPresent | guipack/movewindow.py:26-37 | merged options always hold the clamp flag and a handle image |
| MoveWindows.ClampOnByDefault | guipack/movewindow.py:26-32 | in the default table (`Defaults`) clamping is on: without a `clamp` keyword the merged options have it on |
| MoveWindows.MoveWindow.constructor | guipack/movewindow.py:54-66 | the handle rect sits at (0, 0) in the window, as wide as the window and as tall as the handle image; no content, not dragged |
| MoveWindows.MoveWindow.Create | guipack/movewindow.py:12-37 | construction fails exactly when the keywords do not merge, with that error; otherwise the clamp flag and handle height come from the merged options |
| MoveWindows.MoveWindow.AddChild | driver_test.py:34 | the widget is appended at the end of the content |
| MoveWindows.MoveWindow.DragAfter | guipack/movewindow.py:102-108 | on a press the flag is set exactly when it was set already or the press is a primary one within the handle strip on the display; a release always clears it; other events leave it |
| MoveWindows.MoveWindow.UpdateDrag | guipack/movewindow.py:102-108 | the drag flag becomes the one the event dictates |
| MoveWindows.MoveWindow.GetEvents | guipack/movewindow.py:99-112 | updates the drag flag, then forwards the event to the children in order, even when a drag just began, and returns the first answer that counts |
| MoveWindows.MoveWindow.Update | guipack/movewindow.py:87-95 | without a drag the window stays put; with one it is moved by the pointer delta and clamped into its bounds when clamping is on |

## Left out

- Drawing is not modelled: images, fonts, surfaces, blitting, `render_content`, `set_bg_image`, the bar and handle images, `make_image` and `render_text`. Only the sizes of images the geometry needs appear (`Surface`).
- The loading of the stock images (guipack/setup.py) is I/O. Those images appear only as their sizes (`Gfx`).
- The demo program (driver_test.py) with its event loop, clock and content file is not part of this model.
- Pointer queries are not modelled. The pointer position, the pointer movement since the last query and the display size are parameters. When a drag starts, the source queries the pointer movement once to reset its baseline (guipack/movewindow.py:106). The `delta` passed to `MoveWindows.MoveWindow.Update` is taken to be measured from that reset.
- `MoveWindows.MoveWindow.Update`: the per-frame update of the contained widgets (through `make_image`) is not performed. `Hierarchy.ChildFollowsParent` states how their display positions follow the window.
- Float arithmetic is exact: `perindex` and `barsize` are reals. Slider positions and heights are truncated toward zero as pygame stores them.
- `ScrollWindows.ScrollWindow.constructor` and `ScrollWindows.ScrollWindow.Create` require non-empty content, a positive row height and a non-negative height. The source fails on an empty list (the first rendered row is read) and on a zero row height (division by zero). Negative sizes would bring Python's negative slicing into play.
- `ScrollWindows.ScrollWindow.UpdateBarRect` and `ScrollWindows.ScrollWindow.Update`, which calls it, require a non-zero `perindex` while dragging. The source divides by it. The case does not arise in the source: `perindex` is 0 only when the track between the buttons is empty, the thumb then lies under one of the arrow buttons, and arrows are tested before the thumb (scrollwindow.py:182-190), so no drag can start.
- `ScrollWindows.ScrollWindow.Create` requires any `bar_button_images` keyword to be empty or a non-empty image list. `MoveWindows.MoveWindow.Create` requires `handle_img` to be an image. Other values make the source fail when it reads their size.
- `MoveWindows.MoveWindow.AddChild` requires distinct children with distinct bars. The source's list would accept the same widget twice.
- `ScrollWindows.ScrollWindow.OnArrowClick` returns a boolean where the source returns 1 or 0.
- `MoveWindows.Forward` states which children received the event and that the later ones are untouched. It does not restate each asked child's new index and drag state; `MoveWindows.Ask` and `ScrollWindows.ScrollWindow.GetEvents` state those per child.
- `MoveWindows.MoveWindow.GetEvents` is weaker in the same way as `MoveWindows.Forward`.
- Contained widgets are modelled as scroll windows only. The source accepts any object with `get_events` and `update`.
- A clamped window whose parent is a subrect is clamped into the parent's own x and y as a plain rect, not into the parent's local frame (0, 0, width, height). This is modelled as written; `MoveWindows.ClampedDragStaysOffParentCorner` states its consequence.
