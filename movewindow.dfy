/** A window that can be dragged around by a handle strip along its top edge.
    It forwards input events to the widgets it contains and, while dragged,
    follows the pointer and is kept within its bounds. */
module MoveWindows {
  import opened Basics
  import opened Geometry
  import opened Events
  import opened Hierarchy
  import opened Config
  import ScrollWindows

  /** Recognised options and their defaults; `clamp` keeps the window within
      its bounds while it is dragged. */
  function Defaults(gfx: Gfx): map<string, Value>
  {
    map[
      "background" := NoneValue,
      "bg_color" := ColorValue([50, 50, 200]),
      "handle_img" := SurfaceValue(gfx.handle),
      "text" := NoneValue,
      "font" := NoneValue,
      "text_color" := ColorValue([0, 0, 0]),
      "clamp" := BoolValue(true)
    ]
  }

  /** Where a window lands when dragged by `delta`: translated, then, with
      clamping on, pushed back within `bounds` axis by axis. */
  function Dragged(r: Rect, delta: Point, clamp: bool, bounds: Rect): (m: Rect)
    ensures m.w == r.w && m.h == r.h
    ensures !clamp ==> m == MovedBy(r, delta)
    ensures clamp && r.w <= bounds.w && r.h <= bounds.h ==> Inside(m, bounds)
    ensures clamp && Inside(MovedBy(r, delta), bounds) ==> m == MovedBy(r, delta)
  {
    var moved := MovedBy(r, delta);
    if clamp then Clamp(moved, bounds) else moved
  }

  /** The bounds a window is clamped into: its parent taken as a plain rect
      (the parent's own offset included), or the whole display. */
  function ClampBounds(parent: Parent, screen: Surface): Rect
    reads if parent.Within? then {parent.rect} else {}
  {
    match parent
    case Display => Rect(0, 0, screen.w, screen.h)
    case Within(p) => p.AsRect()
  }

  /** The bounds mix two frames: a window's offset is local to its parent,
      but the parent's bounds start at the parent's own offset. So a window
      that fits in its parent ends every clamped drag at least that offset
      away from the parent's top-left corner, and the display's bounds are
      its whole surface from the origin. */
  lemma ClampedDragStaysOffParentCorner(r: Rect, delta: Point, parent: Subrect, screen: Surface)
    requires r.w <= parent.w && r.h <= parent.h
    ensures var m := Dragged(r, delta, true, ClampBounds(Within(parent), screen));
      parent.x <= m.x && parent.y <= m.y
    ensures r.w <= screen.w && r.h <= screen.h ==>
      Inside(Dragged(r, delta, true, ClampBounds(Display, screen)), Rect(0, 0, screen.w, screen.h))
  {
  }

  /** Without a `clamp` keyword, a dragged window is clamped. */
  lemma ClampOnByDefault(gfx: Gfx, kwargs: Kwargs)
    requires Merged(Defaults(gfx), kwargs).Success?
    requires forall j :: 0 <= j < |kwargs| ==> kwargs[j].0 != "clamp"
    ensures "clamp" in Merged(Defaults(gfx), kwargs).value
    ensures Truthy(Merged(Defaults(gfx), kwargs).value["clamp"])
  {
    MergedKeepsDefault(Defaults(gfx), kwargs, "clamp");
  }

  /** A child's answer to an event counts when it is a non-empty item. */
  predicate IsAnswer(r: Option<string>)
  {
    r.Some? && r.value != ""
  }

  /** Position of the first child whose answer to `e` counts; `|cs|` when
      none does. */
  function FirstAnswer(cs: seq<ScrollWindows.ScrollWindow>, e: Event): (k: nat)
    reads cs`highlightIndex
    ensures k <= |cs|
    ensures forall j :: 0 <= j < k ==> !IsAnswer(cs[j].Selection(e))
    ensures k < |cs| ==> IsAnswer(cs[k].Selection(e))
  {
    if |cs| == 0 then 0
    else if IsAnswer(cs[0].Selection(e)) then 0
    else 1 + FirstAnswer(cs[1..], e)
  }

  /** Every child is valid, and no two children share an object or a bar. */
  ghost predicate ChildrenValid(cs: seq<ScrollWindows.ScrollWindow>)
    reads cs`index, (set c | c in cs :: c.bar)`drag
  {
    (forall i {:trigger cs[i].Valid()} :: 0 <= i < |cs| ==> cs[i].Valid()) &&
    (forall i, j {:trigger cs[i].bar, cs[j].bar} :: 0 <= i < j < |cs| ==> cs[i] != cs[j] && cs[i].bar != cs[j].bar)
  }

  /** Passes an event to one child; the others are left as they were. */
  method Ask(cs: seq<ScrollWindows.ScrollWindow>, i: nat, e: Event) returns (get: Option<string>)
    requires ChildrenValid(cs) && i < |cs|
    modifies {cs[i]}`index, {cs[i]}`received, {cs[i].bar}`drag
    ensures ChildrenValid(cs)
    ensures get == old(cs[i].Selection(e))
    ensures (cs[i].index, cs[i].bar.drag) == old(cs[i].AfterEvent(e))
    ensures cs[i].received == old(cs[i].received) + [e]
    ensures forall j :: 0 <= j < |cs| && j != i ==> Untouched(cs[j])
  {
    assert forall j :: 0 <= j < |cs| && j != i ==> cs[j] != cs[i] && cs[j].bar != cs[i].bar;
    get := cs[i].GetEvents(e);
    assert forall j :: 0 <= j < |cs| && j != i ==> cs[j].Valid();
  }

  /** A child whose scroll position, drag state and event history are as
      they were on entry. */
  twostate predicate Untouched(c: ScrollWindows.ScrollWindow)
    reads c`index, c`received, c.bar`drag
  {
    c.index == old(c.index) && c.bar.drag == old(c.bar.drag) && c.received == old(c.received)
  }

  /** Passes an event to each child in order and returns the first answer
      that counts; the children up to and including that one have handled
      the event, the ones after it are not asked. */
  method Forward(cs: seq<ScrollWindows.ScrollWindow>, e: Event) returns (r: Option<string>)
    requires ChildrenValid(cs)
    modifies cs`index, cs`received, (set c | c in cs :: c.bar)`drag
    ensures ChildrenValid(cs)
    ensures var k := old(FirstAnswer(cs, e));
      r == (if k < |cs| then old(cs[k].Selection(e)) else None)
    ensures forall j :: 0 <= j < |cs| && j <= old(FirstAnswer(cs, e)) ==>
      cs[j].received == old(cs[j].received) + [e]
    ensures forall j :: old(FirstAnswer(cs, e)) < j < |cs| ==> Untouched(cs[j])
  {
    ghost var k := FirstAnswer(cs, e);
    var i := 0;
    while i < |cs|
      invariant 0 <= i <= |cs| && i <= k
      invariant ChildrenValid(cs)
      invariant forall j :: 0 <= j < i ==> cs[j].received == old(cs[j].received) + [e]
      invariant forall j :: i <= j < |cs| ==> Untouched(cs[j])
      invariant forall j :: i <= j < |cs| ==> cs[j].Selection(e) == old(cs[j].Selection(e))
    {
      var get := Ask(cs, i, e);
      if IsAnswer(get) {
        assert i == k;
        return get;
      }
      i := i + 1;
    }
    return None;
  }

  /** When the options merge, they hold a clamp flag and a handle image. */
  lemma MergedOptionsPresent(gfx: Gfx, kwargs: Kwargs)
    requires Merged(Defaults(gfx), kwargs).Success?
    requires forall j :: 0 <= j < |kwargs| && kwargs[j].0 == "handle_img" ==> kwargs[j].1.SurfaceValue?
    ensures "clamp" in Merged(Defaults(gfx), kwargs).value
    ensures "handle_img" in Merged(Defaults(gfx), kwargs).value
    ensures Merged(Defaults(gfx), kwargs).value["handle_img"].SurfaceValue?
  {
    MergedMeaning(Defaults(gfx), kwargs);
    assert "clamp" in Defaults(gfx) && "handle_img" in Defaults(gfx);
    var given := Given(kwargs, "handle_img");
    if given.Some? {
      var j :| 0 <= j < |kwargs| && kwargs[j] == ("handle_img", given.value);
    }
  }

  class MoveWindow {
    const subrect: Subrect
    const clamp: bool
    /** The handle strip, positioned inside the window. */
    const handleRect: Subrect
    /** Contained widgets, asked about events in order. */
    var content: seq<ScrollWindows.ScrollWindow>
    var drag: bool

    /** The handle is a strip at the window's top-left corner, as wide as the window. */
    ghost predicate HandleValid()
      reads handleRect`x, handleRect`y
    {
      subrect.Valid() &&
      handleRect.Valid() && handleRect.parent == Within(subrect) &&
      handleRect.x == 0 && handleRect.y == 0 && handleRect.w == subrect.w
    }

    ghost predicate Valid()
      reads this`content, handleRect`x, handleRect`y
      reads content`index, (set c | c in content :: c.bar)`drag
    {
      HandleValid() && ChildrenValid(content)
    }

    /** A window with no content, not dragged, whose handle is as wide as the
        window and as tall as the handle image. */
    constructor (subrect: Subrect, clamp: bool, handleImage: Surface)
      requires subrect.Valid()
      ensures Valid()
      ensures this.subrect == subrect && this.clamp == clamp
      ensures content == [] && !drag
      ensures handleRect.AsRect() == Rect(0, 0, subrect.w, handleImage.h)
      ensures handleRect.parent == Within(subrect) && fresh(handleRect)
    {
      this.subrect := subrect;
      this.clamp := clamp;
      handleRect := new Subrect(Rect(0, 0, subrect.w, handleImage.h), Within(subrect));
      content := [];
      drag := false;
    }

    /** Builds a window from keyword options; an unrecognised name fails. */
    static method Create(subrect: Subrect, gfx: Gfx, kwargs: Kwargs)
      returns (r: Result<MoveWindow, ConfigError>)
      requires subrect.Valid()
      requires forall j :: 0 <= j < |kwargs| && kwargs[j].0 == "handle_img" ==> kwargs[j].1.SurfaceValue?
      ensures r.Failure? <==> Merged(Defaults(gfx), kwargs).Failure?
      ensures r.Failure? ==> r.error == Merged(Defaults(gfx), kwargs).error
      ensures r.Success? ==>
        var options := Merged(Defaults(gfx), kwargs).value;
        "clamp" in options && "handle_img" in options && options["handle_img"].SurfaceValue?
      ensures r.Success? ==>
        var options := Merged(Defaults(gfx), kwargs).value;
        fresh(r.value) && r.value.Valid() && r.value.subrect == subrect &&
        r.value.content == [] && !r.value.drag &&
        r.value.clamp == Truthy(options["clamp"]) &&
        r.value.handleRect.AsRect() == Rect(0, 0, subrect.w, options["handle_img"].surface.h)
    {
      var merged := ProcessKwargs(Defaults(gfx), kwargs);
      if merged.Failure? {
        return Failure(merged.error);
      }
      MergedOptionsPresent(gfx, kwargs);
      var options := merged.value;
      var w := new MoveWindow(subrect, Truthy(options["clamp"]), options["handle_img"].surface);
      return Success(w);
    }

    /** Adds a widget at the end of the content. */
    method AddChild(child: ScrollWindows.ScrollWindow)
      requires Valid() && child.Valid()
      requires forall c :: c in content ==> c != child && c.bar != child.bar
      modifies this`content
      ensures Valid()
      ensures content == old(content) + [child]
    {
      var cs := content + [child];
      assert forall i :: 0 <= i < |content| ==> cs[i] == content[i] && cs[i] in content;
      content := cs;
    }

    /** The drag flag after an event: a primary press on the handle sets it,
        any release clears it, everything else leaves it. */
    ghost function DragAfter(e: Event): (d: bool)
      requires HandleValid()
      reads this`drag, handleRect`x, handleRect`y, handleRect.ancestors`x, handleRect.ancestors`y
      ensures d && !drag ==>
        e.MouseButtonDown? && e.button == 1 &&
        Contains(Rect(subrect.Origin().x, subrect.Origin().y, subrect.w, handleRect.h), e.pos)
      ensures e.MouseButtonDown? ==>
        (d <==> drag || (e.button == 1 &&
                         Contains(Rect(subrect.Origin().x, subrect.Origin().y, subrect.w, handleRect.h), e.pos)))
      ensures e.MouseButtonUp? ==> !d
      ensures e.OtherEvent? ==> d == drag
    {
      match e
      case MouseButtonDown(button, p) =>
        assert handleRect.Origin() == subrect.Origin();
        if button == 1 && Contains(handleRect.DisplayRect(), p) then true else drag
      case MouseButtonUp(_, _) => false
      case OtherEvent => drag
    }

    /** Updates the drag flag, then asks each child in turn and returns the
        first answer that counts; children after it are not asked. */
    method GetEvents(e: Event) returns (r: Option<string>)
      requires Valid()
      modifies this`drag, content`index, content`received, (set c | c in content :: c.bar)`drag
      ensures Valid()
      ensures drag == old(DragAfter(e))
      ensures var k := old(FirstAnswer(content, e));
        r == (if k < |content| then old(content[k].Selection(e)) else None)
      ensures forall j :: 0 <= j < |content| && j <= old(FirstAnswer(content, e)) ==>
        content[j].received == old(content[j].received) + [e]
      ensures forall j :: old(FirstAnswer(content, e)) < j < |content| ==> Untouched(content[j])
    {
      UpdateDrag(e);
      r := Forward(content, e);
    }

    /** The drag flag's part of event handling: a primary press on the handle
        starts a drag and any release ends it. */
    method UpdateDrag(e: Event)
      requires HandleValid()
      modifies this`drag
      ensures HandleValid()
      ensures drag == old(DragAfter(e))
    {
      match e {
        case MouseButtonDown(button, p) =>
          if button == 1 {
            var handle := handleRect.Rel2Display();
            if Contains(handle, p) {
              drag := true;
            }
          }
        case MouseButtonUp(_, _) =>
          drag := false;
        case OtherEvent =>
      }
    }

    /** Per-frame movement: while dragged, the window follows the pointer's
        movement `delta` and, with clamping on, is kept within its bounds
        (`screen` being the display's size). */
    method Update(delta: Point, screen: Surface)
      requires Valid()
      modifies subrect`x, subrect`y
      ensures Valid()
      ensures !drag ==> subrect.AsRect() == old(subrect.AsRect())
      ensures drag ==>
        subrect.AsRect() == Dragged(old(subrect.AsRect()), delta, clamp, old(ClampBounds(subrect.parent, screen)))
    {
      if drag {
        subrect.x, subrect.y := subrect.x + delta.x, subrect.y + delta.y;
        if clamp {
          var bounds := ClampBounds(subrect.parent, screen);
          var clamped := Clamp(subrect.AsRect(), bounds);
          subrect.x, subrect.y := clamped.x, clamped.y;
        }
      }
    }
  }
}
