/** A scrollable list widget. It shows `perPage` rows of its content
    starting at `index`, highlights the row under the pointer, and owns a
    scroll bar (a track between an up and a down arrow button, with a thumb
    whose height is proportional to the visible share of the content). */
module ScrollWindows {
  import opened Basics
  import opened Geometry
  import opened Events
  import opened Hierarchy
  import opened Config

  /** Recognised options and their defaults. The stock arrow images are two
      24x25 cuts of the stock button image. */
  function Defaults(gfx: Gfx): map<string, Value>
  {
    map[
      "background" := NoneValue,
      "bg_color" := ColorValue([255, 255, 255]),
      "text_color" := ColorValue([0, 0, 0]),
      "highlight_color" := ColorValue([0, 0, 0, 100]),
      "highlight_text_color" := ColorValue([255, 255, 0]),
      "bar_bg_image" := SurfaceValue(gfx.barBg),
      "bar_button_images" := SurfaceList([Surface(24, 25), Surface(24, 25)]),
      "bar_slider_image" := SurfaceValue(gfx.bar),
      "highlight" := BoolValue(true)
    ]
  }

  /** A value the window can take its arrow-button size from: either no
      images (the buttons are then square, one row high) or a non-empty list. */
  predicate ButtonImagesUsable(v: Value)
  {
    !Truthy(v) || (v.SurfaceList? && |v.surfaces| > 0)
  }

  /** Arrow-button size: that of the first image, else a square one row high. */
  function ButtonSize(v: Value, rowHeight: int): (int, int)
    requires ButtonImagesUsable(v)
  {
    if Truthy(v) then (v.surfaces[0].w, v.surfaces[0].h) else (rowHeight, rowHeight)
  }

  /** The thumb's drag state: where the pointer grabbed it and the index then. */
  datatype Drag = NotDragging | Dragging(anchorY: int, startIndex: int)

  /** The largest scroll index: the one that shows the last full page. */
  function MaxIndex(length: int, perPage: int): (m: int)
    ensures m >= 0 && m >= length - perPage
    ensures length > perPage ==> m == length - perPage
    ensures length <= perPage ==> m == 0
  {
    if length > perPage then length - perPage else 0
  }

  /** Thumb height and pixels per content row. */
  datatype BarGeometry = BarGeometry(barsize: real, perindex: real)

  /** Thumb geometry for a track of `track` pixels. When the content is longer
      than a page, the thumb takes the visible share of the track but never
      less than 10 pixels, and each row is worth an equal share of the track;
      otherwise the thumb fills the track. */
  function MakeBar(track: int, perPage: int, length: int): (g: BarGeometry)
    requires perPage >= 0
    ensures length > perPage ==> g.barsize >= 10.0
    ensures length > perPage ==> g.perindex * length as real == track as real
    ensures length > perPage ==> g.barsize * length as real >= track as real * perPage as real
    ensures length > perPage && g.barsize > 10.0 ==>
      g.barsize * length as real == track as real * perPage as real
    ensures length > perPage && track >= 10 ==> g.barsize <= track as real
    ensures length <= perPage ==> g.barsize == track as real && g.perindex == 10.0
  {
    if length > perPage then
      var proportional := track as real * (perPage as real / length as real);
      var perindex := track as real / length as real;
      assert proportional * length as real == track as real * perPage as real;
      BarGeometry(if proportional < 10.0 then 10.0 else proportional, perindex)
    else
      BarGeometry(track as real, 10.0)
  }

  /** Index while the thumb is dragged: the index at grab time moved by the
      whole rows the pointer has travelled, kept within [0, length - perPage]. */
  function DragIndex(drag: Drag, mouseY: int, perindex: real, length: int, perPage: int): (i: int)
    requires drag.Dragging? && perindex != 0.0
    ensures length > perPage ==> 0 <= i <= MaxIndex(length, perPage)
    ensures length >= perPage ==>
      i == Max(0, Min(drag.startIndex + ((mouseY - drag.anchorY) as real / perindex).Floor, length - perPage))
  {
    var next := drag.startIndex + ((mouseY - drag.anchorY) as real / perindex).Floor;
    if next <= 0 then 0
    else if next > length - perPage then length - perPage
    else next
  }

  /** With rows of positive height, moving the pointer further down while
      dragging never scrolls back up. */
  lemma DragIndexMonotone(drag: Drag, y1: int, y2: int, perindex: real, length: int, perPage: int)
    requires drag.Dragging? && perindex > 0.0 && y1 <= y2 && length > perPage
    ensures DragIndex(drag, y1, perindex, length, perPage) <= DragIndex(drag, y2, perindex, length, perPage)
  {
    var a := (y1 - drag.anchorY) as real;
    var b := (y2 - drag.anchorY) as real;
    assert a <= b;
    DivMonotone(a, b, perindex);
  }

  lemma DivMonotone(a: real, b: real, d: real)
    requires a <= b && d > 0.0
    ensures (a / d).Floor <= (b / d).Floor
  {
    assert a / d <= b / d by {
      assert b / d - a / d == (b - a) / d;
    }
    assert (a / d).Floor as real <= a / d < (b / d).Floor as real + 1.0;
  }

  /** Top of the thumb within the bar. Scrolled to the end, it sits flush on
      the down button; otherwise it is `index` rows' worth below the up button. */
  function ThumbTop(buttonH: int, index: int, perindex: real, length: int, perPage: int,
                    barH: int, sliderH: int): (y: int)
    ensures index == length - perPage ==> y + sliderH == barH - buttonH
    ensures index != length - perPage && index == 0 ==> y == buttonH
    ensures index != length - perPage && buttonH >= 0 && index >= 0 && perindex >= 0.0 ==> y >= buttonH
    ensures index != length - perPage && buttonH as real + index as real * perindex >= 0.0 ==>
      y as real <= buttonH as real + index as real * perindex < y as real + 1.0
  {
    var linear := Trunc(buttonH as real + index as real * perindex);
    if index == length - perPage then barH - buttonH - sliderH else linear
  }

  /** A position inside a window of height `h` falls at most in the partly
      visible row just below the last full row. */
  lemma RowWithinPage(local: int, h: int, rowHeight: int)
    requires 0 <= local < h && rowHeight > 0
    ensures var row := local / rowHeight;
      0 <= row <= h / rowHeight && row * rowHeight <= local < (row + 1) * rowHeight &&
      (h % rowHeight == 0 ==> row < h / rowHeight)
  {
    var q, Q := local / rowHeight, h / rowHeight;
    assert q * rowHeight <= local < h && local < (q + 1) * rowHeight;
    assert h == Q * rowHeight + h % rowHeight;
    assert q * rowHeight < (Q + 1) * rowHeight;
    CancelFactor(q, Q + 1, rowHeight);
    if h % rowHeight == 0 {
      CancelFactor(q, Q, rowHeight);
    }
  }

  lemma CancelFactor(a: int, b: int, c: int)
    requires c > 0 && a * c < b * c
    ensures a < b
  {
    assert (b - a) * c == b * c - a * c > 0;
  }

  /** With the 10-pixel minimum thumb the linear thumb rule overruns the
      track: 100 rows, 5 to a page, on a 100-pixel track between 10-pixel
      buttons give one pixel per row, and one row before the end the thumb
      reaches into the down button; at the end it is pinned back above it. */
  lemma ThumbOverrunsBeforeEnd()
    ensures MakeBar(100, 5, 100) == BarGeometry(10.0, 1.0)
    ensures var y := ThumbTop(10, 94, 1.0, 100, 5, 120, 10);
      y + 10 > 120 - 10 && ThumbTop(10, 95, 1.0, 100, 5, 120, 10) < y
  {
  }

  /** Without a `highlight` keyword, highlighting is on. */
  lemma HighlightOnByDefault(gfx: Gfx, kwargs: Kwargs)
    requires Merged(Defaults(gfx), kwargs).Success?
    requires forall j :: 0 <= j < |kwargs| ==> kwargs[j].0 != "highlight"
    ensures "highlight" in Merged(Defaults(gfx), kwargs).value
    ensures Truthy(Merged(Defaults(gfx), kwargs).value["highlight"])
  {
    MergedKeepsDefault(Defaults(gfx), kwargs, "highlight");
  }

  /** When the options merge, they hold a highlight flag and button images
      the window can size its arrows from. */
  lemma MergedOptionsUsable(gfx: Gfx, kwargs: Kwargs)
    requires Merged(Defaults(gfx), kwargs).Success?
    requires forall j :: 0 <= j < |kwargs| && kwargs[j].0 == "bar_button_images" ==>
      ButtonImagesUsable(kwargs[j].1)
    ensures "highlight" in Merged(Defaults(gfx), kwargs).value
    ensures "bar_button_images" in Merged(Defaults(gfx), kwargs).value
    ensures ButtonImagesUsable(Merged(Defaults(gfx), kwargs).value["bar_button_images"])
  {
    MergedMeaning(Defaults(gfx), kwargs);
    assert "highlight" in Defaults(gfx) && "bar_button_images" in Defaults(gfx);
    var given := Given(kwargs, "bar_button_images");
    if given.Some? {
      var j :| 0 <= j < |kwargs| && kwargs[j] == ("bar_button_images", given.value);
    }
  }

  /** The row under `p` when it is over `window` but not over `barRect`,
      counting rows of `rowHeight` from the window's top and adding `index`. */
  function RowAt(window: Rect, barRect: Rect, index: nat, rowHeight: int, p: Point): (h: Option<nat>)
    requires rowHeight > 0
  {
    if Contains(window, p) && !Contains(barRect, p)
    then Some(index + (p.y - window.y) / rowHeight)
    else None
  }

  /** A row is found exactly when the pointer is over the window and not
      over the bar. It is then the row whose band of the window holds the
      pointer: one of the rows that fit, or the partly visible one below. */
  lemma RowAtMeaning(window: Rect, barRect: Rect, index: nat, rowHeight: int, p: Point)
    requires rowHeight > 0 && window.h >= 0
    ensures RowAt(window, barRect, index, rowHeight, p).Some? <==>
      Contains(window, p) && !Contains(barRect, p)
    ensures RowAt(window, barRect, index, rowHeight, p).Some? ==>
      var row := RowAt(window, barRect, index, rowHeight, p).value - index;
      var local := p.y - window.y;
      0 <= row <= window.h / rowHeight && row * rowHeight <= local < (row + 1) * rowHeight &&
      (window.h % rowHeight == 0 ==> row < window.h / rowHeight)
  {
    if RowAt(window, barRect, index, rowHeight, p).Some? {
      RowWithinPage(p.y - window.y, window.h, rowHeight);
    }
  }

  /** Finds the row under the pointer from the two rects' display positions. */
  method PointedRow(window: Subrect, barRect: Subrect, index: nat, rowHeight: int, mouse: Point)
    returns (h: Option<nat>)
    requires window.Valid() && barRect.Valid() && rowHeight > 0
    ensures h == RowAt(window.DisplayRect(), barRect.DisplayRect(), index, rowHeight, mouse)
  {
    var r := window.Rel2Display();
    var overWindow := Contains(r, mouse);
    var overBar := false;
    if overWindow {
      var b := barRect.Rel2Display();
      overBar := Contains(b, mouse);
    }
    if overWindow && !overBar {
      var relative := window.Rel2Self(mouse);
      h := Some(index + relative.y / rowHeight);
    } else {
      h := None;
    }
  }

  class ScrollBar {
    const subrect: Subrect
    const buttonSize: (int, int)
    const perPage: int
    const length: int
    const barsize: real
    const perindex: real
    const upButton: Subrect
    const downButton: Subrect
    const slider: Subrect
    var drag: Drag

    ghost predicate Valid()
    {
      subrect.Valid() && perPage >= 0 &&
      upButton.parent == Within(subrect) && upButton.Valid() &&
      downButton.parent == Within(subrect) && downButton.Valid() &&
      slider.parent == Within(subrect) && slider.Valid() &&
      slider.w == buttonSize.0
    }

    /** Arrow buttons at the two ends of the bar, the thumb just below the up
        button, nothing dragged. */
    constructor (subrect: Subrect, buttonSize: (int, int), perPage: int, length: int)
      requires subrect.Valid() && perPage >= 0
      ensures Valid() && drag == NotDragging
      ensures BarGeometry(barsize, perindex) == MakeBar(subrect.h - 2 * buttonSize.1, perPage, length)
      ensures slider.h == Trunc(barsize)
      ensures this.subrect == subrect && this.buttonSize == buttonSize
      ensures this.perPage == perPage && this.length == length
      ensures fresh(upButton) && fresh(downButton) && fresh(slider)
      ensures upButton.AsRect() == Rect(0, 0, buttonSize.0, buttonSize.1)
      ensures downButton.AsRect() == Rect(0, subrect.h - buttonSize.1, buttonSize.0, buttonSize.1)
      ensures slider.AsRect() == Rect(0, buttonSize.1, buttonSize.0, Trunc(barsize))
    {
      var g := MakeBar(subrect.h - 2 * buttonSize.1, perPage, length);
      this.subrect := subrect;
      this.buttonSize := buttonSize;
      this.perPage := perPage;
      this.length := length;
      upButton := new Subrect(Rect(0, 0, buttonSize.0, buttonSize.1), Within(subrect));
      downButton := new Subrect(Rect(0, subrect.h - buttonSize.1, buttonSize.0, buttonSize.1), Within(subrect));
      barsize, perindex := g.barsize, g.perindex;
      slider := new Subrect(Rect(0, buttonSize.1, buttonSize.0, Trunc(g.barsize)), Within(subrect));
      drag := NotDragging;
    }
  }

  class ScrollWindow {
    const subrect: Subrect
    const content: seq<string>
    const highlight: bool
    /** Height of one rendered row. */
    const rowHeight: int
    /** Rows that fit on a page; a partly visible last row does not count. */
    const perPage: int
    const bar: ScrollBar
    var index: int
    var highlightIndex: Option<nat>
    /** The events this window has been asked to handle, oldest first. */
    ghost var received: seq<Event>

    ghost predicate Valid()
      reads this`index, bar`drag
    {
      subrect.Valid() && bar.Valid() &&
      bar.subrect.parent == Within(subrect) &&
      |content| > 0 && rowHeight > 0 && subrect.h >= 0 &&
      perPage == subrect.h / rowHeight &&
      bar.perPage == perPage && bar.length == |content| &&
      0 <= index <= MaxIndex(|content|, perPage) &&
      (bar.drag.Dragging? ==> |content| > perPage)
    }

    /** Sets up the bar on the right edge, as wide as the arrow buttons and
        as tall as the window; starts at the top with nothing highlighted. */
    constructor (subrect: Subrect, content: seq<string>, rowHeight: int, highlight: bool,
                 buttonSize: (int, int))
      requires subrect.Valid() && |content| > 0 && rowHeight > 0 && subrect.h >= 0
      ensures Valid()
      ensures this.subrect == subrect && this.content == content
      ensures this.rowHeight == rowHeight && this.highlight == highlight
      ensures index == 0 && highlightIndex == None && bar.drag == NotDragging
      ensures received == []
      ensures perPage == subrect.h / rowHeight
      ensures bar.buttonSize == buttonSize
      ensures bar.subrect.AsRect() == Rect(subrect.w - buttonSize.0, 0, buttonSize.0, subrect.h)
      ensures BarGeometry(bar.barsize, bar.perindex) == MakeBar(subrect.h - 2 * buttonSize.1, perPage, |content|)
      ensures bar.upButton.AsRect() == Rect(0, 0, buttonSize.0, buttonSize.1)
      ensures bar.downButton.AsRect() == Rect(0, subrect.h - buttonSize.1, buttonSize.0, buttonSize.1)
      ensures bar.slider.AsRect() == Rect(0, buttonSize.1, buttonSize.0, Trunc(bar.barsize))
      ensures fresh(bar) && fresh(bar.subrect)
    {
      var perPage := subrect.h / rowHeight;
      var barRect := new Subrect(Rect(subrect.w - buttonSize.0, 0, buttonSize.0, subrect.h), Within(subrect));
      var b := new ScrollBar(barRect, buttonSize, perPage, |content|);
      this.subrect := subrect;
      this.content := content;
      this.rowHeight := rowHeight;
      this.highlight := highlight;
      this.perPage := perPage;
      bar := b;
      index := 0;
      highlightIndex := None;
      received := [];
    }

    /** Builds a window from keyword options; an unrecognised name fails. */
    static method Create(subrect: Subrect, content: seq<string>, rowHeight: int, gfx: Gfx, kwargs: Kwargs)
      returns (r: Result<ScrollWindow, ConfigError>)
      requires subrect.Valid() && |content| > 0 && rowHeight > 0 && subrect.h >= 0
      requires forall j :: 0 <= j < |kwargs| && kwargs[j].0 == "bar_button_images" ==>
        ButtonImagesUsable(kwargs[j].1)
      ensures r.Failure? <==> Merged(Defaults(gfx), kwargs).Failure?
      ensures r.Failure? ==> r.error == Merged(Defaults(gfx), kwargs).error
      ensures r.Success? ==>
        var options := Merged(Defaults(gfx), kwargs).value;
        "highlight" in options && "bar_button_images" in options &&
        ButtonImagesUsable(options["bar_button_images"])
      ensures r.Success? ==>
        var options := Merged(Defaults(gfx), kwargs).value;
        fresh(r.value) && r.value.Valid() && r.value.index == 0 &&
        r.value.subrect == subrect && r.value.content == content &&
        r.value.highlight == Truthy(options["highlight"]) &&
        r.value.bar.buttonSize == ButtonSize(options["bar_button_images"], rowHeight)
      ensures r.Success? ==>
        r.value.rowHeight == rowHeight && r.value.highlightIndex == None &&
        r.value.bar.drag == NotDragging && r.value.received == [] &&
        BarGeometry(r.value.bar.barsize, r.value.bar.perindex) ==
          MakeBar(subrect.h - 2 * r.value.bar.buttonSize.1, r.value.perPage, |content|)
      ensures r.Success? ==>
        var bs := r.value.bar.buttonSize;
        r.value.bar.subrect.AsRect() == Rect(subrect.w - bs.0, 0, bs.0, subrect.h) &&
        r.value.bar.upButton.AsRect() == Rect(0, 0, bs.0, bs.1) &&
        r.value.bar.downButton.AsRect() == Rect(0, subrect.h - bs.1, bs.0, bs.1) &&
        r.value.bar.slider.AsRect() == Rect(0, bs.1, bs.0, Trunc(r.value.bar.barsize))
    {
      var merged := ProcessKwargs(Defaults(gfx), kwargs);
      if merged.Failure? {
        return Failure(merged.error);
      }
      MergedOptionsUsable(gfx, kwargs);
      var options := merged.value;
      var w := new ScrollWindow(subrect, content, rowHeight, Truthy(options["highlight"]),
                                ButtonSize(options["bar_button_images"], rowHeight));
      return Success(w);
    }

    /** The rows on screen: the content from `index`, at most a page of it. */
    function VisibleRows(): (rows: seq<string>)
      requires Valid()
      reads this`index, bar`drag
      ensures |rows| == Min(perPage, |content| - index)
      ensures forall i :: 0 <= i < |rows| ==> rows[i] == content[index + i]
    {
      content[index .. Min(index + perPage, |content|)]
    }

    /** Position among the visible rows of the row drawn highlighted, if any. */
    function HighlightedRow(): (k: Option<nat>)
      requires Valid()
      reads this`index, this`highlightIndex, bar`drag
      ensures k.Some? ==> highlightIndex.Some? && k.value == highlightIndex.value - index &&
                          k.value < |VisibleRows()| &&
                          VisibleRows()[k.value] == content[highlightIndex.value]
      ensures k.None? ==> highlightIndex.None? || !(index <= highlightIndex.value < index + |VisibleRows()|)
    {
      if highlightIndex.Some? && index <= highlightIndex.value < Min(index + perPage, |content|)
      then Some(highlightIndex.value - index) else None
    }

    /** The selection a primary click returns: the highlighted item, or none
        when nothing is highlighted or the highlight is past the content. */
    function Selection(e: Event): Option<string>
      reads this`highlightIndex
    {
      if e.MouseButtonDown? && e.button == 1 && highlightIndex.Some? && highlightIndex.value < |content|
      then Some(content[highlightIndex.value]) else None
    }

    /** Row under the pointer when it is over the content but not over the
        bar; no row elsewhere. Left alone when highlighting is off or while
        the thumb is dragged. */
    ghost function HighlightAt(p: Point): (h: Option<nat>)
      requires Valid()
      reads this`index, this`highlightIndex, bar`drag
      reads subrect`x, subrect`y, subrect.ancestors`x, subrect.ancestors`y
      reads bar.subrect`x, bar.subrect`y, bar.subrect.ancestors`x, bar.subrect.ancestors`y
      ensures !highlight || bar.drag.Dragging? ==> h == highlightIndex
    {
      if highlight && bar.drag.NotDragging? then
        RowAt(subrect.DisplayRect(), bar.subrect.DisplayRect(), index, rowHeight, p)
      else highlightIndex
    }

    /** A newly computed highlight is the row under the pointer: the pointer
        lies within that row's band of the window, which is one of the page's
        rows or the partly visible row below them. */
    lemma HighlightIsRowUnderPointer(p: Point)
      requires Valid() && highlight && bar.drag.NotDragging?
      ensures HighlightAt(p).Some? <==>
        Contains(subrect.DisplayRect(), p) && !Contains(bar.subrect.DisplayRect(), p)
      ensures HighlightAt(p).Some? ==>
        var row := HighlightAt(p).value - index;
        var local := p.y - subrect.Origin().y;
        0 <= row <= perPage && row * rowHeight <= local < (row + 1) * rowHeight &&
        (subrect.h % rowHeight == 0 ==> row < perPage)
    {
      RowAtMeaning(subrect.DisplayRect(), bar.subrect.DisplayRect(), index, rowHeight, p);
    }

    /** Index after a primary click at `p` on the thumb or the track. */
    ghost function SliderPress(p: Point): (int, Drag)
      requires Valid()
      reads this`index, this`highlightIndex, bar`drag
      reads subrect`x, subrect`y, subrect.ancestors`x, subrect.ancestors`y
      reads bar.subrect`x, bar.subrect`y, bar.subrect.ancestors`x, bar.subrect.ancestors`y
      reads bar.upButton`x, bar.upButton`y, bar.downButton`x, bar.downButton`y
      reads bar.slider`x, bar.slider`y
    {
      var s := bar.slider.DisplayRect();
      if Contains(s, p) then (index, Dragging(p.y, index))
      else if p.y < s.y then (Max(0, index - perPage), bar.drag)
      else if p.y > s.Bottom() then (Min(index + perPage, MaxIndex(|content|, perPage)), bar.drag)
      else (index, bar.drag)
    }

    /** Index and drag state after a primary click at `p` on the bar: the
        arrows step by one row, the track pages, the thumb starts a drag. */
    ghost function PressOnBar(p: Point): (int, Drag)
      requires Valid()
      reads this`index, this`highlightIndex, bar`drag
      reads subrect`x, subrect`y, subrect.ancestors`x, subrect.ancestors`y
      reads bar.subrect`x, bar.subrect`y, bar.subrect.ancestors`x, bar.subrect.ancestors`y
      reads bar.upButton`x, bar.upButton`y, bar.downButton`x, bar.downButton`y
      reads bar.slider`x, bar.slider`y
    {
      if Contains(bar.upButton.DisplayRect(), p) then (Max(0, index - 1), bar.drag)
      else if Contains(bar.downButton.DisplayRect(), p) then
        (Min(index + 1, MaxIndex(|content|, perPage)), bar.drag)
      else SliderPress(p)
    }

    /** Index after a wheel (or other non-primary button) press over the window. */
    ghost function WheelIndex(button: int): int
      reads this`index
    {
      if button == 4 then Max(0, index - 1)
      else if button == 5 then Min(index + 1, MaxIndex(|content|, perPage))
      else index
    }

    /** Index and drag state after an event. */
    ghost function AfterEvent(e: Event): (int, Drag)
      requires Valid()
      reads this`index, this`highlightIndex, bar`drag
      reads subrect`x, subrect`y, subrect.ancestors`x, subrect.ancestors`y
      reads bar.subrect`x, bar.subrect`y, bar.subrect.ancestors`x, bar.subrect.ancestors`y
      reads bar.upButton`x, bar.upButton`y, bar.downButton`x, bar.downButton`y
      reads bar.slider`x, bar.slider`y
    {
      match e
      case MouseButtonDown(button, p) =>
        if button == 1 then
          if highlightIndex.None? && Contains(bar.subrect.DisplayRect(), p) && |content| > perPage
          then PressOnBar(p)
          else (index, bar.drag)
        else if Contains(subrect.DisplayRect(), p) then (WheelIndex(button), bar.drag)
        else (index, bar.drag)
      case MouseButtonUp(_, _) => (index, NotDragging)
      case OtherEvent => (index, bar.drag)
    }

    /** A wheel turn moves the index by one row toward the top (button 4) or
        the end (button 5), staying put only when already there; other
        buttons leave it. */
    lemma WheelStepsOneRow(button: int)
      requires Valid()
      ensures 0 <= WheelIndex(button) <= MaxIndex(|content|, perPage)
      ensures button == 4 ==> WheelIndex(button) == index - 1 || (index == 0 && WheelIndex(button) == 0)
      ensures button == 5 ==>
        WheelIndex(button) == index + 1 || (index == MaxIndex(|content|, perPage) && WheelIndex(button) == index)
      ensures button != 4 && button != 5 ==> WheelIndex(button) == index
    {
    }

    /** A press on the track scrolls toward the side of the thumb it was on,
        by at most a page, and keeps the index in range; a press on the thumb
        grabs it where it was pressed without scrolling. */
    lemma TrackPressPagesOrGrabs(p: Point)
      requires Valid() && |content| > perPage
      ensures 0 <= SliderPress(p).0 <= MaxIndex(|content|, perPage)
      ensures index - perPage <= SliderPress(p).0 <= index + perPage
      ensures SliderPress(p).0 < index ==> p.y < bar.slider.DisplayRect().y
      ensures SliderPress(p).0 > index ==> p.y > bar.slider.DisplayRect().Bottom()
      ensures Contains(bar.slider.DisplayRect(), p) ==> SliderPress(p) == (index, Dragging(p.y, index))
      ensures !Contains(bar.slider.DisplayRect(), p) ==> SliderPress(p).1 == bar.drag
    {
    }

    /** A press on an arrow moves the index by at most one row in that
        arrow's direction and keeps it in range; a press elsewhere on the bar
        is a press on the track or thumb. */
    lemma ArrowPressStepsOneRow(p: Point)
      requires Valid() && |content| > perPage
      ensures 0 <= PressOnBar(p).0 <= MaxIndex(|content|, perPage)
      ensures Contains(bar.upButton.DisplayRect(), p) ==>
        index - 1 <= PressOnBar(p).0 <= index && PressOnBar(p).1 == bar.drag
      ensures !Contains(bar.upButton.DisplayRect(), p) && Contains(bar.downButton.DisplayRect(), p) ==>
        index <= PressOnBar(p).0 <= index + 1 && PressOnBar(p).1 == bar.drag
      ensures !Contains(bar.upButton.DisplayRect(), p) && !Contains(bar.downButton.DisplayRect(), p) ==>
        PressOnBar(p) == SliderPress(p)
    {
    }

    /** Every event keeps the index within [0, MaxIndex] and starts a drag
        only on content longer than a page. */
    lemma AfterEventKeepsIndexInRange(e: Event)
      requires Valid()
      ensures 0 <= AfterEvent(e).0 <= MaxIndex(|content|, perPage)
      ensures AfterEvent(e).1.Dragging? ==> |content| > perPage
      ensures e.MouseButtonUp? ==> AfterEvent(e).1 == NotDragging
    {
    }

    method OnScrollWheel(button: int)
      requires Valid()
      modifies this`index
      ensures Valid()
      ensures index == old(WheelIndex(button))
    {
      if button == 4 {
        if index != 0 {
          index := index - 1;
        }
      } else if button == 5 {
        if index < |content| - perPage {
          index := index + 1;
        }
      }
    }

    /** Steps by one row when an arrow button is hit; reports whether one was. */
    method OnArrowClick(p: Point) returns (hit: bool)
      requires Valid()
      modifies this`index
      ensures Valid()
      ensures hit <==> Contains(bar.upButton.DisplayRect(), p) || Contains(bar.downButton.DisplayRect(), p)
      ensures hit ==> index == old(PressOnBar(p)).0
      ensures !hit ==> index == old(index)
    {
      var up := bar.upButton.Rel2Display();
      if Contains(up, p) {
        if index != 0 {
          index := index - 1;
        }
        return true;
      }
      var down := bar.downButton.Rel2Display();
      if Contains(down, p) {
        if index < |content| - perPage {
          index := index + 1;
        }
        return true;
      }
      return false;
    }

    /** Pages up or down when the track is clicked, grabs the thumb when it is. */
    method OnBarClick(p: Point)
      requires Valid() && |content| > perPage
      modifies this`index, bar`drag
      ensures Valid()
      ensures (index, bar.drag) == old(SliderPress(p))
    {
      var slider := bar.slider.Rel2Display();
      if Contains(slider, p) {
        bar.drag := Dragging(p.y, index);
      } else if p.y < slider.y {
        if index - perPage > 0 {
          index := index - perPage;
        } else {
          index := 0;
        }
      } else if p.y > slider.Bottom() {
        var maxIndex := |content| - perPage;
        if index + perPage < maxIndex {
          index := index + perPage;
        } else {
          index := maxIndex;
        }
      }
    }

    /** Handles one input event; returns the selected item, if any. */
    method GetEvents(e: Event) returns (r: Option<string>)
      requires Valid()
      modifies this`index, this`received, bar`drag
      ensures Valid()
      ensures r == old(Selection(e))
      ensures (index, bar.drag) == old(AfterEvent(e))
      ensures received == old(received) + [e]
    {
      r := None;
      match e {
        case MouseButtonDown(button, p) =>
          if button == 1 {
            if highlightIndex.Some? {
              if highlightIndex.value < |content| {
                r := Some(content[highlightIndex.value]);
              }
            } else {
              OnPrimaryPress(p);
            }
          } else {
            var window := subrect.Rel2Display();
            if Contains(window, p) {
              OnScrollWheel(button);
            }
          }
        case MouseButtonUp(_, _) =>
          bar.drag := NotDragging;
        case OtherEvent =>
      }
      received := received + [e];
    }

    /** A primary press with nothing highlighted: over the bar of a window
        with more than a page of content it goes to the arrows and, when it
        misses them, to the track and thumb. */
    method OnPrimaryPress(p: Point)
      requires Valid() && highlightIndex.None?
      modifies this`index, bar`drag
      ensures Valid()
      ensures (index, bar.drag) == old(AfterEvent(MouseButtonDown(1, p)))
    {
      var barRect := bar.subrect.Rel2Display();
      if Contains(barRect, p) && |content| > perPage {
        var hit := OnArrowClick(p);
        if !hit {
          OnBarClick(p);
        }
      }
    }

    /** Recomputes which row is highlighted from the pointer position. */
    method ActivateHighlight(mouse: Point)
      requires Valid()
      modifies this`highlightIndex
      ensures Valid()
      ensures highlightIndex == old(HighlightAt(mouse))
    {
      if highlight && bar.drag.NotDragging? {
        highlightIndex := PointedRow(subrect, bar.subrect, index, rowHeight, mouse);
      }
    }

    /** Pointing at a row and then pressing the primary button there picks
        that row's item: the frame's highlight step followed by the press.
        Over the bar, off the window or past the content nothing is picked. */
    method PointThenClick(p: Point) returns (r: Option<string>)
      requires Valid() && highlight && bar.drag.NotDragging?
      modifies this`highlightIndex, this`index, this`received, bar`drag
      ensures var k := old(RowAt(subrect.DisplayRect(), bar.subrect.DisplayRect(), index, rowHeight, p));
        r == (if k.Some? && k.value < |content| then Some(content[k.value]) else None)
    {
      ActivateHighlight(p);
      r := GetEvents(MouseButtonDown(1, p));
    }

    /** Follows the pointer while the thumb is dragged, then places the thumb
        for the current index. */
    method UpdateBarRect(mouseY: int)
      requires Valid()
      requires bar.drag.Dragging? ==> bar.perindex != 0.0
      modifies this`index, bar.slider`y
      ensures Valid()
      ensures old(bar.drag).Dragging? ==>
        index == DragIndex(bar.drag, mouseY, bar.perindex, |content|, perPage)
      ensures old(bar.drag).NotDragging? ==> index == old(index)
      ensures bar.slider.y == ThumbTop(bar.buttonSize.1, index, bar.perindex, |content|, perPage,
                                       bar.subrect.h, bar.slider.h)
    {
      if bar.drag.Dragging? {
        var next := bar.drag.startIndex + ((mouseY - bar.drag.anchorY) as real / bar.perindex).Floor;
        if next <= 0 {
          index := 0;
        } else if next > |content| - perPage {
          index := |content| - perPage;
        } else {
          index := next;
        }
        assert index == DragIndex(bar.drag, mouseY, bar.perindex, |content|, perPage);
      }
      var top := Trunc(bar.buttonSize.1 as real + index as real * bar.perindex);
      if index == |content| - perPage {
        top := bar.subrect.h - bar.buttonSize.1 - bar.slider.h;
      }
      assert top == ThumbTop(bar.buttonSize.1, index, bar.perindex, |content|, perPage,
                             bar.subrect.h, bar.slider.h);
      bar.slider.y := top;
    }

    /** The per-frame state update: highlight first, then the thumb. */
    method Update(mouse: Point)
      requires Valid()
      requires bar.drag.Dragging? ==> bar.perindex != 0.0
      modifies this`highlightIndex, this`index, bar.slider`y
      ensures Valid()
      ensures highlightIndex == old(HighlightAt(mouse))
      ensures old(bar.drag).Dragging? ==>
        index == DragIndex(bar.drag, mouse.y, bar.perindex, |content|, perPage)
      ensures old(bar.drag).NotDragging? ==> index == old(index)
      ensures bar.slider.y == ThumbTop(bar.buttonSize.1, index, bar.perindex, |content|, perPage,
                                       bar.subrect.h, bar.slider.h)
    {
      ActivateHighlight(mouse);
      UpdateBarRect(mouse.y);
    }
  }
}
