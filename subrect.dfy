/** Rectangles positioned relative to a parent rectangle. A rect's x and y
    are offsets inside its parent; the root of every chain is the display.
    Windows move by updating x and y in place, and every rect below them in
    the hierarchy moves along because its absolute position is always
    recomputed by walking the chain. */
module Hierarchy {
  import opened Geometry

  /** Where a rect's coordinates are measured from. */
  datatype Parent = Display | Within(rect: Subrect)

  class Subrect {
    var x: int
    var y: int
    const w: int
    const h: int
    const parent: Parent
    /** Number of ancestors below the display; strictly larger than the
        parent's, so a chain can never come back to itself. */
    ghost const depth: nat
    /** All rects above this one, up to the display. */
    ghost const ancestors: set<Subrect>

    ghost predicate Valid()
      decreases depth
    {
      match parent
      case Display => depth == 0 && ancestors == {}
      case Within(p) => p.depth < depth && p.Valid() && ancestors == p.ancestors + {p}
    }

    constructor (r: Rect, parent: Parent := Display)
      requires parent.Within? ==> parent.rect.Valid()
      ensures Valid()
      ensures x == r.x && y == r.y && w == r.w && h == r.h
      ensures this.parent == parent
    {
      x, y, w, h := r.x, r.y, r.w, r.h;
      this.parent := parent;
      depth := if parent.Within? then parent.rect.depth + 1 else 0;
      ancestors := if parent.Within? then parent.rect.ancestors + {parent.rect} else {};
    }

    /** The rect itself and all of its ancestors. */
    ghost function Chain(): (c: set<Subrect>)
      requires Valid()
      decreases depth
      ensures c == {this} + ancestors
      ensures forall s :: s in c ==> s.Valid() && s.depth <= depth
      ensures parent.Within? ==> c == {this} + parent.rect.Chain()
    {
      match parent
      case Display => {this}
      case Within(p) => {this} + p.Chain()
    }

    /** The position of the top-left corner on the display: the rect's own
        offset plus the offset of every ancestor. */
    ghost function Origin(): Point
      requires Valid()
      reads this`x, this`y, ancestors`x, ancestors`y
      decreases depth
    {
      match parent
      case Display => Point(x, y)
      case Within(p) => var o := p.Origin(); Point(x + o.x, y + o.y)
    }

    /** The rect in display coordinates. */
    ghost function DisplayRect(): Rect
      requires Valid()
      reads this`x, this`y, ancestors`x, ancestors`y
    {
      Rect(Origin().x, Origin().y, w, h)
    }

    function TopLeft(): Point
      reads this`x, this`y
    {
      Point(x, y)
    }

    /** The rect's own offset and size, as a plain rect. */
    function AsRect(): Rect
      reads this`x, this`y
    {
      Rect(x, y, w, h)
    }

    /** The rect one level up: moved by the immediate parent's offset only. */
    function Rel2Parent(): (r: Rect)
      requires Valid()
      reads this`x, this`y
      reads if parent.Within? then {parent.rect} else {}
      ensures r.w == w && r.h == h
      ensures parent.Display? ==> r == AsRect()
    {
      match parent
      case Display => Rect(x, y, w, h)
      case Within(p) => Rect(x + p.x, y + p.y, w, h)
    }

    /** Walks the parent chain up to the display, summing offsets. Reads only. */
    method Rel2Display() returns (r: Rect)
      requires Valid()
      ensures r == DisplayRect()
      ensures parent.Display? ==> r == AsRect()
    {
      var current := this;
      var ax, ay := x, y;
      while current.parent.Within?
        invariant current.Valid()
        invariant ax - current.x + current.Origin().x == Origin().x
        invariant ay - current.y + current.Origin().y == Origin().y
        decreases current.depth
      {
        current := current.parent.rect;
        ax, ay := ax + current.x, ay + current.y;
      }
      r := Rect(ax, ay, w, h);
    }

    /** Turns a point in display coordinates into one relative to this rect;
        adding the rect's display origin back gives the point again. */
    method Rel2Self(p: Point) returns (q: Point)
      requires Valid()
      ensures Point(q.x + Origin().x, q.y + Origin().y) == p
    {
      var rel := Rel2Display();
      q := Point(p.x - rel.x, p.y - rel.y);
    }
  }

  /** For a rect directly inside a top-level rect, the rect one level up is
      already the display rect; deeper down the two differ by exactly the
      display origin of the grandparent. */
  lemma Rel2ParentAgainstDisplay(s: Subrect)
    requires s.Valid() && s.parent.Within?
    ensures s.parent.rect.parent.Display? ==> s.Rel2Parent() == s.DisplayRect()
    ensures s.parent.rect.parent.Within? ==>
      s.parent.rect.parent.rect.Valid() &&
      var g := s.parent.rect.parent.rect.Origin();
      s.Rel2Parent().x + g.x == s.Origin().x && s.Rel2Parent().y + g.y == s.Origin().y
  {
    var p := s.parent.rect;
    if p.parent.Display? {
      assert p.Origin() == Point(p.x, p.y);
    } else {
      assert p.parent.rect.Valid();
    }
  }

  /** `p` moved by the displacement from `was` to `now`. */
  function Offset(p: Point, now: Point, was: Point): Point
  {
    Point(p.x + now.x - was.x, p.y + now.y - was.y)
  }

  /** When a rect moves and its ancestors stay put, every rect directly
      inside it moves on the display by the same amount. */
  twostate lemma ChildFollowsParent(c: Subrect)
    requires c.Valid() && c.parent.Within?
    requires forall t :: t in c.Chain() ==> old(allocated(t))
    requires unchanged(c)
    requires forall t :: t in c.Chain() && t != c && t != c.parent.rect ==> unchanged(t)
    ensures c.Origin() == Offset(old(c.Origin()), c.parent.rect.TopLeft(), old(c.parent.rect.TopLeft()))
  {
    var p := c.parent.rect;
    assert p.Valid();
    if p.parent.Within? {
      var g := p.parent.rect;
      assert c.Chain() == {c} + ({p} + g.Chain());
      OriginUnchanged(g);
    }
  }

  /** A chain none of whose rects moved keeps its display origin. */
  twostate lemma OriginUnchanged(s: Subrect)
    requires s.Valid()
    requires forall t :: t in s.Chain() ==> old(allocated(t)) && unchanged(t)
    ensures s.Origin() == old(s.Origin())
    decreases s.depth
  {
    if s.parent.Within? {
      var p := s.parent.rect;
      assert s.Chain() == {s} + p.Chain();
      OriginUnchanged(p);
      assert old(s.Origin()) == Point(old(s.x) + old(p.Origin()).x, old(s.y) + old(p.Origin()).y);
    } else {
      assert s in s.Chain();
      assert old(s.Origin()) == Point(old(s.x), old(s.y));
    }
  }
}
