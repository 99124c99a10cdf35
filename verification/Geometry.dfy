/** Rectangles of screen pixels.  The toolkit's own rectangle is not part of the repository; what is
    used of it is a bounding box with the empty rectangle as its neutral element, intersection and
    membership, each stated here by what it says about points. */
module Geometry {

  datatype Rect = Rect(x: int, y: int, width: int, height: int) {

    predicate Empty() {
      width <= 0 || height <= 0
    }

    function Right(): int { x + width }

    function Bottom(): int { y + height }

    predicate Contains(px: int, py: int) {
      x <= px < x + width && y <= py < y + height
    }

    /** The bounding box of both; an empty rectangle adds nothing. */
    function Unite(other: Rect): (r: Rect)
      ensures forall px, py :: Contains(px, py) ==> r.Contains(px, py)
      ensures forall px, py :: other.Contains(px, py) ==> r.Contains(px, py)
      ensures r.Empty() <==> Empty() && other.Empty()
    {
      if Empty() then other
      else if other.Empty() then this
      else
        var left, top := Min(x, other.x), Min(y, other.y);
        Rect(left, top, Max(Right(), other.Right()) - left, Max(Bottom(), other.Bottom()) - top)
    }

    function Intersect(other: Rect): (r: Rect)
      ensures forall px, py :: r.Contains(px, py) <==> Contains(px, py) && other.Contains(px, py)
    {
      var left, top := Max(x, other.x), Max(y, other.y);
      Rect(left, top, Min(Right(), other.Right()) - left, Min(Bottom(), other.Bottom()) - top)
    }

    function Offset(dx: int, dy: int): Rect {
      Rect(x + dx, y + dy, width, height)
    }
  }

  const NOTHING := Rect(0, 0, 0, 0)

  function Min(a: int, b: int): int { if a < b then a else b }

  function Max(a: int, b: int): int { if a < b then b else a }

  /** Nothing smaller than the united rectangle holds both, empty or not. */
  lemma UniteIsLeast(a: Rect, b: Rect, r: Rect)
    requires forall px, py :: a.Contains(px, py) || b.Contains(px, py) ==> r.Contains(px, py)
    ensures forall px, py :: a.Unite(b).Contains(px, py) ==> r.Contains(px, py)
  {
    if !a.Empty() && !b.Empty() {
      assert a.Contains(a.x, a.y) && a.Contains(a.Right() - 1, a.Bottom() - 1);
      assert b.Contains(b.x, b.y) && b.Contains(b.Right() - 1, b.Bottom() - 1);
    }
  }

  /** An empty rectangle holds no point, and a rectangle without points is empty. */
  lemma EmptyHoldsNothing(r: Rect)
    ensures r.Empty() <==> forall px, py :: !r.Contains(px, py)
  {
    if !r.Empty() {
      assert r.Contains(r.x, r.y);
    }
  }
}
