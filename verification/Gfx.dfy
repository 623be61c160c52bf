/** Sizes and rectangles; a negative width or height is stored as 0. */
module Gfx {
  function NonNegative(i: int): nat {
    if i < 0 then 0 else i
  }

  datatype Size = Size(width: nat, height: nat)

  datatype Rect = Rect(x: int, y: int, width: nat, height: nat) {
    predicate IsEmpty() { width == 0 || height == 0 }

    function Right(): int { x + width }

    function Bottom(): int { y + height }

    predicate Contains(r: Rect) {
      r.x >= x && r.Right() <= Right() && r.y >= y && r.Bottom() <= Bottom()
    }

    /** The point is one of those that the rectangle covers. */
    predicate Covers(px: int, py: int) {
      x <= px < x + width && y <= py < y + height
    }
  }

  const EMPTY_RECT := Rect(0, 0, 0, 0)

  /** A rectangle is empty if it covers no point. */
  lemma EmptyIff(r: Rect)
    ensures r.IsEmpty() <==> forall px, py :: !r.Covers(px, py)
  {
    if !r.IsEmpty() {
      assert r.Covers(r.x, r.y);
    }
  }

  /** A rectangle contains one that is not empty if it covers all of its points. */
  lemma ContainsIff(r: Rect, inner: Rect)
    requires !inner.IsEmpty()
    ensures r.Contains(inner) <==> forall px, py :: inner.Covers(px, py) ==> r.Covers(px, py)
  {
    if forall px, py :: inner.Covers(px, py) ==> r.Covers(px, py) {
      assert inner.Covers(inner.x, inner.y);
      assert inner.Covers(inner.Right() - 1, inner.Bottom() - 1);
    }
  }
}
