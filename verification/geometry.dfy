/**
 The two Unity value types the core works with: `Vector2Int` and `RectInt`.
 Both are plain integer records; Unity's `RectInt` normalises a negative
 size in its `xMin`/`xMax`/`yMin`/`yMax` accessors, and `Contains` is the
 half-open test against those accessors.
 */
module Geometry {

  function Min(a: int, b: int): int { if a <= b then a else b }
  function Max(a: int, b: int): int { if a <= b then b else a }

  datatype Vec2 = Vec2(x: int, y: int) {
    /** `a + b` on `Vector2Int`. */
    function Plus(o: Vec2): Vec2 { Vec2(x + o.x, y + o.y) }
    /** `a - b` on `Vector2Int`. */
    function Minus(o: Vec2): Vec2 { Vec2(x - o.x, y - o.y) }
  }

  const Zero := Vec2(0, 0)

  datatype RectInt = RectInt(position: Vec2, size: Vec2) {
    function XMin(): int { Min(position.x, position.x + size.x) }
    function XMax(): int { Max(position.x, position.x + size.x) }
    function YMin(): int { Min(position.y, position.y + size.y) }
    function YMax(): int { Max(position.y, position.y + size.y) }

    /** `RectInt.Contains`: half-open on both axes. */
    predicate Contains(p: Vec2) {
      XMin() <= p.x < XMax() && YMin() <= p.y < YMax()
    }
  }

  /** For a rectangle with a non-negative size the accessors are the plain corners. */
  lemma ContainsIff(r: RectInt, p: Vec2)
    requires r.size.x >= 0 && r.size.y >= 0
    ensures r.Contains(p) <==>
              r.position.x <= p.x < r.position.x + r.size.x &&
              r.position.y <= p.y < r.position.y + r.size.y
  {
  }
}
