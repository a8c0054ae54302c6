/**
 `Grid2D<T>`: a bounded, offset-addressed 2D store over a flat array.
 A position `pos` is first shifted by `Offset` and then flattened to
 `x + Size.x * y`. The indexer performs no check of its own; the C# code
 relies on its callers to test `InBounds` first, and the model states that
 reliance as the indexer's precondition.
 */
module Grid2D {
  import opened Geometry

  lemma MulMonotone(w: int, a: int, b: int)
    requires w >= 0 && a <= b
    ensures w * a <= w * b
  {
    assert w * b - w * a == w * (b - a);
  }

  lemma MulGap(w: int, a: int, b: int)
    requires w >= 0 && a < b
    ensures w * b - w * a >= w
  {
    assert w * b - w * a == w * (b - a);
    MulMonotone(w, 1, b - a);
  }

  /** Row-major flattening maps the rectangle `[0,w) x [0,h)` into `[0, w*h)`. */
  lemma FlatIndexInRange(w: int, h: int, x: int, y: int)
    requires 0 <= x < w && 0 <= y < h
    ensures 0 <= x + w * y < w * h
  {
    MulMonotone(w, 0, y);
    MulMonotone(w, y, h - 1);
    assert w * (h - 1) == w * h - w;
  }

  /** Row-major flattening is injective on columns `[0, w)`. */
  lemma FlatIndexInjective(w: int, x1: int, y1: int, x2: int, y2: int)
    requires 0 <= x1 < w && 0 <= x2 < w
    requires x1 + w * y1 == x2 + w * y2
    ensures x1 == x2 && y1 == y2
  {
    if y1 < y2 {
      MulGap(w, y1, y2);
    } else if y2 < y1 {
      MulGap(w, y2, y1);
    }
  }

  datatype Grid<T> = Grid(size: Vec2, offset: Vec2, data: seq<T>) {

    /** The array was allocated as `new T[size.x * size.y]`. */
    predicate Valid() {
      size.x >= 0 && size.y >= 0 && |data| == size.x * size.y
    }

    /** `GetIndex`: row-major flattening, with no bounds check. */
    function GetIndex(pos: Vec2): int {
      pos.x + size.x * pos.y
    }

    /** `InBounds`: `new RectInt(Vector2Int.zero, Size).Contains(pos + Offset)`. */
    predicate InBounds(pos: Vec2) {
      RectInt(Zero, size).Contains(pos.Plus(offset))
    }

    /** The `[Vector2Int]` getter. */
    function Get(pos: Vec2): T
      requires Valid() && InBounds(pos)
    {
      var p := pos.Plus(offset);
      FlatIndexInRange(size.x, size.y, p.x, p.y);
      data[GetIndex(p)]
    }

    /** The `[Vector2Int]` setter: writes one slot, every other in-bounds cell keeps its value. */
    function Set(pos: Vec2, value: T): (g: Grid<T>)
      requires Valid() && InBounds(pos)
      ensures g.Valid() && g.size == size && g.offset == offset
      ensures g.Get(pos) == value
      ensures forall q | InBounds(q) && q != pos :: g.Get(q) == Get(q)
    {
      var p := pos.Plus(offset);
      FlatIndexInRange(size.x, size.y, p.x, p.y);
      var g := Grid(size, offset, data[GetIndex(p) := value]);
      forall q | InBounds(q) && q != pos
        ensures g.Get(q) == Get(q)
      {
        var p' := q.Plus(offset);
        FlatIndexInRange(size.x, size.y, p'.x, p'.y);
        if GetIndex(p') == GetIndex(p) {
          FlatIndexInjective(size.x, p'.x, p'.y, p.x, p.y);
        }
      }
      g
    }

    /** The `[int x, int y]` getter, which forwards to `[new Vector2Int(x, y)]`. */
    function GetXY(x: int, y: int): T
      requires Valid() && InBounds(Vec2(x, y))
    {
      Get(Vec2(x, y))
    }

    /** The `[int x, int y]` setter, which forwards to `[new Vector2Int(x, y)]`. */
    function SetXY(x: int, y: int, value: T): (g: Grid<T>)
      requires Valid() && InBounds(Vec2(x, y))
      ensures g.Valid() && g.size == size && g.offset == offset
      ensures g.GetXY(x, y) == value
      ensures forall x', y' | InBounds(Vec2(x', y')) && Vec2(x', y') != Vec2(x, y) :: g.GetXY(x', y') == GetXY(x', y')
    {
      var g := Set(Vec2(x, y), value);
      forall x', y' | InBounds(Vec2(x', y')) && Vec2(x', y') != Vec2(x, y)
        ensures g.GetXY(x', y') == GetXY(x', y')
      {
      }
      g
    }
  }

  /** The constructor: `new T[size.x * size.y]`, every slot holding `default(T)`. */
  function Create<T>(size: Vec2, offset: Vec2, default: T): (g: Grid<T>)
    requires size.x >= 0 && size.y >= 0
    ensures g.Valid() && g.size == size && g.offset == offset
    ensures forall p | g.InBounds(p) :: g.Get(p) == default
  {
    MulMonotone(size.x, 0, size.y);
    var g := Grid(size, offset, seq(size.x * size.y, _ => default));
    forall p | g.InBounds(p)
      ensures g.Get(p) == default
    {
      IndexInRange(g, p);
    }
    g
  }

  /** `InBounds` is the half-open rectangle `[0, Size)` after the offset is applied. */
  lemma InBoundsIff<T>(g: Grid<T>, pos: Vec2)
    requires g.Valid()
    ensures g.InBounds(pos) <==>
              0 <= pos.x + g.offset.x < g.size.x && 0 <= pos.y + g.offset.y < g.size.y
  {
  }

  /** Every in-bounds position is flattened to a slot of `data`. */
  lemma IndexInRange<T>(g: Grid<T>, pos: Vec2)
    requires g.Valid() && g.InBounds(pos)
    ensures 0 <= g.GetIndex(pos.Plus(g.offset)) < |g.data|
  {
    var p := pos.Plus(g.offset);
    FlatIndexInRange(g.size.x, g.size.y, p.x, p.y);
  }

  /** Distinct in-bounds positions are flattened to distinct slots. */
  lemma IndexInjective<T>(g: Grid<T>, p: Vec2, q: Vec2)
    requires g.Valid() && g.InBounds(p) && g.InBounds(q)
    requires p != q
    ensures g.GetIndex(p.Plus(g.offset)) != g.GetIndex(q.Plus(g.offset))
  {
    var a, b := p.Plus(g.offset), q.Plus(g.offset);
    if g.GetIndex(a) == g.GetIndex(b) {
      FlatIndexInjective(g.size.x, a.x, a.y, b.x, b.y);
    }
  }

  /** Every slot of `data` belongs to exactly one in-bounds position: the flattening is onto. */
  lemma IndexOnto<T>(g: Grid<T>, i: int) returns (pos: Vec2)
    requires g.Valid() && 0 <= i < |g.data|
    ensures g.InBounds(pos) && g.GetIndex(pos.Plus(g.offset)) == i
  {
    var w, h := g.size.x, g.size.y;
    if w == 0 {
      assert false;
    }
    var x, y := i % w, i / w;
    assert i == w * y + x;
    if y >= h {
      MulMonotone(w, h, y);
      assert false;
    }
    pos := Vec2(x - g.offset.x, y - g.offset.y);
  }
}
