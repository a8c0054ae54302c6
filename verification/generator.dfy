/**
 The pure rules of `Generator2D`: the room overlap test, the acceptance test
 and Room stamping of `PlaceRooms`, the MST-plus-extras edge selection of
 `CreateHallways`, and the step cost and path commit of `PathfindHallways`.

 `System.Random` is replaced by its draws: `PlaceRooms` reads its k-th
 candidate room from `draw(k)`, `CreateHallways` its k-th `NextDouble()`
 from `keep(k)`. The Delaunay edge list is an input.
 */
module Generator2D {
  import opened Geometry
  import opened Grid2D
  import Wrappers
  import Prim
  import DungeonPathfinder2D

  datatype CellType = None | Room | Hallway

  datatype Room = Room(bounds: RectInt)

  /** `new Room(location, size)`. */
  function NewRoom(location: Vec2, size: Vec2): (r: Room)
    ensures r.bounds.position == location && r.bounds.size == size
  {
    Room.Room(RectInt(location, size))
  }

  // ---------------------------------------------------------------------
  // Room.Intersect

  /** `Room.Intersect`: neither room lies wholly to one side of the other on either axis. */
  predicate Intersect(a: Room, b: Room) {
    var p, s, q, t := a.bounds.position, a.bounds.size, b.bounds.position, b.bounds.size;
    !(p.x >= q.x + t.x || p.x + s.x <= q.x || p.y >= q.y + t.y || p.y + s.y <= q.y)
  }

  /** Both sides at least one cell long, as every drawn room is. */
  predicate Positive(r: Room) {
    r.bounds.size.x >= 1 && r.bounds.size.y >= 1
  }

  /** For rooms of non-negative size, `Intersect` is symmetric and holds exactly when some cell lies in both. */
  lemma IntersectIff(a: Room, b: Room)
    requires Positive(a) && Positive(b)
    ensures Intersect(a, b) == Intersect(b, a)
    ensures Intersect(a, b) <==> exists p :: a.bounds.Contains(p) && b.bounds.Contains(p)
  {
    if exists p :: a.bounds.Contains(p) && b.bounds.Contains(p) {
      var p :| a.bounds.Contains(p) && b.bounds.Contains(p);
      ContainsIff(a.bounds, p);
      ContainsIff(b.bounds, p);
    }
    if Intersect(a, b) {
      var p := Vec2(Max(a.bounds.position.x, b.bounds.position.x), Max(a.bounds.position.y, b.bounds.position.y));
      ContainsIff(a.bounds, p);
      ContainsIff(b.bounds, p);
      assert a.bounds.Contains(p) && b.bounds.Contains(p);
    }
  }

  // ---------------------------------------------------------------------
  // Acceptance in PlaceRooms

  /** The candidate grown by one cell on every side, used only to test for neighbours. */
  function Buffer(r: Room): (b: Room)
    ensures b.bounds.position == r.bounds.position.Minus(Vec2(1, 1))
    ensures b.bounds.size == r.bounds.size.Plus(Vec2(2, 2))
  {
    NewRoom(r.bounds.position.Plus(Vec2(-1, -1)), r.bounds.size.Plus(Vec2(2, 2)))
  }

  /** Lines 119-122 let the room through: strictly inside, so the last row and column stay free. */
  predicate InsideGrid(r: Room, size: Vec2) {
    !(r.bounds.XMin() < 0 || r.bounds.XMax() >= size.x || r.bounds.YMin() < 0 || r.bounds.YMax() >= size.y)
  }

  /** The `foreach` of lines 106-113 finds no earlier room meeting the buffer. */
  predicate Clear(rooms: seq<Room>, buffer: Room) {
    forall k | 0 <= k < |rooms| :: !Intersect(rooms[k], buffer)
  }

  /** `add` at line 142. */
  predicate Accept(rooms: seq<Room>, candidate: Room, size: Vec2) {
    Clear(rooms, Buffer(candidate)) && InsideGrid(candidate, size)
  }

  /** A room that passed lines 119-122 covers only cells of the grid, none in its last row or column. */
  lemma InsideGridIff(r: Room, size: Vec2)
    requires Positive(r)
    ensures InsideGrid(r, size) <==>
              0 <= r.bounds.position.x && r.bounds.position.x + r.bounds.size.x < size.x &&
              0 <= r.bounds.position.y && r.bounds.position.y + r.bounds.size.y < size.y
  {
  }

  /**
   A room whose buffer meets no earlier room keeps at least one free cell
   between the two, diagonals included.
   */
  lemma Separated(a: Room, b: Room, p: Vec2, q: Vec2)
    requires Positive(a) && Positive(b) && !Intersect(a, Buffer(b))
    requires a.bounds.Contains(p) && b.bounds.Contains(q)
    ensures p.x - q.x >= 2 || q.x - p.x >= 2 || p.y - q.y >= 2 || q.y - p.y >= 2
  {
    ContainsIff(a.bounds, p);
    ContainsIff(b.bounds, q);
  }

  // ---------------------------------------------------------------------
  // Stamping Room cells (lines 148-151)

  /** Every cell of `b` (of non-negative size) is a cell of the grid. */
  predicate Fits(g: Grid<CellType>, b: RectInt) {
    && b.size.x >= 0 && b.size.y >= 0
    && 0 <= b.position.x + g.offset.x && b.position.x + b.size.x + g.offset.x <= g.size.x
    && 0 <= b.position.y + g.offset.y && b.position.y + b.size.y + g.offset.y <= g.size.y
  }

  /** One `grid[pos] = CellType.Room` inside the row, followed by the rest of the row. */
  lemma StampRowStep(g: Grid<CellType>, g1: Grid<CellType>, r: Grid<CellType>, b: RectInt, x: int, y: int)
    requires g.Valid() && g.InBounds(Vec2(x, y)) && g1 == g.Set(Vec2(x, y), CellType.Room)
    requires r.Valid() && r.size == g.size && r.offset == g.offset
    requires forall p | g1.InBounds(p) ::
               r.Get(p) == (if p.y == y && x + 1 <= p.x < b.position.x + b.size.x then CellType.Room else g1.Get(p))
    requires x < b.position.x + b.size.x
    ensures forall p | g.InBounds(p) ::
              r.Get(p) == (if p.y == y && x <= p.x < b.position.x + b.size.x then CellType.Room else g.Get(p))
  {
    forall p | g.InBounds(p)
      ensures r.Get(p) == (if p.y == y && x <= p.x < b.position.x + b.size.x then CellType.Room else g.Get(p))
    {
      assert g1.InBounds(p);
      if p == Vec2(x, y) {
        assert r.Get(p) == g1.Get(p);
      }
    }
  }

  /** Stamp row `y` of `b` from column `x` on. */
  function StampRow(g: Grid<CellType>, b: RectInt, x: int, y: int): (r: Grid<CellType>)
    requires g.Valid() && Fits(g, b)
    requires b.position.y <= y < b.position.y + b.size.y
    requires b.position.x <= x <= b.position.x + b.size.x
    ensures r.Valid() && r.size == g.size && r.offset == g.offset
    ensures forall p | g.InBounds(p) ::
              r.Get(p) == (if p.y == y && x <= p.x < b.position.x + b.size.x then CellType.Room else g.Get(p))
    decreases b.position.x + b.size.x - x
  {
    if x == b.position.x + b.size.x then g
    else
      var g1 := g.Set(Vec2(x, y), CellType.Room);
      var r := StampRow(g1, b, x + 1, y);
      StampRowStep(g, g1, r, b, x, y);
      r
  }

  lemma StampRowsStep(g: Grid<CellType>, g1: Grid<CellType>, r: Grid<CellType>, b: RectInt, y: int)
    requires g.Valid() && g1.Valid() && g1.size == g.size && g1.offset == g.offset
    requires b.size.x >= 0 && b.size.y >= 0
    requires forall p | g.InBounds(p) ::
               g1.Get(p) == (if p.y == y && b.position.x <= p.x < b.position.x + b.size.x then CellType.Room else g.Get(p))
    requires r.Valid() && r.size == g.size && r.offset == g.offset
    requires forall p | g1.InBounds(p) :: r.Get(p) == (if b.Contains(p) && p.y >= y + 1 then CellType.Room else g1.Get(p))
    requires b.position.y <= y < b.position.y + b.size.y
    ensures forall p | g.InBounds(p) :: r.Get(p) == (if b.Contains(p) && p.y >= y then CellType.Room else g.Get(p))
  {
    forall p | g.InBounds(p)
      ensures r.Get(p) == (if b.Contains(p) && p.y >= y then CellType.Room else g.Get(p))
    {
      assert g1.InBounds(p);
      ContainsIff(b, p);
    }
  }

  /** Stamp the rows of `b` from row `y` on. */
  function StampRows(g: Grid<CellType>, b: RectInt, y: int): (r: Grid<CellType>)
    requires g.Valid() && Fits(g, b)
    requires b.position.y <= y <= b.position.y + b.size.y
    ensures r.Valid() && r.size == g.size && r.offset == g.offset
    ensures forall p | g.InBounds(p) ::
              r.Get(p) == (if b.Contains(p) && p.y >= y then CellType.Room else g.Get(p))
    decreases b.position.y + b.size.y - y
  {
    if y == b.position.y + b.size.y then
      assert forall p | b.Contains(p) :: p.y < y by {
        forall p | b.Contains(p) ensures p.y < y { ContainsIff(b, p); }
      }
      g
    else
      var g1 := StampRow(g, b, b.position.x, y);
      var r := StampRows(g1, b, y + 1);
      StampRowsStep(g, g1, r, b, y);
      r
  }

  /** `foreach (var pos in bounds.allPositionsWithin) grid[pos] = CellType.Room`. */
  function Stamp(g: Grid<CellType>, b: RectInt): (r: Grid<CellType>)
    requires g.Valid() && Fits(g, b)
    ensures r.Valid() && r.size == g.size && r.offset == g.offset
    ensures forall p | g.InBounds(p) :: r.Get(p) == (if b.Contains(p) then CellType.Room else g.Get(p))
  {
    var r := StampRows(g, b, b.position.y);
    assert forall p | b.Contains(p) :: p.y >= b.position.y by {
      forall p | b.Contains(p) ensures p.y >= b.position.y { ContainsIff(b, p); }
    }
    r
  }

  // ---------------------------------------------------------------------
  // PlaceRooms

  /** The loop's state: the accepted rooms (`i == |rooms|`), the cell grid and the iteration count. */
  datatype Placement = Placement(rooms: seq<Room>, grid: Grid<CellType>, loops: nat)

  /** `Random.Next(1, roomMaxSize + 1)` never draws a size below one. */
  ghost predicate Drawable(draw: nat -> RectInt) {
    forall k: nat :: draw(k).size.x >= 1 && draw(k).size.y >= 1
  }

  /** Some room covers cell `p`. */
  predicate Covered(rooms: seq<Room>, p: Vec2) {
    exists i | 0 <= i < |rooms| :: rooms[i].bounds.Contains(p)
  }

  /** Every room passed the bounds test. */
  predicate AllInside(rooms: seq<Room>, size: Vec2) {
    forall i | 0 <= i < |rooms| :: InsideGrid(rooms[i], size) && Positive(rooms[i])
  }

  /** No room meets the buffer of a later one. */
  predicate Apart(rooms: seq<Room>) {
    forall i, j | 0 <= i < j < |rooms| :: !Intersect(rooms[i], Buffer(rooms[j]))
  }

  /** Room `r` is one of the first `loops` candidates. */
  ghost predicate Chosen(r: Room, loops: nat, draw: nat -> RectInt) {
    exists k: nat | k < loops :: r.bounds == draw(k)
  }

  /** Every room is one of the first `loops` candidates. */
  ghost predicate Drawn(rooms: seq<Room>, loops: nat, draw: nat -> RectInt) {
    forall i | 0 <= i < |rooms| :: Chosen(rooms[i], loops, draw)
  }

  /** The grid holds `Room` exactly on the rooms' cells and `None` elsewhere. */
  ghost predicate Stamped(g: Grid<CellType>, rooms: seq<Room>) {
    g.Valid() && forall p | g.InBounds(p) :: g.Get(p) == (if Covered(rooms, p) then CellType.Room else CellType.None)
  }

  /** The room built from draw `k`, as lines 85-96 build it. */
  function Candidate(draw: nat -> RectInt, k: nat): Room {
    NewRoom(draw(k).position, draw(k).size)
  }

  /**
   The rooms kept from the first `k` candidates when each candidate, in
   turn, is tested against the rooms kept before it: the reference the
   placement loop is measured against.
   */
  function Greedy(size: Vec2, draw: nat -> RectInt, k: nat): seq<Room> {
    if k == 0 then []
    else
      var rooms := Greedy(size, draw, k - 1);
      var c := Candidate(draw, k - 1);
      if Accept(rooms, c, size) then rooms + [c] else rooms
  }

  /** The rooms kept from fewer candidates are a prefix of those kept from more. */
  lemma {:induction false} GreedyPrefix(size: Vec2, draw: nat -> RectInt, k: nat, n: nat)
    requires k <= n
    ensures Greedy(size, draw, k) <= Greedy(size, draw, n)
    decreases n
  {
    if k < n {
      GreedyPrefix(size, draw, k, n - 1);
      var rooms := Greedy(size, draw, n - 1);
      assert rooms <= Greedy(size, draw, n) by {
        if Accept(rooms, Candidate(draw, n - 1), size) {
          assert Greedy(size, draw, n) == rooms + [Candidate(draw, n - 1)];
        }
      }
    }
  }

  /** A candidate that passes the test against the rooms kept before it is among the rooms kept from any later point. */
  lemma AcceptedKept(size: Vec2, draw: nat -> RectInt, k: nat, n: nat)
    requires k < n && Accept(Greedy(size, draw, k), Candidate(draw, k), size)
    ensures Candidate(draw, k) in Greedy(size, draw, n)
  {
    GreedyPrefix(size, draw, k + 1, n);
    var rooms := Greedy(size, draw, k);
    assert Greedy(size, draw, k + 1) == rooms + [Candidate(draw, k)];
    assert Greedy(size, draw, n)[|rooms|] == Candidate(draw, k);
  }

  /** What the placement loop keeps true: rooms inside, apart, drawn, and exactly their cells stamped. */
  ghost predicate Placed(st: Placement, size: Vec2, draw: nat -> RectInt) {
    && st.grid.Valid() && st.grid.size == size && st.grid.offset == Zero
    && AllInside(st.rooms, size) && Apart(st.rooms) && Drawn(st.rooms, st.loops, draw) && Stamped(st.grid, st.rooms)
  }

  lemma DrawnLater(rooms: seq<Room>, loops: nat, draw: nat -> RectInt)
    requires Drawn(rooms, loops, draw)
    ensures Drawn(rooms, loops + 1, draw)
  {
    forall i | 0 <= i < |rooms| ensures Chosen(rooms[i], loops + 1, draw) {
      assert Chosen(rooms[i], loops, draw);
      var k: nat :| k < loops && rooms[i].bounds == draw(k);
    }
  }

  lemma DrawnSnoc(rooms: seq<Room>, loops: nat, draw: nat -> RectInt, c: Room)
    requires Drawn(rooms, loops, draw) && c.bounds == draw(loops)
    ensures Drawn(rooms + [c], loops + 1, draw)
  {
    var rs := rooms + [c];
    forall i | 0 <= i < |rs| ensures Chosen(rs[i], loops + 1, draw) {
      if i < |rooms| {
        assert rs[i] == rooms[i] && Chosen(rooms[i], loops, draw);
        var k: nat :| k < loops && rooms[i].bounds == draw(k);
      } else {
        assert rs[i].bounds == draw(loops);
      }
    }
  }

  lemma ApartSnoc(rooms: seq<Room>, c: Room)
    requires Apart(rooms) && Clear(rooms, Buffer(c))
    ensures Apart(rooms + [c])
  {
    var rs := rooms + [c];
    forall i, j | 0 <= i < j < |rs| ensures !Intersect(rs[i], Buffer(rs[j])) {
      assert rs[i] == rooms[i];
      if j < |rooms| {
        assert rs[j] == rooms[j];
      }
    }
  }

  lemma InsideSnoc(rooms: seq<Room>, size: Vec2, c: Room)
    requires AllInside(rooms, size) && InsideGrid(c, size) && Positive(c)
    ensures AllInside(rooms + [c], size)
  {
    var rs := rooms + [c];
    assert forall i | 0 <= i < |rooms| :: rs[i] == rooms[i];
  }

  lemma CoveredSnoc(rooms: seq<Room>, c: Room, p: Vec2)
    ensures Covered(rooms + [c], p) <==> Covered(rooms, p) || c.bounds.Contains(p)
  {
    var rs := rooms + [c];
    if Covered(rooms, p) {
      var i :| 0 <= i < |rooms| && rooms[i].bounds.Contains(p);
      assert rs[i] == rooms[i];
    }
    if c.bounds.Contains(p) {
      assert rs[|rooms|] == c;
    }
    if Covered(rs, p) {
      var i :| 0 <= i < |rs| && rs[i].bounds.Contains(p);
      if i < |rooms| {
        assert rs[i] == rooms[i];
      }
    }
  }

  lemma StampedSnoc(g: Grid<CellType>, rooms: seq<Room>, c: Room)
    requires Stamped(g, rooms) && Fits(g, c.bounds)
    ensures Stamped(Stamp(g, c.bounds), rooms + [c])
  {
    var g' := Stamp(g, c.bounds);
    forall p | g'.InBounds(p)
      ensures g'.Get(p) == (if Covered(rooms + [c], p) then CellType.Room else CellType.None)
    {
      CoveredSnoc(rooms, c, p);
    }
  }

  /** A candidate that passed lines 119-122 fits on a grid with offset zero. */
  lemma InsideFits(g: Grid<CellType>, size: Vec2, c: Room)
    requires g.size == size && g.offset == Zero && InsideGrid(c, size) && Positive(c)
    ensures Fits(g, c.bounds)
  {
  }

  /** One iteration: draw a candidate and keep it when it is accepted. */
  function Attempt(st: Placement, size: Vec2, draw: nat -> RectInt): (r: Placement)
    requires Drawable(draw) && Placed(st, size, draw)
    ensures Placed(r, size, draw) && r.loops == st.loops + 1 && |st.rooms| <= |r.rooms| <= |st.rooms| + 1
    ensures var c := NewRoom(draw(st.loops).position, draw(st.loops).size);
      if Accept(st.rooms, c, size) then r.rooms == st.rooms + [c] else r.rooms == st.rooms
  {
    var c := NewRoom(draw(st.loops).position, draw(st.loops).size);
    if Accept(st.rooms, c, size) then
      InsideFits(st.grid, size, c);
      InsideSnoc(st.rooms, size, c);
      ApartSnoc(st.rooms, c);
      DrawnSnoc(st.rooms, st.loops, draw, c);
      StampedSnoc(st.grid, st.rooms, c);
      Placement(st.rooms + [c], Stamp(st.grid, c.bounds), st.loops + 1)
    else
      DrawnLater(st.rooms, st.loops, draw);
      st.(loops := st.loops + 1)
  }

  /** The `for (i = 0, loops = 0; i < roomCount && loops < 50000; loops++)` loop, from state `st` on. */
  function PlaceFrom(st: Placement, size: Vec2, roomCount: int, draw: nat -> RectInt): (r: Placement)
    requires Drawable(draw) && Placed(st, size, draw) && st.loops <= MaxLoops
    ensures Placed(r, size, draw) && st.loops <= r.loops <= MaxLoops
    ensures |r.rooms| <= Max(roomCount, |st.rooms|)
    ensures r.loops == MaxLoops || |r.rooms| >= roomCount
    decreases MaxLoops - st.loops
  {
    if |st.rooms| < roomCount && st.loops < MaxLoops then
      PlaceFrom(Attempt(st, size, draw), size, roomCount, draw)
    else st
  }

  /**
   From a state the greedy reference describes, the loop ends in the greedy
   state of its last iteration, and it ran only while fewer than `roomCount`
   rooms were kept.
   */
  lemma {:induction false} PlaceFromGreedy(st: Placement, size: Vec2, roomCount: int, draw: nat -> RectInt)
    requires Drawable(draw) && Placed(st, size, draw) && st.loops <= MaxLoops
    requires st.rooms == Greedy(size, draw, st.loops)
    ensures var r := PlaceFrom(st, size, roomCount, draw);
      && r.rooms == Greedy(size, draw, r.loops)
      && forall k: nat | st.loops <= k < r.loops :: |Greedy(size, draw, k)| < roomCount
    decreases MaxLoops - st.loops
  {
    if |st.rooms| < roomCount && st.loops < MaxLoops {
      var next := Attempt(st, size, draw);
      AttemptGreedy(st, size, draw);
      PlaceFromGreedy(next, size, roomCount, draw);
      var r := PlaceFrom(next, size, roomCount, draw);
      assert PlaceFrom(st, size, roomCount, draw) == r;
      assert next.loops == st.loops + 1;
      forall k: nat | st.loops <= k < r.loops ensures |Greedy(size, draw, k)| < roomCount {
        if k == st.loops {
          assert Greedy(size, draw, k) == st.rooms;
        } else {
          assert next.loops <= k < r.loops;
        }
      }
    }
  }

  /** One iteration from a greedy state reaches the greedy state one candidate later. */
  lemma AttemptGreedy(st: Placement, size: Vec2, draw: nat -> RectInt)
    requires Drawable(draw) && Placed(st, size, draw) && st.rooms == Greedy(size, draw, st.loops)
    ensures Attempt(st, size, draw).rooms == Greedy(size, draw, st.loops + 1)
  {
    assert Candidate(draw, st.loops) == NewRoom(draw(st.loops).position, draw(st.loops).size);
  }

  const MaxLoops: nat := 50000

  /** `PlaceRooms` on a fresh grid of `size`. */
  function PlaceRooms(size: Vec2, roomCount: int, draw: nat -> RectInt): (r: Placement)
    requires size.x >= 0 && size.y >= 0 && Drawable(draw)
    ensures r.grid.Valid() && r.grid.size == size && r.grid.offset == Zero
    ensures r.loops <= MaxLoops && |r.rooms| <= Max(roomCount, 0)
    ensures r.loops == MaxLoops || |r.rooms| >= roomCount
    ensures r.rooms == Greedy(size, draw, r.loops)
    ensures forall k: nat | k < r.loops :: |Greedy(size, draw, k)| < roomCount
    ensures forall k: nat | k < r.loops && Accept(Greedy(size, draw, k), Candidate(draw, k), size) ::
              Candidate(draw, k) in r.rooms
    ensures forall i | 0 <= i < |r.rooms| ::
              && InsideGrid(r.rooms[i], size) && Positive(r.rooms[i])
              && exists k: nat | k < r.loops :: r.rooms[i].bounds == draw(k)
    ensures forall i, j | 0 <= i < j < |r.rooms| :: !Intersect(r.rooms[i], Buffer(r.rooms[j]))
    ensures forall p | r.grid.InBounds(p) :: r.grid.Get(p) == (if Covered(r.rooms, p) then CellType.Room else CellType.None)
  {
    var start := Placement([], Create(size, Zero, CellType.None), 0);
    var r := PlaceFrom(start, size, roomCount, draw);
    PlaceFromGreedy(start, size, roomCount, draw);
    forall k: nat | k < r.loops && Accept(Greedy(size, draw, k), Candidate(draw, k), size)
      ensures Candidate(draw, k) in r.rooms
    {
      AcceptedKept(size, draw, k, r.loops);
    }
    r
  }

  /** Two accepted rooms never share or touch a cell, in either order. */
  lemma PlacedRoomsApart(size: Vec2, roomCount: int, draw: nat -> RectInt, i: nat, j: nat, p: Vec2, q: Vec2)
    requires size.x >= 0 && size.y >= 0 && Drawable(draw)
    requires var rooms := PlaceRooms(size, roomCount, draw).rooms;
      i < |rooms| && j < |rooms| && i != j && rooms[i].bounds.Contains(p) && rooms[j].bounds.Contains(q)
    ensures p.x - q.x >= 2 || q.x - p.x >= 2 || p.y - q.y >= 2 || q.y - p.y >= 2
  {
    var rooms := PlaceRooms(size, roomCount, draw).rooms;
    if i < j {
      Separated(rooms[i], rooms[j], p, q);
    } else {
      Separated(rooms[j], rooms[i], q, p);
    }
  }

  // ---------------------------------------------------------------------
  // CreateHallways

  /** A hash set holding `es` contains `e`: some edge of `es` joins the same pair of vertices. */
  predicate Among<V(==)>(e: Prim.Edge<V>, es: seq<Prim.Edge<V>>) {
    exists f | f in es :: Prim.Same(e, f)
  }

  /**
   `new HashSet<Prim.Edge>(edges)` after `ExceptWith(skip)`: one edge per
   unordered pair that `skip` does not hold, the first one met in `edges`.
   */
  function Leftover<V(==)>(edges: seq<Prim.Edge<V>>, skip: seq<Prim.Edge<V>>): (rest: seq<Prim.Edge<V>>)
    ensures forall e | e in rest :: e in edges && !Among(e, skip)
    ensures forall i, j | 0 <= i < j < |rest| :: !Prim.Same(rest[i], rest[j])
    ensures forall e | e in edges && !Among(e, skip) :: Among(e, rest)
  {
    if |edges| == 0 then []
    else if Among(edges[0], skip) then
      var rest := Leftover(edges[1..], skip);
      assert forall e | e in edges && !Among(e, skip) :: e in edges[1..];
      rest
    else
      var tail := Leftover(edges[1..], skip + [edges[0]]);
      var rest := [edges[0]] + tail;
      LeftoverCons(edges, skip, tail);
      rest
  }

  lemma LeftoverCons<V>(edges: seq<Prim.Edge<V>>, skip: seq<Prim.Edge<V>>, tail: seq<Prim.Edge<V>>)
    requires |edges| > 0 && !Among(edges[0], skip)
    requires forall e | e in tail :: e in edges[1..] && !Among(e, skip + [edges[0]])
    requires forall i, j | 0 <= i < j < |tail| :: !Prim.Same(tail[i], tail[j])
    requires forall e | e in edges[1..] && !Among(e, skip + [edges[0]]) :: Among(e, tail)
    ensures var rest := [edges[0]] + tail;
      && (forall e | e in rest :: e in edges && !Among(e, skip))
      && (forall i, j | 0 <= i < j < |rest| :: !Prim.Same(rest[i], rest[j]))
      && (forall e | e in edges && !Among(e, skip) :: Among(e, rest))
  {
    var rest := [edges[0]] + tail;
    forall e | e in tail ensures !Among(e, skip) && !Prim.Same(edges[0], e) {
      assert !Among(e, skip + [edges[0]]);
      assert edges[0] in skip + [edges[0]];
      assert forall f | f in skip :: f in skip + [edges[0]];
    }
    forall i, j | 0 <= i < j < |rest| ensures !Prim.Same(rest[i], rest[j]) {
      if i == 0 {
        assert rest[j] == tail[j - 1] && rest[j] in tail;
      } else {
        assert rest[i] == tail[i - 1] && rest[j] == tail[j - 1];
      }
    }
    forall e | e in edges && !Among(e, skip) ensures Among(e, rest) {
      if e == edges[0] {
        assert Prim.Same(e, rest[0]);
      } else {
        assert e in edges[1..];
        if Among(e, skip + [edges[0]]) {
          var f :| f in skip + [edges[0]] && Prim.Same(e, f);
          assert f == edges[0];
          assert rest[0] in rest;
        } else {
          var f :| f in tail && Prim.Same(e, f);
          assert f in rest;
        }
      }
    }
  }

  /** The loop of lines 221-225 over `rest`, whose `j`-th edge reads draw `base + j`. */
  function Keep<V>(rest: seq<Prim.Edge<V>>, keep: nat -> real, base: nat): (kept: seq<Prim.Edge<V>>)
    ensures forall e | e in kept :: exists j | 0 <= j < |rest| :: rest[j] == e && keep(base + j) < Threshold
    ensures forall j | 0 <= j < |rest| && keep(base + j) < Threshold :: rest[j] in kept
    decreases |rest|
  {
    if |rest| == 0 then []
    else
      var tail := Keep(rest[1..], keep, base + 1);
      assert forall j | 1 <= j < |rest| :: rest[j] == rest[1..][j - 1] && base + j == base + 1 + (j - 1);
      (if keep(base) < Threshold then [rest[0]] else []) + tail
  }

  /** Keeping a sub-list of edges that join pairwise different vertex pairs keeps them pairwise different. */
  lemma {:induction false} KeepDistinct<V>(rest: seq<Prim.Edge<V>>, keep: nat -> real, base: nat)
    requires forall i, j | 0 <= i < j < |rest| :: !Prim.Same(rest[i], rest[j])
    ensures Prim.Distinct(Keep(rest, keep, base))
    decreases |rest|
  {
    if |rest| > 0 {
      var tail := Keep(rest[1..], keep, base + 1);
      KeepDistinct(rest[1..], keep, base + 1);
      var kept := Keep(rest, keep, base);
      if keep(base) < Threshold {
        assert kept == [rest[0]] + tail;
        forall i, j | 0 <= i < j < |kept| ensures !Prim.Same(kept[i], kept[j]) {
          if i == 0 {
            assert kept[i] == rest[0];
            assert kept[j] == tail[j - 1] && tail[j - 1] in tail;
            var m :| 0 <= m < |rest[1..]| && rest[1..][m] == kept[j] && keep(base + 1 + m) < Threshold;
            assert kept[j] == rest[m + 1];
            assert !Prim.Same(rest[0], rest[m + 1]);
          } else {
            assert kept[i] == tail[i - 1] && kept[j] == tail[j - 1];
          }
        }
      } else {
        assert kept == tail;
      }
    }
  }

  /** The tree followed by kept leftover edges joins pairwise different vertex pairs. */
  lemma SelectionDistinct<V>(mst: seq<Prim.Edge<V>>, rest: seq<Prim.Edge<V>>, kept: seq<Prim.Edge<V>>)
    requires Prim.Distinct(mst) && Prim.Distinct(kept)
    requires forall e | e in kept :: e in rest
    requires forall e | e in rest :: !Among(e, mst)
    ensures Prim.Distinct(mst + kept)
  {
    var selected := mst + kept;
    forall i, j | 0 <= i < j < |selected| ensures !Prim.Same(selected[i], selected[j]) {
      if j < |mst| {
        assert selected[i] == mst[i] && selected[j] == mst[j];
      } else if i < |mst| {
        assert selected[j] == kept[j - |mst|] && kept[j - |mst|] in kept;
        assert selected[i] == mst[i] && mst[i] in mst;
        assert !Among(selected[j], mst);
      } else {
        assert selected[i] == kept[i - |mst|] && selected[j] == kept[j - |mst|];
      }
    }
  }

  /** The 12.5% chance of line 222. */
  const Threshold: real := 0.125

  /**
   `CreateHallways`: the minimum spanning tree from the first edge's `U`,
   followed by those leftover edges whose draw falls below `Threshold`. The
   C# code reads `edges[0]`, so the list must not be empty.
   */
  function CreateHallways<V(==)>(edges: seq<Prim.Edge<V>>, keep: nat -> real): (selected: seq<Prim.Edge<V>>)
    requires |edges| > 0
    ensures var mst := Prim.MinimumSpanningTree(edges, edges[0].u);
      && |mst| <= |selected| && selected[..|mst|] == mst
      && (forall e | e in selected :: e in edges)
      && var rest := Leftover(edges, mst);
         && (forall e | e in edges :: Among(e, mst) || Among(e, rest))
         && (forall j | 0 <= j < |rest| :: Among(rest[j], selected) <==> keep(j) < Threshold)
         && (forall e | e in selected[|mst|..] :: exists j | 0 <= j < |rest| :: rest[j] == e && keep(j) < Threshold)
    ensures Prim.Distinct(selected)
  {
    var mst := Prim.MinimumSpanningTree(edges, edges[0].u);
    Prim.MstChoices(edges, edges[0].u);
    var rest := Leftover(edges, mst);
    var kept := Keep(rest, keep, 0);
    var selected := mst + kept;
    SelectedExtras(mst, rest, kept, keep);
    Prim.MstDistinct(edges, edges[0].u);
    KeepDistinct(rest, keep, 0);
    SelectionDistinct(mst, rest, kept);
    assert selected[..|mst|] == mst && selected[|mst|..] == kept;
    selected
  }

  lemma SelectedExtras<V>(mst: seq<Prim.Edge<V>>, rest: seq<Prim.Edge<V>>, kept: seq<Prim.Edge<V>>, keep: nat -> real)
    requires forall e | e in rest :: !Among(e, mst)
    requires forall i, j | 0 <= i < j < |rest| :: !Prim.Same(rest[i], rest[j])
    requires forall e | e in kept :: exists j | 0 <= j < |rest| :: rest[j] == e && keep(j) < Threshold
    requires forall j | 0 <= j < |rest| && keep(j) < Threshold :: rest[j] in kept
    ensures forall j | 0 <= j < |rest| :: Among(rest[j], mst + kept) <==> keep(j) < Threshold
  {
    forall j | 0 <= j < |rest| ensures Among(rest[j], mst + kept) <==> keep(j) < Threshold {
      if keep(j) < Threshold {
        assert rest[j] in mst + kept;
      }
      if Among(rest[j], mst + kept) {
        var f :| f in mst + kept && Prim.Same(rest[j], f);
        assert rest[j] in rest;
        if f !in mst {
          var i :| 0 <= i < |rest| && rest[i] == f && keep(i) < Threshold;
          assert i == j by {
            assert Prim.Same(rest[j], rest[i]);
          }
        }
      }
    }
  }

  // ---------------------------------------------------------------------
  // PathfindHallways: the step cost and the path commit

  /** The surcharge of lines 260-266 for stepping onto a cell of each type. */
  function Surcharge(c: CellType): real {
    match c
    case Room => 10.0
    case None => 5.0
    case Hallway => 1.0
  }

  /**
   The lambda of lines 251-273 for a query towards `end`: the distance from
   the target cell to `end` plus the target cell's surcharge, and always
   traversable. `dist` stands for `Vector2Int.Distance`. The search only
   asks about cells of the grid; elsewhere the model charges the distance.
   */
  function StepCost(g: Grid<CellType>, end: Vec2, dist: (Vec2, Vec2) -> real): (cf: DungeonPathfinder2D.CostFunction)
    requires g.Valid()
    ensures forall a, b :: cf(a, b).traversable
    ensures forall a, a', b :: cf(a, b) == cf(a', b)
    ensures forall a, b | g.InBounds(b) :: cf(a, b).cost == dist(b, end) + Surcharge(g.Get(b))
  {
    (a: Vec2, b: Vec2) =>
      DungeonPathfinder2D.PathCost(true, dist(b, end) + (if g.InBounds(b) then Surcharge(g.Get(b)) else 0.0))
  }

  /** For two cells equally far from `end`, a hallway is cheaper to step onto than open ground, and that than a room. */
  lemma StepCostPrefersHallways(g: Grid<CellType>, end: Vec2, dist: (Vec2, Vec2) -> real, a: Vec2, b: Vec2, c: Vec2)
    requires g.Valid() && g.InBounds(b) && g.InBounds(c) && dist(b, end) == dist(c, end)
    requires (g.Get(b) == CellType.Hallway && g.Get(c) != CellType.Hallway) ||
             (g.Get(b) == CellType.None && g.Get(c) == CellType.Room)
    ensures StepCost(g, end, dist)(a, b).cost < StepCost(g, end, dist)(a, c).cost
  {
    var cf := StepCost(g, end, dist);
    assert cf(a, b).cost == dist(b, end) + Surcharge(g.Get(b));
    assert cf(a, c).cost == dist(c, end) + Surcharge(g.Get(c));
  }

  /** Lines 279-285: walk the path and turn every `None` cell on it into `Hallway`. */
  function CommitPath(g: Grid<CellType>, path: seq<Vec2>): (r: Grid<CellType>)
    requires g.Valid() && forall p | p in path :: g.InBounds(p)
    ensures r.Valid() && r.size == g.size && r.offset == g.offset
    ensures forall p | g.InBounds(p) ::
              r.Get(p) == (if p in path && g.Get(p) == CellType.None then CellType.Hallway else g.Get(p))
    decreases |path|
  {
    if |path| == 0 then g
    else
      var c := path[0];
      var g1 := if g.Get(c) == CellType.None then g.Set(c, CellType.Hallway) else g;
      assert forall p | p in path[1..] :: g1.InBounds(p) by {
        forall p | p in path[1..] ensures g1.InBounds(p) { assert p in path; }
      }
      var r := CommitPath(g1, path[1..]);
      CommitStep(g, g1, r, path);
      r
  }

  lemma CommitStep(g: Grid<CellType>, g1: Grid<CellType>, r: Grid<CellType>, path: seq<Vec2>)
    requires g.Valid() && |path| > 0 && g.InBounds(path[0])
    requires g1 == if g.Get(path[0]) == CellType.None then g.Set(path[0], CellType.Hallway) else g
    requires r.Valid() && r.size == g.size && r.offset == g.offset
    requires forall p | g1.InBounds(p) ::
               r.Get(p) == (if p in path[1..] && g1.Get(p) == CellType.None then CellType.Hallway else g1.Get(p))
    ensures forall p | g.InBounds(p) ::
              r.Get(p) == (if p in path && g.Get(p) == CellType.None then CellType.Hallway else g.Get(p))
  {
    forall p | g.InBounds(p)
      ensures r.Get(p) == (if p in path && g.Get(p) == CellType.None then CellType.Hallway else g.Get(p))
    {
      assert g1.InBounds(p);
      assert p in path <==> p == path[0] || p in path[1..];
    }
  }

  /** Committing the same path twice changes nothing the first commit did not. */
  lemma CommitIdempotent(g: Grid<CellType>, path: seq<Vec2>)
    requires g.Valid() && forall p | p in path :: g.InBounds(p)
    ensures var once := CommitPath(g, path);
      forall p | g.InBounds(p) :: CommitPath(once, path).Get(p) == once.Get(p)
  {
    var once := CommitPath(g, path);
    forall p | g.InBounds(p) ensures CommitPath(once, path).Get(p) == once.Get(p) {
      assert once.InBounds(p);
    }
  }

  // ---------------------------------------------------------------------
  // PathfindHallways: room centres, corridors and the loop over edges

  /**
   Lines 239-244: `RectInt.center` is the corner plus half the size in
   floating point, and the `(int)` cast truncates toward zero. Working in
   halves keeps this exact: `TruncHalf(t)` is `(int)(t / 2.0)`.
   */
  function TruncHalf(t: int): (h: int)
    ensures t >= 0 ==> 2 * h <= t < 2 * h + 2
    ensures t < 0 ==> 2 * h - 2 < t <= 2 * h
  {
    if t >= 0 then t / 2 else -((-t) / 2)
  }

  /** The truncated centre of a room, as lines 239-244 compute it. */
  function Center(r: Room): (c: Vec2)
    ensures Positive(r) && r.bounds.position.x >= 0 && r.bounds.position.y >= 0 ==> r.bounds.Contains(c)
  {
    Vec2(TruncHalf(2 * r.bounds.position.x + r.bounds.size.x),
         TruncHalf(2 * r.bounds.position.y + r.bounds.size.y))
  }

  /** A room the placement step can produce: non-empty and strictly inside the grid. */
  predicate Placeable(r: Room, size: Vec2) {
    Positive(r) && InsideGrid(r, size)
  }

  /** The centre of a placed room is a cell of the grid. */
  lemma CenterInGrid(r: Room, g: Grid<CellType>)
    requires g.Valid() && g.offset == Zero && Placeable(r, g.size)
    ensures g.InBounds(Center(r))
  {
    var c := Center(r);
    assert r.bounds.Contains(c);
    assert c.Plus(g.offset) == c;
  }

  /** A sequence of neighbouring grid cells from `a` to `b`. */
  ghost predicate Corridor(g: Grid<CellType>, w: seq<Vec2>, a: Vec2, b: Vec2) {
    && |w| > 0 && w[0] == a && w[|w| - 1] == b
    && (forall i | 0 <= i < |w| :: g.InBounds(w[i]))
    && (forall i | 0 < i < |w| :: DungeonPathfinder2D.Step(w[i - 1], w[i]))
  }

  /** `a` and `b` are linked by a corridor of room and hallway cells only. */
  ghost predicate Joined(g: Grid<CellType>, a: Vec2, b: Vec2)
    requires g.Valid()
  {
    exists w :: Corridor(g, w, a, b) && forall i | 0 <= i < |w| :: g.Get(w[i]) != CellType.None
  }

  /** `h` differs from `g` only where open ground became hallway. */
  ghost predicate Grown(g: Grid<CellType>, h: Grid<CellType>)
    requires g.Valid() && h.Valid() && g.size == h.size && g.offset == h.offset
  {
    forall p | g.InBounds(p) ::
      h.Get(p) == g.Get(p) || (g.Get(p) == CellType.None && h.Get(p) == CellType.Hallway)
  }

  /**
   The corridors the searches returned for the first `|ws|` edges: `ws[j]`
   is empty where the search for edge `j` found no path, and otherwise a
   corridor between that edge's centres.
   */
  ghost predicate Found(g: Grid<CellType>, ws: seq<seq<Vec2>>, edges: seq<Prim.Edge<Room>>) {
    && |ws| <= |edges|
    && forall j | 0 <= j < |ws| :: ws[j] == [] || Corridor(g, ws[j], Center(edges[j].u), Center(edges[j].v))
  }

  /** Every cell of every corridor in `ws` is a room or hallway cell of `h`. */
  ghost predicate Paved(h: Grid<CellType>, ws: seq<seq<Vec2>>)
    requires h.Valid()
  {
    forall j, i | 0 <= j < |ws| && 0 <= i < |ws[j]| :: h.InBounds(ws[j][i]) && h.Get(ws[j][i]) != CellType.None
  }

  /** `p` lies on one of the corridors in `ws`. */
  ghost predicate OnSome(p: Vec2, ws: seq<seq<Vec2>>) {
    exists j | 0 <= j < |ws| :: p in ws[j]
  }

  /** Every cell where `h` differs from `g` lies on one of the corridors in `ws`. */
  ghost predicate DugAlong(g: Grid<CellType>, h: Grid<CellType>, ws: seq<seq<Vec2>>)
    requires g.Valid() && h.Valid() && g.size == h.size && g.offset == h.offset
  {
    forall p | g.InBounds(p) && h.Get(p) != g.Get(p) :: OnSome(p, ws)
  }

  /**
   A grid grown from `g`, paved along the corridors `ws` and changed only on
   them, is `g` with exactly the open cells of those corridors turned into
   hallway.
   */
  lemma HallwaysExactly(g: Grid<CellType>, h: Grid<CellType>, ws: seq<seq<Vec2>>)
    requires g.Valid() && h.Valid() && g.size == h.size && g.offset == h.offset
    requires Grown(g, h) && Paved(h, ws) && DugAlong(g, h, ws)
    ensures forall p | g.InBounds(p) ::
              h.Get(p) == (if g.Get(p) == CellType.None && OnSome(p, ws) then CellType.Hallway else g.Get(p))
  {
    forall p | g.InBounds(p)
      ensures h.Get(p) == (if g.Get(p) == CellType.None && OnSome(p, ws) then CellType.Hallway else g.Get(p))
    {
      if g.Get(p) == CellType.None && OnSome(p, ws) {
        var j :| 0 <= j < |ws| && p in ws[j];
        var i :| 0 <= i < |ws[j]| && ws[j][i] == p;
        assert h.Get(ws[j][i]) != CellType.None;
      }
    }
  }

  /** A found corridor whose cells are all paved joins its edge's centres. */
  lemma PavedJoins(g: Grid<CellType>, h: Grid<CellType>, ws: seq<seq<Vec2>>, edges: seq<Prim.Edge<Room>>, j: nat)
    requires g.Valid() && h.Valid() && g.size == h.size && g.offset == h.offset
    requires Found(g, ws, edges) && Paved(h, ws) && j < |ws| && ws[j] != []
    ensures Joined(h, Center(edges[j].u), Center(edges[j].v))
  {
    var a, b := Center(edges[j].u), Center(edges[j].v);
    CorridorShape(g, h, ws[j], a, b);
    assert forall i | 0 <= i < |ws[j]| :: h.Get(ws[j][i]) != CellType.None;
  }

  /** Growing keeps every room and hallway cell, so a joined pair stays joined. */
  lemma JoinedGrown(g: Grid<CellType>, h: Grid<CellType>, a: Vec2, b: Vec2)
    requires g.Valid() && h.Valid() && g.size == h.size && g.offset == h.offset
    requires Grown(g, h) && Joined(g, a, b)
    ensures Joined(h, a, b)
  {
    var w :| Corridor(g, w, a, b) && forall i | 0 <= i < |w| :: g.Get(w[i]) != CellType.None;
    assert forall p :: g.InBounds(p) == h.InBounds(p);
    assert Corridor(h, w, a, b);
    forall i | 0 <= i < |w| ensures h.Get(w[i]) != CellType.None {
      assert g.InBounds(w[i]);
    }
  }

  lemma GrownTrans(g: Grid<CellType>, h: Grid<CellType>, k: Grid<CellType>)
    requires g.Valid() && h.Valid() && k.Valid()
    requires g.size == h.size == k.size && g.offset == h.offset == k.offset
    requires Grown(g, h) && Grown(h, k)
    ensures Grown(g, k)
  {
    forall p | g.InBounds(p)
      ensures k.Get(p) == g.Get(p) || (g.Get(p) == CellType.None && k.Get(p) == CellType.Hallway)
    {
      assert h.InBounds(p);
    }
  }

  /** Corridors only look at the grid's bounds, so grids of the same shape agree on them. */
  lemma CorridorShape(g: Grid<CellType>, h: Grid<CellType>, w: seq<Vec2>, a: Vec2, b: Vec2)
    requires g.size == h.size && g.offset == h.offset
    ensures Corridor(g, w, a, b) == Corridor(h, w, a, b)
  {
    assert forall p :: g.InBounds(p) == h.InBounds(p);
  }

  /** A path the search found on a node grid of the same shape is a corridor of the cell grid. */
  lemma PathIsCorridor(g: Grid<CellType>, nodes: Grid<DungeonPathfinder2D.Node>, cf: DungeonPathfinder2D.CostFunction,
                       w: seq<Vec2>, a: Vec2, b: Vec2)
    requires g.size == nodes.size && g.offset == nodes.offset
    requires DungeonPathfinder2D.IsPath(nodes, cf, w, a, b)
    ensures Corridor(g, w, a, b) && forall p | p in w :: g.InBounds(p)
  {
    assert forall p :: g.InBounds(p) == nodes.InBounds(p);
    forall i | 0 < i < |w| ensures DungeonPathfinder2D.Step(w[i - 1], w[i]) && g.InBounds(w[i]) {
      assert DungeonPathfinder2D.Move(nodes, cf, w[i - 1], w[i]);
    }
    assert forall i | 0 <= i < |w| :: g.InBounds(w[i]);
  }

  /** Committing a corridor paves every cell of it, joins its ends, grows the grid, and changes only cells on it. */
  lemma CommitJoins(g: Grid<CellType>, w: seq<Vec2>, a: Vec2, b: Vec2)
    requires g.Valid() && Corridor(g, w, a, b)
    ensures var r := CommitPath(g, w);
      && (forall i | 0 <= i < |w| :: r.InBounds(w[i]) && r.Get(w[i]) != CellType.None)
      && Joined(r, a, b) && Grown(g, r)
      && forall p | g.InBounds(p) && r.Get(p) != g.Get(p) :: p in w
  {
    var r := CommitPath(g, w);
    assert forall p :: g.InBounds(p) == r.InBounds(p);
    assert Corridor(r, w, a, b);
    forall i | 0 <= i < |w| ensures r.Get(w[i]) != CellType.None {
      assert w[i] in w && g.InBounds(w[i]);
    }
  }

  /** The number of unit steps between two cells. */
  function Manhattan(a: Vec2, b: Vec2): nat {
    (if a.x <= b.x then b.x - a.x else a.x - b.x) + (if a.y <= b.y then b.y - a.y else a.y - b.y)
  }

  /** One step from `a` towards `b`, along x first, staying inside the box they span. */
  function Toward(a: Vec2, b: Vec2): (n: Vec2)
    requires a != b
    ensures DungeonPathfinder2D.Step(a, n) && Manhattan(n, b) == Manhattan(a, b) - 1
    ensures Min(a.x, b.x) <= n.x <= Max(a.x, b.x) && Min(a.y, b.y) <= n.y <= Max(a.y, b.y)
  {
    var d := if a.x < b.x then Vec2(1, 0) else if a.x > b.x then Vec2(-1, 0)
             else if a.y < b.y then Vec2(0, 1) else Vec2(0, -1);
    assert a.Plus(d).Minus(a) == d && d in DungeonPathfinder2D.Neighbors;
    a.Plus(d)
  }

  /** The walk from `a` to `b` that moves along x first, then along y. */
  function Lane(a: Vec2, b: Vec2): (w: seq<Vec2>)
    ensures |w| > 0 && w[0] == a && w[|w| - 1] == b
    decreases Manhattan(a, b)
  {
    if a == b then [a] else [a] + Lane(Toward(a, b), b)
  }

  /** When every step is allowed, the lane between two cells of a grid is a walk of that grid. */
  lemma {:induction false} LaneWalk(g: Grid<DungeonPathfinder2D.Node>, cf: DungeonPathfinder2D.CostFunction, a: Vec2, b: Vec2)
    requires g.Valid() && g.offset == Zero && g.InBounds(a) && g.InBounds(b)
    requires forall p, q :: cf(p, q).traversable
    ensures DungeonPathfinder2D.IsWalk(g, cf, Lane(a, b))
    decreases Manhattan(a, b)
  {
    if a != b {
      var n := Toward(a, b);
      assert g.InBounds(n) by {
        assert n.Plus(g.offset) == n && a.Plus(g.offset) == a && b.Plus(g.offset) == b;
      }
      LaneWalk(g, cf, n, b);
      var tail := Lane(n, b);
      var w := Lane(a, b);
      assert w == [a] + tail;
      forall i | 0 < i < |w| ensures DungeonPathfinder2D.Move(g, cf, w[i - 1], w[i]) {
        if i > 1 {
          assert w[i - 1] == tail[i - 2] && w[i] == tail[i - 1];
        }
      }
    }
  }

  /** When every step is allowed, any two cells of a grid reach each other. */
  lemma OpenGridReachable(g: Grid<DungeonPathfinder2D.Node>, cf: DungeonPathfinder2D.CostFunction, a: Vec2, b: Vec2)
    requires g.Valid() && g.offset == Zero && g.InBounds(a) && g.InBounds(b)
    requires forall p, q :: cf(p, q).traversable
    ensures DungeonPathfinder2D.Reachable(g, cf, a, b)
  {
    LaneWalk(g, cf, a, b);
    var w := Lane(a, b);
    assert DungeonPathfinder2D.IsWalk(g, cf, w) && w[0] == a && w[|w| - 1] == b;
  }

  /** Committing the corridor found for the next edge keeps the grid grown from `grid`. */
  lemma CommitGrown(grid: Grid<CellType>, r: Grid<CellType>, ws: seq<seq<Vec2>>, edges: seq<Prim.Edge<Room>>, w: seq<Vec2>)
    requires grid.Valid() && r.Valid() && r.size == grid.size && r.offset == grid.offset && |ws| < |edges|
    requires Grown(grid, r) && Found(grid, ws, edges)
    requires Corridor(r, w, Center(edges[|ws|].u), Center(edges[|ws|].v))
    ensures var next := CommitPath(r, w);
      Grown(grid, next) && Found(grid, ws + [w], edges)
  {
    var a, b := Center(edges[|ws|].u), Center(edges[|ws|].v);
    CommitJoins(r, w, a, b);
    GrownTrans(grid, r, CommitPath(r, w));
    CorridorShape(grid, r, w, a, b);
    var ws' := ws + [w];
    assert forall j | 0 <= j < |ws| :: ws'[j] == ws[j];
  }

  /** Committing the corridor found for the next edge paves it and keeps the earlier corridors paved. */
  lemma CommitPaved(r: Grid<CellType>, ws: seq<seq<Vec2>>, w: seq<Vec2>, a: Vec2, b: Vec2)
    requires r.Valid() && Paved(r, ws) && Corridor(r, w, a, b)
    ensures Paved(CommitPath(r, w), ws + [w])
  {
    var next := CommitPath(r, w);
    CommitJoins(r, w, a, b);
    var ws' := ws + [w];
    forall j, i | 0 <= j < |ws'| && 0 <= i < |ws'[j]|
      ensures next.InBounds(ws'[j][i]) && next.Get(ws'[j][i]) != CellType.None
    {
      if j < |ws| {
        assert ws'[j] == ws[j] && r.InBounds(ws[j][i]);
      }
    }
  }

  /** Committing the corridor found for the next edge changes only cells on it, so every change stays on a found corridor. */
  lemma CommitDugAlong(grid: Grid<CellType>, r: Grid<CellType>, ws: seq<seq<Vec2>>, w: seq<Vec2>, a: Vec2, b: Vec2)
    requires grid.Valid() && r.Valid() && r.size == grid.size && r.offset == grid.offset
    requires DugAlong(grid, r, ws) && Corridor(r, w, a, b)
    ensures var next := CommitPath(r, w);
      next.Valid() && next.size == grid.size && next.offset == grid.offset && DugAlong(grid, next, ws + [w])
  {
    var next := CommitPath(r, w);
    CommitJoins(r, w, a, b);
    var ws' := ws + [w];
    forall p | grid.InBounds(p) && next.Get(p) != grid.Get(p) ensures OnSome(p, ws') {
      assert r.InBounds(p);
      if r.Get(p) != grid.Get(p) {
        var j :| 0 <= j < |ws| && p in ws[j];
        assert ws'[j] == ws[j];
      } else {
        assert p in ws'[|ws|];
      }
    }
  }

  /** An edge with no path leaves the grid alone and records an empty corridor. */
  lemma SkipKeeps(grid: Grid<CellType>, r: Grid<CellType>, ws: seq<seq<Vec2>>, edges: seq<Prim.Edge<Room>>)
    requires grid.Valid() && r.Valid() && r.size == grid.size && r.offset == grid.offset && |ws| < |edges|
    requires Found(grid, ws, edges) && Paved(r, ws) && DugAlong(grid, r, ws)
    ensures Found(grid, ws + [[]], edges) && Paved(r, ws + [[]]) && DugAlong(grid, r, ws + [[]])
  {
    var ws' := ws + [[]];
    assert forall j | 0 <= j < |ws| :: ws'[j] == ws[j];
    forall p | grid.InBounds(p) && r.Get(p) != grid.Get(p) ensures OnSome(p, ws') {
      var j :| 0 <= j < |ws| && p in ws[j];
      assert ws'[j] == ws[j];
    }
  }

  /**
   One search of lines 250-273: from the centre `start` towards `end`,
   costed against the current cell grid `r`. A path found is a corridor of
   `r`; with the corrected lookup a path is always found, since every step
   is traversable.
   */
  method SearchCorridor(pf: DungeonPathfinder2D.Pathfinder, r: Grid<CellType>, start: Vec2, end: Vec2,
                        dist: (Vec2, Vec2) -> real, lookup: DungeonPathfinder2D.Lookup)
    returns (pf': DungeonPathfinder2D.Pathfinder, path: Wrappers.Option<seq<Vec2>>)
    requires DungeonPathfinder2D.WellFormed(pf.grid) && r.Valid() && pf.grid.size == r.size && r.offset == Zero
    requires r.InBounds(start) && r.InBounds(end)
    ensures DungeonPathfinder2D.WellFormed(pf'.grid) && pf'.grid.size == r.size
    ensures path.Some? ==> Corridor(r, path.value, start, end) && forall p | p in path.value :: r.InBounds(p)
    ensures lookup == DungeonPathfinder2D.Corrected ==> path.Some?
  {
    var cf := StepCost(r, end, dist);
    assert forall p :: pf.grid.InBounds(p) == r.InBounds(p);
    pf', path := DungeonPathfinder2D.FindPath(pf, start, end, cf, lookup);
    if lookup == DungeonPathfinder2D.Corrected {
      OpenGridReachable(pf.grid, cf, start, end);
    }
    if path.Some? {
      PathIsCorridor(r, pf.grid, cf, path.value, start, end);
    }
  }

  /** The loop invariant of `PathfindHallways` after the edges that have a corridor in `ws`. */
  ghost predicate Progress(grid: Grid<CellType>, r: Grid<CellType>, edges: seq<Prim.Edge<Room>>, ws: seq<seq<Vec2>>,
                           lookup: DungeonPathfinder2D.Lookup)
    requires grid.Valid()
  {
    && r.Valid() && r.size == grid.size && r.offset == grid.offset
    && Grown(grid, r) && Found(grid, ws, edges) && Paved(r, ws) && DugAlong(grid, r, ws)
    && (lookup == DungeonPathfinder2D.Corrected ==> forall j | 0 <= j < |ws| :: ws[j] != [])
  }

  /**
   One pass of the `foreach` of lines 233-299: search for edge `k`, the one
   after those with a corridor in `ws`, and commit what was found. `w` is the path the search
   returned, or empty when it returned null.
   */
  method HallwayFor(pf: DungeonPathfinder2D.Pathfinder, grid: Grid<CellType>, r: Grid<CellType>,
                    edges: seq<Prim.Edge<Room>>, k: nat, ghost ws: seq<seq<Vec2>>, dist: (Vec2, Vec2) -> real,
                    lookup: DungeonPathfinder2D.Lookup)
    returns (pf': DungeonPathfinder2D.Pathfinder, r': Grid<CellType>, ghost w: seq<Vec2>)
    requires grid.Valid() && grid.offset == Zero && k == |ws| < |edges|
    requires Placeable(edges[k].u, grid.size) && Placeable(edges[k].v, grid.size)
    requires DungeonPathfinder2D.WellFormed(pf.grid) && pf.grid.size == grid.size
    requires Progress(grid, r, edges, ws, lookup)
    ensures DungeonPathfinder2D.WellFormed(pf'.grid) && pf'.grid.size == grid.size
    ensures Progress(grid, r', edges, ws + [w], lookup)
  {
    var start, end := Center(edges[k].u), Center(edges[k].v);
    CenterInGrid(edges[k].u, r);
    CenterInGrid(edges[k].v, r);
    var path;
    pf', path := SearchCorridor(pf, r, start, end, dist, lookup);
    if path.Some? {
      w := path.value;
      CommitGrown(grid, r, ws, edges, w);
      CommitPaved(r, ws, w, start, end);
      CommitDugAlong(grid, r, ws, w, start, end);
      r' := CommitPath(r, path.value);
    } else {
      w := [];
      SkipKeeps(grid, r, ws, edges);
      r' := r;
    }
    CorrectedFound(ws, w, lookup, path.Some?);
  }

  /** Under the corrected probe a path is found for every edge so far. */
  lemma CorrectedFound(ws: seq<seq<Vec2>>, w: seq<Vec2>, lookup: DungeonPathfinder2D.Lookup, found: bool)
    requires lookup == DungeonPathfinder2D.Corrected ==> (forall j | 0 <= j < |ws| :: ws[j] != []) && found
    requires found ==> w != []
    ensures lookup == DungeonPathfinder2D.Corrected ==> forall j | 0 <= j < |ws + [w]| :: (ws + [w])[j] != []
  {
    if lookup == DungeonPathfinder2D.Corrected {
      assert forall j | 0 <= j < |ws| :: (ws + [w])[j] == ws[j];
    }
  }

  /**
   `PathfindHallways` (lines 228-300): for each selected edge, search from
   the centre of its first room to the centre of its second with the cost
   of lines 251-273 read against the grid as it stands, and commit the path
   found. `ws` holds the path found for each edge, empty where none was.
   Rendering the hallway cells is left out.
   */
  method PathfindHallways(grid: Grid<CellType>, edges: seq<Prim.Edge<Room>>, dist: (Vec2, Vec2) -> real,
                          lookup: DungeonPathfinder2D.Lookup)
    returns (r: Grid<CellType>, ghost ws: seq<seq<Vec2>>)
    requires grid.Valid() && grid.offset == Zero
    requires forall e | e in edges :: Placeable(e.u, grid.size) && Placeable(e.v, grid.size)
    ensures r.Valid() && r.size == grid.size && r.offset == grid.offset
    ensures |ws| == |edges|
    ensures forall j | 0 <= j < |ws| :: ws[j] == [] || Corridor(grid, ws[j], Center(edges[j].u), Center(edges[j].v))
    ensures forall p | grid.InBounds(p) ::
              r.Get(p) == (if grid.Get(p) == CellType.None && OnSome(p, ws) then CellType.Hallway else grid.Get(p))
    ensures forall j | 0 <= j < |ws| && ws[j] != [] :: Joined(r, Center(edges[j].u), Center(edges[j].v))
    ensures lookup == DungeonPathfinder2D.Corrected ==> forall j | 0 <= j < |ws| :: ws[j] != []
  {
    var pf := DungeonPathfinder2D.New(grid.size);
    r, ws := grid, [];
    for k := 0 to |edges|
      invariant DungeonPathfinder2D.WellFormed(pf.grid) && pf.grid.size == grid.size
      invariant |ws| == k && Progress(grid, r, edges, ws, lookup)
    {
      assert edges[k] in edges;
      ghost var w;
      pf, r, w := HallwayFor(pf, grid, r, edges, k, ws, dist, lookup);
      ws := ws + [w];
    }
    HallwaysExactly(grid, r, ws);
    forall j | 0 <= j < |ws| && ws[j] != [] ensures Joined(r, Center(edges[j].u), Center(edges[j].v)) {
      PavedJoins(grid, r, ws, edges, j);
    }
  }
}
