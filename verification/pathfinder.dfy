/**
 `DungeonPathfinder2D`: a 4-neighbour, lowest-cumulative-cost search over a
 node grid that is built once and reused by every query. The frontier is
 ordered by cumulative cost alone; whatever estimate the caller wants is
 folded into the step cost it returns.

 The cost function receives two `Node` objects in the C# code; it is
 modelled as a pure function of the two positions. The mutable node objects
 become values in a `Grid<Node>`, a predecessor reference becomes the
 predecessor's position, and `float.PositiveInfinity` becomes `Infinity`.
 */
module DungeonPathfinder2D {
  import opened Wrappers
  import opened Geometry
  import opened Grid2D
  import opened PriorityQueue

  datatype Cost = Finite(value: real) | Infinity

  /** `node.Cost + pathCost.cost` on floats: infinity absorbs any finite step. */
  function AddCost(c: Cost, d: real): Cost {
    match c
    case Finite(v) => Finite(v + d)
    case Infinity => Infinity
  }

  /** `a < b` on floats, with `+Infinity` above every finite value and not below itself. */
  predicate Less(a: Cost, b: Cost) {
    match a
    case Infinity => false
    case Finite(x) => b.Infinity? || x < b.value
  }

  datatype Node = Node(position: Vec2, previous: Option<Vec2>, cost: Cost)

  datatype PathCost = PathCost(traversable: bool, cost: real)

  type CostFunction = (Vec2, Vec2) -> PathCost

  /** The four directions a node can move in, in the order they are tried. */
  const Neighbors: seq<Vec2> := [Vec2(1, 0), Vec2(-1, 0), Vec2(0, 1), Vec2(0, -1)]

  /** `b` is one of the four neighbours of `a`. */
  predicate Step(a: Vec2, b: Vec2) {
    b.Minus(a) in Neighbors
  }

  /**
   Which entry the frontier is probed for after a neighbour improves.
   `AsWritten` probes the node being expanded, as line 109 does;
   `Corrected` probes the neighbour whose cost just changed.
   */
  datatype Lookup = AsWritten | Corrected

  /** The node grid: every cell holds the node for its own position. */
  ghost predicate WellFormed(g: Grid<Node>) {
    g.Valid() && g.offset == Zero && forall p | g.InBounds(p) :: g.Get(p).position == p
  }

  /** The search object's persistent state: its node grid. */
  datatype Pathfinder = Pathfinder(grid: Grid<Node>)

  /** One query's working state: the node grid, the frontier and the closed set. */
  datatype Search = Search(nodes: Grid<Node>, queue: seq<Entry<Vec2>>, closed: set<Vec2>)

  /** The neighbour `n` of `cur` was improved through `cur`: nothing else about `n` changed. */
  ghost predicate ImprovedVia(s: Search, r: Search, cur: Vec2, n: Vec2, cf: CostFunction)
    requires s.nodes.Valid() && r.nodes.Valid()
  {
    && s.nodes.InBounds(n) && s.nodes.InBounds(cur) && r.nodes.InBounds(n)
    && n !in s.closed
    && cf(cur, n).traversable
    && var newCost := AddCost(s.nodes.Get(cur).cost, cf(cur, n).cost);
       && Less(newCost, s.nodes.Get(n).cost)
       && r.nodes.Get(n) == s.nodes.Get(n).(previous := Some(cur), cost := newCost)
  }

  /**
   The frontier after a neighbour `n` is improved to cost `c`: when `probe` is
   queued, its earliest entry is re-prioritised to `c` and `n` is not added;
   otherwise `n` is appended at priority `c`.
   */
  predicate Requeued(q: seq<Entry<Vec2>>, r: seq<Entry<Vec2>>, probe: Vec2, n: Vec2, c: real) {
    if Contains(q, probe) then r == q[FirstIndex(q, probe) := Entry(probe, c)]
    else r == q + [Entry(n, c)]
  }

  /** The item `lookup` makes line 109 probe: the current node as written, the neighbour when corrected. */
  function Probe(lookup: Lookup, cur: Vec2, n: Vec2): Vec2 {
    if lookup == AsWritten then cur else n
  }

  /**
   The body of the `foreach (var offset in neighbors)` loop for one offset.
   Only the neighbour can change, and only when its cost strictly improves;
   then its predecessor becomes `cur`, and the frontier either has the
   probed item re-prioritised or gets the neighbour appended.
   */
  function Relax(s: Search, cur: Vec2, offset: Vec2, cf: CostFunction, lookup: Lookup): (r: Search)
    requires s.nodes.Valid() && s.nodes.InBounds(cur)
    ensures r.nodes.Valid() && r.nodes.size == s.nodes.size && r.nodes.offset == s.nodes.offset
    ensures r.closed == s.closed
    ensures forall p | s.nodes.InBounds(p) && p != cur.Plus(offset) :: r.nodes.Get(p) == s.nodes.Get(p)
    ensures r == s || ImprovedVia(s, r, cur, cur.Plus(offset), cf)
    ensures |s.queue| <= |r.queue| <= |s.queue| + 1
    ensures forall x | Contains(s.queue, x) :: Contains(r.queue, x)
    ensures forall x | Contains(r.queue, x) :: x == cur.Plus(offset) || Contains(s.queue, x)
    ensures lookup == Corrected && r != s ==> Contains(r.queue, cur.Plus(offset))
    ensures lookup == AsWritten && r != s && !Contains(s.queue, cur) ==> Contains(r.queue, cur.Plus(offset))
  {
    var n := cur.Plus(offset);
    if !s.nodes.InBounds(n) || n in s.closed then s
    else
      var pathCost := cf(cur, n);
      if !pathCost.traversable then s
      else
        var node := s.nodes.Get(cur);
        var neighbor := s.nodes.Get(n);
        var newCost := AddCost(node.cost, pathCost.cost);
        if Less(newCost, neighbor.cost) then
          var nodes := s.nodes.Set(n, neighbor.(previous := Some(cur), cost := newCost));
          var probe := if lookup == AsWritten then cur else n;
          var queue := if TryGetPriority(s.queue, probe).Some?
                       then UpdatePriority(s.queue, probe, newCost.value)
                       else Enqueue(s.queue, n, newCost.value);
          Search(nodes, queue, s.closed)
        else s
  }

  /**
   When `Relax` changes anything, the frontier entry carries the neighbour's
   new cost: the probed item's earliest entry is re-prioritised to it, or, when
   the probed item is not queued, the neighbour is appended with it.
   */
  lemma RelaxRequeued(s: Search, cur: Vec2, offset: Vec2, cf: CostFunction, lookup: Lookup)
    requires s.nodes.Valid() && s.nodes.InBounds(cur)
    ensures var r := Relax(s, cur, offset, cf, lookup);
      var n := cur.Plus(offset);
      r != s ==>
        && r.nodes.InBounds(n) && r.nodes.Get(n).cost.Finite?
        && Requeued(s.queue, r.queue, Probe(lookup, cur, n), n, r.nodes.Get(n).cost.value)
  {
  }

  /** The whole `foreach` over `neighbors`, from the `k`-th offset on. */
  function Expand(s: Search, cur: Vec2, cf: CostFunction, lookup: Lookup, k: nat): (r: Search)
    requires s.nodes.Valid() && s.nodes.InBounds(cur)
    requires k <= |Neighbors|
    ensures r.nodes.Valid() && r.nodes.size == s.nodes.size && r.nodes.offset == s.nodes.offset
    ensures r.closed == s.closed
    ensures |s.queue| <= |r.queue| <= |s.queue| + (|Neighbors| - k)
    decreases |Neighbors| - k
  {
    if k == |Neighbors| then s
    else Expand(Relax(s, cur, Neighbors[k], cf, lookup), cur, cf, lookup, k + 1)
  }

  /** A node as `new Node(position)` leaves it: no predecessor, cost `0f`. */
  function FreshNode(p: Vec2): Node {
    Node(p, None, Finite(0.0))
  }

  /** A node as `ResetNodes` leaves it: no predecessor, cost `+Infinity`. */
  function ResetNode(p: Vec2): Node {
    Node(p, None, Infinity)
  }

  /** The nested `x`-outer, `y`-inner loops have visited `p` before reaching `(x, y)`. */
  predicate Visited(p: Vec2, x: int, y: int) {
    p.x < x || (p.x == x && p.y < y)
  }

  /** Every cell visited so far holds `visited(p)`; every other cell still holds what `before` held. */
  ghost predicate FilledUpTo(g: Grid<Node>, before: Grid<Node>, visited: Vec2 -> Node, x: int, y: int)
    requires g.Valid() && before.Valid() && g.size == before.size && g.offset == before.offset
  {
    forall p | g.InBounds(p) :: g.Get(p) == if Visited(p, x, y) then visited(p) else before.Get(p)
  }

  /** One pass of the inner loop body: writing `visited((x, y))` at `(x, y)` moves the frontier one cell on. */
  lemma FillStep(g: Grid<Node>, before: Grid<Node>, visited: Vec2 -> Node, x: int, y: int)
    requires g.Valid() && before.Valid() && g.size == before.size && g.offset == before.offset
    requires g.InBounds(Vec2(x, y))
    requires FilledUpTo(g, before, visited, x, y)
    ensures FilledUpTo(g.SetXY(x, y, visited(Vec2(x, y))), before, visited, x, y + 1)
  {
    var next := g.SetXY(x, y, visited(Vec2(x, y)));
    forall p | next.InBounds(p)
      ensures next.Get(p) == if Visited(p, x, y + 1) then visited(p) else before.Get(p)
    {
      FillStepAt(g, before, visited, x, y, p);
    }
  }

  lemma FillStepAt(g: Grid<Node>, before: Grid<Node>, visited: Vec2 -> Node, x: int, y: int, p: Vec2)
    requires g.Valid() && before.Valid() && g.size == before.size && g.offset == before.offset
    requires g.InBounds(Vec2(x, y))
    requires FilledUpTo(g, before, visited, x, y)
    requires g.InBounds(p)
    ensures var next := g.SetXY(x, y, visited(Vec2(x, y)));
            next.Get(p) == if Visited(p, x, y + 1) then visited(p) else before.Get(p)
  {
    var next := g.SetXY(x, y, visited(Vec2(x, y)));
    assert next == g.Set(Vec2(x, y), visited(Vec2(x, y)));
    if p.x != x || p.y != y {
      assert p != Vec2(x, y);
      assert next.Get(p) == g.Get(p);
      assert Visited(p, x, y + 1) == Visited(p, x, y);
    } else {
      assert p == Vec2(x, y);
    }
  }

  /** A cell of the `[0, size)` rectangle is in bounds of a grid with offset zero. */
  lemma CellInBounds<T>(g: Grid<T>, x: int, y: int)
    requires g.Valid() && g.offset == Zero && 0 <= x < g.size.x && 0 <= y < g.size.y
    ensures g.InBounds(Vec2(x, y))
  {
    InBoundsIff(g, Vec2(x, y));
  }

  /** Finishing a column `x` is the same as starting column `x + 1`. */
  lemma FillColumnDone(g: Grid<Node>, before: Grid<Node>, visited: Vec2 -> Node, x: int)
    requires g.Valid() && before.Valid() && g.size == before.size && g.offset == before.offset
    requires g.offset == Zero
    requires FilledUpTo(g, before, visited, x, g.size.y)
    ensures FilledUpTo(g, before, visited, x + 1, 0)
  {
    forall p | g.InBounds(p)
      ensures Visited(p, x, g.size.y) == Visited(p, x + 1, 0)
    {
    }
  }

  /** After the last column every cell holds `visited(p)`. */
  lemma FillAllDone(g: Grid<Node>, before: Grid<Node>, visited: Vec2 -> Node)
    requires g.Valid() && before.Valid() && g.size == before.size && g.offset == before.offset
    requires g.offset == Zero
    requires FilledUpTo(g, before, visited, g.size.x, 0)
    ensures forall p | g.InBounds(p) :: g.Get(p) == visited(p)
  {
    forall p | g.InBounds(p)
      ensures Visited(p, g.size.x, 0)
    {
    }
  }

  /** The constructor: a node grid with offset zero, filled column by column. */
  method New(size: Vec2) returns (pf: Pathfinder)
    requires size.x >= 0 && size.y >= 0
    ensures WellFormed(pf.grid) && pf.grid.size == size
    ensures forall p | pf.grid.InBounds(p) :: pf.grid.Get(p).previous.None? && pf.grid.Get(p).cost == Finite(0.0)
  {
    // The slots start out as `null`; the loops overwrite every one of them.
    var blank := Create(size, Zero, FreshNode(Vec2(-1, -1)));
    var grid := blank;
    for x := 0 to size.x
      invariant grid.Valid() && grid.size == size && grid.offset == Zero
      invariant FilledUpTo(grid, blank, FreshNode, x, 0)
    {
      for y := 0 to size.y
        invariant grid.Valid() && grid.size == size && grid.offset == Zero
        invariant FilledUpTo(grid, blank, FreshNode, x, y)
      {
        CellInBounds(grid, x, y);
        FillStep(grid, blank, FreshNode, x, y);
        grid := grid.SetXY(x, y, FreshNode(Vec2(x, y)));
      }
      FillColumnDone(grid, blank, FreshNode, x);
    }
    FillAllDone(grid, blank, FreshNode);
    pf := Pathfinder(grid);
  }

  /** `ResetNodes`: every node loses its predecessor and gets cost `+Infinity`; positions stay. */
  method ResetNodes(grid: Grid<Node>) returns (r: Grid<Node>)
    requires WellFormed(grid)
    ensures WellFormed(r) && r.size == grid.size
    ensures forall p | r.InBounds(p) :: r.Get(p) == ResetNode(p)
  {
    var size := grid.size;
    r := grid;
    for x := 0 to size.x
      invariant r.Valid() && r.size == size && r.offset == Zero
      invariant FilledUpTo(r, grid, ResetNode, x, 0)
    {
      for y := 0 to size.y
        invariant r.Valid() && r.size == size && r.offset == Zero
        invariant FilledUpTo(r, grid, ResetNode, x, y)
      {
        var node := r.GetXY(x, y);
        assert node.position == Vec2(x, y) by {
          assert r.GetXY(x, y) == grid.Get(Vec2(x, y));
        }
        CellInBounds(r, x, y);
        FillStep(r, grid, ResetNode, x, y);
        r := r.SetXY(x, y, node.(previous := None, cost := Infinity));
      }
      FillColumnDone(r, grid, ResetNode, x);
    }
    FillAllDone(r, grid, ResetNode);
  }

  // ---------------------------------------------------------------------
  // Walks and paths over the node grid
  // ---------------------------------------------------------------------

  /** One move the search can make: between in-bounds neighbours, through a traversable step. */
  ghost predicate Move(g: Grid<Node>, cf: CostFunction, a: Vec2, b: Vec2) {
    g.InBounds(a) && g.InBounds(b) && Step(a, b) && cf(a, b).traversable
  }

  /** A non-empty sequence of moves starting in bounds. */
  ghost predicate IsWalk(g: Grid<Node>, cf: CostFunction, w: seq<Vec2>) {
    |w| > 0 && g.InBounds(w[0]) && forall i | 0 < i < |w| :: Move(g, cf, w[i - 1], w[i])
  }

  /** A walk from `start` to `end` that never revisits a cell. */
  ghost predicate IsPath(g: Grid<Node>, cf: CostFunction, w: seq<Vec2>, start: Vec2, end: Vec2) {
    && IsWalk(g, cf, w)
    && w[0] == start && w[|w| - 1] == end
    && forall i, j | 0 <= i < j < |w| :: w[i] != w[j]
  }

  ghost predicate Reachable(g: Grid<Node>, cf: CostFunction, start: Vec2, end: Vec2) {
    exists w :: IsWalk(g, cf, w) && w[0] == start && w[|w| - 1] == end
  }

  /** Moves only look at the grid's bounds, so grids of the same shape agree on them. */
  lemma SameShapeSameWalks(g: Grid<Node>, h: Grid<Node>, cf: CostFunction, w: seq<Vec2>)
    requires g.size == h.size && g.offset == h.offset
    ensures IsWalk(g, cf, w) == IsWalk(h, cf, w)
  {
    assert forall p :: g.InBounds(p) == h.InBounds(p);
  }

  /** A path from a cell to itself is that cell alone. */
  lemma PathToSelf(g: Grid<Node>, cf: CostFunction, w: seq<Vec2>, start: Vec2)
    requires IsPath(g, cf, w, start, start)
    ensures w == [start]
  {
  }

  // ---------------------------------------------------------------------
  // The search invariant
  // ---------------------------------------------------------------------

  /** A frontier entry: in bounds, with a finite cost, and either the start or already linked. */
  ghost predicate QueuedOk(nodes: Grid<Node>, start: Vec2, p: Vec2)
    requires nodes.Valid()
  {
    nodes.InBounds(p) && nodes.Get(p).cost.Finite? && (p == start || nodes.Get(p).previous.Some?)
  }

  /**
   The predecessor link of `p`: it points at a closed node one legal move
   away, closed strictly earlier than `p` if `p` is closed itself; a closed
   node without a predecessor is the start.
   */
  ghost predicate LinkOk(nodes: Grid<Node>, closed: set<Vec2>, rank: map<Vec2, nat>, start: Vec2,
                         cf: CostFunction, p: Vec2)
    requires nodes.Valid() && nodes.InBounds(p)
  {
    match nodes.Get(p).previous
    case Some(x) =>
      && x in closed && Move(nodes, cf, x, p)
      && (p in closed ==> x in rank && p in rank && rank[x] < rank[p])
    case None => p in closed ==> p == start
  }

  /** `rank` numbers the closed nodes in closing order; every link respects it. */
  ghost predicate Linked(nodes: Grid<Node>, closed: set<Vec2>, rank: map<Vec2, nat>, start: Vec2, cf: CostFunction) {
    && nodes.Valid()
    && (forall x | x in closed :: nodes.InBounds(x))
    && rank.Keys == closed
    && (forall p {:trigger LinkOk(nodes, closed, rank, start, cf, p)} | nodes.InBounds(p) :: LinkOk(nodes, closed, rank, start, cf, p))
  }

  /** Expanding `x` in direction `offset` would not improve the neighbour there. */
  ghost predicate SettledDir(nodes: Grid<Node>, closed: set<Vec2>, cf: CostFunction, x: Vec2, offset: Vec2)
    requires nodes.Valid() && nodes.InBounds(x)
  {
    var n := x.Plus(offset);
    nodes.InBounds(n) && n !in closed && cf(x, n).traversable ==>
      !Less(AddCost(nodes.Get(x).cost, cf(x, n).cost), nodes.Get(n).cost)
  }

  /** The first `k` directions of `x` are settled. */
  ghost predicate SettledUpTo(nodes: Grid<Node>, closed: set<Vec2>, cf: CostFunction, x: Vec2, k: nat)
    requires nodes.Valid() && nodes.InBounds(x) && k <= |Neighbors|
  {
    forall j | 0 <= j < k :: SettledDir(nodes, closed, cf, x, Neighbors[j])
  }

  /** What holds between any two statements of the main loop. */
  ghost predicate Core(s: Search, rank: map<Vec2, nat>, start: Vec2, cf: CostFunction, lookup: Lookup) {
    && WellFormed(s.nodes)
    && s.nodes.InBounds(start)
    && Linked(s.nodes, s.closed, rank, start, cf)
    && (forall x | x in s.closed :: rank[x] < |s.closed|)
    && (forall x | x in s.closed :: s.nodes.Get(x).cost.Finite?)
    && (forall p | Contains(s.queue, p) :: QueuedOk(s.nodes, start, p))
    && (lookup == Corrected ==>
          forall p | s.nodes.InBounds(p) && p !in s.closed && s.nodes.Get(p).cost.Finite? :: Contains(s.queue, p))
  }

  /** The loop invariant: every closed node has been fully expanded. */
  ghost predicate Inv(s: Search, rank: map<Vec2, nat>, start: Vec2, cf: CostFunction, lookup: Lookup) {
    && Core(s, rank, start, cf, lookup)
    && forall x | x in s.closed :: SettledUpTo(s.nodes, s.closed, cf, x, |Neighbors|)
  }

  /** Part-way through the `foreach` over the neighbours of `cur`. */
  ghost predicate Expanding(s: Search, rank: map<Vec2, nat>, start: Vec2, cf: CostFunction, lookup: Lookup,
                            cur: Vec2, k: nat)
    requires k <= |Neighbors|
  {
    && Core(s, rank, start, cf, lookup)
    && cur in s.closed
    && SettledUpTo(s.nodes, s.closed, cf, cur, k)
    && forall x | x in s.closed && x != cur :: SettledUpTo(s.nodes, s.closed, cf, x, |Neighbors|)
  }

  // ---------------------------------------------------------------------
  // One neighbour: `Relax` keeps the invariant
  // ---------------------------------------------------------------------

  lemma LessThenNotLess(a: Cost, b: Cost, c: Cost)
    requires Less(a, b) && !Less(c, b)
    ensures !Less(c, a)
  {
  }

  lemma RelaxKeepsLinked(s: Search, rank: map<Vec2, nat>, start: Vec2, cf: CostFunction, lookup: Lookup,
                         cur: Vec2, k: nat)
    requires Linked(s.nodes, s.closed, rank, start, cf) && cur in s.closed && k < |Neighbors|
    ensures Linked(Relax(s, cur, Neighbors[k], cf, lookup).nodes, s.closed, rank, start, cf)
  {
    var r := Relax(s, cur, Neighbors[k], cf, lookup);
    var n := cur.Plus(Neighbors[k]);
    assert forall p :: r.nodes.InBounds(p) == s.nodes.InBounds(p);
    forall p | r.nodes.InBounds(p)
      ensures LinkOk(r.nodes, s.closed, rank, start, cf, p)
    {
      assert LinkOk(s.nodes, s.closed, rank, start, cf, p);
      if p == n && r != s {
        assert n.Minus(cur) == Neighbors[k];
        assert Move(r.nodes, cf, cur, n);
      } else {
        assert r.nodes.Get(p) == s.nodes.Get(p);
      }
    }
  }

  lemma RelaxKeepsQueued(s: Search, start: Vec2, cf: CostFunction, lookup: Lookup, cur: Vec2, k: nat)
    requires s.nodes.Valid() && s.nodes.InBounds(cur) && k < |Neighbors|
    requires forall p | Contains(s.queue, p) :: QueuedOk(s.nodes, start, p)
    ensures var r := Relax(s, cur, Neighbors[k], cf, lookup);
            forall p | Contains(r.queue, p) :: QueuedOk(r.nodes, start, p)
  {
    var r := Relax(s, cur, Neighbors[k], cf, lookup);
    var n := cur.Plus(Neighbors[k]);
    assert forall p :: r.nodes.InBounds(p) == s.nodes.InBounds(p);
    forall p | Contains(r.queue, p)
      ensures QueuedOk(r.nodes, start, p)
    {
      if p == n && r != s {
      } else {
        assert Contains(s.queue, p);
        assert r.nodes.Get(p) == s.nodes.Get(p);
      }
    }
  }

  lemma RelaxKeepsCorrected(s: Search, cf: CostFunction, cur: Vec2, k: nat)
    requires s.nodes.Valid() && s.nodes.InBounds(cur) && k < |Neighbors|
    requires forall p | s.nodes.InBounds(p) && p !in s.closed && s.nodes.Get(p).cost.Finite? :: Contains(s.queue, p)
    ensures var r := Relax(s, cur, Neighbors[k], cf, Corrected);
            forall p | r.nodes.InBounds(p) && p !in r.closed && r.nodes.Get(p).cost.Finite? :: Contains(r.queue, p)
  {
    var r := Relax(s, cur, Neighbors[k], cf, Corrected);
    var n := cur.Plus(Neighbors[k]);
    assert forall p :: r.nodes.InBounds(p) == s.nodes.InBounds(p);
    forall p | r.nodes.InBounds(p) && p !in r.closed && r.nodes.Get(p).cost.Finite?
      ensures Contains(r.queue, p)
    {
      if p == n && r != s {
      } else {
        assert r.nodes.Get(p) == s.nodes.Get(p);
      }
    }
  }

  /** A settled direction of a closed node stays settled: the only node `Relax` touches gets cheaper. */
  lemma RelaxKeepsSettled(s: Search, cf: CostFunction, lookup: Lookup, cur: Vec2, k: nat, x: Vec2, offset: Vec2)
    requires s.nodes.Valid() && s.nodes.InBounds(cur) && k < |Neighbors|
    requires x in s.closed && s.nodes.InBounds(x)
    requires SettledDir(s.nodes, s.closed, cf, x, offset)
    ensures var r := Relax(s, cur, Neighbors[k], cf, lookup);
            r.nodes.InBounds(x) && SettledDir(r.nodes, r.closed, cf, x, offset)
  {
    var r := Relax(s, cur, Neighbors[k], cf, lookup);
    var n := cur.Plus(Neighbors[k]);
    var m := x.Plus(offset);
    assert forall p :: r.nodes.InBounds(p) == s.nodes.InBounds(p);
    if r != s && s.nodes.InBounds(m) && m !in s.closed && cf(x, m).traversable {
      assert ImprovedVia(s, r, cur, n, cf);
      assert x != n;
      var bound := AddCost(s.nodes.Get(x).cost, cf(x, m).cost);
      assert !Less(bound, s.nodes.Get(m).cost);
      if m == n {
        LessThenNotLess(r.nodes.Get(n).cost, s.nodes.Get(n).cost, bound);
      } else {
        assert r.nodes.Get(m) == s.nodes.Get(m);
      }
      assert r.nodes.Get(x) == s.nodes.Get(x);
    }
  }

  /** After `Relax` in direction `k`, that direction of `cur` is settled. */
  lemma RelaxSettlesDir(s: Search, cf: CostFunction, lookup: Lookup, cur: Vec2, k: nat)
    requires s.nodes.Valid() && s.nodes.InBounds(cur) && cur in s.closed && k < |Neighbors|
    ensures var r := Relax(s, cur, Neighbors[k], cf, lookup);
            r.nodes.InBounds(cur) && SettledDir(r.nodes, r.closed, cf, cur, Neighbors[k])
  {
    var r := Relax(s, cur, Neighbors[k], cf, lookup);
    var n := cur.Plus(Neighbors[k]);
    assert forall p :: r.nodes.InBounds(p) == s.nodes.InBounds(p);
    if s.nodes.InBounds(n) && n !in s.closed && cf(cur, n).traversable {
      assert n != cur;
      assert r.nodes.Get(cur) == s.nodes.Get(cur);
    }
  }

  /** `Relax` leaves every position in place and every closed node untouched. */
  lemma RelaxKeepsNodes(s: Search, cf: CostFunction, lookup: Lookup, cur: Vec2, k: nat)
    requires WellFormed(s.nodes) && s.nodes.InBounds(cur) && k < |Neighbors|
    ensures var r := Relax(s, cur, Neighbors[k], cf, lookup);
            && WellFormed(r.nodes)
            && forall x | x in s.closed && s.nodes.InBounds(x) :: r.nodes.Get(x) == s.nodes.Get(x)
  {
    var r := Relax(s, cur, Neighbors[k], cf, lookup);
    var n := cur.Plus(Neighbors[k]);
    assert forall p :: r.nodes.InBounds(p) == s.nodes.InBounds(p);
    forall p | r.nodes.InBounds(p)
      ensures r.nodes.Get(p).position == p
    {
      if p != n || r == s {
        assert r.nodes.Get(p) == s.nodes.Get(p);
      }
    }
  }

  lemma RelaxKeepsCore(s: Search, rank: map<Vec2, nat>, start: Vec2, cf: CostFunction, lookup: Lookup,
                       cur: Vec2, k: nat)
    requires Core(s, rank, start, cf, lookup) && cur in s.closed && k < |Neighbors|
    ensures Core(Relax(s, cur, Neighbors[k], cf, lookup), rank, start, cf, lookup)
  {
    var r := Relax(s, cur, Neighbors[k], cf, lookup);
    RelaxKeepsNodes(s, cf, lookup, cur, k);
    RelaxKeepsLinked(s, rank, start, cf, lookup, cur, k);
    RelaxKeepsQueued(s, start, cf, lookup, cur, k);
    if lookup == Corrected {
      RelaxKeepsCorrected(s, cf, cur, k);
    }
    assert forall p :: r.nodes.InBounds(p) == s.nodes.InBounds(p);
  }

  lemma RelaxKeeps(s: Search, rank: map<Vec2, nat>, start: Vec2, cf: CostFunction, lookup: Lookup,
                   cur: Vec2, k: nat)
    requires k < |Neighbors| && Expanding(s, rank, start, cf, lookup, cur, k)
    ensures Expanding(Relax(s, cur, Neighbors[k], cf, lookup), rank, start, cf, lookup, cur, k + 1)
  {
    var r := Relax(s, cur, Neighbors[k], cf, lookup);
    RelaxKeepsCore(s, rank, start, cf, lookup, cur, k);
    forall j | 0 <= j < k
      ensures SettledDir(r.nodes, r.closed, cf, cur, Neighbors[j])
    {
      RelaxKeepsSettled(s, cf, lookup, cur, k, cur, Neighbors[j]);
    }
    RelaxSettlesDir(s, cf, lookup, cur, k);
    forall x, j | x in r.closed && x != cur && 0 <= j < |Neighbors|
      ensures SettledDir(r.nodes, r.closed, cf, x, Neighbors[j])
    {
      RelaxKeepsSettled(s, cf, lookup, cur, k, x, Neighbors[j]);
    }
  }

  /** The whole `foreach` keeps the invariant: afterwards `cur` is fully expanded. */
  lemma {:induction false} ExpandKeeps(s: Search, rank: map<Vec2, nat>, start: Vec2, cf: CostFunction,
                                       lookup: Lookup, cur: Vec2, k: nat)
    requires k <= |Neighbors| && Expanding(s, rank, start, cf, lookup, cur, k)
    ensures Inv(Expand(s, cur, cf, lookup, k), rank, start, cf, lookup)
    decreases |Neighbors| - k
  {
    if k < |Neighbors| {
      var r := Relax(s, cur, Neighbors[k], cf, lookup);
      RelaxKeeps(s, rank, start, cf, lookup, cur, k);
      ExpandKeeps(r, rank, start, cf, lookup, cur, k + 1);
      ExpandUnfold(s, cur, cf, lookup, k);
    } else {
      ExpandedIsInv(s, rank, start, cf, lookup, cur);
    }
  }

  /** The `foreach` from direction `k` is `Relax` in that direction followed by the rest. */
  lemma ExpandUnfold(s: Search, cur: Vec2, cf: CostFunction, lookup: Lookup, k: nat)
    requires s.nodes.Valid() && s.nodes.InBounds(cur) && k < |Neighbors|
    ensures Expand(s, cur, cf, lookup, k) == Expand(Relax(s, cur, Neighbors[k], cf, lookup), cur, cf, lookup, k + 1)
  {
  }

  lemma ExpandedIsInv(s: Search, rank: map<Vec2, nat>, start: Vec2, cf: CostFunction, lookup: Lookup, cur: Vec2)
    requires Expanding(s, rank, start, cf, lookup, cur, |Neighbors|)
    ensures Inv(s, rank, start, cf, lookup)
  {
  }

  /** A settled direction is a no-op for `Relax`. */
  lemma RelaxSettledNoop(s: Search, cf: CostFunction, lookup: Lookup, cur: Vec2, k: nat)
    requires s.nodes.Valid() && s.nodes.InBounds(cur) && k < |Neighbors|
    requires SettledDir(s.nodes, s.closed, cf, cur, Neighbors[k])
    ensures Relax(s, cur, Neighbors[k], cf, lookup) == s
  {
  }

  /** Expanding a node a second time changes nothing: it enqueues nothing and updates no node. */
  lemma {:induction false} ExpandSettledNoop(s: Search, cf: CostFunction, lookup: Lookup, cur: Vec2, k: nat)
    requires s.nodes.Valid() && s.nodes.InBounds(cur) && k <= |Neighbors|
    requires SettledUpTo(s.nodes, s.closed, cf, cur, |Neighbors|)
    ensures Expand(s, cur, cf, lookup, k) == s
    decreases |Neighbors| - k
  {
    if k < |Neighbors| {
      RelaxSettledNoop(s, cf, lookup, cur, k);
      ExpandSettledNoop(s, cf, lookup, cur, k + 1);
    }
  }

  // ---------------------------------------------------------------------
  // Dequeue, termination, completeness
  // ---------------------------------------------------------------------

  /** Lines 77-80: take entry `i` off the frontier and add its node to the closed set. */
  function Dequeue(s: Search, i: nat): Search
    requires i < |s.queue|
  {
    Search(s.nodes, RemoveAt(s.queue, i), s.closed + {s.queue[i].item})
  }

  lemma DequeueKeepsQueued(q: seq<Entry<Vec2>>, i: nat, nodes: Grid<Node>, start: Vec2)
    requires nodes.Valid() && i < |q|
    requires forall p | Contains(q, p) :: QueuedOk(nodes, start, p)
    ensures forall p | Contains(RemoveAt(q, i), p) :: QueuedOk(nodes, start, p)
  {
  }

  lemma DequeueKeepsCorrected(q: seq<Entry<Vec2>>, i: nat, nodes: Grid<Node>, closed: set<Vec2>)
    requires nodes.Valid() && i < |q|
    requires forall p | nodes.InBounds(p) && p !in closed && nodes.Get(p).cost.Finite? :: Contains(q, p)
    ensures forall p | nodes.InBounds(p) && p !in closed + {q[i].item} && nodes.Get(p).cost.Finite? ::
              Contains(RemoveAt(q, i), p)
  {
  }

  lemma DequeueKeepsSettled(nodes: Grid<Node>, closed: set<Vec2>, cf: CostFunction, cur: Vec2)
    requires nodes.Valid() && forall x | x in closed :: nodes.InBounds(x)
    requires forall x | x in closed :: SettledUpTo(nodes, closed, cf, x, |Neighbors|)
    ensures forall x | x in closed :: SettledUpTo(nodes, closed + {cur}, cf, x, |Neighbors|)
  {
    forall x, j | x in closed && 0 <= j < |Neighbors|
      ensures SettledDir(nodes, closed + {cur}, cf, x, Neighbors[j])
    {
      assert SettledDir(nodes, closed, cf, x, Neighbors[j]);
    }
  }

  lemma DequeueKeepsLinked(nodes: Grid<Node>, closed: set<Vec2>, rank: map<Vec2, nat>, start: Vec2,
                           cf: CostFunction, cur: Vec2)
    requires Linked(nodes, closed, rank, start, cf)
    requires forall x | x in closed :: rank[x] < |closed|
    requires cur !in closed && nodes.InBounds(cur) && (cur == start || nodes.Get(cur).previous.Some?)
    ensures Linked(nodes, closed + {cur}, rank[cur := |closed|], start, cf)
  {
    LinksAfterClose(nodes, closed, rank, start, cf, cur);
    KeysAfterClose(closed, rank, cur);
    assert forall x | x in closed + {cur} :: nodes.InBounds(x);
  }

  lemma KeysAfterClose(closed: set<Vec2>, rank: map<Vec2, nat>, cur: Vec2)
    requires rank.Keys == closed
    ensures rank[cur := |closed|].Keys == closed + {cur}
  {
  }

  lemma LinksAfterClose(nodes: Grid<Node>, closed: set<Vec2>, rank: map<Vec2, nat>, start: Vec2,
                        cf: CostFunction, cur: Vec2)
    requires nodes.Valid() && rank.Keys == closed
    requires forall p | nodes.InBounds(p) :: LinkOk(nodes, closed, rank, start, cf, p)
    requires forall x | x in closed :: rank[x] < |closed|
    requires cur !in closed && nodes.InBounds(cur) && (cur == start || nodes.Get(cur).previous.Some?)
    ensures forall p | nodes.InBounds(p) :: LinkOk(nodes, closed + {cur}, rank[cur := |closed|], start, cf, p)
  {
    forall p | nodes.InBounds(p)
      ensures LinkOk(nodes, closed + {cur}, rank[cur := |closed|], start, cf, p)
    {
      CloseKeepsLink(nodes, closed, rank, start, cf, cur, p);
    }
  }

  lemma DequeueKeepsRanks(closed: set<Vec2>, rank: map<Vec2, nat>, cur: Vec2)
    requires rank.Keys == closed && cur !in closed
    requires forall x | x in closed :: rank[x] < |closed|
    ensures forall x | x in closed + {cur} :: rank[cur := |closed|][x] < |closed + {cur}|
  {
    CardAddOne(closed, cur);
  }

  lemma CardAddOne<T>(a: set<T>, x: T)
    requires x !in a
    ensures |a + {x}| == |a| + 1
  {
  }

  lemma CloseKeepsLink(nodes: Grid<Node>, closed: set<Vec2>, rank: map<Vec2, nat>, start: Vec2,
                       cf: CostFunction, cur: Vec2, p: Vec2)
    requires nodes.Valid() && nodes.InBounds(p) && rank.Keys == closed
    requires LinkOk(nodes, closed, rank, start, cf, p)
    requires forall x | x in closed :: rank[x] < |closed|
    requires cur !in closed && nodes.InBounds(cur) && (cur == start || nodes.Get(cur).previous.Some?)
    ensures LinkOk(nodes, closed + {cur}, rank[cur := |closed|], start, cf, p)
  {
    var rank' := rank[cur := |closed|];
    match nodes.Get(p).previous
    case None =>
      if p == cur {
        assert cur == start;
      }
    case Some(x) =>
      assert x in closed && x != cur;
      assert rank'[x] == rank[x];
      if p == cur {
        assert rank'[p] == |closed|;
      } else if p in closed {
        assert rank'[p] == rank[p];
      }
  }

  /** Closing a node for the first time gives it the next rank and starts its expansion. */
  lemma DequeueFresh(s: Search, rank: map<Vec2, nat>, start: Vec2, cf: CostFunction, lookup: Lookup, i: nat)
    requires Inv(s, rank, start, cf, lookup) && i < |s.queue| && s.queue[i].item !in s.closed
    ensures var cur := s.queue[i].item;
            Expanding(Dequeue(s, i), rank[cur := |s.closed|], start, cf, lookup, cur, 0)
  {
    var cur := s.queue[i].item;
    var d := Dequeue(s, i);
    var rank' := rank[cur := |s.closed|];
    assert d.nodes == s.nodes && d.closed == s.closed + {cur} && d.queue == RemoveAt(s.queue, i);
    assert Contains(s.queue, cur);
    assert QueuedOk(s.nodes, start, cur);
    DequeueKeepsLinked(s.nodes, s.closed, rank, start, cf, cur);
    DequeueKeepsRanks(s.closed, rank, cur);
    DequeueKeepsQueued(s.queue, i, s.nodes, start);
    if lookup == Corrected {
      DequeueKeepsCorrected(s.queue, i, s.nodes, s.closed);
    }
    DequeueKeepsSettled(s.nodes, s.closed, cf, cur);
    assert Linked(d.nodes, d.closed, rank', start, cf);
    assert forall x | x in d.closed :: d.nodes.Get(x).cost.Finite?;
    assert Core(d, rank', start, cf, lookup);
    assert forall x | x in d.closed && x != cur :: SettledUpTo(d.nodes, d.closed, cf, x, |Neighbors|);
  }

  /** Dequeuing a node that is already closed only shortens the frontier. */
  lemma DequeueAgain(s: Search, rank: map<Vec2, nat>, start: Vec2, cf: CostFunction, lookup: Lookup, i: nat)
    requires Inv(s, rank, start, cf, lookup) && i < |s.queue| && s.queue[i].item in s.closed
    ensures Inv(Dequeue(s, i), rank, start, cf, lookup)
  {
    var x := s.queue[i].item;
    SetAddMember(s.closed, x);
    DequeueKeepsQueued(s.queue, i, s.nodes, start);
    if lookup == Corrected {
      DequeueKeepsCorrected(s.queue, i, s.nodes, s.closed);
    }
    NewQueue(s, RemoveAt(s.queue, i), rank, start, cf, lookup);
  }

  lemma SetAddMember<T>(a: set<T>, x: T)
    requires x in a
    ensures a + {x} == a
  {
  }

  /** The invariant only asks of the queue what it asks of each queued position. */
  lemma NewQueue(s: Search, q: seq<Entry<Vec2>>, rank: map<Vec2, nat>, start: Vec2, cf: CostFunction, lookup: Lookup)
    requires Inv(s, rank, start, cf, lookup)
    requires forall p | Contains(q, p) :: QueuedOk(s.nodes, start, p)
    requires lookup == Corrected ==>
               forall p | s.nodes.InBounds(p) && p !in s.closed && s.nodes.Get(p).cost.Finite? :: Contains(q, p)
    ensures Inv(s.(queue := q), rank, start, cf, lookup)
  {
  }

  /** All positions of a grid, as a finite set. */
  function Cells<T>(g: Grid<T>): (cells: set<Vec2>)
    requires g.Valid()
    ensures forall p | g.InBounds(p) :: p in cells
  {
    var cells := set x, y | 0 <= x < g.size.x && 0 <= y < g.size.y :: Vec2(x, y).Minus(g.offset);
    forall p | g.InBounds(p)
      ensures p in cells
    {
      InBoundsIff(g, p);
      var x, y := p.x + g.offset.x, p.y + g.offset.y;
      assert Vec2(x, y).Minus(g.offset) == p;
    }
    cells
  }

  lemma RemoveOne(a: set<Vec2>, b: set<Vec2>, c: Vec2)
    requires c in a && c !in b
    ensures |a - (b + {c})| == |a - b| - 1
  {
    assert a - b == (a - (b + {c})) + {c};
  }

  /** A four-neighbour step is one of the listed offsets. */
  lemma StepIndex(a: Vec2, b: Vec2) returns (j: nat)
    requires Step(a, b)
    ensures j < |Neighbors| && a.Plus(Neighbors[j]) == b
  {
    j :| 0 <= j < |Neighbors| && Neighbors[j] == b.Minus(a);
  }

  /** No move leads out of `closed`. */
  ghost predicate ClosedUnderMoves(g: Grid<Node>, cf: CostFunction, closed: set<Vec2>) {
    forall a, b | a in closed && Move(g, cf, a, b) :: b in closed
  }

  /** Every walk that starts in a set closed under moves stays in it. */
  lemma {:induction false} WalkStaysClosed(g: Grid<Node>, cf: CostFunction, closed: set<Vec2>, w: seq<Vec2>)
    requires ClosedUnderMoves(g, cf, closed)
    requires IsWalk(g, cf, w) && w[0] in closed
    ensures forall i | 0 <= i < |w| :: w[i] in closed
    decreases |w|
  {
    if |w| > 1 {
      var front := w[..|w| - 1];
      assert forall i | 0 <= i < |front| :: front[i] == w[i];
      assert IsWalk(g, cf, front);
      WalkStaysClosed(g, cf, closed, front);
      assert Move(g, cf, w[|w| - 2], w[|w| - 1]);
    }
  }

  /**
   With the corrected lookup, once the frontier is empty the closed set is
   closed under moves.
   */
  lemma ExhaustedIsClosed(s: Search, rank: map<Vec2, nat>, start: Vec2, cf: CostFunction)
    requires Inv(s, rank, start, cf, Corrected) && |s.queue| == 0
    ensures ClosedUnderMoves(s.nodes, cf, s.closed)
  {
    forall a, b | a in s.closed && Move(s.nodes, cf, a, b)
      ensures b in s.closed
    {
      ClosedStep(s, rank, start, cf, a, b);
    }
  }

  /** One move out of a closed node lands in a closed node once the frontier is empty. */
  lemma ClosedStep(s: Search, rank: map<Vec2, nat>, start: Vec2, cf: CostFunction, a: Vec2, b: Vec2)
    requires Inv(s, rank, start, cf, Corrected) && |s.queue| == 0
    requires a in s.closed && Move(s.nodes, cf, a, b)
    ensures b in s.closed
  {
    if b !in s.closed {
      var j := StepIndex(a, b);
      assert false;
    }
  }

  // ---------------------------------------------------------------------
  // Path reconstruction and the search
  // ---------------------------------------------------------------------

  /** The path follows the predecessor links: each position is the predecessor of the next. */
  ghost predicate FollowsLinks(nodes: Grid<Node>, path: seq<Vec2>)
    requires nodes.Valid()
  {
    forall i | 0 < i < |path| :: nodes.InBounds(path[i]) && nodes.Get(path[i]).previous == Some(path[i - 1])
  }

  /** `chain` runs from `last` back along predecessor links, through closed nodes of falling rank, to `start`. */
  ghost predicate BackChain(nodes: Grid<Node>, closed: set<Vec2>, rank: map<Vec2, nat>, start: Vec2,
                            last: Vec2, chain: seq<Vec2>)
    requires nodes.Valid() && (forall x | x in closed :: nodes.InBounds(x))
  {
    && |chain| > 0 && chain[0] == last && chain[|chain| - 1] == start
    && (forall i | 0 <= i < |chain| :: chain[i] in closed && chain[i] in rank)
    && (forall i | 0 < i < |chain| :: nodes.Get(chain[i - 1]).previous == Some(chain[i]))
    && (forall i, j | 0 <= i < j < |chain| :: rank[chain[j]] < rank[chain[i]])
  }

  /**
   `ReconstructPath`: follow the predecessor links from `last` back to a
   node without one, pushing each position on a stack, then pop them into
   the result so that it runs from the start to `last`. The ghost
   parameters carry the search's link invariant, which is what makes the
   first loop stop.
   */
  method ReconstructPath(nodes: Grid<Node>, last: Vec2, ghost closed: set<Vec2>, ghost rank: map<Vec2, nat>,
                         ghost start: Vec2, ghost cf: CostFunction)
    returns (path: seq<Vec2>)
    requires Linked(nodes, closed, rank, start, cf) && last in closed
    ensures IsPath(nodes, cf, path, start, last)
    ensures FollowsLinks(nodes, path)
  {
    var stack := PushLinks(nodes, last, closed, rank, start, cf);
    path := PopAll(stack);
    ReversedChain(nodes, closed, rank, start, cf, last, stack, path);
  }

  /** The first loop's invariant: `stack` has followed the links from `last` as far as `node`. */
  ghost predicate Pushed(nodes: Grid<Node>, closed: set<Vec2>, rank: map<Vec2, nat>, last: Vec2,
                         stack: seq<Vec2>, node: Option<Vec2>)
    requires nodes.Valid() && (forall x | x in closed :: nodes.InBounds(x))
  {
    && (node.Some? ==> node.value in closed && node.value in rank)
    && (|stack| == 0 ==> node == Some(last))
    && (forall i | 0 <= i < |stack| :: stack[i] in closed && stack[i] in rank)
    && (|stack| > 0 ==> stack[0] == last && nodes.Get(stack[|stack| - 1]).previous == node)
    && (forall i | 0 < i < |stack| :: nodes.Get(stack[i - 1]).previous == Some(stack[i]))
    && (forall i, j | 0 <= i < j < |stack| :: rank[stack[j]] < rank[stack[i]])
    && (node.Some? ==> forall i | 0 <= i < |stack| :: rank[node.value] < rank[stack[i]])
  }

  lemma PushStep(nodes: Grid<Node>, closed: set<Vec2>, rank: map<Vec2, nat>, start: Vec2, cf: CostFunction,
                 last: Vec2, stack: seq<Vec2>, here: Vec2)
    requires Linked(nodes, closed, rank, start, cf)
    requires Pushed(nodes, closed, rank, last, stack, Some(here))
    ensures var next := nodes.Get(here).previous;
            && Pushed(nodes, closed, rank, last, stack + [here], next)
            && (next.Some? ==> rank[next.value] < rank[here])
  {
    assert LinkOk(nodes, closed, rank, start, cf, here);
    var next := nodes.Get(here).previous;
    assert next.Some? ==> next.value in closed && rank[next.value] < rank[here];
    PushRanks(rank, stack, here, next);
    PushLinksOf(nodes, stack, here);
  }

  lemma PushRanks(rank: map<Vec2, nat>, stack: seq<Vec2>, here: Vec2, next: Option<Vec2>)
    requires here in rank && forall i | 0 <= i < |stack| :: stack[i] in rank
    requires forall i, j | 0 <= i < j < |stack| :: rank[stack[j]] < rank[stack[i]]
    requires forall i | 0 <= i < |stack| :: rank[here] < rank[stack[i]]
    requires next.Some? ==> next.value in rank && rank[next.value] < rank[here]
    ensures forall i | 0 <= i < |stack + [here]| :: (stack + [here])[i] in rank
    ensures forall i, j | 0 <= i < j < |stack + [here]| :: rank[(stack + [here])[j]] < rank[(stack + [here])[i]]
    ensures next.Some? ==> forall i | 0 <= i < |stack + [here]| :: rank[next.value] < rank[(stack + [here])[i]]
  {
  }

  lemma PushLinksOf(nodes: Grid<Node>, stack: seq<Vec2>, here: Vec2)
    requires nodes.Valid() && forall i | 0 <= i < |stack| :: nodes.InBounds(stack[i])
    requires forall i | 0 < i < |stack| :: nodes.Get(stack[i - 1]).previous == Some(stack[i])
    requires |stack| > 0 ==> nodes.Get(stack[|stack| - 1]).previous == Some(here)
    ensures forall i | 0 < i < |stack + [here]| :: nodes.Get((stack + [here])[i - 1]).previous == Some((stack + [here])[i])
  {
  }

  lemma PushDone(nodes: Grid<Node>, closed: set<Vec2>, rank: map<Vec2, nat>, start: Vec2, cf: CostFunction,
                 last: Vec2, stack: seq<Vec2>)
    requires Linked(nodes, closed, rank, start, cf)
    requires Pushed(nodes, closed, rank, last, stack, None)
    ensures BackChain(nodes, closed, rank, start, last, stack)
  {
    assert LinkOk(nodes, closed, rank, start, cf, stack[|stack| - 1]);
  }

  /** The first loop of `ReconstructPath`: push positions while following `Previous`. */
  method PushLinks(nodes: Grid<Node>, last: Vec2, ghost closed: set<Vec2>, ghost rank: map<Vec2, nat>,
                   ghost start: Vec2, ghost cf: CostFunction)
    returns (stack: seq<Vec2>)
    requires Linked(nodes, closed, rank, start, cf) && last in closed
    ensures BackChain(nodes, closed, rank, start, last, stack)
  {
    stack := [];
    var node: Option<Vec2> := Some(last);
    while node.Some?
      invariant Pushed(nodes, closed, rank, last, stack, node)
      decreases if node.Some? then rank[node.value] + 1 else 0
    {
      var here := node.value;
      PushStep(nodes, closed, rank, start, cf, last, stack, here);
      stack := stack + [here];
      node := nodes.Get(here).previous;
    }
    PushDone(nodes, closed, rank, start, cf, last, stack);
  }

  /** The second loop of `ReconstructPath`: pop the stack into a list, reversing it. */
  method PopAll(pushed: seq<Vec2>) returns (result: seq<Vec2>)
    ensures |result| == |pushed|
    ensures forall i | 0 <= i < |pushed| :: result[i] == pushed[|pushed| - 1 - i]
  {
    var stack := pushed;
    result := [];
    while |stack| > 0
      invariant |stack| + |result| == |pushed|
      invariant stack == pushed[..|stack|]
      invariant forall i | 0 <= i < |result| :: result[i] == pushed[|pushed| - 1 - i]
    {
      result := result + [stack[|stack| - 1]];
      stack := stack[..|stack| - 1];
    }
  }

  /** Reversing a back chain gives a path from the start that follows the links forward. */
  lemma ReversedChain(nodes: Grid<Node>, closed: set<Vec2>, rank: map<Vec2, nat>, start: Vec2, cf: CostFunction,
                      last: Vec2, pushed: seq<Vec2>, path: seq<Vec2>)
    requires Linked(nodes, closed, rank, start, cf)
    requires BackChain(nodes, closed, rank, start, last, pushed)
    requires |path| == |pushed| && forall i | 0 <= i < |pushed| :: path[i] == pushed[|pushed| - 1 - i]
    ensures IsPath(nodes, cf, path, start, last)
    ensures FollowsLinks(nodes, path)
  {
    ReversedLinks(nodes, closed, rank, start, cf, last, pushed, path);
    ReversedDistinct(nodes, closed, rank, start, last, pushed, path);
  }

  lemma ReversedLinks(nodes: Grid<Node>, closed: set<Vec2>, rank: map<Vec2, nat>, start: Vec2, cf: CostFunction,
                      last: Vec2, pushed: seq<Vec2>, path: seq<Vec2>)
    requires Linked(nodes, closed, rank, start, cf)
    requires BackChain(nodes, closed, rank, start, last, pushed)
    requires |path| == |pushed| && forall i | 0 <= i < |pushed| :: path[i] == pushed[|pushed| - 1 - i]
    ensures IsWalk(nodes, cf, path) && path[0] == start && path[|path| - 1] == last
    ensures FollowsLinks(nodes, path)
  {
    var n := |pushed|;
    forall i | 0 < i < n
      ensures nodes.InBounds(path[i]) && nodes.Get(path[i]).previous == Some(path[i - 1])
      ensures Move(nodes, cf, path[i - 1], path[i])
    {
      ReversedLink(nodes, closed, rank, start, cf, last, pushed, path, i);
    }
    assert pushed[n - 1] in closed;
  }

  /** One step of the reversed chain follows a predecessor link, and so is a move. */
  lemma ReversedLink(nodes: Grid<Node>, closed: set<Vec2>, rank: map<Vec2, nat>, start: Vec2, cf: CostFunction,
                     last: Vec2, pushed: seq<Vec2>, path: seq<Vec2>, i: nat)
    requires Linked(nodes, closed, rank, start, cf)
    requires BackChain(nodes, closed, rank, start, last, pushed)
    requires |path| == |pushed| && forall i | 0 <= i < |pushed| :: path[i] == pushed[|pushed| - 1 - i]
    requires 0 < i < |path|
    ensures nodes.InBounds(path[i]) && nodes.Get(path[i]).previous == Some(path[i - 1])
    ensures Move(nodes, cf, path[i - 1], path[i])
  {
    var n := |pushed|;
    var p, x := pushed[n - 1 - i], pushed[n - i];
    assert path[i] == p && path[i - 1] == x;
    assert p in closed;
    assert nodes.Get(pushed[n - i - 1]).previous == Some(pushed[n - i]);
    assert LinkOk(nodes, closed, rank, start, cf, p);
    LinkMove(nodes, closed, rank, start, cf, p, x);
  }

  /** A predecessor link that respects `LinkOk` is a move. */
  lemma LinkMove(nodes: Grid<Node>, closed: set<Vec2>, rank: map<Vec2, nat>, start: Vec2, cf: CostFunction,
                 p: Vec2, x: Vec2)
    requires nodes.Valid() && nodes.InBounds(p) && LinkOk(nodes, closed, rank, start, cf, p)
    requires nodes.Get(p).previous == Some(x)
    ensures Move(nodes, cf, x, p)
  {
  }

  lemma ReversedDistinct(nodes: Grid<Node>, closed: set<Vec2>, rank: map<Vec2, nat>, start: Vec2,
                         last: Vec2, pushed: seq<Vec2>, path: seq<Vec2>)
    requires nodes.Valid() && (forall x | x in closed :: nodes.InBounds(x))
    requires BackChain(nodes, closed, rank, start, last, pushed)
    requires |path| == |pushed| && forall i | 0 <= i < |pushed| :: path[i] == pushed[|pushed| - 1 - i]
    ensures forall i, j | 0 <= i < j < |path| :: path[i] != path[j]
  {
    var n := |pushed|;
    forall i, j | 0 <= i < j < n
      ensures path[i] != path[j]
    {
      assert rank[pushed[n - 1 - i]] < rank[pushed[n - 1 - j]];
    }
  }

  // ---------------------------------------------------------------------
  // The search
  // ---------------------------------------------------------------------

  /** The node grid right after lines 63-72: reset, with the start at cost `0`. */
  lemma StartKeepsWellFormed(reset: Grid<Node>, start: Vec2)
    requires WellFormed(reset) && reset.InBounds(start)
    ensures WellFormed(reset.Set(start, reset.Get(start).(cost := Finite(0.0))))
  {
    var nodes := reset.Set(start, reset.Get(start).(cost := Finite(0.0)));
    assert forall p :: nodes.InBounds(p) == reset.InBounds(p);
  }

  /** Lines 63-72 establish the invariant: only the start is queued, nothing is closed. */
  lemma InitInv(reset: Grid<Node>, start: Vec2, cf: CostFunction, lookup: Lookup)
    requires WellFormed(reset) && reset.InBounds(start)
    requires forall p | reset.InBounds(p) :: reset.Get(p) == ResetNode(p)
    ensures var nodes := reset.Set(start, reset.Get(start).(cost := Finite(0.0)));
            Inv(Search(nodes, Enqueue([], start, 0.0), {}), map[], start, cf, lookup)
  {
    var nodes := reset.Set(start, reset.Get(start).(cost := Finite(0.0)));
    var s := Search(nodes, Enqueue([], start, 0.0), {});
    StartKeepsWellFormed(reset, start);
    assert forall p | nodes.InBounds(p) :: nodes.Get(p).previous.None? by {
      assert forall p :: nodes.InBounds(p) == reset.InBounds(p);
    }
    assert forall p | nodes.InBounds(p) :: LinkOk(nodes, {}, map[], start, cf, p);
    assert forall p | Contains(s.queue, p) :: p == start;
    assert forall p | nodes.InBounds(p) && p != start :: nodes.Get(p).cost == Infinity by {
      assert forall p :: nodes.InBounds(p) == reset.InBounds(p);
    }
    assert Core(s, map[], start, cf, lookup);
  }

  /** One round of the main loop strictly lowers the number of queue entries plus four per unclosed cell. */
  lemma RoundShrinks(s: Search, cf: CostFunction, lookup: Lookup, i: nat, all: set<Vec2>)
    requires s.nodes.Valid() && i < |s.queue| && s.nodes.InBounds(s.queue[i].item)
    requires s.queue[i].item in s.closed ==> SettledUpTo(s.nodes, s.closed, cf, s.queue[i].item, |Neighbors|)
    requires forall p | s.nodes.InBounds(p) :: p in all
    ensures var r := Expand(Dequeue(s, i), s.queue[i].item, cf, lookup, 0);
            |r.queue| + |Neighbors| * |all - r.closed| < |s.queue| + |Neighbors| * |all - s.closed|
  {
    var cur := s.queue[i].item;
    var d := Dequeue(s, i);
    if cur in s.closed {
      SetAddMember(s.closed, cur);
      ExpandSettledNoop(d, cf, lookup, cur, 0);
    } else {
      RemoveOne(all, s.closed, cur);
    }
  }

  /** A round of the main loop that does not stop: take entry `i` off the frontier, close it and expand it. */
  function Next(s: Search, i: nat, cf: CostFunction, lookup: Lookup): Search {
    if i < |s.queue| && s.nodes.Valid() && s.nodes.InBounds(s.queue[i].item)
    then Expand(Dequeue(s, i), s.queue[i].item, cf, lookup, 0)
    else s
  }

  /** The state lines 63-72 leave behind: only `start` queued, at cost `0`; every other node at `+Infinity`. */
  ghost predicate Initial(s: Search, grid: Grid<Node>, start: Vec2) {
    && s.nodes.Valid() && s.nodes.size == grid.size && s.nodes.offset == grid.offset
    && s.queue == [Entry(start, 0.0)] && s.closed == {}
    && forall p | s.nodes.InBounds(p) :: s.nodes.Get(p).cost == (if p == start then Finite(0.0) else Infinity)
  }

  /** One turn of the main loop that goes on: a cheapest entry other than `end` is taken, and `r` follows. */
  ghost predicate Follows(s: Search, r: Search, cf: CostFunction, lookup: Lookup, end: Vec2) {
    exists i | IsMin(s.queue, i) :: s.queue[i].item != end && r == Next(s, i, cf, lookup)
  }

  /** A sequence of states the main loop can pass through, from the state lines 63-72 leave behind. */
  ghost predicate IsRun(run: seq<Search>, grid: Grid<Node>, start: Vec2, end: Vec2, cf: CostFunction, lookup: Lookup) {
    && |run| > 0
    && Initial(run[0], grid, start)
    && forall k | 0 <= k < |run| - 1 :: Follows(run[k], run[k + 1], cf, lookup, end)
  }

  /** Some cheapest entry of the frontier is `end`: the loop may stop here (lines 83-85). */
  ghost predicate MayStop(s: Search, end: Vec2) {
    exists i | IsMin(s.queue, i) :: s.queue[i].item == end
  }

  lemma RunSnoc(run: seq<Search>, grid: Grid<Node>, start: Vec2, end: Vec2, cf: CostFunction, lookup: Lookup,
                r: Search)
    requires IsRun(run, grid, start, end, cf, lookup)
    requires Follows(run[|run| - 1], r, cf, lookup, end)
    ensures IsRun(run + [r], grid, start, end, cf, lookup)
  {
    var run' := run + [r];
    forall k | 0 <= k < |run'| - 1
      ensures Follows(run'[k], run'[k + 1], cf, lookup, end)
    {
      if k < |run| - 1 {
        assert run'[k] == run[k] && run'[k + 1] == run[k + 1];
      }
    }
  }

  /** What holds at the head of the main loop of `FindPath`. */
  ghost predicate Running(s: Search, rank: map<Vec2, nat>, start: Vec2, end: Vec2, cf: CostFunction,
                          lookup: Lookup, size: Vec2, all: set<Vec2>) {
    && Inv(s, rank, start, cf, lookup)
    && s.nodes.size == size
    && (forall p | s.nodes.InBounds(p) :: p in all)
    && end !in s.closed
    && (s.closed == {} ==> s.queue == [Entry(start, 0.0)])
    && (s.closed != {} ==> start in s.closed)
  }

  /** The loop's termination measure: queue entries plus four per cell not yet closed. */
  ghost function Remaining(s: Search, all: set<Vec2>): nat {
    |s.queue| + |Neighbors| * |all - s.closed|
  }

  /** A turn that does not stop keeps the loop's invariant and shrinks what is left to do. */
  lemma Continue(s: Search, rank: map<Vec2, nat>, start: Vec2, end: Vec2, cf: CostFunction, lookup: Lookup,
                 size: Vec2, all: set<Vec2>, i: nat)
    returns (rank': map<Vec2, nat>)
    requires Running(s, rank, start, end, cf, lookup, size, all)
    requires IsMin(s.queue, i) && s.queue[i].item != end
    ensures Running(Next(s, i, cf, lookup), rank', start, end, cf, lookup, size, all)
    ensures Remaining(Next(s, i, cf, lookup), all) < Remaining(s, all)
  {
    var cur := s.queue[i].item;
    assert Contains(s.queue, cur) && s.nodes.InBounds(cur);
    RoundShrinks(s, cf, lookup, i, all);
    if cur !in s.closed {
      rank' := ContinueFresh(s, rank, start, end, cf, lookup, size, all, i);
    } else {
      rank' := rank;
      ContinueAgain(s, rank, start, end, cf, lookup, size, all, i);
    }
  }

  lemma ContinueFresh(s: Search, rank: map<Vec2, nat>, start: Vec2, end: Vec2, cf: CostFunction, lookup: Lookup,
                      size: Vec2, all: set<Vec2>, i: nat)
    returns (rank': map<Vec2, nat>)
    requires Running(s, rank, start, end, cf, lookup, size, all)
    requires IsMin(s.queue, i) && s.queue[i].item != end && s.queue[i].item !in s.closed
    ensures Running(Next(s, i, cf, lookup), rank', start, end, cf, lookup, size, all)
  {
    var cur := s.queue[i].item;
    assert Contains(s.queue, cur) && s.nodes.InBounds(cur);
    DequeueFresh(s, rank, start, cf, lookup, i);
    rank' := rank[cur := |s.closed|];
    ExpandKeeps(Dequeue(s, i), rank', start, cf, lookup, cur, 0);
  }

  lemma ContinueAgain(s: Search, rank: map<Vec2, nat>, start: Vec2, end: Vec2, cf: CostFunction, lookup: Lookup,
                      size: Vec2, all: set<Vec2>, i: nat)
    requires Running(s, rank, start, end, cf, lookup, size, all)
    requires IsMin(s.queue, i) && s.queue[i].item in s.closed
    ensures Running(Next(s, i, cf, lookup), rank, start, end, cf, lookup, size, all)
  {
    var cur := s.queue[i].item;
    assert Contains(s.queue, cur) && s.nodes.InBounds(cur);
    DequeueAgain(s, rank, start, cf, lookup, i);
    ExpandSettledNoop(Dequeue(s, i), cf, lookup, cur, 0);
  }

  /**
   One round of the main loop (lines 74-117): dequeue a cheapest entry and
   close it; if it is `end`, return the reconstructed path; otherwise relax
   its four neighbours. A round that does not finish lowers `Remaining`.
   */
  method Round(s: Search, ghost rank: map<Vec2, nat>, start: Vec2, end: Vec2, cf: CostFunction, lookup: Lookup,
               ghost size: Vec2, ghost all: set<Vec2>)
    returns (r: Search, ghost rank': map<Vec2, nat>, found: Option<seq<Vec2>>)
    requires Running(s, rank, start, end, cf, lookup, size, all) && |s.queue| > 0
    ensures WellFormed(r.nodes) && r.nodes.size == size
    ensures found.None? ==> Running(r, rank', start, end, cf, lookup, size, all) && Remaining(r, all) < Remaining(s, all)
    ensures found.Some? ==> IsPath(r.nodes, cf, found.value, start, end) && FollowsLinks(r.nodes, found.value)
    ensures found.Some? && start == end ==> found.value == [start]
    ensures found.None? ==> Follows(s, r, cf, lookup, end)
    ensures found.Some? ==> MayStop(s, end)
  {
    var i :| 0 <= i < |s.queue| && IsMin(s.queue, i) by {
      var m := MinExists(s.queue);
    }
    var cur := s.queue[i].item;
    if cur == end {
      assert Contains(s.queue, cur) && s.nodes.InBounds(cur);
      DequeueFresh(s, rank, start, cf, lookup, i);
      rank' := rank[cur := |s.closed|];
      r := Dequeue(s, i);
      var path := ReconstructPath(r.nodes, cur, r.closed, rank', start, cf);
      if start == end {
        PathToSelf(r.nodes, cf, path, start);
      }
      return r, rank', Some(path);
    }
    rank' := Continue(s, rank, start, end, cf, lookup, size, all, i);
    assert s.nodes.InBounds(cur);
    r := Expand(Dequeue(s, i), cur, cf, lookup, 0);
    assert r == Next(s, i, cf, lookup);
    found := None;
  }

  /** A path only looks at the grid's bounds. */
  lemma PathOnSameShape(g: Grid<Node>, h: Grid<Node>, cf: CostFunction, w: seq<Vec2>, start: Vec2, end: Vec2)
    requires g.size == h.size && g.offset == h.offset
    requires IsPath(g, cf, w, start, end)
    ensures IsPath(h, cf, w, start, end) && Reachable(h, cf, start, end)
  {
    SameShapeSameWalks(g, h, cf, w);
  }

  /** With the corrected lookup, a dry frontier means `end` cannot be reached from `start`. */
  lemma ExhaustedUnreachable(s: Search, rank: map<Vec2, nat>, start: Vec2, end: Vec2, cf: CostFunction,
                             size: Vec2, all: set<Vec2>, g: Grid<Node>)
    requires Running(s, rank, start, end, cf, Corrected, size, all) && |s.queue| == 0
    requires g.size == size && g.offset == Zero
    ensures !Reachable(g, cf, start, end)
  {
    ExhaustedIsClosed(s, rank, start, cf);
    forall w | IsWalk(g, cf, w) && w[0] == start
      ensures w[|w| - 1] != end
    {
      SameShapeSameWalks(g, s.nodes, cf, w);
      WalkStaysClosed(s.nodes, cf, s.closed, w);
    }
  }

  /** Lines 63-72: the node grid after the reset, and the starting state of the loop. */
  method StartSearch(grid: Grid<Node>, start: Vec2, end: Vec2, cf: CostFunction, lookup: Lookup)
    returns (s: Search, ghost all: set<Vec2>)
    requires WellFormed(grid) && grid.InBounds(start)
    ensures Running(s, map[], start, end, cf, lookup, grid.size, all) && |s.queue| > 0
    ensures Initial(s, grid, start)
  {
    var reset := ResetNodes(grid);
    var nodes := reset.Set(start, reset.Get(start).(cost := Finite(0.0)));
    s := Search(nodes, Enqueue([], start, 0.0), {});
    InitInv(reset, start, cf, lookup);
    all := Cells(nodes);
    assert forall p :: nodes.InBounds(p) == reset.InBounds(p);
  }

  /**
   `FindPath`: reset the nodes, then repeatedly close a cheapest frontier
   entry, stop with the reconstructed path when it is `end`, and otherwise
   relax its four neighbours; `None` stands for the `null` returned when
   the frontier runs dry. Which of several cheapest entries is dequeued is
   left open. The returned `Pathfinder` carries the grid as the search left
   it. The start must be in bounds: `grid[start]` is written unchecked.
   */
  method FindPath(pf: Pathfinder, start: Vec2, end: Vec2, cf: CostFunction, lookup: Lookup)
    returns (pf': Pathfinder, path: Option<seq<Vec2>>)
    requires WellFormed(pf.grid) && pf.grid.InBounds(start)
    ensures WellFormed(pf'.grid) && pf'.grid.size == pf.grid.size
    ensures path.Some? ==> IsPath(pf.grid, cf, path.value, start, end) && FollowsLinks(pf'.grid, path.value)
    ensures start == end ==> path == Some([start])
    ensures lookup == Corrected ==> (path.None? <==> !Reachable(pf.grid, cf, start, end))
    ensures path.None? ==> exists run: seq<Search> :: IsRun(run, pf.grid, start, end, cf, lookup) && run[|run| - 1].queue == []
    ensures path.Some? ==> exists run: seq<Search> :: IsRun(run, pf.grid, start, end, cf, lookup) && MayStop(run[|run| - 1], end)
  {
    var s, all := StartSearch(pf.grid, start, end, cf, lookup);
    ghost var rank: map<Vec2, nat> := map[];
    ghost var run := [s];
    while |s.queue| > 0
      invariant Running(s, rank, start, end, cf, lookup, pf.grid.size, all)
      invariant IsRun(run, pf.grid, start, end, cf, lookup) && run[|run| - 1] == s
      decreases Remaining(s, all)
    {
      var found;
      s, rank, found := Round(s, rank, start, end, cf, lookup, pf.grid.size, all);
      if found.Some? {
        PathOnSameShape(s.nodes, pf.grid, cf, found.value, start, end);
        return Pathfinder(s.nodes), found;
      }
      RunSnoc(run, pf.grid, start, end, cf, lookup, s);
      run := run + [s];
    }
    if lookup == Corrected {
      ExhaustedUnreachable(s, rank, start, end, cf, pf.grid.size, all, pf.grid);
    }
    return Pathfinder(s.nodes), None;
  }
}
