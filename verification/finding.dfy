/**
 `StaleProbe`: a concrete room on which `FindPath`, with line 109 of
 `DungeonPathfinder2D.cs` as written, misses a reachable end cell; both the
 as-written run and the corrected run are worked out stage by stage.
 */
module StaleProbe {
  import opened Wrappers
  import opened Geometry
  import opened Grid2D
  import opened PriorityQueue
  import opened DungeonPathfinder2D

  /**
   A 3 x 2 room placed at `o`, whose top-right cell is a wall:

       B C #
       S X E

   Every step costs 1 except S -> X, which costs 10. The cheapest route
   from S to E goes S, B, C, X, E (cost 4).
   */
  function Sx(o: Vec2): Vec2 { o }
  function Xx(o: Vec2): Vec2 { Vec2(o.x + 1, o.y) }
  function Ex(o: Vec2): Vec2 { Vec2(o.x + 2, o.y) }
  function Bx(o: Vec2): Vec2 { Vec2(o.x, o.y + 1) }
  function Cx(o: Vec2): Vec2 { Vec2(o.x + 1, o.y + 1) }

  function Cf(o: Vec2): CostFunction {
    (a: Vec2, b: Vec2) => PathCost(b in {Sx(o), Xx(o), Ex(o), Bx(o), Cx(o)}, if a == Sx(o) && b == Xx(o) then 10.0 else 1.0)
  }

  /** What a search state says about the room: its frontier, closed set and the five costs. */
  ghost predicate Snap(s: Search, o: Vec2, queue: seq<Entry<Vec2>>, closed: set<Vec2>,
                       cS: Cost, cX: Cost, cE: Cost, cB: Cost, cC: Cost) {
    && s.nodes.Valid()
    && s.nodes.InBounds(Sx(o)) && s.nodes.InBounds(Xx(o)) && s.nodes.InBounds(Ex(o))
    && s.nodes.InBounds(Bx(o)) && s.nodes.InBounds(Cx(o))
    && s.queue == queue && s.closed == closed
    && s.nodes.Get(Sx(o)).cost == cS && s.nodes.Get(Xx(o)).cost == cX && s.nodes.Get(Ex(o)).cost == cE
    && s.nodes.Get(Bx(o)).cost == cB && s.nodes.Get(Cx(o)).cost == cC
  }

  /** The state of the search in the room after `k` rounds of the main loop. */
  ghost predicate Stage(s: Search, o: Vec2, k: nat) {
    var S, X, E, B, C := Sx(o), Xx(o), Ex(o), Bx(o), Cx(o);
    var zero, inf := Finite(0.0), Infinity;
    match k
    case 0 => Snap(s, o, [Entry(S, 0.0)], {}, zero, inf, inf, inf, inf)
    case 1 => Snap(s, o, [Entry(X, 10.0), Entry(B, 1.0)], {S}, zero, Finite(10.0), inf, Finite(1.0), inf)
    case 2 => Snap(s, o, [Entry(X, 10.0), Entry(C, 2.0)], {S, B}, zero, Finite(10.0), inf, Finite(1.0), Finite(2.0))
    case 3 => Snap(s, o, [Entry(X, 10.0), Entry(X, 3.0)], {S, B, C}, zero, Finite(3.0), inf, Finite(1.0), Finite(2.0))
    case 4 => Snap(s, o, [Entry(X, 4.0)], {S, B, C, X}, zero, Finite(3.0), Finite(4.0), Finite(1.0), Finite(2.0))
    case 5 => Snap(s, o, [], {S, B, C, X}, zero, Finite(3.0), Finite(4.0), Finite(1.0), Finite(2.0))
    case _ => false
  }

  /** A neighbour that is out of bounds, closed, a wall, or not improved leaves the state alone. */
  lemma Unchanged(s: Search, cur: Vec2, k: nat, cf: CostFunction, lookup: Lookup)
    requires s.nodes.Valid() && s.nodes.InBounds(cur) && k < |Neighbors|
    requires var n := cur.Plus(Neighbors[k]);
      || !s.nodes.InBounds(n) || n in s.closed || !cf(cur, n).traversable
      || !Less(AddCost(s.nodes.Get(cur).cost, cf(cur, n).cost), s.nodes.Get(n).cost)
    ensures Relax(s, cur, Neighbors[k], cf, lookup) == s
  {
  }

  // Round 1: S is expanded; X is reached at 10, B at 1.

  lemma Round1a(d: Search, o: Vec2)
    requires Snap(d, o, [], {Sx(o)}, Finite(0.0), Infinity, Infinity, Infinity, Infinity)
    ensures Snap(Relax(d, Sx(o), Neighbors[0], Cf(o), AsWritten), o, [Entry(Xx(o), 10.0)], {Sx(o)},
                 Finite(0.0), Finite(10.0), Infinity, Infinity, Infinity)
  {
    assert Sx(o).Plus(Neighbors[0]) == Xx(o);
  }

  lemma Round1b(d: Search, o: Vec2)
    requires Snap(d, o, [Entry(Xx(o), 10.0)], {Sx(o)}, Finite(0.0), Finite(10.0), Infinity, Infinity, Infinity)
    ensures Snap(Relax(d, Sx(o), Neighbors[2], Cf(o), AsWritten), o, [Entry(Xx(o), 10.0), Entry(Bx(o), 1.0)], {Sx(o)},
                 Finite(0.0), Finite(10.0), Infinity, Finite(1.0), Infinity)
  {
    assert Sx(o).Plus(Neighbors[2]) == Bx(o);
  }

  lemma Round1(s: Search, o: Vec2)
    requires Stage(s, o, 0)
    ensures s.nodes.InBounds(Sx(o)) && Stage(Expand(Dequeue(s, 0), Sx(o), Cf(o), AsWritten, 0), o, 1)
  {
    var d := Dequeue(s, 0);
    assert Snap(d, o, [], {Sx(o)}, Finite(0.0), Infinity, Infinity, Infinity, Infinity);
    Round1a(d, o);
    var s1 := Relax(d, Sx(o), Neighbors[0], Cf(o), AsWritten);
    Unchanged(s1, Sx(o), 1, Cf(o), AsWritten);
    Round1b(s1, o);
    var s3 := Relax(s1, Sx(o), Neighbors[2], Cf(o), AsWritten);
    Unchanged(s3, Sx(o), 3, Cf(o), AsWritten);
    assert Expand(s3, Sx(o), Cf(o), AsWritten, 3) == Expand(s3, Sx(o), Cf(o), AsWritten, 4);
  }

  // Round 2: B is expanded; C is reached at 2.

  lemma Round2a(d: Search, o: Vec2)
    requires Snap(d, o, [Entry(Xx(o), 10.0)], {Sx(o), Bx(o)}, Finite(0.0), Finite(10.0), Infinity, Finite(1.0), Infinity)
    ensures Snap(Relax(d, Bx(o), Neighbors[0], Cf(o), AsWritten), o, [Entry(Xx(o), 10.0), Entry(Cx(o), 2.0)], {Sx(o), Bx(o)},
                 Finite(0.0), Finite(10.0), Infinity, Finite(1.0), Finite(2.0))
  {
    assert Bx(o).Plus(Neighbors[0]) == Cx(o);
  }

  lemma Round2(s: Search, o: Vec2)
    requires Stage(s, o, 1)
    ensures s.nodes.InBounds(Bx(o)) && Stage(Expand(Dequeue(s, 1), Bx(o), Cf(o), AsWritten, 0), o, 2)
  {
    var d := Dequeue(s, 1);
    assert Snap(d, o, [Entry(Xx(o), 10.0)], {Sx(o), Bx(o)}, Finite(0.0), Finite(10.0), Infinity, Finite(1.0), Infinity);
    Round2a(d, o);
    var s1 := Relax(d, Bx(o), Neighbors[0], Cf(o), AsWritten);
    Unchanged(s1, Bx(o), 1, Cf(o), AsWritten);
    Unchanged(s1, Bx(o), 2, Cf(o), AsWritten);
    assert Bx(o).Plus(Neighbors[3]) == Sx(o);
    Unchanged(s1, Bx(o), 3, Cf(o), AsWritten);
    assert Expand(s1, Bx(o), Cf(o), AsWritten, 1) == Expand(s1, Bx(o), Cf(o), AsWritten, 4);
  }

  // Round 3: C is expanded; X improves to 3, and since C is no longer queued X is queued again.

  lemma Round3a(d: Search, o: Vec2)
    requires Snap(d, o, [Entry(Xx(o), 10.0)], {Sx(o), Bx(o), Cx(o)}, Finite(0.0), Finite(10.0), Infinity, Finite(1.0), Finite(2.0))
    ensures Snap(Relax(d, Cx(o), Neighbors[3], Cf(o), AsWritten), o, [Entry(Xx(o), 10.0), Entry(Xx(o), 3.0)], {Sx(o), Bx(o), Cx(o)},
                 Finite(0.0), Finite(3.0), Infinity, Finite(1.0), Finite(2.0))
  {
    assert Cx(o).Plus(Neighbors[3]) == Xx(o);
    assert !Contains([Entry(Xx(o), 10.0)], Cx(o));
  }

  lemma Round3(s: Search, o: Vec2)
    requires Stage(s, o, 2)
    ensures s.nodes.InBounds(Cx(o)) && Stage(Expand(Dequeue(s, 1), Cx(o), Cf(o), AsWritten, 0), o, 3)
  {
    var d := Dequeue(s, 1);
    assert Snap(d, o, [Entry(Xx(o), 10.0)], {Sx(o), Bx(o), Cx(o)}, Finite(0.0), Finite(10.0), Infinity, Finite(1.0), Finite(2.0));
    Unchanged(d, Cx(o), 0, Cf(o), AsWritten);
    assert Cx(o).Plus(Neighbors[1]) == Bx(o);
    Unchanged(d, Cx(o), 1, Cf(o), AsWritten);
    Unchanged(d, Cx(o), 2, Cf(o), AsWritten);
    Round3a(d, o);
    assert Expand(d, Cx(o), Cf(o), AsWritten, 0) == Expand(d, Cx(o), Cf(o), AsWritten, 3);
  }

  // Round 4: X (at 3) is expanded; E improves to 4, but the probe finds X's stale entry
  // and re-prioritises it, so E is never queued.

  lemma Round4a(d: Search, o: Vec2)
    requires Snap(d, o, [Entry(Xx(o), 10.0)], {Sx(o), Bx(o), Cx(o), Xx(o)}, Finite(0.0), Finite(3.0), Infinity, Finite(1.0), Finite(2.0))
    ensures Snap(Relax(d, Xx(o), Neighbors[0], Cf(o), AsWritten), o, [Entry(Xx(o), 4.0)], {Sx(o), Bx(o), Cx(o), Xx(o)},
                 Finite(0.0), Finite(3.0), Finite(4.0), Finite(1.0), Finite(2.0))
  {
    assert Xx(o).Plus(Neighbors[0]) == Ex(o);
    UpdateSingle(Xx(o), 10.0, 4.0);
  }

  lemma UpdateSingle(x: Vec2, p: real, q: real)
    ensures TryGetPriority([Entry(x, p)], x).Some?
    ensures UpdatePriority([Entry(x, p)], x, q) == [Entry(x, q)]
  {
    assert Contains([Entry(x, p)], x) by { assert [Entry(x, p)][0].item == x; }
    var r := UpdatePriority([Entry(x, p)], x, q);
    assert r[0].item == x;
  }

  lemma Round4(s: Search, o: Vec2)
    requires Stage(s, o, 3)
    ensures s.nodes.InBounds(Xx(o)) && Stage(Expand(Dequeue(s, 1), Xx(o), Cf(o), AsWritten, 0), o, 4)
  {
    var d := Dequeue(s, 1);
    assert Snap(d, o, [Entry(Xx(o), 10.0)], {Sx(o), Bx(o), Cx(o), Xx(o)}, Finite(0.0), Finite(3.0), Infinity, Finite(1.0), Finite(2.0));
    Round4a(d, o);
    var s1 := Relax(d, Xx(o), Neighbors[0], Cf(o), AsWritten);
    assert Xx(o).Plus(Neighbors[1]) == Sx(o);
    Unchanged(s1, Xx(o), 1, Cf(o), AsWritten);
    assert Xx(o).Plus(Neighbors[2]) == Cx(o);
    Unchanged(s1, Xx(o), 2, Cf(o), AsWritten);
    Unchanged(s1, Xx(o), 3, Cf(o), AsWritten);
    assert Expand(s1, Xx(o), Cf(o), AsWritten, 1) == Expand(s1, Xx(o), Cf(o), AsWritten, 4);
  }

  // Round 5: the re-prioritised entry of X is taken again; nothing improves and the frontier is empty.

  lemma Round5(s: Search, o: Vec2)
    requires Stage(s, o, 4)
    ensures s.nodes.InBounds(Xx(o)) && Stage(Expand(Dequeue(s, 0), Xx(o), Cf(o), AsWritten, 0), o, 5)
  {
    var d := Dequeue(s, 0);
    assert Snap(d, o, [], {Sx(o), Bx(o), Cx(o), Xx(o)}, Finite(0.0), Finite(3.0), Finite(4.0), Finite(1.0), Finite(2.0));
    assert Xx(o).Plus(Neighbors[0]) == Ex(o);
    Unchanged(d, Xx(o), 0, Cf(o), AsWritten);
    assert Xx(o).Plus(Neighbors[1]) == Sx(o);
    Unchanged(d, Xx(o), 1, Cf(o), AsWritten);
    assert Xx(o).Plus(Neighbors[2]) == Cx(o);
    Unchanged(d, Xx(o), 2, Cf(o), AsWritten);
    Unchanged(d, Xx(o), 3, Cf(o), AsWritten);
    assert Expand(d, Xx(o), Cf(o), AsWritten, 0) == Expand(d, Xx(o), Cf(o), AsWritten, 4);
  }

  // ---------------------------------------------------------------------
  // Every run of the loop in this room

  /** The five cells lie inside the grid. */
  ghost predicate InRoom(g: Grid<Node>, o: Vec2) {
    g.InBounds(Sx(o)) && g.InBounds(Xx(o)) && g.InBounds(Ex(o)) && g.InBounds(Bx(o)) && g.InBounds(Cx(o))
  }

  lemma InitialStage(s: Search, grid: Grid<Node>, o: Vec2)
    requires Initial(s, grid, Sx(o)) && InRoom(grid, o)
    ensures Stage(s, o, 0)
  {
    assert forall p :: s.nodes.InBounds(p) == grid.InBounds(p);
  }

  lemma NextExpands(s: Search, i: nat, cf: CostFunction, lookup: Lookup)
    requires i < |s.queue| && s.nodes.Valid() && s.nodes.InBounds(s.queue[i].item)
    ensures Next(s, i, cf, lookup) == Expand(Dequeue(s, i), s.queue[i].item, cf, lookup, 0)
  {
  }

  /** In stages 0-4 the cheapest entry is unique, it is never E, and the round leads to the next stage. */
  lemma StageNext(s: Search, o: Vec2, k: nat, i: nat)
    requires Stage(s, o, k) && k < 5 && IsMin(s.queue, i)
    ensures s.queue[i].item != Ex(o)
    ensures Stage(Next(s, i, Cf(o), AsWritten), o, k + 1)
  {
    if k == 0 {
      Round1(s, o);
      NextExpands(s, i, Cf(o), AsWritten);
    } else if k == 1 {
      assert i == 1 by { assert s.queue[1].priority == 1.0; }
      Round2(s, o);
      NextExpands(s, i, Cf(o), AsWritten);
    } else if k == 2 {
      assert i == 1 by { assert s.queue[1].priority == 2.0; }
      Round3(s, o);
      NextExpands(s, i, Cf(o), AsWritten);
    } else if k == 3 {
      assert i == 1 by { assert s.queue[1].priority == 3.0; }
      Round4(s, o);
      NextExpands(s, i, Cf(o), AsWritten);
    } else {
      Round5(s, o);
      NextExpands(s, i, Cf(o), AsWritten);
    }
  }

  /** E is never on the frontier, so the loop never stops at it. */
  lemma StageNeverStops(s: Search, o: Vec2, k: nat)
    requires Stage(s, o, k)
    ensures !MayStop(s, Ex(o))
  {
  }

  /** Every run of the loop with the lookup as written passes through stages 0, 1, ... in order. */
  lemma {:induction false} RunStages(run: seq<Search>, grid: Grid<Node>, o: Vec2)
    requires IsRun(run, grid, Sx(o), Ex(o), Cf(o), AsWritten) && InRoom(grid, o)
    ensures |run| <= 6 && Stage(run[|run| - 1], o, |run| - 1)
  {
    if |run| == 1 {
      InitialStage(run[0], grid, o);
    } else {
      var prefix := run[..|run| - 1];
      RunPrefix(run, grid, o);
      RunStages(prefix, grid, o);
      assert prefix[|prefix| - 1] == run[|run| - 2];
      LastStage(run[|run| - 2], run[|run| - 1], o, |run| - 2);
    }
  }

  /** Dropping the last state of a run leaves a run. */
  lemma RunPrefix(run: seq<Search>, grid: Grid<Node>, o: Vec2)
    requires IsRun(run, grid, Sx(o), Ex(o), Cf(o), AsWritten) && |run| > 1
    ensures IsRun(run[..|run| - 1], grid, Sx(o), Ex(o), Cf(o), AsWritten)
  {
    var prefix := run[..|run| - 1];
    forall k | 0 <= k < |prefix| - 1
      ensures Follows(prefix[k], prefix[k + 1], Cf(o), AsWritten, Ex(o))
    {
      assert prefix[k] == run[k] && prefix[k + 1] == run[k + 1];
    }
  }

  /** One round of the loop moves from one stage to the next, and there is no round after stage 5. */
  lemma LastStage(s: Search, r: Search, o: Vec2, k: nat)
    requires Stage(s, o, k) && Follows(s, r, Cf(o), AsWritten, Ex(o))
    ensures k < 5 && Stage(r, o, k + 1)
  {
    var i :| IsMin(s.queue, i) && s.queue[i].item != Ex(o) && r == Next(s, i, Cf(o), AsWritten);
    StageQueued(s, o, k, i);
    StageNext(s, o, k, i);
  }

  /** Only the stages before the last have a frontier entry to dequeue. */
  lemma StageQueued(s: Search, o: Vec2, k: nat, i: nat)
    requires Stage(s, o, k) && IsMin(s.queue, i)
    ensures k < 5
  {
  }

  /** The as-written loop can only end with an empty frontier, after five rounds. */
  lemma AsWrittenRuns(grid: Grid<Node>, o: Vec2)
    requires InRoom(grid, o)
    ensures forall run: seq<Search> | IsRun(run, grid, Sx(o), Ex(o), Cf(o), AsWritten) ::
              !MayStop(run[|run| - 1], Ex(o)) && (run[|run| - 1].queue == [] <==> |run| == 6)
  {
    forall run: seq<Search> | IsRun(run, grid, Sx(o), Ex(o), Cf(o), AsWritten)
      ensures !MayStop(run[|run| - 1], Ex(o)) && (run[|run| - 1].queue == [] <==> |run| == 6)
    {
      RunStages(run, grid, o);
      StageNeverStops(run[|run| - 1], o, |run| - 1);
    }
  }

  /** E is reachable from S: S, X, E is a walk. */
  lemma EndReachable(grid: Grid<Node>, o: Vec2)
    requires InRoom(grid, o)
    ensures Reachable(grid, Cf(o), Sx(o), Ex(o))
  {
    var w := [Sx(o), Xx(o), Ex(o)];
    assert Xx(o).Minus(Sx(o)) == Neighbors[0] && Ex(o).Minus(Xx(o)) == Neighbors[0];
    assert Move(grid, Cf(o), w[0], w[1]) && Move(grid, Cf(o), w[1], w[2]);
    assert IsWalk(grid, Cf(o), w);
  }

  /** With line 109 as written, `FindPath` gives up in this room although E is reachable from S. */
  method AsWrittenMissesEnd(pf: Pathfinder, o: Vec2) returns (path: Option<seq<Vec2>>)
    requires WellFormed(pf.grid) && InRoom(pf.grid, o)
    ensures path.None? && Reachable(pf.grid, Cf(o), Sx(o), Ex(o))
  {
    var _, p := FindPath(pf, Sx(o), Ex(o), Cf(o), AsWritten);
    AsWrittenRuns(pf.grid, o);
    EndReachable(pf.grid, o);
    path := p;
  }

  /** With the neighbour probed instead, `FindPath` finds a path from S to E in the same room. */
  method CorrectedFindsEnd(pf: Pathfinder, o: Vec2) returns (path: Option<seq<Vec2>>)
    requires WellFormed(pf.grid) && InRoom(pf.grid, o)
    ensures path.Some? && IsPath(pf.grid, Cf(o), path.value, Sx(o), Ex(o))
  {
    EndReachable(pf.grid, o);
    var _, p := FindPath(pf, Sx(o), Ex(o), Cf(o), Corrected);
    path := p;
  }
}
