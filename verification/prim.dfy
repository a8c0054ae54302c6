/**
 `Prim`: the undirected edge with value equality, and the simple O(V*E)
 variant of Prim's algorithm. Vertices are compared by identity, which is
 equality of the type parameter `V`. An edge's weight is the Euclidean
 distance between its endpoints; the model keeps it as an abstract real
 computed once, when the edge is built.
 */
module Prim {
  import opened Wrappers

  datatype Edge<V> = Edge(u: V, v: V, distance: real)

  /** The constructor `Edge(u, v)`: the distance is a function of the two endpoints. */
  function NewEdge<V>(u: V, v: V, dist: (V, V) -> real): (e: Edge<V>)
    ensures e.u == u && e.v == v && e.distance == dist(u, v)
  {
    Edge(u, v, dist(u, v))
  }

  /** `operator ==`: both edges join the same unordered pair of vertices. */
  predicate Same<V(==)>(left: Edge<V>, right: Edge<V>) {
    (left.u == right.u && left.v == right.v) || (left.u == right.v && left.v == right.u)
  }

  /** No two edges of `es` are `==`: a `HashSet<Edge>` holds every one of them. */
  predicate Distinct<V(==)>(es: seq<Edge<V>>) {
    forall i, j | 0 <= i < j < |es| :: !Same(es[i], es[j])
  }

  /** `operator !=`. */
  predicate Differ<V(==)>(left: Edge<V>, right: Edge<V>) {
    !Same(left, right)
  }

  /** `Equals(object)`: `None` stands for `null` or an object that is not an `Edge`. */
  predicate EqualsObject<V(==)>(e: Edge<V>, obj: Option<Edge<V>>) {
    match obj
    case Some(other) => Same(e, other)
    case None => false
  }

  /** `Equals(Edge)`. */
  predicate EqualsEdge<V(==)>(e: Edge<V>, other: Edge<V>) {
    Same(e, other)
  }

  /** `GetHashCode`: the XOR of the endpoints' hash codes. */
  function HashCode<V>(e: Edge<V>, hash: V -> bv32): bv32 {
    hash(e.u) ^ hash(e.v)
  }

  /** Building an edge in either direction gives equal edges with equal hash codes. */
  lemma EdgeSymmetric<V>(u: V, v: V, dist: (V, V) -> real, hash: V -> bv32)
    ensures Same(NewEdge(u, v, dist), NewEdge(v, u, dist))
    ensures !Differ(NewEdge(u, v, dist), NewEdge(v, u, dist))
    ensures HashCode(NewEdge(u, v, dist), hash) == HashCode(NewEdge(v, u, dist), hash)
  {
  }

  /** `==` is an equivalence relation, `!=` is its negation, and both `Equals` agree with `==`. */
  lemma EqualityIsEquivalence<V>(a: Edge<V>, b: Edge<V>, c: Edge<V>)
    ensures Same(a, a)
    ensures Same(a, b) <==> Same(b, a)
    ensures Same(a, b) && Same(b, c) ==> Same(a, c)
    ensures Differ(a, b) <==> !Same(a, b)
    ensures EqualsObject(a, Some(b)) <==> Same(a, b)
    ensures !EqualsObject(a, None)
    ensures EqualsEdge(a, b) <==> Same(a, b)
  {
  }

  /** Equal edges have equal hash codes, so `Edge` is usable as a hash-set element. */
  lemma HashRespectsEquality<V>(a: Edge<V>, b: Edge<V>, hash: V -> bv32)
    requires Same(a, b)
    ensures HashCode(a, hash) == HashCode(b, hash)
  {
  }

  /** Every vertex touched by an edge of the list: the initial `openSet`. */
  function Vertices<V(==)>(edges: seq<Edge<V>>): set<V> {
    (set e | e in edges :: e.u) + (set e | e in edges :: e.v)
  }

  /** The number of endpoints of `e` outside `closed` (`closedVertices` in the scan). */
  function OpenEnds<V(==)>(e: Edge<V>, closed: set<V>): nat {
    (if e.u !in closed then 1 else 0) + (if e.v !in closed then 1 else 0)
  }

  /** The scan keeps only edges with exactly one endpoint outside the closed set. */
  predicate Crosses<V(==)>(e: Edge<V>, closed: set<V>) {
    OpenEnds(e, closed) == 1
  }

  /** A crossing edge has one endpoint inside and one outside, so it is never a self-loop. */
  lemma CrossesIff<V>(e: Edge<V>, closed: set<V>)
    ensures Crosses(e, closed) <==> ((e.u in closed) != (e.v in closed))
    ensures Crosses(e, closed) ==> e.u != e.v
  {
  }

  /**
   One scan of the edge list: the index of the first crossing edge of
   least distance. The recursion follows the `foreach`: after the prefix
   `edges[..n]` it holds what `chosenEdge` holds after `n` edges, and a
   later edge replaces it only when its distance is strictly smaller.
   */
  function Lightest<V(==)>(edges: seq<Edge<V>>, closed: set<V>): (r: Option<nat>)
    ensures r.Some? ==> r.value < |edges| && Crosses(edges[r.value], closed)
    ensures r.Some? ==> forall j | 0 <= j < |edges| && Crosses(edges[j], closed) ::
                          edges[r.value].distance <= edges[j].distance
    ensures r.Some? ==> forall j | 0 <= j < r.value && Crosses(edges[j], closed) ::
                          edges[r.value].distance < edges[j].distance
    ensures r.None? <==> forall j | 0 <= j < |edges| :: !Crosses(edges[j], closed)
    decreases |edges|
  {
    if |edges| == 0 then None
    else
      var n := |edges| - 1;
      var best := Lightest(edges[..n], closed);
      if Crosses(edges[n], closed) && (best.None? || edges[n].distance < edges[best.value].distance)
      then Some(n)
      else best
  }

  lemma SubsetCard<T>(a: set<T>, b: set<T>)
    requires a <= b
    ensures |a| <= |b|
  {
    assert b == a + (b - a);
  }

  /** Closing the endpoints of a crossing input edge shrinks the set of unclosed vertices. */
  lemma GrowShrinks<V>(edges: seq<Edge<V>>, closed: set<V>, e: Edge<V>)
    requires e in edges && Crosses(e, closed)
    ensures |Vertices(edges) - (closed + {e.u, e.v})| < |Vertices(edges) - closed|
  {
    var w := if e.u !in closed then e.u else e.v;
    var a := Vertices(edges) - closed;
    assert w in a;
    SubsetCard(Vertices(edges) - (closed + {e.u, e.v}), a - {w});
  }

  /**
   The `while (openSet.Count > 0)` loop: pick the lightest crossing edge,
   stop when there is none, otherwise record it and move both endpoints
   from the open set to the closed set.
   */
  function Grow<V(==)>(edges: seq<Edge<V>>, open: set<V>, closed: set<V>, results: seq<Edge<V>>): seq<Edge<V>>
    decreases |Vertices(edges) - closed|
  {
    if |open| == 0 then results
    else
      match Lightest(edges, closed)
      case None => results
      case Some(i) =>
        var e := edges[i];
        GrowShrinks(edges, closed, e);
        Grow(edges, open - {e.u, e.v}, closed + {e.u, e.v}, results + [e])
  }

  /** `MinimumSpanningTree(edges, start)`. */
  function MinimumSpanningTree<V(==)>(edges: seq<Edge<V>>, start: V): seq<Edge<V>> {
    Grow(edges, Vertices(edges), {start}, [])
  }

  /** The closed set once the edges `rs` have been chosen from `start`. */
  function Touched<V(==)>(start: V, rs: seq<Edge<V>>): set<V> {
    {start} + (set e | e in rs :: e.u) + (set e | e in rs :: e.v)
  }

  /** `e` is the edge one scan picks: crossing, of least distance, and first among equals. */
  ghost predicate FirstLightest<V>(edges: seq<Edge<V>>, closed: set<V>, e: Edge<V>) {
    exists i | 0 <= i < |edges| && edges[i] == e ::
      && Crosses(e, closed)
      && (forall j | 0 <= j < |edges| && Crosses(edges[j], closed) :: e.distance <= edges[j].distance)
      && (forall j | 0 <= j < i && Crosses(edges[j], closed) :: e.distance < edges[j].distance)
  }

  /** Every edge of `rs` is the pick of the scan against the vertices closed before it. */
  ghost predicate PrimChoices<V>(edges: seq<Edge<V>>, start: V, rs: seq<Edge<V>>) {
    forall k | 0 <= k < |rs| :: FirstLightest(edges, Touched(start, rs[..k]), rs[k])
  }

  /** No edge of the list crosses `closed`: the loop's stopping condition. */
  ghost predicate NoCrossing<V>(edges: seq<Edge<V>>, closed: set<V>) {
    forall j | 0 <= j < |edges| :: !Crosses(edges[j], closed)
  }

  lemma TouchedSnoc<V>(start: V, rs: seq<Edge<V>>, e: Edge<V>)
    ensures Touched(start, rs + [e]) == Touched(start, rs) + {e.u, e.v}
  {
    var l, r := Touched(start, rs + [e]), Touched(start, rs) + {e.u, e.v};
    forall x | x in l ensures x in r {
      if x != start && x != e.u && x != e.v {
        var f :| f in rs + [e] && (x == f.u || x == f.v);
        assert f in rs;
      }
    }
  }

  /** Closing the endpoints of a crossing edge adds exactly one vertex. */
  lemma CrossingAddsOne<V>(closed: set<V>, e: Edge<V>)
    requires Crosses(e, closed)
    ensures |closed + {e.u, e.v}| == |closed| + 1
  {
    var w := if e.u !in closed then e.u else e.v;
    assert closed + {e.u, e.v} == closed + {w};
  }

  /** Appending the scan's pick keeps every earlier pick and adds the new one. */
  lemma ChoicesSnoc<V>(edges: seq<Edge<V>>, start: V, results: seq<Edge<V>>, e: Edge<V>)
    requires PrimChoices(edges, start, results)
    requires FirstLightest(edges, Touched(start, results), e)
    ensures PrimChoices(edges, start, results + [e])
  {
    var results' := results + [e];
    forall k | 0 <= k < |results'|
      ensures FirstLightest(edges, Touched(start, results'[..k]), results'[k])
    {
      if k < |results| {
        assert results'[..k] == results[..k];
        assert results'[k] == results[k];
      } else {
        assert results'[..k] == results;
      }
    }
  }

  /** `Lightest` returns exactly the edge `FirstLightest` describes. */
  lemma LightestIsFirstLightest<V>(edges: seq<Edge<V>>, closed: set<V>, i: nat)
    requires Lightest(edges, closed) == Some(i)
    ensures FirstLightest(edges, closed, edges[i])
  {
  }

  /** When the open set is empty, every endpoint is closed and nothing crosses. */
  lemma GrowStopsWhenOpenEmpty<V>(edges: seq<Edge<V>>, open: set<V>, closed: set<V>)
    requires Vertices(edges) - closed <= open && |open| == 0
    ensures NoCrossing(edges, closed)
  {
    assert Vertices(edges) - closed == {};
    forall j | 0 <= j < |edges| ensures !Crosses(edges[j], closed) {
      assert edges[j] in edges;
      assert edges[j].u in Vertices(edges) && edges[j].v in Vertices(edges);
      assert edges[j].u !in Vertices(edges) - closed && edges[j].v !in Vertices(edges) - closed;
    }
  }

  /** The loop invariant of `MinimumSpanningTree`, carried through every round of `Grow`. */
  lemma {:induction false} GrowFacts<V>(edges: seq<Edge<V>>, start: V, open: set<V>, closed: set<V>, results: seq<Edge<V>>)
    requires closed == Touched(start, results)
    requires Vertices(edges) - closed <= open
    requires |closed| == |results| + 1
    requires PrimChoices(edges, start, results)
    ensures var r := Grow(edges, open, closed, results);
      && results <= r
      && PrimChoices(edges, start, r)
      && |Touched(start, r)| == |r| + 1
      && NoCrossing(edges, Touched(start, r))
    decreases |Vertices(edges) - closed|
  {
    if |open| == 0 {
      GrowStopsWhenOpenEmpty(edges, open, closed);
    } else if Lightest(edges, closed).Some? {
      var i := Lightest(edges, closed).value;
      var e := edges[i];
      GrowRound(edges, start, open, closed, results, i);
      GrowShrinks(edges, closed, e);
      GrowFacts(edges, start, open - {e.u, e.v}, closed + {e.u, e.v}, results + [e]);
      assert Grow(edges, open, closed, results) == Grow(edges, open - {e.u, e.v}, closed + {e.u, e.v}, results + [e]);
    }
  }

  /** One round of `Grow` re-establishes the facts `GrowFacts` carries. */
  lemma GrowRound<V>(edges: seq<Edge<V>>, start: V, open: set<V>, closed: set<V>, results: seq<Edge<V>>, i: nat)
    requires closed == Touched(start, results)
    requires Vertices(edges) - closed <= open
    requires |closed| == |results| + 1
    requires PrimChoices(edges, start, results)
    requires Lightest(edges, closed) == Some(i)
    ensures var e := edges[i];
      && closed + {e.u, e.v} == Touched(start, results + [e])
      && Vertices(edges) - (closed + {e.u, e.v}) <= open - {e.u, e.v}
      && |closed + {e.u, e.v}| == |results + [e]| + 1
      && PrimChoices(edges, start, results + [e])
  {
    var e := edges[i];
    TouchedSnoc(start, results, e);
    CrossingAddsOne(closed, e);
    LightestIsFirstLightest(edges, closed, i);
    ChoicesSnoc(edges, start, results, e);
  }

  /** Every chosen edge is an input edge picked by the scan against the vertices closed before it. */
  lemma MstChoices<V>(edges: seq<Edge<V>>, start: V)
    ensures PrimChoices(edges, start, MinimumSpanningTree(edges, start))
    ensures forall e | e in MinimumSpanningTree(edges, start) :: e in edges
  {
    GrowFacts(edges, start, Vertices(edges), {start}, []);
    var r := MinimumSpanningTree(edges, start);
    forall e | e in r ensures e in edges {
      var k :| 0 <= k < |r| && r[k] == e;
      assert FirstLightest(edges, Touched(start, r[..k]), r[k]);
    }
  }

  /**
   Each chosen edge adds exactly one vertex to the closed set, so the result
   has one edge fewer than the vertices it reaches and no edge closes a cycle.
   */
  lemma MstGrowsByOne<V>(edges: seq<Edge<V>>, start: V)
    ensures var r := MinimumSpanningTree(edges, start);
      && |Touched(start, r)| == |r| + 1
      && forall k | 0 <= k < |r| ::
           (r[k].u in Touched(start, r[..k])) != (r[k].v in Touched(start, r[..k]))
  {
    GrowFacts(edges, start, Vertices(edges), {start}, []);
    var r := MinimumSpanningTree(edges, start);
    forall k | 0 <= k < |r|
      ensures (r[k].u in Touched(start, r[..k])) != (r[k].v in Touched(start, r[..k]))
    {
      assert FirstLightest(edges, Touched(start, r[..k]), r[k]);
      CrossesIff(r[k], Touched(start, r[..k]));
    }
  }

  /** No two tree edges join the same pair of vertices: each one reaches a vertex no earlier edge touched. */
  lemma MstDistinct<V>(edges: seq<Edge<V>>, start: V)
    ensures Distinct(MinimumSpanningTree(edges, start))
  {
    var r := MinimumSpanningTree(edges, start);
    MstGrowsByOne(edges, start);
    forall i, j | 0 <= i < j < |r| ensures !Same(r[i], r[j]) {
      assert r[i] in r[..j];
      assert r[i].u in Touched(start, r[..j]) && r[i].v in Touched(start, r[..j]);
      assert (r[j].u in Touched(start, r[..j])) != (r[j].v in Touched(start, r[..j]));
    }
  }

  /** The loop ends only when no edge crosses the cut: the result spans the start's component. */
  lemma MstStopsAtCut<V>(edges: seq<Edge<V>>, start: V)
    ensures NoCrossing(edges, Touched(start, MinimumSpanningTree(edges, start)))
  {
    GrowFacts(edges, start, Vertices(edges), {start}, []);
  }

  /** A start vertex that no edge touches yields an empty tree. */
  lemma MstIsolatedStart<V>(edges: seq<Edge<V>>, start: V)
    requires start !in Vertices(edges)
    ensures MinimumSpanningTree(edges, start) == []
  {
  }

  /** `a` and `b` are the endpoints of some input edge. */
  ghost predicate Joined<V>(edges: seq<Edge<V>>, a: V, b: V) {
    exists j | 0 <= j < |edges| ::
      (edges[j].u == a && edges[j].v == b) || (edges[j].u == b && edges[j].v == a)
  }

  ghost predicate IsWalk<V>(edges: seq<Edge<V>>, w: seq<V>) {
    |w| > 0 && forall i | 0 <= i < |w| - 1 :: Joined(edges, w[i], w[i + 1])
  }

  /** Every vertex of the edge list can be reached from `start` along input edges. */
  ghost predicate Connected<V(!new)>(edges: seq<Edge<V>>, start: V) {
    forall x | x in Vertices(edges) ::
      exists w :: IsWalk(edges, w) && w[0] == start && w[|w| - 1] == x
  }

  /** A walk that starts inside a set no edge crosses never leaves it. */
  lemma {:induction false} WalkStaysInside<V>(edges: seq<Edge<V>>, closed: set<V>, w: seq<V>, n: nat)
    requires NoCrossing(edges, closed) && IsWalk(edges, w) && w[0] in closed
    requires n < |w|
    ensures w[n] in closed
  {
    if n > 0 {
      WalkStaysInside(edges, closed, w, n - 1);
      assert Joined(edges, w[n - 1], w[n]);
      var j :| 0 <= j < |edges| &&
        ((edges[j].u == w[n - 1] && edges[j].v == w[n]) || (edges[j].u == w[n] && edges[j].v == w[n - 1]));
      if w[n] !in closed {
        assert Crosses(edges[j], closed);
      }
    }
  }

  /**
   For a connected edge list that contains `start`, the tree reaches every
   vertex and has exactly one edge fewer than there are vertices.
   */
  lemma MstSpans<V(!new)>(edges: seq<Edge<V>>, start: V)
    requires start in Vertices(edges) && Connected(edges, start)
    ensures Touched(start, MinimumSpanningTree(edges, start)) == Vertices(edges)
    ensures |MinimumSpanningTree(edges, start)| == |Vertices(edges)| - 1
  {
    MstGrowsByOne(edges, start);
    MstTouchesVertices(edges, start);
    MstReachesVertices(edges, start);
  }

  lemma MstTouchesVertices<V>(edges: seq<Edge<V>>, start: V)
    requires start in Vertices(edges)
    ensures Touched(start, MinimumSpanningTree(edges, start)) <= Vertices(edges)
  {
    var r := MinimumSpanningTree(edges, start);
    MstChoices(edges, start);
    forall x | x in Touched(start, r) ensures x in Vertices(edges) {
      if x != start {
        var e :| e in r && (x == e.u || x == e.v);
        assert e in edges;
      }
    }
  }

  lemma MstReachesVertices<V(!new)>(edges: seq<Edge<V>>, start: V)
    requires Connected(edges, start)
    ensures Vertices(edges) <= Touched(start, MinimumSpanningTree(edges, start))
  {
    var t := Touched(start, MinimumSpanningTree(edges, start));
    MstStopsAtCut(edges, start);
    forall x | x in Vertices(edges) ensures x in t {
      var w :| IsWalk(edges, w) && w[0] == start && w[|w| - 1] == x;
      WalkStaysInside(edges, t, w, |w| - 1);
    }
  }

  /**
   The worked example: A=0, B=1, C=2 with AB=3, AC=4, BC=5. Starting from A
   the tree is {AB, AC}, of total weight 7, and BC is left out.
   */
  lemma TriangleExample()
    ensures var edges := [Edge(0, 1, 3.0), Edge(0, 2, 4.0), Edge(1, 2, 5.0)];
      MinimumSpanningTree(edges, 0) == [Edge(0, 1, 3.0), Edge(0, 2, 4.0)]
  {
    var edges := [Edge(0, 1, 3.0), Edge(0, 2, 4.0), Edge(1, 2, 5.0)];
    TriangleVertices();
    TriangleFirstPick();
    TriangleSecondPick();
    TriangleFirstRound();
    TriangleSecondRound();
  }

  lemma TriangleFirstRound()
    ensures var edges := [Edge(0, 1, 3.0), Edge(0, 2, 4.0), Edge(1, 2, 5.0)];
      Grow(edges, {0, 1, 2}, {0}, []) == Grow(edges, {2}, {0, 1}, [edges[0]])
  {
    var edges := [Edge(0, 1, 3.0), Edge(0, 2, 4.0), Edge(1, 2, 5.0)];
    TriangleFirstPick();
    assert {0, 1, 2} - {edges[0].u, edges[0].v} == {2};
    assert {0} + {edges[0].u, edges[0].v} == {0, 1};
  }

  lemma TriangleSecondRound()
    ensures var edges := [Edge(0, 1, 3.0), Edge(0, 2, 4.0), Edge(1, 2, 5.0)];
      Grow(edges, {2}, {0, 1}, [edges[0]]) == [edges[0], edges[1]]
  {
    var edges := [Edge(0, 1, 3.0), Edge(0, 2, 4.0), Edge(1, 2, 5.0)];
    TriangleSecondPick();
    assert {2} - {edges[1].u, edges[1].v} == {};
    assert {0, 1} + {edges[1].u, edges[1].v} == {0, 1, 2};
  }

  lemma TriangleVertices()
    ensures Vertices([Edge(0, 1, 3.0), Edge(0, 2, 4.0), Edge(1, 2, 5.0)]) == {0, 1, 2}
  {
    var edges := [Edge(0, 1, 3.0), Edge(0, 2, 4.0), Edge(1, 2, 5.0)];
    assert edges[0] in edges && edges[1] in edges;
  }

  lemma TriangleFirstPick()
    ensures Lightest([Edge(0, 1, 3.0), Edge(0, 2, 4.0), Edge(1, 2, 5.0)], {0}) == Some(0)
  {
    var edges := [Edge(0, 1, 3.0), Edge(0, 2, 4.0), Edge(1, 2, 5.0)];
    assert Crosses(edges[0], {0}) && Crosses(edges[1], {0}) && !Crosses(edges[2], {0});
  }

  lemma TriangleSecondPick()
    ensures Lightest([Edge(0, 1, 3.0), Edge(0, 2, 4.0), Edge(1, 2, 5.0)], {0, 1}) == Some(1)
  {
    var edges := [Edge(0, 1, 3.0), Edge(0, 2, 4.0), Edge(1, 2, 5.0)];
    assert !Crosses(edges[0], {0, 1}) && Crosses(edges[1], {0, 1}) && Crosses(edges[2], {0, 1});
  }
}
