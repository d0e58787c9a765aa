/**
 * The graph the carver opens up, described by its ghost log: the cells in
 * the order they were visited and, for every wall opening between two
 * cells, the pair (traversal parent, child). A log in which every child is
 * a newly visited cell and every parent was visited earlier describes a
 * spanning tree of the visited cells: connected, one opening fewer than
 * cells, no opening repeated and no cycle.
 */
module SpanningTree {
  import opened Geometry

  /** A wall opening between two cells, as (previous cell, current cell). */
  type Edge = (Coord, Coord)

  /** The wall between `a` and `b` has been opened, in either direction. */
  predicate Joined(edges: seq<Edge>, a: Coord, b: Coord)
  {
    (a, b) in edges || (b, a) in edges
  }

  /** Two openings are the same wall. */
  predicate SameOpening(e: Edge, f: Edge)
  {
    e == f || (e.0 == f.1 && e.1 == f.0)
  }

  /**
   * Opening `i` leads from an already visited cell to the cell visited
   * `i + 1`-th; no cell is visited twice.
   */
  ghost predicate TreeLog(order: seq<Coord>, edges: seq<Edge>)
  {
    && |order| == |edges| + 1
    && Distinct(order)
    && forall i :: 0 <= i < |edges| ==> edges[i].1 == order[i + 1] && edges[i].0 in order[..i + 1]
  }

  /**
   * Log `b` carries on from log `a`: every entry of `a` is still there, in
   * the same place. Stated one entry at a time by `AgreeUpTo`;
   * `ContinuesIsPrefix` shows it is the prefix relation.
   */
  ghost predicate Continues<T>(a: seq<T>, b: seq<T>)
  {
    |a| <= |b| && AgreeUpTo(a, b, |a|)
  }

  /** The first `k` entries of `a` and `b` agree. */
  ghost predicate AgreeUpTo<T>(a: seq<T>, b: seq<T>, k: nat)
    requires k <= |a| && k <= |b|
  {
    k == 0 || (a[k - 1] == b[k - 1] && AgreeUpTo(a, b, k - 1))
  }

  lemma {:induction false} AgreeUpToMeaning<T>(a: seq<T>, b: seq<T>, k: nat)
    requires k <= |a| && k <= |b|
    ensures AgreeUpTo(a, b, k) <==> forall i :: 0 <= i < k ==> a[i] == b[i]
  {
    if k > 0 {
      AgreeUpToMeaning(a, b, k - 1);
    }
  }

  lemma ContinuesIsPrefix<T>(a: seq<T>, b: seq<T>)
    ensures Continues(a, b) <==> a <= b
  {
    if |a| <= |b| {
      AgreeUpToMeaning(a, b, |a|);
      if forall i :: 0 <= i < |a| ==> a[i] == b[i] {
        assert a == b[..|a|];
      }
    }
  }

  /**
   * A log that carries on from `a + [e]` still holds all of `a` as a prefix
   * and holds `e`. Not used inside the model; it lets a client of
   * `GenerateMaze` read its `Continues` ensures as "earlier openings stay
   * and the opening from `prev` is there".
   */
  lemma ContinuesKeeps<T>(a: seq<T>, e: T, b: seq<T>)
    requires Continues(a + [e], b)
    ensures a <= b && e in b
  {
    ContinuesIsPrefix(a + [e], b);
    assert b[|a|] == (a + [e])[|a|];
    assert a == b[..|a|] by {
      assert (a + [e])[..|a|] == a;
    }
  }

  /** A log carries on from itself. */
  lemma ContinuesSelf<T>(a: seq<T>)
    ensures Continues(a, a)
  {
    ContinuesIsPrefix(a, a);
  }

  /** What `s` carries on from survives when `t` carries on from `s` extended by one entry. */
  lemma ContinuesThroughAppend<T>(r: seq<T>, s: seq<T>, x: T, t: seq<T>)
    requires Continues(r, s) && Continues(s + [x], t)
    ensures Continues(r, t)
  {
    ContinuesIsPrefix(r, s);
    ContinuesIsPrefix(s + [x], t);
    PrefixThroughAppend(r, s, x, t);
    ContinuesIsPrefix(r, t);
  }

  /** The log of a traversal that has only visited its starting cell. */
  lemma TreeLogStart(c: Coord)
    ensures TreeLog([c], [])
  {
  }

  /** Visiting a new cell `c` from a visited cell `p` and opening the wall between them keeps the log a tree. */
  lemma TreeLogExtend(order: seq<Coord>, edges: seq<Edge>, p: Coord, c: Coord)
    requires TreeLog(order, edges)
    requires p in order && c !in order
    ensures TreeLog(order + [c], edges + [(p, c)])
  {
    var order', edges' := order + [c], edges + [(p, c)];
    forall i | 0 <= i < |edges'| ensures edges'[i].1 == order'[i + 1] && edges'[i].0 in order'[..i + 1] {
      if i < |edges| {
        assert order'[..i + 1] == order[..i + 1];
      } else {
        assert order'[..i + 1] == order;
      }
    }
  }

  /**
   * The log of a carving of a `width x depth` grid from `start`, built the
   * way the carver builds it: empty, or the visit of `start` alone, or a
   * carving log extended by one step that visits a new in-bounds
   * neighbour `c` of an already visited cell `p` and opens the wall
   * between them.
   */
  ghost predicate CarvingLog(width: int, depth: int, start: Coord, order: seq<Coord>, edges: seq<Edge>)
    decreases |order|
  {
    if |order| <= 1 then
      edges == [] && (order != [] ==> order[0] == start && InBounds(width, depth, start))
    else
      var n := |order| - 1;
      && |edges| == n
      && var p, c := edges[n - 1].0, edges[n - 1].1;
      && c == order[n] && p in order[..n] && c !in order[..n]
      && InBounds(width, depth, c) && Adjacent(p, c)
      && CarvingLog(width, depth, start, order[..n], edges[..n - 1])
  }

  /**
   * What a carving log looks like as a whole: all cells are in the grid,
   * every opening is between neighbours, and the log is a tree rooted at
   * `start` as soon as anything has been visited.
   */
  ghost predicate LogShape(width: int, depth: int, start: Coord, order: seq<Coord>, edges: seq<Edge>)
  {
    && (forall c {:trigger c in order} :: c in order ==> InBounds(width, depth, c))
    && (forall e :: e in edges ==> Adjacent(e.0, e.1))
    && (order == [] ==> edges == [])
    && (order != [] ==> order[0] == start && TreeLog(order, edges))
  }

  lemma CarvingLogStart(width: int, depth: int, start: Coord)
    requires InBounds(width, depth, start)
    ensures CarvingLog(width, depth, start, [start], [])
  {
  }

  /** Visiting a new in-bounds neighbour `c` of a visited cell `p` extends the carving log. */
  lemma CarvingLogExtend(width: int, depth: int, start: Coord, order: seq<Coord>, edges: seq<Edge>, p: Coord, c: Coord)
    requires CarvingLog(width, depth, start, order, edges)
    requires p in order && c !in order && InBounds(width, depth, c) && Adjacent(p, c)
    ensures CarvingLog(width, depth, start, order + [c], edges + [(p, c)])
  {
    CarvingLogShape(width, depth, start, order, edges);
    assert (order + [c])[..|order|] == order;
    assert (edges + [(p, c)])[..|edges|] == edges;
  }

  /** One carving step keeps the shape of the log. */
  lemma LogShapeExtend(width: int, depth: int, start: Coord, order: seq<Coord>, edges: seq<Edge>, p: Coord, c: Coord)
    requires LogShape(width, depth, start, order, edges)
    requires p in order && c !in order && InBounds(width, depth, c) && Adjacent(p, c)
    ensures LogShape(width, depth, start, order + [c], edges + [(p, c)])
  {
    TreeLogExtend(order, edges, p, c);
    assert (order + [c])[0] == order[0];
  }

  /** Every carving log has the shape of a tree rooted at `start` inside the grid. */
  lemma {:induction false} CarvingLogShape(width: int, depth: int, start: Coord, order: seq<Coord>, edges: seq<Edge>)
    requires CarvingLog(width, depth, start, order, edges)
    ensures LogShape(width, depth, start, order, edges)
    decreases |order|
  {
    if |order| == 1 {
      TreeLogStart(start);
      assert order == [start];
    } else if |order| > 1 {
      var n := |order| - 1;
      var p, c := edges[n - 1].0, edges[n - 1].1;
      CarvingLogShape(width, depth, start, order[..n], edges[..n - 1]);
      LogShapeExtend(width, depth, start, order[..n], edges[..n - 1], p, c);
      assert order[..n] + [c] == order;
      assert edges[..n - 1] + [(p, c)] == edges;
    }
  }

  /** A walk through open walls. */
  ghost predicate IsWalk(edges: seq<Edge>, p: seq<Coord>)
  {
    |p| > 0 && forall i :: 0 <= i < |p| - 1 ==> Joined(edges, p[i], p[i + 1])
  }

  ghost predicate Connected(edges: seq<Edge>, a: Coord, b: Coord)
  {
    exists p :: IsWalk(edges, p) && p[0] == a && p[|p| - 1] == b
  }

  /** A closed walk through at least three distinct cells, none repeated before it closes. */
  ghost predicate IsCycle(edges: seq<Edge>, p: seq<Coord>)
  {
    |p| >= 4 && IsWalk(edges, p) && p[0] == p[|p| - 1] && Distinct(p[..|p| - 1])
  }

  /** The position of `v` in the visiting order. */
  ghost function Rank(order: seq<Coord>, v: Coord): (i: nat)
    requires v in order
    ensures i < |order| && order[i] == v
  {
    var i :| 0 <= i < |order| && order[i] == v; i
  }

  /** Every visited cell is reached from the first one through open walls. */
  lemma {:induction false} TreeLogConnected(order: seq<Coord>, edges: seq<Edge>, k: nat)
    requires TreeLog(order, edges)
    requires k < |order|
    ensures Connected(edges, order[0], order[k])
    decreases k
  {
    if k == 0 {
      assert IsWalk(edges, [order[0]]);
    } else {
      var e := edges[k - 1];
      assert e in edges;
      var j :| 0 <= j < k && order[j] == e.0;
      TreeLogConnected(order, edges, j);
      var p :| IsWalk(edges, p) && p[0] == order[0] && p[|p| - 1] == order[j];
      var q := p + [order[k]];
      assert Joined(edges, order[j], order[k]);
      assert IsWalk(edges, q);
    }
  }

  /** No wall is opened twice: the openings are pairwise different walls. */
  lemma EdgesDistinct(order: seq<Coord>, edges: seq<Edge>)
    requires TreeLog(order, edges)
    ensures forall i, j :: 0 <= i < j < |edges| ==> !SameOpening(edges[i], edges[j])
  {
    forall i, j | 0 <= i < j < |edges| ensures !SameOpening(edges[i], edges[j]) {
      var m :| 0 <= m <= i && order[m] == edges[i].0;
      assert order[j + 1] == edges[j].1;
      assert order[i + 1] == edges[i].1;
    }
  }

  /** Both ends of an opening are visited cells. */
  lemma JoinedVisited(order: seq<Coord>, edges: seq<Edge>, a: Coord, b: Coord)
    requires TreeLog(order, edges)
    requires Joined(edges, a, b)
    ensures a in order && b in order
  {
    var i :| 0 <= i < |edges| && (edges[i] == (a, b) || edges[i] == (b, a));
    assert edges[i].1 == order[i + 1];
    var m :| 0 <= m <= i && order[m] == edges[i].0;
  }

  /** A visited cell is joined to exactly one earlier-visited cell: its traversal parent. */
  lemma ParentUnique(order: seq<Coord>, edges: seq<Edge>, u: Coord, v: Coord)
    requires TreeLog(order, edges)
    requires Joined(edges, u, v) && u in order && v in order
    requires Rank(order, u) < Rank(order, v)
    ensures Rank(order, v) >= 1 && u == edges[Rank(order, v) - 1].0
  {
    var i :| 0 <= i < |edges| && (edges[i] == (u, v) || edges[i] == (v, u));
    assert edges[i].1 == order[i + 1];
    assert Rank(order, v) == i + 1;
  }

  lemma MaxRank(order: seq<Coord>, q: seq<Coord>) returns (m: nat)
    requires |q| > 0
    requires forall v :: v in q ==> v in order
    ensures m < |q|
    ensures forall j :: 0 <= j < |q| ==> Rank(order, q[j]) <= Rank(order, q[m])
  {
    if |q| == 1 {
      m := 0;
    } else {
      var init := q[..|q| - 1];
      assert forall v :: v in init ==> v in q;
      var k := MaxRank(order, init);
      assert forall j :: 0 <= j < |init| ==> q[j] == init[j];
      if Rank(order, q[|q| - 1]) > Rank(order, q[k]) {
        m := |q| - 1;
      } else {
        m := k;
      }
    }
  }

  /**
   * The opened walls contain no cycle: the latest-visited cell on a cycle
   * would be joined to two different earlier cells.
   */
  lemma NoCycle(order: seq<Coord>, edges: seq<Edge>, p: seq<Coord>)
    requires TreeLog(order, edges)
    ensures !IsCycle(edges, p)
  {
    if IsCycle(edges, p) {
      var n := |p| - 1;
      forall i | 0 <= i < |p| ensures p[i] in order {
        if i < n {
          JoinedVisited(order, edges, p[i], p[i + 1]);
        } else {
          JoinedVisited(order, edges, p[0], p[1]);
        }
      }
      var ring := p[..n];
      assert forall j :: 0 <= j < n ==> ring[j] == p[j];
      assert forall v :: v in ring ==> v in order;
      var m := MaxRank(order, ring);
      var v := p[m];
      var a := p[m + 1];
      var b := if m == 0 then p[n - 1] else p[m - 1];
      assert Joined(edges, v, a);
      assert Joined(edges, b, v);
      var ia := if m + 1 < n then m + 1 else 0;
      var ib := if m == 0 then n - 1 else m - 1;
      assert a == ring[ia] && b == ring[ib] && v == ring[m];
      assert ia != m && ib != m && ia != ib;
      assert a != v && b != v && a != b;
      assert Rank(order, a) != Rank(order, v) && Rank(order, b) != Rank(order, v);
      ParentUnique(order, edges, a, v);
      ParentUnique(order, edges, b, v);
    }
  }

  /**
   * A finished carving of a `width x depth` grid from corner (0,0) is a
   * spanning tree of the grid: every cell is visited exactly once, there
   * are `width * depth - 1` openings, no wall is opened twice, every cell
   * is connected to the start, and there is no cycle.
   */
  lemma SpanningTreeOfGrid(width: int, depth: int, order: seq<Coord>, edges: seq<Edge>)
    requires 1 <= width && 1 <= depth
    requires CarvingLog(width, depth, Coord(0, 0), order, edges) && order != []
    requires FinishedOutside(width, depth, order, [])
    ensures forall c :: InBounds(width, depth, c) ==> c in order
    ensures |order| == width * depth && |edges| == width * depth - 1
    ensures forall i, j :: 0 <= i < j < |edges| ==> !SameOpening(edges[i], edges[j])
    ensures forall c :: InBounds(width, depth, c) ==> Connected(edges, Coord(0, 0), c)
    ensures forall p :: !IsCycle(edges, p)
  {
    CarvingLogShape(width, depth, Coord(0, 0), order, edges);
    ClosedCoversGrid(width, depth, order);
    CoveringSize(width, depth, order);
    EdgesDistinct(order, edges);
    forall c | InBounds(width, depth, c) ensures Connected(edges, Coord(0, 0), c) {
      TreeLogConnected(order, edges, Rank(order, c));
    }
    forall p ensures !IsCycle(edges, p) {
      NoCycle(order, edges, p);
    }
  }
}
