/**
 * The randomized recursive-backtracker maze carver (class `MazeGen2`).
 *
 * `Start` allocates a `width x depth` grid of fresh cells, takes corner
 * (0,0) as the entrance and corner (width-1, depth-1) as the exit, carves
 * the maze depth-first from the entrance, and finally opens the entrance's
 * left wall and the exit's right wall.
 *
 * Two ghost fields record what the carver does: `order`, the cells in the
 * order `Visit` marks them, and `edges`, the (previous, current) pair of
 * every `ClearWalls` call. The object invariant ties the grid's visited
 * flags and wall flags to this log, and the log is a spanning tree
 * (module SpanningTree).
 */
module MazeGen {
  import opened Options
  import opened Geometry
  import opened Cells
  import opened SpanningTree

  class MazeGen2 {
    const width: int
    const depth: int
    const grid: array2<Cell>
    const entrance: Coord
    const exit: Coord

    /** The cells in the order they were visited. */
    ghost var order: seq<Coord>
    /** One (previous cell, current cell) pair per `ClearWalls` call. */
    ghost var edges: seq<Edge>

    ghost predicate Shaped()
    {
      && 1 <= width && 1 <= depth
      && grid.Length0 == width && grid.Length1 == depth
      && entrance == Coord(0, 0) && exit == Coord(width - 1, depth - 1)
    }

    function At(c: Coord): Cell
      requires Shaped() && InBounds(width, depth, c)
      reads grid
    {
      grid[c.x, c.z]
    }

    /** A cell is marked visited exactly when it is in the visiting log. */
    ghost predicate VisitedMatch()
      requires Shaped()
      reads this, grid
    {
      forall c {:trigger At(c)} :: InBounds(width, depth, c) ==> (At(c).visited <==> c in order)
    }

    /** A wall is down exactly when the log records an opening between its two sides. */
    ghost predicate WallsMatch()
      requires Shaped()
      reads this, grid
    {
      forall c, d {:trigger At(c).HasWall(d)} :: InBounds(width, depth, c) ==> (At(c).HasWall(d) <==> !Joined(edges, c, Step(c, d)))
    }

    /**
     * The finished maze: a wall is down exactly when the log records an
     * opening across it, or it is the entrance's left wall or the exit's
     * right wall.
     */
    ghost predicate Carved()
      requires Shaped()
      reads this, grid
    {
      forall c, d {:trigger At(c).HasWall(d)} :: InBounds(width, depth, c) ==>
        (At(c).HasWall(d) <==> !(Joined(edges, c, Step(c, d)) || (c == entrance && d == Left) || (c == exit && d == Right)))
    }

    ghost predicate Valid()
      reads this, grid
    {
      Shaped() && CarvingLog(width, depth, entrance, order, edges) && VisitedMatch() && WallsMatch()
    }

    /** Each wall between two grid cells looks the same from both sides. */
    ghost predicate WallsSymmetric()
      requires Shaped()
      reads grid
    {
      forall c, d :: InBounds(width, depth, c) && InBounds(width, depth, Step(c, d)) ==>
        At(c).HasWall(d) == At(Step(c, d)).HasWall(Opposite(d))
    }

    /**
     * Allocates the grid, fixes the entrance and exit, carves the maze and
     * opens the two boundary walls. Afterwards every cell has been visited
     * exactly once, there are `width * depth - 1` openings, each between a
     * cell and its traversal parent, the open walls connect every cell to
     * the entrance without a cycle, and the only other open walls are the
     * entrance's left wall and the exit's right wall, which face outside.
     */
    constructor Start(width: int, depth: int)
      requires 1 <= width && 1 <= depth
      ensures this.width == width && this.depth == depth && Shaped() && fresh(grid)
      ensures entrance == Coord(0, 0) && exit == Coord(width - 1, depth - 1)
      ensures forall c :: InBounds(width, depth, c) ==> At(c).visited
      ensures CarvingLog(width, depth, entrance, order, edges)
      ensures forall c :: c in order ==> InBounds(width, depth, c)
      ensures Distinct(order) && |order| == width * depth && order[0] == entrance
      ensures TreeLog(order, edges) && |edges| == width * depth - 1
      ensures forall e :: e in edges ==> Adjacent(e.0, e.1)
      ensures forall i, j :: 0 <= i < j < |edges| ==> !SameOpening(edges[i], edges[j])
      ensures Carved()
      ensures !InBounds(width, depth, Step(entrance, Left)) && !InBounds(width, depth, Step(exit, Right))
      ensures WallsSymmetric()
      ensures forall c :: InBounds(width, depth, c) ==> Connected(edges, entrance, c)
      ensures forall p :: !IsCycle(edges, p)
    {
      var g := new Cell[width, depth];
      for x := 0 to width
        invariant forall i, j :: 0 <= i < x && 0 <= j < depth ==> g[i, j] == Fresh
      {
        for z := 0 to depth
          invariant forall i, j :: 0 <= i < x && 0 <= j < depth ==> g[i, j] == Fresh
          invariant forall j :: 0 <= j < z ==> g[x, j] == Fresh
        {
          g[x, z] := Fresh;
        }
      }
      this.width := width;
      this.depth := depth;
      grid := g;
      entrance := Coord(0, 0);
      exit := Coord(width - 1, depth - 1);
      order := [];
      edges := [];
      new;
      GenerateMaze(None, entrance, []);
      SpanningTreeOfGrid(width, depth, order, edges);
      CarvingLogShape(width, depth, entrance, order, edges);
      ClearEntranceAndExitWalls();
      CarvedSymmetric();
      CornerWallsFaceOutside(width, depth);
    }

    /** In the finished maze every wall between two cells looks the same from both sides. */
    lemma CarvedSymmetric()
      requires Shaped() && Carved()
      ensures WallsSymmetric()
    {
      forall c, d | InBounds(width, depth, c) && InBounds(width, depth, Step(c, d))
        ensures At(c).HasWall(d) == At(Step(c, d)).HasWall(Opposite(d))
      {
        StepOpposite(c, d);
      }
    }

    /**
     * Visits `cur` (reached from `prev`, or the entrance when `prev` is
     * `None`), opens the wall back to `prev`, and then keeps carving into
     * unvisited neighbours until none is left. `active` are the cells whose
     * calls are still running further up; every other visited cell is
     * finished, that is, has all its in-bounds neighbours visited.
     */
    method GenerateMaze(prev: Option<Coord>, cur: Coord, ghost active: seq<Coord>)
      requires Valid() && InBounds(width, depth, cur)
      requires !At(cur).visited
      requires prev.None? ==> order == [] && cur == entrance
      requires prev.Some? ==> prev.value in order && Adjacent(prev.value, cur)
      requires FinishedOutside(width, depth, order, active)
      modifies this, grid
      ensures Valid()
      ensures old(order) + [cur] <= order
      ensures prev.None? ==> Continues(old(edges), edges)
      ensures prev.Some? ==> Continues(old(edges) + [(prev.value, cur)], edges)
      ensures NeighboursIn(width, depth, order, cur)
      ensures FinishedOutside(width, depth, order, active)
      decreases Remaining(width, depth, order)
    {
      ghost var order0 := order;
      VisitFrom(prev, cur);
      ghost var edges1 := edges;
      ContinuesSelf(edges1);
      FinishedGrow(width, depth, order0, order, active, active + [cur]);
      var next := GetNextUnvisitedCell(cur);
      NextCellMeaning(cur, next);
      while next.Some?
        invariant Valid()
        invariant order0 + [cur] <= order
        invariant Continues(edges1, edges)
        invariant FinishedOutside(width, depth, order, active + [cur])
        invariant next.Some? ==> InBounds(width, depth, next.value) && Adjacent(cur, next.value) && !At(next.value).visited
        invariant next.None? ==> NeighboursIn(width, depth, order, cur)
        decreases Remaining(width, depth, order)
      {
        ghost var order1, edges2 := order, edges;
        assert Remaining(width, depth, order1) < Remaining(width, depth, order0) by {
          RemainingShrinks(width, depth, order0, cur, order1);
        }
        GenerateMaze(Some(cur), next.value, active + [cur]);
        assert Remaining(width, depth, order) < Remaining(width, depth, order1)
          && order0 + [cur] <= order && Continues(edges1, edges) by {
          RemainingShrinks(width, depth, order1, next.value, order);
          PrefixThroughAppend(order0 + [cur], order1, next.value, order);
          ContinuesThroughAppend(edges1, edges2, (cur, next.value), edges);
        }
        next := GetNextUnvisitedCell(cur);
        NextCellMeaning(cur, next);
      }
      FinishOne(width, depth, order, active, cur);
    }

    /**
     * The first step of a `GenerateMaze` call: marks `cur` visited and, when
     * it was reached from `prev`, opens the wall between them. The visit and
     * the opening are appended to the log and the invariant is kept.
     */
    method VisitFrom(prev: Option<Coord>, cur: Coord)
      requires Valid() && InBounds(width, depth, cur)
      requires !At(cur).visited
      requires prev.None? ==> order == [] && cur == entrance
      requires prev.Some? ==> prev.value in order && Adjacent(prev.value, cur)
      modifies this, grid
      ensures Valid()
      ensures order == old(order) + [cur]
      ensures edges == old(edges) + (if prev.Some? then [(prev.value, cur)] else [])
    {
      ghost var order0, edges0 := order, edges;
      grid[cur.x, cur.z] := grid[cur.x, cur.z].Visit();
      order := order + [cur];
      assert VisitedMatch() && WallsMatch() by {
        assert forall c :: InBounds(width, depth, c) && c != cur ==> At(c) == old(At(c));
      }
      assert order == order0 + [cur];
      if prev.Some? {
        CarvingLogExtend(width, depth, entrance, order0, edges0, prev.value, cur);
        assert InBounds(width, depth, prev.value) by {
          CarvingLogShape(width, depth, entrance, order0, edges0);
        }
        ClearWalls(prev.value, cur);
        assert Valid();
      } else {
        CarvingLogStart(width, depth, cur);
        assert Valid();
      }
    }

    /**
     * What the choice of the next cell means for the traversal: a chosen
     * cell is an unvisited in-bounds neighbour, and no choice means that
     * every in-bounds neighbour of `cur` has been visited.
     */
    lemma NextCellMeaning(cur: Coord, next: Option<Coord>)
      requires Shaped() && VisitedMatch() && InBounds(width, depth, cur)
      requires next.None? <==> GetUnvisitedCells(cur) == []
      requires next.Some? ==> next.value in GetUnvisitedCells(cur)
      ensures next.Some? ==> InBounds(width, depth, next.value) && Adjacent(cur, next.value) && !At(next.value).visited
      ensures next.None? ==> NeighboursIn(width, depth, order, cur)
    {
    }

    /**
     * The in-bounds neighbours of `cur` that are not yet visited, in the
     * order +X, -X, +Z, -Z.
     */
    function GetUnvisitedCells(cur: Coord): (cells: seq<Coord>)
      requires Shaped() && InBounds(width, depth, cur)
      reads grid
      ensures forall c :: c in cells ==> InBounds(width, depth, c) && Adjacent(cur, c) && !At(c).visited
      ensures forall d :: InBounds(width, depth, Step(cur, d)) && !At(Step(cur, d)).visited ==> Step(cur, d) in cells
      ensures |cells| <= 4 && Distinct(cells)
    {
      var right, left, front, back := Candidate(cur, Right), Candidate(cur, Left), Candidate(cur, Front), Candidate(cur, Back);
      NeighbourListDistinct(cur, right, left, front, back);
      right + left + front + back
    }

    /**
     * `cur`'s neighbour across wall `d` as a zero- or one-element sequence:
     * present when it lies in the grid and is not yet visited. The ensures
     * clauses only restate the body; they are the interface that the proof
     * of `GetUnvisitedCells` and its callers work through.
     */
    function Candidate(cur: Coord, d: Direction): (r: seq<Coord>)
      requires Shaped() && InBounds(width, depth, cur)
      reads grid
      ensures r == [] || (r == [Step(cur, d)] && InBounds(width, depth, Step(cur, d)) && !At(Step(cur, d)).visited)
      ensures r == [] ==> !(InBounds(width, depth, Step(cur, d)) && !At(Step(cur, d)).visited)
    {
      var n := Step(cur, d);
      if InBounds(width, depth, n) && !At(n).visited then [n] else []
    }

    /** Some unvisited neighbour of `cur`, chosen arbitrarily, or `None` when there is none. */
    method GetNextUnvisitedCell(cur: Coord) returns (next: Option<Coord>)
      requires Shaped() && InBounds(width, depth, cur)
      ensures next.None? <==> GetUnvisitedCells(cur) == []
      ensures next.Some? ==> next.value in GetUnvisitedCells(cur)
    {
      var cells := GetUnvisitedCells(cur);
      if cells == [] {
        next := None;
      } else {
        var k :| 0 <= k < |cells|;
        next := Some(cells[k]);
      }
    }

    /**
     * Opens the wall between `prev` and `cur`: `prev`'s wall facing `cur`
     * and `cur`'s wall facing back. No other cell, wall or visited flag
     * changes, and the opening is appended to the log.
     */
    method ClearWalls(prev: Coord, cur: Coord)
      requires Shaped() && InBounds(width, depth, prev) && InBounds(width, depth, cur)
      modifies this`edges, grid
      ensures edges == old(edges) + [(prev, cur)]
      ensures forall c :: InBounds(width, depth, c) && c != prev && c != cur ==> At(c) == old(At(c))
      ensures Facing(prev, cur).None? ==> At(prev) == old(At(prev))
      ensures Facing(prev, cur).Some? ==>
        && At(prev) == old(At(prev)).ClearWall(Facing(prev, cur).value)
        && At(cur) == old(At(cur)).ClearWall(Opposite(Facing(prev, cur).value))
      ensures forall c :: InBounds(width, depth, c) ==> At(c).visited == old(At(c).visited)
      ensures old(VisitedMatch()) ==> VisitedMatch()
      ensures Adjacent(prev, cur) && old(WallsMatch()) ==> WallsMatch()
    {
      var facing := Facing(prev, cur);
      if facing.Some? {
        grid[prev.x, prev.z] := grid[prev.x, prev.z].ClearWall(facing.value);
        grid[cur.x, cur.z] := grid[cur.x, cur.z].ClearWall(Opposite(facing.value));
      }
      edges := edges + [(prev, cur)];
      if Adjacent(prev, cur) && old(WallsMatch()) {
        FacingAdjacent(prev, cur);
        forall c, d | InBounds(width, depth, c)
          ensures At(c).HasWall(d) <==> !Joined(edges, c, Step(c, d))
        {
          assert old(At(c).HasWall(d)) <==> !Joined(old(edges), c, Step(c, d));
          StepFacing(c, d);
        }
      }
    }

    /** Opens the entrance's left wall and the exit's right wall and nothing else. */
    method ClearEntranceAndExitWalls()
      requires Shaped()
      modifies grid
      ensures forall c, d :: InBounds(width, depth, c) ==>
        At(c).HasWall(d) == (old(At(c).HasWall(d)) && !(c == entrance && d == Left) && !(c == exit && d == Right))
      ensures forall c :: InBounds(width, depth, c) ==> At(c).visited == old(At(c).visited)
      ensures old(WallsMatch()) ==> Carved()
    {
      grid[entrance.x, entrance.z] := grid[entrance.x, entrance.z].ClearWall(Left);
      grid[exit.x, exit.z] := grid[exit.x, exit.z].ClearWall(Right);
    }
  }
}
