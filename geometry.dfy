/**
 * Grid geometry of the maze: integer cell coordinates `(x, z)`, the four
 * wall directions, neighbour steps, bounds, and the facts about the whole
 * `width x depth` grid that the carver's proofs need (its size, and that a
 * set of visited cells closed under adjacency is the whole grid).
 */
module Geometry {
  import opened Options

  /** A cell position; `x` runs along the width, `z` along the depth. */
  datatype Coord = Coord(x: int, z: int)

  /** The four walls of a cell: back is -Z, front is +Z, left is -X, right is +X. */
  datatype Direction = Back | Front | Left | Right

  function Opposite(d: Direction): (o: Direction)
    ensures o != d
  {
    match d
    case Back => Front
    case Front => Back
    case Left => Right
    case Right => Left
  }

  function Abs(i: int): nat
  {
    if i < 0 then -i else i
  }

  /** Two cells are grid-adjacent when they differ by exactly 1 on exactly one axis. */
  predicate Adjacent(a: Coord, b: Coord)
  {
    Abs(a.x - b.x) + Abs(a.z - b.z) == 1
  }

  /** The cell on the other side of wall `d` of cell `c`. */
  function Step(c: Coord, d: Direction): (n: Coord)
    ensures Adjacent(c, n) && Adjacent(n, c)
  {
    match d
    case Back => Coord(c.x, c.z - 1)
    case Front => Coord(c.x, c.z + 1)
    case Left => Coord(c.x - 1, c.z)
    case Right => Coord(c.x + 1, c.z)
  }

  /** Stepping back across the opposite wall returns to the start. */
  lemma StepOpposite(c: Coord, d: Direction)
    ensures Step(Step(c, d), Opposite(d)) == c
  {
  }

  predicate InBounds(width: int, depth: int, c: Coord)
  {
    0 <= c.x < width && 0 <= c.z < depth
  }

  /** The left wall of corner (0,0) and the right wall of corner (width-1, depth-1) face out of the grid. */
  lemma CornerWallsFaceOutside(width: int, depth: int)
    ensures !InBounds(width, depth, Step(Coord(0, 0), Left))
    ensures !InBounds(width, depth, Step(Coord(width - 1, depth - 1), Right))
  {
  }

  /**
   * The wall of `from` that the carver clears when it moves to `to`: the
   * source compares x first, then z, and clears nothing for equal positions.
   */
  function Facing(from: Coord, to: Coord): (d: Option<Direction>)
    ensures d.None? <==> from == to
  {
    if from.x < to.x then Some(Right)
    else if from.x > to.x then Some(Left)
    else if from.z < to.z then Some(Front)
    else if from.z > to.z then Some(Back)
    else None
  }

  /** For adjacent cells the facing wall is the one between them, and the two sides face each other. */
  lemma FacingAdjacent(a: Coord, b: Coord)
    requires Adjacent(a, b)
    ensures Facing(a, b).Some? && Step(a, Facing(a, b).value) == b
    ensures Facing(b, a) == Some(Opposite(Facing(a, b).value))
  {
  }

  /** The neighbour across wall `d` is the only neighbour that `d` faces. */
  lemma StepFacing(c: Coord, d: Direction)
    ensures Facing(c, Step(c, d)) == Some(d)
  {
  }

  /**
   * Every adjacent cell is reached by a step in some direction. Not used
   * inside the model; it lets a client read `Adjacent` in the results as
   * "across one wall".
   */
  lemma AdjacentIsStep(a: Coord, b: Coord) returns (d: Direction)
    requires Adjacent(a, b)
    ensures Step(a, d) == b
  {
    FacingAdjacent(a, b);
    d := Facing(a, b).value;
  }

  lemma PrefixMembers<T>(s: seq<T>, t: seq<T>)
    requires s <= t
    ensures forall v :: v in s ==> v in t
  {
    forall v | v in s ensures v in t {
      var i :| 0 <= i < |s| && s[i] == v;
      assert t[i] == v;
    }
  }

  lemma PrefixTransitive<T>(r: seq<T>, s: seq<T>, t: seq<T>)
    requires r <= s && s <= t
    ensures r <= t
  {
    assert t[..|s|][..|r|] == t[..|r|];
  }

  /** A prefix of `s` stays a prefix of any `t` that extends `s` by at least one more element `x`. */
  lemma PrefixThroughAppend<T>(r: seq<T>, s: seq<T>, x: T, t: seq<T>)
    requires r <= s && s + [x] <= t
    ensures r <= t
  {
    assert s <= s + [x];
    PrefixTransitive(s, s + [x], t);
    PrefixTransitive(r, s, t);
  }

  ghost predicate Distinct<T>(s: seq<T>)
  {
    forall i, j :: 0 <= i < j < |s| ==> s[i] != s[j]
  }

  /**
   * Four candidate lists, each empty or the neighbour of `c` across one
   * distinct wall, concatenate to a duplicate-free list of at most four
   * cells holding exactly their members.
   */
  lemma NeighbourListDistinct(c: Coord, r: seq<Coord>, l: seq<Coord>, f: seq<Coord>, b: seq<Coord>)
    requires r == [] || r == [Step(c, Right)]
    requires l == [] || l == [Step(c, Left)]
    requires f == [] || f == [Step(c, Front)]
    requires b == [] || b == [Step(c, Back)]
    ensures |r + l + f + b| <= 4 && Distinct(r + l + f + b)
    ensures forall n :: n in r + l + f + b <==> n in r || n in l || n in f || n in b
  {
    var s := r + l + f + b;
    forall i, j | 0 <= i < j < |s|
      ensures s[i] != s[j]
    {
    }
  }

  /** Every in-bounds neighbour of `c` occurs in `s`. */
  ghost predicate NeighboursIn(width: int, depth: int, s: seq<Coord>, c: Coord)
  {
    forall d :: InBounds(width, depth, Step(c, d)) ==> Step(c, d) in s
  }

  /**
   * Every cell of `s` that is not in `active` is finished: all its in-bounds
   * neighbours are in `s` too.
   */
  ghost predicate FinishedOutside(width: int, depth: int, s: seq<Coord>, active: seq<Coord>)
  {
    forall c {:trigger NeighboursIn(width, depth, s, c)} :: c in s && c !in active ==> NeighboursIn(width, depth, s, c)
  }

  /** Finished cells stay finished as more cells are added. */
  lemma FinishedGrow(width: int, depth: int, s: seq<Coord>, t: seq<Coord>, active: seq<Coord>, active': seq<Coord>)
    requires FinishedOutside(width, depth, s, active)
    requires s <= t
    requires forall c :: c in s && c !in active' ==> c !in active
    requires forall c :: c in t && c !in s ==> c in active' || NeighboursIn(width, depth, t, c)
    ensures FinishedOutside(width, depth, t, active')
  {
    PrefixMembers(s, t);
    forall c | c in t && c !in active'
      ensures NeighboursIn(width, depth, t, c)
    {
      if c in s {
        assert NeighboursIn(width, depth, s, c);
      }
    }
  }

  /** Once `c` itself is finished it can leave the active cells. */
  lemma FinishOne(width: int, depth: int, s: seq<Coord>, active: seq<Coord>, c: Coord)
    requires FinishedOutside(width, depth, s, active + [c])
    requires NeighboursIn(width, depth, s, c)
    ensures FinishedOutside(width, depth, s, active)
  {
  }

  /** The grid cells not in `s`. */
  ghost function Remaining(width: int, depth: int, s: seq<Coord>): set<Coord>
  {
    AllCells(width, depth) - set c | c in s
  }

  lemma RemainingShrinks(width: int, depth: int, s: seq<Coord>, v: Coord, t: seq<Coord>)
    requires InBounds(width, depth, v) && v !in s
    requires s + [v] <= t
    ensures Remaining(width, depth, t) < Remaining(width, depth, s)
  {
    PrefixMembers(s + [v], t);
    InAllCells(width, depth, v);
    assert v in Remaining(width, depth, s) - Remaining(width, depth, t);
  }

  ghost function AllCells(width: int, depth: int): set<Coord>
  {
    set x, z | 0 <= x < width && 0 <= z < depth :: Coord(x, z)
  }

  ghost function Column(x: int, depth: int): set<Coord>
  {
    set z | 0 <= z < depth :: Coord(x, z)
  }

  lemma InAllCells(width: int, depth: int, c: Coord)
    ensures c in AllCells(width, depth) <==> InBounds(width, depth, c)
  {
    if InBounds(width, depth, c) {
      assert c == Coord(c.x, c.z);
    }
  }

  lemma InColumn(x: int, depth: int, c: Coord)
    ensures c in Column(x, depth) <==> c.x == x && 0 <= c.z < depth
  {
    if c.x == x && 0 <= c.z < depth {
      assert c == Coord(x, c.z);
    }
  }

  lemma {:induction false} ColumnSize(x: int, depth: nat)
    ensures |Column(x, depth)| == depth
  {
    if depth > 0 {
      ColumnSize(x, depth - 1);
      forall c ensures c in Column(x, depth) <==> c in Column(x, depth - 1) || c == Coord(x, depth - 1) {
        InColumn(x, depth, c);
        InColumn(x, depth - 1, c);
      }
      assert Column(x, depth) == Column(x, depth - 1) + {Coord(x, depth - 1)};
      InColumn(x, depth - 1, Coord(x, depth - 1));
    } else {
      forall c ensures c !in Column(x, depth) {
        InColumn(x, depth, c);
      }
      assert Column(x, depth) == {};
    }
  }

  /** The grid splits into its first `width - 1` columns and its last column. */
  lemma AllCellsSplit(width: int, depth: int)
    requires width >= 1
    ensures AllCells(width, depth) == AllCells(width - 1, depth) + Column(width - 1, depth)
    ensures AllCells(width - 1, depth) !! Column(width - 1, depth)
  {
    var w := width - 1;
    forall c ensures c in AllCells(width, depth) <==> c in AllCells(w, depth) || c in Column(w, depth) {
      InAllCells(width, depth, c);
      InAllCells(w, depth, c);
      InColumn(w, depth, c);
    }
    forall c ensures c in Column(w, depth) ==> c !in AllCells(w, depth) {
      InAllCells(w, depth, c);
      InColumn(w, depth, c);
    }
  }

  /** A `width x depth` grid has exactly `width * depth` cells. */
  lemma {:induction false} GridSize(width: nat, depth: nat)
    ensures |AllCells(width, depth)| == width * depth
  {
    if width > 0 {
      GridSize(width - 1, depth);
      ColumnSize(width - 1, depth);
      AllCellsSplit(width, depth);
      assert width * depth == (width - 1) * depth + depth;
    } else {
      forall c ensures c !in AllCells(width, depth) {
        InAllCells(width, depth, c);
      }
      assert AllCells(width, depth) == {};
    }
  }

  lemma {:induction false} DistinctSize<T>(s: seq<T>)
    requires Distinct(s)
    ensures |set t | t in s| == |s|
  {
    if s != [] {
      var init := s[..|s| - 1];
      DistinctSize(init);
      assert (set t | t in s) == (set t | t in init) + {s[|s| - 1]};
    } else {
      assert (set t | t in s) == {};
    }
  }

  /** A duplicate-free list of in-bounds cells that names every cell has exactly `width * depth` entries. */
  lemma CoveringSize(width: nat, depth: nat, s: seq<Coord>)
    requires Distinct(s)
    requires forall c :: c in s ==> InBounds(width, depth, c)
    requires forall c :: InBounds(width, depth, c) ==> c in s
    ensures |s| == width * depth
  {
    forall c ensures c in (set t | t in s) <==> c in AllCells(width, depth) {
      InAllCells(width, depth, c);
    }
    assert (set t | t in s) == AllCells(width, depth);
    DistinctSize(s);
    GridSize(width, depth);
  }

  lemma {:induction false} Reach(width: int, depth: int, s: seq<Coord>, x: int, z: int)
    requires Coord(0, 0) in s
    requires forall c :: c in s ==> NeighboursIn(width, depth, s, c)
    requires 0 <= x < width && 0 <= z < depth
    ensures Coord(x, z) in s
    decreases x + z
  {
    if z > 0 {
      Reach(width, depth, s, x, z - 1);
      assert Step(Coord(x, z - 1), Front) == Coord(x, z);
    } else if x > 0 {
      Reach(width, depth, s, x - 1, z);
      assert Step(Coord(x - 1, z), Right) == Coord(x, z);
    }
  }

  /**
   * The grid is connected: a set of cells that holds (0,0) and every
   * in-bounds neighbour of each of its members holds every cell.
   */
  lemma ClosedCoversGrid(width: int, depth: int, s: seq<Coord>)
    requires Coord(0, 0) in s
    requires forall c :: c in s ==> NeighboursIn(width, depth, s, c)
    ensures forall c :: InBounds(width, depth, c) ==> c in s
  {
    forall c | InBounds(width, depth, c) ensures c in s {
      Reach(width, depth, s, c.x, c.z);
    }
  }
}
