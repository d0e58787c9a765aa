/**
 * One maze cell: a visited flag and four wall flags, `true` meaning the
 * wall is standing. The model assumes that a freshly instantiated cell is
 * unvisited with all four walls up (`Fresh`); the carver only ever marks a
 * cell visited and knocks walls down.
 */
module Cells {
  import opened Geometry

  datatype Cell = Cell(visited: bool, backWall: bool, frontWall: bool, leftWall: bool, rightWall: bool)
  {
    /** Whether the wall on side `d` is still standing. */
    predicate HasWall(d: Direction)
    {
      match d
      case Back => backWall
      case Front => frontWall
      case Left => leftWall
      case Right => rightWall
    }

    /** Marks the cell visited and leaves every wall as it was. */
    function Visit(): (r: Cell)
      ensures r.visited
      ensures forall d :: r.HasWall(d) == HasWall(d)
    {
      this.(visited := true)
    }

    /** Knocks down the wall on side `d`; the other walls and the visited flag are untouched. */
    function ClearWall(d: Direction): (r: Cell)
      ensures !r.HasWall(d)
      ensures r.visited == visited
      ensures forall d' :: d' != d ==> r.HasWall(d') == HasWall(d')
    {
      match d
      case Back => this.(backWall := false)
      case Front => this.(frontWall := false)
      case Left => this.(leftWall := false)
      case Right => this.(rightWall := false)
    }
  }

  /**
   * The assumed state of a newly instantiated cell prefab: not visited, and
   * all four walls (back, front, left, right) standing. The prefab's own
   * code is not part of this model.
   */
  const Fresh := Cell(false, true, true, true, true)
}
