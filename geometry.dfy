/** Plane geometry of the maze scene.

    Every length is measured in tenths of a cell: `cellSize` is `CellSize`
    units. A wall is a square of 0.8 cellSize centred on its cell, a goal
    candidate is a cellSize square centred on its cell, so all the scene's
    coordinates are whole numbers in this unit. */
module Geometry {

  /** cellSize, in tenths of a cell. */
  const CellSize: int := 10

  /** Side of a wall rectangle: `cellSize * 0.8`. */
  const WallSide: int := 8

  datatype Point = Point(x: int, y: int)

  /** A grid cell: column `x`, row `y`. */
  datatype Cell = Cell(x: int, y: int)

  /** An axis-aligned rectangle given, like the engine's Geom.Rectangle, by its
      top-left corner and its size. */
  datatype Rect = Rect(x: int, y: int, width: int, height: int)
  {
    function Right(): int { x + width }
    function Bottom(): int { y + height }
  }

  /** The engine's rectangle-to-rectangle test: a rectangle without area meets
      nothing; otherwise the two closed boxes meet, touching edges included. */
  predicate Intersects(a: Rect, b: Rect)
  {
    a.width > 0 && a.height > 0 && b.width > 0 && b.height > 0 &&
    !(a.Right() < b.x || a.Bottom() < b.y || a.x > b.Right() || a.y > b.Bottom())
  }

  /** A rectangle of the given size whose centre is `p` (an engine shape with
      origin 0.5 reports these bounds). */
  function CentredRect(p: Point, width: int, height: int): (r: Rect)
    requires width % 2 == 0 && height % 2 == 0
    ensures r.x + r.Right() == 2 * p.x && r.y + r.Bottom() == 2 * p.y
    ensures r.width == width && r.height == height
  {
    Rect(p.x - width / 2, p.y - height / 2, width, height)
  }

  /** Centre of a cell: `k * cellSize + cellSize / 2` on each axis. */
  function CellCentre(c: Cell): Point
  {
    Point(c.x * CellSize + CellSize / 2, c.y * CellSize + CellSize / 2)
  }

  /** Bounds of the wall rectangle drawn on cell `c`. */
  function WallBounds(c: Cell): Rect
  {
    CentredRect(CellCentre(c), WallSide, WallSide)
  }

  /** Bounds tested for a goal placed at `p`: a cellSize square centred on `p`. */
  function GoalBounds(p: Point): Rect
  {
    Rect(p.x - CellSize / 2, p.y - CellSize / 2, CellSize, CellSize)
  }

  /** Bounds of a sprite centred on `p` with the given half extents. */
  function SpriteBounds(p: Point, halfWidth: nat, halfHeight: nat): (r: Rect)
    ensures r.x + r.Right() == 2 * p.x && r.y + r.Bottom() == 2 * p.y
    ensures r.width == 2 * halfWidth && r.height == 2 * halfHeight
  {
    CentredRect(p, 2 * halfWidth, 2 * halfHeight)
  }

  /** Where the player sprite is created and where a failed start check puts
      it back: `(cellSize / 2, cellSize / 2)`. */
  const StartPoint: Point := Point(CellSize / 2, CellSize / 2)

  /** The centre of a cell lies strictly inside that cell's wall box. */
  lemma CentreInsideWall(c: Cell)
    ensures var p, w := CellCentre(c), WallBounds(c); w.x < p.x < w.Right() && w.y < p.y < w.Bottom()
  {
  }

  /** The start point is the centre of the corner cell (0, 0). */
  lemma StartIsCornerCentre()
    ensures StartPoint == CellCentre(Cell(0, 0))
  {
  }

  /** A goal box centred on a cell meets a wall exactly when the wall stands on
      that same cell: the 0.1-cell gap around each wall keeps neighbours apart. */
  lemma GoalMeetsOnlyItsOwnWall(g: Cell, w: Cell)
    ensures Intersects(GoalBounds(CellCentre(g)), WallBounds(w)) <==> g == w
  {
  }

  /** Any box with area that contains the start point meets the wall of cell (0, 0). */
  lemma StartBoxMeetsCornerWall(r: Rect)
    requires r.width > 0 && r.height > 0
    requires r.x <= StartPoint.x <= r.Right() && r.y <= StartPoint.y <= r.Bottom()
    ensures Intersects(r, WallBounds(Cell(0, 0)))
  {
    StartIsCornerCentre();
    CentreInsideWall(Cell(0, 0));
  }
}
