/** Reference definitions for the noise maze and for goal placement: which
    cells get a wall, in which order the walls join the wall group, and which
    goal candidate the rejection sampler accepts. */
module MazeSpec {
  import opened Geometry

  datatype Option<T> = None | Some(value: T)

  /** A random draw below this value puts a wall on the cell. */
  const WallProbability: real := 0.3

  /** `draws[y][x]` is the `Math.random()` value drawn when cell (x, y) is
      visited: one draw per cell of a `width` x `height` grid. */
  predicate WellShaped(draws: seq<seq<real>>, width: nat, height: nat)
  {
    |draws| == height && forall y :: 0 <= y < height ==> |draws[y]| == width
  }

  predicate InGrid(width: nat, height: nat, c: Cell)
  {
    0 <= c.x < width && 0 <= c.y < height
  }

  predicate OnBorder(width: nat, height: nat, c: Cell)
  {
    c.x == 0 || c.y == 0 || c.x == width - 1 || c.y == height - 1
  }

  /** A cell of the grid that is not on its border. */
  predicate Interior(width: nat, height: nat, c: Cell)
  {
    1 <= c.x <= width - 2 && 1 <= c.y <= height - 2
  }

  /** The generator puts a wall on cell `c` when its draw is below the wall
      probability or when the cell is on the border. */
  predicate WallDrawn(draws: seq<seq<real>>, width: nat, height: nat, c: Cell)
    requires WellShaped(draws, width, height) && InGrid(width, height, c)
  {
    draws[c.y][c.x] < WallProbability || OnBorder(width, height, c)
  }

  /** `a` is visited before `b` in row-major order. */
  predicate RowMajorBefore(a: Cell, b: Cell)
  {
    a.y < b.y || (a.y == b.y && a.x < b.x)
  }

  /** Every element of `s` is visited before the ones after it, so no cell
      occurs twice. */
  predicate StrictlyRowMajor(s: seq<Cell>)
  {
    forall i, j :: 0 <= i < j < |s| ==> RowMajorBefore(s[i], s[j])
  }

  /** The walls added while visiting columns 0 .. n-1 of row y, left to
      right: exactly the drawn walls among those cells. */
  function RowWalls(draws: seq<seq<real>>, width: nat, height: nat, y: nat, n: nat): (r: seq<Cell>)
    requires WellShaped(draws, width, height) && y < height && n <= width
    ensures forall c {:trigger c in r} :: c in r <==> c.y == y && 0 <= c.x < n && WallDrawn(draws, width, height, c)
  {
    if n == 0 then []
    else
      RowWalls(draws, width, height, y, n - 1) +
      (if WallDrawn(draws, width, height, Cell(n - 1, y)) then [Cell(n - 1, y)] else [])
  }

  /** The walls added while visiting rows 0 .. m-1, row after row: exactly
      the drawn walls among those cells. */
  function WallsUpTo(draws: seq<seq<real>>, width: nat, height: nat, m: nat): (r: seq<Cell>)
    requires WellShaped(draws, width, height) && m <= height
    ensures forall c {:trigger c in r} :: c in r <==> 0 <= c.y < m && 0 <= c.x < width && WallDrawn(draws, width, height, c)
  {
    if m == 0 then []
    else WallsUpTo(draws, width, height, m - 1) + RowWalls(draws, width, height, m - 1, width)
  }

  /** The whole wall group built by one generation pass: exactly the grid
      cells whose wall is drawn. */
  function Generated(draws: seq<seq<real>>, width: nat, height: nat): (r: seq<Cell>)
    requires WellShaped(draws, width, height)
    ensures forall c {:trigger c in r} :: c in r <==> InGrid(width, height, c) && WallDrawn(draws, width, height, c)
  {
    WallsUpTo(draws, width, height, height)
  }

  /** A row's walls are added left to right. */
  lemma {:induction false} RowWallsOrdered(draws: seq<seq<real>>, width: nat, height: nat, y: nat, n: nat)
    requires WellShaped(draws, width, height) && y < height && n <= width
    ensures StrictlyRowMajor(RowWalls(draws, width, height, y, n))
  {
    if n > 0 {
      RowWallsOrdered(draws, width, height, y, n - 1);
      var s := RowWalls(draws, width, height, y, n - 1);
      assert forall i :: 0 <= i < |s| ==> s[i] in s;
    }
  }

  /** Rows are visited top to bottom, so walls join the group in row-major order. */
  lemma {:induction false} WallsUpToOrdered(draws: seq<seq<real>>, width: nat, height: nat, m: nat)
    requires WellShaped(draws, width, height) && m <= height
    ensures StrictlyRowMajor(WallsUpTo(draws, width, height, m))
  {
    if m > 0 {
      WallsUpToOrdered(draws, width, height, m - 1);
      RowWallsOrdered(draws, width, height, m - 1, width);
      var a := WallsUpTo(draws, width, height, m - 1);
      var b := RowWalls(draws, width, height, m - 1, width);
      assert forall i :: 0 <= i < |a| ==> a[i] in a;
      assert forall j :: 0 <= j < |b| ==> b[j] in b;
    }
  }

  /** One generation pass adds each wall once, in row-major order. */
  lemma GeneratedInRowMajorOrder(draws: seq<seq<real>>, width: nat, height: nat)
    requires WellShaped(draws, width, height)
    ensures StrictlyRowMajor(Generated(draws, width, height))
    ensures var s := Generated(draws, width, height);
            forall i, j :: 0 <= i < j < |s| ==> s[i] != s[j]
  {
    WallsUpToOrdered(draws, width, height, height);
  }

  /** Every border cell gets a wall, whatever its draw; an interior cell gets
      one exactly when its draw is below the wall probability. */
  lemma BorderAndInteriorWalls(draws: seq<seq<real>>, width: nat, height: nat, c: Cell)
    requires WellShaped(draws, width, height) && InGrid(width, height, c)
    ensures OnBorder(width, height, c) ==> c in Generated(draws, width, height)
    ensures Interior(width, height, c) ==>
              (c in Generated(draws, width, height) <==> draws[c.y][c.x] < WallProbability)
  {
  }

  /** The wall group `walls` has a wall whose bounds meet `r`. */
  predicate HitsAnyWall(walls: seq<Cell>, r: Rect)
  {
    exists i :: 0 <= i < |walls| && Intersects(r, WallBounds(walls[i]))
  }

  /** A goal at the centre of `c` is rejected by the wall group. */
  predicate Rejected(walls: seq<Cell>, c: Cell)
  {
    HitsAnyWall(walls, GoalBounds(CellCentre(c)))
  }

  /** A goal candidate is rejected exactly when a wall of the group stands on
      its cell. */
  lemma RejectedIffWallOnCell(walls: seq<Cell>, c: Cell)
    ensures Rejected(walls, c) <==> c in walls
  {
    if Rejected(walls, c) {
      var i :| 0 <= i < |walls| && Intersects(GoalBounds(CellCentre(c)), WallBounds(walls[i]));
      GoalMeetsOnlyItsOwnWall(c, walls[i]);
    }
    if c in walls {
      var i :| 0 <= i < |walls| && walls[i] == c;
      GoalMeetsOnlyItsOwnWall(c, c);
    }
  }

  /** Index of the first candidate the rejection sampler accepts, or None when
      every candidate is rejected. */
  function FirstAccepted(walls: seq<Cell>, candidates: seq<Cell>): (r: Option<nat>)
    ensures r.Some? ==>
              r.value < |candidates| && !Rejected(walls, candidates[r.value]) &&
              forall j :: 0 <= j < r.value ==> Rejected(walls, candidates[j])
    ensures r.None? <==> forall j :: 0 <= j < |candidates| ==> Rejected(walls, candidates[j])
  {
    if candidates == [] then None
    else if !Rejected(walls, candidates[0]) then Some(0)
    else
      match FirstAccepted(walls, candidates[1..])
      case None => None
      case Some(k) => Some(k + 1)
  }

  /** The goal position the sampler returns: the centre of the first accepted
      candidate, or None once every candidate has been rejected. */
  function GoalFor(walls: seq<Cell>, candidates: seq<Cell>): (r: Option<Point>)
    ensures r.Some? ==> !HitsAnyWall(walls, GoalBounds(r.value))
    ensures r.Some? ==> exists j :: 0 <= j < |candidates| && r.value == CellCentre(candidates[j])
    ensures r.None? <==> forall j :: 0 <= j < |candidates| ==> Rejected(walls, candidates[j])
  {
    match FirstAccepted(walls, candidates)
    case None => None
    case Some(k) => Some(CellCentre(candidates[k]))
  }

  /** On a generated maze a candidate inside the grid is accepted exactly when
      no wall was drawn on its cell; the sampler fails exactly when every
      candidate's cell has a wall. */
  lemma AcceptedIffOpenCell(draws: seq<seq<real>>, width: nat, height: nat, candidates: seq<Cell>)
    requires WellShaped(draws, width, height)
    requires forall j :: 0 <= j < |candidates| ==> InGrid(width, height, candidates[j])
    ensures forall j :: 0 <= j < |candidates| ==>
              (Rejected(Generated(draws, width, height), candidates[j]) <==>
               WallDrawn(draws, width, height, candidates[j]))
    ensures FirstAccepted(Generated(draws, width, height), candidates).None? <==>
              forall j :: 0 <= j < |candidates| ==> WallDrawn(draws, width, height, candidates[j])
  {
    var walls := Generated(draws, width, height);
    forall j | 0 <= j < |candidates|
      ensures Rejected(walls, candidates[j]) <==> WallDrawn(draws, width, height, candidates[j])
    {
      RejectedIffWallOnCell(walls, candidates[j]);
    }
  }

  /** With no open interior cell, sampling interior candidates always ends in
      failure: the unbounded sampler would never stop. */
  lemma NoOpenInteriorExhausts(draws: seq<seq<real>>, width: nat, height: nat, candidates: seq<Cell>)
    requires WellShaped(draws, width, height)
    requires forall c :: Interior(width, height, c) ==> draws[c.y][c.x] < WallProbability
    requires forall j :: 0 <= j < |candidates| ==> Interior(width, height, candidates[j])
    ensures FirstAccepted(Generated(draws, width, height), candidates) == None
  {
    AcceptedIffOpenCell(draws, width, height, candidates);
  }

  /** When every candidate is an interior cell, an accepted goal sits at the
      centre of an interior cell that has no wall. */
  lemma AcceptedGoalIsOpenInteriorCentre(draws: seq<seq<real>>, width: nat, height: nat, candidates: seq<Cell>)
    requires WellShaped(draws, width, height)
    requires forall j :: 0 <= j < |candidates| ==> Interior(width, height, candidates[j])
    ensures var walls := Generated(draws, width, height);
            FirstAccepted(walls, candidates).Some? ==>
              var c := candidates[FirstAccepted(walls, candidates).value];
              GoalFor(walls, candidates) == Some(CellCentre(c)) &&
              Interior(width, height, c) && !WallDrawn(draws, width, height, c) &&
              draws[c.y][c.x] >= WallProbability
  {
    AcceptedIffOpenCell(draws, width, height, candidates);
  }

  /** A player sprite with area created at the start point always meets the
      corner wall, so the start check always moves it back to the start point. */
  lemma StartCheckAlwaysFires(draws: seq<seq<real>>, width: nat, height: nat, halfWidth: nat, halfHeight: nat)
    requires WellShaped(draws, width, height)
    requires width >= 1 && height >= 1 && halfWidth > 0 && halfHeight > 0
    ensures HitsAnyWall(Generated(draws, width, height), SpriteBounds(StartPoint, halfWidth, halfHeight))
  {
    var walls := Generated(draws, width, height);
    assert Cell(0, 0) in walls;
    var i :| 0 <= i < |walls| && walls[i] == Cell(0, 0);
    StartBoxMeetsCornerWall(SpriteBounds(StartPoint, halfWidth, halfHeight));
  }
}
