/** The game scene: the wall grid built once per session, the wall group the
    engine collides against, the player sprite and the goal position. */
module Scene {
  import opened Geometry
  import opened MazeSpec
  import opened Movement

  /** The player sprite: its position, its velocity, its rotation and the
      half extents of its displayed image. */
  class Player {
    var position: Point
    var velocityX: int
    var velocityY: int
    var rotation: Rotation
    const halfWidth: nat
    const halfHeight: nat

    /** A sprite at rest, unrotated, at `at`. */
    constructor (at: Point, halfWidth: nat, halfHeight: nat)
      ensures position == at && velocityX == 0 && velocityY == 0 && rotation == FacingRight
      ensures this.halfWidth == halfWidth && this.halfHeight == halfHeight
    {
      position := at;
      velocityX, velocityY := 0, 0;
      rotation := FacingRight;
      this.halfWidth, this.halfHeight := halfWidth, halfHeight;
    }

    function Bounds(): Rect
      reads this
    {
      SpriteBounds(position, halfWidth, halfHeight)
    }
  }

  /** The wall group holds exactly the cells the grid marks as walls. */
  ghost predicate Agree(walls: seq<Cell>, grid: array2<bool>)
    reads grid
  {
    forall c :: c in walls <==> InGrid(grid.Length0, grid.Length1, c) && grid[c.x, c.y]
  }

  /** Every cell of the grid holds whether the generator draws a wall on it. */
  ghost predicate MarksDrawnWalls(draws: seq<seq<real>>, grid: array2<bool>)
    requires WellShaped(draws, grid.Length0, grid.Length1)
    reads grid
  {
    forall x, y :: 0 <= x < grid.Length0 && 0 <= y < grid.Length1 ==>
      grid[x, y] == WallDrawn(draws, grid.Length0, grid.Length1, Cell(x, y))
  }

  /** A grid that marks exactly the drawn walls agrees with the wall group of
      one generation pass. */
  lemma GroupMatchesGrid(draws: seq<seq<real>>, grid: array2<bool>)
    requires WellShaped(draws, grid.Length0, grid.Length1)
    requires MarksDrawnWalls(draws, grid)
    ensures Agree(Generated(draws, grid.Length0, grid.Length1), grid)
  {
  }

  /** When the group and the grid agree and every candidate lies in the
      grid, an accepted goal is the centre of a candidate whose grid cell is
      open. */
  lemma AcceptedGoalOnOpenGridCell(walls: seq<Cell>, grid: array2<bool>, candidates: seq<Cell>)
    requires Agree(walls, grid)
    requires forall j :: 0 <= j < |candidates| ==> InGrid(grid.Length0, grid.Length1, candidates[j])
    ensures GoalFor(walls, candidates).Some? ==>
              exists j :: 0 <= j < |candidates| && GoalFor(walls, candidates).value == CellCentre(candidates[j]) &&
                          InGrid(grid.Length0, grid.Length1, candidates[j]) && !grid[candidates[j].x, candidates[j].y]
  {
    var goal := GoalFor(walls, candidates);
    if goal.Some? {
      var j :| 0 <= j < |candidates| && goal.value == CellCentre(candidates[j]);
      RejectedIffWallOnCell(walls, candidates[j]);
    }
  }

  class MainScene {
    const mazeWidth: nat
    const mazeHeight: nat
    /** `grid[x, y]` holds when a wall stands on cell (x, y). */
    var grid: array2<bool>
    /** The static wall group: one cell per wall, in the order walls were added. */
    var walls: seq<Cell>
    var player: Player
    var goal: Option<Point>

    /** The grid has the maze's size and agrees with the wall group. */
    ghost predicate Valid()
      reads this, grid
    {
      grid.Length0 == mazeWidth && grid.Length1 == mazeHeight && Agree(walls, grid)
    }

    /** Scene creation: generate the maze, create the player at the start
        point and check it, then place the goal. */
    constructor Create(width: nat, height: nat, draws: seq<seq<real>>,
                       playerHalfWidth: nat, playerHalfHeight: nat, candidates: seq<Cell>)
      requires WellShaped(draws, width, height)
      ensures Valid()
      ensures mazeWidth == width && mazeHeight == height
      ensures walls == Generated(draws, width, height)
      ensures player.position == StartPoint
      ensures player.velocityX == 0 && player.velocityY == 0 && player.rotation == FacingRight
      ensures player.halfWidth == playerHalfWidth && player.halfHeight == playerHalfHeight
      ensures goal == GoalFor(walls, candidates)
      ensures fresh(player) && fresh(grid)
    {
      mazeWidth, mazeHeight := width, height;
      grid := new bool[width, height];
      walls := [];
      player := new Player(StartPoint, playerHalfWidth, playerHalfHeight);
      goal := None;
      new;
      GenerateMaze(draws);
      CheckPlayerStartPosition();
      goal := GetGoalPosition(candidates);
    }

    /** Visits every cell once, row by row, and adds a wall to the group when
        the cell's draw is below the wall probability or the cell is on the
        border. */
    method GenerateMaze(draws: seq<seq<real>>)
      requires WellShaped(draws, mazeWidth, mazeHeight)
      requires grid.Length0 == mazeWidth && grid.Length1 == mazeHeight
      modifies this`walls, grid
      ensures walls == old(walls) + Generated(draws, mazeWidth, mazeHeight)
      ensures MarksDrawnWalls(draws, grid)
      ensures old(walls) == [] ==> Valid()
    {
      var y := 0;
      while y < mazeHeight
        invariant 0 <= y <= mazeHeight
        invariant walls == old(walls) + WallsUpTo(draws, mazeWidth, mazeHeight, y)
        invariant forall i, j :: 0 <= i < mazeWidth && 0 <= j < y ==>
                    grid[i, j] == WallDrawn(draws, mazeWidth, mazeHeight, Cell(i, j))
      {
        ghost var before := walls;
        GenerateRow(draws, y);
        ghost var row := RowWalls(draws, mazeWidth, mazeHeight, y, mazeWidth);
        assert walls == old(walls) + (WallsUpTo(draws, mazeWidth, mazeHeight, y) + row) by {
          assert before + row == old(walls) + (WallsUpTo(draws, mazeWidth, mazeHeight, y) + row);
        }
        y := y + 1;
      }
      GroupMatchesGrid(draws, grid);
    }

    /** The inner loop of the generator: visits the cells of row `y` from
        left to right, marking each in the grid and adding its wall to the
        group when one is drawn. Other rows are left as they were. */
    method GenerateRow(draws: seq<seq<real>>, y: nat)
      requires WellShaped(draws, mazeWidth, mazeHeight) && y < mazeHeight
      requires grid.Length0 == mazeWidth && grid.Length1 == mazeHeight
      modifies this`walls, grid
      ensures walls == old(walls) + RowWalls(draws, mazeWidth, mazeHeight, y, mazeWidth)
      ensures forall i :: 0 <= i < mazeWidth ==> grid[i, y] == WallDrawn(draws, mazeWidth, mazeHeight, Cell(i, y))
      ensures forall i, j :: 0 <= i < mazeWidth && 0 <= j < mazeHeight && j != y ==> grid[i, j] == old(grid[i, j])
    {
      var x := 0;
      while x < mazeWidth
        invariant 0 <= x <= mazeWidth
        invariant walls == old(walls) + RowWalls(draws, mazeWidth, mazeHeight, y, x)
        invariant forall i :: 0 <= i < x ==> grid[i, y] == WallDrawn(draws, mazeWidth, mazeHeight, Cell(i, y))
        invariant forall i, j :: 0 <= i < mazeWidth && 0 <= j < mazeHeight && j != y ==> grid[i, j] == old(grid[i, j])
      {
        var isWall := draws[y][x] < WallProbability ||
                      x == 0 || y == 0 || x == mazeWidth - 1 || y == mazeHeight - 1;
        grid[x, y] := isWall;
        if isWall {
          walls := walls + [Cell(x, y)];
        }
        x := x + 1;
      }
    }

    /** If any wall meets the player's bounds, puts the player back at the
        start point. The bounds are taken once, before the walls are scanned. */
    method CheckPlayerStartPosition()
      modifies player`position
      ensures player.position ==
                if HitsAnyWall(walls, old(player.Bounds())) then StartPoint else old(player.position)
    {
      var playerBounds := player.Bounds();
      var i := 0;
      while i < |walls|
        invariant 0 <= i <= |walls|
        invariant player.position ==
                    if exists j :: 0 <= j < i && Intersects(playerBounds, WallBounds(walls[j]))
                    then StartPoint else old(player.position)
      {
        if Intersects(playerBounds, WallBounds(walls[i])) {
          player.position := StartPoint;
        }
        i := i + 1;
      }
    }

    /** Draws candidate cells in turn and returns the centre of the first one
        whose goal box meets no wall of the group; None when the candidates
        run out. */
    method GetGoalPosition(candidates: seq<Cell>) returns (goal: Option<Point>)
      ensures goal == GoalFor(walls, candidates)
      ensures goal.Some? ==> !HitsAnyWall(walls, GoalBounds(goal.value))
      ensures goal.None? <==> forall j :: 0 <= j < |candidates| ==> Rejected(walls, candidates[j])
    {
      var goalX, goalY := 0, 0;
      var positionFound := false;
      var n := 0;
      while !positionFound && n < |candidates|
        invariant 0 <= n <= |candidates|
        invariant forall j :: 0 <= j < n - 1 ==> Rejected(walls, candidates[j])
        invariant n > 0 ==> Point(goalX, goalY) == CellCentre(candidates[n - 1])
        invariant n > 0 ==> (positionFound <==> !Rejected(walls, candidates[n - 1]))
        invariant n == 0 ==> !positionFound
      {
        goalX := candidates[n].x * CellSize + CellSize / 2;
        goalY := candidates[n].y * CellSize + CellSize / 2;
        positionFound := true;
        var k := 0;
        while k < |walls|
          invariant 0 <= k <= |walls|
          invariant positionFound <==>
                      forall j :: 0 <= j < k ==> !Intersects(GoalBounds(Point(goalX, goalY)), WallBounds(walls[j]))
        {
          var wallBounds := WallBounds(walls[k]);
          var goalBounds := Rect(goalX - CellSize / 2, goalY - CellSize / 2, CellSize, CellSize);
          if Intersects(goalBounds, wallBounds) {
            positionFound := false;
          }
          k := k + 1;
        }
        n := n + 1;
      }
      if positionFound {
        goal := Some(Point(goalX, goalY));
      } else {
        goal := None;
      }
    }

    /** Resets the velocity, then applies at most one horizontal and at most
        one vertical direction, each setting its velocity component and the
        rotation. */
    method UpdatePlayerMovement(cursors: Keys, buttons: Keys)
      modifies player`velocityX, player`velocityY, player`rotation
      ensures Motion(player.velocityX, player.velocityY, player.rotation) ==
                Steer(Held(cursors, buttons), old(player.rotation))
    {
      var held := Held(cursors, buttons);
      player.velocityX, player.velocityY := 0, 0;
      if held.left {
        player.velocityX, player.rotation := -Speed, FacingLeft;
      } else if held.right {
        player.velocityX, player.rotation := Speed, FacingRight;
      }
      if held.up {
        player.velocityY, player.rotation := -Speed, FacingUp;
      } else if held.down {
        player.velocityY, player.rotation := Speed, FacingDown;
      }
      SteerInTwoSteps(held, old(player.rotation));
    }
  }
}
