# Noise maze scene: grid, goal sampling, start check and movement

This project models the logical core of `MainScene` in the browser maze game
`main.js`. The scene is built on the Phaser 3 engine. The core has four parts:

- **Maze generation** (`generateMaze`). One pass over a `mazeWidth × mazeHeight`
  grid, row by row. A cell gets a wall when its `Math.random()` draw is below
  0.3 or when it lies on the border. Each wall joins the scene's static wall
  group.
- **Start check** (`checkPlayerStartPosition`). The player's bounds are tested
  against every wall of the group. If any wall meets them, the player is put
  at `(cellSize/2, cellSize/2)`.
- **Goal placement** (`getGoalPosition`). Rejection sampling: an interior cell
  centre is drawn and tested against every wall. It is accepted only when its
  cell-sized box meets no wall box.
- **Movement** (`updatePlayerMovement`). Every frame sets the velocity to 0.
  Then left or else right sets the horizontal velocity to ∓200 and the
  rotation. Then up or else down sets the vertical velocity and the rotation.

Modules:

- `Geometry` (`geometry.dfy`): points, cells, rectangles and the engine's
  rectangle intersection test.
  - Every length is in tenths of a cell: `cellSize` is 10 units.
  - A wall box is `Rect(10x+1, 10y+1, 8, 8)`: 0.8 cellSize, centred on its cell.
  - A goal box is a cellSize square centred on the goal.
  - All coordinates are therefore integers.
- `MazeSpec` (`maze_spec.dfy`): reference definitions and the lemmas about them.
  - Which cells the generator walls, and the order walls join the group.
  - Which goal candidate the sampler accepts.
- `Movement` (`movement.dfy`): the key-priority rule. It is stated as a fold
  over the velocity/rotation calls one frame makes. Lemmas give the priority
  rule in declarative form.
- `Scene` (`scene.dfy`): the imperative model.
  - `Player`: a class with position, velocity, rotation and half extents.
  - `MainScene`: a class whose `grid` is an `array2<bool>` and whose `walls`
    is the static group, a sequence of wall cells in insertion order.
  - Its methods update these fields with the source's loops. Their
    postconditions tie the new state to the `MazeSpec` and `Movement`
    functions.

Random numbers are inputs:
- `draws[y][x]` is the `Math.random()` value for cell (x, y).
- Goal candidates are the cells `Phaser.Math.Between` would return, in order.

The source's `while (!positionFound)` loop has no bound. The model's sampler
stops when its candidate sequence runs out and returns `None`. On a maze with
no open interior cell, that is the only way it can end (`NoOpenInteriorExhausts`).

`checkPlayerStartPosition` never moves the player to an open cell:
- `checkPlayerStartPosition` resets to `(cellSize/2, cellSize/2)`. That is
  also where the player was created.
- That point is the centre of the border cell (0, 0), which always has a wall.
- So the check always fires for a sprite with area, and leaves the player
  inside the corner wall (`StartCheckAlwaysFires`).

The engine's `Phaser.Geom.Intersects.RectangleToRectangle` is not part of
this model. `Geometry.Intersects` assumes its usual definition: two closed
axis-aligned boxes, each with positive width and height, that overlap or
touch. Under that assumption the goal test is exact: a goal box meets a wall
box only when the wall stands on the goal's own cell (`GoalMeetsOnlyItsOwnWall`).

## Model

| member | source | states |
|---|---|---|
| Geometry.CentredRect | main.js:81-85 | a shape placed at a centre point with a given size has bounds of that size whose midpoint is the centre |
| Geometry.SpriteBounds | main.js:96 | the player's bounds are centred on its position and are twice its half extents wide and high |
| Geometry.Intersects | main.js:99 | two rectangles meet when both have positive width and height and their closed boxes overlap or touch |
| Geometry.WallBounds | main.js:81-85 | a wall's bounds are the 0.8·cellSize square centred on `(x·cellSize + cellSize/2, y·cellSize + cellSize/2)` |
| Geometry.GoalBounds | main.js:116 | a goal's test box is the cellSize square whose top-left corner is half a cell up and left of the goal |
| Geometry.CentreInsideWall | main.js:82-83 | the point `k·cellSize + cellSize/2` lies strictly inside the wall box of cell k |
| Geometry.StartIsCornerCentre | main.js:30 | the player's creation and reset point `(cellSize/2, cellSize/2)` is the centre of cell (0, 0) |
| Geometry.GoalMeetsOnlyItsOwnWall | main.js:116-117 | a goal box centred on cell g meets the wall box of cell w if and only if g = w |
| Geometry.StartBoxMeetsCornerWall | main.js:99-100 | any box with area that contains the start point meets the wall box of cell (0, 0) |
| MazeSpec.WallDrawn | main.js:77-79 | a cell gets a wall when its draw is below 0.3 or it lies in the first or last row or column |
| MazeSpec.RowWalls | main.js:76-90 | visiting columns 0..n-1 of row y adds exactly the cells of that row prefix whose draw is below 0.3 or that lie on the border |
| MazeSpec.WallsUpTo | main.js:75-91 | visiting rows 0..m-1 adds exactly the in-grid cells of those rows whose wall is drawn |
| MazeSpec.Generated | main.js:74-93 | the wall group of one generation pass holds exactly the grid cells whose wall is drawn |
| MazeSpec.RowWallsOrdered | main.js:76 | within a row, walls are added in strictly increasing column order |
| MazeSpec.WallsUpToOrdered | main.js:75-76 | walls of the visited rows are added in strict row-major order |
| MazeSpec.GeneratedInRowMajorOrder | main.js:75-91 | one generation pass visits each cell once: the group is in strict row-major order and holds no cell twice |
| MazeSpec.BorderAndInteriorWalls | main.js:77-79 | every border cell gets a wall whatever its draw; an interior cell gets one if and only if its draw is below 0.3 |
| MazeSpec.HitsAnyWall | main.js:97-101 | some wall of the group has bounds that meet the given rectangle |
| MazeSpec.Rejected | main.js:113-120 | a candidate is rejected when the goal box at its cell's centre meets some wall of the group |
| MazeSpec.RejectedIffWallOnCell | main.js:113-120 | a goal candidate is rejected by the group if and only if some wall of the group stands on its cell |
| MazeSpec.FirstAccepted | main.js:109-121 | the sampler stops at the first candidate no wall rejects, all earlier ones being rejected; it finds none if and only if every candidate is rejected |
| MazeSpec.GoalFor | main.js:110-123 | a returned goal is the centre of one of the candidates and its box meets no wall; there is no goal if and only if every candidate is rejected |
| MazeSpec.AcceptedIffOpenCell | main.js:77-79 | on a generated maze an in-grid candidate is rejected if and only if its wall was drawn, so sampling fails if and only if every candidate's cell is a wall |
| MazeSpec.NoOpenInteriorExhausts | main.js:109-121 | when every interior draw is below 0.3, no sequence of interior candidates is ever accepted: the source's loop would not end |
| MazeSpec.AcceptedGoalIsOpenInteriorCentre | main.js:110-111 | with interior candidates, an accepted goal is the centre of an interior cell with no wall, whose draw was at least 0.3 |
| MazeSpec.StartCheckAlwaysFires | main.js:95-103 | on a generated maze of at least 1×1, a player with area at the start point always meets some wall, namely the corner wall |
| Movement.Held | main.js:136-144 | a direction is held when its cursor key is down or its on-screen button is pressed |
| Movement.Steer | main.js:133-146 | one frame's motion: velocity reset to 0, then the horizontal call (left before right), then the vertical call (up before down), each overwriting its velocity component and the rotation |
| Movement.KeyPriority | main.js:133-146 | left wins over right and up wins over down at speed 200; an axis with no held key has velocity 0 |
| Movement.RotationFollowsLastKey | main.js:137-145 | the rotation follows the last applied direction: vertical over horizontal, up over down, left over right, unchanged when no key is held |
| Movement.NoKeyNoMotion | main.js:133-134 | with no key held the player stops and keeps its rotation |
| Scene.GroupMatchesGrid | main.js:77-89 | a grid marking exactly the drawn walls agrees cell by cell with the generated wall group |
| Scene.AcceptedGoalOnOpenGridCell | main.js:105-124 | when the grid and the group agree and every candidate lies in the grid, an accepted goal is the centre of a candidate whose grid cell is open |
| Scene.Player.Bounds | main.js:96 | the player's bounds are the sprite box centred on its position |
| Scene.Player.constructor | main.js:30-31 | a new player sprite is at the given point, at rest and unrotated |
| Scene.MainScene.Create | main.js:17-42 | scene creation generates the maze, leaves the player at the start point at rest with the given half extents, and places the goal chosen by the sampler |
| Scene.MainScene.GenerateMaze | main.js:74-93 | the generated wall sequence is appended to the group, every grid cell holds whether its wall was drawn, and group and grid agree when the group started empty |
| Scene.MainScene.GenerateRow | main.js:76-91 | one row pass appends that row's drawn walls to the group, sets that row of the grid, and leaves the other rows unchanged |
| Scene.MainScene.CheckPlayerStartPosition | main.js:95-103 | the player moves to the start point if and only if some wall meets its bounds as taken before the scan; otherwise it stays where it was |
| Scene.MainScene.GetGoalPosition | main.js:105-124 | returns the centre of the first candidate whose box meets no wall, with no wall meeting the returned goal's box; returns None if and only if every candidate is rejected |
| Scene.MainScene.UpdatePlayerMovement | main.js:132-147 | the player's velocity and rotation become the result of resetting to 0 and then applying the held horizontal and vertical directions in order; its position is unchanged |

## Left out

- Asset loading, sprite and rectangle creation, physics bodies, colliders, the
  goal overlap callback and the camera (main.js:8-15, 24, 31, 35, 39, 42,
  54-56, 81-89). These are engine calls. The group stores each wall's cell,
  and `WallBounds` gives the bounds the engine reports for it.
- Timer text, `alert` and scene restart in `reachGoal` (main.js:44-46, 66-68,
  126-130). These are UI and engine lifecycle. The `update()` frame loop
  (main.js:62-72) is engine-driven: each frame is one call of
  `UpdatePlayerMovement` on the scene `Create` returns.
- The lighting mask (main.js:49, 71, 149-158): graphics plus floating-point
  geometry.
- `resizeGame` and the responsive `cellSize`, `mazeWidth` and `mazeHeight`
  arithmetic, with its resize listener (main.js:19-21, 59, 160-167). It is floating point from the viewport
  size. `mazeWidth` and `mazeHeight` are parameters. `cellSize` drops out:
  every length is measured in tenths of a cell.
- The `UIScene` buttons, the global `buttonStates` event wiring, the game
  config and the bootstrap (main.js:170-244), and the keyboard's cursor keys
  (main.js:52). Cursor and button states are inputs to `UpdatePlayerMovement`.
- `Math.random` and `Phaser.Math.Between` are inputs. `Between` is assumed to
  return values in `[1, mazeWidth-2]` and `[1, mazeHeight-2]`. The method
  accepts any candidate cells; the interior lemmas take that range as a
  hypothesis. What `Between` returns when `mazeWidth` or `mazeHeight` is
  below 3 is not modelled.
- Scene.MainScene.GetGoalPosition: the source loops until a candidate is
  accepted, which may be forever. The model reads a finite candidate sequence
  and returns `None` when it runs out.
- Scene.MainScene.CheckPlayerStartPosition: the player sprite's size comes from
  its texture at half scale, which is not known here. It is given as integer
  half extents in tenths of a cell.
- The arcade physics that later pushes a player out of an overlapping wall is
  not modelled. Neither is position integration from velocity.
- Rotations are the four angles the source sets (π, 0, −π/2, π/2 radians),
  written as an enumeration.
