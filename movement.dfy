/** The input-to-motion rule applied to the player on every frame. */
module Movement {

  /** Player speed, in pixels per second, on each axis. */
  const Speed: int := 200

  /** Which direction controls are held. */
  datatype Keys = Keys(left: bool, right: bool, up: bool, down: bool)

  /** The sprite's rotation: pi, 0, -pi/2 and pi/2 radians. */
  datatype Rotation = FacingLeft | FacingRight | FacingUp | FacingDown

  /** A velocity-and-rotation call made on the player. */
  datatype Direction = Left | Right | Up | Down

  datatype Motion = Motion(velocityX: int, velocityY: int, rotation: Rotation)

  /** A direction counts as held when its cursor key is down or its on-screen
      button is pressed. */
  function Held(cursors: Keys, buttons: Keys): Keys
  {
    Keys(cursors.left || buttons.left, cursors.right || buttons.right,
         cursors.up || buttons.up, cursors.down || buttons.down)
  }

  /** The horizontal call of a frame, if any: left before right. */
  function HorizontalCall(k: Keys): seq<Direction>
  {
    if k.left then [Left] else if k.right then [Right] else []
  }

  /** The vertical call of a frame, if any: up before down. */
  function VerticalCall(k: Keys): seq<Direction>
  {
    if k.up then [Up] else if k.down then [Down] else []
  }

  /** The calls one frame makes, in order: the horizontal one, then the
      vertical one. */
  function Applied(k: Keys): seq<Direction>
  {
    HorizontalCall(k) + VerticalCall(k)
  }

  /** Effect of one call: it overwrites one velocity component and the rotation. */
  function Step(m: Motion, d: Direction): Motion
  {
    match d
    case Left => m.(velocityX := -Speed, rotation := FacingLeft)
    case Right => m.(velocityX := Speed, rotation := FacingRight)
    case Up => m.(velocityY := -Speed, rotation := FacingUp)
    case Down => m.(velocityY := Speed, rotation := FacingDown)
  }

  function Steps(m: Motion, ds: seq<Direction>): Motion
    decreases |ds|
  {
    if ds == [] then m else Steps(Step(m, ds[0]), ds[1..])
  }

  /** The motion after one frame: velocity reset to zero, then the applied
      calls in order, starting from the current rotation. */
  function Steer(k: Keys, r: Rotation): Motion
  {
    Steps(Motion(0, 0, r), Applied(k))
  }

  lemma {:induction false} StepsConcat(m: Motion, a: seq<Direction>, b: seq<Direction>)
    ensures Steps(m, a + b) == Steps(Steps(m, a), b)
    decreases |a|
  {
    if a != [] {
      assert (a + b)[0] == a[0];
      assert (a + b)[1..] == a[1..] + b;
      StepsConcat(Step(m, a[0]), a[1..], b);
    } else {
      assert a + b == b;
    }
  }

  /** A frame's motion is its horizontal call followed by its vertical call. */
  lemma SteerInTwoSteps(k: Keys, r: Rotation)
    ensures Steer(k, r) == Steps(Steps(Motion(0, 0, r), HorizontalCall(k)), VerticalCall(k))
  {
    StepsConcat(Motion(0, 0, r), HorizontalCall(k), VerticalCall(k));
  }

  /** Left wins over right, up wins over down, and an axis with no held key
      stays at rest. */
  lemma KeyPriority(k: Keys, r: Rotation)
    ensures Steer(k, r).velocityX == if k.left then -Speed else if k.right then Speed else 0
    ensures Steer(k, r).velocityY == if k.up then -Speed else if k.down then Speed else 0
  {
    SteerInTwoSteps(k, r);
  }

  /** The rotation follows the last applied call: a vertical key overrides a
      horizontal one, and with no key held the rotation is kept. */
  lemma RotationFollowsLastKey(k: Keys, r: Rotation)
    ensures Steer(k, r).rotation ==
              if k.up then FacingUp
              else if k.down then FacingDown
              else if k.left then FacingLeft
              else if k.right then FacingRight
              else r
  {
    SteerInTwoSteps(k, r);
  }

  /** With no key held the player stops and keeps its rotation. */
  lemma NoKeyNoMotion(k: Keys, r: Rotation)
    requires !k.left && !k.right && !k.up && !k.down
    ensures Steer(k, r) == Motion(0, 0, r)
  {
  }
}
