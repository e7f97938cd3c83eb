/** The player: pose, the collision query against the maze and the
    per-frame input step. Positions and angles are reals; the f32 rounding of
    the source is not modelled, and the trigonometric functions are supplied
    by the caller. */
module Players {
  import opened Options
  import opened Grid
  import Cast
  import opened Numbers

  datatype Vec2 = Vec2(x: real, y: real)

  const Zero: Vec2 := Vec2(0.0, 0.0)

  /** Distance moved per frame while a move key is held. */
  const MoveSpeed: real := 2.0

  /** Heading change per frame while a turn key is held, and per mouse
      movement. */
  const RotationSpeed: real := 3.14 / 80.0

  /** Mouse movements of at most this many pixels do not turn the player. */
  const MouseDeadZone: real := 0.1

  /** `f as usize` for an already floored value: negative values saturate
      to 0. */
  function SaturatingCast(f: int): (n: nat)
    ensures f >= 0 ==> n == f
    ensures f < 0 ==> n == 0
  {
    if f < 0 then 0 else f
  }

  /** The grid index of a coordinate: `floor(coord / blockSize)`, cast to an
      index. */
  function CellIndex(coord: real, blockSize: nat): nat
    requires blockSize > 0
  {
    SaturatingCast((coord / blockSize as real).Floor)
  }

  /** True exactly when the cell (row, col) = (floor(y / bs), floor(x / bs))
      exists (in a possibly short row) and is open floor. */
  function CanMoveTo(newPos: Vec2, maze: Maze, blockSize: nat): (ok: bool)
    requires blockSize > 0
    ensures ok <==>
      var row, col := CellIndex(newPos.y, blockSize), CellIndex(newPos.x, blockSize);
      row < |maze| && col < |maze[row]| && maze[row][col] == Open
  {
    var row := CellIndex(newPos.y, blockSize);
    var col := CellIndex(newPos.x, blockSize);
    match Lookup(maze, col, row)
    case Some(cell) => cell == Open
    case None => false
  }

  /** For a non-negative coordinate, flooring before or after dividing by
      the block size gives the same cell index. */
  lemma CellIndexOfFloor(coord: real, blockSize: nat)
    requires blockSize > 0 && coord >= 0.0
    ensures coord.Floor >= 0
    ensures CellIndex(coord, blockSize) == coord.Floor / blockSize
  {
    var n := coord.Floor;
    var b := blockSize;
    var q := n / b;
    assert n == q * b + n % b;
    assert (q * b) as real <= coord;
    assert coord < ((q + 1) * b) as real;
    var d := coord / b as real;
    assert d * b as real == coord;
    assert q as real * b as real <= d * b as real;
    assert (q + 1) as real * b as real > d * b as real;
    assert q as real <= d < (q + 1) as real;
  }

  /** A position the player may occupy is never reported as a wall by the
      ray caster: the first sample of a ray cast from there is no hit. */
  lemma OpenPositionIsNoHit(p: Vec2, maze: Maze, blockSize: nat)
    requires blockSize > 0 && p.x >= 0.0 && p.y >= 0.0
    requires CanMoveTo(p, maze, blockSize)
    ensures p.x.Floor >= 0 && p.y.Floor >= 0
    ensures !Cast.IsHit(maze, (p.x.Floor as nat, p.y.Floor as nat), blockSize)
  {
    CellIndexOfFloor(p.x, blockSize);
    CellIndexOfFloor(p.y, blockSize);
  }

  /** The position after a frame: the candidate when a move key was
      pressed and the candidate is open floor, the old position otherwise.
      A player standing on open floor therefore stays on open floor. */
  function Committed(pos: Vec2, newPos: Vec2, moved: bool, maze: Maze, blockSize: nat): (p: Vec2)
    requires blockSize > 0
    ensures p == pos || (moved && p == newPos && CanMoveTo(newPos, maze, blockSize))
    ensures !moved || !CanMoveTo(newPos, maze, blockSize) ==> p == pos
    ensures CanMoveTo(pos, maze, blockSize) ==> CanMoveTo(p, maze, blockSize)
  {
    if moved && CanMoveTo(newPos, maze, blockSize) then newPos else pos
  }

  /** The audio call a frame makes: start the step sound on a real move,
      pause it when the move is refused or no move key is held, and no call
      when the move lands where the player already is. */
  datatype AudioCall = Play | Pause | NoCall

  /** Which keys are held this frame. */
  datatype Keys = Keys(turnLeft: bool, turnRight: bool, forward: bool, backward: bool)

  function Signum(r: real): real { if r < 0.0 then -1.0 else 1.0 }

  /** The heading after the mouse and the turn keys have been applied. */
  function Heading(a: real, previousMouseX: real, mouseX: Option<real>, keys: Keys): real
  {
    var a1 := if mouseX.Some? && Abs(mouseX.value - previousMouseX) > MouseDeadZone
      then a + Signum(mouseX.value - previousMouseX) * RotationSpeed else a;
    var a2 := if keys.turnLeft then a1 - RotationSpeed else a1;
    if keys.turnRight then a2 + RotationSpeed else a2
  }

  /** The candidate position: forward adds the heading step, backward
      subtracts it. */
  function Target(pos: Vec2, cosA: real, sinA: real, keys: Keys): Vec2
  {
    var p1 := if keys.forward then Vec2(pos.x + MoveSpeed * cosA, pos.y + MoveSpeed * sinA) else pos;
    if keys.backward then Vec2(p1.x - MoveSpeed * cosA, p1.y - MoveSpeed * sinA) else p1
  }

  class Player {
    var pos: Vec2
    var a: real
    var fov: real
    var velocity: Vec2
    var previousMousePos: Vec2

    /** A player at `pos` with heading `a` and field of view `fov`, at rest,
        with the last mouse position at the origin. */
    constructor (pos: Vec2, a: real, fov: real)
      ensures this.pos == pos && this.a == a && this.fov == fov
      ensures velocity == Zero && previousMousePos == Zero
    {
      this.pos := pos;
      this.a := a;
      this.fov := fov;
      velocity := Zero;
      previousMousePos := Zero;
    }

    /** One frame of input: turn by the mouse and the A/D keys, build the
        candidate position from the W/S keys along the new heading, and
        commit it only if a move key was held and the candidate cell is open
        floor. `cos` and `sin` stand for the trigonometric functions. */
    method ProcessEvents(maze: Maze, blockSize: nat, mouseX: Option<real>, keys: Keys,
                         cos: real -> real, sin: real -> real)
      returns (audio: AudioCall)
      requires blockSize > 0
      modifies this
      ensures a == Heading(old(a), old(previousMousePos.x), mouseX, keys)
      ensures previousMousePos == if mouseX.Some? then old(previousMousePos).(x := mouseX.value) else old(previousMousePos)
      ensures var newPos := Target(old(pos), cos(a), sin(a), keys);
        && pos == Committed(old(pos), newPos, keys.forward || keys.backward, maze, blockSize)
        && audio == if (keys.forward || keys.backward) && CanMoveTo(newPos, maze, blockSize)
             then (if old(pos) != newPos then Play else NoCall)
             else Pause
      ensures CanMoveTo(old(pos), maze, blockSize) ==> CanMoveTo(pos, maze, blockSize)
      ensures fov == old(fov) && velocity == old(velocity)
    {
      var moved := false;
      var newPos := pos;

      if mouseX.Some? {
        var deltaX := mouseX.value - previousMousePos.x;
        if Abs(deltaX) > MouseDeadZone {
          a := a + Signum(deltaX) * RotationSpeed;
        }
        previousMousePos := previousMousePos.(x := mouseX.value);
      }

      if keys.turnLeft {
        a := a - RotationSpeed;
      }
      if keys.turnRight {
        a := a + RotationSpeed;
      }
      assert a == Heading(old(a), old(previousMousePos.x), mouseX, keys);
      if keys.forward {
        newPos := Vec2(newPos.x + MoveSpeed * cos(a), newPos.y + MoveSpeed * sin(a));
        moved := true;
      }
      if keys.backward {
        newPos := Vec2(newPos.x - MoveSpeed * cos(a), newPos.y - MoveSpeed * sin(a));
        moved := true;
      }

      assert newPos == Target(old(pos), cos(a), sin(a), keys);
      assert moved == (keys.forward || keys.backward);
      if moved && CanMoveTo(newPos, maze, blockSize) {
        if pos != newPos {
          pos := newPos;
          audio := Play;
        } else {
          audio := NoCall;
        }
      } else {
        audio := Pause;
      }
    }
  }
}
