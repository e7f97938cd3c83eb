/** The game loop's own rules: where the goal is, when the player has
    reached it, and the 2D/3D view toggle. The window, the timing and the
    drawing calls of the loop are not part of this model. */
module Game {
  import opened Options
  import opened Grid
  import opened Players
  import Render
  import opened Numbers

  /** The maze symbol of the goal station. */
  const Goal: char := 'g'

  /** The first column of `row`, from `from` on, that holds the goal. */
  function FirstGoalFrom(row: seq<char>, from: nat): (c: Option<nat>)
    requires from <= |row|
    ensures c.None? <==> forall j :: from <= j < |row| ==> row[j] != Goal
    ensures c.Some? ==>
      && from <= c.value < |row| && row[c.value] == Goal
      && (forall j :: from <= j < c.value ==> row[j] != Goal)
    decreases |row| - from
  {
    if from == |row| then None
    else if row[from] == Goal then Some(from)
    else FirstGoalFrom(row, from + 1)
  }

  /** The goal cell `(column, row)` the scan settles on among `rows`: the
      first goal of the last row that has one. */
  function GoalIn(rows: seq<seq<char>>): Option<(nat, nat)>
  {
    if rows == [] then None
    else match FirstGoalFrom(rows[|rows| - 1], 0)
      case Some(c) => Some((c, |rows| - 1))
      case None => GoalIn(rows[..|rows| - 1])
  }

  /** No row of `rows` from row r on holds the goal. */
  ghost predicate NoGoalFrom(rows: seq<seq<char>>, r: nat)
  {
    forall i, j :: r <= i < |rows| && 0 <= j < |rows[i]| ==> rows[i][j] != Goal
  }

  /** The scan finds nothing exactly when the maze has no goal; otherwise it
      finds a goal cell with no goal earlier in its row and none in any later
      row. */
  lemma {:induction false} GoalInSpec(rows: seq<seq<char>>)
    ensures GoalIn(rows).None? <==> NoGoalFrom(rows, 0)
    ensures GoalIn(rows).Some? ==>
      var (c, r) := GoalIn(rows).value;
      && r < |rows| && c < |rows[r]| && rows[r][c] == Goal
      && (forall j :: 0 <= j < c ==> rows[r][j] != Goal)
      && NoGoalFrom(rows, r + 1)
  {
    if rows != [] {
      var init := rows[..|rows| - 1];
      GoalInSpec(init);
      if FirstGoalFrom(rows[|rows| - 1], 0).None? {
        assert forall i :: 0 <= i < |init| ==> init[i] == rows[i];
      }
    }
  }

  /** The goal position in world units: the goal cell's corner, or the
      origin when the maze has no goal. */
  function GoalPosition(maze: Maze): Vec2
  {
    match GoalIn(maze)
    case Some((c, r)) => Vec2((c * Render.BlockSize) as real, (r * Render.BlockSize) as real)
    case None => Zero
  }

  /** In a maze with a single goal cell, the scan finds that cell. */
  lemma SingleGoal(maze: Maze, c: nat, r: nat)
    requires r < |maze| && c < |maze[r]| && maze[r][c] == Goal
    requires forall i, j :: 0 <= i < |maze| && 0 <= j < |maze[i]| && maze[i][j] == Goal ==> i == r && j == c
    ensures GoalPosition(maze) == Vec2((c * Render.BlockSize) as real, (r * Render.BlockSize) as real)
  {
    GoalInSpec(maze);
  }

  /** The start-up scan: over every row, record the first goal of the row
      and leave the row; a later row with a goal overrides an earlier one. */
  method GoalScan(maze: Maze) returns (goalPosition: Vec2)
    ensures goalPosition == GoalPosition(maze)
  {
    goalPosition := Zero;
    var rowIdx := 0;
    while rowIdx < |maze|
      invariant 0 <= rowIdx <= |maze|
      invariant goalPosition == GoalPosition(maze[..rowIdx])
    {
      var row := maze[rowIdx];
      assert maze[..rowIdx + 1][..rowIdx] == maze[..rowIdx];
      var colIdx := 0;
      while colIdx < |row|
        invariant 0 <= colIdx <= |row|
        invariant FirstGoalFrom(row, colIdx) == FirstGoalFrom(row, 0)
        invariant goalPosition == GoalPosition(maze[..rowIdx])
      {
        if row[colIdx] == Goal {
          goalPosition := Vec2((colIdx * Render.BlockSize) as real, (rowIdx * Render.BlockSize) as real);
          break;
        }
        colIdx := colIdx + 1;
      }
      rowIdx := rowIdx + 1;
    }
    assert maze[..rowIdx] == maze;
  }

  /** The player has reached the goal when it is less than half a block
      away, i.e. the squared distance is below `50²`. */
  predicate ReachedGoal(pos: Vec2, goal: Vec2)
  {
    var dx, dy := pos.x - goal.x, pos.y - goal.y;
    dx * dx + dy * dy < 2500.0
  }

  /** Reaching the goal means being within half a block of it on each
      axis. */
  lemma ReachedGoalNear(pos: Vec2, goal: Vec2)
    requires ReachedGoal(pos, goal)
    ensures Abs(pos.x - goal.x) < 50.0 && Abs(pos.y - goal.y) < 50.0
  {
    var dx, dy := pos.x - goal.x, pos.y - goal.y;
    SquareBelow(dx, dy * dy);
    SquareBelow(dy, dx * dx);
  }

  lemma SquareBelow(d: real, rest: real)
    requires rest >= 0.0 && d * d + rest < 2500.0
    ensures Abs(d) < 50.0
  {
  }

  /** The two views. */
  datatype Mode = TwoD | ThreeD

  const InitialMode: Mode := ThreeD

  /** The view after a frame: pressing M switches it. */
  function Toggled(mode: Mode, pressed: bool): (r: Mode)
    ensures pressed ==> r != mode
    ensures !pressed ==> r == mode
  {
    if !pressed then mode else if mode == TwoD then ThreeD else TwoD
  }

  /** Two presses return to the view one started from. */
  lemma ToggledTwice(mode: Mode)
    ensures Toggled(Toggled(mode, true), true) == mode
  {
  }
}
