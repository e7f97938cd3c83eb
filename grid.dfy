/** The maze grid: rows of cell symbols, possibly of different lengths.
    Space is open floor; every other symbol blocks movement and stops rays. */
module Grid {
  import opened Options

  type Maze = seq<seq<char>>

  const Open: char := ' '

  /** Cell in column i of row j, or `None` when the row is missing or the
      (possibly short) row has no column i. */
  function Lookup(maze: Maze, i: nat, j: nat): (r: Option<char>)
    ensures r.Some? <==> j < |maze| && i < |maze[j]|
    ensures r.Some? ==> r.value == maze[j][i]
  {
    if j < |maze| && i < |maze[j]| then Some(maze[j][i]) else None
  }

  /** The cell (i, j) exists and is open floor. */
  predicate IsOpen(maze: Maze, i: nat, j: nat)
  {
    Lookup(maze, i, j) == Some(Open)
  }

  /** The cell (i, j) exists and holds something other than open floor. */
  predicate IsWall(maze: Maze, i: nat, j: nat)
  {
    Lookup(maze, i, j).Some? && Lookup(maze, i, j).value != Open
  }
}
