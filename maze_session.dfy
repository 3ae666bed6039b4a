/**
  The state of one game on the maze page (src/components/MazeView.tsx):
  the maze, the player's cell, whether the goal was reached, the cell
  size and the start of a touch, with the handlers that change them.
*/
module MazeSession {
  import opened Options
  import opened MazeGrid
  import opened MazeGenerator
  import opened MazeInput

  /** Where one move from `p` towards `d` leads: a wall keeps the player in
      place, an open side lets them step through. */
  function NextPos(g: Grid, p: Pos, d: Dir): (q: Pos)
    requires InGrid(g, p)
    ensures q == p || q == Step(p, d)
    ensures q != p <==> !Wall(g, p, d)
  {
    if Wall(g, p, d) then p else Step(p, d)
  }

  /** In a maze with closed outer walls a move never leaves the board, and
      a move that changes the cell passes through an open wall. */
  lemma NextPosInGrid(g: Grid, p: Pos, d: Dir)
    requires BoundaryClosed(g) && InGrid(g, p)
    ensures InGrid(g, NextPos(g, p, d))
    ensures NextPos(g, p, d) != p ==> CanPass(g, p, d)
  {
    assert InGrid(g, Step(p, d)) || Wall(g, p, d);
  }

  /** A move that goes through can be undone by the opposite move. */
  lemma MoveBack(g: Grid, p: Pos, d: Dir)
    requires BoundaryClosed(g) && Symmetric(g) && InGrid(g, p)
    requires NextPos(g, p, d) != p
    ensures NextPos(g, NextPos(g, p, d), Opposite(d)) == p
  {
    NextPosInGrid(g, p, d);
    StepBack(p, d);
    assert Wall(g, p, d) == Wall(g, Step(p, d), Opposite(d));
  }

  /** Where a sequence of moves from `p` leaves the player. */
  ghost function Follow(g: Grid, p: Pos, moves: seq<Dir>): (q: Pos)
    requires BoundaryClosed(g) && InGrid(g, p)
    ensures InGrid(g, q)
    decreases |moves|
  {
    if moves == [] then p
    else
      NextPosInGrid(g, p, moves[0]);
      Follow(g, NextPos(g, p, moves[0]), moves[1..])
  }

  /** Pressing the keys of a walk through open walls leads where the walk does. */
  lemma {:induction false} WalkFollow(g: Grid, p: Pos, moves: seq<Dir>, q: Pos)
    requires BoundaryClosed(g) && InGrid(g, p)
    requires Walk(g, p, moves) == Some(q)
    ensures Follow(g, p, moves) == q
    decreases |moves|
  {
    if moves != [] {
      assert CanPass(g, p, moves[0]);
      WalkFollow(g, Step(p, moves[0]), moves[1..], q);
    }
  }

  /** A maze as `GenerateMaze` promises it on the game's board. */
  ghost predicate IsMaze(g: Grid) {
    && Rect(g, Rows, Cols)
    && BoundaryClosed(g) && Symmetric(g)
    && (forall p :: InGrid(g, p) ==> Reachable(g, p))
    && |Passages(g)| == Rows * Cols - 1
  }

  /** Every game can be won: some sequence of moves from the start reaches the goal. */
  lemma GoalReachable(g: Grid)
    requires IsMaze(g)
    ensures exists moves :: Follow(g, Origin, moves) == Goal
  {
    assert InGrid(g, Goal) && Reachable(g, Goal);
    var moves :| Walk(g, Origin, moves) == Some(Goal);
    WalkFollow(g, Origin, moves, Goal);
  }

  class Game {
    var grid: Grid
    var pos: Pos
    var won: bool
    var cellSize: int
    var touchStart: Option<(real, real)>

    /** The maze is a proper one, the player stands on one of its cells,
        and the game is only won at the goal. */
    ghost predicate Valid()
      reads this
    {
      IsMaze(grid) && InGrid(grid, pos) && (won ==> pos == Goal)
    }

    /** The page's first render: a fresh maze, the player at the start. */
    constructor (random: nat -> real)
      requires forall k :: 0.0 <= random(k) < 1.0
      ensures Valid()
      ensures pos == Origin && !won && cellSize == 28 && touchStart == None
    {
      var maze := GenerateMaze(Rows, Cols, random);
      grid := maze;
      pos := Origin;
      won := false;
      cellSize := 28;
      touchStart := None;
    }

    /** One step towards `d`, ignored once the game is won. */
    method Move(d: Dir)
      requires Valid()
      modifies this
      ensures Valid()
      ensures pos == (if old(won) then old(pos) else NextPos(grid, old(pos), d))
      ensures grid == old(grid) && won == old(won)
      ensures cellSize == old(cellSize) && touchStart == old(touchStart)
    {
      if won {
        return;
      }
      NextPosInGrid(grid, pos, d);
      pos := NextPos(grid, pos, d);
    }

    /** The effect that runs after the player's cell changes: standing on
        the goal wins the game. */
    method CheckWin()
      requires Valid()
      modifies this
      ensures Valid()
      ensures won == (old(won) || pos == Goal)
      ensures grid == old(grid) && pos == old(pos)
      ensures cellSize == old(cellSize) && touchStart == old(touchStart)
    {
      if pos == Goal {
        won := true;
      }
    }

    /** The "New Maze" button: another maze, back to the start, not won. */
    method NewMaze(random: nat -> real)
      requires forall k :: 0.0 <= random(k) < 1.0
      modifies this
      ensures Valid()
      ensures pos == Origin && !won
      ensures cellSize == old(cellSize) && touchStart == old(touchStart)
    {
      grid := GenerateMaze(Rows, Cols, random);
      pos := Origin;
      won := false;
    }

    /** A key press: a bound key moves the player, any other does nothing. */
    method KeyDown(key: string)
      requires Valid()
      modifies this
      ensures Valid()
      ensures KeyDirection(key).None? ==> pos == old(pos)
      ensures KeyDirection(key).Some? && !old(won) ==> pos == NextPos(grid, old(pos), KeyDirection(key).value)
      ensures grid == old(grid) && won == old(won)
      ensures cellSize == old(cellSize) && touchStart == old(touchStart)
    {
      var dir := KeyDirection(key);
      if dir.Some? {
        Move(dir.value);
      }
    }

    /** A finger touches the board at (`x`, `y`). */
    method TouchStart(x: real, y: real)
      modifies this
      ensures touchStart == Some((x, y))
      ensures grid == old(grid) && pos == old(pos) && won == old(won) && cellSize == old(cellSize)
    {
      touchStart := Some((x, y));
    }

    /** The finger leaves the board at (`x`, `y`): a long enough swipe moves
        the player along its longer axis; the touch is forgotten either way. */
    method TouchEnd(x: real, y: real)
      requires Valid()
      modifies this
      ensures Valid()
      ensures touchStart == None
      ensures old(touchStart).None? ==> pos == old(pos)
      ensures old(touchStart).Some? ==>
        var sw := Swipe(x - old(touchStart).value.0, y - old(touchStart).value.1);
        && (sw.None? ==> pos == old(pos))
        && (sw.Some? && !old(won) ==> pos == NextPos(grid, old(pos), sw.value))
      ensures grid == old(grid) && won == old(won) && cellSize == old(cellSize)
    {
      if touchStart.None? {
        return;
      }
      var start := touchStart.value;
      var dx := x - start.0;
      var dy := y - start.1;
      touchStart := None;
      var dir := Swipe(dx, dy);
      if dir.Some? {
        Move(dir.value);
      }
    }

    /** The window was resized to `width` x `height` pixels. */
    method Resize(width: int, height: int)
      modifies this
      ensures cellSize == CellSize(width, height)
      ensures grid == old(grid) && pos == old(pos) && won == old(won) && touchStart == old(touchStart)
    {
      cellSize := CellSize(width, height);
    }
  }

  /** While the game is not won, pressing the keys of a walk moves the player
      along it: a session replays `Follow`. */
  lemma MovesFollow(g: Grid, p: Pos, d: Dir, moves: seq<Dir>)
    requires BoundaryClosed(g) && InGrid(g, p)
    ensures Follow(g, p, [d] + moves) == Follow(g, NextPos(g, p, d), moves)
  {
    assert ([d] + moves)[1..] == moves;
  }
}
