/**
  `drawMaze` (src/components/MazeView.tsx) as a pure function from the
  maze, the cell size and the player's cell to the list of drawing
  commands it issues on the canvas, in order.
*/
module MazeRender {
  import opened MazeGrid

  datatype Point = Point(x: int, y: int)

  /** The emoji drawn on the board. */
  datatype Marker = Swords | Wizard | TopHat

  datatype DrawCmd =
    | FillRect(color: string, x: int, y: int, w: int, h: int)
    | Line(color: string, width: int, from: Point, to: Point)
    | StrokeRect(color: string, width: int, x: int, y: int, w: int, h: int)
    | Glyph(marker: Marker, cell: Pos)

  const Background := "#e0f2fe"
  const GoalFill := "#fef9c3"
  const PlayerFill := "#ede9fe"
  const WallColor := "#6d28d9"
  const WallWidth := 2
  const BorderColor := "#5b21b6"
  const BorderWidth := 3

  /** The stroke for the wall of cell `p` facing `d`: the top side left to
      right, the right side downwards, the bottom side right to left and
      the left side upwards. */
  function WallLine(p: Pos, d: Dir, cs: int): DrawCmd {
    var x, y := p.col * cs, p.row * cs;
    match d
    case N => Line(WallColor, WallWidth, Point(x, y), Point(x + cs, y))
    case E => Line(WallColor, WallWidth, Point(x + cs, y), Point(x + cs, y + cs))
    case S => Line(WallColor, WallWidth, Point(x + cs, y + cs), Point(x, y + cs))
    case W => Line(WallColor, WallWidth, Point(x, y + cs), Point(x, y))
  }

  /** Which wall a stroke stands for, read back from its end points. */
  function DecodeLine(line: DrawCmd, cs: int): (w: (Pos, Dir))
    requires line.Line? && cs > 0
  {
    var a, b := line.from, line.to;
    if a.y == b.y && a.x < b.x then (Pos(a.y / cs, a.x / cs), N)
    else if a.x == b.x && a.y < b.y then (Pos(a.y / cs, a.x / cs - 1), E)
    else if a.y == b.y then (Pos(a.y / cs - 1, b.x / cs), S)
    else (Pos(b.y / cs, a.x / cs), W)
  }

  /** A multiple of `cs` smaller than `cs` is zero. */
  lemma SmallMultiple(j: int, cs: int)
    requires cs > 0 && 0 <= j * cs < cs
    ensures j == 0
  {
  }

  lemma DivExact(k: int, cs: int)
    requires cs > 0
    ensures (k * cs) / cs == k && (k * cs + cs) / cs == k + 1
  {
    var q, m := (k * cs) / cs, (k * cs) % cs;
    assert k * cs == q * cs + m;
    assert (k - q) * cs == m;
    SmallMultiple(k - q, cs);

    assert k * cs + cs == (k + 1) * cs;
    var q', m' := ((k + 1) * cs) / cs, ((k + 1) * cs) % cs;
    assert (k + 1) * cs == q' * cs + m';
    assert (k + 1 - q') * cs == m';
    SmallMultiple(k + 1 - q', cs);

  }

  /** Every stroke can be read back: at a positive cell size the drawing
      determines the wall it was drawn for. */
  lemma DecodeWallLine(p: Pos, d: Dir, cs: int)
    requires cs > 0
    ensures DecodeLine(WallLine(p, d, cs), cs) == (p, d)
  {
    DivExact(p.col, cs);
    DivExact(p.row, cs);
  }

  /** The strokes for the present walls of cell `p`, in N, E, S, W order:
      the body of the inner drawing loop. */
  function CellWalls(g: Grid, p: Pos, cs: int): seq<DrawCmd>
    requires InGrid(g, p)
  {
    (if Wall(g, p, N) then [WallLine(p, N, cs)] else [])
      + (if Wall(g, p, E) then [WallLine(p, E, cs)] else [])
      + (if Wall(g, p, S) then [WallLine(p, S, cs)] else [])
      + (if Wall(g, p, W) then [WallLine(p, W, cs)] else [])
  }

  /** A cell's strokes are the strokes of its present walls. */
  lemma CellWallsExact(g: Grid, p: Pos, cs: int, x: DrawCmd)
    requires InGrid(g, p)
    ensures x in CellWalls(g, p, cs) <==> exists d :: Wall(g, p, d) && x == WallLine(p, d, cs)
  {
  }

  /** What a counted loop from `lo` up to `hi` emits when step `i` emits
      `body(i)`. */
  function Loop<T>(body: int -> seq<T>, lo: int, hi: int): seq<T>
    decreases hi - lo
  {
    if lo >= hi then [] else body(lo) + Loop(body, lo + 1, hi)
  }

  /** A loop emits exactly what its steps emit. */
  lemma {:induction false} LoopMember<T>(body: int -> seq<T>, lo: int, hi: int, x: T)
    ensures x in Loop(body, lo, hi) <==> exists i :: lo <= i < hi && x in body(i)
    decreases hi - lo
  {
    if lo < hi {
      var rest := Loop(body, lo + 1, hi);
      assert Loop(body, lo, hi) == body(lo) + rest;
      LoopMember(body, lo + 1, hi, x);
      if x in body(lo) + rest {
        if x in body(lo) {
          assert lo <= lo < hi && x in body(lo);
        } else {
          assert x in rest;
        }
      }
      if exists i :: lo <= i < hi && x in body(i) {
        var i :| lo <= i < hi && x in body(i);
        if i != lo {
          assert lo + 1 <= i < hi;
        }
      }
    }
  }

  /** Step `c` of the loop over the columns of row `r`; the guard holds for
      every column of a rectangular grid. */
  function ColumnStep(g: Grid, r: int, cs: int): int -> seq<DrawCmd> {
    c => if InGrid(g, Pos(r, c)) then CellWalls(g, Pos(r, c), cs) else []
  }

  /** Step `r` of the loop over the rows: the loop over the row's columns. */
  function RowStep(g: Grid, cols: int, cs: int): int -> seq<DrawCmd> {
    r => Loop(ColumnStep(g, r, cs), 0, cols)
  }

  /** The wall strokes of the two nested loops, row by row. */
  function GridWalls(g: Grid, cols: int, cs: int): seq<DrawCmd> {
    Loop(RowStep(g, cols, cs), 0, |g|)
  }

  /** Every stroke the nested loops emit is that of some cell. */
  lemma GridWallsSound(g: Grid, cols: int, cs: int, x: DrawCmd)
    requires x in GridWalls(g, cols, cs)
    ensures exists q :: InGrid(g, q) && x in CellWalls(g, q, cs)
  {
    LoopMember(RowStep(g, cols, cs), 0, |g|, x);
    var r :| 0 <= r < |g| && x in RowStep(g, cols, cs)(r);
    LoopMember(ColumnStep(g, r, cs), 0, cols, x);
    var c :| 0 <= c < cols && x in ColumnStep(g, r, cs)(c);
    assert InGrid(g, Pos(r, c)) && x in CellWalls(g, Pos(r, c), cs);
  }

  /** The nested loops emit every stroke of every cell of a rectangular grid. */
  lemma GridWallsComplete(g: Grid, cols: int, cs: int, q: Pos, x: DrawCmd)
    requires Rect(g, |g|, cols) && InGrid(g, q) && x in CellWalls(g, q, cs)
    ensures x in GridWalls(g, cols, cs)
  {
    assert |g[q.row]| == cols;
    LoopMember(ColumnStep(g, q.row, cs), 0, cols, x);
    assert x in ColumnStep(g, q.row, cs)(q.col);
    LoopMember(RowStep(g, cols, cs), 0, |g|, x);
    assert x in RowStep(g, cols, cs)(q.row);
  }

  /** Every wall stroke is a line. */
  lemma GridWallsLines(g: Grid, cols: int, cs: int)
    ensures forall x :: x in GridWalls(g, cols, cs) ==> x.Line?
  {
    forall x | x in GridWalls(g, cols, cs) ensures x.Line? {
      GridWallsSound(g, cols, cs, x);
      var q :| InGrid(g, q) && x in CellWalls(g, q, cs);
      CellWallsExact(g, q, cs, x);
    }
  }

  /**
    The commands `drawMaze` issues: the background, the goal and player
    highlights, one stroke per present wall, the outer border, then the
    goal's two markers and the player's marker.
  */
  function DrawMaze(g: Grid, cs: int, player: Pos): (cmds: seq<DrawCmd>)
    requires |g| > 0 && Rect(g, |g|, |g[0]|)
    ensures |cmds| >= 7
    ensures cmds[0] == FillRect(Background, 0, 0, |g[0]| * cs, |g| * cs)
    ensures cmds[1] == FillRect(GoalFill, (|g[0]| - 1) * cs + 1, (|g| - 1) * cs + 1, cs - 2, cs - 2)
    ensures cmds[2] == FillRect(PlayerFill, player.col * cs + 1, player.row * cs + 1, cs - 2, cs - 2)
    ensures forall i :: 3 <= i < |cmds| - 4 ==> cmds[i].Line?
    ensures cmds[|cmds| - 4] == StrokeRect(BorderColor, BorderWidth, 0, 0, |g[0]| * cs, |g| * cs)
    ensures cmds[|cmds| - 3] == Glyph(Swords, Pos(|g| - 1, |g[0]| - 1))
    ensures cmds[|cmds| - 2] == Glyph(Wizard, Pos(|g| - 1, |g[0]| - 1))
    ensures cmds[|cmds| - 1] == Glyph(TopHat, player)
  {
    var rows, cols := |g|, |g[0]|;
    var goal := Pos(rows - 1, cols - 1);
    var walls := GridWalls(g, cols, cs);
    GridWallsLines(g, cols, cs);
    [ FillRect(Background, 0, 0, cols * cs, rows * cs),
      FillRect(GoalFill, goal.col * cs + 1, goal.row * cs + 1, cs - 2, cs - 2),
      FillRect(PlayerFill, player.col * cs + 1, player.row * cs + 1, cs - 2, cs - 2) ]
    + walls
    + [ StrokeRect(BorderColor, BorderWidth, 0, 0, cols * cs, rows * cs),
        Glyph(Swords, goal), Glyph(Wizard, goal), Glyph(TopHat, player) ]
  }

  /** The only lines `DrawMaze` draws are the wall strokes. */
  lemma DrawnLines(g: Grid, cs: int, player: Pos, x: DrawCmd)
    requires |g| > 0 && Rect(g, |g|, |g[0]|) && x.Line?
    ensures x in DrawMaze(g, cs, player) <==> x in GridWalls(g, |g[0]|, cs)
  {
  }

  /** A wall is stroked exactly when it is present: open walls draw nothing. */
  lemma WallDrawnIffPresent(g: Grid, cs: int, player: Pos, p: Pos, d: Dir)
    requires |g| > 0 && Rect(g, |g|, |g[0]|) && cs > 0 && InGrid(g, p)
    ensures WallLine(p, d, cs) in DrawMaze(g, cs, player) <==> Wall(g, p, d)
  {
    var line := WallLine(p, d, cs);
    DrawnLines(g, cs, player, line);
    CellWallsExact(g, p, cs, line);
    if Wall(g, p, d) {
      GridWallsComplete(g, |g[0]|, cs, p, line);
    }
    if line in GridWalls(g, |g[0]|, cs) {
      GridWallsSound(g, |g[0]|, cs, line);
      var q :| InGrid(g, q) && line in CellWalls(g, q, cs);
      CellWallsExact(g, q, cs, line);
      var e :| Wall(g, q, e) && line == WallLine(q, e, cs);
      DecodeWallLine(p, d, cs);
      DecodeWallLine(q, e, cs);
    }
  }
}
