/**
  The maze's data model: a grid of cells, each with four wall flags
  (index 0 = North, 1 = East, 2 = South, 3 = West; `true` = wall present)
  and a `visited` flag used while carving, plus the structural properties
  a generated maze has (closed boundary, symmetric walls, connectivity,
  number of passages).
*/
module MazeGrid {
  import opened Options

  datatype Dir = N | E | S | W

  /** A cell coordinate (row, column); the source's `[number, number]`. */
  datatype Pos = Pos(row: int, col: int)

  /** The four wall flags of one cell. */
  type Walls = s: seq<bool> | |s| == 4 witness [true, true, true, true]

  datatype Cell = Cell(walls: Walls, visited: bool)

  /** `Cell[][]`: rows of cells. */
  type Grid = seq<seq<Cell>>

  /** A passage between two neighbouring cells, named by its upper or left
      cell and the direction `E` or `S` from that cell. */
  datatype Edge = Edge(from: Pos, dir: Dir)

  /** The board the game plays on has `Rows` x `Cols` cells. */
  const Rows := 15
  const Cols := 15

  /** The player starts in the top-left cell ... */
  const Origin := Pos(0, 0)
  /** ... and wins on reaching the bottom-right one. */
  const Goal := Pos(Rows - 1, Cols - 1)

  /** Index of the wall facing `d` in a cell's wall flags. */
  function WallIndex(d: Dir): nat {
    match d
    case N => 0
    case E => 1
    case S => 2
    case W => 3
  }

  function Opposite(d: Dir): Dir {
    match d
    case N => S
    case E => W
    case S => N
    case W => E
  }

  /** The neighbouring coordinate in direction `d` (row grows southwards). */
  function Step(p: Pos, d: Dir): Pos {
    match d
    case N => Pos(p.row - 1, p.col)
    case E => Pos(p.row, p.col + 1)
    case S => Pos(p.row + 1, p.col)
    case W => Pos(p.row, p.col - 1)
  }

  lemma StepBack(p: Pos, d: Dir)
    ensures Step(Step(p, d), Opposite(d)) == p
    ensures Opposite(Opposite(d)) == d
  {
  }

  predicate InBounds(rows: int, cols: int, p: Pos) {
    0 <= p.row < rows && 0 <= p.col < cols
  }

  /** `g` has `rows` rows of `cols` cells each. */
  predicate Rect(g: Grid, rows: int, cols: int) {
    |g| == rows && forall r :: 0 <= r < rows ==> |g[r]| == cols
  }

  predicate InGrid(g: Grid, p: Pos) {
    0 <= p.row < |g| && 0 <= p.col < |g[p.row]|
  }

  predicate Wall(g: Grid, p: Pos, d: Dir)
    requires InGrid(g, p)
  {
    g[p.row][p.col].walls[WallIndex(d)]
  }

  predicate Visited(g: Grid, p: Pos)
    requires InGrid(g, p)
  {
    g[p.row][p.col].visited
  }

  predicate AllWalls(g: Grid, p: Pos)
    requires InGrid(g, p)
  {
    forall d :: Wall(g, p, d)
  }

  /** The outer walls of the grid are present. */
  ghost predicate BoundaryClosed(g: Grid) {
    forall p, d {:trigger InGrid(g, Step(p, d))} :: InGrid(g, p) && !InGrid(g, Step(p, d)) ==> Wall(g, p, d)
  }

  /** Two neighbouring cells agree on the wall they share. */
  ghost predicate Symmetric(g: Grid) {
    forall p, d {:trigger InGrid(g, Step(p, d))} :: InGrid(g, p) && InGrid(g, Step(p, d)) ==>
      Wall(g, p, d) == Wall(g, Step(p, d), Opposite(d))
  }

  /** One can step from `p` in direction `d` through an open wall to another cell. */
  predicate CanPass(g: Grid, p: Pos, d: Dir) {
    InGrid(g, p) && InGrid(g, Step(p, d)) && !Wall(g, p, d)
  }

  /** Where the walk `moves` from `p` ends, or `None` if it runs into a wall. */
  function Walk(g: Grid, p: Pos, moves: seq<Dir>): Option<Pos>
    decreases |moves|
  {
    if moves == [] then Some(p)
    else if CanPass(g, p, moves[0]) then Walk(g, Step(p, moves[0]), moves[1..])
    else None
  }

  /** Some walk through open walls leads from the origin to `p`. */
  ghost predicate Reachable(g: Grid, p: Pos) {
    exists moves :: Walk(g, Origin, moves) == Some(p)
  }

  /** All cells of a `rows` x `cols` grid. */
  ghost function Cells(rows: int, cols: int): set<Pos> {
    set r, c | 0 <= r < rows && 0 <= c < cols :: Pos(r, c)
  }

  /** The passages of `g`: the open walls, each counted once. */
  ghost function Passages(g: Grid): set<Edge> {
    set r, c, d | 0 <= r < |g| && 0 <= c < |g[r]| && d in {E, S}
                  && InGrid(g, Step(Pos(r, c), d)) && !Wall(g, Pos(r, c), d)
      :: Edge(Pos(r, c), d)
  }

  /** The name of the passage between `p` and its neighbour in direction `d`. */
  function Canon(p: Pos, d: Dir): Edge {
    if d == E || d == S then Edge(p, d) else Edge(Step(p, d), Opposite(d))
  }

  lemma CellsMembership(rows: int, cols: int, p: Pos)
    ensures p in Cells(rows, cols) <==> InBounds(rows, cols, p)
  {
    if InBounds(rows, cols, p) {
      assert p == Pos(p.row, p.col);
    }
  }

  /** The cells of row `r`. */
  ghost function RowCells(r: int, cols: int): set<Pos> {
    set c | 0 <= c < cols :: Pos(r, c)
  }

  /** A row of `cols` cells holds `cols` coordinates. */
  lemma {:induction false} RowCount(r: int, cols: int)
    requires cols >= 0
    ensures |RowCells(r, cols)| == cols
  {
    if cols > 0 {
      assert RowCells(r, cols) == RowCells(r, cols - 1) + {Pos(r, cols - 1)};
      RowCount(r, cols - 1);
    } else {
      assert RowCells(r, cols) == {};
    }
  }

  /** The cells of `rows` rows are those of the first `rows - 1` rows and,
      apart from them, those of the last row. */
  lemma CellsSplit(rows: int, cols: int)
    requires rows > 0
    ensures Cells(rows, cols) == Cells(rows - 1, cols) + RowCells(rows - 1, cols)
    ensures Cells(rows - 1, cols) !! RowCells(rows - 1, cols)
  {
    var last := RowCells(rows - 1, cols);
    forall p ensures p in Cells(rows, cols) <==> p in Cells(rows - 1, cols) || p in last {
      CellsMembership(rows, cols, p);
      CellsMembership(rows - 1, cols, p);
      if p.row == rows - 1 && 0 <= p.col < cols {
        assert p == Pos(rows - 1, p.col);
      }
    }
    forall p | p in last ensures p !in Cells(rows - 1, cols) {
      CellsMembership(rows - 1, cols, p);
    }
  }

  /** A `rows` x `cols` grid has `rows * cols` cells. */
  lemma {:induction false} CellsCount(rows: int, cols: int)
    requires rows >= 0 && cols >= 0
    ensures |Cells(rows, cols)| == rows * cols
  {
    if rows > 0 {
      CellsSplit(rows, cols);
      RowCount(rows - 1, cols);
      CellsCount(rows - 1, cols);
      assert (rows - 1) * cols + cols == rows * cols;
    } else {
      assert Cells(rows, cols) == {};
    }
  }
}
