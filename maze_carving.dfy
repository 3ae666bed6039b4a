/**
  The steps of `generateMaze` (src/components/MazeView.tsx) as functions on
  grids, and the invariant its depth-first carving loop keeps, with one
  lemma per kind of iteration.
*/
module MazeCarving {
  import opened Options
  import opened MazeGrid

  /** A fresh grid: every cell has all four walls and is unvisited. */
  function InitialGrid(rows: nat, cols: nat): (g: Grid)
    ensures Rect(g, rows, cols)
    ensures forall p :: InGrid(g, p) ==> AllWalls(g, p) && !Visited(g, p)
  {
    seq(rows, r => seq(cols, c => Cell([true, true, true, true], false)))
  }

  /** Clears the wall of cell `p` facing `d`, and nothing else. */
  function ClearWall(g: Grid, p: Pos, d: Dir): (h: Grid)
    requires InGrid(g, p)
    ensures |h| == |g| && forall r :: 0 <= r < |g| ==> |h[r]| == |g[r]|
    ensures forall q, e :: InGrid(g, q) ==> Wall(h, q, e) == (Wall(g, q, e) && !(q == p && e == d))
    ensures forall q :: InGrid(g, q) ==> Visited(h, q) == Visited(g, q)
  {
    var cell := g[p.row][p.col];
    g[p.row := g[p.row][p.col := cell.(walls := cell.walls[WallIndex(d) := false])]]
  }

  /** Marks cell `p` visited, and changes nothing else. */
  function MarkVisited(g: Grid, p: Pos): (h: Grid)
    requires InGrid(g, p)
    ensures |h| == |g| && forall r :: 0 <= r < |g| ==> |h[r]| == |g[r]|
    ensures forall q, e :: InGrid(g, q) ==> Wall(h, q, e) == Wall(g, q, e)
    ensures forall q :: InGrid(g, q) ==> Visited(h, q) == (Visited(g, q) || q == p)
  {
    g[p.row := g[p.row][p.col := g[p.row][p.col].(visited := true)]]
  }

  /** The source's neighbour test: in bounds and not yet visited. */
  predicate Undiscovered(g: Grid, rows: int, cols: int, q: Pos)
    requires Rect(g, rows, cols)
  {
    InBounds(rows, cols, q) && !g[q.row][q.col].visited
  }

  function Keep(g: Grid, rows: int, cols: int, p: Pos, d: Dir): seq<Dir>
    requires Rect(g, rows, cols)
  {
    if Undiscovered(g, rows, cols, Step(p, d)) then [d] else []
  }

  /** The directions from `p` to its undiscovered neighbours, in N, E, S, W order. */
  function Candidates(g: Grid, rows: int, cols: int, p: Pos): (ds: seq<Dir>)
    requires Rect(g, rows, cols)
    ensures forall d :: d in ds <==> Undiscovered(g, rows, cols, Step(p, d))
    ensures forall i, j :: 0 <= i < j < |ds| ==> WallIndex(ds[i]) < WallIndex(ds[j])
  {
    Keep(g, rows, cols, p, N) + Keep(g, rows, cols, p, E)
      + Keep(g, rows, cols, p, S) + Keep(g, rows, cols, p, W)
  }

  /** `Math.floor(x * n)` for a draw `x` in [0, 1): always a valid index. */
  function PickIndex(x: real, n: nat): (i: nat)
    requires 0.0 <= x < 1.0 && n > 0
    ensures i < n
    ensures x == 0.0 ==> i == 0
  {
    assert 0.0 <= x * n as real < n as real by {
      assert x * n as real <= 1.0 * n as real;
    }
    (x * n as real).Floor
  }

  /** Every in-bounds neighbour of `p` has been visited. */
  ghost predicate Explored(rows: int, cols: int, visited: set<Pos>, p: Pos) {
    forall d :: InBounds(rows, cols, Step(p, d)) ==> Step(p, d) in visited
  }

  /** `p` was carved from the cell behind it in direction `d`, through an
      open wall, and that cell was discovered earlier. */
  ghost predicate ParentLink(g: Grid, depth: map<Pos, nat>, p: Pos, d: Dir) {
    var q := Step(p, Opposite(d));
    p in depth && q in depth && CanPass(g, q, d) && Step(q, d) == p && depth[q] < depth[p]
  }

  /** The two writes of one carve: the wall of `p` facing `d` and the
      neighbour's wall facing back. */
  function Carve(g: Grid, p: Pos, d: Dir): Grid
    requires InGrid(g, p) && InGrid(g, Step(p, d))
  {
    ClearWall(ClearWall(g, p, d), Step(p, d), Opposite(d))
  }

  lemma CarveWalls(g: Grid, p: Pos, d: Dir)
    requires InGrid(g, p) && InGrid(g, Step(p, d))
    ensures var h := Carve(g, p, d);
      && |h| == |g| && (forall r :: 0 <= r < |g| ==> |h[r]| == |g[r]|)
      && (forall q, e :: InGrid(g, q) ==>
            Wall(h, q, e) == (Wall(g, q, e) && !(q == p && e == d) && !(q == Step(p, d) && e == Opposite(d))))
      && (forall q :: InGrid(g, q) ==> Visited(h, q) == Visited(g, q))
  {
  }

  /** A carve between two in-bounds neighbours keeps the boundary closed
      and the shared walls in agreement. */
  lemma CarveKeepsBoundary(g: Grid, p: Pos, d: Dir)
    requires InGrid(g, p) && InGrid(g, Step(p, d)) && BoundaryClosed(g)
    ensures BoundaryClosed(Carve(g, p, d))
  {
    var h := Carve(g, p, d);
    CarveWalls(g, p, d);
    forall q, e | InGrid(h, q) && !InGrid(h, Step(q, e)) ensures Wall(h, q, e) {
      assert InGrid(g, q) && !InGrid(g, Step(q, e));
    }
  }

  lemma CarveKeepsSymmetry(g: Grid, p: Pos, d: Dir)
    requires InGrid(g, p) && InGrid(g, Step(p, d)) && Symmetric(g)
    ensures Symmetric(Carve(g, p, d))
  {
    var h := Carve(g, p, d);
    CarveWalls(g, p, d);
    StepBack(p, d);
    forall q, e | InGrid(h, q) && InGrid(h, Step(q, e))
      ensures Wall(h, q, e) == Wall(h, Step(q, e), Opposite(e))
    {
      assert InGrid(g, Step(q, e));
      StepBack(q, e);
    }
  }

  lemma CarveKeepsStructure(g: Grid, p: Pos, d: Dir)
    requires InGrid(g, p) && InGrid(g, Step(p, d))
    requires BoundaryClosed(g) && Symmetric(g)
    ensures BoundaryClosed(Carve(g, p, d)) && Symmetric(Carve(g, p, d))
  {
    CarveKeepsBoundary(g, p, d);
    CarveKeepsSymmetry(g, p, d);
  }

  /** Boundary and symmetry depend only on the walls. */
  lemma SameWallsKeepStructure(g: Grid, h: Grid)
    requires SameShape(g, h)
    requires forall q, e :: InGrid(g, q) ==> Wall(h, q, e) == Wall(g, q, e)
    requires BoundaryClosed(g) && Symmetric(g)
    ensures BoundaryClosed(h) && Symmetric(h)
  {
    forall q, e | InGrid(h, q) && !InGrid(h, Step(q, e)) ensures Wall(h, q, e) {
      assert InGrid(g, q) && !InGrid(g, Step(q, e));
    }
    forall q, e | InGrid(h, q) && InGrid(h, Step(q, e))
      ensures Wall(h, q, e) == Wall(h, Step(q, e), Opposite(e))
    {
      assert InGrid(g, Step(q, e));
    }
  }

  lemma PassagesMembership(g: Grid, x: Edge)
    ensures x in Passages(g) <==> (x.dir == E || x.dir == S) && CanPass(g, x.from, x.dir)
  {
    if (x.dir == E || x.dir == S) && CanPass(g, x.from, x.dir) {
      assert x == Edge(Pos(x.from.row, x.from.col), x.dir);
    }
  }

  /** A grid with no open wall has no passage. */
  lemma NoPassages(g: Grid)
    requires forall p :: InGrid(g, p) ==> AllWalls(g, p)
    ensures Passages(g) == {}
  {
    forall x | x in Passages(g) ensures false {
      PassagesMembership(g, x);
    }
  }

  /** Two grids of the same shape with the same walls have the same passages. */
  lemma SameWallsSamePassages(g: Grid, h: Grid)
    requires |h| == |g| && forall r :: 0 <= r < |g| ==> |h[r]| == |g[r]|
    requires forall q, e :: InGrid(g, q) ==> Wall(h, q, e) == Wall(g, q, e)
    ensures Passages(h) == Passages(g)
  {
    forall x ensures x in Passages(h) <==> x in Passages(g) {
      PassagesMembership(g, x);
      PassagesMembership(h, x);
    }
  }

  /** The wall a passage record stands for is the one a carve of (p, d) clears. */
  lemma CanonWall(g: Grid, p: Pos, d: Dir)
    requires InGrid(g, p) && InGrid(g, Step(p, d))
    ensures var x := Canon(p, d);
      && (x.dir == E || x.dir == S)
      && InGrid(g, x.from) && Step(x.from, x.dir) in {p, Step(p, d)}
      && InGrid(g, Step(x.from, x.dir))
      && ((x.from == p && x.dir == d) || (x.from == Step(p, d) && x.dir == Opposite(d)))
  {
    StepBack(p, d);
  }

  /** One edge at a time: after a carve of (p, d), an edge is a passage
      exactly when it was one before or it is the carved edge. */
  lemma CarvePassageAt(g: Grid, p: Pos, d: Dir, x: Edge)
    requires InGrid(g, p) && InGrid(g, Step(p, d))
    ensures x in Passages(Carve(g, p, d)) <==> x in Passages(g) || x == Canon(p, d)
  {
    var h := Carve(g, p, d);
    CarveWalls(g, p, d);
    CanonWall(g, p, d);
    PassagesMembership(g, x);
    PassagesMembership(h, x);
    if x != Canon(p, d) && (x.dir == E || x.dir == S) && InGrid(g, x.from) {
      assert !(x.from == p && x.dir == d);
      assert !(x.from == Step(p, d) && x.dir == Opposite(d));
      assert Wall(h, x.from, x.dir) == Wall(g, x.from, x.dir);
    }
  }

  /** Carving towards a cell that still has all its walls opens exactly one new passage. */
  lemma CarveAddsPassage(g: Grid, p: Pos, d: Dir)
    requires InGrid(g, p) && InGrid(g, Step(p, d))
    requires Symmetric(g) && AllWalls(g, Step(p, d))
    ensures Canon(p, d) !in Passages(g)
    ensures Passages(Carve(g, p, d)) == Passages(g) + {Canon(p, d)}
  {
    StepBack(p, d);
    CanonWall(g, p, d);
    PassagesMembership(g, Canon(p, d));
    assert Wall(g, p, d) == Wall(g, Step(p, d), Opposite(d));
    forall x ensures x in Passages(Carve(g, p, d)) <==> x in Passages(g) + {Canon(p, d)} {
      CarvePassageAt(g, p, d, x);
    }
  }

  /** Walks compose: a walk to `q` followed by one passable step. */
  lemma {:induction false} WalkSnoc(g: Grid, s: Pos, moves: seq<Dir>, q: Pos, d: Dir)
    requires Walk(g, s, moves) == Some(q) && CanPass(g, q, d)
    ensures Walk(g, s, moves + [d]) == Some(Step(q, d))
    decreases |moves|
  {
    if moves == [] {
      assert moves + [d] == [d];
    } else {
      assert (moves + [d])[1..] == moves[1..] + [d];
      WalkSnoc(g, Step(s, moves[0]), moves[1..], q, d);
    }
  }

  /** `p` has a recorded parent link. */
  ghost predicate Linked(g: Grid, depth: map<Pos, nat>, via: map<Pos, Dir>, p: Pos) {
    p in via && ParentLink(g, depth, p, via[p])
  }

  /** Following parent links back to the origin yields a walk from the origin. */
  lemma {:induction false} WalkFromOrigin(g: Grid, depth: map<Pos, nat>, via: map<Pos, Dir>, p: Pos)
    returns (moves: seq<Dir>)
    requires p in depth && Origin in depth
    requires forall x {:trigger Linked(g, depth, via, x)} :: x in depth && x != Origin ==> Linked(g, depth, via, x)
    ensures Walk(g, Origin, moves) == Some(p)
    decreases depth[p]
  {
    if p == Origin {
      moves := [];
    } else {
      assert Linked(g, depth, via, p);
      var d := via[p];
      var q := Step(p, Opposite(d));
      var m := WalkFromOrigin(g, depth, via, q);
      WalkSnoc(g, Origin, m, q, d);
      moves := m + [d];
    }
  }

  /** A set of cells that holds the origin and every in-bounds neighbour of
      each of its members holds every cell. */
  lemma {:induction false} ClosedCoversAll(rows: int, cols: int, visited: set<Pos>, p: Pos)
    requires Origin in visited
    requires forall x {:trigger Explored(rows, cols, visited, x)} :: x in visited ==> Explored(rows, cols, visited, x)
    requires InBounds(rows, cols, p)
    ensures p in visited
    decreases p.row + p.col
  {
    if p.row > 0 {
      var q := Pos(p.row - 1, p.col);
      ClosedCoversAll(rows, cols, visited, q);
      assert Explored(rows, cols, visited, q) && Step(q, S) == p;
    } else if p.col > 0 {
      var q := Pos(p.row, p.col - 1);
      ClosedCoversAll(rows, cols, visited, q);
      assert Explored(rows, cols, visited, q) && Step(q, E) == p;
    } else {
      assert p == Origin;
    }
  }

  /** What the carving loop keeps true of the grid and the set of visited cells. */
  ghost predicate GridInv(grid: Grid, rows: int, cols: int, visited: set<Pos>) {
    && Rect(grid, rows, cols)
    && BoundaryClosed(grid) && Symmetric(grid)
    && Origin in visited
    && (forall p :: p in visited ==> InBounds(rows, cols, p))
    && (forall p :: InGrid(grid, p) ==> (Visited(grid, p) <==> p in visited))
    && (forall p :: InGrid(grid, p) && p !in visited ==> AllWalls(grid, p))
    && |Passages(grid)| == |visited| - 1
  }

  /** Every stacked cell is visited; a visited cell off the stack has no undiscovered neighbour. */
  ghost predicate StackInv(rows: int, cols: int, stack: seq<Pos>, visited: set<Pos>) {
    && (forall i :: 0 <= i < |stack| ==> stack[i] in visited)
    && (forall p {:trigger Explored(rows, cols, visited, p)} ::
          p in visited && p !in stack ==> Explored(rows, cols, visited, p))
  }

  /** Every visited cell but the origin records the carve that discovered it. */
  ghost predicate TreeInv(grid: Grid, visited: set<Pos>, via: map<Pos, Dir>, depth: map<Pos, nat>) {
    && depth.Keys == visited
    && via.Keys == visited - {Origin}
    && (forall p {:trigger Linked(grid, depth, via, p)} :: p in via ==> Linked(grid, depth, via, p))
  }

  /** `h` has the shape of `g`. */
  ghost predicate SameShape(g: Grid, h: Grid) {
    |h| == |g| && forall r :: 0 <= r < |g| ==> |h[r]| == |g[r]|
  }

  /** The grid after one iteration that discovers `Step(cur, d)` (source lines 52-54). */
  function CarveAndMark(g: Grid, cur: Pos, d: Dir): (h: Grid)
    requires InGrid(g, cur) && InGrid(g, Step(cur, d))
    ensures SameShape(g, h)
    ensures forall q, e :: InGrid(g, q) ==>
      Wall(h, q, e) == (Wall(g, q, e) && !(q == cur && e == d) && !(q == Step(cur, d) && e == Opposite(d)))
    ensures forall q :: InGrid(g, q) ==> Visited(h, q) == (Visited(g, q) || q == Step(cur, d))
  {
    CarveWalls(g, cur, d);
    MarkVisited(Carve(g, cur, d), Step(cur, d))
  }

  lemma CarveAndMarkStructure(g: Grid, cur: Pos, d: Dir)
    requires InGrid(g, cur) && InGrid(g, Step(cur, d))
    requires BoundaryClosed(g) && Symmetric(g)
    ensures BoundaryClosed(CarveAndMark(g, cur, d)) && Symmetric(CarveAndMark(g, cur, d))
  {
    var c := Carve(g, cur, d);
    CarveKeepsStructure(g, cur, d);
    CarveWalls(g, cur, d);
    var h := CarveAndMark(g, cur, d);
    assert h == MarkVisited(c, Step(cur, d));
    SameWallsKeepStructure(c, h);
  }

  lemma CarveAndMarkPassages(g: Grid, cur: Pos, d: Dir)
    requires InGrid(g, cur) && InGrid(g, Step(cur, d))
    requires Symmetric(g) && AllWalls(g, Step(cur, d))
    ensures |Passages(CarveAndMark(g, cur, d))| == |Passages(g)| + 1
  {
    var c := Carve(g, cur, d);
    CarveAddsPassage(g, cur, d);
    CarveWalls(g, cur, d);
    var h := CarveAndMark(g, cur, d);
    assert h == MarkVisited(c, Step(cur, d));
    SameWallsSamePassages(c, h);
  }

  lemma PushKeepsFlags(grid: Grid, rows: int, cols: int, visited: set<Pos>, cur: Pos, d: Dir)
    requires GridInv(grid, rows, cols, visited)
    requires cur in visited && Undiscovered(grid, rows, cols, Step(cur, d))
    ensures var h := CarveAndMark(grid, cur, d);
      && (forall p :: InGrid(h, p) ==> (Visited(h, p) <==> p in visited + {Step(cur, d)}))
      && (forall p :: InGrid(h, p) && p !in visited + {Step(cur, d)} ==> AllWalls(h, p))
  {
  }

  lemma PushKeepsCount(grid: Grid, rows: int, cols: int, visited: set<Pos>, cur: Pos, d: Dir)
    requires GridInv(grid, rows, cols, visited)
    requires cur in visited && Undiscovered(grid, rows, cols, Step(cur, d))
    ensures |Passages(CarveAndMark(grid, cur, d))| == |visited + {Step(cur, d)}| - 1
  {
    var next := Step(cur, d);
    assert !Visited(grid, next);
    assert next !in visited;
    assert AllWalls(grid, next);
    CarveAndMarkPassages(grid, cur, d);
    assert |visited + {next}| == |visited| + 1;
  }

  lemma PushKeepsGridInv(grid: Grid, rows: int, cols: int, visited: set<Pos>, cur: Pos, d: Dir)
    requires GridInv(grid, rows, cols, visited)
    requires cur in visited && Undiscovered(grid, rows, cols, Step(cur, d))
    ensures GridInv(CarveAndMark(grid, cur, d), rows, cols, visited + {Step(cur, d)})
  {
    CarveAndMarkStructure(grid, cur, d);
    PushKeepsFlags(grid, rows, cols, visited, cur, d);
    PushKeepsCount(grid, rows, cols, visited, cur, d);
  }

  /** Carving only opens walls: every passable step stays passable. */
  lemma CarveAndMarkKeepsPassable(g: Grid, cur: Pos, d: Dir, q: Pos, e: Dir)
    requires InGrid(g, cur) && InGrid(g, Step(cur, d))
    requires CanPass(g, q, e)
    ensures CanPass(CarveAndMark(g, cur, d), q, e)
  {
  }

  lemma PushKeepsTreeInv(grid: Grid, visited: set<Pos>, via: map<Pos, Dir>, depth: map<Pos, nat>,
                         cur: Pos, d: Dir)
    requires InGrid(grid, cur) && InGrid(grid, Step(cur, d))
    requires cur in visited && Step(cur, d) !in visited && Origin in visited
    requires TreeInv(grid, visited, via, depth)
    ensures TreeInv(CarveAndMark(grid, cur, d), visited + {Step(cur, d)},
                    via[Step(cur, d) := d], depth[Step(cur, d) := depth[cur] + 1])
  {
    var next := Step(cur, d);
    var h := CarveAndMark(grid, cur, d);
    StepBack(cur, d);
    var via', depth' := via[next := d], depth[next := depth[cur] + 1];
    forall p | p in via' ensures Linked(h, depth', via', p) {
      if p != next {
        assert Linked(grid, depth, via, p);
        CarveAndMarkKeepsPassable(grid, cur, d, Step(p, Opposite(via[p])), via[p]);
      } else {
        assert CanPass(h, cur, d);
      }
    }
    assert depth'.Keys == visited + {next};
    assert via'.Keys == visited + {next} - {Origin};
  }

  lemma PushKeepsStackInv(rows: int, cols: int, stack: seq<Pos>, visited: set<Pos>, next: Pos)
    requires StackInv(rows, cols, stack, visited)
    ensures StackInv(rows, cols, stack + [next], visited + {next})
  {
    var visited' := visited + {next};
    forall p | p in visited' && p !in stack + [next] ensures Explored(rows, cols, visited', p) {
      assert Explored(rows, cols, visited, p);
    }
  }

  lemma PopKeepsStackInv(rows: int, cols: int, stack: seq<Pos>, visited: set<Pos>)
    requires StackInv(rows, cols, stack, visited) && |stack| > 0
    requires Explored(rows, cols, visited, stack[|stack| - 1])
    ensures StackInv(rows, cols, stack[..|stack| - 1], visited)
  {
    var rest := stack[..|stack| - 1];
    assert stack == rest + [stack[|stack| - 1]];
  }

  /** The carving loop's invariant. */
  ghost predicate LoopInv(grid: Grid, rows: int, cols: int, stack: seq<Pos>, visited: set<Pos>,
                          via: map<Pos, Dir>, depth: map<Pos, nat>) {
    && GridInv(grid, rows, cols, visited)
    && StackInv(rows, cols, stack, visited)
    && TreeInv(grid, visited, via, depth)
  }

  /** Before the loop: only the origin is visited and stacked, and no wall is open. */
  lemma InitialState(rows: int, cols: int)
    requires rows >= 1 && cols >= 1
    ensures InGrid(InitialGrid(rows, cols), Origin)
    ensures LoopInv(MarkVisited(InitialGrid(rows, cols), Origin), rows, cols, [Origin], {Origin},
                    map[], map[Origin := 0])
  {
    var g0 := InitialGrid(rows, cols);
    var g := MarkVisited(g0, Origin);
    NoPassages(g0);
    SameWallsSamePassages(g0, g);
    assert BoundaryClosed(g) && Symmetric(g);
  }

  /** An iteration whose top cell has no undiscovered neighbour pops it. */
  lemma PopStep(grid: Grid, rows: int, cols: int, stack: seq<Pos>, visited: set<Pos>,
                via: map<Pos, Dir>, depth: map<Pos, nat>)
    requires LoopInv(grid, rows, cols, stack, visited, via, depth) && |stack| > 0
    requires Candidates(grid, rows, cols, stack[|stack| - 1]) == []
    ensures LoopInv(grid, rows, cols, stack[..|stack| - 1], visited, via, depth)
  {
    var cur := stack[|stack| - 1];
    forall d | InBounds(rows, cols, Step(cur, d)) ensures Step(cur, d) in visited {
      assert !Undiscovered(grid, rows, cols, Step(cur, d));
    }
    PopKeepsStackInv(rows, cols, stack, visited);
  }

  /** A direction picked from the candidate list leads from the top cell
      to an in-bounds cell not yet visited. */
  lemma PushReady(grid: Grid, rows: int, cols: int, stack: seq<Pos>, visited: set<Pos>,
                  via: map<Pos, Dir>, depth: map<Pos, nat>, d: Dir)
    requires LoopInv(grid, rows, cols, stack, visited, via, depth) && |stack| > 0
    requires d in Candidates(grid, rows, cols, stack[|stack| - 1])
    ensures var cur := stack[|stack| - 1];
      && InGrid(grid, cur) && InGrid(grid, Step(cur, d))
      && Step(cur, d) in Cells(rows, cols) - visited
  {
    var cur := stack[|stack| - 1];
    var next := Step(cur, d);
    assert cur in visited;
    assert Undiscovered(grid, rows, cols, next);
    assert InGrid(grid, next) && InGrid(grid, cur);
    assert !Visited(grid, next);
    CellsMembership(rows, cols, next);
  }

  /** An iteration that picks direction `d` from the top cell carves into
      the neighbour there, marks it visited and pushes it (primed names are
      the state after the iteration). */
  lemma PushStep(grid: Grid, rows: int, cols: int, stack: seq<Pos>, visited: set<Pos>,
                 via: map<Pos, Dir>, depth: map<Pos, nat>, cur: Pos, d: Dir, next: Pos,
                 grid': Grid, stack': seq<Pos>, visited': set<Pos>,
                 via': map<Pos, Dir>, depth': map<Pos, nat>)
    requires LoopInv(grid, rows, cols, stack, visited, via, depth) && |stack| > 0
    requires cur == stack[|stack| - 1] && next == Step(cur, d)
    requires d in Candidates(grid, rows, cols, cur)
    requires InGrid(grid, cur) && InGrid(grid, next)
      && grid' == MarkVisited(ClearWall(ClearWall(grid, cur, d), next, Opposite(d)), next)
      && stack' == stack + [next] && visited' == visited + {next}
      && via' == via[next := d] && depth' == depth[next := depth[cur] + 1]
    ensures LoopInv(grid', rows, cols, stack', visited', via', depth')
  {
    assert cur in visited;
    assert Undiscovered(grid, rows, cols, next);
    assert !Visited(grid, next);
    assert next !in visited;
    PushKeepsGridInv(grid, rows, cols, visited, cur, d);
    PushKeepsTreeInv(grid, visited, via, depth, cur, d);
    PushKeepsStackInv(rows, cols, stack, visited, next);
    assert grid' == CarveAndMark(grid, cur, d);
  }

  /** Once the stack is empty every in-bounds cell is visited. */
  lemma FinishVisited(rows: int, cols: int, visited: set<Pos>)
    requires Origin in visited
    requires forall p :: p in visited ==> InBounds(rows, cols, p)
    requires StackInv(rows, cols, [], visited)
    ensures visited == Cells(rows, cols)
  {
    forall p ensures p in visited <==> p in Cells(rows, cols) {
      CellsMembership(rows, cols, p);
      if InBounds(rows, cols, p) {
        ClosedCoversAll(rows, cols, visited, p);
      }
    }
  }

  /** The parent links give every visited cell a walk from the origin. */
  lemma FinishReachable(grid: Grid, visited: set<Pos>, via: map<Pos, Dir>, depth: map<Pos, nat>)
    requires Origin in visited
    requires TreeInv(grid, visited, via, depth)
    ensures forall p :: p in visited ==> Reachable(grid, p)
  {
    forall p | p in visited ensures Reachable(grid, p) {
      var moves := WalkFromOrigin(grid, depth, via, p);
    }
  }

  /** Once the stack is empty every cell is visited and the loop's ghost
      state gives the maze's connectivity and passage count. */
  lemma Finish(grid: Grid, rows: int, cols: int, visited: set<Pos>, via: map<Pos, Dir>, depth: map<Pos, nat>)
    requires rows >= 1 && cols >= 1
    requires GridInv(grid, rows, cols, visited) && StackInv(rows, cols, [], visited)
    requires TreeInv(grid, visited, via, depth)
    ensures forall p :: InGrid(grid, p) ==> Visited(grid, p)
    ensures forall p :: InGrid(grid, p) ==> Reachable(grid, p)
    ensures |Passages(grid)| == rows * cols - 1
  {
    FinishVisited(rows, cols, visited);
    FinishReachable(grid, visited, via, depth);
    CellsCount(rows, cols);
    forall p | InGrid(grid, p) ensures p in visited {
      CellsMembership(rows, cols, p);
    }
  }
}
