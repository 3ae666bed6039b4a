/**
  Maze generation by iterative depth-first carving (a recursive
  backtracker): `generateMaze` in src/components/MazeView.tsx.
  The source's `Math.random()` is the injected stream `random`, whose
  k-th value is the k-th number the generator draws.
*/
module MazeGenerator {
  import opened MazeGrid
  import opened MazeCarving

  /**
    Builds a `rows` x `cols` maze. The result keeps every outer wall, its
    neighbouring cells agree on every shared wall, every cell was visited
    and can be walked to from the origin, and exactly `rows * cols - 1`
    walls were opened: the passages form a spanning tree.
  */
  method GenerateMaze(rows: int, cols: int, random: nat -> real) returns (grid: Grid)
    requires rows >= 1 && cols >= 1
    requires forall k :: 0.0 <= random(k) < 1.0
    ensures Rect(grid, rows, cols)
    ensures BoundaryClosed(grid) && Symmetric(grid)
    ensures forall p :: InGrid(grid, p) ==> Visited(grid, p)
    ensures forall p :: InGrid(grid, p) ==> Reachable(grid, p)
    ensures |Passages(grid)| == rows * cols - 1
  {
    InitialState(rows, cols);
    grid := InitialGrid(rows, cols);
    var stack: seq<Pos> := [];
    grid := MarkVisited(grid, Origin);
    stack := stack + [Origin];
    var draws: nat := 0;
    ghost var visited: set<Pos> := {Origin};
    ghost var via: map<Pos, Dir> := map[];
    ghost var depth: map<Pos, nat> := map[Origin := 0];

    while |stack| > 0
      invariant LoopInv(grid, rows, cols, stack, visited, via, depth)
      decreases Cells(rows, cols) - visited, |stack|
    {
      var cur := stack[|stack| - 1];
      var neighbours := Candidates(grid, rows, cols, cur);
      if |neighbours| == 0 {
        PopStep(grid, rows, cols, stack, visited, via, depth);
        stack := stack[..|stack| - 1];
      } else {
        var d := neighbours[PickIndex(random(draws), |neighbours|)];
        draws := draws + 1;
        var next := Step(cur, d);
        PushReady(grid, rows, cols, stack, visited, via, depth, d);
        ghost var grid0, stack0, visited0, via0, depth0 := grid, stack, visited, via, depth;
        grid := ClearWall(grid, cur, d);
        grid := ClearWall(grid, next, Opposite(d));
        grid := MarkVisited(grid, next);
        stack := stack + [next];
        via := via[next := d];
        depth := depth[next := depth[cur] + 1];
        visited := visited + {next};
        PushStep(grid0, rows, cols, stack0, visited0, via0, depth0, cur, d, next, grid, stack, visited, via, depth);
      }
    }
    Finish(grid, rows, cols, visited, via, depth);
  }
}
