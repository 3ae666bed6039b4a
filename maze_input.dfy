/**
  How the maze page turns user input into moves and how it sizes its
  cells (src/components/MazeView.tsx): the keyboard map, the swipe
  classifier and the responsive cell-size formula.
*/
module MazeInput {
  import opened Options
  import opened MazeGrid

  /** The keys the page listens to: arrows and WASD in both cases. */
  const KeyMap: map<string, Dir> := map[
    "ArrowUp" := N, "w" := N, "W" := N,
    "ArrowRight" := E, "d" := E, "D" := E,
    "ArrowDown" := S, "s" := S, "S" := S,
    "ArrowLeft" := W, "a" := W, "A" := W
  ]

  /** The direction a key press moves the player in, if any: the arrow
      key or the letter of each direction, in either case, and no other key. */
  function KeyDirection(key: string): (r: Option<Dir>)
    ensures r == Some(N) <==> key in {"ArrowUp", "w", "W"}
    ensures r == Some(E) <==> key in {"ArrowRight", "d", "D"}
    ensures r == Some(S) <==> key in {"ArrowDown", "s", "S"}
    ensures r == Some(W) <==> key in {"ArrowLeft", "a", "A"}
    ensures r.None? <==> key !in {"ArrowUp", "w", "W", "ArrowRight", "d", "D",
                                  "ArrowDown", "s", "S", "ArrowLeft", "a", "A"}
  {
    if key in KeyMap then Some(KeyMap[key]) else None
  }

  /** Each direction is bound to its arrow key and to one letter typed in
      either case. */
  lemma KeyBindings()
    ensures KeyDirection("ArrowUp") == KeyDirection("w") == KeyDirection("W") == Some(N)
    ensures KeyDirection("ArrowRight") == KeyDirection("d") == KeyDirection("D") == Some(E)
    ensures KeyDirection("ArrowDown") == KeyDirection("s") == KeyDirection("S") == Some(S)
    ensures KeyDirection("ArrowLeft") == KeyDirection("a") == KeyDirection("A") == Some(W)
  {
  }

  /** Every key outside the twelve does nothing. */
  lemma OtherKeys(key: string)
    requires key !in {"ArrowUp", "w", "W", "ArrowRight", "d", "D",
                      "ArrowDown", "s", "S", "ArrowLeft", "a", "A"}
    ensures KeyDirection(key) == None
  {
  }

  function Abs(x: real): real {
    if x < 0.0 then -x else x
  }

  /** Shorter swipes than this, on both axes, are ignored. */
  const SwipeThreshold: real := 20.0

  /**
    The direction of a swipe whose finger moved by (`dx`, `dy`) pixels
    (screen `y` grows downwards). The longer axis decides; a tie goes to
    the vertical axis.
  */
  function Swipe(dx: real, dy: real): (r: Option<Dir>)
    ensures r.None? <==> Abs(dx) < SwipeThreshold && Abs(dy) < SwipeThreshold
    ensures r == Some(E) ==> dx >= SwipeThreshold && Abs(dy) < dx
    ensures r == Some(W) ==> dx <= -SwipeThreshold && Abs(dy) < -dx
    ensures r == Some(S) ==> dy >= SwipeThreshold && Abs(dx) <= dy
    ensures r == Some(N) ==> dy <= -SwipeThreshold && Abs(dx) <= -dy
  {
    var m := if Abs(dx) > Abs(dy) then Abs(dx) else Abs(dy);
    if m < SwipeThreshold then None
    else if Abs(dx) > Abs(dy) then (if dx > 0.0 then Some(E) else Some(W))
    else (if dy > 0.0 then Some(S) else Some(N))
  }

  /** A swipe in the reverse direction moves the other way. */
  lemma SwipeReverse(dx: real, dy: real)
    ensures Swipe(-dx, -dy) == (if Swipe(dx, dy).Some? then Some(Opposite(Swipe(dx, dy).value)) else None)
  {
  }

  function Min3(a: int, b: int, c: int): int {
    if a <= b && a <= c then a else if b <= c then b else c
  }

  /** Pixel margins the page keeps around the board, and its largest side. */
  const WidthMargin := 48
  const HeightMargin := 280
  const MaxBoard := 480
  const MinCellSize := 20

  /**
    The cell size for a window of `width` x `height` pixels: the largest
    whole size at which the board fits the window (and `MaxBoard`), but
    never below `MinCellSize`. `Math.floor` of the quotient is Dafny's `/`
    here, since the divisor `Rows` is positive.
  */
  function CellSize(width: int, height: int): (size: int)
    ensures size >= MinCellSize
    ensures var room := Min3(width - WidthMargin, height - HeightMargin, MaxBoard);
      && (size > MinCellSize ==> size * Rows <= room < (size + 1) * Rows)
      && (size == MinCellSize ==> room < (MinCellSize + 1) * Rows)
  {
    var room := Min3(width - WidthMargin, height - HeightMargin, MaxBoard);
    var fit := room / Rows;
    if fit > MinCellSize then fit else MinCellSize
  }

  /** The board is never wider than `MaxBoard` unless the minimum size forces it. */
  lemma CellSizeBounds(width: int, height: int)
    ensures MinCellSize <= CellSize(width, height) <= MaxBoard / Rows
    ensures CellSize(width, height) * Rows <= MaxBoard
  {
  }
}
