# Cade's Clubhouse — a verified model of its core

Cade's Clubhouse is a small web app for a child. The parts modelled here are:

- **The maze game** (src/components/MazeView.tsx):
  - a 15 x 15 maze carved by a randomised depth-first "recursive backtracker";
  - a player who moves one cell at a time through open walls, from the top-left cell to the bottom-right goal;
  - keyboard and swipe input;
  - a responsive cell size;
  - a canvas drawing of the walls.
- **The archive endpoint** (src/app/api/archive/route.ts). `GET /api/archive?page=&limit=` clamps its query parameters, cuts one page out of the index of fact dates and returns the facts stored for them.
- **The fact prompt** (src/lib/prompts.ts). `buildFactUserPrompt` asks the language model for a new fact and lists the earlier ones it must not repeat.
- **The clubhouse page** (src/components/ClubhouseScene.tsx). A triple click on the clubhouse loads the daily fact and slides to the facts panel. A triple click on the panel slides back. Clicks only count as a triple click when no 500 ms timer ran out between them.

Modules and files:

| module | file | what it holds |
|---|---|---|
| `Options` | options.dfy | the `Option` type for absent values |
| `MazeGrid` | maze_grid.dfy | cells with four wall flags and a visited flag, directions, and the maze properties: closed boundary, symmetric walls, walks, reachability, the set of passages |
| `MazeCarving` | maze_carving.dfy | the steps of `generateMaze` as functions on grids, and the carving loop's invariant with one lemma per kind of iteration |
| `MazeGenerator` | maze_generator.dfy | `generateMaze` itself: a `while` loop over an explicit stack |
| `MazeInput` | maze_input.dfy | the key map, the swipe classifier, the cell-size formula |
| `MazeSession` | maze_session.dfy | the game state as a class, with one method per handler |
| `MazeRender` | maze_render.dfy | `drawMaze` as the list of drawing commands it issues |
| `ArchiveRoute` | archive_route.dfy | the archive endpoint; the result is collected by a `for` loop |
| `Prompts` | prompts.dfy | the prompt builder |
| `ClubhouseScene` | clubhouse_scene.dfy | the page state as a class; timer expiry and the fetch result are events |

`Math.random()` is a parameter, `random: nat -> real`, whose k-th value is the k-th number the generator draws, in [0, 1). The maze generator is proved to return a spanning tree for every such stream:

- every cell is visited and reachable from the origin;
- exactly rows * cols − 1 walls are opened;
- the outer walls all stay in place;
- neighbouring cells always agree on the wall between them.

The game is proved to always be winnable.

`move` (MazeView.tsx:192-208) does not set `won`. The code sets it in an effect that runs after the position changes (MazeView.tsx:185-190), and the model follows the code: `Game.CheckWin` is a separate handler, run after each move.

## Model

| member | source | states |
|---|---|---|
| MazeGrid.StepBack | src/components/MazeView.tsx:28-33 | The four direction rows pair each wall with the opposite wall of the neighbour. Stepping towards `d` and then towards its opposite returns to the start, and the opposite of the opposite is `d`. |
| MazeCarving.InitialGrid | src/components/MazeView.tsx:15-20 | The fresh grid has `rows` rows of `cols` cells. Every cell has all four walls and is unvisited. |
| MazeCarving.ClearWall | src/components/MazeView.tsx:52-53 | One write clears exactly the wall of `p` facing `d`. Every other wall and every visited flag is unchanged, and so is the grid's shape. |
| MazeCarving.MarkVisited | src/components/MazeView.tsx:24 | Marking a cell visited sets that one flag and changes no wall. |
| MazeCarving.Candidates | src/components/MazeView.tsx:37-47 | A direction is a candidate iff its neighbour is in bounds and unvisited. Candidates come in N, E, S, W order. |
| MazeCarving.PickIndex | src/components/MazeView.tsx:51 | `Math.floor(Math.random() * n)` is always a valid index below `n` (0 for a draw of 0). |
| MazeCarving.CarveKeepsBoundary | src/components/MazeView.tsx:41 | Carving between two in-bounds cells never opens an outer wall. |
| MazeCarving.CarveKeepsSymmetry | src/components/MazeView.tsx:52-53 | Clearing a wall together with the neighbour's opposite wall keeps neighbouring cells in agreement. |
| MazeCarving.CarveKeepsStructure | src/components/MazeView.tsx:52-53 | One carve keeps the boundary closed and the walls symmetric. |
| MazeCarving.CarveAddsPassage | src/components/MazeView.tsx:52-53 | Carving into a cell that still has all its walls adds exactly one new passage, and it was not open before. |
| MazeCarving.CarvePassageAt | src/components/MazeView.tsx:52-53 | After a carve, an edge is a passage iff it was one before or it is the carved edge. |
| MazeCarving.InitialState | src/components/MazeView.tsx:15-25 | Before the loop, the grid with only the origin visited and stacked satisfies the loop invariant, with no passage. |
| MazeCarving.PopStep | src/components/MazeView.tsx:48-49 | Popping a cell that has no undiscovered neighbour keeps the invariant: every visited cell off the stack is fully explored. |
| MazeCarving.PushReady | src/components/MazeView.tsx:37-51 | The picked candidate leads to an in-bounds cell that has not been visited yet, so the loop's measure decreases. |
| MazeCarving.PushStep | src/components/MazeView.tsx:50-56 | Carving into the picked neighbour, marking it visited and pushing it keeps the invariant. Passages stay one fewer than visited cells, and each visited cell keeps a parent link. |
| MazeCarving.FinishVisited | src/components/MazeView.tsx:35 | When the stack is empty, the visited cells are exactly all the cells. |
| MazeCarving.FinishReachable | src/components/MazeView.tsx:35-57 | The recorded parent links give every visited cell a walk from the origin through open walls. |
| MazeCarving.Finish | src/components/MazeView.tsx:35-59 | After the loop, every cell is visited and reachable, and there are rows * cols − 1 passages. |
| MazeGrid.CellsCount | src/components/MazeView.tsx:5-6 | A rows x cols board has rows * cols cells. |
| MazeGenerator.GenerateMaze | src/components/MazeView.tsx:14-60 | For any random stream, the result is a rows x cols grid with closed boundary and symmetric walls. Every cell is visited and reachable from (0, 0), and exactly rows * cols − 1 walls are open: a spanning tree. |
| MazeInput.KeyDirection | src/components/MazeView.tsx:213-220 | A key gives N iff it is ArrowUp, w or W; E iff ArrowRight, d or D; S iff ArrowDown, s or S; W iff ArrowLeft, a or A; and no direction iff it is none of these twelve. |
| MazeInput.KeyBindings | src/components/MazeView.tsx:213-218 | ArrowUp/w/W give N, ArrowRight/d/D give E, ArrowDown/s/S give S, ArrowLeft/a/A give W. |
| MazeInput.OtherKeys | src/components/MazeView.tsx:219-223 | Every key outside the twelve gives no move. |
| MazeInput.Swipe | src/components/MazeView.tsx:243-248 | A swipe is ignored iff both abs(dx) and abs(dy) are below 20. Otherwise E or W requires abs(dx) > abs(dy) with the sign of dx, and S or N requires abs(dx) <= abs(dy) with the sign of dy, so ties go vertical. |
| MazeInput.SwipeReverse | src/components/MazeView.tsx:243-248 | Swiping the reverse way gives the opposite direction, or again none. |
| MazeInput.CellSize | src/components/MazeView.tsx:150-155 | The size is at least 20. Above 20 it is the largest whole size whose 15 cells fit the room min(w − 48, h − 280, 480). At 20 the room is below 21 * 15. |
| MazeInput.CellSizeBounds | src/components/MazeView.tsx:150-155 | The size lies between 20 and 480 / 15, so the board never exceeds 480 pixels. |
| MazeSession.NextPos | src/components/MazeView.tsx:195-205 | A move stays put or steps exactly one cell towards `d`, and it changes the cell iff the wall towards `d` is open. |
| MazeSession.NextPosInGrid | src/components/MazeView.tsx:195-205 | With the outer walls closed, a move never leaves the board, and a move that changes the cell passes through an open wall. |
| MazeSession.MoveBack | src/components/MazeView.tsx:195-205 | In a symmetric maze, a move that went through is undone by the opposite move. |
| MazeSession.WalkFollow | src/components/MazeView.tsx:192-208 | Pressing the directions of a walk through open walls leads where the walk leads. |
| MazeSession.MovesFollow | src/components/MazeView.tsx:192-208 | A sequence of moves is its first move followed by the rest. |
| MazeSession.GoalReachable | src/components/MazeView.tsx:187 | In every generated maze, some sequence of moves from (0, 0) reaches the goal (14, 14). |
| MazeSession.Game.constructor | src/components/MazeView.tsx:141-144 | A new game has a generated maze, the player at (0, 0), not won, and cell size 28. |
| MazeSession.Game.Move | src/components/MazeView.tsx:192-208 | Once won, a move does nothing. Otherwise the new position is `NextPos`, and the maze and `won` are unchanged. |
| MazeSession.Game.CheckWin | src/components/MazeView.tsx:185-190 | `won` becomes true when the player stands on the goal and never turns false. Nothing else changes. |
| MazeSession.Game.NewMaze | src/components/MazeView.tsx:260-264 | A fresh valid maze, the player back at (0, 0), and `won` false. |
| MazeSession.Game.KeyDown | src/components/MazeView.tsx:212-224 | An unmapped key leaves the position unchanged. A mapped key performs the move in its direction. |
| MazeSession.Game.TouchStart | src/components/MazeView.tsx:232-235 | Records the touch start and changes nothing else. |
| MazeSession.Game.TouchEnd | src/components/MazeView.tsx:237-249 | Without a start nothing moves. Otherwise the swipe from the start decides the move, if any, and the start is forgotten. |
| MazeSession.Game.Resize | src/components/MazeView.tsx:149-155 | The cell size becomes the formula's value, and the game is untouched. |
| MazeRender.DecodeWallLine | src/components/MazeView.tsx:95-110 | At a positive cell size, the stroke drawn for wall (p, d) determines p and d: distinct walls give distinct strokes. |
| MazeRender.CellWallsExact | src/components/MazeView.tsx:97-110 | A cell's strokes are exactly the strokes of its present walls. |
| MazeRender.LoopMember | src/components/MazeView.tsx:93-94 | A counted loop emits exactly what its steps emit. |
| MazeRender.GridWallsSound | src/components/MazeView.tsx:93-112 | Every stroke of the nested loops belongs to some cell of the grid. |
| MazeRender.GridWallsComplete | src/components/MazeView.tsx:93-112 | The nested loops emit every stroke of every cell. |
| MazeRender.GridWallsLines | src/components/MazeView.tsx:99-110 | Every wall stroke is a line segment. |
| MazeRender.DrawMaze | src/components/MazeView.tsx:62-133 | The order is: the background fill over the whole board; the goal fill inside the bottom-right cell; the player fill inside the player's cell; only line segments; the border rectangle around the board; the swords and the wizard on the goal cell; and last the player's top hat on the player's cell. |
| MazeRender.DrawnLines | src/components/MazeView.tsx:73-132 | The only line segments drawn are the wall strokes. |
| MazeRender.WallDrawnIffPresent | src/components/MazeView.tsx:93-112 | A wall's segment is drawn iff the wall is present: open walls draw nothing. |
| ArchiveRoute.ClampPage | src/app/api/archive/route.ts:7 | The page is at least 1. It is the request when that is at least 1, otherwise 1, and 1 when the parameter is absent. |
| ArchiveRoute.ClampLimit | src/app/api/archive/route.ts:8-11 | The limit lies in 1..50. It is the request when inside that range, otherwise the nearer bound, and 10 when absent. |
| ArchiveRoute.SliceIndex | src/app/api/archive/route.ts:16 | A slice bound lands inside the list: itself when in range, the length when past the end, counted from the end when negative, and 0 when before the start. |
| ArchiveRoute.Slice | src/app/api/archive/route.ts:16 | `slice(start, end)` has the clamped length, and its i-th element is the element at the clamped start plus i. |
| ArchiveRoute.PageWindow | src/app/api/archive/route.ts:15-16 | For a clamped page and limit, the page holds the index dates from (page − 1) * limit, at most `limit` of them, and none past the end. |
| ArchiveRoute.PagesTile | src/app/api/archive/route.ts:15-16 | Pages 1..k concatenated are the first k * limit dates: paging neither skips nor repeats a date. |
| ArchiveRoute.FoundAppend | src/app/api/archive/route.ts:18-22 | Looking up two runs of dates gives the facts of the first run, then those of the second. |
| ArchiveRoute.FoundMembers | src/app/api/archive/route.ts:18-22 | A fact is returned iff some page date has it stored, and there are never more facts than dates. |
| ArchiveRoute.FoundAll | src/app/api/archive/route.ts:18-22 | When every date has a fact, the i-th fact is that of the i-th date. |
| ArchiveRoute.CollectFacts | src/app/api/archive/route.ts:18-22 | The loop returns the stored facts of the page dates, in date order, skipping dates without a fact. |
| ArchiveRoute.Get | src/app/api/archive/route.ts:5-25 | The response echoes the clamped page. `totalCount` is the number of indexed dates whatever the page, and the facts are those of the page's dates. |
| ArchiveRoute.ResponseBounded | src/app/api/archive/route.ts:8-22 | A response never holds more facts than the clamped limit, which is at most 50. |
| ArchiveRoute.EmptyIndex | src/app/api/archive/route.ts:14-24 | An empty index gives no dates and no facts on every page. |
| ArchiveRoute.ThreeDatesTwoPerPage | src/app/api/archive/route.test.ts:47-76 | With three stored dates and limit 2, page 1 holds the two newest and page 2 the oldest. |
| Prompts.NatToStringRoundTrip | src/lib/prompts.ts:19 | The printed entry number reads back as the number. |
| Prompts.NumberedFrom | src/lib/prompts.ts:19 | There is one entry per fact, and the i-th entry is "<i + 1>. <fact i>". |
| Prompts.SplitJoin | src/lib/prompts.ts:19 | Joining lines without breaks by "\n" and splitting again gives the lines back. |
| Prompts.BuildFactUserPrompt | src/lib/prompts.ts:13-22 | With no earlier facts the prompt is exactly the base sentence, and only then. It always starts with the base sentence. Otherwise the header and the joined numbered list follow. |
| Prompts.PromptLines | src/lib/prompts.ts:16-19 | After the header the prompt has one line per earlier fact, the i-th reading "<i + 1>. <fact i>", with no trailing line break. |
| Prompts.FirstEntries | src/lib/prompts.ts:19 | Two facts give "1. a", a line break, then "2. b". |
| ClubhouseScene.TrailingStep | src/components/ClubhouseScene.tsx:22 | A click adds one to the clicks since the last expiry, and an expiry resets that count. |
| ClubhouseScene.CountStep | src/components/ClubhouseScene.tsx:22-25 | A counter equal to the clicks modulo 3 wraps from 2 to 0 and otherwise grows by one. |
| ClubhouseScene.Scene.constructor | src/components/ClubhouseScene.tsx:11-18 | Starts on the clubhouse with empty fields, the counter at 0 and no timer. |
| ClubhouseScene.Scene.TripleClick | src/components/ClubhouseScene.tsx:20-43 | The counter stays in 0..2 and equals the clicks since the last expiry, modulo 3. A click fires iff it is the third, and then the counter is 0 and no timer is left. Otherwise the old timer is cancelled and exactly one fresh timer is armed. |
| ClubhouseScene.Scene.Expire | src/components/ClubhouseScene.tsx:37-40 | A timer running out resets the counter to 0 and leaves no timer. The view is unchanged. |
| ClubhouseScene.Scene.ClubhouseClick | src/components/ClubhouseScene.tsx:45-49 | A firing click shows the loading view, clears the image and starts the fetch. Any other click leaves the view unchanged. |
| ClubhouseScene.Scene.FetchSucceeded | src/components/ClubhouseScene.tsx:50-58 | The facts view shows the payload's fields, and an empty image address becomes none. |
| ClubhouseScene.Scene.FetchFailed | src/components/ClubhouseScene.tsx:59-62 | A failed fetch returns to the clubhouse view. The shown fact, the click counter and the pending timer stay as they were. |
| ClubhouseScene.Scene.FactsClick | src/components/ClubhouseScene.tsx:66-70 | A firing click on the facts panel returns to the clubhouse. Otherwise the panel stays. |
| ClubhouseScene.ThirdClickFires | src/components/ClubhouseScene.tsx:24-31 | From a reset, the counts after one, two and three clicks are 1, 2 and 0, so the third click fires. |
| ClubhouseScene.ExpiryForgets | src/components/ClubhouseScene.tsx:37-40 | A click, an expiry, then two clicks leave the count at 2, so the clicks before the expiry never count. |

## Left out

- Floating point. The random stream and the swipe distances are exact reals, so rounding in `Math.random() * n` and in touch coordinates is not modelled.
- The randomness is not shown to be uniform. The model only uses that each draw lies in [0, 1).
- Acyclicity of the maze is not stated separately. It follows from connectivity plus rows * cols − 1 passages among rows * cols cells, a graph fact not proved here.
- The canvas is not modelled:
  - device-pixel-ratio scaling and canvas resizing (MazeView.tsx:162-182);
  - glyph placement and font sizes (MazeView.tsx:119-132), so a `Glyph` command names only its marker and cell;
  - the `lineCap` setting.
- React plumbing is not modelled: event-listener registration and removal, `preventDefault`, the touch-move blocker, the arrow-pad buttons and all markup. Each button calls `Game.Move`, which is modelled.
- The one-render lag of the win check: `Game.CheckWin` is the effect, and callers run it after each move rather than at the next render.
- The archive route's `parseInt` is not modelled. Page and limit arrive already parsed, `None` stands for an absent or empty parameter, and non-numeric input (NaN) is not modelled.
- src/lib/db.ts is not part of this model. The index is a value and the fact store a map from date to fact; the awaited lookups run one after another, as in the source.
- JavaScript numbers are unbounded integers here, so precision loss beyond 2^53 in `(page − 1) * limit` is not modelled.
- Real time on the clubhouse page is not modelled. The 500 ms timer and the fetch are events: `Scene.Expire(id)` for the timeout callback, and `Scene.FetchSucceeded` / `Scene.FetchFailed` for the awaited request. The error log is dropped.
- ClubhouseScene.Scene.ClubhouseClick: requires that the loading view is not showing, because the clubhouse is not rendered then (ClubhouseScene.tsx:82-86).
- ClubhouseScene.Scene.FactsClick: requires the facts view, the only view in which the panel is rendered (ClubhouseScene.tsx:89-96).
- ClubhouseScene.Scene.FetchSucceeded: takes `fact` and `starWars` as strings, so a response that lacks them (and would set them to `undefined`) is not modelled.
- The daily-fact and generate-daily-fact routes, src/lib/date.ts, ArchiveList.tsx and the markup-only components are not part of this model.
- `FACT_SYSTEM_PROMPT` (src/lib/prompts.ts:1-11) is a constant string that no modelled operation uses. It is not part of this model.
