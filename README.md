# Puyo board simulation in Dafny

A model of the board simulation of a minimal Puyo Puyo game, with proofs
about it. A falling pair of coloured puyos moves and rotates on a 6 x 12
well. When it can fall no further it is locked into the grid. Then
removal passes run: each clears every 4-connected same-colour group of four
or more cells and scores `40 * chainIndex + 10 * removed`, and gravity
packs every column downward. Passes repeat until one removes nothing. A new
pair is then spawned.

The model keeps the program's own form:

- `Puyo` (puyo.dfy): the constants `COLS = 6` and `ROWS = 12`, the colours,
  coordinates, the pair, the bounds query and the row-major layout of the
  grid.
- `Groups` (groups.dfy): the specification of one removal pass.
  - `Group(G, a)` is the set of cells reachable from `a` through
    same-colour neighbours.
  - `Cleared(G)` is the set of non-empty cells whose group has at least
    `POP_SIZE = 4` cells.
  - `AfterPop(G)` is the grid with those cells emptied.
- `Gravity` (gravity.dfy): the specification of gravity.
  - `Column(G, x)` reads column `x` from the bottom row up.
  - `Compact` moves the non-empty colours of a column to its bottom, in
    their order.
  - `AfterGravity` compacts every column.
  - `Occupied` counts the puyos on the grid.
- `Scan` (scan.dfy): the ghost state of the breadth-first search and of
  the row-major scan, with the lemmas that carry each step.
- `Field` (field.dfy): the class `Board`.
  - Its fields are the grid as a flat row-major `array<Color>`, the
    `score` and the `chain`.
  - Its methods are the source's loops over the array: clear, lock,
    gravity with its write cursor, and the removal pass with its visited
    matrix, queue and group vector.
  - Each method is proved against the functions above.
- `Controls` (controls.dfy): the quarter turns, the wall kick, the spawn
  pair and the move test.
- `Game` (game.dfy): the main loop's game logic.
  - The input step covers the horizontal move, the soft drop and the
    rotation with kicks.
  - The automatic fall with locking is a method.
  - A frame as a whole is the function `Frame` on the value `GameState`
    (grid, score, chain, pair, alive flag). `Game.Game.Step` is proved to
    turn the state of the game into `Frame` of the old state.
  - The cascade has a specification function `Cascade` and a loop method
    `RunCascade`.
  - The class `Game` holds the board, the falling pair and the alive flag.

The keyboard state of a frame is an `Input` value. The two float timers
are the booleans `moveReady` (the move cooldown has run out) and
`fallFires` (the fall timer has reached its interval). The random colours
of a new pair are parameters.

Two behaviours of the program are modelled as written:

- **A failed rotation is not a no-op.** When the clockwise turn and both
  of its kicks collide, the pair becomes the counter-clockwise turn, kicked
  if possible. If that also fails, the pair is left colliding; the result
  of the second wall kick is ignored. `RotationFailure` states this.
- **A fresh pair always collides.** Its sub cell is in row -1
  (`SpawnAlwaysCollides`). So the collision test after every lock ends the
  game.
  - As a consequence, while the game is on the grid is empty and the
    falling pair is in play: `Game.Game.Playing`, kept by `Game.Game.Step`.
  - That invariant is also what makes the unchecked writes of the lock
    safe. The lock guard only tests that both rows are at least 0, so a
    pair off the left or right edge or below the floor would pass it.
    `Board.Lock` requires both cells in bounds. `AutoFall` states this as
    its precondition that a pair passing the guard is on the grid, and
    `Step` discharges it from `Playing`: a pair in play that passes the
    guard is on the grid (`InPlayLockInBounds`).

The program is simpler than most Puyo Puyo games, and the model keeps
it that way:

- scoring is `40 * chainIndex + 10 * removed`, with no group, mass or
  level bonus;
- the kicks are one column left, then one column right;
- a failed rotation moves the pair, as described above;
- there is no "next" pair, no level, no fall-speed table, no
  delayed-auto-shift repeat and no buffer-row game-over test;
- the game ends when a pair that cannot fall sticks out above the top row,
  or when the fresh pair collides;
- the lock writes both cells without bounds checks.

## Model

| member | source | states |
|---|---|---|
| Puyo.InBounds | src/main.cpp:30 | an in-bounds coordinate addresses a slot of the 72-cell row-major grid |
| Groups.Group | src/main.cpp:107-123 | the group of a cell contains it, and all its cells are on the grid with that cell's colour |
| Groups.Cleared | src/main.cpp:125-129 | a cell is cleared exactly when it is non-empty and its group has at least POP_SIZE cells |
| Groups.AfterPop | src/main.cpp:125-127 | the pass empties exactly the cleared cells and leaves every other cell as it was |
| Groups.ReachableSymmetric | src/main.cpp:112-122 | same-colour reachability is symmetric |
| Groups.ReachableTrans | src/main.cpp:112-122 | same-colour reachability is transitive |
| Groups.GroupOfMember | src/main.cpp:104-123 | every member of a group has that same group, so whichever member the scan meets first finds the whole group |
| Groups.GroupClosed | src/main.cpp:117-122 | no same-colour neighbour of a group lies outside it |
| Groups.ClosedContainsGroup | src/main.cpp:117-122 | a closed set that contains a cell contains that cell's whole group, so the group is the least closed set |
| Groups.ClearedWholeGroups | src/main.cpp:126-127 | when a cell is cleared, every cell of its group is cleared |
| Groups.SurvivorGroupShrinks | src/main.cpp:97-131 | a surviving cell keeps its colour, was not cleared, and its group after the pass lies inside its group before |
| Groups.AfterPopStable | src/main.cpp:97-131 | a second pass without gravity in between clears nothing |
| Groups.NothingClearedUnchanged | src/main.cpp:126-129 | a pass that clears nothing leaves the grid as it is |
| Gravity.Compact | src/main.cpp:84-91 | the compaction of a column of colours: its non-empty colours in order, followed by empty cells up to the same length |
| Gravity.Column | src/main.cpp:84-91 | column x has ROWS entries, read from the bottom row upward |
| Gravity.AfterGravity | src/main.cpp:81-93 | each cell after gravity is the matching entry of its compacted column |
| Gravity.CompactKeepsOrder | src/main.cpp:85-90 | compacting keeps the non-empty colours of a column and their bottom-up order |
| Gravity.CompactSettled | src/main.cpp:85-90 | a compacted column has no puyo above an empty cell |
| Gravity.SettledCompact | src/main.cpp:85-90 | a settled column is its own compaction |
| Gravity.CompactUnique | src/main.cpp:85-90 | the compaction is the only settled column of that length with the same non-empty colours |
| Gravity.CompactIdempotent | src/main.cpp:85-90 | compacting twice is compacting once |
| Gravity.GravityColumn | src/main.cpp:81-93 | column x after gravity is the compaction of column x before |
| Gravity.ColumnsDetermineGrid | src/main.cpp:81-93 | two grids with the same columns are equal |
| Gravity.GravityColumns | src/main.cpp:81-93 | after gravity each column holds, from the bottom, the same non-empty colours as before, and every empty cell lies above every puyo |
| Gravity.GravityOfSettled | src/main.cpp:81-93 | gravity leaves a grid with only settled columns unchanged |
| Gravity.GravityIdempotent | src/main.cpp:81-93 | applying gravity twice equals applying it once |
| Gravity.PartlyCompactedStart | src/main.cpp:83-84 | before the cursor loop the column is untouched |
| Gravity.PartlyCompactedEnd | src/main.cpp:84-91 | after the cursor loop has passed every row the column is compacted |
| Gravity.PartlyCompactedMove | src/main.cpp:85-89 | moving a non-empty cell to the write cursor advances the cursor by one and extends the compacted prefix |
| Gravity.PartlyCompactedSkip | src/main.cpp:85 | passing an empty cell changes neither the cursor nor the column |
| Gravity.WithColumnUpdate | src/main.cpp:87-88 | writing one cell of column x is writing that entry of the column |
| Gravity.SettleMove | src/main.cpp:85-89 | the two writes of a move, empty the cell then fill the cursor cell, take the column one step further, with the cursor between the cell and the floor |
| Gravity.SettleSkip | src/main.cpp:85 | an empty cell leaves the cursor where it is |
| Gravity.PartialGravityStep | src/main.cpp:82-92 | compacting column k on a grid with k columns done gives the grid with k + 1 columns done |
| Gravity.PartialGravityEnds | src/main.cpp:82-92 | with no column done the grid is the input, and with all done it is the grid after gravity |
| Gravity.OccupiedBound | src/main.cpp:46 | a grid holds at most ROWS * COLS puyos |
| Gravity.OccupiedGravity | src/main.cpp:81-93 | gravity neither creates nor destroys puyos |
| Gravity.OccupiedEmptied | src/main.cpp:127 | emptying cells, at least one of them occupied, strictly lowers the number of puyos |
| Scan.MirrorsMark | src/main.cpp:111 | marking a cell in the visited matrix adds exactly that cell to the visited set |
| Scan.SearchPop | src/main.cpp:113-114 | moving the queue front into the group keeps the search invariant |
| Scan.SearchPush | src/main.cpp:119-120 | marking and enqueuing an unvisited same-colour neighbour keeps the search invariant |
| Scan.NeighboursSeenStep | src/main.cpp:117-121 | after neighbour k is examined, the first k + 1 same-colour neighbours are marked |
| Scan.ClosedPartExtend | src/main.cpp:117-122 | a cell all of whose same-colour neighbours are marked may join the expanded part |
| Scan.SearchDone | src/main.cpp:112-123 | when the queue is empty the group vector holds exactly the seed's group, with no repeats, and the visited set grew by exactly that group |
| Scan.ScannedStep | src/main.cpp:102-104 | visiting cell (x, y) extends the row-major prefix of visited non-empty cells by one cell |
| Scan.ScanAdd | src/main.cpp:125-129 | adding a seed's group, emptied and counted when it has four or more cells, keeps the scan invariant |
| Scan.GroupAllOrNothing | src/main.cpp:126 | a group is cleared as a whole or not at all |
| Scan.Emptied | src/main.cpp:127 | emptying a set of cells empties exactly those cells |
| Scan.ScanDone | src/main.cpp:102-131 | once every non-empty cell is visited, the grid is the grid after the pass and the count is the number of cleared cells |
| Field.Locked | src/main.cpp:75-78 | the sub cell gets c2, the pivot gets c1 unless the two coincide, and every other cell is unchanged |
| Field.Board.constructor | src/main.cpp:50 | a new board is empty with score and chain 0 |
| Field.Board.Clear | src/main.cpp:53-56 | every cell is empty and score and chain are 0 |
| Field.Board.IsEmpty | src/main.cpp:59-61 | true only in bounds, and then exactly when the cell holds Empty |
| Field.Board.Collision | src/main.cpp:64-72 | false exactly when both cells are in bounds and empty, that is when the pair fits |
| Field.Board.Lock | src/main.cpp:75-78 | the grid becomes the locked grid; score and chain are untouched |
| Field.Board.ApplyGravity | src/main.cpp:81-93 | the grid becomes the grid after gravity |
| Field.Board.CompactColumn | src/main.cpp:83-91 | column x is replaced by its compaction and no other column changes |
| Field.Board.SettleCell | src/main.cpp:85-90 | one step of the cursor loop advances the column's partial compaction and the cursor |
| Field.Board.FloodFill | src/main.cpp:107-123 | the search returns exactly the seed's group, with no repeats, and marks exactly those cells besides the ones already visited |
| Field.Board.Expand | src/main.cpp:117-122 | every same-colour neighbour of the expanded cell ends up marked and queued, and the search invariant is kept |
| Field.Board.VisitNeighbour | src/main.cpp:118-121 | neighbour k, when on the grid, unvisited and of the group's colour, is marked and queued |
| Field.Board.ClearCells | src/main.cpp:127 | exactly the cells of the group are emptied |
| Field.Board.VisitCell | src/main.cpp:104-129 | visiting cell (x, y) keeps the scan invariant and extends the scanned prefix |
| Field.Board.ScanRow | src/main.cpp:103-130 | scanning a row keeps the scan invariant and completes that row |
| Field.Board.ScanGrid | src/main.cpp:98-131 | the grid becomes the grid after one removal pass, and the count is the number of cleared cells |
| Field.PassPoints | src/main.cpp:134-137 | the points of one pass: 40 * chainIndex + 10 * removed when something was removed, and 0 otherwise |
| Field.Fits | src/main.cpp:64-72 | the negation of the collision test: both cells of the pair are in bounds and empty |
| Field.Board.PopGroupsAndScore | src/main.cpp:97-139 | the grid becomes the grid after the pass; the return value is the number cleared; score grows by 40 * chainIndex + 10 * removed when something was removed; a pass that removes nothing changes neither grid nor score |
| Controls.RotateCW | src/main.cpp:143 | the clockwise quarter turn maps the offset (x, y) to (-y, x) |
| Controls.RotateCCW | src/main.cpp:144 | the counter-clockwise quarter turn maps the offset (x, y) to (y, -x) |
| Controls.RotationKeepsLength | src/main.cpp:143-144 | both quarter turns keep the Manhattan length of the offset |
| Controls.RotationInverses | src/main.cpp:143-144 | the clockwise and counter-clockwise turns undo each other |
| Controls.FourQuarterTurns | src/main.cpp:143 | two clockwise turns negate the offset, and four are the identity |
| Controls.UnitOffsets | src/main.cpp:143-144 | an offset of Manhattan length 1 is up, right, down or left |
| Controls.RotateCWCycle | src/main.cpp:143 | clockwise turns cycle up, right, down, left |
| Controls.Kick | src/main.cpp:147-156 | the pair itself when it fits; else the first of one left and one right that fits; the flag is true exactly when one of the three fits; else the pair is unchanged |
| Controls.WallKick | src/main.cpp:147-156 | the method returns what the kick function describes |
| Controls.SpawnPair | src/main.cpp:159-166 | the fresh pair has its pivot at column COLS / 2 of row 0, on the grid, its sub cell above its pivot and off the grid, and the two given colours |
| Controls.SpawnAlwaysCollides | src/main.cpp:161-162 | the sub cell of a fresh pair lies in row -1, so it never fits, whatever the grid |
| Controls.CanMove | src/main.cpp:169-173 | true exactly when the displaced pair fits, so both its cells are on the grid |
| Game.InPlayLockInBounds | src/main.cpp:262-263 | a pair in play that passes the lock guard has both cells on the grid |
| Game.SpawnInPlay | src/main.cpp:159-166 | every fresh pair is in play |
| Game.RotateStep | src/main.cpp:234-246 | rotation keeps the colours and the row of the pivot, moves the pivot at most one column, and turns the offset clockwise or counter-clockwise |
| Game.RotationOrder | src/main.cpp:237-245 | the result is the clockwise kick when that succeeds, and otherwise the counter-clockwise kick |
| Game.RotationFits | src/main.cpp:237-245 | the rotated pair fits exactly when one of the two kicks succeeds |
| Game.RotationFailure | src/main.cpp:240-245 | when both kicks fail the pair becomes the colliding counter-clockwise turn, which differs from the old pair |
| Game.RotationOnEmptyBoard | src/main.cpp:234-246 | on the empty grid a pair in play always ends up fitting after rotation |
| Game.TurnFromUp | src/main.cpp:237-240 | on the empty grid an upward offset turns to the right, kicked one column left at the right wall |
| Game.TurnFromRight | src/main.cpp:237-242 | on the empty grid a rightward offset turns down, or up on the bottom row |
| Game.TurnFromDown | src/main.cpp:237-240 | on the empty grid a downward offset turns to the left, kicked one column right at the left wall |
| Game.TurnFromLeft | src/main.cpp:237-242 | on the empty grid a leftward offset turns up, or down on the top row |
| Game.TryMove | src/main.cpp:222-231 | the pair moves when the moved pair fits and stays otherwise |
| Game.InputStep | src/main.cpp:220-246 | the input of one frame: a horizontal move when the cooldown has run out (left before right), then the soft drop, then the rotation step, each taken only when its key is held |
| Game.InputKeepsFit | src/main.cpp:220-232 | moves and soft drops keep a fitting pair fitting, never lift it and keep its colours |
| Game.InputKeepsInPlay | src/main.cpp:220-246 | on the empty grid every frame of input keeps a pair in play |
| Game.PopShrinks | src/main.cpp:272-274 | a productive pass followed by gravity leaves fewer puyos |
| Game.Cascade | src/main.cpp:270-276 | the cascade from a chain index: a pass that clears nothing ends it on the same grid; a productive pass scores PassPoints and continues on the grid after gravity with the next chain index |
| Game.CascadeSettles | src/main.cpp:270-276 | when the cascade ends no group of four or more cells is left |
| Game.CascadeStep | src/main.cpp:272-275 | a productive pass scores its points and hands the settled grid to the next chain index |
| Game.CascadeStop | src/main.cpp:272-273 | a pass that removes nothing ends the cascade on the same grid, with no points and no passes |
| Game.CascadePoints | src/main.cpp:270-276 | the cascade scores a non-negative amount, and a positive one exactly when the first pass removes something |
| Game.CascadePasses | src/main.cpp:270-276 | the cascade has a productive pass exactly when the first pass removes something |
| Game.CascadeRemainsStep | src/main.cpp:272-275 | a productive pass with its points added keeps the loop state of the cascade |
| Game.CascadeBound | src/main.cpp:270-276 | the number of productive passes is at most the number of puyos |
| Game.CascadeGridBound | src/main.cpp:270-276 | the number of productive passes is at most ROWS * COLS |
| Game.InGame | src/main.cpp:250-285 | while the game is on the grid is empty and the pair is in play |
| Game.Controlled | src/main.cpp:198-247 | the restart key and the input keep InGame and the lock-guard bound; score and chain are 0 after the restart and unchanged otherwise |
| Game.Fall | src/main.cpp:250-285 | the automatic fall: nothing when the game is off or the timer has not fired; one row down when that fits; game over when the pair sticks out above the top row; else lock, cascade from chain index 1, fresh pair, and the game stays on only when the fresh pair fits |
| Game.Frame | src/main.cpp:206-286 | one frame: the restart key and the input, then the automatic fall |
| Game.LockEndsGame | src/main.cpp:278-282 | every lock spawns the fresh pair and ends the game |
| Game.LockOnEmptyClearsNothing | src/main.cpp:267-276 | a pair locked on the empty grid forms no group of four or more |
| Game.FallKeepsInGame | src/main.cpp:250-285 | the automatic fall keeps InGame |
| Game.FallKeepsScore | src/main.cpp:267-276 | during a game the automatic fall changes neither score nor chain |
| Game.FrameKeepsInGame | src/main.cpp:206-286 | every frame keeps InGame |
| Game.FrameScore | src/main.cpp:198-286 | during a game a frame changes score and chain only by the restart, which sets both to 0 |
| Game.Game.Playing | src/main.cpp:250-285 | the board is well formed and the state of the game satisfies InGame |
| Game.Game.Snap | src/main.cpp:179-186 | the state of the game as a GameState value |
| Game.Game.constructor | src/main.cpp:179-186 | an empty board with score and chain 0, a fresh pair, and the game on |
| Game.Game.Reset | src/main.cpp:198-203 | the board is empty, score and chain are 0, a fresh pair is in play and the game is on |
| Game.Game.HandleInput | src/main.cpp:220-247 | while the game is on the pair becomes the input step of the frame; otherwise nothing changes |
| Game.Game.Move | src/main.cpp:222-231 | the pair becomes the tried move |
| Game.Game.Rotate | src/main.cpp:234-246 | the pair becomes the rotation step |
| Game.Game.RunCascade | src/main.cpp:270-276 | the grid, the score and the last chain index are those of the cascade from chain index 1; no group of four or more is left; score never decreases; chain is untouched |
| Game.Game.CascadePass | src/main.cpp:272-275 | an unproductive pass leaves the state as it is and ends the cascade; a productive pass lowers the number of puyos and keeps the loop state |
| Game.Game.AutoFall | src/main.cpp:250-285 | the new state of the game is Fall of the old state |
| Game.Game.LockAndSpawn | src/main.cpp:267-282 | the new state of the game is Fall of the old state in the lock case |
| Game.Game.Step | src/main.cpp:206-286 | the new state of the game is Frame of the old state, and the game invariant Playing is kept |

## Left out

- Window, event polling, keyboard queries and rendering are I/O and presentation. The reset key and the held keys of a frame are the fields of `Input`.
- The random number generator and `randomColor` are nondeterministic. The colours of a fresh pair are parameters.
- Controls.SpawnPair: does not restrict the colours to Red..Purple; every stated property holds for any colour.
- The float timers are floating point: `dt`, `fallTimer`, `fallInterval` with its decay to 0.12, the 0.05 soft-drop interval, `moveCooldown` and `moveDelay`. The model has the booleans `moveReady` and `fallFires`. So it does not capture two things: that a successful move restarts the cooldown, and that a successful soft drop restarts the fall timer.
- Field.Board.PopGroupsAndScore: the score is an unbounded integer. The 32-bit overflow of the source's `int` score is not modelled, because a game ends on its first lock, long before the score could get near 2^31.
