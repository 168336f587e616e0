# ebiten-blocks game logic in Dafny

This project models the game logic of ebiten-blocks, a falling-block puzzle game written in Go.

The board is a box of cells. A map holds the blocks that have already settled, keyed by cell. The falling piece (a tetromino) is one of seven kinds, each with a fixed table of rotation states. On every tick the board:

- decides whether the piece has landed;
- snaps a landed piece to whole blocks and raises it out of any overlap with the stack;
- files the piece's four blocks into the grid;
- clears the full rows the piece touched;
- lets every block above a cleared block fall by the number of cleared blocks beneath it.

The model also covers the score board and the string helpers of the flag code generator in `scripts/cli`.

The modules follow the Go files:

- `Geometry`: integer vectors, cells and the box. It also defines Go's truncating division and `math.Floor`-based rounding.
- `Tetros`: consts.go, covering the kinds, `String`, `RandTetro`, `Rotation.Inc` and the shape table.
- `Marks`: mark.go, covering a settled block, `up`, `in` and the grid.
- `Pieces`: tetromino.go, with the class `Tetromino`.
- `Collapse`, `Drops` and `Clearing`: the three passes of `ClearFullRows` (board.go) and their specification.
- `Boards`: board.go, with the class `Board`.
- `Scores`: score_board.go.
- `Cli`: scripts/cli/main.go.

Positions are whole pixels. The block size is always 10 and is the constant `Size`. Go's float64 vectors become integer vectors. The board computes a cell as `int(x)/10`, which truncates toward zero, so the model uses `TruncDiv`, not Dafny's floor division. The two differ on the negative rows a piece reaches just after it spawns.

The last pass of `ClearFullRows` follows pointers. A block appears in the queue `up` once for every cleared block beneath it, and it may be moved onto a cell whose own block has not moved yet. The model names each block by the cell it held when the pass began. `Collapse` proves that the Go order of removals and insertions still leaves every block at its own destination. `Clearing` proves that the queue the counting pass builds has the count and the order that this needs. As a result, `Board.ClearFullRows` ends with exactly `Collapsed(old grid)`: every survivor has moved down by the number of reported rows below it, it is filed under its new cell, and its pending fall is 0.

Like the Go scan, which only looks up to row 0, a block falls only when it is in a column of the box and on row 0 or below.

## Model

| member | source | states |
|---|---|---|
| Geometry.TruncDiv | board.go:41-42 | Go's `/` on ints: the remainder has the sign of the dividend and is smaller than the divisor |
| Geometry.TruncRem | consts.go:59 | Go's `%`: `a == (a/d)*d + a%d`, with the remainder taking the sign of `a` |
| Geometry.TruncDivMultiple | board.go:169-171 | on whole multiples of the block size, truncation gives the exact quotient whatever the sign |
| Geometry.TruncDivIsNotFloor | board.go:41-42 | pixel y = -5 lies in row 0 for the Go code, not in row -1 |
| Geometry.FloorToSize | tetromino.go:61-66 | flooring to whole blocks gives a multiple of the size, not above the value and less than one size below it |
| Geometry.FloorToSizeIdempotent | tetromino.go:61-66 | rounding a rounded position changes nothing |
| Geometry.FloorToSizeFixes | tetromino.go:61-66 | rounding fixes a coordinate exactly when it is a multiple of the size |
| Geometry.FloorThenTruncate | board.go:32-68 | moving a floored coordinate by whole blocks lands in the same cell as moving the coordinate itself, when the result is not negative |
| Geometry.CellAt | board.go:169-171 | the cell `int(x)/10, int(y)/10` of a non-negative pixel spans that pixel |
| Geometry.CellAtAligned | board.go:163-171 | moving a whole-block pixel by whole blocks moves its cell by as many |
| Tetros.Name | consts.go:20-39 | kinds I..L have one-letter names; any other value gets the fallback as written, "unkown" |
| Tetros.NamesDistinct | consts.go:20-39 | the seven kinds have seven different names |
| Tetros.NameFallbackMisspelt | consts_test.go:18 | the code's fallback for Tetro(42) is not the "unknown" the test expects |
| Tetros.IntendedName | consts.go:36-37 | the corrected `String` agrees with the code on kinds and returns "unknown" otherwise |
| Tetros.IntendedNameMeetsTest | consts_test.go:10-19 | the corrected name meets every case of `Test_Tetro_String` |
| Tetros.RandTetro | consts.go:41-45 | a draw n in [0, 7) gives the kind n + 1, always one of I..L |
| Tetros.RandTetroOnto | consts.go:41-45 | every kind is produced by exactly one draw |
| Tetros.Shapes | consts.go:102-231 | O has one state; I, S and Z have two; T, J and L have four; any other value has none |
| Tetros.ShapesWellFormed | consts.go:102-231 | every state has four distinct offsets with x in [0,3] and y in [-3,0], one of them on row 0 |
| Tetros.Inc | consts.go:56-61 | from a valid state the next state is the following one, wrapping after the last; any r >= 0 lands on a valid state |
| Tetros.IncOfNegative | consts.go:56-61 | a negative rotation is not brought back into range (Inc(-1, J) == 0) |
| Tetros.IncOnO | consts.go:56-61 | on O every rotation, negative ones included, goes to R1 |
| Tetros.IncStep | consts.go:56-61 | one step of Inc is `p mod len + 1` |
| Tetros.IncNFormula | consts.go:56-61 | k steps from state r land on `(r - 1 + k) mod len + 1` |
| Tetros.IncCycle | consts.go:56-61 | as many steps as the kind has states return to the start |
| Tetros.JCycle | consts_test.go:28-33 | J cycles R1, R2, R3, R4, R1 |
| Tetros.Blocks | tetromino.go:68-72 | `positions[t][rot-1]` is a well-formed state |
| Tetros.HasStateOnlyForKinds | consts.go:102-231 | only the seven kinds have a valid rotation |
| Marks.Mark.Up | board.go:146-151 | `up`, as `moveUp` and mark_test.go:40 use it: the block's cell moves one row higher and the rest of the block is kept |
| Marks.Mark.In | board.go:140-143 | `in`, as `hasOverlap` and mark_test.go:48 use it: the block's cell is a key of the grid (no contract; its cases are stated by Marks.InCases) |
| Marks.InCases | mark_test.go:9-50 | the two cases of `Test_Mark_In`: a block is not in an empty grid, and the block at (11, 18) raised one row is in a grid holding (11, 17). A third clause goes beyond the test: that block itself is in a grid holding (11, 18), while the raised block is not when (11, 17) is free |
| Pieces.Dims | tetromino.go:74-95 | the per-kind dimensions are the exact extent of the kind's first state |
| Pieces.Tetromino.constructor | tetromino.go:11-19 | a new piece holds the given fields and is not frozen |
| Pieces.Tetromino.Update | tetromino.go:21-26 | a frozen piece stays put; otherwise it moves by the step |
| Pieces.Tetromino.MoveRight | tetromino.go:40-45 | one size right and nothing else, unless frozen |
| Pieces.Tetromino.MoveLeft | tetromino.go:47-52 | one size left and nothing else, unless frozen |
| Pieces.Tetromino.RotateRight | tetromino.go:54-59 | the next rotation state and nothing else, unless frozen |
| Pieces.Tetromino.Accelerate | tetromino.go:120-122 | velocity becomes (0, 600), frozen or not |
| Pieces.Tetromino.RoundPosToSize | tetromino.go:61-66 | both coordinates are multiples of the size, not above the position and within one size of it |
| Pieces.Tetromino.Blocks | tetromino.go:68-72 | the current state's offsets, a state of the piece's kind |
| Pieces.Tetromino.Max | tetromino.go:74-95 | the far corner lies the kind's dimensions, in pixels, from the anchor |
| Pieces.Tetromino.Center | tetromino.go:97-118 | the centre is exactly half the kind's dimensions in pixels |
| Pieces.Tetromino.MoveCenterTo | tetromino.go:124-128 | afterwards the piece's centre, y axis flipped, is one row above the target |
| Pieces.MoveRightThenLeft | tetromino.go:40-52 | a right move followed by a left move restores the position |
| Collapse.ShiftSettles | board.go:255-262 | a moved block has no pending fall, and moving it again changes nothing |
| Collapse.Origins | board.go:255-262 | when destinations are distinct, each destination names the one block bound for it |
| Collapse.Compact | board.go:255-262 | the compaction holds every block at its destination, filed under it and settled, and nothing else |
| Collapse.ExpectedStart | board.go:255 | before the pass nothing has moved |
| Collapse.StepAtCell | board.go:256-261 | one step of the pass, cell by cell: the destination gains the block; the cell it left loses it |
| Collapse.ExpectedStep | board.go:256-261 | deleting a block's current cell and filing it at its destination keeps the grid equal to the closed form |
| Collapse.CompleteAtCell | board.go:255-262 | after an ordered queue a cell is occupied exactly when some block is bound for it |
| Collapse.ExpectedComplete | board.go:255-262 | after the whole ordered queue, duplicates included, the grid is the compaction |
| Collapse.ObjsStep | board.go:256-261 | processing an entry settles that block and no other |
| Drops.ColumnCount | board.go:245-251 | the column scan meets each occupied cell between the bounds exactly once |
| Drops.RowUpsCount | board.go:243-252 | a cleared row queues each block once per cleared block beneath it in its column |
| Drops.UpListCount | board.go:241-254 | the queue holds a block once per cleared block beneath it, and only blocks on row 0 or below |
| Drops.UpListInGrid | board.go:247-250 | only occupied cells are queued |
| Drops.ColumnOrder | board.go:245-251 | the scan meets the lower of two blocks first |
| Drops.RowUpsOrder | board.go:243-252 | above a cleared block, a lower block is queued before the higher one |
| Drops.UpListOrder | board.go:241-254 | the same holds in the whole queue |
| Drops.DownsSnoc | board.go:247-250 | queueing a block raises its pending fall by one |
| Clearing.ExtentTilesBox | board.go:206-208 | on a whole-block box, the cell extent covers exactly the box's pixels |
| Clearing.ExtentColumns | board.go:206-208 | on a whole-block box, the first and last-plus-one columns of the extent are the box's left and right walls |
| Clearing.CellExtent | board.go:206-208 | the box in cells, `int(x/size)` and so on, with width and height added to the corner: a box of non-negative size gives a non-empty or empty extent, never an inverted one |
| Clearing.RowOf | board.go:204-205 | `int(p.Y() / 10)`: for a block on or below row 0, the row whose pixels contain the block's pixel |
| Clearing.VisitRows | board.go:209-233 | the rows loop of the first pass visits the extent's rows; it reports the block's row once, only when it is inside the extent, not yet seen and full, and collects exactly that row's blocks |
| Clearing.GameExtent | board.go:206-208 | the game's box (20,20,100,200) gives columns 2..11 and rows 2..21 |
| Clearing.FullRowsSpec | board.go:203-234 | reported rows are distinct, and a row is reported iff a block lies on it, it is inside the box and every column of the box is occupied on it |
| Clearing.RowMarks | board.go:226-231 | a full row yields one block per column of the box |
| Clearing.RowRcsSpec | board.go:237-238 | a row's blocks occupy exactly that row's columns of the box |
| Clearing.RcSetSpec | board.go:235-240 | the deleted cells are exactly the reported rows' cells inside the box |
| Clearing.UnderSpec | board.go:242-253 | the cleared blocks beneath a cell are the reported rows below it, when it is in a column of the box |
| Clearing.DropGap | board.go:255-262 | between two rows, a fall can grow by at most the number of rows in between |
| Clearing.DropKeepsOrder | board.go:255-262 | of two survivors in one column, the upper stays strictly above the lower |
| Clearing.PendingInjective | board.go:255-262 | no two survivors get the same destination |
| Clearing.CollapsedMoves | board.go:235-263 | every survivor ends its fall lower, at the same column, with the pixel moved by as many blocks, settled |
| Clearing.CollapsedOnlyMoves | board.go:235-263 | after clearing, the grid is filed (key == cell, no pending fall) and holds only moved survivors |
| Clearing.CollapsedKeepsOrder | board.go:235-263 | the collapse keeps the vertical order within a column |
| Clearing.CollapsedNoRows | board.go:235-263 | with no reported rows the grid is unchanged |
| Clearing.CollapsedRefillsRow | board.go:245-261 | a block above a cleared row falls into it, so a reported row can be occupied afterwards |
| Clearing.CollapsedKeepsBelow | board.go:245-251 | a block below every reported row, or outside the box's columns, stays where it is |
| Clearing.DeletedAreSurvivors | board.go:235-240 | the delete pass leaves exactly the blocks not on a reported row inside the box |
| Clearing.CountedDowns | board.go:241-254 | after the counting pass each survivor's pending fall is its drop |
| Clearing.QueuedDrop | board.go:241-254 | a survivor is queued as often as it must fall |
| Clearing.CountedReady | board.go:241-254 | the queue and the counted grid meet the last pass's needs (only occupied cells, distinct destinations, counts equal to the falls) |
| Clearing.CountedOrderAt | board.go:241-254 | a queued block's destination, when itself queued, comes before a later occurrence of the block |
| Clearing.CountedOrder | board.go:241-254 | the queue is ordered as the last pass needs |
| Clearing.RowIsFull | board.go:215-221 | `hasRow` is true iff every column of the box is occupied on the row |
| Clearing.CollectRow | board.go:226-231 | the row's blocks, column by column |
| Clearing.FindFullRows | board.go:203-234 | the first loop reports the rows of the specification and collects their blocks |
| Clearing.DeleteRows | board.go:235-240 | the delete pass removes exactly the collected cells |
| Clearing.CountedByDowns | board.go:247-250 | counting by the queue's multiset is the `Downs` grid |
| Clearing.ScanColumn | board.go:245-252 | scanning a column appends its occupied cells and raises their falls |
| Clearing.ScanRow | board.go:243-253 | scanning a row appends each block's column scan |
| Clearing.CountDrops | board.go:241-254 | the counting pass builds the queue `UpList` and the grid of falls it counts |
| Clearing.ApplyDrops | board.go:255-262 | the last pass, run over an ordered queue, yields the compaction |
| Boards.Board.constructor | board.go:15-20 | a new board has the given box and an empty grid |
| Boards.Board.Reset | board.go:22-30 | `reset` leaves the grid empty |
| Boards.Board.CanGoRight | board.go:32-49 | true iff every block, one size right of the floored position, is left of the right wall and on a free cell |
| Boards.Board.CanGoLeft | board.go:51-68 | true iff every block, one size left of the floored position, is not left of the left wall and is on a free cell |
| Boards.Board.CanRotate | board.go:70-86 | true iff every block of the next state, at the unrounded position, passes the one-block-right wall test; the grid is not consulted |
| Boards.Board.CheckCollide | board.go:118-132 | true iff the cell one size below some block is occupied |
| Boards.Board.TopOfStack | board.go:138-161 | the blocks are raised by the first number of rows that clears the stack, and the piece moves up by that many sizes |
| Boards.Overlap | board.go:139-145 | `hasOverlap`: one of the four blocks is on an occupied cell (no contract; used by the TopOfStack row) |
| Boards.Raised | board.go:146-151 | `moveUp` applied u times: as many blocks, each with its cell u rows higher in the same column and nothing else changed |
| Boards.Board.FinalizePosition | board.go:183-188 | the grid becomes the old grid with the piece's blocks filed under their cells, and stays filed (every block under its own cell) |
| Boards.Board.CheckBounds | board.go:88-116 | a frozen or unlanded piece changes nothing; a landed one is snapped, raised to the top of the stack, frozen and filed, keeping the grid filed and, on a whole-block row, overwriting no block |
| Boards.Landed | board.go:89-108 | the landing test: the piece is below the last row, or `checkCollide` holds (no contract; used by the CheckBounds row) |
| Boards.LockAnchor | board.go:100-109 | the snap of a landed piece: never below the last row, never right of or below where it was, and on a block line unless clamped to the last row |
| Boards.Board.Lock | board.go:100-114 | the landing steps shared by both cases: raise, then file; on a whole-block row the filed cells were free |
| Boards.Board.ClearFullRows | board.go:196-264 | reports the specification's rows and leaves exactly their collapse, with the grid filed |
| Boards.NoFullRowKeepsGrid | board.go:196-234 | with no full row under the piece nothing is reported and the grid is unchanged |
| Boards.RaiseStep | board.go:146-155 | one more `up` on the four blocks raises them one more row |
| Boards.OverlapBelowStack | board.go:153-156 | an overlapping block is on a row of the stack, which bounds the loop |
| Boards.PlacedSpec | board.go:183-188 | filing adds exactly the blocks' cells, keeps every other block, and leaves each block under its cell when the cells are distinct |
| Boards.PlacedFiled | board.go:183-188 | filing settled blocks under their cells keeps the invariant `grid[k].rc == k` |
| Boards.PlacedMarksCells | board.go:163-181 | on a whole-block anchor, `positions` gives one block per offset at the anchor's cell plus the offset, all cells distinct |
| Boards.PlacedMarks | board.go:163-181 | `positions`: one settled block per offset, with the piece's image, at the anchor moved by the offset, filed under the cell of its own pixel |
| Boards.Board.Positions | board.go:163-181 | the piece's four blocks, with its image and no pending fall, each filed under the cell of its own pixel |
| Boards.RaisedPlacedMarks | board.go:138-168 | on a whole-row anchor, raising the piece by u rows gives the cells of the blocks raised u rows |
| Boards.FlooredBlockCell | board.go:32-68 | a block of the floored position moved sideways has the pixel column and cell of the same block of the unfloored position moved sideways, when x is whole and y is whole or the block is not above row 0 |
| Boards.MovedMarkAgrees | board.go:32-68 | the block `positions` files for the moved piece sits in the column and cell that `CanGoRight` or `CanGoLeft` checks |
| Boards.MovedRightFree | board.go:32-49 | on values: every block passing the right test means the piece moved one block right lies left of the wall on free cells |
| Boards.MovedLeftFree | board.go:51-68 | on values: every block passing the left test means the piece moved one block left lies inside the left wall on free cells |
| Boards.RightMoveIsFree | board.go:32-49 | on a position whole in x, and whole in y or with no block above row 0, `CanGoRight` means the moved piece lies left of the wall on free cells |
| Boards.LeftMoveIsFree | board.go:51-68 | on a position whole in x, and whole in y or with no block above row 0, `CanGoLeft` means the moved piece lies inside the left wall on free cells |
| Boards.CollidesBelow | board.go:118-132 | on a whole-block anchor, a collision means the cell right under one of the piece's cells is occupied |
| Boards.RotationFitsColumns | board.go:77-83 | the wall test as written accepts exactly the columns from one left of the box to its last |
| Boards.RotationInsideColumns | board.go:77-83 | the corrected wall test accepts exactly the box's columns |
| Boards.RotationFitsOverhang | board.go:77-83 | on the game's box a block in column 1, outside the box, passes the test as written |
| Boards.RotationFitsInPlay | board.go:51-86 | with the anchor at or right of the left wall, which `CanGoLeft` keeps in play, the wall test as written and the corrected one agree on every block |
| Scores.ScoreBoard.Add | score_board.go:13-21 | score grows by level × n and lines by n; the new level is one more than the tens of the new score |
| Scores.AddVectors | score_board_test.go:22-53 | the four cases of the score board test |
| Scores.AddMonotone | score_board.go:14-19 | with n >= 0 and level >= 0, score and lines never drop, and a non-negative score has level >= 1 |
| Scores.AddZero | score_board.go:14-15 | adding 0 keeps score and lines, and recomputes the level from the score |
| Scores.LevelFromScore | score_board.go:14-15 | the new level depends only on the new score |
| Scores.LevelNeverDrops | score_board.go:13-21 | from a board whose level matches its score, scoring never lowers the level |
| Scores.ScoreBoard.Velocity | score_board.go:25-27 | the velocity is vertical, at least 5 pixels per tick for a non-negative level |
| Scores.VelocityIncreases | score_board.go:25-27 | velocity is vertical and strictly faster at a higher level |
| Cli.FlagType | scripts/cli/main.go:13-24 | "unknown" exactly when the type is not int, bool or int64; otherwise a flag type name ending in "Flag" |
| Cli.ContextMethod | scripts/cli/main.go:26-37 | "unknown" exactly when the type is not int, bool or int64; otherwise a getter whose name starts with the type's first letter upper-cased |
| Cli.FlagTypeMatchesContextMethod | scripts/cli/main.go:13-37 | both tables know int, bool and int64 and give "unknown" otherwise; a flag type is its getter's name plus "Flag" |
| Cli.TrimLeft | scripts/cli/main.go:39-43 | drops exactly the leading newlines: the result is a suffix, never starts with a newline, and only newlines were removed |
| Cli.TrimLeftIdempotent | scripts/cli/main.go:39-43 | trimming twice trims no more |
| Cli.Split | scripts/cli/main.go:46 | `strings.Split(s, "-")`: one more part than dashes, no part holds a dash, and joining the parts gives back s |
| Cli.Cap | scripts/cli/main.go:45-53 | the loop builds the capitalized parts, and the result holds no dash |
| Cli.CapitalizedNoDash | scripts/cli/main.go:48-51 | upper-casing creates no dash |
| Cli.CapitalizedLength | scripts/cli/main.go:48-51 | the capitalized parts are as long as the parts |
| Cli.CapLength | scripts/cli/main.go:45-53 | the result's length is the input's less its dashes |
| Cli.CapIdempotent | scripts/cli/main.go:45-53 | `Cap` of an accepted input is accepted, and `Cap` of it is unchanged |
| Cli.CapitalizedFirst | scripts/cli/main.go:48-51 | the result starts with the first part's first character upper-cased |
| Cli.DefaultValue | scripts/cli/main.go:55-69 | nothing iff the value is a blank string or the type is not int, int64 or string; otherwise the `%d` or `%s` line of that value |
| Cli.Blank | scripts/cli/main.go:57 | `TrimSpace(s) == ""` iff every character is white space |

## Left out

- Rendering, images, audio, keyboard input, timing, the game loop (game.go), and the `Draw` methods: these are I/O, not game logic.
- The float geometry of `shapes`: vectors are integer pairs. Only `Add`, `Sub`, `Scale`, `MinX`, `MaxX` and `MaxY` are used.
- The random generator: `RandTetro` takes the draw as a parameter. `seed.go` has no observable effect.
- `Board.IsGameOver` (always false), and `Writer` and `LoadNewCLI` (YAML parsing and file output).
- Pieces.Tetromino.Update: the float integration of velocity × dt is a displacement parameter. Only the frozen guard is modelled.
- Pieces.Tetromino.MoveCenterTo: the Go method also returns the piece for chaining. The model does not.
- The `size` fields of `Tetromino` and `mark` always equal the block size, so they are the constant `Size`.
- Go's float comparisons in `CheckBounds` (`y/size > (MaxY-size)/size`) are compared as the exact quotients of whole pixel values. Float rounding is not modelled.
- Go ints are unbounded here. Scores.ScoreBoard.Add does not model 64-bit overflow.
- Pointer aliasing:
  - Settled blocks are values.
  - During the collapse pass a block is named by the cell it held when the pass began.
  - `topOfStack` returns the raised blocks instead of mutating them in place, which is the same, since the caller discards them.
- Boards.Board.Reset: Go's map iteration order is arbitrary, and the model collects blocks in an arbitrary order (`:|`).
- Boards.Board.ClearFullRows: the contract states the compaction, not "no block remains on a reported row". The code does not do the latter, because blocks above a cleared row fall into it (Clearing.CollapsedRefillsRow). The statement holds after the delete pass (Clearing.DeletedAreSurvivors).
- Boards.Board.CheckBounds: the no-overwrite clause is stated only when the snapped row is a whole block. This always holds after a collision, and holds after a fall through the floor when the floor is on a block line.
- Boards.PlacedMarksCells: distinct cells are stated only for whole-block anchors. Off the block grid, truncation toward zero can merge cells on either axis. For a negative, non-aligned x, two columns of blocks share one cell. For a non-aligned y such as 5, the offsets 0 and -1 give pixels 5 and -5, and both truncate into row 0.
- Cli.TrimLeft: `fmt.Sprintf` formatting is not modelled. The model trims the formatted text.
- Cli.DefaultValue: the `fmt.Sprintf` rendering of the line is not modelled. The model returns the verb and the value instead. The YAML value's dynamic type is the datatype `Value`.
- Cli.Cap: strings are sequences of single-byte characters, and upper-casing covers ASCII only. In Go, `ToUpper` on the first byte of a multi-byte character gives U+FFFD.
- Boards.Board.CanRotate: the index panic for a rotation whose successor is out of range (a negative rotation) is a precondition.
- Boards.Board.CanRotate: `Rotation.AsIndex`, which board.go:72 calls, is not part of this model. It is taken to be `rot - 1`, the same index `blocks` uses to look up a state (tetromino.go:68-72).
- Marks.Mark.Up and Marks.Mark.In: mark.go declares no `up` or `in` method, and neither does any other file this model follows. Their meaning is taken from their calls (board.go:140-150) and from mark_test.go:40 and 48: `up` moves the cell one row higher and keeps the rest, and `in` looks the cell up in the grid.
- Go panics become preconditions. The model does not represent a crashing call, so each member requires the input that keeps the Go code from panicking:
  - Tetros.Inc, Pieces.Tetromino.Max, Pieces.Tetromino.Center, Pieces.Tetromino.MoveCenterTo and Pieces.Dims require a kind from 1 to 7 (`IsKind`). MoveCenterTo needs it because it calls `Center`. For any other kind the shape table has no entry, and `Inc` takes `% 0`. Pieces.Tetromino.RotateRight requires it only for a piece that is not frozen, since a frozen piece returns before rotating.
  - Tetros.Blocks and Pieces.Tetromino.Blocks require a rotation inside the kind's table (`HasState`, `HasShape`). Otherwise Go reads a nil map entry and indexes out of range.
  - Boards.Board.CanGoRight, Boards.Board.CanGoLeft, Boards.Board.CheckCollide, Boards.Board.FinalizePosition, Boards.Board.Lock and Boards.Board.ClearFullRows require `t.HasShape()` for the same reason, since each reads the piece's blocks.
  - Cli.Cap requires that no dash-separated part is empty (`Filled(Split(s))`). Go's `p[0:1]` panics on an empty part, such as the one a leading, trailing or doubled dash creates.

## Findings

| source | as written | input that shows it | evidently intended | confidence | as-written member | corrected member |
|---|---|---|---|---|---|---|
| consts.go:36-37 | the fallback name is "unkown" | Tetro(42), for which consts_test.go:18 expects "unknown" | the fallback "unknown" | high, not executed | Tetros.NameFallbackMisspelt | Tetros.IntendedNameMeetsTest |
| board.go:77-83 | the left wall is tested against the block's right edge, `pos.x + size < MinX` | calling `CanRotate` directly on the game's box with a rotation putting a block at x = 10 (column 1, left of the box's column 2) accepts it. In play, `CanGoLeft` keeps the anchor at or right of the wall, where both tests agree (Boards.RotationFitsInPlay), so the overhang is reachable only through the board's API | test the block's left edge, `pos.x < MinX` | medium, not executed | Boards.RotationFitsOverhang | Boards.RotationInsideColumns |
