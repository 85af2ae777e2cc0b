# Tetris core, modelled in Dafny

This project models the core of a terminal Tetris written in TypeScript. It covers:

- the playfield (`Board`) with bounded cell access and line clearing;
- the catalog of the seven tetrominoes with their four precomputed rotations;
- the falling piece (`ActivePiece`), with collision, moves, rotation with wall kicks and the hard-drop distance;
- the 7-bag randomizer (`Bag7`);
- the frame buffer and the differential terminal renderer;
- the byte decoder that turns terminal input into keys.

Each module sits in its own file:

| file | module | models |
|---|---|---|
| `constants.dfy` | `Constants` | the board size, cell width and colours, and JavaScript's `n & 3` |
| `pieces.dfy` | `Pieces` | `PIECES` and `getRotation` |
| `board.dfy` | `Boards` | `Board` |
| `active_piece.dfy` | `ActivePieces` | `ActivePiece` |
| `randomizer.dfy` | `Randomizer` | `Bag7` |
| `renderer.dfy` | `Renderers` | `FrameBuffer`, `Renderer`, `createPlayfieldBuffer` |
| `input.dfy` | `Input` | `Input.decode` |

The model takes the source's own shape wherever that code changes state:
- `Board`, `ActivePiece`, `Bag7`, `FrameBuffer` and `Renderer` are classes whose methods update their fields.
- `FrameBuffer`'s cells are a two-dimensional array.
- The loops of `clearLines`, `hardDropDistance`, the Fisher–Yates `refill`, `draw` and `decode` are `while` and `for` loops with invariants.

Each such method is proved against a pure specification function, and the properties are proved about those functions:

| method | specification function |
|---|---|
| `ClearLines` | `Cleared` |
| `HardDropDistance` | `DropDistance` |
| `Rotate` | `FirstFree` over the kick candidates |
| `Next` | `NextOf` |
| `PeekQueue` | `PeekOf` |
| `Draw` | `FullFrame` / `DiffFrame` |
| `Decode` | `DecodeBytes` |

Some of the source's inputs and outputs are abstracted:
- **Randomness.** The random source `rng` becomes a `Source`: a function that gives, for the k-th value drawn while the shuffle is at index `i`, the swap partner `Math.floor(rng() * (i + 1))`, which is an integer in `0..i`.
- **Renderer output.** The renderer returns its output as a sequence of abstract terminal commands (`Reset`, `MoveTo`, `Bg`, `Glyph`) instead of writing ANSI strings.
- **Virtual terminal.** A small virtual terminal (`Step`, `Replay`) gives those commands a meaning. The renderer lemmas use it to say what the screen shows after a frame.

## Model

| member | source | states |
|---|---|---|
| `Constants.AndThreeIsMod4` | src/game/activePiece.ts:15 | JavaScript's `n & 3` (ToInt32, then bitwise AND) equals the Euclidean `n % 4`, negative `n` included |
| `Constants.AndThreePeriodic` | src/game/pieces.ts:98 | `r & 3` has period 4 |
| `Pieces.Piece` | src/game/pieces.ts:17-95 | each catalog entry carries its own kind, a non-zero colour and four rotations of four offsets; that every rotation is a tetromino inside the 4x4 box is `Pieces.CatalogWellFormed` |
| `Pieces.GetRotation` | src/game/pieces.ts:97-99 | `getRotation(def, rot)` is one of the definition's rotations, the one at index `rot mod 4` |
| `Pieces.GetRotationPeriodic` | src/game/pieces.ts:97-99 | rotation indices `r` and `r + 4` select the same rotation |
| `Pieces.CatalogWellFormed` | src/game/pieces.ts:17-95 | every kind's entry has its own kind, exactly 4 rotations, and each rotation has 4 pairwise distinct offsets inside the 4x4 box |
| `Pieces.ORotationsCoincide` | src/game/pieces.ts:32-37 | the four rotations of O occupy the same set of cells |
| `Pieces.OthersRotate` | src/game/pieces.ts:17-95 | every kind other than O has a second rotation that differs from its first as a set of cells |
| `Pieces.AllKindsDistinct` | src/game/randomizer.ts:19 | the list of kinds the randomizer shuffles holds each of the seven kinds exactly once |
| `Boards.EmptyRow` | src/game/board.ts:37 | a new row has `BOARD_WIDTH` cells, all empty |
| `Boards.CountFull` | src/game/board.ts:34 | the number of full rows never exceeds the number of rows |
| `Boards.NonFullFacts` | src/game/board.ts:33-40 | the kept rows are rows of the input that are not full, and kept plus full rows add up to all rows |
| `Boards.SplitCounts` | src/game/board.ts:33-40 | both the full-row count and the kept rows distribute over concatenation of row lists |
| `Boards.ClearedShape` | src/game/board.ts:36-37 | the cleared grid still has `BOARD_HEIGHT` rows of `BOARD_WIDTH` cells |
| `Boards.ClearedTopAndNoFullRow` | src/game/board.ts:36-37 | after clearing, the top rows (one per cleared line) are empty and no row is full |
| `Boards.ClearedRowMovesDown` | src/game/board.ts:36-37 | each surviving row moves down by exactly the number of full rows below it, so survivors keep their relative order |
| `Boards.ClearedWithoutFullRows` | src/game/board.ts:33-41 | without a full row, clearing reports 0 and leaves the grid unchanged |
| `Boards.ClearedIdempotent` | src/game/board.ts:31-42 | clearing a cleared grid finds no full row and changes nothing |
| `Boards.ScannedSplit` | src/game/board.ts:33 | while the scan is at row `y`, the compacted rows above it number `y` and row `y` itself is untouched |
| `Boards.ClearStepFull` | src/game/board.ts:34-38 | removing full row `y` and pushing an empty row on top extends the compacted prefix by one row and one count |
| `Boards.ClearStepKept` | src/game/board.ts:34 | a row that is not full is kept in place and the count is unchanged |
| `Boards.Board.constructor` | src/game/board.ts:10-12 | a new board has `BOARD_HEIGHT` empty rows of `BOARD_WIDTH` cells |
| `Boards.Board.Reset` | src/game/board.ts:14-18 | after `reset` every cell is empty |
| `Boards.Board.Get` | src/game/board.ts:20-23 | a position off the board reads as the solid colour 1; one on the board reads its grid cell |
| `Boards.Board.Set` | src/game/board.ts:25-28 | off the board nothing changes; on it exactly cell (x, y) changes, and a later `get` there returns the written value |
| `Boards.Board.ClearLines` | src/game/board.ts:31-42 | returns the number of rows that were full before the call (non-contiguous ones included), and the grid becomes the cleared grid |
| `Boards.Board.HasBlocksInHidden` | src/game/board.ts:45-50 | true exactly when some cell of the hidden rows is not empty |
| `ActivePieces.CellsAt` | src/game/activePiece.ts:21-26 | the piece's cells are the origin plus each offset of the current rotation, in the rotation's order |
| `ActivePieces.ScanMeaning` | src/game/activePiece.ts:29-33 | the collision scan finds a blocked cell exactly when some remaining cell hits a wall, the floor or a truthy grid cell |
| `ActivePieces.ActivePiece.Collides` | src/game/activePiece.ts:28-34 | `collides(board)` holds iff one of the piece's four current cells is off either side, at or below the bottom, or on the grid over a truthy cell |
| `ActivePieces.CollidesMeaning` | src/game/activePiece.ts:28-34 | collision holds iff one of the 4 cells is left of 0, at or right of the width, at or below the height, or on the grid (y >= 0) over a truthy cell; cells above the grid are never looked up |
| `ActivePieces.FreeIsAboveBottom` | src/game/activePiece.ts:30 | a piece that does not collide lies above the bottom of the board |
| `ActivePieces.RestsOnSomething` | src/game/activePiece.ts:36-43 | a piece that is free but would collide one row lower has a cell resting on the floor or on a truthy cell |
| `ActivePieces.CandidatesInOrder` | src/game/activePiece.ts:50 | the positions tried are: in place, then one left, one right, one up |
| `ActivePieces.FirstFree` | src/game/activePiece.ts:51-55 | the chosen kick index lies between the starting index and the number of candidates |
| `ActivePieces.FirstFreeMeaning` | src/game/activePiece.ts:51-55 | all candidates before the chosen one collide, and the chosen one (if any) does not |
| `ActivePieces.FirstFreeIs` | src/game/activePiece.ts:51-55 | the first free candidate is `k` when all before `k` collide and `k` does not |
| `ActivePieces.Turned` | src/game/activePiece.ts:47 | the turned rotation index is always in 0..3 |
| `ActivePieces.TurnedIsAndThree` | src/game/activePiece.ts:47 | the turned index equals `(rot + (dir === 1 ? 1 : 3)) & 3` |
| `ActivePieces.TurnedBack` | src/game/activePiece.ts:47 | turning one way and then back restores the rotation |
| `ActivePieces.FourTurns` | src/game/activePiece.ts:47 | four turns in one direction restore the rotation |
| `ActivePieces.DropDistanceMeaning` | src/game/activePiece.ts:62-73 | the piece is free at every row from 1 to `d` below its position and collides `d + 1` rows below |
| `ActivePieces.ActivePiece.constructor` | src/game/activePiece.ts:11-16 | the piece stores its definition and spawn position, and `rot & 3` as its rotation, which is in 0..3 |
| `ActivePieces.ActivePiece.Cells` | src/game/activePiece.ts:21-26 | exactly 4 cells, each the position plus an offset of the current rotation |
| `ActivePieces.ActivePiece.Move` | src/game/activePiece.ts:36-43 | succeeds iff the moved piece does not collide; then the position moves by (dx, dy), otherwise it is restored; the rotation never changes |
| `ActivePieces.ActivePiece.Rotate` | src/game/activePiece.ts:45-60 | on success the rotation is turned once, the piece does not collide, and the position is the first free one of in place, left, right, up; on failure rotation and position are restored |
| `ActivePieces.ActivePiece.HardDropDistance` | src/game/activePiece.ts:62-73 | returns the drop distance and leaves position and rotation as they were |
| `Randomizer.ShuffleDownPermutes` | src/game/randomizer.ts:21-24 | the Fisher–Yates loop only reorders, whatever the swap partners |
| `Randomizer.ShuffleDownDistinct` | src/game/randomizer.ts:21-24 | the Fisher–Yates loop keeps distinct elements distinct |
| `Randomizer.ShuffleIsPermutation` | src/game/randomizer.ts:18-27 | every refill is a permutation of the seven kinds: each kind once, none twice |
| `Randomizer.ReversePermutes` | src/game/randomizer.ts:15 | reversing only reorders |
| `Randomizer.JsSlice` | src/game/randomizer.ts:15 | `slice(start)` with `-|s| <= start < 0` is the last `-start` elements, and `slice(0)` is the whole array |
| `Randomizer.NextPops` | src/game/randomizer.ts:8-11 | `next` returns the top of the stack after refilling an empty one, and leaves the rest |
| `Randomizer.RunPops` | src/game/randomizer.ts:8-11 | while the stack holds `m` kinds, `m` calls of `next` pop its top `m` in order and draw no random values |
| `Randomizer.RunSplit` | src/game/randomizer.ts:8-11 | `a + b` calls of `next` are `a` calls followed by `b` more |
| `Randomizer.SevenFromEmpty` | src/game/randomizer.ts:8-11 | seven calls on an empty stack refill once and return that whole permutation, leaving the stack empty |
| `Randomizer.WholeBags` | src/game/randomizer.ts:8-11 | after `7k` calls from a fresh randomizer the stack is empty and `6k` random values were used |
| `Randomizer.SevenBagWindows` | src/game/randomizer.ts:8-27 | draws `7k` to `7k + 6` of a randomizer only asked for `next` are the seven kinds, each exactly once |
| `Randomizer.ReverseDistinct` | src/game/randomizer.ts:15 | reversing keeps distinct elements distinct |
| `Randomizer.TopUpFills` | src/game/randomizer.ts:14 | after the peek's refill loop the stack holds at least `n` kinds |
| `Randomizer.PushedAppends` | src/game/randomizer.ts:26 | `m` refills append `m` permutations on top of the stack and use `6m` random values |
| `Randomizer.TopUpIsPushed` | src/game/randomizer.ts:14 | the peek's loop performs exactly the fewest refills that reach `n` |
| `Randomizer.PeekOnlyPushes` | src/game/randomizer.ts:13-16 | `peekQueue` never removes or reorders stacked kinds; it only pushes whole permutations on top |
| `Randomizer.PeekLength` | src/game/randomizer.ts:13-16 | for `n >= 1`, `peekQueue(n)` returns exactly `n` kinds and at least `n` stay stacked |
| `Randomizer.PeekThenNext` | src/game/randomizer.ts:13-16 | for `n >= 1`, the next `n` calls of `next` after `peekQueue(n)` return the peeked kinds, in order |
| `Randomizer.PeekIdempotent` | src/game/randomizer.ts:13-16 | a second peek of the same length returns the same kinds and refills nothing |
| `Randomizer.PeekZeroReturnsAll` | src/game/randomizer.ts:15 | `peekQueue(0)` returns the whole stack in pop order, not an empty list |
| `Randomizer.ZeroShuffle` | src/game/randomizer.ts:21-24 | with a source that always yields 0, every refill is O, T, S, Z, J, L, I |
| `Randomizer.ZeroFirstDraws` | src/game/randomizer.ts:8-11 | with that source, a fresh randomizer draws I first, leaves O alone after six draws, and draws O seventh |
| `Randomizer.PeekBreaksSevenBag` | src/game/randomizer.ts:14 | with that source, `peekQueue(2)` after six draws buries the leftover O, so the seventh draw is a second I |
| `Randomizer.IntendedTopUp` | src/game/randomizer.ts:14 | the corrected top-up leaves at least `n` kinds stacked |
| `Randomizer.RefillUnderKeepsDraws` | src/game/randomizer.ts:18-27 | a refill placed under the stack changes nothing that any number of `next` calls return |
| `Randomizer.IntendedTopUpKeepsDraws` | src/game/randomizer.ts:14 | the corrected top-up changes nothing that later `next` calls return |
| `Randomizer.IntendedPeekKeepsDrawOrder` | src/game/randomizer.ts:13-16 | the corrected peek returns exactly the next `n` draws (none for `n <= 0`) and leaves every later draw as it would have been |
| `Randomizer.Bag7.constructor` | src/game/randomizer.ts:4-6 | a new randomizer holds nothing and has drawn nothing from its source |
| `Randomizer.Bag7.Refill` | src/game/randomizer.ts:18-27 | shuffles the seven kinds from the last index down and pushes that permutation on top, using six random values |
| `Randomizer.Bag7.Next` | src/game/randomizer.ts:8-11 | refills when empty, then pops the top |
| `Randomizer.Bag7.PeekQueue` | src/game/randomizer.ts:13-16 | refills on top until at least `n` are stacked, then returns the last `n` reversed, which is pop order |
| `Renderers.FrameBuffer.constructor` | src/engine/renderer.ts:13-19 | a new buffer of the given size has every cell without colour |
| `Renderers.FrameBuffer.Fill` | src/engine/renderer.ts:21-27 | every cell gets the given background |
| `Renderers.FrameBuffer.Clone` | src/engine/renderer.ts:29-37 | a new buffer of the same size and contents, sharing no storage with the original |
| `Renderers.CreatePlayfieldBuffer` | src/engine/renderer.ts:129-131 | a new, empty buffer of `BOARD_WIDTH` by `BOARD_HEIGHT` cells |
| `Renderers.RunEnd` | src/engine/renderer.ts:86-89 | a changed run ends at the first unchanged cell or at the row's end, and every cell inside it changed |
| `Renderers.Renderer.constructor` | src/engine/renderer.ts:41 | the renderer stores its origin |
| `Renderers.Renderer.SetOrigin` | src/engine/renderer.ts:43-46 | only the origin changes |
| `Renderers.Renderer.Draw` | src/engine/renderer.ts:48-125 | without a previous frame the output is a full repaint of the current frame; with one it is the diff frame of the two |
| `Renderers.FullDraw` | src/engine/renderer.ts:55-73 | the full-repaint loop writes a reset, then every row at the left edge of the playfield |
| `Renderers.DiffDraw` | src/engine/renderer.ts:75-122 | the diff pass writes a reset, the changed runs of every row, then the bottom row again |
| `Renderers.DiffAllRows` | src/engine/renderer.ts:76-103 | the row loop writes each row's changed runs, top to bottom |
| `Renderers.DiffRow` | src/engine/renderer.ts:77-102 | within one row, each maximal run of changed cells becomes one segment at the run's terminal column |
| `Renderers.PaintCells` | src/engine/renderer.ts:92-100 | a colour change is written only where a cell's background differs from the previous one, starting from no colour |
| `Renderers.SegmentReplay` | src/engine/renderer.ts:90-101 | a segment paints its cells from its start column on and touches no other position |
| `Renderers.FullRowsReplay` | src/engine/renderer.ts:57-70 | after the repaint of all rows, every row is shown at its place |
| `Renderers.FullFrameShows` | src/engine/renderer.ts:53-73 | whatever the screen showed before, a full repaint leaves it showing the current frame |
| `Renderers.DiffRowReplay` | src/engine/renderer.ts:77-102 | a row's diff paints every changed cell with its new colour, keeps every unchanged cell, and touches nothing else on that row |
| `Renderers.RunCase` | src/engine/renderer.ts:85-101 | painting a changed run and continuing after it gives the row's diff the same effect |
| `Renderers.DiffRowsReplay` | src/engine/renderer.ts:76-103 | the diff of all rows touches only the frame's rows, paints changed cells and keeps unchanged ones |
| `Renderers.DiffRowsShow` | src/engine/renderer.ts:76-103 | on a screen showing the previous frame of the same shape, the rows' diff leaves the current frame shown |
| `Renderers.DiffFrameShows` | src/engine/renderer.ts:48-125 | drawing a diff over a screen that shows the previous frame of the same shape leaves it showing the current frame |
| `Renderers.DiffFrameLast` | src/engine/renderer.ts:105-122 | the final repaint of the bottom row keeps the current frame shown |
| `Renderers.DiffFrameSplit` | src/engine/renderer.ts:75-122 | the diff frame is the reset, then the rows' diffs, then the bottom row's segment |
| `Renderers.EmptyDiffFrame` | src/engine/renderer.ts:105-122 | for a frame without rows, the diff paints nothing (its last-row repaint at row `originRow - 1` has no cells) |
| `Renderers.DiffFrameUpdates` | src/engine/renderer.ts:75-122 | whatever the screen showed, a diff frame touches only the frame's rows, and above the bottom row it paints exactly the changed cells |
| `Renderers.CellsGlyphs` | src/engine/renderer.ts:60-67 | painting `n` cells writes `n` cell glyphs, whatever colour changes it writes |
| `Renderers.SegmentGlyphs` | src/engine/renderer.ts:90-101 | a segment writes one glyph per cell |
| `Renderers.FullRowsGlyphs` | src/engine/renderer.ts:57-70 | the repaint of a `w`-wide frame writes `height * w` glyphs |
| `Renderers.FullFrameGlyphs` | src/engine/renderer.ts:53-73 | a full repaint writes every cell of the frame exactly once |
| `Renderers.RunChanged` | src/engine/renderer.ts:86-89 | every cell of a changed run counts as changed |
| `Renderers.DiffRowGlyphs` | src/engine/renderer.ts:77-102 | a row's diff writes exactly one glyph per changed cell |
| `Renderers.DiffRowsGlyphs` | src/engine/renderer.ts:76-103 | the rows' diff writes exactly one glyph per changed cell of the frame |
| `Renderers.DiffFrameGlyphs` | src/engine/renderer.ts:48-125 | a diff frame writes one glyph per changed cell plus the cells of the bottom row |
| `Renderers.DiffRowSame` | src/engine/renderer.ts:81-84 | a row equal to its previous version produces no commands |
| `Renderers.DiffRowsSame` | src/engine/renderer.ts:76-103 | rows equal to the previous frame's produce no commands |
| `Renderers.DiffOfSame` | src/engine/renderer.ts:48-125 | drawing over an identical previous frame writes only the reset and the bottom-row repaint |
| `Input.TokenWidth` | src/engine/input.ts:55-61 | every step of the decoder consumes between one byte and the bytes that are left |
| `Input.Decode` | src/engine/input.ts:43-82 | the decoding loop returns the keys of the whole buffer, token by token |
| `Input.DecodeAt` | src/engine/input.ts:45-80 | one loop step consumes one token (three bytes for ESC `[` X, otherwise one) and appends its keys |
| `Input.KeyDecodes` | src/engine/input.ts:47-79 | each key's bytes (0x03, 0x20, z, x, c, p, q, ESC `[` A/B/C/D) decode to that key, whatever follows them |
| `Input.DecodeEncode` | src/engine/input.ts:43-82 | decoding the bytes of any key sequence gives the keys back, in order |
| `Input.IgnoredByte` | src/engine/input.ts:74-79 | any byte other than 0x03, ESC, space and z/x/c/p/q yields nothing and consumes only itself |
| `Input.EscapeSequence` | src/engine/input.ts:51-63 | ESC `[` X consumes all three bytes; X = A/B/C/D yields up/down/right/left, any other X yields nothing |
| `Input.LoneEscape` | src/engine/input.ts:55-65 | an ESC not followed by `[` plus one more byte yields nothing and consumes only itself |
| `Input.DecodeShorter` | src/engine/input.ts:43-81 | the output never has more keys than the input has bytes |
| `Input.DecodeAppend` | src/engine/input.ts:43-81 | keys come out in the order of their bytes: a buffer cut where no escape sequence is open decodes as its two parts, one after the other |
| `Input.TokenSame` | src/engine/input.ts:51-63 | the first token of a buffer without an open escape sequence at its end does not depend on what follows |
| `Input.SplitArrowLost` | src/engine/input.ts:22-25 | an arrow whose three bytes arrive in two reads decodes to nothing, while the same bytes in one read give the arrow |

## Left out

- Terminal output: `process.stdout.write` (src/engine/renderer.ts:71, 124). `draw` returns its commands instead.
- The ANSI strings of src/engine/ansi.ts: each helper is one abstract command. A cell glyph (`CELL_PIXELS`, three spaces) is painted as one screen slot keyed by its first column.
- The virtual terminal does not model the default background the terminal itself shows: a position never painted has no value.
- `Math.random` and the float arithmetic `Math.floor(rng() * (i + 1))` (src/game/randomizer.ts:6, 22): only the resulting index in `0..i` is modelled.
- `Input.start`, `stop`, `onKey` and `emit` (src/engine/input.ts:20-41): stream subscription and callback dispatch. `SplitArrowLost` records what decoding each read on its own means.
- src/index.ts: entry point, raw mode, signal handlers and echo only.
- `blitBoardToBuffer`: imported by tests/rendererMapping.test.ts:2 but not defined in src/engine/renderer.ts. That function is not part of this model.
- The piece colour getter (src/game/activePiece.ts:18) and `spawnOffset` (the latter is modelled as data only): nothing in the core decides anything with them.
- `Renderers.Renderer.Draw`: it requires a previous frame at least as large as the current one, and a current frame with a row whenever it has columns. Otherwise the source reads `.bg` of a missing row or cell (of the previous frame, or of the current one) and throws, and the model does not describe the throw.
- `ActivePieces.ActivePiece.Rotate`: `dir` is any integer; as in the source, a value other than 1 turns counter-clockwise.
- Board cells of colour 0: `collides` tests truthiness, so a colour-0 cell does not block a piece. The model keeps that, with `Truthy`. `clearLines` and `hasBlocksInHidden` test against null, so there colour 0 counts as a block.

## Findings

| source | as written | input that shows it | evidently intended | confidence | as-written member | corrected member |
|---|---|---|---|---|---|---|
| src/game/randomizer.ts:14 | `peekQueue` refills by pushing a new permutation on top of the stack, burying the kinds still in it | a source that always yields 0: six draws leave O; `peekQueue(2)` pushes a new bag over it, and the seventh draw is a second I | refills go under the undrawn kinds, so peeking never changes what later draws return | high (not executed) | `Randomizer.PeekBreaksSevenBag` | `Randomizer.IntendedPeekKeepsDrawOrder` |
| src/game/randomizer.ts:15 | `slice(-n)` with `n = 0` is `slice(0)`, the whole stack | `peekQueue(0)` on a non-empty stack returns every stacked kind | `peekQueue(0)` returns no kinds | medium (not executed) | `Randomizer.PeekZeroReturnsAll` | `Randomizer.IntendedPeekKeepsDrawOrder` |

The randomizer's tests call `peekQueue` non-destructive (tests/randomizer.test.ts:17) and say that the first `next()` after a peek yields the first peeked item (tests/randomizer.test.ts:21). The code does change the draw order, as the first finding shows. `PeekOf`, and so `Bag7.PeekQueue`, model the code as written. `IntendedPeek` is the corrected definition.
