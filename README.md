# Image jigsaw: a verified model of the puzzle logic

The game shows an image, cuts it into an N×N grid of pieces, scatters the
pieces across the window and lets the player drag them back. A piece
released closer than 50 pixels to its correct position snaps into place.
The game is won when every piece is snapped, and lost when the countdown
runs out. That countdown starts at the first drag.

The model has four modules:

- `Pieces` (pieces.dfy) holds the piece record, the grid, and the predicates shared by the other modules. The main ones are:
  - `ExactTiling`: every cell is covered exactly once;
  - `IsFreshPiece`, `PlacedAtTarget` and `SameLayout`.
- `Generate` (generate.dfy) models `generatePieces`.
  - The method `GeneratePieces` keeps the `used` matrix as an `array2<bool>`, and its nested loops are the source's. It is proved equal to the scan function `Generated`.
  - Lemmas about `Generated` show that it tiles the grid exactly with fresh pieces numbered 0..k-1, and that N²/2 ≤ k ≤ N².
  - The random source is a parameter, `random: nat -> real`, where `random(k)` is the k-th `Math.random()` draw of the scan.
- `Handlers` (handlers.dfy) holds the list maps, each a function over `seq<Piece>`: scatter, drag start, drag move and drag end.
  - Positions are `real`, because a cell is the board size divided by N.
  - The window size and the pointer are parameters.
- `Session` (session.dfy) is the class `Game`. Its fields are the phase, the pieces, the timer, the first-move latch and `intervals`, the number of scheduled countdown intervals. `intervals` goes up with each `setInterval` and down with each clear of the handle, so the guard on the handle in the countdown effect (src/App.js:191) is what keeps it at one at most. The same guard in drag start (src/App.js:222) is implied: before the first move no interval is ever scheduled.
  - Each event handler and timer callback is a method run to completion.
  - `Valid()` is kept by every method. It states:
    - the timer is within bounds;
    - at most one interval is scheduled, and only in play after a first move;
    - the grid's cells divide the board evenly, as src/App.js:9-10 computes them;
    - outside the preview, the pieces tile the grid with fixed geometry and ids equal to their indices;
    - snapped pieces sit at their targets. This holds because the session applies the corrected scatter; with the scatter as written, a snapped piece can be moved off its target (see Findings);
    - a won game has pieces, all of them snapped;
    - a lost game shows 0.

The snap test is written as `dx*dx + dy*dy < 2500`. `Handlers.ToleranceIsDistance` proves that this is the source's `Math.sqrt(dx*dx + dy*dy) < 50`.

What src/App.js does not do:

- It has no snapping to the nearest cell and no per-axis test. A piece is compared only with its own correct position.
- It has no check for an occupied cell, no decoy pieces, no perimeter scatter and no pre-placed pieces.
- The tolerance test is a strict `<`: a piece exactly 50 pixels away does not snap.
- Picking a piece up never unsnaps it, and no handler ever does.

## Model

| member | source | states |
|---|---|---|
| Generate.GeneratePieces | src/App.js:14-142 | The nested row/column scan over the `used` matrix returns exactly `Generated(g, random)`. The result tiles the N×N grid exactly, and piece i is fresh: id i, at the origin of its cell, the size of its shape, unsnapped and not held. The count k satisfies k ≤ N² ≤ 2k. |
| Generate.VisitCell | src/App.js:23-138 | One cell of the scan: it skips a used cell, otherwise emits the piece `Visit` describes and marks its cells in `used`. The running id stays equal to the list length. |
| Generate.MarkUsed | src/App.js:57-138 | After marking the cells of a piece, `used` is true exactly on the claimed cells. |
| Generate.ChooseShape | src/App.js:26-136 | A horizontal domino is chosen only when the right neighbour is inside the grid and unused; a vertical one only when the lower neighbour is. |
| Generate.GeneratedTiles | src/App.js:14-142 | Whatever the random draws, the generated list covers every cell of the grid exactly once and nothing outside it. Its pieces are fresh with ids 0..k-1, and k ≤ N² ≤ 2k. |
| Generate.ScanOwned | src/App.js:22-140 | From any row whose preceding cells are all claimed, the rest of the scan claims every cell, with each piece owning exactly the cells it covers. It also counts dominoes: claimed cells = pieces + dominoes. |
| Generate.RowOwned | src/App.js:23-139 | The scan of the rest of one row keeps that ownership invariant and claims every cell of the row. |
| Generate.VisitOwned | src/App.js:24-138 | One visit keeps the ownership invariant. A new piece only takes cells that are inside the grid and unclaimed, which is the `canHorizontal`/`canVertical` guard. |
| Generate.OwnedDone | src/App.js:14-142 | The invariant at the end of the grid is an exact tiling by fresh pieces, and the claimed cells are exactly the N² grid cells. |
| Generate.RowsBelowCard | src/App.js:22-23 | The scanned rows 0..k-1 contain k·N cells. |
| Pieces.TilingKept | src/App.js:171-309 | A list with the same shapes and origin cells tiles the grid whenever the original does, so no handler can break the tiling. |
| Handlers.BoardOffset | src/App.js:165-166 | The board is centred: the left and right margins are equal, and so are the top and bottom margins. |
| Handlers.ScatterArea | src/App.js:165-170 | The scatter rectangle is the whole window, in board coordinates. |
| Handlers.Scale | src/App.js:177-180 | A fraction in [0, 1) scaled by a non-negative range lands in [lo, lo + range], and strictly below the top when the range is positive. |
| Handlers.ScatterPos | src/App.js:175-182 | Piece i's new spot leaves room for the whole piece inside the window on each axis where it fits, strictly inside when there is room to spare. |
| Handlers.Scatter | src/App.js:171-185 | As written: every piece moves into the scatter area, snapped pieces included. Only `currentPos` changes, and the length and order are kept. |
| Handlers.ScatterUnplacesSnapped | src/App.js:171-185 | Counterexample: a snapped piece resting at its target is moved elsewhere and stays snapped. |
| Handlers.ScatterUnsnapped | src/App.js:171-185 | Corrected scatter: snapped pieces are left untouched, and unsnapped ones move into the scatter area with only `currentPos` changing. |
| Handlers.ScatterUnsnappedKeepsPlacement | src/App.js:171-185 | The corrected scatter keeps snapped pieces at their targets, keeps snapped flags and keeps an exact tiling. |
| Handlers.DragStart | src/App.js:236-252 | Only piece `id` changes, and only its drag offset. Board offset + position + drag offset equals the pointer. |
| Handlers.Clamp | src/App.js:265-269 | `max(0, min(a, hi))` case by case: the input itself when it lies in [0, hi], 0 when it is negative or the bound is negative, and the bound when the input exceeds a non-negative bound. So it is never below 0, and never above a non-negative bound. |
| Handlers.DragMove | src/App.js:255-281 | Only an unsnapped, held piece with the given id moves, and only its position changes. Its window position is, on each axis, the pointer minus the grab offset clamped to [0, window size − piece size]. So it is at least 0, within the window where the piece fits, and exactly the pointer minus the grab offset when that is in range. |
| Handlers.StartThenStillMove | src/App.js:219-281 | Picking a piece up and moving the pointer to the spot where it was picked up leaves the piece where it was. |
| Handlers.ToleranceIsDistance | src/App.js:288-290 | With the tolerance of 50 from src/App.js:11: for the Euclidean distance d, `d < 50` holds exactly when `dx² + dy² < 2500`. |
| Handlers.DragEnd | src/App.js:283-310 | The released unsnapped piece snaps to its correct position iff it is within tolerance; otherwise it stays put with `error`. Either way `instantSnap` is set. Every other piece only loses its drag offset. Layout and snapped flags are kept, and every drag offset becomes none. |
| Handlers.DragEndIdempotent | src/App.js:283-310 | Releasing the same piece twice gives the same list as releasing it once. |
| Handlers.ReleaseInPlaceSnaps | src/App.js:286-299 | An unsnapped piece still at its correct position snaps, without error, as soon as it is released. |
| Handlers.DragKeepsPlacement | src/App.js:236-309 | None of the three drag handlers unsnaps a piece or moves a snapped piece away from its target. |
| Session.Game.constructor | src/App.js:144-148 | For a grid whose cells divide the board evenly (src/App.js:9-10), a new game is in the preview with the full time, no pieces, no first move and no interval. |
| Session.Game.PreviewElapsed | src/App.js:151-160 | The preview ends with freshly generated pieces (exactly `Generated`) and the phase set to playing. The timer, latch and interval are untouched, so the countdown has not started. |
| Session.Game.ScatterFires | src/App.js:163-187 | The delayed scatter applies the corrected scatter and keeps `Valid`. Nothing but the pieces changes. |
| Session.Game.PhaseEntered | src/App.js:190-203 | The countdown effect adds an interval exactly when the game is in play, after a first move, with none scheduled. The guard on the handle is what keeps the count at most one. |
| Session.Game.HandleDragStart | src/App.js:219-253 | Latches the first move. One interval is added exactly when this is the first pick-up and none is scheduled. The pieces become `DragStart` of the old pieces. |
| Session.Game.HandleDragMove | src/App.js:255-281 | The pieces become `DragMove` of the old pieces; the rest is unchanged and `Valid` is kept. |
| Session.Game.HandleDragEnd | src/App.js:283-310 | The pieces become `DragEnd` of the old pieces; the rest is unchanged and `Valid` is kept. |
| Session.Game.Tick | src/App.js:192-201 | At 1 second or less: timer 0, the interval cleared (one fewer scheduled), game failed. Otherwise exactly one second less. |
| Session.Game.CheckWin | src/App.js:207-217 | In play, a non-empty all-snapped list wins and clears the interval. An empty list never wins. Otherwise nothing changes. Every piece of a won game sits at its correct position, because the session scatters with the corrected scatter; with the scatter as written this can fail (see Findings). |
| Session.Game.Restart | src/App.js:325-332 | Back to the preview with the full time, no first move, no interval and no pieces. |

## Left out

- Rendering and styling (src/App.js:334-457) are presentation only. So is the `.filter((p) => p && p.size)` before rendering, which is a no-op on generated pieces.
- Real timers (`setTimeout`, `setInterval`) are not modelled. Each callback is a method, and which one fires next is the caller's choice. Delays, effect re-runs and interleavings are not modelled.
- The effect cleanups (src/App.js:158 and src/App.js:204) are not modelled. The one at src/App.js:158 cancels the preview timeout, which has always fired already when the phase leaves the preview, since only that timeout moves the game out of it. Where the game can reach the one at src/App.js:204, a tick, the win check or restart has already stopped the interval.
- The delayed clears of `error` and `instantSnap` (src/App.js:312-322) are left out. They are cosmetic flags; the fields are kept but never cleared.
- Pointer event extraction (`e.clientX || e.touches[0].clientX`) and `e.preventDefault()` are left out. The pointer and `window.innerWidth`/`innerHeight` are parameters.
- `Math.random` is a parameter, so its distribution is not modelled. Nothing is proved about the 0.33/0.66 and 0.5 weights beyond reproducing the comparisons.
- Generate.GeneratePieces: it does not prove that the pieces come out in row-major order of their origin cells. It proves only that each piece's origin precedes the scan position when the piece is emitted.
- Session.Game.HandleDragStart, Session.Game.HandleDragMove and Session.Game.HandleDragEnd require the playing phase, because the pieces, and with them their event handlers, are rendered only then. Session.Game.Restart requires a finished game, because the restart button exists only on the completed and failed screens.
- Session.Game.ScatterFires uses the corrected scatter (see Findings). The as-written scatter is `Handlers.Scatter`.
- Session.Game.CheckWin: "a won game shows every piece at its correct position" holds only with the corrected scatter. With the scatter as written, a piece clicked before the scatter fires (src/App.js:171) snaps at distance 0 and is then moved away still snapped, and the game can be won with that piece off its target (`Handlers.ScatterUnplacesSnapped`).
- Positions are exact reals, while the program computes with IEEE-754 doubles that round. Exact equalities such as `Handlers.StartThenStillMove` (the piece returns exactly to where it was) and the squared-distance test near 2500 are facts about the model. The program can differ from them by rounding error.
- src/IdleTimer.js is not part of this model. It only registers event listeners and a timeout.
- The configuration file (`window.config`) is not part of this model. Its values become the constructor's `totalTime`, `grid` and `board`.

## Findings

| source | as written | input that shows it | evidently intended | confidence | as-written member | corrected member |
|---|---|---|---|---|---|---|
| src/App.js:171-185 | The delayed scatter rewrites `currentPos` of every piece, snapped or not. A click on a piece during the 500 ms before the scatter snaps it, since its distance is 0 (`Handlers.ReleaseInPlaceSnaps`). The scatter then throws it away from its target while it stays snapped, and drag move ignores snapped pieces, so it can never be moved back. | One snapped square at (0, 0) in a 300×300 board, an 800×600 window and all draws 0.5: it lands at (100, 100) and is still snapped. | Snapped pieces stay at their target; only unsnapped pieces are scattered. | medium, not executed | Handlers.ScatterUnplacesSnapped | Handlers.ScatterUnsnapped |
