/** The game session: the phase, the countdown, the first-move latch and
    the scheduled countdown intervals. Every event handler and timer
    callback is a method that runs to completion. */
module Session {
  import opened Pieces
  import opened Handlers
  import Generate

  /** The whole image is shown, then the puzzle is played until it is won or
      the time runs out. */
  datatype Phase = ShowImage | Playing | Completed | Failed

  /** The grid's cells divide the board evenly: a cell is the board size
      divided by the number of cells per row or column. */
  predicate GridFitsBoard(g: Grid, b: Board)
  {
    g.n > 0 ==> g.cellWidth * g.n as real == b.width && g.cellHeight * g.n as real == b.height
  }

  class Game {
    /** Seconds allowed for one game. */
    const totalTime: nat
    const grid: Grid
    const board: Board

    var phase: Phase
    var pieces: seq<Piece>
    /** Seconds left. */
    var timer: nat
    /** Set by the first drag of a game. */
    var firstMove: bool
    /** How many once-a-second countdown intervals are scheduled. Every start
        adds one and every clear takes one off. The guard of PhaseEntered is
        what keeps this at one at most; the one in HandleDragStart is implied,
        as no interval is scheduled before the first move. */
    var intervals: nat

    /** The session invariant. That snapped pieces sit at their targets relies
        on the scatter leaving snapped pieces alone (see ScatterFires). */
    ghost predicate Valid()
      reads this
    {
      && GridFitsBoard(grid, board)
      && timer <= totalTime
      && intervals <= 1
      && (intervals > 0 ==> phase == Playing && firstMove)
      && (phase == ShowImage ==> pieces == [] && timer == totalTime && !firstMove)
      && (phase != ShowImage ==> ExactTiling(pieces, grid.n) && FixedGeometry(grid, pieces) && IdsAreIndices(pieces))
      && PlacedAtTarget(pieces)
      && (phase == Completed ==> |pieces| > 0 && AllSnapped(pieces))
      && (phase == Failed ==> timer == 0)
    }

    /** A new game shows the whole image. */
    constructor (totalTime: nat, grid: Grid, board: Board)
      requires GridFitsBoard(grid, board)
      ensures Valid()
      ensures this.totalTime == totalTime && this.grid == grid && this.board == board
      ensures phase == ShowImage && pieces == [] && timer == totalTime && !firstMove && intervals == 0
    {
      this.totalTime := totalTime;
      this.grid := grid;
      this.board := board;
      phase := ShowImage;
      pieces := [];
      timer := totalTime;
      firstMove := false;
      intervals := 0;
    }

    /** The preview is over: a freshly generated, assembled set of pieces is
        installed and play begins; the countdown has not started. */
    method PreviewElapsed(random: nat -> real)
      requires Valid() && phase == ShowImage
      modifies this
      ensures Valid()
      ensures phase == Playing && pieces == Generate.Generated(grid, random)
      ensures forall i :: 0 <= i < |pieces| ==> IsFreshPiece(grid, pieces[i], i)
      ensures timer == totalTime && !firstMove && intervals == 0
    {
      var ps := Generate.GeneratePieces(grid, random);
      pieces := ps;
      phase := Playing;
    }

    /** The delayed scatter fires. It was scheduled on entering play and is
        never cancelled, so it may fire in any phase. Snapped pieces stay. */
    method ScatterFires(random: nat -> real, w: Window)
      requires Valid()
      modifies this
      ensures Valid()
      ensures pieces == ScatterUnsnapped(old(pieces), random, w, board)
      ensures phase == old(phase) && timer == old(timer)
      ensures firstMove == old(firstMove) && intervals == old(intervals)
    {
      if phase != ShowImage {
        ScatterUnsnappedKeepsPlacement(pieces, random, w, board, grid.n);
      }
      pieces := ScatterUnsnapped(pieces, random, w, board);
    }

    /** The effect run on entering a phase: in play, after a first move and
        with no interval yet, it starts the countdown. */
    method PhaseEntered()
      requires Valid()
      modifies this
      ensures Valid()
      ensures intervals == if old(intervals) == 0 && phase == Playing && firstMove then 1 else old(intervals)
      ensures phase == old(phase) && pieces == old(pieces) && timer == old(timer) && firstMove == old(firstMove)
    {
      if phase == Playing && firstMove && intervals == 0 {
        intervals := intervals + 1;
      }
    }

    /** A piece is picked up. The first pick-up of a game latches `firstMove`
        and starts the countdown if none is running. */
    method HandleDragStart(id: nat, pointer: Vec, w: Window)
      requires Valid() && phase == Playing
      modifies this
      ensures Valid()
      ensures firstMove
      ensures intervals == if !old(firstMove) && old(intervals) == 0 then 1 else old(intervals)
      ensures pieces == DragStart(old(pieces), id, pointer, w, board)
      ensures phase == old(phase) && timer == old(timer)
    {
      if !firstMove {
        firstMove := true;
        if phase == Playing && intervals == 0 {
          intervals := intervals + 1;
        }
      }
      TilingKept(pieces, DragStart(pieces, id, pointer, w, board), grid.n);
      pieces := DragStart(pieces, id, pointer, w, board);
    }

    /** The pointer moves while piece `id` may be held. */
    method HandleDragMove(id: nat, pointer: Vec, w: Window)
      requires Valid() && phase == Playing
      modifies this
      ensures Valid()
      ensures pieces == DragMove(old(pieces), id, pointer, w, board)
      ensures phase == old(phase) && timer == old(timer)
      ensures firstMove == old(firstMove) && intervals == old(intervals)
    {
      TilingKept(pieces, DragMove(pieces, id, pointer, w, board), grid.n);
      pieces := DragMove(pieces, id, pointer, w, board);
    }

    /** Piece `id` is released. */
    method HandleDragEnd(id: nat)
      requires Valid() && phase == Playing
      modifies this
      ensures Valid()
      ensures pieces == DragEnd(old(pieces), id)
      ensures phase == old(phase) && timer == old(timer)
      ensures firstMove == old(firstMove) && intervals == old(intervals)
    {
      TilingKept(pieces, DragEnd(pieces, id), grid.n);
      pieces := DragEnd(pieces, id);
    }

    /** One second of the running countdown: at one second or less the game
        is lost, the timer shows 0 and the interval stops; otherwise one
        second is taken off. */
    method Tick()
      requires Valid() && intervals > 0
      modifies this
      ensures Valid()
      ensures old(timer) <= 1 ==> timer == 0 && phase == Failed && intervals == old(intervals) - 1
      ensures old(timer) > 1 ==> timer == old(timer) - 1 && phase == old(phase) && intervals == old(intervals)
      ensures pieces == old(pieces) && firstMove == old(firstMove)
    {
      if timer <= 1 {
        intervals := intervals - 1;
        phase := Failed;
        timer := 0;
      } else {
        timer := timer - 1;
      }
    }

    /** The win check, run whenever the pieces or the phase change: in play,
        a non-empty list of pieces that are all snapped wins and stops the
        countdown. A won game shows the assembled image, given the corrected
        scatter of ScatterFires; the scatter as written can leave a snapped
        piece off its target (Handlers.ScatterUnplacesSnapped). */
    method CheckWin()
      requires Valid()
      modifies this
      ensures Valid()
      ensures (old(phase) == Playing && |pieces| > 0 && AllSnapped(pieces)) ==>
        phase == Completed && intervals == (if old(intervals) > 0 then old(intervals) - 1 else 0)
      ensures !(old(phase) == Playing && |pieces| > 0 && AllSnapped(pieces)) ==>
        phase == old(phase) && intervals == old(intervals)
      ensures phase == Completed ==> forall i :: 0 <= i < |pieces| ==> pieces[i].currentPos == pieces[i].correctPos
      ensures pieces == old(pieces) && timer == old(timer) && firstMove == old(firstMove)
    {
      if phase == Playing && |pieces| > 0 && AllSnapped(pieces) {
        if intervals > 0 {
          intervals := intervals - 1;
        }
        phase := Completed;
      }
    }

    /** The restart button of a finished game: back to the preview, with the
        full time, no first move, no countdown and no pieces. */
    method Restart()
      requires Valid() && (phase == Completed || phase == Failed)
      modifies this
      ensures Valid()
      ensures phase == ShowImage && timer == totalTime && !firstMove && pieces == []
      ensures intervals == 0
    {
      phase := ShowImage;
      timer := totalTime;
      firstMove := false;
      intervals := 0;
      pieces := [];
    }
  }
}
