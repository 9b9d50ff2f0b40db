/** Puzzle pieces of the image jigsaw: the values every other module works on. */
module Pieces {

  datatype Option<T> = None | Some(value: T)

  /** A pixel position (or offset) on screen; pixels are real-valued because a
      cell is the board size divided by the grid dimension. */
  datatype Vec = Vec(x: real, y: real)

  datatype Size = Size(width: real, height: real)

  /** A piece covers one cell, or two neighbouring cells in a row or in a column. */
  datatype Shape = Square | Horizontal | Vertical

  /** A grid cell, by row and column. */
  datatype Cell = Cell(row: int, col: int)

  /** One puzzle piece. `cell` is its origin (top-left) cell, `correctPos` the
      board position of that cell, `dragOffset` the pointer offset while it is
      held. `error` and `instantSnap` are the cosmetic flags set on release. */
  datatype Piece = Piece(
    id: nat,
    shape: Shape,
    cell: Cell,
    correctPos: Vec,
    size: Size,
    currentPos: Vec,
    snapped: bool,
    dragOffset: Option<Vec>,
    error: bool,
    instantSnap: bool)

  /** The grid: `n` rows and `n` columns of cells of the given pixel size. */
  datatype Grid = Grid(n: nat, cellWidth: real, cellHeight: real)

  /** Board position of the top-left corner of a cell. */
  function CellOrigin(g: Grid, c: Cell): Vec
  {
    Vec(c.col as real * g.cellWidth, c.row as real * g.cellHeight)
  }

  /** Pixel size of a piece of the given shape. */
  function ShapeSize(g: Grid, s: Shape): Size
  {
    match s
    case Square => Size(g.cellWidth, g.cellHeight)
    case Horizontal => Size(g.cellWidth * 2.0, g.cellHeight)
    case Vertical => Size(g.cellWidth, g.cellHeight * 2.0)
  }

  predicate InGrid(n: nat, c: Cell)
  {
    0 <= c.row < n && 0 <= c.col < n
  }

  /** The right and the lower neighbour of a cell. */
  function Right(c: Cell): Cell { Cell(c.row, c.col + 1) }

  function Below(c: Cell): Cell { Cell(c.row + 1, c.col) }

  /** The cells a piece covers: its origin, and the right or lower neighbour
      for a horizontal or vertical piece. */
  predicate Covers(p: Piece, c: Cell)
  {
    || c == p.cell
    || (p.shape == Horizontal && c == Right(p.cell))
    || (p.shape == Vertical && c == Below(p.cell))
  }

  /** The pieces cover every cell of the n-by-n grid, each cell exactly once,
      and nothing outside it. */
  ghost predicate ExactTiling(ps: seq<Piece>, n: nat)
  {
    && (forall i, c :: 0 <= i < |ps| && Covers(ps[i], c) ==> InGrid(n, c))
    && (forall c :: InGrid(n, c) ==> exists i :: 0 <= i < |ps| && Covers(ps[i], c))
    && (forall i, j, c :: 0 <= i < |ps| && 0 <= j < |ps| && Covers(ps[i], c) && Covers(ps[j], c) ==> i == j)
  }

  /** A piece as it leaves the factory: numbered `id`, resting at its correct
      position, not snapped, not held, with the size of its shape. */
  predicate IsFreshPiece(g: Grid, p: Piece, id: nat)
  {
    && p.id == id
    && p.correctPos == CellOrigin(g, p.cell)
    && p.currentPos == p.correctPos
    && p.size == ShapeSize(g, p.shape)
    && !p.snapped
    && p.dragOffset == None
    && !p.error
    && !p.instantSnap
  }

  /** The part of a piece that no handler may change. */
  predicate SameGeometry(p: Piece, q: Piece)
  {
    p.id == q.id && p.shape == q.shape && p.cell == q.cell && p.correctPos == q.correctPos && p.size == q.size
  }

  /** Lists related element by element by SameGeometry. */
  predicate SameLayout(ps: seq<Piece>, qs: seq<Piece>)
  {
    |ps| == |qs| && forall i :: 0 <= i < |ps| ==> SameGeometry(ps[i], qs[i])
  }

  /** Every piece sits where its origin cell is and has the size of its shape. */
  predicate FixedGeometry(g: Grid, ps: seq<Piece>)
  {
    forall i :: 0 <= i < |ps| ==> ps[i].correctPos == CellOrigin(g, ps[i].cell) && ps[i].size == ShapeSize(g, ps[i].shape)
  }

  /** Piece ids are their positions in the list. */
  predicate IdsAreIndices(ps: seq<Piece>)
  {
    forall i :: 0 <= i < |ps| ==> ps[i].id == i
  }

  /** A snapped piece rests exactly at its correct position. */
  predicate PlacedAtTarget(ps: seq<Piece>)
  {
    forall i :: 0 <= i < |ps| ==> ps[i].snapped ==> ps[i].currentPos == ps[i].correctPos
  }

  predicate AllSnapped(ps: seq<Piece>)
  {
    forall i :: 0 <= i < |ps| ==> ps[i].snapped
  }

  /** No piece that was snapped in `ps` is unsnapped in `qs`. */
  predicate SnapsKept(ps: seq<Piece>, qs: seq<Piece>)
  {
    |ps| == |qs| && forall i :: 0 <= i < |ps| ==> ps[i].snapped ==> qs[i].snapped
  }

  /** Tiling depends only on shapes and origin cells, so a list with the same
      layout tiles the grid whenever the original does. */
  lemma {:induction false} TilingKept(ps: seq<Piece>, qs: seq<Piece>, n: nat)
    requires SameLayout(ps, qs)
    requires ExactTiling(ps, n)
    ensures ExactTiling(qs, n)
  {
    assert forall i, c :: 0 <= i < |qs| ==> (Covers(qs[i], c) <==> Covers(ps[i], c));
    forall c | InGrid(n, c)
      ensures exists i :: 0 <= i < |qs| && Covers(qs[i], c)
    {
      var i :| 0 <= i < |ps| && Covers(ps[i], c);
      assert Covers(qs[i], c);
    }
  }
}
