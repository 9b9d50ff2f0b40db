/** The piece factory: tiles the n-by-n grid with squares and dominoes. */
module Generate {
  import opened Pieces

  /** Cell `a` comes before position (row, col) in a row-major scan. */
  predicate Before(a: Cell, row: int, col: int)
  {
    a.row < row || (a.row == row && a.col < col)
  }

  ghost function RowPrefix(r: int, m: nat): set<Cell>
  {
    set c | 0 <= c < m :: Cell(r, c)
  }

  ghost function RowsBelow(k: nat, n: nat): set<Cell>
  {
    set r, c | 0 <= r < k && 0 <= c < n :: Cell(r, c)
  }

  lemma {:induction false} RowPrefixCard(r: int, m: nat)
    ensures |RowPrefix(r, m)| == m
  {
    if m == 0 {
      assert RowPrefix(r, m) == {};
    } else {
      RowPrefixCard(r, m - 1);
      assert RowPrefix(r, m) == RowPrefix(r, m - 1) + {Cell(r, m - 1)};
    }
  }

  /** The grid has n * n cells. */
  lemma {:induction false} RowsBelowCard(k: nat, n: nat)
    ensures |RowsBelow(k, n)| == k * n
  {
    if k == 0 {
      assert RowsBelow(k, n) == {};
    } else {
      RowsBelowCard(k - 1, n);
      RowPrefixCard(k - 1, n);
      assert RowsBelow(k, n) == RowsBelow(k - 1, n) + RowPrefix(k - 1, n);
      assert RowsBelow(k - 1, n) * RowPrefix(k - 1, n) == {};
      assert (k - 1) * n + n == k * n;
    }
  }

  /** The shape emitted at a cell, given which neighbours are free and the
      random fraction drawn: thirds when both are, halves when one is. */
  function ChooseShape(canHorizontal: bool, canVertical: bool, rnd: real): (shape: Shape)
    requires canHorizontal || canVertical
    ensures shape == Horizontal ==> canHorizontal
    ensures shape == Vertical ==> canVertical
  {
    if canHorizontal && canVertical then
      (if rnd < 0.33 then Square else if rnd < 0.66 then Horizontal else Vertical)
    else if canHorizontal then
      (if rnd < 0.5 then Horizontal else Square)
    else
      (if rnd < 0.5 then Vertical else Square)
  }

  /** A freshly generated piece. */
  function NewPiece(g: Grid, id: nat, shape: Shape, cell: Cell): Piece
  {
    var origin := CellOrigin(g, cell);
    Piece(id, shape, cell, origin, ShapeSize(g, shape), origin, false, None, false, false)
  }

  /** Cell `k` has been claimed. (Quantifying over this rather than over
      `k in owner` keeps the solver from chasing neighbour cells endlessly.) */
  predicate Claimed(owner: map<Cell, nat>, k: Cell)
  {
    k in owner
  }

  /** Piece `i` is `owner`'s piece for every cell it covers. */
  predicate ClaimedBy(owner: map<Cell, nat>, p: Piece, i: nat)
  {
    && p.cell in owner && owner[p.cell] == i
    && (p.shape == Horizontal ==> Right(p.cell) in owner && owner[Right(p.cell)] == i)
    && (p.shape == Vertical ==> Below(p.cell) in owner && owner[Below(p.cell)] == i)
  }

  /** What the scan has established about the pieces when it reaches
      (row, col): `owner` maps each claimed cell, all inside the grid, to the
      index of a piece covering it; every piece is owner of all the cells it
      covers, is fresh, is numbered by its index and has its origin before
      (row, col); and every cell before (row, col) is claimed. */
  ghost predicate Owned(g: Grid, owner: map<Cell, nat>, pieces: seq<Piece>, row: int, col: int)
  {
    && (forall k {:trigger Claimed(owner, k)} :: Claimed(owner, k) ==> InGrid(g.n, k) && owner[k] < |pieces| && Covers(pieces[owner[k]], k))
    && (forall i :: 0 <= i < |pieces| ==> IsFreshPiece(g, pieces[i], i) && Before(pieces[i].cell, row, col) && ClaimedBy(owner, pieces[i], i))
    && (forall k {:trigger InGrid(g.n, k)} :: InGrid(g.n, k) && Before(k, row, col) ==> k in owner)
  }

  /** The cells a piece of the given shape at `here` would cover are inside
      the grid and unclaimed. */
  predicate Free(n: nat, owner: map<Cell, nat>, shape: Shape, here: Cell)
  {
    && InGrid(n, here) && here !in owner
    && (shape == Horizontal ==> InGrid(n, Right(here)) && Right(here) !in owner)
    && (shape == Vertical ==> InGrid(n, Below(here)) && Below(here) !in owner)
  }

  /** `owner` with the cells of a piece of the given shape at `here` claimed
      by piece `id`. */
  function Claim(owner: map<Cell, nat>, shape: Shape, here: Cell, id: nat): map<Cell, nat>
  {
    match shape
    case Square => owner[here := id]
    case Horizontal => owner[here := id][Right(here) := id]
    case Vertical => owner[here := id][Below(here) := id]
  }

  /** Emitting a piece whose cells are free keeps Owned and moves the scan
      one cell on. */
  lemma OwnedStep(g: Grid, owner: map<Cell, nat>, pieces: seq<Piece>, row: nat, col: nat, shape: Shape)
    requires Owned(g, owner, pieces, row, col)
    requires Free(g.n, owner, shape, Cell(row, col))
    ensures Owned(g, Claim(owner, shape, Cell(row, col), |pieces|),
                  pieces + [NewPiece(g, |pieces|, shape, Cell(row, col))], row, col + 1)
  {
    StepOwners(g.n, owner, pieces, shape, Cell(row, col), NewPiece(g, |pieces|, shape, Cell(row, col)));
    StepPieces(g, owner, pieces, row, col, shape);
    StepPrefix(g.n, owner, shape, |pieces|, row, col);
  }

  /** Every claimed cell still names a piece that covers it. */
  lemma StepOwners(n: nat, owner: map<Cell, nat>, pieces: seq<Piece>, shape: Shape, here: Cell, piece: Piece)
    requires forall k {:trigger Claimed(owner, k)} :: Claimed(owner, k) ==> InGrid(n, k) && owner[k] < |pieces| && Covers(pieces[owner[k]], k)
    requires Free(n, owner, shape, here)
    requires piece.shape == shape && piece.cell == here
    ensures forall k {:trigger Claimed(Claim(owner, shape, here, |pieces|), k)} :: Claimed(Claim(owner, shape, here, |pieces|), k) ==>
      InGrid(n, k) && Claim(owner, shape, here, |pieces|)[k] < |pieces| + 1 &&
      Covers((pieces + [piece])[Claim(owner, shape, here, |pieces|)[k]], k)
  {
    var owner' := Claim(owner, shape, here, |pieces|);
    var pieces' := pieces + [piece];
    forall k | Claimed(owner', k)
      ensures InGrid(n, k) && owner'[k] < |pieces'| && Covers(pieces'[owner'[k]], k)
    {
      if k == here || (shape == Horizontal && k == Right(here)) || (shape == Vertical && k == Below(here)) {
        assert owner'[k] == |pieces|;
      } else {
        assert Claimed(owner, k) && owner'[k] == owner[k];
        assert pieces'[owner[k]] == pieces[owner[k]];
      }
    }
  }

  /** The earlier pieces keep their cells, and the new piece owns its own. */
  lemma StepPieces(g: Grid, owner: map<Cell, nat>, pieces: seq<Piece>, row: nat, col: nat, shape: Shape)
    requires forall i :: 0 <= i < |pieces| ==> IsFreshPiece(g, pieces[i], i) && Before(pieces[i].cell, row, col) && ClaimedBy(owner, pieces[i], i)
    requires Free(g.n, owner, shape, Cell(row, col))
    ensures forall i :: 0 <= i < |pieces| + 1 ==>
      && IsFreshPiece(g, (pieces + [NewPiece(g, |pieces|, shape, Cell(row, col))])[i], i)
      && Before((pieces + [NewPiece(g, |pieces|, shape, Cell(row, col))])[i].cell, row, col + 1)
      && ClaimedBy(Claim(owner, shape, Cell(row, col), |pieces|), (pieces + [NewPiece(g, |pieces|, shape, Cell(row, col))])[i], i)
  {
    var owner' := Claim(owner, shape, Cell(row, col), |pieces|);
    var pieces' := pieces + [NewPiece(g, |pieces|, shape, Cell(row, col))];
    forall i | 0 <= i < |pieces'|
      ensures IsFreshPiece(g, pieces'[i], i) && Before(pieces'[i].cell, row, col + 1) && ClaimedBy(owner', pieces'[i], i)
    {
      if i < |pieces| {
        assert pieces'[i] == pieces[i];
        KeptClaim(g.n, owner, shape, Cell(row, col), pieces[i], i, |pieces|);
      }
    }
  }

  /** Claiming free cells leaves earlier claims as they were. */
  lemma KeptClaim(n: nat, owner: map<Cell, nat>, shape: Shape, here: Cell, p: Piece, i: nat, id: nat)
    requires ClaimedBy(owner, p, i)
    requires Free(n, owner, shape, here)
    ensures ClaimedBy(Claim(owner, shape, here, id), p, i)
  {
  }

  /** The cell just scanned is claimed now. */
  lemma StepPrefix(n: nat, owner: map<Cell, nat>, shape: Shape, id: nat, row: nat, col: nat)
    requires forall k {:trigger InGrid(n, k)} :: InGrid(n, k) && Before(k, row, col) ==> k in owner
    ensures forall k {:trigger InGrid(n, k)} :: InGrid(n, k) && Before(k, row, col + 1) ==> k in Claim(owner, shape, Cell(row, col), id)
  {
  }

  /** Claiming free cells adds their number to the claimed count. */
  lemma ClaimCard(n: nat, owner: map<Cell, nat>, shape: Shape, here: Cell, id: nat)
    requires Free(n, owner, shape, here)
    ensures |Claim(owner, shape, here, id).Keys| == |owner.Keys| + (if shape == Square then 1 else 2)
  {
    KeysGrow(owner, here, id);
    if shape == Horizontal {
      KeysGrow(owner[here := id], Right(here), id);
    } else if shape == Vertical {
      KeysGrow(owner[here := id], Below(here), id);
    }
  }

  lemma KeysGrow(m: map<Cell, nat>, k: Cell, v: nat)
    requires k !in m
    ensures |m[k := v].Keys| == |m.Keys| + 1
  {
    assert m[k := v].Keys == m.Keys + {k};
  }

  /** A claimed cell needs no piece of its own: the scan moves on. */
  lemma OwnedSkip(g: Grid, owner: map<Cell, nat>, pieces: seq<Piece>, row: nat, col: nat)
    requires Owned(g, owner, pieces, row, col)
    requires Cell(row, col) in owner
    ensures Owned(g, owner, pieces, row, col + 1)
  {
  }

  /** The end of one row is the start of the next. */
  lemma OwnedNextRow(g: Grid, owner: map<Cell, nat>, pieces: seq<Piece>, row: nat)
    requires Owned(g, owner, pieces, row, g.n)
    ensures Owned(g, owner, pieces, row + 1, 0)
  {
  }

  /** Once every row is scanned, the pieces tile the grid exactly and the
      claimed cells are the whole grid. */
  lemma OwnedDone(g: Grid, owner: map<Cell, nat>, pieces: seq<Piece>)
    requires Owned(g, owner, pieces, g.n, 0)
    ensures ExactTiling(pieces, g.n)
    ensures forall i :: 0 <= i < |pieces| ==> IsFreshPiece(g, pieces[i], i)
    ensures owner.Keys == RowsBelow(g.n, g.n)
  {
    OwnersCover(g.n, owner, pieces);
    OwnersDisjoint(g.n, owner, pieces);
    forall k | k in owner
      ensures k in RowsBelow(g.n, g.n)
    {
      assert Claimed(owner, k);
    }
  }

  /** When the claimed cells are exactly the grid, there are n * n of them:
      `count` pieces of which `dominoes` cover two cells. */
  lemma OwnedCount(n: nat, claimed: set<Cell>, count: nat, dominoes: nat)
    requires claimed == RowsBelow(n, n)
    requires |claimed| == count + dominoes && dominoes <= count
    ensures count <= n * n <= 2 * count
  {
    RowsBelowCard(n, n);
  }

  /** Every cell of the grid is owned, hence covered by some piece. */
  lemma OwnersCover(n: nat, owner: map<Cell, nat>, pieces: seq<Piece>)
    requires forall k {:trigger Claimed(owner, k)} :: Claimed(owner, k) ==> owner[k] < |pieces| && Covers(pieces[owner[k]], k)
    requires forall k :: InGrid(n, k) ==> k in owner
    ensures forall c :: InGrid(n, c) ==> exists i :: 0 <= i < |pieces| && Covers(pieces[i], c)
  {
    forall k | InGrid(n, k)
      ensures exists i :: 0 <= i < |pieces| && Covers(pieces[i], k)
    {
      assert Claimed(owner, k);
    }
  }

  /** A cell owned by one piece index is covered by no other, and no piece
      reaches outside the owned cells. */
  lemma OwnersDisjoint(n: nat, owner: map<Cell, nat>, pieces: seq<Piece>)
    requires forall k {:trigger Claimed(owner, k)} :: Claimed(owner, k) ==> InGrid(n, k)
    requires forall i :: 0 <= i < |pieces| ==> ClaimedBy(owner, pieces[i], i)
    ensures forall i, c :: 0 <= i < |pieces| && Covers(pieces[i], c) ==> InGrid(n, c)
    ensures forall i, j, c :: 0 <= i < |pieces| && 0 <= j < |pieces| && Covers(pieces[i], c) && Covers(pieces[j], c) ==> i == j
  {
    forall i, c | 0 <= i < |pieces| && Covers(pieces[i], c)
      ensures InGrid(n, c)
    {
      assert ClaimedBy(owner, pieces[i], i);
      assert Claimed(owner, c);
    }
    forall i, j, c | 0 <= i < |pieces| && 0 <= j < |pieces| && Covers(pieces[i], c) && Covers(pieces[j], c)
      ensures i == j
    {
      assert ClaimedBy(owner, pieces[i], i) && ClaimedBy(owner, pieces[j], j);
    }
  }

  /** The scan's state: which piece (by index) claimed each cell claimed so
      far, the pieces emitted so far and the number of random fractions drawn. */
  datatype Scan = Scan(owner: map<Cell, nat>, pieces: seq<Piece>, draws: nat)

  /** The scan's visit of cell (row, col): a claimed cell is skipped; otherwise
      a piece is emitted there, drawing a random fraction only when a domino is
      possible, and the cells it covers are claimed. */
  function Visit(g: Grid, random: nat -> real, row: nat, col: nat, s: Scan): Scan
  {
    var here := Cell(row, col);
    if here in s.owner then s
    else
      var canHorizontal := col < g.n - 1 && Right(here) !in s.owner;
      var canVertical := row < g.n - 1 && Below(here) !in s.owner;
      var choice := canHorizontal || canVertical;
      var shape := if choice then ChooseShape(canHorizontal, canVertical, random(s.draws)) else Square;
      Scan(Claim(s.owner, shape, here, |s.pieces|),
           s.pieces + [NewPiece(g, |s.pieces|, shape, here)],
           if choice then s.draws + 1 else s.draws)
  }

  /** The rest of the scan of one row, from column `col` on. */
  function RowFrom(g: Grid, random: nat -> real, row: nat, col: nat, s: Scan): Scan
    decreases g.n - col
  {
    if col >= g.n then s
    else RowFrom(g, random, row, col + 1, Visit(g, random, row, col, s))
  }

  /** The rest of the row-major scan, from row `row` on. */
  function ScanFrom(g: Grid, random: nat -> real, row: nat, s: Scan): Scan
    decreases g.n - row
  {
    if row >= g.n then s
    else ScanFrom(g, random, row + 1, RowFrom(g, random, row, 0, s))
  }

  /** The pieces of a whole scan of the grid with the given random fractions. */
  function Generated(g: Grid, random: nat -> real): seq<Piece>
  {
    ScanFrom(g, random, 0, Scan(map[], [], 0)).pieces
  }

  /** One visit keeps Owned and the count of claimed cells; `dominoes` counts
      the two-cell pieces. */
  lemma VisitOwned(g: Grid, random: nat -> real, row: nat, col: nat, s: Scan, dominoes: nat)
    returns (dominoes': nat)
    requires row < g.n && col < g.n
    requires Owned(g, s.owner, s.pieces, row, col)
    requires |s.owner.Keys| == |s.pieces| + dominoes && dominoes <= |s.pieces|
    ensures Owned(g, Visit(g, random, row, col, s).owner, Visit(g, random, row, col, s).pieces, row, col + 1)
    ensures |Visit(g, random, row, col, s).owner.Keys| == |Visit(g, random, row, col, s).pieces| + dominoes'
    ensures dominoes' <= |Visit(g, random, row, col, s).pieces|
  {
    var here := Cell(row, col);
    var s' := Visit(g, random, row, col, s);
    if here in s.owner {
      OwnedSkip(g, s.owner, s.pieces, row, col);
      dominoes' := dominoes;
    } else {
      var shape := s'.pieces[|s.pieces|].shape;
      assert s' == Scan(Claim(s.owner, shape, here, |s.pieces|), s.pieces + [NewPiece(g, |s.pieces|, shape, here)], s'.draws);
      OwnedStep(g, s.owner, s.pieces, row, col, shape);
      ClaimCard(g.n, s.owner, shape, here, |s.pieces|);
      dominoes' := if shape == Square then dominoes else dominoes + 1;
    }
  }

  /** The rest of a row keeps Owned, up to the end of the row (`final`). */
  lemma {:induction false} RowOwned(g: Grid, random: nat -> real, row: nat, col: nat, s: Scan, final: Scan, dominoes: nat)
    returns (dominoes': nat)
    requires row < g.n && col <= g.n
    requires RowFrom(g, random, row, col, s) == final
    requires Owned(g, s.owner, s.pieces, row, col)
    requires |s.owner.Keys| == |s.pieces| + dominoes && dominoes <= |s.pieces|
    ensures Owned(g, final.owner, final.pieces, row, g.n)
    ensures |final.owner.Keys| == |final.pieces| + dominoes' && dominoes' <= |final.pieces|
    decreases g.n - col
  {
    if col >= g.n {
      dominoes' := dominoes;
    } else {
      var d := VisitOwned(g, random, row, col, s, dominoes);
      dominoes' := RowOwned(g, random, row, col + 1, Visit(g, random, row, col, s), final, d);
    }
  }

  /** A whole row keeps Owned and moves the scan to the next row. */
  lemma RowStep(g: Grid, random: nat -> real, row: nat, s: Scan, dominoes: nat)
    returns (dominoes': nat)
    requires row < g.n
    requires Owned(g, s.owner, s.pieces, row, 0)
    requires |s.owner.Keys| == |s.pieces| + dominoes && dominoes <= |s.pieces|
    ensures Owned(g, RowFrom(g, random, row, 0, s).owner, RowFrom(g, random, row, 0, s).pieces, row + 1, 0)
    ensures |RowFrom(g, random, row, 0, s).owner.Keys| == |RowFrom(g, random, row, 0, s).pieces| + dominoes'
    ensures dominoes' <= |RowFrom(g, random, row, 0, s).pieces|
  {
    var rowEnd := RowFrom(g, random, row, 0, s);
    dominoes' := RowOwned(g, random, row, 0, s, rowEnd, dominoes);
    OwnedNextRow(g, rowEnd.owner, rowEnd.pieces, row);
  }

  /** The rest of the scan keeps Owned, up to the end of the grid (`final`). */
  lemma {:induction false} ScanOwned(g: Grid, random: nat -> real, row: nat, s: Scan, final: Scan, dominoes: nat)
    returns (dominoes': nat)
    requires row <= g.n
    requires ScanFrom(g, random, row, s) == final
    requires Owned(g, s.owner, s.pieces, row, 0)
    requires |s.owner.Keys| == |s.pieces| + dominoes && dominoes <= |s.pieces|
    ensures Owned(g, final.owner, final.pieces, g.n, 0)
    ensures |final.owner.Keys| == |final.pieces| + dominoes' && dominoes' <= |final.pieces|
    decreases g.n - row
  {
    if row >= g.n {
      dominoes' := dominoes;
    } else {
      var d := RowStep(g, random, row, s, dominoes);
      dominoes' := ScanOwned(g, random, row + 1, RowFrom(g, random, row, 0, s), final, d);
    }
  }

  /** A whole scan tiles the grid exactly with fresh pieces numbered in order,
      at least half as many as there are cells and at most as many. */
  lemma GeneratedTiles(g: Grid, random: nat -> real)
    ensures ExactTiling(Generated(g, random), g.n)
    ensures forall i :: 0 <= i < |Generated(g, random)| ==> IsFreshPiece(g, Generated(g, random)[i], i)
    ensures |Generated(g, random)| <= g.n * g.n <= 2 * |Generated(g, random)|
  {
    var final := ScanFrom(g, random, 0, Scan(map[], [], 0));
    var dominoes := ScanOwned(g, random, 0, Scan(map[], [], 0), final, 0);
    OwnedDone(g, final.owner, final.pieces);
    OwnedCount(g.n, final.owner.Keys, |final.pieces|, dominoes);
  }

  /** `used` marks exactly the cells claimed in `owner`. */
  ghost predicate Marks(n: nat, used: array2<bool>, owner: map<Cell, nat>)
    reads used
  {
    && used.Length0 == n && used.Length1 == n
    && forall r, c {:trigger used[r, c]} :: 0 <= r < n && 0 <= c < n ==> (used[r, c] <==> Cell(r, c) in owner)
  }

  /** Marks the cells of the piece of the given shape at (row, col) as used. */
  method MarkUsed(n: nat, used: array2<bool>, row: nat, col: nat, shape: Shape, ghost owner: map<Cell, nat>, ghost id: nat)
    requires Marks(n, used, owner)
    requires row < n && col < n
    requires shape == Horizontal ==> col < n - 1
    requires shape == Vertical ==> row < n - 1
    modifies used
    ensures Marks(n, used, Claim(owner, shape, Cell(row, col), id))
  {
    if shape == Horizontal {
      used[row, col + 1] := true;
    } else if shape == Vertical {
      used[row + 1, col] := true;
    }
    used[row, col] := true;
  }

  /** One step of the scan at (row, col): skips a used cell; otherwise emits a
      square or, where the right or lower neighbour is inside the grid and
      unused, a domino reaching it, and marks the cells it covers as used.
      `random(draws)` is the next fraction drawn from the random source. */
  method VisitCell(g: Grid, random: nat -> real, used: array2<bool>, row: nat, col: nat,
                   pieces: seq<Piece>, id: nat, draws: nat, ghost owner: map<Cell, nat>)
    returns (pieces': seq<Piece>, id': nat, draws': nat, ghost owner': map<Cell, nat>)
    requires Marks(g.n, used, owner)
    requires id == |pieces|
    requires row < g.n && col < g.n
    modifies used
    ensures Marks(g.n, used, owner')
    ensures id' == |pieces'|
    ensures Scan(owner', pieces', draws') == Visit(g, random, row, col, Scan(owner, pieces, draws))
  {
    var n := g.n;
    if used[row, col] {
      assert Cell(row, col) in owner;
      return pieces, id, draws, owner;
    }
    var canHorizontal := col < n - 1 && !used[row, col + 1];
    var canVertical := row < n - 1 && !used[row + 1, col];
    assert canHorizontal == (col < n - 1 && Cell(row, col + 1) !in owner);
    assert canVertical == (row < n - 1 && Cell(row + 1, col) !in owner);
    var shape := Square;
    draws' := draws;
    if canHorizontal || canVertical {
      shape := ChooseShape(canHorizontal, canVertical, random(draws));
      draws' := draws + 1;
    }
    pieces' := pieces + [NewPiece(g, id, shape, Cell(row, col))];
    id' := id + 1;
    MarkUsed(n, used, row, col, shape, owner, |pieces|);
    owner' := Claim(owner, shape, Cell(row, col), |pieces|);
  }

  /** Scans the grid row by row, visiting every cell (see VisitCell). The
      result is the list the scan function describes, so it tiles the grid. */
  method GeneratePieces(g: Grid, random: nat -> real) returns (pieces: seq<Piece>)
    ensures pieces == Generated(g, random)
    ensures ExactTiling(pieces, g.n)
    ensures forall i :: 0 <= i < |pieces| ==> IsFreshPiece(g, pieces[i], i)
    ensures |pieces| <= g.n * g.n <= 2 * |pieces|
  {
    var n := g.n;
    var used := new bool[n, n]((_, _) => false);
    pieces := [];
    var id: nat := 0;
    var draws: nat := 0;
    ghost var owner: map<Cell, nat> := map[];
    ghost var final := ScanFrom(g, random, 0, Scan(map[], [], 0));
    for row := 0 to n
      invariant Marks(n, used, owner)
      invariant id == |pieces|
      invariant ScanFrom(g, random, row, Scan(owner, pieces, draws)) == final
    {
      ghost var rowStart := Scan(owner, pieces, draws);
      for col := 0 to n
        invariant Marks(n, used, owner)
        invariant id == |pieces|
        invariant RowFrom(g, random, row, col, Scan(owner, pieces, draws)) == RowFrom(g, random, row, 0, rowStart)
      {
        pieces, id, draws, owner := VisitCell(g, random, used, row, col, pieces, id, draws, owner);
      }
      assert RowFrom(g, random, row, 0, rowStart) == Scan(owner, pieces, draws);
    }
    assert Scan(owner, pieces, draws) == final;
    GeneratedTiles(g, random);
  }
}
