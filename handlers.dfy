/** The piece-list updates of a running game: scattering the assembled image,
    and picking up, dragging and releasing one piece. Each is a map over the
    list that rewrites only the fields it names. */
module Handlers {
  import opened Pieces

  /** A released piece snaps home when its distance to the correct position
      is below this many pixels. */
  const SnapTolerance: real := 50.0

  /** The inner size of the browser window. */
  datatype Window = Window(innerWidth: real, innerHeight: real)

  /** The size of the board, that is of the whole image. */
  datatype Board = Board(width: real, height: real)

  /** Window coordinates of the board's top-left corner. */
  function BoardOffset(w: Window, b: Board): (off: Vec)
    ensures off.x + b.width + off.x == w.innerWidth
    ensures off.y + b.height + off.y == w.innerHeight
  {
    Vec((w.innerWidth - b.width) / 2.0, (w.innerHeight - b.height) / 2.0)
  }

  // ---------------------------------------------------------------- scatter

  /** The rectangle, in board coordinates, that pieces are scattered into. */
  datatype Area = Area(minX: real, minY: real, maxX: real, maxY: real)

  /** The scatter area: the whole window, expressed relative to the board. */
  function ScatterArea(w: Window, b: Board): (a: Area)
    ensures a.minX + BoardOffset(w, b).x == 0.0 && a.minY + BoardOffset(w, b).y == 0.0
    ensures a.maxX - a.minX == w.innerWidth && a.maxY - a.minY == w.innerHeight
  {
    var off := BoardOffset(w, b);
    Area(-off.x, -off.y, b.width + off.x, b.height + off.y)
  }

  predicate Fraction(r: real)
  {
    0.0 <= r < 1.0
  }

  /** `r` scaled from [0, 1) to [lo, lo + range). */
  function Scale(r: real, range: real, lo: real): (v: real)
    ensures Fraction(r) && 0.0 <= range ==> lo <= v <= lo + range
    ensures Fraction(r) && 0.0 < range ==> v < lo + range
  {
    assert Fraction(r) && 0.0 <= range ==> 0.0 <= r * range;
    assert Fraction(r) && 0.0 < range ==> r * range < 1.0 * range;
    r * range + lo
  }

  /** The landing spot of a piece lies in the scatter area with room for the
      piece's whole size (strictly inside when it fits with room to spare). */
  predicate LandsInArea(p: Piece, q: Vec, i: nat, random: nat -> real, w: Window, b: Board)
  {
    var a := ScatterArea(w, b);
    && (Fraction(random(2 * i)) && p.size.width <= w.innerWidth ==>
          a.minX <= q.x <= a.maxX - p.size.width && (p.size.width < w.innerWidth ==> q.x < a.maxX - p.size.width))
    && (Fraction(random(2 * i + 1)) && p.size.height <= w.innerHeight ==>
          a.minY <= q.y <= a.maxY - p.size.height && (p.size.height < w.innerHeight ==> q.y < a.maxY - p.size.height))
  }

  /** Where piece number `i` lands: `random(2 * i)` and `random(2 * i + 1)` are
      the fractions drawn for its x and its y. */
  function ScatterPos(p: Piece, i: nat, random: nat -> real, w: Window, b: Board): (q: Vec)
    ensures LandsInArea(p, q, i, random, w, b)
  {
    var a := ScatterArea(w, b);
    Vec(Scale(random(2 * i), a.maxX - a.minX - p.size.width, a.minX),
        Scale(random(2 * i + 1), a.maxY - a.minY - p.size.height, a.minY))
  }

  /** The scatter as the game performs it: every piece, snapped or not, is
      moved to a random spot of the window. */
  function Scatter(ps: seq<Piece>, random: nat -> real, w: Window, b: Board): (qs: seq<Piece>)
    ensures |qs| == |ps|
    ensures forall i :: 0 <= i < |ps| ==> qs[i] == ps[i].(currentPos := qs[i].currentPos)
    ensures forall i :: 0 <= i < |ps| ==> LandsInArea(ps[i], qs[i].currentPos, i, random, w, b)
  {
    seq(|ps|, i requires 0 <= i < |ps| => ps[i].(currentPos := ScatterPos(ps[i], i, random, w, b)))
  }

  /** The scatter moves a piece that was already snapped away from its
      correct position while leaving it snapped: a piece released in place
      before the scatter fires ends up stuck elsewhere. */
  lemma ScatterUnplacesSnapped()
    ensures var g := Grid(3, 100.0, 100.0);
      var p := Piece(0, Square, Cell(0, 0), Vec(0.0, 0.0), ShapeSize(g, Square), Vec(0.0, 0.0), true, None, false, true);
      var qs := Scatter([p], _ => 0.5, Window(800.0, 600.0), Board(300.0, 300.0));
      PlacedAtTarget([p]) && !PlacedAtTarget(qs)
  {
    var g := Grid(3, 100.0, 100.0);
    var p := Piece(0, Square, Cell(0, 0), Vec(0.0, 0.0), ShapeSize(g, Square), Vec(0.0, 0.0), true, None, false, true);
    var w, b := Window(800.0, 600.0), Board(300.0, 300.0);
    var qs := Scatter([p], _ => 0.5, w, b);
    assert qs[0].currentPos == ScatterPos(p, 0, _ => 0.5, w, b);
    assert ScatterPos(p, 0, _ => 0.5, w, b).x == 100.0;
  }

  /** The scatter as evidently intended: unsnapped pieces move to a random
      spot, snapped pieces stay home. */
  function ScatterUnsnapped(ps: seq<Piece>, random: nat -> real, w: Window, b: Board): (qs: seq<Piece>)
    ensures |qs| == |ps|
    ensures forall i :: 0 <= i < |ps| ==> qs[i] == ps[i].(currentPos := qs[i].currentPos)
    ensures forall i :: 0 <= i < |ps| && ps[i].snapped ==> qs[i] == ps[i]
    ensures forall i :: 0 <= i < |ps| && !ps[i].snapped ==> LandsInArea(ps[i], qs[i].currentPos, i, random, w, b)
  {
    var moved := Scatter(ps, random, w, b);
    seq(|ps|, i requires 0 <= i < |ps| => if ps[i].snapped then ps[i] else moved[i])
  }

  /** The corrected scatter keeps every snapped piece at its target and keeps
      the layout, so it keeps an exact tiling. */
  lemma ScatterUnsnappedKeepsPlacement(ps: seq<Piece>, random: nat -> real, w: Window, b: Board, n: nat)
    requires PlacedAtTarget(ps) && ExactTiling(ps, n)
    ensures PlacedAtTarget(ScatterUnsnapped(ps, random, w, b))
    ensures ExactTiling(ScatterUnsnapped(ps, random, w, b), n)
    ensures SnapsKept(ps, ScatterUnsnapped(ps, random, w, b))
  {
    TilingKept(ps, ScatterUnsnapped(ps, random, w, b), n);
  }

  // ------------------------------------------------------------- drag start

  /** Picking up piece `id` with the pointer at window position `pointer`:
      that piece records where on it the pointer grabbed it. */
  function DragStart(ps: seq<Piece>, id: nat, pointer: Vec, w: Window, b: Board): (qs: seq<Piece>)
    ensures |qs| == |ps|
    ensures forall i :: 0 <= i < |ps| ==> qs[i] == ps[i].(dragOffset := qs[i].dragOffset)
    ensures forall i :: 0 <= i < |ps| && ps[i].id != id ==> qs[i] == ps[i]
    ensures forall i :: 0 <= i < |ps| && ps[i].id == id ==>
      && qs[i].dragOffset.Some?
      && BoardOffset(w, b).x + qs[i].currentPos.x + qs[i].dragOffset.value.x == pointer.x
      && BoardOffset(w, b).y + qs[i].currentPos.y + qs[i].dragOffset.value.y == pointer.y
  {
    var off := BoardOffset(w, b);
    seq(|ps|, i requires 0 <= i < |ps| =>
      if ps[i].id == id
      then ps[i].(dragOffset := Some(Vec(pointer.x - (off.x + ps[i].currentPos.x), pointer.y - (off.y + ps[i].currentPos.y))))
      else ps[i])
  }

  // -------------------------------------------------------------- drag move

  /** `a` limited to the interval [0, hi], with 0 winning when hi < 0. */
  function Clamp(a: real, hi: real): (r: real)
    ensures 0.0 <= r
    ensures 0.0 <= hi ==> r <= hi
    ensures hi < 0.0 ==> r == 0.0
    ensures 0.0 <= a <= hi ==> r == a
    ensures a < 0.0 ==> r == 0.0
    ensures 0.0 <= hi <= a ==> r == hi
  {
    var m := if a < hi then a else hi;
    if 0.0 < m then m else 0.0
  }

  /** Only the piece being dragged, unsnapped and picked up, follows the pointer. */
  predicate Movable(p: Piece, id: nat)
  {
    p.id == id && !p.snapped && p.dragOffset.Some?
  }

  /** Moving the pointer to `pointer` while dragging piece `id`: the piece's
      window position becomes the pointer minus the grab offset, clamped so the
      piece stays inside the window's top-left corner and, where it fits,
      inside the window. */
  function DragMove(ps: seq<Piece>, id: nat, pointer: Vec, w: Window, b: Board): (qs: seq<Piece>)
    ensures |qs| == |ps|
    ensures forall i :: 0 <= i < |ps| ==> qs[i] == ps[i].(currentPos := qs[i].currentPos)
    ensures forall i :: 0 <= i < |ps| && !Movable(ps[i], id) ==> qs[i] == ps[i]
    ensures forall i :: 0 <= i < |ps| && Movable(ps[i], id) ==>
      var abs := Vec(BoardOffset(w, b).x + qs[i].currentPos.x, BoardOffset(w, b).y + qs[i].currentPos.y);
      && 0.0 <= abs.x && (ps[i].size.width <= w.innerWidth ==> abs.x <= w.innerWidth - ps[i].size.width)
      && 0.0 <= abs.y && (ps[i].size.height <= w.innerHeight ==> abs.y <= w.innerHeight - ps[i].size.height)
    ensures forall i :: 0 <= i < |ps| && Movable(ps[i], id) ==>
      && BoardOffset(w, b).x + qs[i].currentPos.x == Clamp(pointer.x - ps[i].dragOffset.value.x, w.innerWidth - ps[i].size.width)
      && BoardOffset(w, b).y + qs[i].currentPos.y == Clamp(pointer.y - ps[i].dragOffset.value.y, w.innerHeight - ps[i].size.height)
    ensures forall i :: 0 <= i < |ps| && Movable(ps[i], id) ==>
      var target := Vec(pointer.x - ps[i].dragOffset.value.x, pointer.y - ps[i].dragOffset.value.y);
      && (0.0 <= target.x <= w.innerWidth - ps[i].size.width ==> BoardOffset(w, b).x + qs[i].currentPos.x == target.x)
      && (0.0 <= target.y <= w.innerHeight - ps[i].size.height ==> BoardOffset(w, b).y + qs[i].currentPos.y == target.y)
  {
    var off := BoardOffset(w, b);
    seq(|ps|, i requires 0 <= i < |ps| =>
      if Movable(ps[i], id)
      then
        var absX := Clamp(pointer.x - ps[i].dragOffset.value.x, w.innerWidth - ps[i].size.width);
        var absY := Clamp(pointer.y - ps[i].dragOffset.value.y, w.innerHeight - ps[i].size.height);
        ps[i].(currentPos := Vec(absX - off.x, absY - off.y))
      else ps[i])
  }

  /** Picking a piece up and moving the pointer nowhere leaves the piece where
      it was, when it lies within the window. */
  lemma StartThenStillMove(ps: seq<Piece>, id: nat, pointer: Vec, w: Window, b: Board, i: nat)
    requires i < |ps| && ps[i].id == id && !ps[i].snapped
    requires 0.0 <= BoardOffset(w, b).x + ps[i].currentPos.x <= w.innerWidth - ps[i].size.width
    requires 0.0 <= BoardOffset(w, b).y + ps[i].currentPos.y <= w.innerHeight - ps[i].size.height
    ensures DragMove(DragStart(ps, id, pointer, w, b), id, pointer, w, b)[i] == DragStart(ps, id, pointer, w, b)[i]
  {
  }

  // --------------------------------------------------------------- drag end

  /** The piece lies closer to its correct position than the snap tolerance,
      compared on squared distances. */
  predicate WithinTolerance(p: Piece)
  {
    var dx := p.currentPos.x - p.correctPos.x;
    var dy := p.currentPos.y - p.correctPos.y;
    dx * dx + dy * dy < SnapTolerance * SnapTolerance
  }

  /** The squared comparison is the Euclidean one: for the distance `d` (the
      non-negative root of dx² + dy²), `d < 50` exactly when `dx² + dy² < 2500`. */
  lemma ToleranceIsDistance(p: Piece, d: real)
    requires 0.0 <= d
    requires d * d == (p.currentPos.x - p.correctPos.x) * (p.currentPos.x - p.correctPos.x)
                    + (p.currentPos.y - p.correctPos.y) * (p.currentPos.y - p.correctPos.y)
    ensures WithinTolerance(p) <==> d < SnapTolerance
  {
    if d < SnapTolerance {
      assert d * d <= d * SnapTolerance < SnapTolerance * SnapTolerance;
    } else {
      assert d * d >= d * SnapTolerance >= SnapTolerance * SnapTolerance;
    }
  }

  /** Releasing piece `id`: if it was not yet snapped, it snaps home when within
      tolerance and is flagged as an error otherwise. Every piece is let go. */
  function DragEnd(ps: seq<Piece>, id: nat): (qs: seq<Piece>)
    ensures SameLayout(ps, qs)
    ensures SnapsKept(ps, qs)
    ensures forall i :: 0 <= i < |qs| ==> qs[i].dragOffset == None
    ensures forall i :: 0 <= i < |ps| && !(ps[i].id == id && !ps[i].snapped) ==> qs[i] == ps[i].(dragOffset := None)
    ensures forall i :: 0 <= i < |ps| && ps[i].id == id && !ps[i].snapped ==>
      && (qs[i].snapped <==> WithinTolerance(ps[i]))
      && (qs[i].error <==> !WithinTolerance(ps[i]))
      && qs[i].instantSnap
      && qs[i].currentPos == (if WithinTolerance(ps[i]) then ps[i].correctPos else ps[i].currentPos)
  {
    seq(|ps|, i requires 0 <= i < |ps| =>
      if ps[i].id == id && !ps[i].snapped then
        if WithinTolerance(ps[i])
        then ps[i].(currentPos := ps[i].correctPos, snapped := true, dragOffset := None, error := false, instantSnap := true)
        else ps[i].(dragOffset := None, error := true, instantSnap := true)
      else ps[i].(dragOffset := None))
  }

  /** Releasing the same piece twice is releasing it once. */
  lemma DragEndIdempotent(ps: seq<Piece>, id: nat)
    ensures DragEnd(DragEnd(ps, id), id) == DragEnd(ps, id)
  {
  }

  /** A piece still at its correct position snaps as soon as it is released,
      so a click on an unscattered piece snaps it. */
  lemma ReleaseInPlaceSnaps(ps: seq<Piece>, id: nat, i: nat)
    requires i < |ps| && ps[i].id == id && !ps[i].snapped
    requires ps[i].currentPos == ps[i].correctPos
    ensures DragEnd(ps, id)[i].snapped && !DragEnd(ps, id)[i].error
  {
  }

  /** None of the drag handlers ever moves a snapped piece or unsnaps a piece,
      and each keeps every snapped piece at its target. */
  lemma DragKeepsPlacement(ps: seq<Piece>, id: nat, pointer: Vec, w: Window, b: Board)
    requires PlacedAtTarget(ps)
    ensures PlacedAtTarget(DragStart(ps, id, pointer, w, b))
    ensures PlacedAtTarget(DragMove(ps, id, pointer, w, b))
    ensures PlacedAtTarget(DragEnd(ps, id))
    ensures SnapsKept(ps, DragStart(ps, id, pointer, w, b)) && SnapsKept(ps, DragMove(ps, id, pointer, w, b))
  {
  }
}
