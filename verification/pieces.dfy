/** The active piece: its footprint, colour and the grid position of the
    footprint's top-left corner, with the moves, the rotation, the spawn and
    the lock that change it.
 */
module Pieces {
  import opened Catalog
  import opened Playfield

  datatype Piece = Piece(shape: Shape, color: Color, x: int, y: int)

  /** Every occupied cell of the piece lies inside the grid; the piece may
      still overlap blocks (a spawn does not look at the grid). */
  predicate InBounds(p: Piece)
  {
    forall i, j :: 0 <= i < |p.shape| && 0 <= j < |p.shape[i]| && p.shape[i][j] ==>
      0 <= p.x + j < GridWidth && 0 <= p.y + i < GridHeight
  }

  /** The piece satisfies the placement rule where it stands. */
  predicate Valid(g: Grid, p: Piece)
    requires WellFormed(g)
  {
    Fits(g, p.shape, p.x, p.y)
  }

  /** Grid column x, row y is under an occupied cell of the piece. */
  predicate Covers(p: Piece, x: int, y: int)
  {
    && p.y <= y < p.y + |p.shape|
    && p.x <= x < p.x + |p.shape[y - p.y]|
    && p.shape[y - p.y][x - p.x]
  }

  lemma {:induction false} ValidInBounds(g: Grid, p: Piece)
    requires WellFormed(g) && Valid(g, p)
    ensures InBounds(p)
  {
  }

  /** The outcome of a move attempt: whether it was made, and the piece. */
  datatype Moved = Moved(ok: bool, piece: Piece)

  /** Moves the piece by (dx, dy) if the placement rule allows the new
      position; otherwise the piece stays where it is. */
  function TryMove(g: Grid, p: Piece, dx: int, dy: int): (m: Moved)
    requires WellFormed(g)
    ensures m.ok <==> Fits(g, p.shape, p.x + dx, p.y + dy)
    ensures m.ok ==> m.piece == p.(x := p.x + dx, y := p.y + dy)
    ensures !m.ok ==> m.piece == p
  {
    if IsValidPlacement(g, p.shape, p.x + dx, p.y + dy) then
      Moved(true, p.(x := p.x + dx, y := p.y + dy))
    else
      Moved(false, p)
  }

  /** A move never leaves a valid placement and never takes a piece out of
      the grid; shape and colour never change. */
  lemma {:induction false} MoveKeepsPlacement(g: Grid, p: Piece, dx: int, dy: int)
    requires WellFormed(g)
    ensures var q := TryMove(g, p, dx, dy).piece;
      && q.shape == p.shape && q.color == p.color
      && (Valid(g, p) ==> Valid(g, q))
      && (InBounds(p) ==> InBounds(q))
      && (q != p ==> Valid(g, q))
  {
  }

  /** Turns the piece a quarter clockwise in place if the turned footprint
      satisfies the placement rule at the same position; a rejected turn
      changes nothing. When the turned footprint has no rows the check falls
      back to the current footprint, as an empty footprint does in the
      game's code, but the empty footprint is what is committed. */
  function TryRotate(g: Grid, p: Piece): (r: Piece)
    requires WellFormed(g)
    ensures r.x == p.x && r.y == p.y && r.color == p.color
    ensures r == p || r.shape == Rotate(p.shape)
    ensures Rotate(p.shape) != [] ==>
      (Fits(g, Rotate(p.shape), p.x, p.y) ==> r.shape == Rotate(p.shape))
    ensures Rotate(p.shape) != [] && !Fits(g, Rotate(p.shape), p.x, p.y) ==> r == p
    ensures Rotate(p.shape) == [] ==>
      (r.shape == [] <==> Fits(g, p.shape, p.x, p.y) || p.shape == [])
    ensures InBounds(p) ==> InBounds(r)
    ensures r.shape != p.shape ==> Valid(g, r)
    ensures IsRect(p.shape) ==> IsRect(r.shape)
  {
    var turned := Rotate(p.shape);
    assert IsRect(p.shape) ==> IsRect(turned) by {
      if IsRect(p.shape) { RotateRect(p.shape); }
    }
    var probe := if turned == [] then p.shape else turned;
    if IsValidPlacement(g, probe, p.x, p.y) then p.(shape := turned) else p
  }

  /** A turn of a rectangular piece is committed exactly when the turned
      footprint fits; then the piece is w rows by h columns, and a rejected
      turn leaves it as it was. */
  lemma {:induction false} RotateOutcome(g: Grid, p: Piece)
    requires WellFormed(g) && IsRect(p.shape)
    ensures var r := TryRotate(g, p);
      && (Fits(g, Rotate(p.shape), p.x, p.y) ==>
            (r.shape == Rotate(p.shape) && |r.shape| == Width(p.shape) && Width(r.shape) == |p.shape|))
      && (!Fits(g, Rotate(p.shape), p.x, p.y) ==> r == p)
  {
    RotateRect(p.shape);
  }

  /** A new piece: catalog shape k, palette colour c, in the top row and
      centred horizontally. */
  function Spawn(k: ShapeIndex, c: ColorIndex): (p: Piece)
    ensures p.shape == Shapes[k] && p.color == Palette[c] && p.y == 0
    ensures var right := GridWidth - (p.x + Width(p.shape)); 0 <= right - p.x <= 1
    ensures InBounds(p)
  {
    CatalogShapes();
    // Python's floor division in the game's code; the divisor is positive, so Dafny's
    // Euclidean division gives the same quotient.
    Piece(Shapes[k], Palette[c], (GridWidth - Width(Shapes[k])) / 2, 0)
  }

  /** Every catalog shape spawns in a valid placement on an empty grid. */
  lemma {:induction false} SpawnFitsEmptyGrid(k: ShapeIndex, c: ColorIndex)
    ensures WellFormed(EmptyGrid())
    ensures Valid(EmptyGrid(), Spawn(k, c))
  {
    Dimensions();
  }

  /** Writes the colour into grid column x, row y. */
  function Paint(g: Grid, x: int, y: int, color: Color): (r: Grid)
    requires WellFormed(g) && 0 <= x < GridWidth && 0 <= y < GridHeight
    ensures WellFormed(r)
    ensures forall y', x' :: 0 <= y' < GridHeight && 0 <= x' < GridWidth ==>
      r[y'][x'] == if y' == y && x' == x then Block(color) else g[y'][x']
  {
    g[y := g[y][x := Block(color)]]
  }

  /** Paints the occupied cells of row i of the piece from column j on. */
  function PaintRow(g: Grid, p: Piece, i: int, j: int): (r: Grid)
    requires WellFormed(g) && InBounds(p) && 0 <= i < |p.shape| && 0 <= j <= |p.shape[i]|
    ensures WellFormed(r)
    ensures forall y, x :: 0 <= y < GridHeight && 0 <= x < GridWidth ==>
      r[y][x] == if y == p.y + i && p.x + j <= x < p.x + |p.shape[i]| && p.shape[i][x - p.x]
                 then Block(p.color) else g[y][x]
    decreases |p.shape[i]| - j
  {
    if j == |p.shape[i]| then g
    else if p.shape[i][j] then PaintRow(Paint(g, p.x + j, p.y + i, p.color), p, i, j + 1)
    else PaintRow(g, p, i, j + 1)
  }

  /** Paints the occupied cells of the piece's rows from row i on. */
  function PaintRows(g: Grid, p: Piece, i: int): (r: Grid)
    requires WellFormed(g) && InBounds(p) && 0 <= i <= |p.shape|
    ensures WellFormed(r)
    ensures forall y, x :: 0 <= y < GridHeight && 0 <= x < GridWidth ==>
      r[y][x] == if p.y + i <= y && Covers(p, x, y) then Block(p.color) else g[y][x]
    decreases |p.shape| - i
  {
    if i == |p.shape| then g
    else PaintRows(PaintRow(g, p, i, 0), p, i + 1)
  }

  /** Locking writes the piece's colour into exactly the cells it covers;
      every other cell and the grid's dimensions stay as they were. */
  function Lock(g: Grid, p: Piece): (r: Grid)
    requires WellFormed(g) && InBounds(p)
    ensures WellFormed(r)
    ensures forall y, x :: 0 <= y < GridHeight && 0 <= x < GridWidth ==>
      r[y][x] == if Covers(p, x, y) then Block(p.color) else g[y][x]
  {
    PaintRows(g, p, 0)
  }
}
