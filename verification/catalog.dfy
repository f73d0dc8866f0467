/** The shape catalog: the seven configured tetromino footprints, the colour
    palette a piece is painted with, and the clockwise rotation of a footprint.
 */
module Catalog {

  /** An RGB colour. It is only ever drawn; play never looks at its value. */
  datatype Color = Rgb(red: int, green: int, blue: int)

  /** A footprint: ordered rows of ordered cells, `true` where the piece
      occupies the cell. Row 0 is the top row. */
  type Shape = seq<seq<bool>>

  const ShapeCount := 7
  const ColorCount := 7

  /** The catalog exactly as configured. Entries 2 and 5 are the same T
      footprint and entries 4 and 6 the same J footprint; the catalog is kept
      as written, so those two footprints are drawn twice as often. */
  const Shapes: seq<Shape> := [
    [[true, true, true, true]],
    [[true, true], [true, true]],
    [[true, true, true], [false, true, false]],
    [[true, true, true], [true, false, false]],
    [[true, true, true], [false, false, true]],
    [[true, true, true], [false, true, false]],
    [[true, true, true], [false, false, true]]
  ]

  const Palette: seq<Color> := [
    Rgb(255, 100, 100),
    Rgb(100, 255, 100),
    Rgb(100, 100, 255),
    Rgb(255, 255, 100),
    Rgb(255, 100, 255),
    Rgb(100, 255, 255),
    Rgb(200, 200, 200)
  ]

  /** An index into the catalog, as drawn by the random choice of a shape. */
  type ShapeIndex = i: int | 0 <= i < ShapeCount

  /** An index into the palette, as drawn by the random choice of a colour. */
  type ColorIndex = i: int | 0 <= i < ColorCount

  /** A non-empty rectangle of cells: every row has the width of the first. */
  predicate IsRect(s: Shape)
  {
    && |s| > 0
    && |s[0]| > 0
    && forall i :: 0 <= i < |s| ==> |s[i]| == |s[0]|
  }

  /** The width a spawn uses to centre a footprint: the length of its top row. */
  function Width(s: Shape): nat
    requires |s| > 0
  {
    |s[0]|
  }

  lemma CatalogShapes()
    ensures |Shapes| == ShapeCount && |Palette| == ColorCount
    ensures forall k :: 0 <= k < |Shapes| ==>
      IsRect(Shapes[k]) && 1 <= Width(Shapes[k]) <= 4 && 1 <= |Shapes[k]| <= 2
  {
  }

  lemma CatalogDuplicates()
    ensures Shapes[2] == Shapes[5] && Shapes[4] == Shapes[6]
    ensures forall k :: 0 <= k < |Shapes| && k != 5 && k != 6 ==>
      forall m :: 0 <= m < k ==> Shapes[k] != Shapes[m]
  {
  }

  /** The number of tuples zipping the rows together yields: the length of
      the shortest row, and nothing at all when there are no rows. */
  function ZipLength(s: Shape): (n: nat)
    ensures |s| == 0 ==> n == 0
    ensures forall i :: 0 <= i < |s| ==> n <= |s[i]|
    ensures |s| > 0 ==> exists i :: 0 <= i < |s| && n == |s[i]|
  {
    if |s| == 0 then 0
    else if |s| == 1 then |s[0]|
    else
      var rest := ZipLength(s[1..]);
      assert forall i :: 1 <= i < |s| ==> s[i] == s[1..][i - 1];
      if |s[0]| <= rest then |s[0]| else rest
  }

  /** Clockwise quarter turn: zip the rows of the footprint taken bottom-up.
      Column i of the old footprint, read from the bottom, becomes row i. */
  function Rotate(s: Shape): (r: Shape)
    ensures |r| == ZipLength(s)
    ensures forall i :: 0 <= i < |r| ==> |r[i]| == |s|
  {
    seq(ZipLength(s), i requires 0 <= i < ZipLength(s) =>
      seq(|s|, j requires 0 <= j < |s| => s[|s| - 1 - j][i]))
  }

  lemma {:induction false} ZipLengthOfRect(s: Shape)
    requires IsRect(s)
    ensures ZipLength(s) == Width(s)
  {
    if |s| > 1 {
      assert IsRect(s[1..]) by {
        assert forall i :: 0 <= i < |s[1..]| ==> s[1..][i] == s[i + 1];
      }
      ZipLengthOfRect(s[1..]);
    }
  }

  /** Rotating a rectangle of h rows and w columns gives a rectangle of w
      rows and h columns, and occupied cell (i, j) moves to (j, h - 1 - i). */
  lemma {:induction false} RotateRect(s: Shape)
    requires IsRect(s)
    ensures IsRect(Rotate(s))
    ensures |Rotate(s)| == Width(s) && Width(Rotate(s)) == |s|
    ensures forall i, j :: 0 <= i < |s| && 0 <= j < |s[i]| ==>
      Rotate(s)[j][|s| - 1 - i] == s[i][j]
  {
    ZipLengthOfRect(s);
  }

  /** Two quarter turns are a half turn: the rectangle read backwards in
      both directions. */
  lemma {:induction false} HalfTurn(s: Shape)
    requires IsRect(s)
    ensures IsRect(Rotate(Rotate(s)))
    ensures |Rotate(Rotate(s))| == |s| && Width(Rotate(Rotate(s))) == Width(s)
    ensures forall i, j :: 0 <= i < |s| && 0 <= j < Width(s) ==>
      Rotate(Rotate(s))[i][j] == s[|s| - 1 - i][Width(s) - 1 - j]
  {
    RotateRect(s);
    var r1 := Rotate(s);
    RotateRect(r1);
    ZipLengthOfRect(r1);
    forall i, j | 0 <= i < |s| && 0 <= j < Width(s)
      ensures Rotate(r1)[i][j] == s[|s| - 1 - i][Width(s) - 1 - j]
    {
      assert Rotate(r1)[i][j] == r1[Width(s) - 1 - j][i];
    }
  }

  /** Four clockwise quarter turns bring every rectangle back to itself. */
  lemma {:induction false} RotateFourTimes(s: Shape)
    requires IsRect(s)
    ensures Rotate(Rotate(Rotate(Rotate(s)))) == s
  {
    HalfTurn(s);
    var r2 := Rotate(Rotate(s));
    HalfTurn(r2);
    var r4 := Rotate(Rotate(r2));
    forall i | 0 <= i < |s|
      ensures r4[i] == s[i]
    {
      forall j | 0 <= j < Width(s)
        ensures r4[i][j] == s[i][j]
      {
        assert r4[i][j] == r2[|s| - 1 - i][Width(s) - 1 - j];
      }
    }
  }
}
