/** The falling piece: a mutable record of anchor, shape, colour and
    rotation index, with spawning (get_shape) and the shadow copy (get_shadow). */
module Pieces {
  import opened Shapes
  import opened Geometry
  import opened Board

  /** Where every new piece is spawned. */
  const SPAWN_COLUMN: int := 5
  const SPAWN_ROW: int := 0

  class Piece {
    var x: int
    var y: int
    const shape: Shape
    var color: Color
    var rotation: int

    /** Piece(column, row, shape): the colour is the catalogue colour at the
        shape's first position; the rotation index starts at 0. */
    constructor (column: int, row: int, shape: Shape, catalog: Catalog)
      requires shape in catalog.shapes && |catalog.shapes| <= |catalog.colors|
      ensures x == column && y == row && this.shape == shape && rotation == 0
      ensures color == catalog.colors[IndexOf(catalog.shapes, shape)]
    {
      x := column;
      y := row;
      this.shape := shape;
      color := catalog.colors[IndexOf(catalog.shapes, shape)];
      rotation := 0;
    }

    /** copy.deepcopy of a piece. */
    constructor Copy(p: Piece)
      ensures x == p.x && y == p.y && shape == p.shape && color == p.color && rotation == p.rotation
    {
      x, y, shape, color, rotation := p.x, p.y, p.shape, p.color, p.rotation;
    }

    /** convert_shape_format(piece). */
    function Positions(): (r: seq<Cell>)
      reads this
      requires |shape| > 0
    {
      ConvertShapeFormat(shape, rotation, x, y)
    }
  }

  /** get_shape with the random choice made by the caller: a fresh piece of
      the chosen shape at the spawn anchor. */
  method GetShape(catalog: Catalog, choice: nat) returns (p: Piece)
    requires choice < |catalog.shapes| <= |catalog.colors|
    ensures fresh(p)
    ensures p.x == SPAWN_COLUMN && p.y == SPAWN_ROW && p.rotation == 0
    ensures p.shape == catalog.shapes[choice] && p.color == ShapeColor(catalog, p.shape)
  {
    p := new Piece(SPAWN_COLUMN, SPAWN_ROW, catalog.shapes[choice], catalog);
  }

  /** shadow is the shadow of p on this grid: null exactly when p fits at no
      row of 0..22, else a grey copy of p at the shadow row (ShadowRowSpec:
      the largest row of 0..22 at which p fits). */
  ghost predicate IsShadowOf(shadow: Piece?, p: Piece, grid: Grid)
    reads p, shadow
    requires |p.shape| > 0 && WellFormed(grid)
  {
    var r := ShadowRow(p.shape, p.rotation, p.x, grid, SHADOW_TOP);
    && (shadow == null <==> r.None?)
    && (shadow != null ==>
          && shadow.x == p.x && shadow.shape == p.shape && shadow.rotation == p.rotation
          && shadow.color == GREY && shadow.y == r.value)
  }

  /** get_shadow: a grey copy of the piece at the largest anchor row in
      22, 21, ..., 0 at which it fits, or null when it fits at none of them.
      The piece itself is left untouched. */
  method GetShadow(p: Piece, grid: Grid) returns (shadow: Piece?)
    requires |p.shape| > 0 && WellFormed(grid)
    ensures IsShadowOf(shadow, p, grid)
    ensures shadow != null ==> fresh(shadow)
  {
    var copy := new Piece.Copy(p);
    var i := SHADOW_TOP;
    while i >= 0
      invariant -1 <= i <= SHADOW_TOP
      invariant copy.x == p.x && copy.shape == p.shape && copy.rotation == p.rotation
      invariant ShadowRow(p.shape, p.rotation, p.x, grid, SHADOW_TOP) == ShadowRow(p.shape, p.rotation, p.x, grid, i)
    {
      copy.y := i;
      copy.color := GREY;
      if Fits(copy.shape, copy.rotation, copy.x, copy.y, grid) {
        return copy;
      }
      i := i - 1;
    }
    return null;
  }
}
