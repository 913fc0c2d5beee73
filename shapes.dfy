/** The shape catalogue the game draws its pieces from: rotation patterns
    and the colour that belongs to each shape. */
module Shapes {

  /** An RGB colour triple. */
  type Color = (int, int, int)

  /** The background colour: a grid cell of this colour is empty. */
  const BLACK: Color := (0, 0, 0)

  /** The colour a shadow projection is painted in. */
  const GREY: Color := (179, 179, 179)

  /** One rotation state: lines of characters, where '0' marks a filled cell. */
  type Pattern = seq<string>

  /** A shape: its rotation states, in order. */
  type Shape = seq<Pattern>

  /** SHAPES and SHAPE_COLORS: the shapes and, position by position, their colours. */
  datatype Catalog = Catalog(shapes: seq<Shape>, colors: seq<Color>) {

    /** At least one shape, one colour per shape, at least one rotation state per shape. */
    predicate Valid() {
      && |shapes| > 0
      && |colors| == |shapes|
      && forall i :: 0 <= i < |shapes| ==> |shapes[i]| > 0
    }
  }

  /** Python's `list.index`: the position of the first occurrence of `x` in `s`. */
  function IndexOf<T(==)>(s: seq<T>, x: T): (r: nat)
    requires x in s
    ensures r < |s| && s[r] == x
    ensures forall k :: 0 <= k < r ==> s[k] != x
  {
    if s[0] == x then 0 else 1 + IndexOf(s[1..], x)
  }

  /** The colour of a shape is the colour at its first position in the catalogue. */
  function ShapeColor(catalog: Catalog, shape: Shape): (c: Color)
    requires shape in catalog.shapes && |catalog.shapes| <= |catalog.colors|
    ensures exists i :: && 0 <= i < |catalog.shapes| && catalog.shapes[i] == shape
                        && (forall k :: 0 <= k < i ==> catalog.shapes[k] != shape)
                        && c == catalog.colors[i]
  {
    catalog.colors[IndexOf(catalog.shapes, shape)]
  }
}
