/** Piece geometry: from a shape, a rotation index and an anchor to the
    absolute board cells the piece covers (convert_shape_format). */
module Geometry {
  import opened Shapes

  /** An absolute board cell (column, row); row 0 is the top row and rows grow downwards. */
  type Cell = (int, int)

  /** The alignment offset subtracted from every raw pattern cell. */
  const OFFSET_COLUMNS: int := 2
  const OFFSET_ROWS: int := 4

  /** The rotation state in use. The rotation index itself is never wrapped;
      it is reduced modulo the number of states only here. */
  function Format(shape: Shape, rotation: int): (r: Pattern)
    requires |shape| > 0
  {
    shape[rotation % |shape|]
  }

  /** The cells (x + j, y), left to right, for every '0' at index j of `line`. */
  function LinePositions(line: string, x: int, y: int): (r: seq<Cell>)
  {
    if |line| == 0 then []
    else
      var n := |line| - 1;
      LinePositions(line[..n], x, y) + (if line[n] == '0' then [(x + n, y)] else [])
  }

  /** Every position of a line comes from one of its '0' characters. */
  lemma {:induction false} LinePositionsSound(line: string, x: int, y: int, c: Cell)
    requires c in LinePositions(line, x, y)
    ensures c.1 == y && x <= c.0 < x + |line| && line[c.0 - x] == '0'
  {
    var n := |line| - 1;
    if c in LinePositions(line[..n], x, y) {
      LinePositionsSound(line[..n], x, y, c);
      assert line[..n][c.0 - x] == line[c.0 - x];
    }
  }

  /** Every '0' of a line gives a position. */
  lemma {:induction false} LinePositionsComplete(line: string, x: int, y: int, j: int)
    requires 0 <= j < |line| && line[j] == '0'
    ensures (x + j, y) in LinePositions(line, x, y)
  {
    var n := |line| - 1;
    if j < n {
      assert line[..n][j] == line[j];
      LinePositionsComplete(line[..n], x, y, j);
    }
  }

  /** The positions of a line are listed left to right. */
  lemma {:induction false} LinePositionsIncreasing(line: string, x: int, y: int)
    ensures forall a, b :: 0 <= a < b < |LinePositions(line, x, y)| ==>
              LinePositions(line, x, y)[a].0 < LinePositions(line, x, y)[b].0
  {
    if |line| > 0 {
      var n := |line| - 1;
      var prefix := LinePositions(line[..n], x, y);
      LinePositionsIncreasing(line[..n], x, y);
      forall a | 0 <= a < |prefix| ensures prefix[a].0 < x + n {
        LinePositionsSound(line[..n], x, y, prefix[a]);
      }
    }
  }

  /** The raw positions of a pattern, line by line from the top: (x + j, y + i)
      for every '0' at line i, index j. */
  function FormatPositions(format: Pattern, x: int, y: int): (r: seq<Cell>)
  {
    if |format| == 0 then []
    else
      var n := |format| - 1;
      FormatPositions(format[..n], x, y) + LinePositions(format[n], x, y + n)
  }

  /** Every raw position comes from a '0' of the pattern. */
  lemma {:induction false} FormatPositionsSound(format: Pattern, x: int, y: int, c: Cell)
    requires c in FormatPositions(format, x, y)
    ensures y <= c.1 < y + |format|
    ensures x <= c.0 < x + |format[c.1 - y]| && format[c.1 - y][c.0 - x] == '0'
  {
    var n := |format| - 1;
    if c in FormatPositions(format[..n], x, y) {
      FormatPositionsSound(format[..n], x, y, c);
      assert format[..n][c.1 - y] == format[c.1 - y];
    } else {
      LinePositionsSound(format[n], x, y + n, c);
    }
  }

  /** Every '0' of the pattern gives a raw position. */
  lemma {:induction false} FormatPositionsComplete(format: Pattern, x: int, y: int, i: int, j: int)
    requires 0 <= i < |format| && 0 <= j < |format[i]| && format[i][j] == '0'
    ensures (x + j, y + i) in FormatPositions(format, x, y)
  {
    var n := |format| - 1;
    if i < n {
      assert format[..n][i] == format[i];
      FormatPositionsComplete(format[..n], x, y, i, j);
    } else {
      LinePositionsComplete(format[n], x, y + n, j);
    }
  }

  /** No raw position is produced twice. */
  lemma {:induction false} FormatPositionsDistinct(format: Pattern, x: int, y: int)
    ensures var r := FormatPositions(format, x, y);
            forall a, b :: 0 <= a < b < |r| ==> r[a] != r[b]
  {
    if |format| > 0 {
      var n := |format| - 1;
      var prefix := FormatPositions(format[..n], x, y);
      var last := LinePositions(format[n], x, y + n);
      FormatPositionsDistinct(format[..n], x, y);
      LinePositionsIncreasing(format[n], x, y + n);
      forall a, b | 0 <= a < |prefix| && 0 <= b < |last|
        ensures prefix[a] != last[b]
      {
        FormatPositionsSound(format[..n], x, y, prefix[a]);
        assert last[b] in last;
        LinePositionsSound(format[n], x, y + n, last[b]);
      }
      var r := prefix + last;
      forall a, b | 0 <= a < b < |r| ensures r[a] != r[b] {
        if b < |prefix| {
          assert r[a] == prefix[a] && r[b] == prefix[b];
        } else if a >= |prefix| {
          assert r[a] == last[a - |prefix|] && r[b] == last[b - |prefix|];
          assert last[a - |prefix|].0 < last[b - |prefix|].0;
        } else {
          assert r[a] == prefix[a] && r[b] == last[b - |prefix|];
        }
      }
    }
  }

  /** Every raw position moved by the alignment offset: the second loop of
      convert_shape_format. */
  function Offset(positions: seq<Cell>): (r: seq<Cell>)
  {
    if |positions| == 0 then []
    else Offset(positions[..|positions| - 1]) + [(positions[|positions| - 1].0 - OFFSET_COLUMNS, positions[|positions| - 1].1 - OFFSET_ROWS)]
  }

  /** convert_shape_format: the absolute cells covered by a piece with this
      shape, rotation index and anchor. The offset is folded into the anchor;
      ConvertShapeFormatInTwoSteps shows this is the program's two loops. */
  function ConvertShapeFormat(shape: Shape, rotation: int, x: int, y: int): (r: seq<Cell>)
    requires |shape| > 0
  {
    FormatPositions(Format(shape, rotation), x - OFFSET_COLUMNS, y - OFFSET_ROWS)
  }

  lemma {:induction false} OffsetAppend(a: seq<Cell>, b: seq<Cell>)
    ensures Offset(a + b) == Offset(a) + Offset(b)
    decreases |b|
  {
    if |b| == 0 {
      assert a + b == a;
    } else {
      var n := |b| - 1;
      assert (a + b)[..|a + b| - 1] == a + b[..n];
      assert (a + b)[|a + b| - 1] == b[n];
      OffsetAppend(a, b[..n]);
    }
  }

  lemma {:induction false} OffsetLine(line: string, x: int, y: int)
    ensures Offset(LinePositions(line, x, y)) == LinePositions(line, x - OFFSET_COLUMNS, y - OFFSET_ROWS)
  {
    if |line| > 0 {
      var n := |line| - 1;
      OffsetLine(line[..n], x, y);
      OffsetAppend(LinePositions(line[..n], x, y), if line[n] == '0' then [(x + n, y)] else []);
    }
  }

  lemma {:induction false} OffsetFormat(format: Pattern, x: int, y: int)
    ensures Offset(FormatPositions(format, x, y)) == FormatPositions(format, x - OFFSET_COLUMNS, y - OFFSET_ROWS)
  {
    if |format| > 0 {
      var n := |format| - 1;
      OffsetFormat(format[..n], x, y);
      OffsetLine(format[n], x, y + n);
      OffsetAppend(FormatPositions(format[..n], x, y), LinePositions(format[n], x, y + n));
    }
  }

  /** The program's two loops: first the raw positions (x + j, y + i) of every
      '0', line by line, then each moved by (-2, -4). */
  lemma ConvertShapeFormatInTwoSteps(shape: Shape, rotation: int, x: int, y: int)
    requires |shape| > 0
    ensures ConvertShapeFormat(shape, rotation, x, y) == Offset(FormatPositions(Format(shape, rotation), x, y))
  {
    OffsetFormat(Format(shape, rotation), x, y);
  }

  /** The number of '0' characters in a pattern, line by line. */
  function FilledCount(format: Pattern): (r: nat)
  {
    if |format| == 0 then 0
    else FilledCount(format[..|format| - 1]) + multiset(format[|format| - 1])['0']
  }

  /** A line yields exactly one position per '0' character. */
  lemma {:induction false} LinePositionsCount(line: string, x: int, y: int)
    ensures |LinePositions(line, x, y)| == multiset(line)['0']
  {
    if |line| > 0 {
      var n := |line| - 1;
      LinePositionsCount(line[..n], x, y);
      assert line == line[..n] + [line[n]];
      assert multiset(line) == multiset(line[..n]) + multiset{line[n]};
    }
  }

  /** A pattern yields exactly one position per '0' character. */
  lemma {:induction false} FormatPositionsCount(format: Pattern, x: int, y: int)
    ensures |FormatPositions(format, x, y)| == FilledCount(format)
  {
    if |format| > 0 {
      var n := |format| - 1;
      FormatPositionsCount(format[..n], x, y);
      LinePositionsCount(format[n], x, y + n);
    }
  }

  /** Line i, index j of the pattern holds a '0'. */
  predicate FilledAt(format: Pattern, i: int, j: int)
  {
    0 <= i < |format| && 0 <= j < |format[i]| && format[i][j] == '0'
  }

  /** convert_shape_format returns exactly one cell per '0' of the rotation
      state in use: as many cells as '0' characters, no cell twice. */
  lemma ConvertShapeFormatCount(shape: Shape, rotation: int, x: int, y: int)
    requires |shape| > 0
    ensures var cells := ConvertShapeFormat(shape, rotation, x, y);
            && |cells| == FilledCount(Format(shape, rotation))
            && forall a, b :: 0 <= a < b < |cells| ==> cells[a] != cells[b]
  {
    var format := Format(shape, rotation);
    FormatPositionsCount(format, x - OFFSET_COLUMNS, y - OFFSET_ROWS);
    FormatPositionsDistinct(format, x - OFFSET_COLUMNS, y - OFFSET_ROWS);
  }

  /** The '0' at line i, index j of the rotation state in use covers the cell (x + j - 2, y + i - 4). */
  lemma ConvertShapeFormatCovers(shape: Shape, rotation: int, x: int, y: int, i: int, j: int)
    requires |shape| > 0 && FilledAt(Format(shape, rotation), i, j)
    ensures (x + j - OFFSET_COLUMNS, y + i - OFFSET_ROWS) in ConvertShapeFormat(shape, rotation, x, y)
  {
    FormatPositionsComplete(Format(shape, rotation), x - OFFSET_COLUMNS, y - OFFSET_ROWS, i, j);
  }

  /** Every covered cell comes from a '0': the cell (c0, c1) from line c1 - y + 4, index c0 - x + 2. */
  lemma ConvertShapeFormatOnlyFilled(shape: Shape, rotation: int, x: int, y: int, c: Cell)
    requires |shape| > 0 && c in ConvertShapeFormat(shape, rotation, x, y)
    ensures FilledAt(Format(shape, rotation), c.1 - y + OFFSET_ROWS, c.0 - x + OFFSET_COLUMNS)
  {
    FormatPositionsSound(Format(shape, rotation), x - OFFSET_COLUMNS, y - OFFSET_ROWS, c);
  }

  /** The rotation index is only ever used modulo the number of rotation
      states, so an unwrapped index and its wrapped value cover the same cells. */
  lemma RotationIndexWraps(shape: Shape, rotation: int, x: int, y: int)
    requires |shape| > 0
    ensures ConvertShapeFormat(shape, rotation, x, y) == ConvertShapeFormat(shape, rotation % |shape|, x, y)
  {
  }
}
