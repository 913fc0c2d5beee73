/** The 20 x 10 colour grid rebuilt from the locked cells, the collision
    test (valid_space), the shadow search (get_shadow's specification),
    painting cells onto the grid and the loss test (check_lost). */
module Board {
  import opened Shapes
  import opened Geometry

  datatype Option<T> = None | Some(value: T)

  const ROWS: int := 20
  const COLUMNS: int := 10

  /** The grid as the program indexes it: grid[row][column]. */
  type Grid = seq<seq<Color>>

  predicate WellFormed(grid: Grid)
  {
    |grid| == ROWS && forall i :: 0 <= i < |grid| ==> |grid[i]| == COLUMNS
  }

  predicate InBoard(c: Cell)
  {
    0 <= c.0 < COLUMNS && 0 <= c.1 < ROWS
  }

  /** create_grid: black everywhere except at the locked keys, which carry their colour. */
  function CreateGrid(locked: map<Cell, Color>): (grid: Grid)
    ensures WellFormed(grid)
  {
    seq(ROWS, i => seq(COLUMNS, j => if (j, i) in locked then locked[(j, i)] else BLACK))
  }

  /** The locked cells a grid shows: every board cell whose colour is not black. */
  function GridCells(grid: Grid): (r: map<Cell, Color>)
    requires WellFormed(grid)
  {
    map j, i | 0 <= i < ROWS && 0 <= j < COLUMNS && grid[i][j] != BLACK :: (j, i) := grid[i][j]
  }

  /** The rebuilt grid shows exactly the locked keys on the board whose colour
      is not black, each in its colour; so a map of such keys is recovered
      from its grid. */
  lemma CreateGridShowsLocked(locked: map<Cell, Color>)
    ensures GridCells(CreateGrid(locked)) == map c | c in locked && InBoard(c) && locked[c] != BLACK :: locked[c]
  {
    var g := CreateGrid(locked);
    var shown := map c | c in locked && InBoard(c) && locked[c] != BLACK :: locked[c];
    forall c | c in shown ensures c in GridCells(g) && GridCells(g)[c] == shown[c] {
      assert g[c.1][c.0] == locked[c];
      assert c == (c.0, c.1);
    }
    forall c | c in GridCells(g) ensures c in shown {
      var j, i :| 0 <= i < ROWS && 0 <= j < COLUMNS && g[i][j] != BLACK && c == (j, i);
    }
  }

  /** Keys outside the board have no effect on the rebuilt grid. */
  lemma CreateGridIgnoresOffBoard(locked: map<Cell, Color>, other: map<Cell, Color>)
    requires forall c :: InBoard(c) ==> (c in locked <==> c in other)
    requires forall c :: InBoard(c) && c in locked ==> locked[c] == other[c]
    ensures CreateGrid(locked) == CreateGrid(other)
  {
    var g, h := CreateGrid(locked), CreateGrid(other);
    forall i | 0 <= i < ROWS ensures g[i] == h[i] {
      forall j | 0 <= j < COLUMNS ensures g[i][j] == h[i][j] {
        assert InBoard((j, i));
      }
    }
  }

  /** The flattened list of empty positions valid_space builds, as a set of (column, row). */
  function AcceptedPositions(grid: Grid): (r: set<Cell>)
    requires WellFormed(grid)
  {
    set i, j | 0 <= i < ROWS && 0 <= j < COLUMNS && grid[i][j] == BLACK :: (j, i)
  }

  /** An in-board cell whose grid colour is black. */
  predicate Free(grid: Grid, c: Cell)
    requires WellFormed(grid)
  {
    InBoard(c) && grid[c.1][c.0] == BLACK
  }

  /** valid_space on the cells of a piece: it fails at the first cell that is
      not an accepted position (AcceptedIffFree: not a free board cell) and
      lies at row 0 or below. */
  function ValidSpace(cells: seq<Cell>, grid: Grid): (r: bool)
    requires WellFormed(grid)
  {
    if |cells| == 0 then true
    else if !Free(grid, cells[0]) && cells[0].1 > -1 then false
    else ValidSpace(cells[1..], grid)
  }

  /** A cell is an accepted position exactly when it is a free board cell. */
  lemma AcceptedIffFree(grid: Grid, c: Cell)
    requires WellFormed(grid)
    ensures c in AcceptedPositions(grid) <==> Free(grid, c)
  {
    if Free(grid, c) {
      assert (c.0, c.1) == c;
    }
  }

  /** valid_space accepts exactly when every cell lies above the board
      (row <= -1) or on a free board cell; a cell above the board may have
      any column. */
  lemma {:induction false} ValidSpaceMeans(cells: seq<Cell>, grid: Grid)
    requires WellFormed(grid)
    ensures ValidSpace(cells, grid) <==> forall k :: 0 <= k < |cells| ==> cells[k].1 <= -1 || Free(grid, cells[k])
  {
    if |cells| > 0 {
      ValidSpaceMeans(cells[1..], grid);
      assert forall k :: 1 <= k < |cells| ==> cells[k] == cells[1..][k - 1];
    }
  }

  /** valid_space of a piece with this shape, rotation index and anchor. */
  predicate Fits(shape: Shape, rotation: int, x: int, y: int, grid: Grid)
    requires |shape| > 0 && WellFormed(grid)
  {
    ValidSpace(ConvertShapeFormat(shape, rotation, x, y), grid)
  }

  /** A piece fits exactly when every '0' of its rotation state, at line i and
      index j, lands above the board or on a free board cell (x + j - 2, y + i - 4). */
  lemma FitsIffPattern(shape: Shape, rotation: int, x: int, y: int, grid: Grid)
    requires |shape| > 0 && WellFormed(grid)
    ensures Fits(shape, rotation, x, y, grid) <==>
      forall i, j :: FilledAt(Format(shape, rotation), i, j) ==>
        y + i - OFFSET_ROWS <= -1 || Free(grid, (x + j - OFFSET_COLUMNS, y + i - OFFSET_ROWS))
  {
    var cells := ConvertShapeFormat(shape, rotation, x, y);
    ValidSpaceMeans(cells, grid);
    if Fits(shape, rotation, x, y, grid) {
      forall i, j | FilledAt(Format(shape, rotation), i, j)
        ensures y + i - OFFSET_ROWS <= -1 || Free(grid, (x + j - OFFSET_COLUMNS, y + i - OFFSET_ROWS))
      {
        ConvertShapeFormatCovers(shape, rotation, x, y, i, j);
      }
    }
    if forall i, j :: FilledAt(Format(shape, rotation), i, j) ==>
         y + i - OFFSET_ROWS <= -1 || Free(grid, (x + j - OFFSET_COLUMNS, y + i - OFFSET_ROWS))
    {
      forall k | 0 <= k < |cells| ensures cells[k].1 <= -1 || Free(grid, cells[k]) {
        ConvertShapeFormatOnlyFilled(shape, rotation, x, y, cells[k]);
      }
    }
  }

  /** The lowest candidate anchor row get_shadow tries first. */
  const SHADOW_TOP: int := 22

  /** The anchor rows top, top - 1, ..., 0 are tried in turn; the first at
      which the piece fits is the shadow row. */
  function ShadowRow(shape: Shape, rotation: int, x: int, grid: Grid, top: int): (r: Option<int>)
    requires |shape| > 0 && WellFormed(grid)
    decreases top
  {
    if top < 0 then None
    else if Fits(shape, rotation, x, top, grid) then Some(top)
    else ShadowRow(shape, rotation, x, grid, top - 1)
  }

  /** The shadow row is the largest row in 0..top at which the piece fits,
      and there is none exactly when the piece fits at no row of 0..top. */
  lemma {:induction false} ShadowRowSpec(shape: Shape, rotation: int, x: int, grid: Grid, top: int)
    requires |shape| > 0 && WellFormed(grid)
    ensures var r := ShadowRow(shape, rotation, x, grid, top);
            && (r.Some? ==> 0 <= r.value <= top && Fits(shape, rotation, x, r.value, grid))
            && (r.Some? ==> forall y :: r.value < y <= top ==> !Fits(shape, rotation, x, y, grid))
            && (r.None? <==> forall y :: 0 <= y <= top ==> !Fits(shape, rotation, x, y, grid))
    decreases top
  {
    if top >= 0 && !Fits(shape, rotation, x, top, grid) {
      ShadowRowSpec(shape, rotation, x, grid, top - 1);
    }
  }

  /** The column Python's grid[row][column] lands on: a negative index counts from the end of the row. */
  function ColumnIndex(column: int): (r: int)
  {
    if column < 0 then column + COLUMNS else column
  }

  /** grid[row][column] raises no IndexError for this cell. */
  predicate Indexable(c: Cell)
  {
    0 <= c.1 < ROWS && -COLUMNS <= c.0 < COLUMNS
  }

  /** Painting these cells raises no IndexError: every cell at a row above -1 is indexable. */
  predicate Paintable(cells: seq<Cell>)
  {
    forall k :: 0 <= k < |cells| && cells[k].1 > -1 ==> Indexable(cells[k])
  }

  /** Some cell among the first n, at a row above -1, is written to grid[i][j]. */
  ghost predicate PaintsAt(cells: seq<Cell>, n: int, i: int, j: int)
    requires 0 <= n <= |cells|
  {
    exists k :: 0 <= k < n && cells[k].1 > -1 && cells[k].1 == i && ColumnIndex(cells[k].0) == j
  }

  /** The painting loops of the game loop: every cell at row above -1 is
      written into the grid in the given colour. ok is false exactly when one
      of those writes would raise IndexError. */
  method PaintCells(grid: Grid, cells: seq<Cell>, color: Color) returns (painted: Grid, ok: bool)
    requires WellFormed(grid)
    ensures ok <==> Paintable(cells)
    ensures ok ==> WellFormed(painted)
    ensures ok ==> forall i, j :: 0 <= i < ROWS && 0 <= j < COLUMNS ==>
      painted[i][j] == if PaintsAt(cells, |cells|, i, j) then color else grid[i][j]
  {
    painted := grid;
    var k := 0;
    while k < |cells|
      invariant 0 <= k <= |cells|
      invariant WellFormed(painted)
      invariant forall m :: 0 <= m < k && cells[m].1 > -1 ==> Indexable(cells[m])
      invariant forall i, j :: 0 <= i < ROWS && 0 <= j < COLUMNS ==>
        painted[i][j] == if PaintsAt(cells, k, i, j) then color else grid[i][j]
    {
      var (x, y) := cells[k];
      if y > -1 {
        if !Indexable(cells[k]) {
          return painted, false;
        }
        painted := painted[y := painted[y][ColumnIndex(x) := color]];
      }
      forall i, j | 0 <= i < ROWS && 0 <= j < COLUMNS
        ensures PaintsAt(cells, k + 1, i, j) <==> PaintsAt(cells, k, i, j) || (y > -1 && y == i && ColumnIndex(x) == j)
      {
        if PaintsAt(cells, k + 1, i, j) && !PaintsAt(cells, k, i, j) {
          var m :| 0 <= m < k + 1 && cells[m].1 > -1 && cells[m].1 == i && ColumnIndex(cells[m].0) == j;
          assert m == k;
        }
      }
      k := k + 1;
    }
    ok := true;
  }

  /** Cells that pass valid_space paint without an IndexError and without a
      negative column index. */
  lemma ValidCellsPaintInBoard(cells: seq<Cell>, grid: Grid)
    requires WellFormed(grid) && ValidSpace(cells, grid)
    ensures forall k :: 0 <= k < |cells| && cells[k].1 > -1 ==> Indexable(cells[k]) && ColumnIndex(cells[k].0) == cells[k].0
  {
    ValidSpaceMeans(cells, grid);
  }

  /** check_lost: some locked key lies at row 0 or above the board. */
  method CheckLost(positions: map<Cell, Color>) returns (lost: bool)
    ensures lost <==> exists c :: c in positions && c.1 < 1
  {
    var todo := positions.Keys;
    while todo != {}
      invariant todo <= positions.Keys
      invariant forall c :: c in positions && c !in todo ==> c.1 >= 1
      decreases |todo|
    {
      var c :| c in todo;
      if c.1 < 1 {
        return true;
      }
      todo := todo - {c};
    }
    return false;
  }
}
