/** One game session (the body of main): the locked cells, the current and
    next pieces, the score and the lock flag, and the discrete steps of a
    frame: gravity, the key presses with their roll-back, painting, locking,
    row clearing and the loss test. */
module Session {
  import opened Shapes
  import opened Geometry
  import opened Board
  import opened LineClear
  import opened Pieces

  /** The keys the game reacts to; every other key only refreshes the shadow. */
  datatype Key = Left | Right | Down | Up | OtherKey

  /** The events of one frame, as the event queue delivers them. */
  datatype Event = QuitEvent | KeyDown(key: Key) | OtherEvent

  /** How a frame ends. Crashed stands for an exception the program does not
      catch: painting outside the grid, or a missing shadow. */
  datatype Outcome = Running | GameOver | Quit | Crashed

  /** The inputs to one frame: whether the fall timer fired, the events, and
      the random shape choice for the piece queued if the current one locks. */
  datatype Frame = Frame(fallTimerFired: bool, events: seq<Event>, nextChoice: nat)

  /** locked_positions after the lock loop stored every cell, in order, with the colour. */
  function Stamp(locked: map<Cell, Color>, cells: seq<Cell>, color: Color): (r: map<Cell, Color>)
  {
    if |cells| == 0 then locked
    else Stamp(locked, cells[..|cells| - 1], color)[cells[|cells| - 1] := color]
  }

  /** Locking stores every cell of the piece, rows above the board included,
      with the piece's colour, and leaves every other key as it was. */
  lemma {:induction false} StampStoresEveryCell(locked: map<Cell, Color>, cells: seq<Cell>, color: Color)
    ensures Stamp(locked, cells, color).Keys == locked.Keys + (set c | c in cells)
    ensures forall c :: c in cells ==> Stamp(locked, cells, color)[c] == color
    ensures forall c :: c in locked && c !in cells ==> Stamp(locked, cells, color)[c] == locked[c]
  {
    if |cells| > 0 {
      var n := |cells| - 1;
      StampStoresEveryCell(locked, cells[..n], color);
      assert cells == cells[..n] + [cells[n]];
      assert (set c | c in cells) == (set c | c in cells[..n]) + {cells[n]};
    }
  }

  /** The lock loop: each cell of the piece is stored in turn with the colour. */
  method StampCells(locked: map<Cell, Color>, cells: seq<Cell>, color: Color) returns (r: map<Cell, Color>)
    ensures r == Stamp(locked, cells, color)
  {
    r := locked;
    var k := 0;
    while k < |cells|
      invariant 0 <= k <= |cells|
      invariant r == Stamp(locked, cells[..k], color)
    {
      assert cells[..k + 1] == cells[..k] + [cells[k]];
      r := r[cells[k] := color];
      k := k + 1;
    }
    assert cells[..|cells|] == cells;
  }

  /** The grid of a frame after painting: where the piece paints, its colour;
      else where the shadow paints, the shadow's colour; else the grid's. */
  ghost function PaintedGrid(grid: Grid, shadowPos: seq<Cell>, shadowColor: Color, shapePos: seq<Cell>, color: Color): (r: Grid)
    requires WellFormed(grid)
  {
    seq(ROWS, i requires 0 <= i < ROWS => seq(COLUMNS, j requires 0 <= j < COLUMNS =>
      if PaintsAt(shapePos, |shapePos|, i, j) then color
      else if PaintsAt(shadowPos, |shadowPos|, i, j) then shadowColor
      else grid[i][j]))
  }

  /** Painting a frame: the shadow's cells first, then the piece's cells, so
      the piece wins where the two overlap. ok is false exactly when one of
      the writes would raise IndexError. */
  method Render(grid: Grid, shadowPos: seq<Cell>, shadowColor: Color, shapePos: seq<Cell>, color: Color)
    returns (painted: Grid, ok: bool)
    requires WellFormed(grid)
    ensures ok <==> Paintable(shadowPos) && Paintable(shapePos)
    ensures ok ==> painted == PaintedGrid(grid, shadowPos, shadowColor, shapePos, color)
  {
    var withShadow;
    withShadow, ok := PaintCells(grid, shadowPos, shadowColor);
    if !ok {
      return grid, false;
    }
    painted, ok := PaintCells(withShadow, shapePos, color);
    if ok {
      var expected := PaintedGrid(grid, shadowPos, shadowColor, shapePos, color);
      forall i | 0 <= i < ROWS ensures painted[i] == expected[i] {
        assert |painted[i]| == |expected[i]| == COLUMNS;
      }
    }
  }

  /** The row test of clear_rows runs on the painted grid, so a cell the
      shadow covers counts as filled: a painted row is full exactly when each
      of its cells is covered by the piece, by the shadow, or by a locked
      non-black colour. */
  lemma PaintedRowFull(grid: Grid, shadowPos: seq<Cell>, shadowColor: Color, shapePos: seq<Cell>, color: Color, i: int)
    requires WellFormed(grid) && 0 <= i < ROWS
    requires shadowColor != BLACK && color != BLACK
    ensures IsFull(PaintedGrid(grid, shadowPos, shadowColor, shapePos, color)[i]) <==>
      forall j :: 0 <= j < COLUMNS ==>
        PaintsAt(shapePos, |shapePos|, i, j) || PaintsAt(shadowPos, |shadowPos|, i, j) || grid[i][j] != BLACK
  {
    var row := PaintedGrid(grid, shadowPos, shadowColor, shapePos, color)[i];
    if IsFull(row) {
      forall j | 0 <= j < COLUMNS
        ensures PaintsAt(shapePos, |shapePos|, i, j) || PaintsAt(shadowPos, |shadowPos|, i, j) || grid[i][j] != BLACK
      {
        assert row[j] in row;
      }
    } else {
      var j :| 0 <= j < |row| && row[j] == BLACK;
      assert !(PaintsAt(shapePos, |shapePos|, i, j) || PaintsAt(shadowPos, |shadowPos|, i, j) || grid[i][j] != BLACK);
    }
  }

  /** Gravity lands the piece: one row down it does not fit, and that row's
      index is greater than 0. */
  predicate Lands(shape: Shape, rotation: int, x: int, y: int, grid: Grid)
    requires |shape| > 0 && WellFormed(grid)
  {
    !Fits(shape, rotation, x, y + 1, grid) && y + 1 > 0
  }

  /** The part of a piece's position the keys change: its column and its rotation index. */
  type Pose = (int, int)

  /** What a key press does to the pose at row y: left and right move the
      column by one, up adds 1 % len(shape) to the rotation index, each kept
      only if the piece then fits; the other keys leave the pose alone. */
  function KeyEffect(shape: Shape, grid: Grid, y: int, pose: Pose, key: Key): (r: Pose)
    requires |shape| > 0 && WellFormed(grid)
  {
    match key
    case Left => if Fits(shape, pose.1, pose.0 - 1, y, grid) then (pose.0 - 1, pose.1) else pose
    case Right => if Fits(shape, pose.1, pose.0 + 1, y, grid) then (pose.0 + 1, pose.1) else pose
    case Up =>
      var step := 1 % |shape|;
      if Fits(shape, pose.1 + step, pose.0, y, grid) then (pose.0, pose.1 + step) else pose
    case _ => pose
  }

  /** What one event does to the pose: only key presses change it. */
  function EventEffect(shape: Shape, grid: Grid, y: int, pose: Pose, event: Event): (r: Pose)
    requires |shape| > 0 && WellFormed(grid)
  {
    match event
    case KeyDown(key) => KeyEffect(shape, grid, y, pose, key)
    case _ => pose
  }

  /** The pose after the events, in order. */
  function EventsEffect(shape: Shape, grid: Grid, y: int, pose: Pose, events: seq<Event>): (r: Pose)
    requires |shape| > 0 && WellFormed(grid)
  {
    if |events| == 0 then pose
    else EventEffect(shape, grid, y, EventsEffect(shape, grid, y, pose, events[..|events| - 1]), events[|events| - 1])
  }

  /** A key press either leaves the pose as it was or moves the piece to the
      speculated pose, at which it fits. */
  lemma KeyEffectFitsOrStays(shape: Shape, grid: Grid, y: int, pose: Pose, key: Key)
    requires |shape| > 0 && WellFormed(grid)
    ensures var r := KeyEffect(shape, grid, y, pose, key);
            && (r == pose || Fits(shape, r.1, r.0, y, grid))
            && (r != pose ==> r == match key
                                   case Left => (pose.0 - 1, pose.1)
                                   case Right => (pose.0 + 1, pose.1)
                                   case Up => (pose.0, pose.1 + 1 % |shape|)
                                   case _ => pose)
  {
  }

  /** After any run of events the piece is where it started or at a pose
      where it fits: every speculative move that does not fit is rolled back. */
  lemma {:induction false} EventsEffectFitsOrStays(shape: Shape, grid: Grid, y: int, pose: Pose, events: seq<Event>)
    requires |shape| > 0 && WellFormed(grid)
    ensures var r := EventsEffect(shape, grid, y, pose, events);
            r == pose || Fits(shape, r.1, r.0, y, grid)
  {
    if |events| > 0 {
      var n := |events| - 1;
      EventsEffectFitsOrStays(shape, grid, y, pose, events[..n]);
      var before := EventsEffect(shape, grid, y, pose, events[..n]);
      if events[n].KeyDown? {
        KeyEffectFitsOrStays(shape, grid, y, before, events[n].key);
      }
    }
  }

  /** Handling one more event applies its effect to the pose reached so far. */
  lemma EventsEffectSnoc(shape: Shape, grid: Grid, y: int, pose: Pose, events: seq<Event>, event: Event)
    requires |shape| > 0 && WellFormed(grid)
    ensures EventsEffect(shape, grid, y, pose, events + [event])
         == EventEffect(shape, grid, y, EventsEffect(shape, grid, y, pose, events), event)
  {
    assert (events + [event])[..|events|] == events;
  }

  /** Taking one more element of a sequence appends it. */
  lemma TakeOneMore<T>(s: seq<T>, k: int, x: T)
    requires 0 <= k < |s|
    ensures s[..k + 1] == s[..k] + [s[k]]
    ensures x in s[..k + 1] <==> x in s[..k] || s[k] == x
  {
    assert s[..k + 1] == s[..k] + [s[k]];
  }

  /** The events a frame handles: those before the first quit event. */
  function UntilQuit(events: seq<Event>): (r: seq<Event>)
  {
    if |events| == 0 || events[0] == QuitEvent then [] else [events[0]] + UntilQuit(events[1..])
  }

  /** If the first k events are not quit events and the next one is, or
      there is no next one, the frame handles exactly the first k. */
  lemma {:induction false} UntilQuitPrefix(events: seq<Event>, k: int)
    requires 0 <= k <= |events|
    requires QuitEvent !in events[..k]
    requires k == |events| || events[k] == QuitEvent
    ensures UntilQuit(events) == events[..k]
  {
    if k > 0 {
      assert events[..k] == [events[0]] + events[1..][..k - 1];
      UntilQuitPrefix(events[1..], k - 1);
    }
  }

  class Game {
    const catalog: Catalog
    var locked: map<Cell, Color>
    var current: Piece
    var next: Piece
    var changePiece: bool
    var fastFall: bool
    var score: nat

    ghost predicate Valid()
      reads this, current, next
    {
      && catalog.Valid()
      && current != next
      && current.shape in catalog.shapes && |current.shape| > 0
      && next.shape in catalog.shapes && |next.shape| > 0
    }

    /** The start of main: no locked cells, two pieces drawn, score 0. */
    constructor (catalog: Catalog, first: nat, second: nat)
      requires catalog.Valid() && first < |catalog.shapes| && second < |catalog.shapes|
      ensures Valid() && this.catalog == catalog
      ensures locked == map[] && score == 0 && !changePiece && !fastFall
      ensures fresh(current) && fresh(next)
      ensures current.shape == catalog.shapes[first] && current.rotation == 0
      ensures current.x == SPAWN_COLUMN && current.y == SPAWN_ROW
      ensures current.color == ShapeColor(catalog, current.shape)
      ensures next.shape == catalog.shapes[second] && next.rotation == 0
      ensures next.x == SPAWN_COLUMN && next.y == SPAWN_ROW
      ensures next.color == ShapeColor(catalog, next.shape)
    {
      this.catalog := catalog;
      locked := map[];
      changePiece := false;
      var p := GetShape(catalog, first);
      var q := GetShape(catalog, second);
      current, next := p, q;
      fastFall := false;
      score := 0;
    }

    /** Gravity when the fall timer fires: one row down; if the piece lands
        there, it goes back up and the lock flag is set. */
    method Gravity(grid: Grid)
      requires Valid() && WellFormed(grid)
      modifies current`y, this`changePiece
      ensures Valid()
      ensures var landed := Lands(current.shape, current.rotation, current.x, old(current.y), grid);
              && current.y == (if landed then old(current.y) else old(current.y) + 1)
              && changePiece == (old(changePiece) || landed)
    {
      current.y := current.y + 1;
      if !Fits(current.shape, current.rotation, current.x, current.y, grid) && current.y > 0 {
        current.y := current.y - 1;
        changePiece := true;
      }
    }

    /** The left (dx = -1) and right (dx = 1) keys: the column moves, and is
        put back exactly when the moved piece does not fit. */
    method Slide(grid: Grid, dx: int)
      requires Valid() && WellFormed(grid)
      modifies current`x
      ensures Valid()
      ensures current.x == if Fits(current.shape, current.rotation, old(current.x) + dx, current.y, grid)
                           then old(current.x) + dx else old(current.x)
    {
      current.x := current.x + dx;
      if !Fits(current.shape, current.rotation, current.x, current.y, grid) {
        current.x := current.x - dx;
      }
    }

    /** The up key. The source writes `rotation + 1 % len(shape)`, which is
        rotation + (1 % len(shape)): the index grows by 1, or by 0 for a shape
        with a single rotation state, and is never wrapped. It is put back
        exactly when the rotated piece does not fit. */
    method Rotate(grid: Grid)
      requires Valid() && WellFormed(grid)
      modifies current`rotation
      ensures Valid()
      ensures var step := 1 % |current.shape|;
              current.rotation == if Fits(current.shape, old(current.rotation) + step, current.x, current.y, grid)
                                  then old(current.rotation) + step else old(current.rotation)
      ensures |current.shape| == 1 ==> current.rotation == old(current.rotation)
      ensures |current.shape| > 1 && current.rotation != old(current.rotation) ==>
                current.rotation == old(current.rotation) + 1
    {
      current.rotation := current.rotation + (1 % |current.shape|);
      if !Fits(current.shape, current.rotation, current.x, current.y, grid) {
        current.rotation := current.rotation - (1 % |current.shape|);
      }
    }

    /** clear_rows(grid, locked): deletes the keys at columns 0..9 of every
        full row, then moves each remaining key down by the number of full
        rows below it, bottom row first, and returns the number of full rows. */
    method ClearRows(grid: Grid) returns (inc: nat)
      requires WellFormed(grid)
      modifies this`locked
      ensures inc == |FullRows(grid)|
      ensures IsCompaction(locked, Survivors(old(locked), FullRows(grid)), FullRows(grid))
      ensures inc == 0 ==> locked == old(locked)
    {
      var remaining, ind := DeleteFullRows(grid, locked);
      inc := |ind|;
      locked := remaining;
      // ind is already in descending order, so sorting it in reverse changes nothing.
      if inc > 0 {
        locked := MoveRowsDown(locked, ind);
      } else {
        assert locked == old(locked);
        CompactionIdentity(locked);
      }
    }

    /** The lock branch of a frame: every cell of the piece is stored with its
        colour, the next piece becomes current and a new one is queued, the
        flags are cleared, and the score grows by 10 per cleared row. */
    method LockPiece(grid: Grid, shapePos: seq<Cell>, choice: nat) returns (cleared: nat)
      requires Valid() && WellFormed(grid) && choice < |catalog.shapes|
      requires shapePos == current.Positions()
      modifies this
      ensures Valid()
      ensures current == old(next) && fresh(next)
      ensures next.x == SPAWN_COLUMN && next.y == SPAWN_ROW && next.rotation == 0
      ensures next.shape == catalog.shapes[choice] && next.color == ShapeColor(catalog, next.shape)
      ensures !changePiece && !fastFall
      ensures cleared == |FullRows(grid)| && score == old(score) + 10 * cleared
      ensures IsCompaction(locked, Survivors(Stamp(old(locked), shapePos, old(current.color)), FullRows(grid)), FullRows(grid))
    {
      fastFall := false;
      var stamped := StampCells(locked, shapePos, current.color);
      locked := stamped;
      current := next;
      var p := GetShape(catalog, choice);
      next := p;
      changePiece := false;
      cleared := ClearRows(grid);
      score := score + cleared * 10;
    }

    /** One key press: left and right slide, up rotates, each rolled back
        when the piece does not fit; down turns on the fast fall. The row and
        the shape never change. */
    method HandleKey(grid: Grid, key: Key)
      requires Valid() && WellFormed(grid)
      modifies current`x, current`rotation, this`fastFall
      ensures Valid()
      ensures key == Left ==>
        current.x == if Fits(current.shape, current.rotation, old(current.x) - 1, current.y, grid)
                     then old(current.x) - 1 else old(current.x)
      ensures key == Right ==>
        current.x == if Fits(current.shape, current.rotation, old(current.x) + 1, current.y, grid)
                     then old(current.x) + 1 else old(current.x)
      ensures key == Up ==>
        current.rotation == if Fits(current.shape, old(current.rotation) + 1 % |current.shape|, current.x, current.y, grid)
                            then old(current.rotation) + 1 % |current.shape| else old(current.rotation)
      ensures key != Left && key != Right ==> current.x == old(current.x)
      ensures key != Up ==> current.rotation == old(current.rotation)
      ensures (current.x, current.rotation) == KeyEffect(current.shape, grid, current.y, (old(current.x), old(current.rotation)), key)
      ensures fastFall == (old(fastFall) || key == Down)
    {
      match key {
        case Left => Slide(grid, -1);
        case Right => Slide(grid, 1);
        case Down => fastFall := true;
        case Up => Rotate(grid);
        case OtherKey =>
      }
    }

    /** One event: a quit event ends the frame; a key press moves, rotates
        or speeds up the piece as KeyEffect says and then recomputes the
        shadow, which keeps matching the piece. */
    method HandleEvent(grid: Grid, event: Event, shadow0: Piece?) returns (quit: bool, shadow: Piece?)
      requires Valid() && WellFormed(grid)
      requires shadow0 != current && IsShadowOf(shadow0, current, grid)
      modifies current`x, current`rotation, this`fastFall
      ensures Valid()
      ensures quit <==> event == QuitEvent
      ensures (current.x, current.rotation) == EventEffect(current.shape, grid, current.y, (old(current.x), old(current.rotation)), event)
      ensures fastFall == (old(fastFall) || event == KeyDown(Down))
      ensures !quit ==> shadow != current && IsShadowOf(shadow, current, grid)
      ensures current.y == old(current.y)
    {
      shadow := shadow0;
      quit := false;
      match event {
        case QuitEvent =>
          quit := true;
        case KeyDown(key) =>
          HandleKey(grid, key);
          shadow := GetShadow(current, grid);
        case OtherEvent =>
      }
    }

    /** The event loop of a frame: the events before the first quit event
        are handled in order. The piece ends at the pose EventsEffect gives,
        and the shadow matches it. */
    method HandleEvents(grid: Grid, events: seq<Event>, shadow0: Piece?) returns (quit: bool, shadow: Piece?)
      requires Valid() && WellFormed(grid)
      requires shadow0 != current && IsShadowOf(shadow0, current, grid)
      modifies current`x, current`rotation, this`fastFall
      ensures Valid()
      ensures quit <==> QuitEvent in events
      ensures (current.x, current.rotation) ==
                EventsEffect(current.shape, grid, current.y, (old(current.x), old(current.rotation)), UntilQuit(events))
      ensures fastFall == (old(fastFall) || KeyDown(Down) in UntilQuit(events))
      ensures !quit ==> shadow != current && IsShadowOf(shadow, current, grid)
      ensures current.y == old(current.y)
    {
      ghost var start := (current.x, current.rotation);
      ghost var shape, y := current.shape, current.y;
      shadow := shadow0;
      quit := false;
      var k := 0;
      while k < |events| && !quit
        invariant 0 <= k <= |events|
        invariant Valid() && current.shape == shape && current.y == y == old(current.y)
        invariant (current.x, current.rotation) == EventsEffect(shape, grid, y, start, events[..k])
        invariant fastFall == (old(fastFall) || KeyDown(Down) in events[..k])
        invariant !quit ==> shadow != current && IsShadowOf(shadow, current, grid)
        invariant QuitEvent !in events[..k]
        invariant quit ==> k < |events| && events[k] == QuitEvent
        decreases |events| - k, if quit then 0 else 1
      {
        quit, shadow := HandleEvent(grid, events[k], shadow);
        if !quit {
          TakeOneMore(events, k, KeyDown(Down));
          TakeOneMore(events, k, QuitEvent);
          EventsEffectSnoc(shape, grid, y, start, events[..k], events[k]);
          k := k + 1;
        }
      }
      UntilQuitPrefix(events, k);
      assert !quit ==> events[..k] == events;
    }

    /** The first half of a frame: the grid is rebuilt from the locked cells,
        gravity applies if the fall timer fired, the shadow is computed and
        the events are handled. The shadow matches the piece as it ends up. */
    method Advance(frame: Frame) returns (grid: Grid, quit: bool, shadow: Piece?)
      requires Valid()
      modifies current`x, current`y, current`rotation, this`fastFall, this`changePiece
      ensures Valid()
      ensures grid == CreateGrid(locked)
      ensures var landed := frame.fallTimerFired && Lands(current.shape, old(current.rotation), old(current.x), old(current.y), grid);
              && current.y == (if frame.fallTimerFired && !landed then old(current.y) + 1 else old(current.y))
              && changePiece == (old(changePiece) || landed)
      ensures (current.x, current.rotation) ==
                EventsEffect(current.shape, grid, current.y, (old(current.x), old(current.rotation)), UntilQuit(frame.events))
      ensures fastFall == (old(fastFall) || KeyDown(Down) in UntilQuit(frame.events))
      ensures quit <==> QuitEvent in frame.events
      ensures !quit ==> shadow != current && IsShadowOf(shadow, current, grid)
    {
      grid := CreateGrid(locked);
      if frame.fallTimerFired {
        Gravity(grid);
      }
      shadow := GetShadow(current, grid);
      quit, shadow := HandleEvents(grid, frame.events, shadow);
    }

    /** The second half of a frame: the shadow and the piece are painted
        onto the grid (a missing shadow or an out-of-range write crashes); a
        piece that landed is locked on the painted grid; then the loss test.
        The ghost results are the two cell lists, the painted grid and
        whether the piece locked. */
    method Settle(grid: Grid, shadow: Piece?, choice: nat)
      returns (outcome: Outcome, cleared: nat, ghost shapePos: seq<Cell>, ghost shadowPos: seq<Cell>,
               ghost painted: Grid, ghost locks: bool)
      requires Valid() && WellFormed(grid) && choice < |catalog.shapes|
      requires shadow != null ==> |shadow.shape| > 0
      modifies this
      ensures Valid()
      ensures shapePos == old(current.Positions())
      ensures shadow != null ==> shadowPos == shadow.Positions()
      ensures outcome != Quit
      ensures outcome == Crashed <==> shadow == null || !Paintable(shadowPos) || !Paintable(shapePos)
      ensures outcome != Crashed ==> painted == PaintedGrid(grid, shadowPos, shadow.color, shapePos, old(current.color))
      ensures locks <==> outcome != Crashed && old(changePiece)
      ensures locks ==>
                && cleared == |FullRows(painted)|
                && IsCompaction(locked, Survivors(Stamp(old(locked), shapePos, old(current.color)), FullRows(painted)), FullRows(painted))
                && current == old(next) && fresh(next) && !changePiece && !fastFall
                && next.x == SPAWN_COLUMN && next.y == SPAWN_ROW && next.rotation == 0
                && next.shape == catalog.shapes[choice] && next.color == ShapeColor(catalog, next.shape)
      ensures !locks ==>
                && cleared == 0 && locked == old(locked) && current == old(current) && next == old(next)
                && changePiece == old(changePiece) && fastFall == old(fastFall)
      ensures score == old(score) + 10 * cleared
      ensures outcome == GameOver ==> exists c :: c in locked && c.1 < 1
      ensures outcome == Running ==> forall c :: c in locked ==> c.1 >= 1
    {
      cleared, locks, shadowPos, painted := 0, false, [], [];
      var cells := current.Positions();
      shapePos := cells;
      if shadow == null {
        // convert_shape_format(None) raises AttributeError.
        return Crashed, 0, shapePos, shadowPos, painted, false;
      }
      var shadowCells := shadow.Positions();
      shadowPos := shadowCells;
      var frameGrid, ok := Render(grid, shadowCells, shadow.color, cells, current.color);
      painted := frameGrid;
      if !ok {
        return Crashed, 0, shapePos, shadowPos, painted, false;
      }
      if changePiece {
        locks := true;
        cleared := LockPiece(frameGrid, cells, choice);
      }
      var lost := CheckLost(locked);
      outcome := if lost then GameOver else Running;
    }

    /** One frame of main's loop, after the timers: Advance, then Settle.
        The ghost results name what the frame computed before any lock: the
        piece's column, row and rotation index after gravity and the events,
        its cells and its shadow's cells, the painted grid, whether gravity
        landed it and whether it locked. */
    method Tick(frame: Frame) returns (outcome: Outcome, cleared: nat,
                                       ghost x: int, ghost y: int, ghost rotation: int,
                                       ghost shapePos: seq<Cell>, ghost shadowPos: seq<Cell>,
                                       ghost painted: Grid, ghost landed: bool, ghost locks: bool)
      requires Valid() && frame.nextChoice < |catalog.shapes|
      modifies this, current`x, current`y, current`rotation
      ensures Valid()
      ensures (current == old(current) && next == old(next)) || (current == old(next) && fresh(next))
      ensures outcome == Quit <==> QuitEvent in frame.events
      ensures var s, g := old(current.shape), CreateGrid(old(locked));
              && landed == (frame.fallTimerFired && Lands(s, old(current.rotation), old(current.x), old(current.y), g))
              && y == (if frame.fallTimerFired && !landed then old(current.y) + 1 else old(current.y))
              && (x, rotation) == EventsEffect(s, g, y, (old(current.x), old(current.rotation)), UntilQuit(frame.events))
              && shapePos == ConvertShapeFormat(s, rotation, x, y)
      ensures var s, g := old(current.shape), CreateGrid(old(locked));
              var r := ShadowRow(s, rotation, x, g, SHADOW_TOP);
              && (QuitEvent !in frame.events && r.Some? ==> shadowPos == ConvertShapeFormat(s, rotation, x, r.value))
              && (outcome == Crashed <==>
                    QuitEvent !in frame.events && (r.None? || !Paintable(shadowPos) || !Paintable(shapePos)))
      ensures outcome == Running || outcome == GameOver ==>
                painted == PaintedGrid(CreateGrid(old(locked)), shadowPos, GREY, shapePos, old(current.color))
      ensures locks <==> (outcome == Running || outcome == GameOver) && (old(changePiece) || landed)
      ensures locks ==>
                && cleared == |FullRows(painted)|
                && IsCompaction(locked, Survivors(Stamp(old(locked), shapePos, old(current.color)), FullRows(painted)), FullRows(painted))
                && current == old(next) && fresh(next) && !changePiece && !fastFall
                && next.x == SPAWN_COLUMN && next.y == SPAWN_ROW && next.rotation == 0
                && next.shape == catalog.shapes[frame.nextChoice] && next.color == ShapeColor(catalog, next.shape)
      ensures !locks ==>
                && cleared == 0 && locked == old(locked) && current == old(current) && next == old(next)
                && current.x == x && current.y == y && current.rotation == rotation
                && changePiece == (old(changePiece) || landed)
                && fastFall == (old(fastFall) || KeyDown(Down) in UntilQuit(frame.events))
      ensures score == old(score) + 10 * cleared
      ensures outcome == GameOver ==> exists c :: c in locked && c.1 < 1
      ensures outcome == Running ==> forall c :: c in locked ==> c.1 >= 1
    {
      cleared, locks, shadowPos, painted := 0, false, [], [];
      landed := frame.fallTimerFired && Lands(current.shape, current.rotation, current.x, current.y, CreateGrid(locked));
      var grid, quit, shadow := Advance(frame);
      x, y, rotation := current.x, current.y, current.rotation;
      shapePos := current.Positions();
      if quit {
        outcome := Quit;
        return;
      }
      outcome, cleared, shapePos, shadowPos, painted, locks := Settle(grid, shadow, frame.nextChoice);
    }

    /** main's loop over a finite run of frames: it stops at the first frame
        that does not end Running, and returns the score, which has grown by
        10 for each row cleared on the way. */
    method Play(frames: seq<Frame>) returns (outcome: Outcome, finalScore: nat, rowsCleared: nat)
      requires Valid()
      requires forall k :: 0 <= k < |frames| ==> frames[k].nextChoice < |catalog.shapes|
      modifies this, current`x, current`y, current`rotation, next`x, next`y, next`rotation
      ensures Valid()
      ensures finalScore == score == old(score) + 10 * rowsCleared
      ensures outcome == GameOver ==> exists c :: c in locked && c.1 < 1
      ensures outcome == Running && |frames| > 0 ==> forall c :: c in locked ==> c.1 >= 1
      ensures outcome == Quit ==> exists k :: 0 <= k < |frames| && QuitEvent in frames[k].events
    {
      outcome, rowsCleared := Running, 0;
      var k := 0;
      while k < |frames| && outcome == Running
        invariant 0 <= k <= |frames|
        invariant Valid()
        invariant current == old(current) || current == old(next) || fresh(current)
        invariant next == old(next) || fresh(next)
        invariant score == old(score) + 10 * rowsCleared
        invariant outcome == GameOver ==> exists c :: c in locked && c.1 < 1
        invariant outcome == Running && k > 0 ==> forall c :: c in locked ==> c.1 >= 1
        invariant outcome == Quit ==> exists m :: 0 <= m < k && QuitEvent in frames[m].events
      {
        var cleared;
        ghost var x, y, rotation, shapePos, shadowPos, painted, landed, locks;
        outcome, cleared, x, y, rotation, shapePos, shadowPos, painted, landed, locks := Tick(frames[k]);
        rowsCleared := rowsCleared + cleared;
        k := k + 1;
      }
      finalScore := score;
    }
  }
}
