/** The specification of clear_rows: which rows are full, how far each
    surviving locked key moves down, and what the locked map becomes. */
module LineClear {
  import opened Shapes
  import opened Geometry
  import opened Board

  /** A grid row holding no empty (black) cell. */
  predicate IsFull(row: seq<Color>)
  {
    BLACK !in row
  }

  predicate StrictlyDescending(s: seq<int>)
  {
    forall a, b :: 0 <= a < b < |s| ==> s[a] > s[b]
  }

  /** The full rows among lo..19, from the bottom row upwards: the order in
      which clear_rows collects them. */
  function FullRowsFrom(grid: Grid, lo: int): (r: seq<int>)
    requires WellFormed(grid) && 0 <= lo <= ROWS
    decreases ROWS - lo
  {
    if lo == ROWS then []
    else FullRowsFrom(grid, lo + 1) + (if IsFull(grid[lo]) then [lo] else [])
  }

  /** FullRowsFrom lists exactly the full rows among lo..19, each once, in
      strictly descending order. */
  lemma {:induction false} FullRowsFromSpec(grid: Grid, lo: int)
    requires WellFormed(grid) && 0 <= lo <= ROWS
    ensures var r := FullRowsFrom(grid, lo);
            && (forall k :: 0 <= k < |r| ==> lo <= r[k] < ROWS && IsFull(grid[r[k]]))
            && (forall row :: lo <= row < ROWS && IsFull(grid[row]) ==> row in r)
            && StrictlyDescending(r)
    decreases ROWS - lo
  {
    if lo < ROWS {
      FullRowsFromSpec(grid, lo + 1);
    }
  }

  /** The indices of the full rows of the grid, bottom row first. */
  function FullRows(grid: Grid): (r: seq<int>)
    requires WellFormed(grid)
  {
    FullRowsFrom(grid, 0)
  }

  /** The set of full rows, independently of any order. */
  ghost function FullRowSet(grid: Grid): (r: set<int>)
    requires WellFormed(grid)
  {
    set r | 0 <= r < ROWS && IsFull(grid[r])
  }

  /** A strictly descending sequence lists each of its elements once. */
  lemma {:induction false} DescendingElementsCount(s: seq<int>)
    requires StrictlyDescending(s)
    ensures |set x | x in s| == |s|
  {
    if |s| > 0 {
      DescendingElementsCount(s[1..]);
      assert (set x | x in s) == {s[0]} + (set x | x in s[1..]);
      assert s[0] !in s[1..];
    }
  }

  /** clear_rows counts each full row once: the count is the number of rows
      containing no black cell. */
  lemma FullRowsCount(grid: Grid)
    requires WellFormed(grid)
    ensures |FullRows(grid)| == |FullRowSet(grid)|
  {
    FullRowsFromSpec(grid, 0);
    DescendingElementsCount(FullRows(grid));
    assert (set x | x in FullRows(grid)) == FullRowSet(grid);
  }

  /** The number of rows in `rows` lying below row y (having a larger index):
      y_delta in clear_rows. */
  function Shift(y: int, rows: seq<int>): (r: nat)
  {
    if |rows| == 0 then 0
    else (if y < rows[0] then 1 else 0) + Shift(y, rows[1..])
  }

  lemma {:induction false} ShiftSnoc(y: int, rows: seq<int>, r: int)
    ensures Shift(y, rows + [r]) == Shift(y, rows) + (if y < r then 1 else 0)
  {
    if |rows| > 0 {
      assert (rows + [r])[1..] == rows[1..] + [r];
      ShiftSnoc(y, rows[1..], r);
    }
  }

  /** Shift counts the distinct cleared rows with a larger index than y. */
  lemma {:induction false} ShiftCountsRowsBelow(y: int, rows: seq<int>)
    requires StrictlyDescending(rows)
    ensures Shift(y, rows) == |set r | r in rows && y < r|
  {
    if |rows| > 0 {
      ShiftCountsRowsBelow(y, rows[1..]);
      var rest := set r | r in rows[1..] && y < r;
      assert rows[0] !in rest;
      if y < rows[0] {
        assert (set r | r in rows && y < r) == {rows[0]} + rest;
      } else {
        assert (set r | r in rows && y < r) == rest;
      }
    }
  }

  /** No row of `rows` lies at or below row y. */
  lemma {:induction false} ShiftZero(y: int, rows: seq<int>)
    requires forall k :: 0 <= k < |rows| ==> rows[k] <= y
    ensures Shift(y, rows) == 0
  {
    if |rows| > 0 {
      ShiftZero(y, rows[1..]);
    }
  }

  /** Between y1 and a row y2 > y1 that is not cleared there are at most
      y2 - y1 - 1 cleared rows. */
  lemma {:induction false} ShiftGap(y1: int, y2: int, rows: seq<int>)
    requires y1 < y2 && y2 !in rows && StrictlyDescending(rows)
    ensures Shift(y1, rows) - Shift(y2, rows) <= y2 - y1 - 1
    decreases |rows|
  {
    if |rows| > 0 {
      var r0, rest := rows[0], rows[1..];
      assert forall k :: 0 <= k < |rest| ==> rest[k] < r0 by {
        forall k | 0 <= k < |rest| ensures rest[k] < r0 {
          assert rest[k] == rows[k + 1];
        }
      }
      if r0 > y2 {
        ShiftGap(y1, y2, rest);
      } else if r0 > y1 {
        ShiftZero(y2, rest);
        ShiftZero(r0, rest);
        ShiftGap(y1, r0, rest);
      } else {
        ShiftZero(y1, rows);
      }
    }
  }

  /** The key a surviving locked key is moved to. */
  function Rekey(c: Cell, rows: seq<int>): (r: Cell)
  {
    (c.0, c.1 + Shift(c.1, rows))
  }

  /** The target of a key is the key moved down by its shift. */
  lemma RekeyMovesBy(c: Cell, rows: seq<int>, delta: int)
    requires delta == Shift(c.1, rows)
    ensures Rekey(c, rows) == (c.0, c.1 + delta)
  {
  }

  /** Keys that are not cleared keep their top-to-bottom order within a column. */
  lemma RekeyKeepsOrder(y1: int, y2: int, rows: seq<int>)
    requires y1 < y2 && y2 !in rows && StrictlyDescending(rows)
    ensures y1 + Shift(y1, rows) < y2 + Shift(y2, rows)
  {
    ShiftGap(y1, y2, rows);
  }

  /** Two different keys outside the cleared rows never move to the same key. */
  lemma RekeyInjective(c: Cell, d: Cell, rows: seq<int>)
    requires c != d && c.1 !in rows && d.1 !in rows && StrictlyDescending(rows)
    ensures Rekey(c, rows) != Rekey(d, rows)
  {
    if c.0 == d.0 {
      if c.1 < d.1 {
        RekeyKeepsOrder(c.1, d.1, rows);
      } else {
        RekeyKeepsOrder(d.1, c.1, rows);
      }
    }
  }

  /** The locked map after the deletion loop: every key at column 0..9 of a
      cleared row is removed. */
  function Survivors(locked: map<Cell, Color>, rows: seq<int>): (r: map<Cell, Color>)
  {
    map c | c in locked && !(0 <= c.0 < COLUMNS && c.1 in rows) :: locked[c]
  }

  /** The keys the given keys are moved to. */
  function Targets(keys: set<Cell>, rows: seq<int>): (r: set<Cell>)
  {
    set c | c in keys :: Rekey(c, rows)
  }

  /** c is, among the keys moved to the same key as c, one with the smallest
      row: the last one written there when keys are processed bottom row first. */
  ghost predicate LowestIn(keys: set<Cell>, rows: seq<int>, c: Cell)
  {
    c in keys && forall d {:trigger d in keys} :: d in keys && Rekey(d, rows) == Rekey(c, rows) ==> c.1 <= d.1
  }

  /** The map the re-keying loop of clear_rows leaves behind: each survivor
      moves down by the number of cleared rows below it, and if several land
      on one key, the one processed last (the highest on the board) wins. */
  ghost predicate IsCompaction(result: map<Cell, Color>, s: map<Cell, Color>, rows: seq<int>)
  {
    && result.Keys == Targets(s.Keys, rows)
    && forall c {:trigger LowestIn(s.Keys, rows, c)} :: LowestIn(s.Keys, rows, c) ==> Rekey(c, rows) in result && result[Rekey(c, rows)] == s[c]
  }

  /** Every non-empty set of keys has one of smallest row. */
  lemma {:induction false} LowestRow(keys: set<Cell>) returns (m: Cell)
    requires keys != {}
    ensures m in keys && forall c :: c in keys ==> m.1 <= c.1
    decreases |keys|
  {
    var c :| c in keys;
    if keys == {c} {
      m := c;
    } else {
      var rest := LowestRow(keys - {c});
      m := if c.1 <= rest.1 then c else rest;
    }
  }

  /** Every non-empty set of keys has one of largest row. */
  lemma {:induction false} HighestRow(keys: set<Cell>) returns (m: Cell)
    requires keys != {}
    ensures m in keys && forall c :: c in keys ==> c.1 <= m.1
    decreases |keys|
  {
    var c :| c in keys;
    if keys == {c} {
      m := c;
    } else {
      var rest := HighestRow(keys - {c});
      m := if rest.1 <= c.1 then c else rest;
    }
  }

  /** IsCompaction determines the resulting map completely. */
  lemma CompactionUnique(a: map<Cell, Color>, b: map<Cell, Color>, s: map<Cell, Color>, rows: seq<int>)
    requires IsCompaction(a, s, rows) && IsCompaction(b, s, rows)
    ensures a == b
  {
    forall t | t in a ensures a[t] == b[t] {
      var pre := set c | c in s && Rekey(c, rows) == t;
      assert t in Targets(s.Keys, rows);
      var c0 :| c0 in s && Rekey(c0, rows) == t;
      assert c0 in pre;
      var m := LowestRow(pre);
      assert LowestIn(s.Keys, rows, m);
    }
  }

  /** With no cleared rows the map is its own compaction. */
  lemma CompactionIdentity(s: map<Cell, Color>)
    ensures IsCompaction(s, s, [])
  {
    assert forall c :: Rekey(c, []) == c;
    assert Targets(s.Keys, []) == s.Keys;
  }

  /** With no cleared rows nothing moves: the compaction is the map itself. */
  lemma CompactionWithoutRows(result: map<Cell, Color>, s: map<Cell, Color>)
    requires IsCompaction(result, s, [])
    ensures result == s
  {
    CompactionIdentity(s);
    CompactionUnique(result, s, s, []);
  }

  /** If no row is full, clear_rows deletes nothing and moves nothing. */
  lemma NoFullRowsNoChange(locked: map<Cell, Color>, grid: Grid, result: map<Cell, Color>)
    requires WellFormed(grid) && FullRowSet(grid) == {}
    requires IsCompaction(result, Survivors(locked, FullRows(grid)), FullRows(grid))
    ensures FullRows(grid) == [] && result == locked
  {
    FullRowsCount(grid);
    assert Survivors(locked, []) == locked;
    CompactionWithoutRows(result, locked);
  }

  /** An injective re-keying keeps the number of keys. */
  lemma {:induction false} TargetsCount(keys: set<Cell>, rows: seq<int>)
    requires forall c, d {:trigger c in keys, d in keys} :: c in keys && d in keys && c != d ==> Rekey(c, rows) != Rekey(d, rows)
    ensures |Targets(keys, rows)| == |keys|
    decreases |keys|
  {
    if keys != {} {
      var c :| c in keys;
      var rest := keys - {c};
      TargetsCount(rest, rows);
      assert Targets(keys, rows) == Targets(rest, rows) + {Rekey(c, rows)};
      forall d | d in rest ensures Rekey(d, rows) != Rekey(c, rows) {
        assert d in keys && d != c;
      }
      assert Rekey(c, rows) !in Targets(rest, rows);
    }
  }

  /** When no survivor lies in a cleared row, every survivor (x, y) is found at
      (x, y + its shift) with its colour, and no two survivors collide, so the
      number of locked keys is preserved. */
  lemma CompactionMovesEverySurvivor(result: map<Cell, Color>, s: map<Cell, Color>, rows: seq<int>)
    requires StrictlyDescending(rows)
    requires forall c :: c in s ==> c.1 !in rows
    requires IsCompaction(result, s, rows)
    ensures forall c :: c in s ==> Rekey(c, rows) in result && result[Rekey(c, rows)] == s[c]
    ensures |result| == |s|
  {
    forall c, d | c in s && d in s && c != d ensures Rekey(c, rows) != Rekey(d, rows) {
      RekeyInjective(c, d, rows);
    }
    forall c | c in s ensures Rekey(c, rows) in result && result[Rekey(c, rows)] == s[c] {
      assert LowestIn(s.Keys, rows, c);
    }
    TargetsCount(s.Keys, rows);
    assert |result| == |result.Keys|;
  }

  /** While every locked key in the board's rows has a board column, the
      deletion loop removes exactly the keys in full rows, and no survivor lies
      in a full row. */
  lemma SurvivorsOfBoardKeys(locked: map<Cell, Color>, grid: Grid)
    requires WellFormed(grid)
    requires forall c :: c in locked && 0 <= c.1 < ROWS ==> 0 <= c.0 < COLUMNS
    ensures forall c :: c in locked ==> (c in Survivors(locked, FullRows(grid)) <==> c.1 !in FullRowSet(grid))
    ensures forall c :: c in Survivors(locked, FullRows(grid)) ==> c.1 !in FullRows(grid)
  {
    FullRowsFromSpec(grid, 0);
  }

  /** Deleting the keys of one more cleared row i: columns 0..9 of row i go. */
  lemma SurvivorsSnoc(locked: map<Cell, Color>, rows: seq<int>, i: int)
    ensures Survivors(locked, rows + [i]) == WithoutRow(Survivors(locked, rows), i)
  {
  }

  /** The re-keying loop's bookkeeping: processed keys (done) all lie at
      least as low on the board as the keys still to be processed (todo). */
  ghost predicate ProcessedBelow(done: set<Cell>, todo: set<Cell>)
  {
    forall a, b :: a in done && b in todo ==> b.1 <= a.1
  }

  /** No key still to be processed is the target of a processed one. */
  lemma UnprocessedNotTargeted(rows: seq<int>, done: set<Cell>, todo: set<Cell>, b: Cell)
    requires done !! todo && ProcessedBelow(done, todo) && b in todo
    ensures b !in Targets(done, rows)
  {
    forall a | a in done ensures Rekey(a, rows) != b {
    }
  }

  /** Processing one more key adds exactly its target. */
  lemma TargetsAdd(keys: set<Cell>, rows: seq<int>, key: Cell)
    ensures Targets(keys + {key}, rows) == Targets(keys, rows) + {Rekey(key, rows)}
  {
  }

  /** Replacing key by target in a key set made of t and todo, where key is
      one of todo and not one of t. */
  lemma KeysAfterMove<K>(before: set<K>, t: set<K>, todo: set<K>, key: K, target: K, after: set<K>)
    requires before == t + todo && key in todo && key !in t
    requires after == if target == key then before else before - {key} + {target}
    ensures after == (t + {target}) + (todo - {key})
  {
  }

  /** One step of the re-keying loop, on the keys: the key of largest row
      among those not yet processed is replaced by its target. */
  lemma RekeyStepKeys(rows: seq<int>, done: set<Cell>, todo: set<Cell>,
                      key: Cell, before: map<Cell, Color>, after: map<Cell, Color>)
    requires done !! todo && ProcessedBelow(done, todo)
    requires before.Keys == Targets(done, rows) + todo
    requires key in todo && forall c :: c in todo ==> c.1 <= key.1
    requires after == if Shift(key.1, rows) > 0 then (before - {key})[Rekey(key, rows) := before[key]] else before
    ensures after.Keys == Targets(done + {key}, rows) + (todo - {key})
  {
    UnprocessedNotTargeted(rows, done, todo, key);
    TargetsAdd(done, rows, key);
    var target := Rekey(key, rows);
    assert after.Keys == if target == key then before.Keys else before.Keys - {key} + {target};
    KeysAfterMove(before.Keys, Targets(done, rows), todo, key, target, after.Keys);
  }

  /** One step of the re-keying loop leaves the other unprocessed keys alone. */
  lemma RekeyStepTodo(s: map<Cell, Color>, rows: seq<int>, todo: set<Cell>,
                      key: Cell, before: map<Cell, Color>, after: map<Cell, Color>)
    requires todo <= before.Keys && todo <= s.Keys && forall b :: b in todo ==> before[b] == s[b]
    requires key in todo && forall c :: c in todo ==> c.1 <= key.1
    requires after == if Shift(key.1, rows) > 0 then (before - {key})[Rekey(key, rows) := before[key]] else before
    ensures forall b :: b in todo - {key} ==> b in after && after[b] == s[b]
  {
  }

  /** One step of the re-keying loop, at one processed key a that is lowest at its target. */
  lemma RekeyStepLowestAt(s: map<Cell, Color>, rows: seq<int>, done: set<Cell>, todo: set<Cell>,
                          key: Cell, before: map<Cell, Color>, after: map<Cell, Color>, a: Cell)
    requires done !! todo && ProcessedBelow(done, todo) && done + todo <= s.Keys
    requires before.Keys == Targets(done, rows) + todo
    requires key in todo && before[key] == s[key]
    requires LowestIn(done, rows, a) ==> Rekey(a, rows) in before && before[Rekey(a, rows)] == s[a]
    requires after == if Shift(key.1, rows) > 0 then (before - {key})[Rekey(key, rows) := before[key]] else before
    requires LowestIn(done + {key}, rows, a)
    ensures Rekey(a, rows) in after && after[Rekey(a, rows)] == s[a]
  {
    var target := Rekey(key, rows);
    if a == key {
      if Shift(key.1, rows) == 0 {
        assert target == key;
      }
    } else {
      assert a in done;
      assert LowestIn(done, rows, a);
      assert key.1 <= a.1;
      assert Rekey(a, rows) != target;
      assert Rekey(a, rows) in Targets(done, rows);
      UnprocessedNotTargeted(rows, done, todo, key);
      assert Rekey(a, rows) != key;
    }
  }

  /** One step of the re-keying loop: the moved key carries its colour to its
      target, and every processed key that is lowest at its target keeps it. */
  lemma RekeyStepLowest(s: map<Cell, Color>, rows: seq<int>, done: set<Cell>, todo: set<Cell>,
                        key: Cell, before: map<Cell, Color>, after: map<Cell, Color>)
    requires done !! todo && ProcessedBelow(done, todo) && done + todo <= s.Keys
    requires before.Keys == Targets(done, rows) + todo
    requires key in todo && before[key] == s[key]
    requires forall a {:trigger LowestIn(done, rows, a)} :: LowestIn(done, rows, a) ==> Rekey(a, rows) in before && before[Rekey(a, rows)] == s[a]
    requires after == if Shift(key.1, rows) > 0 then (before - {key})[Rekey(key, rows) := before[key]] else before
    ensures forall a {:trigger LowestIn(done + {key}, rows, a)} :: LowestIn(done + {key}, rows, a) ==> Rekey(a, rows) in after && after[Rekey(a, rows)] == s[a]
  {
    forall a | LowestIn(done + {key}, rows, a)
      ensures Rekey(a, rows) in after && after[Rekey(a, rows)] == s[a]
    {
      RekeyStepLowestAt(s, rows, done, todo, key, before, after, a);
    }
  }

  /** The keys of m except those at columns 0..9 of row i. */
  function WithoutRow(m: map<Cell, Color>, i: int): (r: map<Cell, Color>)
  {
    map c | c in m && !(c.1 == i && 0 <= c.0 < COLUMNS) :: m[c]
  }

  /** The inner loop of clear_rows' first pass: every key (j, i) with j in
      0..9 is deleted when present. */
  method DeleteRow(m: map<Cell, Color>, i: int) returns (r: map<Cell, Color>)
    ensures r.Keys == m.Keys - set j | 0 <= j < COLUMNS :: (j, i)
    ensures forall c :: c in r ==> r[c] == m[c]
  {
    r := m;
    var j := 0;
    while j < COLUMNS
      invariant 0 <= j <= COLUMNS
      invariant r.Keys == m.Keys - set k | 0 <= k < j :: (k, i)
      invariant forall c :: c in r ==> r[c] == m[c]
    {
      if (j, i) in r {
        r := r - {(j, i)};
      }
      j := j + 1;
    }
  }

  /** DeleteRow leaves exactly WithoutRow. */
  lemma DeleteRowIsWithoutRow(m: map<Cell, Color>, i: int, r: map<Cell, Color>)
    requires r.Keys == m.Keys - set j | 0 <= j < COLUMNS :: (j, i)
    requires forall c :: c in r ==> r[c] == m[c]
    ensures r == WithoutRow(m, i)
  {
    forall c ensures c in r <==> c in WithoutRow(m, i) {
      if c in m && c.1 == i && 0 <= c.0 < COLUMNS {
        assert c == (c.0, i);
      }
    }
  }

  /** The invariant of the re-keying loop: done holds the keys already
      processed, todo those still to process, and m the map so far. */
  ghost predicate RekeyInvariant(s: map<Cell, Color>, rows: seq<int>, done: set<Cell>, todo: set<Cell>, m: map<Cell, Color>)
  {
    && todo <= s.Keys && done == s.Keys - todo && ProcessedBelow(done, todo)
    && m.Keys == Targets(done, rows) + todo
    && (forall b :: b in todo ==> b in m && m[b] == s[b])
    && (forall a {:trigger LowestIn(done, rows, a)} :: LowestIn(done, rows, a) ==> Rekey(a, rows) in m && m[Rekey(a, rows)] == s[a])
  }

  /** One step of the re-keying loop keeps its invariant. */
  lemma RekeyStep(s: map<Cell, Color>, rows: seq<int>, done: set<Cell>, todo: set<Cell>,
                  key: Cell, before: map<Cell, Color>, after: map<Cell, Color>)
    requires RekeyInvariant(s, rows, done, todo, before)
    requires key in todo && forall c :: c in todo ==> c.1 <= key.1
    requires after == if Shift(key.1, rows) > 0 then (before - {key})[Rekey(key, rows) := before[key]] else before
    ensures RekeyInvariant(s, rows, done + {key}, todo - {key}, after)
  {
    var todo', done' := todo - {key}, done + {key};
    assert done !! todo && done + todo <= s.Keys;
    assert before[key] == s[key];
    assert after.Keys == Targets(done', rows) + todo' by {
      RekeyStepKeys(rows, done, todo, key, before, after);
    }
    assert forall b :: b in todo' ==> b in after && after[b] == s[b] by {
      RekeyStepTodo(s, rows, todo, key, before, after);
    }
    assert forall a {:trigger LowestIn(done', rows, a)} :: LowestIn(done', rows, a) ==> Rekey(a, rows) in after && after[Rekey(a, rows)] == s[a] by {
      RekeyStepLowest(s, rows, done, todo, key, before, after);
    }
    assert done' == s.Keys - todo';
    assert ProcessedBelow(done', todo');
  }

  /** When every key is processed, the invariant is the specification. */
  lemma RekeyDone(s: map<Cell, Color>, rows: seq<int>, done: set<Cell>, m: map<Cell, Color>)
    requires RekeyInvariant(s, rows, done, {}, m)
    ensures IsCompaction(m, s, rows)
  {
    assert done == s.Keys;
  }

  /** The first loop of clear_rows: rows are scanned from the bottom (19) up;
      every full row is recorded and its keys at columns 0..9 deleted. */
  method DeleteFullRows(grid: Grid, locked: map<Cell, Color>) returns (remaining: map<Cell, Color>, ind: seq<int>)
    requires WellFormed(grid)
    ensures ind == FullRows(grid)
    ensures remaining == Survivors(locked, ind)
  {
    remaining := locked;
    ind := [];
    var i := |grid| - 1;
    while i >= 0
      invariant -1 <= i < ROWS
      invariant ind == FullRowsFrom(grid, i + 1)
      invariant remaining == Survivors(locked, ind)
    {
      var row := grid[i];
      if IsFull(row) {
        SurvivorsSnoc(locked, ind, i);
        var r := DeleteRow(remaining, i);
        DeleteRowIsWithoutRow(remaining, i, r);
        remaining := r;
        ind := ind + [i];
      }
      i := i - 1;
    }
  }

  /** The inner loop of the re-keying pass: the number of cleared rows below row y. */
  method CountRowsBelow(y: int, ind: seq<int>) returns (yDelta: nat)
    ensures yDelta == Shift(y, ind)
  {
    yDelta := 0;
    for idx := 0 to |ind|
      invariant yDelta == Shift(y, ind[..idx])
    {
      ShiftSnoc(y, ind[..idx], ind[idx]);
      assert ind[..idx + 1] == ind[..idx] + [ind[idx]];
      if y < ind[idx] {
        yDelta := yDelta + 1;
      }
    }
    assert ind[..|ind|] == ind;
  }

  /** The second loop of clear_rows: the keys are taken in order of
      decreasing row, and each is moved down by the number of cleared rows
      below it. */
  method MoveRowsDown(s: map<Cell, Color>, ind: seq<int>) returns (moved: map<Cell, Color>)
    ensures IsCompaction(moved, s, ind)
  {
    moved := s;
    var todo := s.Keys;
    ghost var done: set<Cell> := {};
    while todo != {}
      invariant RekeyInvariant(s, ind, done, todo, moved)
      decreases |todo|
    {
      // Never read: the witness shows that the choice below is satisfiable.
      ghost var highest := HighestRow(todo);
      var key :| key in todo && forall c :: c in todo ==> c.1 <= key.1;
      var x, y := key.0, key.1;
      var yDelta := CountRowsBelow(y, ind);
      RekeyMovesBy(key, ind, yDelta);
      ghost var before := moved;
      if yDelta > 0 {
        var value := moved[key];
        moved := (moved - {key})[(x, y + yDelta) := value];
      }
      RekeyStep(s, ind, done, todo, key, before, moved);
      todo := todo - {key};
      done := done + {key};
    }
    RekeyDone(s, ind, done, moved);
  }
}
