/**
 * Removal of completed rows (Game.clearFullLines in back/Game.js) and the
 * score it awards.
 */
module LineClear {
  import opened Board

  /** A row that clears: every cell filled and none indestructible. */
  predicate IsFull(row: seq<Cell>) {
    forall c :: 0 <= c < |row| ==> row[c].filled && !row[c].indestructible
  }

  /** The rows of `g` that do not clear, in their order. */
  function {:induction false} Survivors(g: Grid): (s: Grid)
    ensures |s| <= |g|
    ensures forall i :: 0 <= i < |s| ==> s[i] in g && !IsFull(s[i])
  {
    if g == [] then []
    else
      var rest := Survivors(g[..|g| - 1]);
      if IsFull(g[|g| - 1]) then rest else rest + [g[|g| - 1]]
  }

  /** How many rows of `g` clear. */
  function {:induction false} FullCount(g: Grid): (n: nat)
    ensures n + |Survivors(g)| == |g|
  {
    if g == [] then 0
    else FullCount(g[..|g| - 1]) + (if IsFull(g[|g| - 1]) then 1 else 0)
  }

  /** `n` fresh empty rows, as unshifted on top of the grid. */
  function EmptyRows(n: nat): (rows: Grid)
    ensures |rows| == n && forall i :: 0 <= i < n ==> rows[i] == EmptyRow()
  {
    seq(n, _ => EmptyRow())
  }

  /**
   * The grid after clearing: one empty row on top for each cleared row,
   * then the surviving rows in their original order.
   */
  function ClearLines(g: Grid): Grid {
    EmptyRows(FullCount(g)) + Survivors(g)
  }

  /** The score for clearing `n` rows at once: 100 a row, 400 more for four rows. */
  function Points(n: nat): (p: nat)
    ensures n == 0 ==> p == 0
    ensures n > 0 ==> p >= 100
    ensures n != 4 ==> p == 100 * n
    ensures n == 4 ==> p == 800
  {
    100 * n + (if n == 4 then 400 else 0)
  }

  /** Clearing keeps a grid of the engine's size. */
  lemma ClearKeepsGrid(g: Grid)
    requires IsGrid(g)
    ensures IsGrid(ClearLines(g))
  {
    var r := ClearLines(g);
    forall i | 0 <= i < |r| ensures |r[i]| == Cols {
      if i >= FullCount(g) {
        assert r[i] == Survivors(g)[i - FullCount(g)];
      }
    }
  }

  /** After clearing no row of a grid of the engine's size clears. */
  lemma NoFullRowsLeft(g: Grid)
    requires IsGrid(g)
    ensures forall i :: 0 <= i < |ClearLines(g)| ==> !IsFull(ClearLines(g)[i])
  {
    var r := ClearLines(g);
    forall i | 0 <= i < |r| ensures !IsFull(r[i]) {
      if i < FullCount(g) {
        assert !r[i][0].filled;
      } else {
        assert r[i] == Survivors(g)[i - FullCount(g)];
      }
    }
  }

  /** A grid with no clearing row survives whole. */
  lemma {:induction false} NothingToClear(g: Grid)
    requires forall i :: 0 <= i < |g| ==> !IsFull(g[i])
    ensures Survivors(g) == g && FullCount(g) == 0
  {
    if g != [] {
      NothingToClear(g[..|g| - 1]);
      assert g == g[..|g| - 1] + [g[|g| - 1]];
    }
  }

  /** Clearing twice is clearing once. */
  lemma ClearIdempotent(g: Grid)
    requires IsGrid(g)
    ensures ClearLines(ClearLines(g)) == ClearLines(g)
  {
    NoFullRowsLeft(g);
    NothingToClear(ClearLines(g));
  }

  /** Survivors filters each part of a split grid separately. */
  lemma {:induction false} SurvivorsAppend(a: Grid, b: Grid)
    ensures Survivors(a + b) == Survivors(a) + Survivors(b)
    ensures FullCount(a + b) == FullCount(a) + FullCount(b)
    decreases |b|
  {
    if b == [] {
      assert a + b == a;
    } else {
      var b' := b[..|b| - 1];
      assert (a + b)[..|a + b| - 1] == a + b';
      SurvivorsAppend(a, b');
    }
  }

  /** Indestructible cells in a row. */
  function {:induction false} HardInRow(row: seq<Cell>): nat {
    if row == [] then 0
    else HardInRow(row[..|row| - 1]) + (if row[|row| - 1].indestructible then 1 else 0)
  }

  /** Indestructible cells in a grid. */
  function {:induction false} HardCells(g: Grid): nat {
    if g == [] then 0 else HardCells(g[..|g| - 1]) + HardInRow(g[|g| - 1])
  }

  /** Clearing destroys no indestructible cell: penalty rows always stay. */
  lemma ClearKeepsHardCells(g: Grid)
    ensures HardCells(ClearLines(g)) == HardCells(g)
  {
    HardCellsAppend(EmptyRows(FullCount(g)), Survivors(g));
    EmptyRowsSoft(FullCount(g));
    SurvivorsKeepHardCells(g);
  }

  lemma {:induction false} HardCellsAppend(a: Grid, b: Grid)
    ensures HardCells(a + b) == HardCells(a) + HardCells(b)
    decreases |b|
  {
    if b == [] {
      assert a + b == a;
    } else {
      var b' := b[..|b| - 1];
      assert (a + b)[..|a + b| - 1] == a + b';
      HardCellsAppend(a, b');
    }
  }

  /** A row with no indestructible cell counts none. */
  lemma {:induction false} SoftRow(row: seq<Cell>)
    requires forall c :: 0 <= c < |row| ==> !row[c].indestructible
    ensures HardInRow(row) == 0
  {
    if row != [] {
      SoftRow(row[..|row| - 1]);
    }
  }

  lemma {:induction false} EmptyRowsSoft(n: nat)
    ensures HardCells(EmptyRows(n)) == 0
  {
    if n > 0 {
      assert EmptyRows(n)[..n - 1] == EmptyRows(n - 1);
      EmptyRowsSoft(n - 1);
      SoftRow(EmptyRow());
    }
  }

  lemma {:induction false} SurvivorsKeepHardCells(g: Grid)
    ensures HardCells(Survivors(g)) == HardCells(g)
  {
    if g != [] {
      var g', last := g[..|g| - 1], g[|g| - 1];
      SurvivorsKeepHardCells(g');
      if IsFull(last) {
        SoftRow(last);
      } else {
        HardCellsAppend(Survivors(g'), [last]);
        assert [last][..0] == [];
      }
    }
  }

  /** The grid after the row loop of clearFullLines has examined rows 0 .. row-1. */
  function Partial(g: Grid, row: nat): Grid
    requires row <= |g|
  {
    EmptyRows(FullCount(g[..row])) + Survivors(g[..row]) + g[row..]
  }

  /** `grid.splice(row, 1)` followed by `grid.unshift(<empty row>)`. */
  function SpliceRow(p: Grid, row: nat): (r: Grid)
    requires row < |p|
    ensures |r| == |p|
  {
    [EmptyRow()] + (p[..row] + p[row + 1..])
  }

  /** Examining one more row adds it to the survivors or to the count of cleared rows. */
  lemma PrefixStep(g: Grid, row: nat)
    requires row < |g|
    ensures FullCount(g[..row + 1]) == FullCount(g[..row]) + if IsFull(g[row]) then 1 else 0
    ensures Survivors(g[..row + 1]) == if IsFull(g[row]) then Survivors(g[..row]) else Survivors(g[..row]) + [g[row]]
  {
    var h := g[..row + 1];
    assert h[..|h| - 1] == g[..row];
  }

  /** Before row `row` is examined, the rows before it are the cleared and surviving rows, and it is still in place. */
  lemma PartialSplit(g: Grid, row: nat)
    requires row < |g|
    ensures var a := EmptyRows(FullCount(g[..row])) + Survivors(g[..row]);
      |a| == row && Partial(g, row) == a + ([g[row]] + g[row + 1..])
  {
    assert g[row..] == [g[row]] + g[row + 1..];
  }

  /** A full row is spliced out and an empty row unshifted. */
  lemma FullRowStep(g: Grid, row: nat)
    requires row < |g| && IsFull(g[row])
    ensures Partial(g, row + 1) == SpliceRow(Partial(g, row), row)
  {
    var n, s, rest := FullCount(g[..row]), Survivors(g[..row]), g[row + 1..];
    var a := EmptyRows(n) + s;
    PartialSplit(g, row);
    PrefixStep(g, row);
    var p := Partial(g, row);
    assert p[..row] == a;
    assert p[row + 1..] == rest;
    assert EmptyRows(n + 1) == [EmptyRow()] + EmptyRows(n);
    AppendAssoc([EmptyRow()], EmptyRows(n), s);
    AppendAssoc([EmptyRow()], a, rest);
  }

  /** Any other row is left where it is. */
  lemma KeptRowStep(g: Grid, row: nat)
    requires row < |g| && !IsFull(g[row])
    ensures Partial(g, row + 1) == Partial(g, row)
  {
    var n, s, rest := FullCount(g[..row]), Survivors(g[..row]), g[row + 1..];
    PartialSplit(g, row);
    PrefixStep(g, row);
    AppendAssoc(EmptyRows(n), s, [g[row]]);
    AppendAssoc(EmptyRows(n) + s, [g[row]], rest);
  }

  /**
   * One iteration of that loop: row `row` still holds the original row,
   * and splicing it out and unshifting an empty row when it is full (or
   * leaving the grid alone when it is not) moves on to the next row.
   */
  lemma ClearStep(g: Grid, row: nat)
    requires row < |g|
    ensures |Partial(g, row)| == |g| && Partial(g, row)[row] == g[row]
    ensures Partial(g, row + 1) == if IsFull(g[row]) then SpliceRow(Partial(g, row), row) else Partial(g, row)
    ensures FullCount(g[..row + 1]) == FullCount(g[..row]) + if IsFull(g[row]) then 1 else 0
  {
    PartialSplit(g, row);
    PrefixStep(g, row);
    if IsFull(g[row]) {
      FullRowStep(g, row);
    } else {
      KeptRowStep(g, row);
    }
  }

  /**
   * The row loop of clearFullLines: at each full row, splice it out and
   * unshift an empty row. Returns the new grid and how many rows cleared.
   */
  method ClearRows(g: Grid) returns (cleared: Grid, n: nat)
    requires |g| == Rows
    ensures cleared == ClearLines(g) && n == FullCount(g)
  {
    cleared, n := g, 0;
    var row := 0;
    assert g[..0] == [];
    while row < |g|
      invariant 0 <= row <= |g|
      invariant n == FullCount(g[..row])
      invariant cleared == Partial(g, row)
    {
      ClearStep(g, row);
      if IsFull(cleared[row]) {
        cleared := SpliceRow(cleared, row);
        n := n + 1;
      }
      row := row + 1;
    }
    assert g[..row] == g;
  }
}
