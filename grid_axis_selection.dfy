/** Whole-row and whole-column selection (src/hooks/useGridAxisSelection.tsx). A
    click on a row or column button selects every cell of it that is missing, or,
    when the whole row or column is already selected, removes it from the selection. */
module GridAxisSelection {
  import opened Types
  import Seqs
  import GridUtils
  import SelectedCells

  /** `cell => !isCellSelected(cell)` for the selection `s`. */
  function NotIn(s: seq<Coord>): Coord -> bool
  {
    (c: Coord) => c !in s
  }

  /** `cell => cell.y !== y`. */
  function OffRow(y: int): Coord -> bool
  {
    (c: Coord) => c.y != y
  }

  /** `cell => cell.x !== x`. */
  function OffColumn(x: int): Coord -> bool
  {
    (c: Coord) => c.x != x
  }

  /** `cells.every(isCellSelected)` against the selection `s`. */
  predicate AllIn(cells: seq<Coord>, s: seq<Coord>)
  {
    forall i :: 0 <= i < |cells| ==> cells[i] in s
  }

  /** What both setters compute from `prev`: when every cell of the axis is
      selected, keep only the entries `off` the axis; otherwise append the
      axis cells not yet selected. Either way only axis cells come in, and no
      entry off the axis goes. */
  function AxisToggled(prev: seq<Coord>, cells: seq<Coord>, off: Coord -> bool): (r: seq<Coord>)
    ensures forall c :: c in r ==> c in prev || c in cells
    ensures forall c :: c in prev && off(c) ==> c in r
  {
    if AllIn(cells, prev) then Seqs.Filter(prev, off)
    else prev + Seqs.Filter(cells, NotIn(prev))
  }

  /** The new selection after `toggleRow(displayRowIndex)`: only cells of the
      row come in, and no entry of another row goes. The removal branch reads
      `rowCells[0].y`, so the tray needs at least one column. */
  function RowToggled(prev: seq<Coord>, tray: Tray, displayRowIndex: int): (r: seq<Coord>)
    requires tray.columns >= 1
    ensures forall c :: c in r ==> c in prev || (c.y == tray.rows - 1 - displayRowIndex && 0 <= c.x < tray.columns)
    ensures forall c :: c in prev && c.y != tray.rows - 1 - displayRowIndex ==> c in r
  {
    var rowCells := GridUtils.RowCells(tray, displayRowIndex);
    AxisToggled(prev, rowCells, OffRow(rowCells[0].y))
  }

  /** The new selection after `toggleColumn(colIndex)`: only cells of the
      column come in, and no entry of another column goes. */
  function ColumnToggled(prev: seq<Coord>, tray: Tray, colIndex: int): (r: seq<Coord>)
    ensures forall c :: c in r ==> c in prev || (c.x == colIndex && 0 <= c.y < tray.rows)
    ensures forall c :: c in prev && c.x != colIndex ==> c in r
  {
    AxisToggled(prev, GridUtils.ColumnCells(tray, colIndex), OffColumn(colIndex))
  }

  // ---------------------------------------------------------------------------
  // Properties of the common step, for any axis whose cells are all not `off`.

  /** The entries off the axis are the same, in the same order, before and after. */
  lemma {:induction false} AxisKeepsOffAxis(prev: seq<Coord>, cells: seq<Coord>, off: Coord -> bool)
    requires forall i :: 0 <= i < |cells| ==> !off(cells[i])
    ensures Seqs.Filter(AxisToggled(prev, cells, off), off) == Seqs.Filter(prev, off)
  {
    if AllIn(cells, prev) {
      Seqs.FilterKeepsAll(Seqs.Filter(prev, off), off);
    } else {
      var added := Seqs.Filter(cells, NotIn(prev));
      Seqs.FilterAppend(prev, added, off);
      forall i | 0 <= i < |added| ensures !off(added[i]) {
        var j :| 0 <= j < |cells| && cells[j] == added[i];
      }
      Seqs.FilterDropsAll(added, off);
      assert Seqs.Filter(prev, off) + [] == Seqs.Filter(prev, off);
    }
  }

  /** A fully selected axis is removed: exactly the entries on it leave. */
  lemma {:induction false} AxisClearsFull(prev: seq<Coord>, cells: seq<Coord>, off: Coord -> bool)
    requires AllIn(cells, prev)
    ensures forall c :: c in AxisToggled(prev, cells, off) <==> c in prev && off(c)
  {
    var r := Seqs.Filter(prev, off);
    forall c | c in r ensures c in prev && off(c) {
      var i :| 0 <= i < |r| && r[i] == c;
    }
    forall c | c in prev && off(c) ensures c in r {
      var i :| 0 <= i < |prev| && prev[i] == c;
    }
  }

  /** A partly selected axis is completed: `prev` stays as the prefix, and the
      appended entries are the missing axis cells, in axis order. */
  lemma {:induction false} AxisFillsMissing(prev: seq<Coord>, cells: seq<Coord>, off: Coord -> bool)
    requires !AllIn(cells, prev)
    ensures var r := AxisToggled(prev, cells, off);
            && |prev| <= |r|
            && r[..|prev|] == prev
            && AllIn(cells, r)
            && (forall i :: |prev| <= i < |r| ==> r[i] in cells && r[i] !in prev)
  {
    var added := Seqs.Filter(cells, NotIn(prev));
    var r := prev + added;
    assert r[..|prev|] == prev;
    forall i | 0 <= i < |cells| ensures cells[i] in r {
      if cells[i] !in prev {
        assert cells[i] in added;
      }
    }
    forall i | |prev| <= i < |r| ensures r[i] in cells && r[i] !in prev {
      assert r[i] == added[i - |prev|];
    }
  }

  /** Neither branch introduces a duplicate when the axis lists each cell once. */
  lemma {:induction false} AxisKeepsDistinct(prev: seq<Coord>, cells: seq<Coord>, off: Coord -> bool)
    requires Seqs.Distinct(prev) && Seqs.Distinct(cells)
    ensures Seqs.Distinct(AxisToggled(prev, cells, off))
  {
    if AllIn(cells, prev) {
      Seqs.FilterDistinct(prev, off);
    } else {
      var added := Seqs.Filter(cells, NotIn(prev));
      Seqs.FilterDistinct(cells, NotIn(prev));
      var r := prev + added;
      forall i, j | 0 <= i < j < |r| ensures r[i] != r[j] {
        if j >= |prev| {
          assert r[j] == added[j - |prev|];
          assert NotIn(prev)(r[j]);
          if i >= |prev| {
            assert r[i] == added[i - |prev|];
          }
        }
      }
    }
  }

  /** The appended cells keep whatever order the axis lists them in. */
  lemma {:induction false} AxisAppendsInOrder(prev: seq<Coord>, cells: seq<Coord>, off: Coord -> bool, before: (Coord, Coord) -> bool)
    requires !AllIn(cells, prev)
    requires forall i, j :: 0 <= i < j < |cells| ==> before(cells[i], cells[j])
    ensures var r := AxisToggled(prev, cells, off);
            forall i, j :: |prev| <= i < j < |r| ==> before(r[i], r[j])
  {
    var added := Seqs.Filter(cells, NotIn(prev));
    Seqs.FilterOrdered(cells, NotIn(prev), before);
    var r := prev + added;
    forall i, j | |prev| <= i < j < |r| ensures before(r[i], r[j]) {
      assert r[i] == added[i - |prev|] && r[j] == added[j - |prev|];
    }
  }

  // ---------------------------------------------------------------------------
  // Rows.

  /** Display row d is tray row y = rows - 1 - d: if all of its cells are selected,
      `toggleRow(d)` removes every entry with that y and nothing else. */
  lemma {:induction false} RowToggleClearsFullRow(prev: seq<Coord>, tray: Tray, d: int)
    requires tray.columns >= 1
    requires AllIn(GridUtils.RowCells(tray, d), prev)
    ensures forall c :: c in RowToggled(prev, tray, d) <==> c in prev && c.y != tray.rows - 1 - d
  {
    var rowCells := GridUtils.RowCells(tray, d);
    AxisClearsFull(prev, rowCells, OffRow(rowCells[0].y));
  }

  /** Otherwise it appends exactly the missing cells of that row, in increasing x,
      after which the whole row is selected. */
  lemma {:induction false} RowToggleFillsRow(prev: seq<Coord>, tray: Tray, d: int)
    requires tray.columns >= 1
    requires !AllIn(GridUtils.RowCells(tray, d), prev)
    ensures var r := RowToggled(prev, tray, d);
            && |prev| <= |r|
            && r[..|prev|] == prev
            && AllIn(GridUtils.RowCells(tray, d), r)
            && (forall i :: |prev| <= i < |r| ==> r[i].y == tray.rows - 1 - d && 0 <= r[i].x < tray.columns && r[i] !in prev)
            && (forall i, j :: |prev| <= i < j < |r| ==> r[i].x < r[j].x)
  {
    var rowCells := GridUtils.RowCells(tray, d);
    var off := OffRow(rowCells[0].y);
    AxisFillsMissing(prev, rowCells, off);
    AxisAppendsInOrder(prev, rowCells, off, (a: Coord, b: Coord) => a.x < b.x);
  }

  /** The row toggle is the axis toggle of the row's cells, off row y = rows - 1 - d,
      and none of those cells is off that row. */
  lemma RowToggledIsAxis(prev: seq<Coord>, tray: Tray, d: int)
    requires tray.columns >= 1
    ensures RowToggled(prev, tray, d) == AxisToggled(prev, GridUtils.RowCells(tray, d), OffRow(tray.rows - 1 - d))
    ensures forall i :: 0 <= i < |GridUtils.RowCells(tray, d)| ==> !OffRow(tray.rows - 1 - d)(GridUtils.RowCells(tray, d)[i])
  {
    var rowCells := GridUtils.RowCells(tray, d);
    assert rowCells[0].y == tray.rows - 1 - d;
  }

  /** Entries outside the target row are never touched, and their order is kept. */
  lemma {:induction false} RowToggleKeepsOtherRows(prev: seq<Coord>, tray: Tray, d: int)
    requires tray.columns >= 1
    ensures Seqs.Filter(RowToggled(prev, tray, d), OffRow(tray.rows - 1 - d)) == Seqs.Filter(prev, OffRow(tray.rows - 1 - d))
  {
    RowToggledIsAxis(prev, tray, d);
    AxisKeepsOffAxis(prev, GridUtils.RowCells(tray, d), OffRow(tray.rows - 1 - d));
  }

  /** `toggleRow` introduces no duplicate. */
  lemma {:induction false} RowToggleKeepsDistinct(prev: seq<Coord>, tray: Tray, d: int)
    requires tray.columns >= 1
    requires Seqs.Distinct(prev)
    ensures Seqs.Distinct(RowToggled(prev, tray, d))
  {
    var rowCells := GridUtils.RowCells(tray, d);
    AxisKeepsDistinct(prev, rowCells, OffRow(rowCells[0].y));
  }

  /** A partly selected row becomes full on the first click and empty on the second. */
  lemma {:induction false} RowTogglePartialTwice(prev: seq<Coord>, tray: Tray, d: int)
    requires tray.columns >= 1
    requires !AllIn(GridUtils.RowCells(tray, d), prev)
    ensures AllIn(GridUtils.RowCells(tray, d), RowToggled(prev, tray, d))
    ensures forall c :: c in RowToggled(RowToggled(prev, tray, d), tray, d) <==> c in prev && c.y != tray.rows - 1 - d
  {
    var r := RowToggled(prev, tray, d);
    RowToggleFillsRow(prev, tray, d);
    RowToggleClearsFullRow(r, tray, d);
  }

  // ---------------------------------------------------------------------------
  // Columns.

  /** If all of column c is selected, `toggleColumn(c)` removes every entry with
      x = c and nothing else. */
  lemma {:induction false} ColumnToggleClearsFullColumn(prev: seq<Coord>, tray: Tray, c: int)
    requires AllIn(GridUtils.ColumnCells(tray, c), prev)
    ensures forall e :: e in ColumnToggled(prev, tray, c) <==> e in prev && e.x != c
  {
    AxisClearsFull(prev, GridUtils.ColumnCells(tray, c), OffColumn(c));
  }

  /** Otherwise it appends exactly the missing cells (c, y), in increasing y, after
      which the whole column is selected. */
  lemma {:induction false} ColumnToggleFillsColumn(prev: seq<Coord>, tray: Tray, c: int)
    requires !AllIn(GridUtils.ColumnCells(tray, c), prev)
    ensures var r := ColumnToggled(prev, tray, c);
            && |prev| <= |r|
            && r[..|prev|] == prev
            && AllIn(GridUtils.ColumnCells(tray, c), r)
            && (forall i :: |prev| <= i < |r| ==> r[i].x == c && 0 <= r[i].y < tray.rows && r[i] !in prev)
            && (forall i, j :: |prev| <= i < j < |r| ==> r[i].y < r[j].y)
  {
    var colCells := GridUtils.ColumnCells(tray, c);
    AxisFillsMissing(prev, colCells, OffColumn(c));
    AxisAppendsInOrder(prev, colCells, OffColumn(c), (a: Coord, b: Coord) => a.y < b.y);
  }

  /** Entries outside the target column are never touched, and their order is kept. */
  lemma {:induction false} ColumnToggleKeepsOtherColumns(prev: seq<Coord>, tray: Tray, c: int)
    ensures Seqs.Filter(ColumnToggled(prev, tray, c), OffColumn(c)) == Seqs.Filter(prev, OffColumn(c))
  {
    AxisKeepsOffAxis(prev, GridUtils.ColumnCells(tray, c), OffColumn(c));
  }

  /** `toggleColumn` introduces no duplicate. */
  lemma {:induction false} ColumnToggleKeepsDistinct(prev: seq<Coord>, tray: Tray, c: int)
    requires Seqs.Distinct(prev)
    ensures Seqs.Distinct(ColumnToggled(prev, tray, c))
  {
    AxisKeepsDistinct(prev, GridUtils.ColumnCells(tray, c), OffColumn(c));
  }

  // ---------------------------------------------------------------------------
  // The hook's two callbacks, acting on the shared selection state.

  /** `toggleRow(displayRowIndex)`. For a tray without columns the row is empty,
      so it counts as fully selected, and the setter filters `prev` with a
      callback that reads `rowCells[0].y`. `filter` calls it once per entry, so
      it throws only when the selection is non-empty: `threw` reports that
      TypeError, and the selection is left as it was. An empty selection is
      filtered to itself without error. */
  method ToggleRow(selection: SelectedCells.CellSelection, tray: Tray, displayRowIndex: int) returns (threw: bool)
    modifies selection
    ensures threw <==> tray.columns < 1 && |old(selection.selectedCells)| > 0
    ensures tray.columns < 1 ==> selection.selectedCells == old(selection.selectedCells)
    ensures tray.columns >= 1 ==> selection.selectedCells == RowToggled(old(selection.selectedCells), tray, displayRowIndex)
    ensures old(selection.Valid()) ==> selection.Valid()
  {
    var rowCells := GridUtils.GetRowCells(tray, displayRowIndex);
    var allSelected := forall i :: 0 <= i < |rowCells| ==> selection.IsCellSelected(rowCells[i]);
    var prev := selection.selectedCells;
    threw := false;
    if allSelected && |rowCells| == 0 {
      if |prev| > 0 {
        threw := true;
        return;
      }
      selection.SetSelectedCells([]);
      return;
    }
    if allSelected {
      selection.SetSelectedCells(Seqs.Filter(prev, OffRow(rowCells[0].y)));
    } else {
      var newCells := Seqs.Filter(rowCells, NotIn(prev));
      selection.SetSelectedCells(prev + newCells);
    }
    if Seqs.Distinct(prev) {
      RowToggleKeepsDistinct(prev, tray, displayRowIndex);
    }
  }

  /** `toggleColumn(colIndex)`. */
  method ToggleColumn(selection: SelectedCells.CellSelection, tray: Tray, colIndex: int)
    modifies selection
    ensures selection.selectedCells == ColumnToggled(old(selection.selectedCells), tray, colIndex)
    ensures old(selection.Valid()) ==> selection.Valid()
  {
    var colCells := GridUtils.GetColumnCells(tray, colIndex);
    var allSelected := forall i :: 0 <= i < |colCells| ==> selection.IsCellSelected(colCells[i]);
    var prev := selection.selectedCells;
    if allSelected {
      selection.SetSelectedCells(Seqs.Filter(prev, OffColumn(colIndex)));
    } else {
      var newCells := Seqs.Filter(colCells, NotIn(prev));
      selection.SetSelectedCells(prev + newCells);
    }
    if Seqs.Distinct(prev) {
      ColumnToggleKeepsDistinct(prev, tray, colIndex);
    }
  }
}
