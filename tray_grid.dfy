/** The editing part of the tray grid component
    (src/components/display/TrayGrid/TrayGrid.tsx): the editing switch that turns
    cell selection off, and the two batch actions that send one request per
    selected cell and then clear the selection. The requests are returned in the
    order they are sent; what the server makes of them is `ApplyAssigns` and
    `ApplyResets` below. */
module TrayGridView {
  import opened Types
  import CellTable
  import SelectedCells

  /** The body of one `assignPlantMutation.mutate` call. The server ignores the
      client's date and stamps the row with its own `CURRENT_DATE`. */
  datatype AssignRequest = AssignRequest(x: int, y: int, plantId: int, plantedDate: int)

  /** The requests `selectedCells.forEach` sends for plant p on `today`. */
  function AssignRequests(cells: seq<Coord>, plantId: int, today: int): (reqs: seq<AssignRequest>)
    ensures |reqs| == |cells|
    ensures forall i :: 0 <= i < |cells| ==>
              reqs[i].x == cells[i].x && reqs[i].y == cells[i].y && reqs[i].plantId == plantId && reqs[i].plantedDate == today
  {
    seq(|cells|, i requires 0 <= i < |cells| => AssignRequest(cells[i].x, cells[i].y, plantId, today))
  }

  class TrayGrid {
    const trayId: int
    const enableEditing: bool
    const selection: SelectedCells.CellSelection
    /** `selectedPlant`, with `""` as `None`. */
    var selectedPlant: Option<int>

    constructor (trayId: int, enableEditing: bool)
      ensures this.trayId == trayId && this.enableEditing == enableEditing
      ensures fresh(selection) && selection.selectedCells == [] && selectedPlant == None
    {
      this.trayId := trayId;
      this.enableEditing := enableEditing;
      selection := new SelectedCells.CellSelection();
      selectedPlant := None;
    }

    /** `effectiveToggleCell`: `toggleCell` when editing, a no-op otherwise. */
    method EffectiveToggleCell(cell: Coord)
      modifies selection
      ensures enableEditing ==> selection.selectedCells == SelectedCells.Toggled(old(selection.selectedCells), cell)
      ensures !enableEditing ==> selection.selectedCells == old(selection.selectedCells)
    {
      if enableEditing {
        selection.ToggleCell(cell);
      }
    }

    /** `effectiveIsCellSelected`: no cell reports as selected when editing is off. */
    function EffectiveIsCellSelected(cell: Coord): (b: bool)
      reads selection
      ensures b <==> enableEditing && cell in selection.selectedCells
    {
      if enableEditing then selection.IsCellSelected(cell) else false
    }

    /** `setSelectedPlant`. */
    method SetSelectedPlant(plant: Option<int>)
      modifies this
      ensures selectedPlant == plant
    {
      selectedPlant := plant;
    }

    /** `handleAssignPlant`: with a non-empty selection and a chosen plant, one
        assign per selected cell in selection order, then the selection and the
        chosen plant are cleared; otherwise nothing happens. */
    method HandleAssignPlant(today: int) returns (issued: seq<AssignRequest>)
      modifies this, selection
      ensures old(|selection.selectedCells| > 0 && selectedPlant.Some?) ==>
                && issued == AssignRequests(old(selection.selectedCells), old(selectedPlant).value, today)
                && selection.selectedCells == [] && selectedPlant == None
      ensures !old(|selection.selectedCells| > 0 && selectedPlant.Some?) ==>
                && issued == []
                && selection.selectedCells == old(selection.selectedCells) && selectedPlant == old(selectedPlant)
    {
      issued := [];
      if |selection.selectedCells| > 0 && selectedPlant.Some? {
        var cells := selection.selectedCells;
        var plantId := selectedPlant.value;
        var i := 0;
        while i < |cells|
          invariant 0 <= i <= |cells|
          invariant issued == AssignRequests(cells[..i], plantId, today)
        {
          issued := issued + [AssignRequest(cells[i].x, cells[i].y, plantId, today)];
          i := i + 1;
        }
        assert cells[..i] == cells;
        selection.ClearSelection();
        selectedPlant := None;
      }
    }

    /** `handleResetCells`: with a non-empty selection, one reset per selected
        cell in selection order, then the selection is cleared. */
    method HandleResetCells() returns (issued: seq<Coord>)
      modifies selection
      ensures |old(selection.selectedCells)| > 0 ==> issued == old(selection.selectedCells) && selection.selectedCells == []
      ensures |old(selection.selectedCells)| == 0 ==> issued == [] && selection.selectedCells == []
    {
      issued := [];
      if |selection.selectedCells| > 0 {
        var cells := selection.selectedCells;
        var i := 0;
        while i < |cells|
          invariant 0 <= i <= |cells|
          invariant issued == cells[..i]
        {
          issued := issued + [cells[i]];
          i := i + 1;
        }
        assert cells[..i] == cells;
        selection.ClearSelection();
      }
    }
  }

  // ---------------------------------------------------------------------------
  // The effect of a batch on the server's table, one statement per request in
  // the order sent.

  function Target(trayId: int, x: int, y: int): CellTable.CellKey
  {
    CellTable.CellKey(trayId, x, y)
  }

  /** The table and serial counter after the assigns `reqs` on tray `trayId`. */
  function ApplyAssigns(cells: CellTable.Table, nextId: int, trayId: int, reqs: seq<AssignRequest>, today: int): (CellTable.Table, int)
    decreases |reqs|
  {
    if reqs == [] then (cells, nextId)
    else
      var k := Target(trayId, reqs[0].x, reqs[0].y);
      ApplyAssigns(CellTable.Upserted(cells, nextId, k, Some(reqs[0].plantId), today),
                   CellTable.NextIdAfterUpsert(cells, nextId, k), trayId, reqs[1..], today)
  }

  /** The table after the resets of `coords` on tray `trayId`. */
  function ApplyResets(cells: CellTable.Table, trayId: int, coords: seq<Coord>): CellTable.Table
    decreases |coords|
  {
    if coords == [] then cells
    else ApplyResets(CellTable.ResetAt(cells, Target(trayId, coords[0].x, coords[0].y)), trayId, coords[1..])
  }

  /** A batch of assigns of one plant leaves every targeted cell holding it,
      planted today, adds rows only for the targets, and leaves every other row. */
  lemma {:induction false} ApplyAssignsSpec(cells: CellTable.Table, nextId: int, trayId: int, reqs: seq<AssignRequest>, plantId: int, today: int)
    requires forall i :: 0 <= i < |reqs| ==> reqs[i].plantId == plantId
    ensures var r := ApplyAssigns(cells, nextId, trayId, reqs, today).0;
            && (forall i :: 0 <= i < |reqs| ==>
                  Target(trayId, reqs[i].x, reqs[i].y) in r
                  && r[Target(trayId, reqs[i].x, reqs[i].y)].plantId == Some(plantId)
                  && r[Target(trayId, reqs[i].x, reqs[i].y)].plantedDate == today)
            && (forall k :: k in cells && (forall i :: 0 <= i < |reqs| ==> k != Target(trayId, reqs[i].x, reqs[i].y)) ==>
                  k in r && r[k] == cells[k])
            && (forall k :: k in r ==> k in cells || exists i :: 0 <= i < |reqs| && k == Target(trayId, reqs[i].x, reqs[i].y))
    decreases |reqs|
  {
    if reqs != [] {
      var k := Target(trayId, reqs[0].x, reqs[0].y);
      var c1 := CellTable.Upserted(cells, nextId, k, Some(plantId), today);
      var n1 := CellTable.NextIdAfterUpsert(cells, nextId, k);
      ApplyAssignsSpec(c1, n1, trayId, reqs[1..], plantId, today);
      var r := ApplyAssigns(cells, nextId, trayId, reqs, today).0;
      assert r == ApplyAssigns(c1, n1, trayId, reqs[1..], today).0;
      forall i | 0 <= i < |reqs|
        ensures Target(trayId, reqs[i].x, reqs[i].y) in r
        ensures r[Target(trayId, reqs[i].x, reqs[i].y)].plantId == Some(plantId)
        ensures r[Target(trayId, reqs[i].x, reqs[i].y)].plantedDate == today
      {
        if i > 0 {
          assert reqs[i] == reqs[1..][i - 1];
        } else if exists j :: 0 <= j < |reqs[1..]| && k == Target(trayId, reqs[1..][j].x, reqs[1..][j].y) {
          var j :| 0 <= j < |reqs[1..]| && k == Target(trayId, reqs[1..][j].x, reqs[1..][j].y);
        } else {
          assert k in c1 && c1[k].plantId == Some(plantId) && c1[k].plantedDate == today;
        }
      }
      forall k' | k' in cells && (forall i :: 0 <= i < |reqs| ==> k' != Target(trayId, reqs[i].x, reqs[i].y))
        ensures k' in r && r[k'] == cells[k']
      {
        assert k' != k;
        forall j | 0 <= j < |reqs[1..]| ensures k' != Target(trayId, reqs[1..][j].x, reqs[1..][j].y) {
          assert reqs[1..][j] == reqs[j + 1];
        }
      }
      forall k' | k' in r ensures k' in cells || exists i :: 0 <= i < |reqs| && k' == Target(trayId, reqs[i].x, reqs[i].y) {
        if k' !in c1 {
          var j :| 0 <= j < |reqs[1..]| && k' == Target(trayId, reqs[1..][j].x, reqs[1..][j].y);
          assert reqs[1..][j] == reqs[j + 1];
        } else if k' !in cells {
          assert k' == Target(trayId, reqs[0].x, reqs[0].y);
        }
      }
    }
  }

  /** The assigns `handleAssignPlant` sends for a selection leave every selected
      cell of the tray holding the chosen plant, planted today, and every other
      row as it was. */
  lemma {:induction false} AssignBatchFillsSelection(cells: CellTable.Table, nextId: int, trayId: int, selected: seq<Coord>, plantId: int, clientDay: int, today: int)
    ensures var r := ApplyAssigns(cells, nextId, trayId, AssignRequests(selected, plantId, clientDay), today).0;
            && (forall c :: c in selected ==>
                  Target(trayId, c.x, c.y) in r && r[Target(trayId, c.x, c.y)].plantId == Some(plantId)
                  && r[Target(trayId, c.x, c.y)].plantedDate == today)
            && (forall k :: k in cells && (k.trayId != trayId || Coord(k.x, k.y) !in selected) ==> k in r && r[k] == cells[k])
  {
    var reqs := AssignRequests(selected, plantId, clientDay);
    ApplyAssignsSpec(cells, nextId, trayId, reqs, plantId, today);
    forall c | c in selected
      ensures Target(trayId, c.x, c.y) in ApplyAssigns(cells, nextId, trayId, reqs, today).0
    {
      var i :| 0 <= i < |selected| && selected[i] == c;
      assert Target(trayId, reqs[i].x, reqs[i].y) == Target(trayId, c.x, c.y);
    }
    forall k | k in cells && (k.trayId != trayId || Coord(k.x, k.y) !in selected)
      ensures forall i :: 0 <= i < |reqs| ==> k != Target(trayId, reqs[i].x, reqs[i].y)
    {
      forall i | 0 <= i < |reqs| ensures k != Target(trayId, reqs[i].x, reqs[i].y) {
        assert Coord(reqs[i].x, reqs[i].y) == selected[i];
      }
    }
  }

  /** The resets `handleResetCells` sends keep every row, clear the plant (and
      keep the date) of each stored selected cell, and leave every other row. */
  lemma {:induction false} ResetBatchClearsSelection(cells: CellTable.Table, trayId: int, selected: seq<Coord>)
    ensures var r := ApplyResets(cells, trayId, selected);
            && r.Keys == cells.Keys
            && (forall c :: c in selected && Target(trayId, c.x, c.y) in cells ==>
                  r[Target(trayId, c.x, c.y)] == cells[Target(trayId, c.x, c.y)].(plantId := None))
            && (forall k :: k in cells && (k.trayId != trayId || Coord(k.x, k.y) !in selected) ==> r[k] == cells[k])
    decreases |selected|
  {
    if selected != [] {
      var k := Target(trayId, selected[0].x, selected[0].y);
      var c1 := CellTable.ResetAt(cells, k);
      ResetBatchClearsSelection(c1, trayId, selected[1..]);
      var r := ApplyResets(cells, trayId, selected);
      assert r == ApplyResets(c1, trayId, selected[1..]);
      forall c | c in selected && Target(trayId, c.x, c.y) in cells
        ensures r[Target(trayId, c.x, c.y)] == cells[Target(trayId, c.x, c.y)].(plantId := None)
      {
        var kc := Target(trayId, c.x, c.y);
        if c in selected[1..] {
          assert c1[kc] == cells[kc] || c1[kc] == cells[kc].(plantId := None);
        } else {
          assert c == selected[0];
        }
      }
      forall k' | k' in cells && (k'.trayId != trayId || Coord(k'.x, k'.y) !in selected)
        ensures r[k'] == cells[k']
      {
        assert Coord(k'.x, k'.y) !in selected[1..] || k'.trayId != trayId;
      }
    }
  }
}
