/** The dense view of a tray (src/utils/gridUtils.tsx): the server sends only the
    stored rows of a tray; the client lays them out as `rows` lists of `columns`
    entries, fills the gaps with placeholders, and turns the result upside down so
    that y = 0 is drawn at the bottom. */
module GridUtils {
  import opened Types
  import Seqs

  predicate At(c: TrayCell, x: int, y: int)
  {
    c.x == x && c.y == y
  }

  /** Where `grid.find` stops looking for (x, y): the first stored row there,
      or |grid| when there is none. */
  function FirstAt(grid: seq<TrayCell>, x: int, y: int): (i: nat)
    ensures i <= |grid|
    ensures i < |grid| ==> At(grid[i], x, y)
    ensures forall j :: 0 <= j < i ==> !At(grid[j], x, y)
    decreases |grid|
  {
    if grid == [] then 0
    else if At(grid[0], x, y) then 0
    else 1 + FirstAt(grid[1..], x, y)
  }

  /** The entry drawn for a coordinate nobody has planted. */
  function Placeholder(tray: Tray, x: int, y: int): TrayCell
  {
    TrayCell(0, tray.id, x, y, None, None)
  }

  /** The first stored row at (x, y), or the placeholder. */
  function CellAt(tray: Tray, grid: seq<TrayCell>, x: int, y: int): TrayCell
  {
    var i := FirstAt(grid, x, y);
    if i < |grid| then grid[i] else Placeholder(tray, x, y)
  }

  /** The index of the plant a `Map` built from `plants` holds under `id`: a Map
      built from entries keeps the last one per key. -1 when there is none. */
  function LastWithId(plants: seq<Plant>, id: int): (i: int)
    ensures -1 <= i < |plants|
    ensures i >= 0 ==> plants[i].id == id
    ensures forall j :: i < j < |plants| ==> plants[j].id != id
    decreases |plants|
  {
    if plants == [] then -1
    else if plants[|plants| - 1].id == id then |plants| - 1
    else LastWithId(plants[..|plants| - 1], id)
  }

  /** `i` indexes the last plant whose id is `id`. */
  predicate IsLastWithId(plants: seq<Plant>, i: int, id: int)
  {
    0 <= i < |plants| && plants[i].id == id && forall j :: i < j < |plants| ==> plants[j].id != id
  }

  /** `plantMap.get(id)`: defined iff some plant has the id, and then the last
      such plant, since later entries overwrite earlier ones. */
  function LookupPlant(plants: seq<Plant>, id: int): (p: Option<Plant>)
    ensures p.Some? <==> exists i :: 0 <= i < |plants| && plants[i].id == id
    ensures forall i :: IsLastWithId(plants, i, id) ==> p == Some(plants[i])
  {
    var i := LastWithId(plants, id);
    if i >= 0 then Some(plants[i]) else None
  }

  /** `s || null`: the empty string is falsy. */
  function OrNull(s: string): Option<string>
  {
    if s == "" then None else Some(s)
  }

  /** `cell.plant_id ? plantMap.get(cell.plant_id)?.name || null : null`; a plant
      id of 0 is falsy. The name shown is that of the last plant with the id, and
      there is none when that plant's name is empty. */
  function PlantNameOf(plantId: Option<int>, plants: seq<Plant>): (n: Option<string>)
    ensures n.Some? <==>
              plantId.Some? && plantId.value != 0
              && exists i :: IsLastWithId(plants, i, plantId.value) && plants[i].name != ""
    ensures forall i :: n.Some? && IsLastWithId(plants, i, plantId.value) ==> n.value == plants[i].name
  {
    if plantId.Some? && plantId.value != 0 then
      match LookupPlant(plants, plantId.value)
      case Some(p) => OrNull(p.name)
      case None => None
    else None
  }

  /** `cell.plant_id ? plantMap.get(cell.plant_id)?.variety || null : null`: the
      variety of the last plant with the id, when it is not empty. */
  function VarietyOf(plantId: Option<int>, plants: seq<Plant>): (v: Option<string>)
    ensures v.Some? <==>
              plantId.Some? && plantId.value != 0
              && exists i :: IsLastWithId(plants, i, plantId.value) && plants[i].variety != ""
    ensures forall i :: v.Some? && IsLastWithId(plants, i, plantId.value) ==> v.value == plants[i].variety
  {
    if plantId.Some? && plantId.value != 0 then
      match LookupPlant(plants, plantId.value)
      case Some(p) => OrNull(p.variety)
      case None => None
    else None
  }

  function Enrich(cell: TrayCell, plants: seq<Plant>): DisplayCell
  {
    DisplayCell(cell, PlantNameOf(cell.plantId, plants), VarietyOf(cell.plantId, plants))
  }

  /** `buildGrid`: row index = y, column index = x. */
  function BuildGrid(tray: Tray, grid: seq<TrayCell>, plants: seq<Plant>): (g: seq<seq<DisplayCell>>)
    ensures |g| == Count(tray.rows)
    ensures forall r :: 0 <= r < |g| ==> |g[r]| == Count(tray.columns)
    ensures forall r, c :: 0 <= r < |g| && 0 <= c < |g[r]| ==> g[r][c].cell.x == c && g[r][c].cell.y == r
  {
    seq(Count(tray.rows), r =>
      seq(Count(tray.columns), c => Enrich(CellAt(tray, grid, c, r), plants)))
  }

  /** The entry at [r][c] is the first stored row at (c, r) if there is one, and
      otherwise a placeholder of this tray with no plant and no date. */
  lemma BuildGridEntry(tray: Tray, grid: seq<TrayCell>, plants: seq<Plant>, r: nat, c: nat)
    requires r < Count(tray.rows) && c < Count(tray.columns)
    ensures var e := BuildGrid(tray, grid, plants)[r][c].cell;
            || (exists i :: 0 <= i < |grid| && e == grid[i] && At(grid[i], c, r)
                  && forall j :: 0 <= j < i ==> !At(grid[j], c, r))
            || ((forall j :: 0 <= j < |grid| ==> !At(grid[j], c, r))
                  && e == TrayCell(0, tray.id, c, r, None, None))
  {
    var i := FirstAt(grid, c, r);
    if i < |grid| {
      assert BuildGrid(tray, grid, plants)[r][c].cell == grid[i];
    }
  }

  /** The name and the variety shown in an entry come from one plant: the last
      plant carrying the entry's (truthy) plant id, each shown only when it is
      not empty. */
  lemma {:induction false} EnrichmentSource(tray: Tray, grid: seq<TrayCell>, plants: seq<Plant>, r: nat, c: nat)
    requires r < Count(tray.rows) && c < Count(tray.columns)
    ensures var e := BuildGrid(tray, grid, plants)[r][c];
            (e.plantName.Some? || e.variety.Some?) ==>
              && e.cell.plantId.Some? && e.cell.plantId.value != 0
              && exists i :: IsLastWithId(plants, i, e.cell.plantId.value)
                             && e.plantName == OrNull(plants[i].name)
                             && e.variety == OrNull(plants[i].variety)
  {
    var e := BuildGrid(tray, grid, plants)[r][c];
    var pid := e.cell.plantId;
    assert e == Enrich(CellAt(tray, grid, c, r), plants);
    if pid.Some? && pid.value != 0 {
      var i := LastWithId(plants, pid.value);
      if i >= 0 {
        assert IsLastWithId(plants, i, pid.value);
        assert LookupPlant(plants, pid.value) == Some(plants[i]);
      }
    }
  }

  /** `formatGrid`: the rows in the opposite order, so display row 0 is the top. */
  function FormatGrid(rawGrid: seq<seq<DisplayCell>>): (shown: seq<seq<DisplayCell>>)
    ensures |shown| == |rawGrid|
    ensures forall d :: 0 <= d < |rawGrid| ==> shown[d] == rawGrid[|rawGrid| - 1 - d]
  {
    Seqs.Reverse(rawGrid)
  }

  /** Formatting twice restores the input. */
  lemma FormatGridSpec(rawGrid: seq<seq<DisplayCell>>)
    ensures FormatGrid(FormatGrid(rawGrid)) == rawGrid
  {
    Seqs.ReverseInvolution(rawGrid);
  }

  /** The coordinates of display row d (what `getRowCells` returns). */
  function RowCells(tray: Tray, displayRowIndex: int): seq<Coord>
  {
    seq(Count(tray.columns), x => Coord(x, tray.rows - 1 - displayRowIndex))
  }

  /** The coordinates of column c (what `getColumnCells` returns). */
  function ColumnCells(tray: Tray, colIndex: int): seq<Coord>
  {
    seq(Count(tray.rows), y => Coord(colIndex, y))
  }

  /** `getRowCells`: x runs over 0 .. columns-1 in increasing order at the
      y that display row d shows. */
  method GetRowCells(tray: Tray, displayRowIndex: int) returns (rowCells: seq<Coord>)
    ensures |rowCells| == Count(tray.columns)
    ensures forall i :: 0 <= i < |rowCells| ==> rowCells[i] == Coord(i, tray.rows - 1 - displayRowIndex)
    ensures rowCells == RowCells(tray, displayRowIndex)
  {
    var targetY := tray.rows - 1 - displayRowIndex;
    rowCells := [];
    var x := 0;
    while x < tray.columns
      invariant 0 <= x <= Count(tray.columns)
      invariant |rowCells| == x
      invariant forall i :: 0 <= i < x ==> rowCells[i] == Coord(i, targetY)
    {
      rowCells := rowCells + [Coord(x, targetY)];
      x := x + 1;
    }
  }

  /** `getColumnCells`: y runs over 0 .. rows-1 in increasing order at x = colIndex. */
  method GetColumnCells(tray: Tray, colIndex: int) returns (colCells: seq<Coord>)
    ensures |colCells| == Count(tray.rows)
    ensures forall i :: 0 <= i < |colCells| ==> colCells[i] == Coord(colIndex, i)
    ensures colCells == ColumnCells(tray, colIndex)
  {
    colCells := [];
    var y := 0;
    while y < tray.rows
      invariant 0 <= y <= Count(tray.rows)
      invariant |colCells| == y
      invariant forall i :: 0 <= i < y ==> colCells[i] == Coord(colIndex, i)
    {
      colCells := colCells + [Coord(colIndex, y)];
      y := y + 1;
    }
  }

  /** The coordinates `getRowCells(tray, d)` selects are exactly those drawn in
      display row d of `formatGrid(buildGrid(...))`, column by column. */
  lemma {:induction false} RowCellsMatchDisplayRow(tray: Tray, grid: seq<TrayCell>, plants: seq<Plant>, d: nat)
    requires d < Count(tray.rows)
    ensures var shown := FormatGrid(BuildGrid(tray, grid, plants))[d];
            |shown| == |RowCells(tray, d)|
            && forall x :: 0 <= x < |shown| ==>
                 shown[x].cell.x == RowCells(tray, d)[x].x && shown[x].cell.y == RowCells(tray, d)[x].y
  {
    var raw := BuildGrid(tray, grid, plants);
    var row := raw[|raw| - 1 - d];
    assert FormatGrid(raw)[d] == row;
    forall x | 0 <= x < |row|
      ensures row[x].cell.x == RowCells(tray, d)[x].x && row[x].cell.y == RowCells(tray, d)[x].y
    {
    }
  }

  /** Column c of the display holds the coordinates `getColumnCells(tray, c)`
      returns, read from the top (display row d shows y = rows - 1 - d). */
  lemma {:induction false} ColumnCellsMatchDisplay(tray: Tray, grid: seq<TrayCell>, plants: seq<Plant>, c: nat)
    requires c < Count(tray.columns)
    ensures var shown := FormatGrid(BuildGrid(tray, grid, plants));
            |shown| == |ColumnCells(tray, c)|
            && forall d :: 0 <= d < |shown| ==>
                 shown[d][c].cell.x == ColumnCells(tray, c)[|shown| - 1 - d].x
                 && shown[d][c].cell.y == ColumnCells(tray, c)[|shown| - 1 - d].y
  {
    var raw := BuildGrid(tray, grid, plants);
    assert |FormatGrid(raw)| == |raw|;
  }
}
