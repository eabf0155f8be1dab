/** The database behind the three server variants: the `trays` and `plants`
    tables keyed by id, and the `tray_cells` table, which has one row per
    occupied coordinate (tray_id, x, y), the key of its `ON CONFLICT` clause.
    Each SQL statement the handlers issue is one method of `Database`; its new
    state is given by a pure function of the old one. `CURRENT_DATE` is the
    parameter `today`, a day number. */
module CellTable {
  import opened Types
  import Seqs

  /** The conflict target (tray_id, x, y). */
  datatype CellKey = CellKey(trayId: int, x: int, y: int)

  /** The other columns of a `tray_cells` row; `plantId` is NULL after a reset. */
  datatype CellRow = CellRow(id: int, plantId: Option<int>, plantedDate: int)

  type Table = map<CellKey, CellRow>

  /** The key of a row as the server sends it. */
  function KeyOf(c: TrayCell): CellKey
  {
    CellKey(c.trayId, c.x, c.y)
  }

  /** `SELECT tray_cells.*` for one row. */
  function AsTrayCell(k: CellKey, row: CellRow): (c: TrayCell)
    ensures KeyOf(c) == k
  {
    TrayCell(row.id, k.trayId, k.x, k.y, row.plantId, Some(row.plantedDate))
  }

  /** `grid` lists the rows of `cells` whose keys are in `keys`, each exactly
      once, in some order (a SELECT without ORDER BY). */
  ghost predicate ListsRows(grid: seq<TrayCell>, cells: Table, keys: set<CellKey>)
  {
    && (forall i :: 0 <= i < |grid| ==>
          KeyOf(grid[i]) in keys && KeyOf(grid[i]) in cells
          && grid[i] == AsTrayCell(KeyOf(grid[i]), cells[KeyOf(grid[i])]))
    && (forall k :: k in keys ==> exists i :: 0 <= i < |grid| && KeyOf(grid[i]) == k)
    && (forall i, j :: 0 <= i < j < |grid| ==> KeyOf(grid[i]) != KeyOf(grid[j]))
  }

  /** `INSERT ... VALUES (t, x, y, p, CURRENT_DATE) ON CONFLICT (tray_id, x, y)
      DO UPDATE SET plant_id = EXCLUDED.plant_id, planted_date = CURRENT_DATE`:
      an existing row keeps its id, a new row takes the next serial value. */
  function Upserted(cells: Table, nextId: int, k: CellKey, plantId: Option<int>, today: int): (r: Table)
    ensures r.Keys == cells.Keys + {k}
    ensures r[k].plantId == plantId && r[k].plantedDate == today
    ensures k in cells ==> r[k].id == cells[k].id
    ensures k !in cells ==> r[k].id == nextId
    ensures forall k' :: k' in cells && k' != k ==> r[k'] == cells[k']
  {
    var id := if k in cells then cells[k].id else nextId;
    cells[k := CellRow(id, plantId, today)]
  }

  /** The serial counter after that statement. */
  function NextIdAfterUpsert(cells: Table, nextId: int, k: CellKey): int
  {
    if k in cells then nextId else nextId + 1
  }

  /** `UPDATE tray_cells SET plant_id = NULL WHERE tray_id = t AND x = x AND y = y`:
      every row stays, and the matching one, if any, loses its plant but keeps
      its id and its date. */
  function ResetAt(cells: Table, k: CellKey): (r: Table)
    ensures r.Keys == cells.Keys
    ensures k in cells ==> r[k] == CellRow(cells[k].id, None, cells[k].plantedDate)
    ensures forall k' :: k' in cells && k' != k ==> r[k'] == cells[k']
  {
    if k in cells then cells[k := cells[k].(plantId := None)] else cells
  }

  /** The number of rows that UPDATE matches. */
  function ResetRowCount(cells: Table, k: CellKey): (n: nat)
    ensures n <= 1
    ensures n == 0 <==> k !in cells
  {
    if k in cells then 1 else 0
  }

  /** `DELETE FROM tray_cells WHERE tray_id = t`: no row of the tray is left,
      and every other tray keeps exactly its rows. */
  function WithoutTray(cells: Table, t: int): (r: Table)
    ensures TrayKeys(r, t) == {}
    ensures forall t' :: t' != t ==> TrayKeys(r, t') == TrayKeys(cells, t')
    ensures forall k :: k in r ==> k in cells && r[k] == cells[k]
  {
    map k | k in cells && k.trayId != t :: cells[k]
  }

  /** `DELETE FROM tray_cells WHERE plant_id = p`: the rows holding the plant go,
      not just the reference to it; a NULL plant_id never compares equal, so
      reset rows stay, and every other row is kept as it was. */
  function WithoutPlant(cells: Table, p: int): (r: Table)
    ensures forall k :: k in r ==> k in cells && r[k] == cells[k] && r[k].plantId != Some(p)
    ensures forall k :: k in cells && cells[k].plantId != Some(p) ==> k in r
    ensures forall k :: k in cells && cells[k].plantId.None? ==> k in r
  {
    map k | k in cells && cells[k].plantId != Some(p) :: cells[k]
  }

  /** `WHERE tray_cells.tray_id = t`. */
  function TrayKeys(cells: Table, t: int): set<CellKey>
  {
    set k | k in cells && k.trayId == t
  }

  /** Row ids are positive, below the serial counter, and identify rows. */
  ghost predicate IdsValid(cells: Table, nextId: int)
  {
    && 0 < nextId
    && (forall k :: k in cells ==> 0 < cells[k].id < nextId)
    && (forall k1, k2 :: k1 in cells && k2 in cells && cells[k1].id == cells[k2].id ==> k1 == k2)
  }

  // ---------------------------------------------------------------------------
  // Properties of the statements.

  /** Repeating the same assign on the same day changes nothing. */
  lemma {:induction false} UpsertIdempotent(cells: Table, nextId: int, k: CellKey, plantId: Option<int>, today: int)
    ensures var r := Upserted(cells, nextId, k, plantId, today);
            && Upserted(r, NextIdAfterUpsert(cells, nextId, k), k, plantId, today) == r
            && NextIdAfterUpsert(r, NextIdAfterUpsert(cells, nextId, k), k) == NextIdAfterUpsert(cells, nextId, k)
  {
    var r := Upserted(cells, nextId, k, plantId, today);
    assert k in r;
    assert r[k := CellRow(r[k].id, plantId, today)] == r;
  }

  /** The assign keeps row ids valid. */
  lemma {:induction false} UpsertKeepsIds(cells: Table, nextId: int, k: CellKey, plantId: Option<int>, today: int)
    requires IdsValid(cells, nextId)
    ensures IdsValid(Upserted(cells, nextId, k, plantId, today), NextIdAfterUpsert(cells, nextId, k))
  {
    var r := Upserted(cells, nextId, k, plantId, today);
    var n := NextIdAfterUpsert(cells, nextId, k);
    forall k1, k2 | k1 in r && k2 in r && r[k1].id == r[k2].id ensures k1 == k2 {
      if k1 != k && k2 != k {
        assert r[k1] == cells[k1] && r[k2] == cells[k2];
      }
    }
  }

  /** A reset keeps row ids valid. */
  lemma ResetKeepsIds(cells: Table, nextId: int, k: CellKey)
    requires IdsValid(cells, nextId)
    ensures IdsValid(ResetAt(cells, k), nextId)
  {
  }

  /** The ids of a table only lose rows when rows are deleted. */
  lemma {:induction false} DeletesKeepIds(cells: Table, nextId: int, t: int, p: int)
    requires IdsValid(cells, nextId)
    ensures IdsValid(WithoutTray(cells, t), nextId)
    ensures IdsValid(WithoutPlant(cells, p), nextId)
  {
    var a, b := WithoutTray(cells, t), WithoutPlant(cells, p);
    forall k1, k2 | k1 in a && k2 in a && a[k1].id == a[k2].id ensures k1 == k2 {
      assert a[k1] == cells[k1] && a[k2] == cells[k2];
    }
    forall k1, k2 | k1 in b && k2 in b && b[k1].id == b[k2].id ensures k1 == k2 {
      assert b[k1] == cells[k1] && b[k2] == cells[k2];
    }
  }

  /** Listing one more stored row keeps the listing exact. */
  lemma {:induction false} ListsRowsExtend(grid: seq<TrayCell>, cells: Table, listed: set<CellKey>, k: CellKey)
    requires ListsRows(grid, cells, listed)
    requires k in cells && k !in listed
    ensures ListsRows(grid + [AsTrayCell(k, cells[k])], cells, listed + {k})
  {
    var g := grid + [AsTrayCell(k, cells[k])];
    assert KeyOf(g[|grid|]) == k;
    forall i | 0 <= i < |grid| ensures g[i] == grid[i] && KeyOf(g[i]) != k {
    }
    forall k' | k' in listed + {k} ensures exists i :: 0 <= i < |g| && KeyOf(g[i]) == k' {
      if k' != k {
        var i :| 0 <= i < |grid| && KeyOf(grid[i]) == k';
        assert g[i] == grid[i];
      }
    }
  }

  /** Lists the rows of `cells` under `keys` one by one, in no particular order. */
  method SelectRows(cells: Table, keys: set<CellKey>) returns (grid: seq<TrayCell>)
    requires keys <= cells.Keys
    ensures |grid| == |keys|
    ensures ListsRows(grid, cells, keys)
  {
    grid := [];
    var rest := keys;
    ghost var listed: set<CellKey> := {};
    while rest != {}
      invariant rest <= keys && listed == keys - rest
      invariant |grid| == |listed|
      invariant ListsRows(grid, cells, listed)
      decreases |rest|
    {
      var k :| k in rest;
      ListsRowsExtend(grid, cells, listed, k);
      grid := grid + [AsTrayCell(k, cells[k])];
      rest := rest - {k};
      listed := listed + {k};
    }
  }

  /** The three tables of one server. */
  class Database {
    var trays: map<int, Tray>
    var plants: map<int, Plant>
    var cells: Table
    /** The `tray_cells.id` serial. */
    var nextId: int

    ghost predicate Valid()
      reads this
    {
      IdsValid(cells, nextId)
    }

    constructor (trays: map<int, Tray>, plants: map<int, Plant>)
      ensures this.trays == trays && this.plants == plants
      ensures cells == map[] && nextId == 1
      ensures Valid()
    {
      this.trays := trays;
      this.plants := plants;
      cells := map[];
      nextId := 1;
    }

    /** The assign upsert. */
    method UpsertCell(k: CellKey, plantId: Option<int>, today: int)
      modifies this
      ensures cells == Upserted(old(cells), old(nextId), k, plantId, today)
      ensures nextId == NextIdAfterUpsert(old(cells), old(nextId), k)
      ensures trays == old(trays) && plants == old(plants)
      ensures old(Valid()) ==> Valid()
    {
      if old(Valid()) {
        UpsertKeepsIds(cells, nextId, k, plantId, today);
      }
      if k in cells {
        cells := cells[k := CellRow(cells[k].id, plantId, today)];
      } else {
        cells := cells[k := CellRow(nextId, plantId, today)];
        nextId := nextId + 1;
      }
    }

    /** The reset UPDATE; returns its row count. */
    method ResetCell(k: CellKey) returns (rowCount: nat)
      modifies this
      ensures cells == ResetAt(old(cells), k)
      ensures rowCount == ResetRowCount(old(cells), k)
      ensures trays == old(trays) && plants == old(plants) && nextId == old(nextId)
      ensures old(Valid()) ==> Valid()
    {
      if k in cells {
        cells := cells[k := cells[k].(plantId := None)];
        rowCount := 1;
      } else {
        rowCount := 0;
      }
    }

    /** `DELETE FROM tray_cells WHERE tray_id = t`. */
    method DeleteCellsOfTray(t: int)
      modifies this
      ensures cells == WithoutTray(old(cells), t)
      ensures trays == old(trays) && plants == old(plants) && nextId == old(nextId)
      ensures old(Valid()) ==> Valid()
    {
      if Valid() {
        DeletesKeepIds(cells, nextId, t, 0);
      }
      cells := map k | k in cells && k.trayId != t :: cells[k];
    }

    /** `DELETE FROM trays WHERE id = t`. */
    method DeleteTrayRow(t: int)
      modifies this
      ensures trays == old(trays) - {t}
      ensures cells == old(cells) && plants == old(plants) && nextId == old(nextId)
    {
      trays := trays - {t};
    }

    /** `DELETE FROM tray_cells WHERE plant_id = p`. */
    method DeleteCellsOfPlant(p: int)
      modifies this
      ensures cells == WithoutPlant(old(cells), p)
      ensures trays == old(trays) && plants == old(plants) && nextId == old(nextId)
      ensures old(Valid()) ==> Valid()
    {
      if Valid() {
        DeletesKeepIds(cells, nextId, 0, p);
      }
      cells := map k | k in cells && cells[k].plantId != Some(p) :: cells[k];
    }

    /** `DELETE FROM plants WHERE id = p`. */
    method DeletePlantRow(p: int)
      modifies this
      ensures plants == old(plants) - {p}
      ensures cells == old(cells) && trays == old(trays) && nextId == old(nextId)
    {
      plants := plants - {p};
    }

    /** `SELECT * FROM trays WHERE id = t`. */
    method SelectTray(t: int) returns (tray: Option<Tray>)
      ensures tray.Some? <==> t in trays
      ensures tray.Some? ==> tray.value == trays[t]
    {
      if t in trays {
        tray := Some(trays[t]);
      } else {
        tray := None;
      }
    }

    /** The rows of tray t (`WHERE tray_cells.tray_id = t`), in no particular order. */
    method SelectCellsOfTray(t: int) returns (grid: seq<TrayCell>)
      ensures ListsRows(grid, cells, TrayKeys(cells, t))
      ensures forall i :: 0 <= i < |grid| ==> grid[i].trayId == t
    {
      grid := SelectRows(cells, TrayKeys(cells, t));
    }
  }
}
