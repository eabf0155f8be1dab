/** The cell, delete, grid and calendar routes of the three servers: the Express
    server in TypeScript (src/server/express/server.ts) and the older Postgres
    (seed-planner-api/server.js) and SQLite (seed-planner-api/server-sqllite.js)
    servers. They issue the same SQL; they differ in whether an assign checks its
    plant id, whether a reset that matched nothing is reported, and how the
    calendar dates are derived. A handler returns its HTTP status; the response
    bodies are the out-parameters. */
module ServerHandlers {
  import opened Types
  import CellTable
  import Calendar

  datatype Status = Success | BadRequest | NotFound

  /** `POST /trays/:trayId/cells` in server.ts and server.js: the upsert, with
      neither the plant id nor the coordinates checked. */
  method AssignCell(db: CellTable.Database, trayId: int, x: int, y: int, plantId: Option<int>, today: int) returns (status: Status)
    modifies db
    ensures status == Success
    ensures db.cells == CellTable.Upserted(old(db.cells), old(db.nextId), CellTable.CellKey(trayId, x, y), plantId, today)
    ensures db.nextId == CellTable.NextIdAfterUpsert(old(db.cells), old(db.nextId), CellTable.CellKey(trayId, x, y))
    ensures db.trays == old(db.trays) && db.plants == old(db.plants)
    ensures old(db.Valid()) ==> db.Valid()
  {
    db.UpsertCell(CellTable.CellKey(trayId, x, y), plantId, today);
    status := Success;
  }

  /** `!plant_id`: a missing, null or zero plant id. */
  predicate IsFalsyId(plantId: Option<int>)
  {
    plantId.None? || plantId.value == 0
  }

  /** `POST /trays/:trayId/cells` in server-sqllite.js: a falsy plant id is
      refused with 400 before anything is written; otherwise the same upsert. */
  method AssignCellChecked(db: CellTable.Database, trayId: int, x: int, y: int, plantId: Option<int>, today: int) returns (status: Status)
    modifies db
    ensures status == BadRequest <==> IsFalsyId(plantId)
    ensures status != BadRequest ==> status == Success
    ensures IsFalsyId(plantId) ==> db.cells == old(db.cells) && db.nextId == old(db.nextId)
    ensures !IsFalsyId(plantId) ==>
              && db.cells == CellTable.Upserted(old(db.cells), old(db.nextId), CellTable.CellKey(trayId, x, y), plantId, today)
              && db.nextId == CellTable.NextIdAfterUpsert(old(db.cells), old(db.nextId), CellTable.CellKey(trayId, x, y))
    ensures db.trays == old(db.trays) && db.plants == old(db.plants)
    ensures old(db.Valid()) ==> db.Valid()
  {
    if IsFalsyId(plantId) {
      return BadRequest;
    }
    db.UpsertCell(CellTable.CellKey(trayId, x, y), plantId, today);
    status := Success;
  }

  /** `PUT /trays/:trayId/cells/reset` in server.ts: 404 exactly when the UPDATE
      matched no row. A row whose plant is already NULL still matches. */
  method ResetCellReporting(db: CellTable.Database, trayId: int, x: int, y: int) returns (status: Status)
    modifies db
    ensures db.cells == CellTable.ResetAt(old(db.cells), CellTable.CellKey(trayId, x, y))
    ensures status == NotFound <==> CellTable.CellKey(trayId, x, y) !in old(db.cells)
    ensures status != NotFound ==> status == Success
    ensures db.trays == old(db.trays) && db.plants == old(db.plants) && db.nextId == old(db.nextId)
    ensures old(db.Valid()) ==> db.Valid()
  {
    var rowCount := db.ResetCell(CellTable.CellKey(trayId, x, y));
    if rowCount == 0 {
      status := NotFound;
    } else {
      status := Success;
    }
  }

  /** `PUT /trays/:trayId/cells/reset` in server.js and server-sqllite.js: the
      same UPDATE, reported as a success whether or not a row matched. */
  method ResetCellSilently(db: CellTable.Database, trayId: int, x: int, y: int) returns (status: Status)
    modifies db
    ensures db.cells == CellTable.ResetAt(old(db.cells), CellTable.CellKey(trayId, x, y))
    ensures status == Success
    ensures db.trays == old(db.trays) && db.plants == old(db.plants) && db.nextId == old(db.nextId)
    ensures old(db.Valid()) ==> db.Valid()
  {
    var _ := db.ResetCell(CellTable.CellKey(trayId, x, y));
    status := Success;
  }

  /** `DELETE /trays/:trayId` in all three servers: the tray's cells first, then
      the tray. */
  method DeleteTray(db: CellTable.Database, trayId: int) returns (status: Status)
    modifies db
    ensures status == Success
    ensures db.cells == CellTable.WithoutTray(old(db.cells), trayId)
    ensures db.trays == old(db.trays) - {trayId}
    ensures db.plants == old(db.plants) && db.nextId == old(db.nextId)
    ensures old(db.Valid()) ==> db.Valid()
  {
    db.DeleteCellsOfTray(trayId);
    db.DeleteTrayRow(trayId);
    status := Success;
  }

  /** `DELETE /plants/:plantId` in all three servers: the cells holding the plant
      are deleted, then the plant. */
  method DeletePlant(db: CellTable.Database, plantId: int) returns (status: Status)
    modifies db
    ensures status == Success
    ensures db.cells == CellTable.WithoutPlant(old(db.cells), plantId)
    ensures db.plants == old(db.plants) - {plantId}
    ensures db.trays == old(db.trays) && db.nextId == old(db.nextId)
    ensures old(db.Valid()) ==> db.Valid()
  {
    db.DeleteCellsOfPlant(plantId);
    db.DeletePlantRow(plantId);
    status := Success;
  }

  /** `GET /trays/:trayId/grid` in all three servers: 404 when the tray is not
      stored, and otherwise the tray with exactly its stored cell rows (a sparse
      list: coordinates nobody planted are absent). */
  method GetTrayGrid(db: CellTable.Database, trayId: int) returns (status: Status, tray: Option<Tray>, grid: seq<TrayCell>)
    ensures status == NotFound <==> trayId !in db.trays
    ensures status == NotFound ==> tray == None && grid == []
    ensures status != NotFound ==>
              && status == Success
              && tray == Some(db.trays[trayId])
              && CellTable.ListsRows(grid, db.cells, CellTable.TrayKeys(db.cells, trayId))
  {
    tray := db.SelectTray(trayId);
    if tray.None? {
      return NotFound, None, [];
    }
    grid := db.SelectCellsOfTray(trayId);
    status := Success;
  }

  /** `GET /calendar` in server.ts and server.js: one event per cell row whose
      tray and plant are stored, with both derived dates equal to the planted day. */
  method GetCalendarAliased(db: CellTable.Database) returns (events: seq<SeedingEvent>)
    ensures exists rows: seq<TrayCell> ::
              && CellTable.ListsRows(rows, db.cells, Calendar.JoinedKeys(db.cells, db.trays, db.plants))
              && (forall i :: 0 <= i < |rows| ==> Calendar.Joinable(rows[i], db.trays, db.plants))
              && events == Calendar.AliasedCalendar(rows, db.trays, db.plants)
  {
    var rows := CellTable.SelectRows(db.cells, Calendar.JoinedKeys(db.cells, db.trays, db.plants));
    Calendar.JoinedRowsJoinable(rows, db.cells, db.trays, db.plants);
    events := Calendar.AliasedCalendar(rows, db.trays, db.plants);
  }

  /** The corrected `GET /calendar` of server.ts and server.js: the same join,
      with each derived date its offset after the planted day, as the route's
      documentation describes. */
  method GetCalendarIntended(db: CellTable.Database) returns (events: seq<SeedingEvent>)
    ensures exists rows: seq<TrayCell> ::
              && CellTable.ListsRows(rows, db.cells, Calendar.JoinedKeys(db.cells, db.trays, db.plants))
              && (forall i :: 0 <= i < |rows| ==> Calendar.Joinable(rows[i], db.trays, db.plants))
              && events == Calendar.IntendedCalendar(rows, db.trays, db.plants)
  {
    var rows := CellTable.SelectRows(db.cells, Calendar.JoinedKeys(db.cells, db.trays, db.plants));
    Calendar.JoinedRowsJoinable(rows, db.cells, db.trays, db.plants);
    events := Calendar.IntendedCalendar(rows, db.trays, db.plants);
  }

  /** `GET /calendar` in server-sqllite.js: one event per cell row whose plant is
      stored, named after its tray id, with each derived date the planted day plus
      its offset. */
  method GetCalendarSqlite(db: CellTable.Database) returns (events: seq<SeedingEvent>)
    ensures exists rows: seq<TrayCell> ::
              && CellTable.ListsRows(rows, db.cells, Calendar.PlantJoinedKeys(db.cells, db.plants))
              && (forall i :: 0 <= i < |rows| ==> Calendar.HasPlant(rows[i], db.plants))
              && events == Calendar.SqliteCalendar(rows, db.plants)
  {
    var rows := CellTable.SelectRows(db.cells, Calendar.PlantJoinedKeys(db.cells, db.plants));
    Calendar.PlantJoinedRowsHavePlant(rows, db.cells, db.plants);
    events := Calendar.SqliteCalendar(rows, db.plants);
  }
}
