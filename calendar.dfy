/** The seeding calendar the servers derive from `tray_cells`: one event per row
    that joins a plant (and, for the Postgres servers, a tray), carrying the
    planted day and the germination and harvest days derived from it. */
module Calendar {
  import opened Types
  import Js
  import CellTable

  /** The keys the Postgres query `FROM tray_cells tc JOIN trays t ON tc.tray_id
      = t.id JOIN plants p ON tc.plant_id = p.id` yields; a NULL plant_id joins
      nothing. */
  function JoinedKeys(cells: CellTable.Table, trays: map<int, Tray>, plants: map<int, Plant>): set<CellTable.CellKey>
  {
    set k | k in cells && k.trayId in trays && cells[k].plantId.Some? && cells[k].plantId.value in plants
  }

  /** The keys the SQLite query `FROM tray_cells JOIN plants ON tray_cells.plant_id
      = plants.id` yields: trays are not joined. */
  function PlantJoinedKeys(cells: CellTable.Table, plants: map<int, Plant>): set<CellTable.CellKey>
  {
    set k | k in cells && cells[k].plantId.Some? && cells[k].plantId.value in plants
  }

  /** A selected row whose plant is stored. */
  predicate HasPlant(c: TrayCell, plants: map<int, Plant>)
  {
    c.plantId.Some? && c.plantId.value in plants && c.plantedDate.Some?
  }

  /** A selected row whose tray and plant are both stored. */
  predicate Joinable(c: TrayCell, trays: map<int, Tray>, plants: map<int, Plant>)
  {
    c.trayId in trays && HasPlant(c, plants)
  }

  // ---------------------------------------------------------------------------
  // One event per joined row.

  /** The Postgres servers as written: both derived dates are
      `new Date(row.planted_date)` again, the planted day itself, whatever the
      plant's offsets. */
  function AliasedEvent(trayName: string, plant: Plant, planted: int): (e: SeedingEvent)
    ensures e.plantName == plant.name && e.trayName == trayName && e.plantedDate == Some(planted)
    ensures e.germinationDate == e.plantedDate && e.harvestDate == e.plantedDate
  {
    SeedingEvent(plant.name, trayName, Some(planted), Some(planted), Some(planted))
  }

  /** `date.setDate(date.getDate() + offset)` with a NULL column: `n + null` is
      `n`, so a missing offset adds nothing. */
  function OffsetOrZero(offset: Option<int>): int
  {
    if offset.Some? then offset.value else 0
  }

  /** The SQLite server as written: the tray is named "Tray " and its id, and
      each derived day is the planted day plus its own offset, independently of
      the other, a NULL offset giving the planted day itself. */
  function SqliteEvent(trayId: int, plant: Plant, planted: int): (e: SeedingEvent)
    ensures e.plantName == plant.name && e.plantedDate == Some(planted)
    ensures |e.trayName| > 5 && e.trayName[..5] == "Tray " && e.trayName[5..] == Js.DecimalString(trayId)
    ensures e.germinationDate.Some? && e.harvestDate.Some?
    ensures plant.daysToGerminate.Some? ==> e.germinationDate.value == planted + plant.daysToGerminate.value
    ensures plant.daysToGerminate.None? ==> e.germinationDate.value == planted
    ensures plant.daysToHarvest.Some? ==> e.harvestDate.value == planted + plant.daysToHarvest.value
    ensures plant.daysToHarvest.None? ==> e.harvestDate.value == planted
  {
    SeedingEvent(plant.name, "Tray " + Js.DecimalString(trayId), Some(planted),
                 Some(planted + OffsetOrZero(plant.daysToGerminate)),
                 Some(planted + OffsetOrZero(plant.daysToHarvest)))
  }

  /** What the calendar is meant to carry: each derived date is present exactly
      when the plant has that offset, and then lies that many days after
      planting, independently of the other offset (both date fields are
      optional in `SeedingEvent`). */
  function IntendedEvent(trayName: string, plant: Plant, planted: int): (e: SeedingEvent)
    ensures e.plantName == plant.name && e.trayName == trayName && e.plantedDate == Some(planted)
    ensures e.germinationDate.Some? <==> plant.daysToGerminate.Some?
    ensures e.harvestDate.Some? <==> plant.daysToHarvest.Some?
    ensures e.germinationDate.Some? ==> e.germinationDate.value - planted == plant.daysToGerminate.value
    ensures e.harvestDate.Some? ==> e.harvestDate.value - planted == plant.daysToHarvest.value
  {
    SeedingEvent(plant.name, trayName, Some(planted),
                 if plant.daysToGerminate.Some? then Some(planted + plant.daysToGerminate.value) else None,
                 if plant.daysToHarvest.Some? then Some(planted + plant.daysToHarvest.value) else None)
  }

  /** The intended event and the SQLite one agree exactly when the plant has
      both offsets stored. */
  lemma IntendedAgreesWithSqlite(trayId: int, plant: Plant, planted: int)
    ensures var s := SqliteEvent(trayId, plant, planted);
            IntendedEvent(s.trayName, plant, planted) == s
            <==> plant.daysToGerminate.Some? && plant.daysToHarvest.Some?
  {
  }

  /** As written, the Postgres calendar ignores the offsets it selects: a plant
      that germinates in 7 days and is harvested in 60, planted on day 100, is
      listed as germinating and being harvested on day 100. */
  lemma AliasedEventIgnoresOffsets()
    ensures var plant := Plant(1, 1, "Tomato", "Roma", Some(7), Some(60));
            var e := AliasedEvent("Tray A", plant, 100);
            && e.germinationDate == Some(100) && e.harvestDate == Some(100)
            && IntendedEvent("Tray A", plant, 100).germinationDate == Some(107)
            && IntendedEvent("Tray A", plant, 100).harvestDate == Some(160)
  {
  }

  /** For every plant, the aliased event matches the intended one only when both
      offsets are stored as 0. */
  lemma AliasedEventDates(trayName: string, plant: Plant, planted: int)
    ensures AliasedEvent(trayName, plant, planted) == IntendedEvent(trayName, plant, planted)
            <==> plant.daysToGerminate == Some(0) && plant.daysToHarvest == Some(0)
  {
  }

  /** As written, the SQLite calendar dates a plant without offsets as germinating
      and being harvested on the day it was planted. */
  lemma SqliteNullOffsetIsPlantedDay()
    ensures var plant := Plant(2, 1, "Basil", "Genovese", None, None);
            var e := SqliteEvent(3, plant, 200);
            && e.germinationDate == Some(200) && e.harvestDate == Some(200)
            && IntendedEvent(e.trayName, plant, 200).germinationDate == None
            && IntendedEvent(e.trayName, plant, 200).harvestDate == None
  {
  }

  // ---------------------------------------------------------------------------
  // The `map` over the selected rows.

  /** `result.rows.map(...)` in the Postgres servers. */
  function AliasedCalendar(rows: seq<TrayCell>, trays: map<int, Tray>, plants: map<int, Plant>): (events: seq<SeedingEvent>)
    requires forall i :: 0 <= i < |rows| ==> Joinable(rows[i], trays, plants)
    ensures |events| == |rows|
    ensures forall i :: 0 <= i < |rows| ==>
              && Joinable(rows[i], trays, plants)
              && events[i].plantName == plants[rows[i].plantId.value].name
              && events[i].trayName == trays[rows[i].trayId].name
              && events[i].plantedDate == rows[i].plantedDate
              && events[i].germinationDate == rows[i].plantedDate
              && events[i].harvestDate == rows[i].plantedDate
  {
    seq(|rows|, i requires 0 <= i < |rows| && Joinable(rows[i], trays, plants) =>
      AliasedEvent(trays[rows[i].trayId].name, plants[rows[i].plantId.value], rows[i].plantedDate.value))
  }

  /** `events.map(...)` in the SQLite server. */
  function SqliteCalendar(rows: seq<TrayCell>, plants: map<int, Plant>): (events: seq<SeedingEvent>)
    requires forall i :: 0 <= i < |rows| ==> HasPlant(rows[i], plants)
    ensures |events| == |rows|
    ensures forall i :: 0 <= i < |rows| ==>
              && HasPlant(rows[i], plants)
              && events[i].plantName == plants[rows[i].plantId.value].name
              && events[i].trayName == "Tray " + Js.DecimalString(rows[i].trayId)
              && events[i].plantedDate == rows[i].plantedDate
              && events[i].germinationDate == Some(rows[i].plantedDate.value + OffsetOrZero(plants[rows[i].plantId.value].daysToGerminate))
              && events[i].harvestDate == Some(rows[i].plantedDate.value + OffsetOrZero(plants[rows[i].plantId.value].daysToHarvest))
  {
    seq(|rows|, i requires 0 <= i < |rows| && HasPlant(rows[i], plants) =>
      SqliteEvent(rows[i].trayId, plants[rows[i].plantId.value], rows[i].plantedDate.value))
  }

  /** The calendar the Postgres servers are meant to produce from the same join:
      each derived date lies its plant's offset after planting, and is absent
      when the plant has no such offset. */
  function IntendedCalendar(rows: seq<TrayCell>, trays: map<int, Tray>, plants: map<int, Plant>): (events: seq<SeedingEvent>)
    requires forall i :: 0 <= i < |rows| ==> Joinable(rows[i], trays, plants)
    ensures |events| == |rows|
    ensures forall i :: 0 <= i < |rows| ==>
              && Joinable(rows[i], trays, plants)
              && var plant := plants[rows[i].plantId.value];
                 && events[i].plantName == plant.name
                 && events[i].trayName == trays[rows[i].trayId].name
                 && events[i].plantedDate == rows[i].plantedDate
                 && (events[i].germinationDate.Some? <==> plant.daysToGerminate.Some?)
                 && (events[i].harvestDate.Some? <==> plant.daysToHarvest.Some?)
                 && (plant.daysToGerminate.Some? ==>
                       events[i].germinationDate.value == rows[i].plantedDate.value + plant.daysToGerminate.value)
                 && (plant.daysToHarvest.Some? ==>
                       events[i].harvestDate.value == rows[i].plantedDate.value + plant.daysToHarvest.value)
  {
    seq(|rows|, i requires 0 <= i < |rows| && Joinable(rows[i], trays, plants) =>
      IntendedEvent(trays[rows[i].trayId].name, plants[rows[i].plantId.value], rows[i].plantedDate.value))
  }

  /** Every row the Postgres join lists can be mapped. */
  lemma JoinedRowsJoinable(rows: seq<TrayCell>, cells: CellTable.Table, trays: map<int, Tray>, plants: map<int, Plant>)
    requires CellTable.ListsRows(rows, cells, JoinedKeys(cells, trays, plants))
    ensures forall i :: 0 <= i < |rows| ==>
              && Joinable(rows[i], trays, plants)
  {
    forall i | 0 <= i < |rows| ensures Joinable(rows[i], trays, plants) {
      assert CellTable.KeyOf(rows[i]) in JoinedKeys(cells, trays, plants);
    }
  }

  /** Every row the SQLite join lists can be mapped. */
  lemma PlantJoinedRowsHavePlant(rows: seq<TrayCell>, cells: CellTable.Table, plants: map<int, Plant>)
    requires CellTable.ListsRows(rows, cells, PlantJoinedKeys(cells, plants))
    ensures forall i :: 0 <= i < |rows| ==>
              && HasPlant(rows[i], plants)
  {
    forall i | 0 <= i < |rows| ensures HasPlant(rows[i], plants) {
      assert CellTable.KeyOf(rows[i]) in PlantJoinedKeys(cells, plants);
    }
  }

  // ---------------------------------------------------------------------------
  // How the statements change the calendar.

  /** A reset takes its cell off the calendar and leaves every other entry. */
  lemma {:induction false} ResetLeavesCalendar(cells: CellTable.Table, trays: map<int, Tray>, plants: map<int, Plant>, k: CellTable.CellKey)
    ensures JoinedKeys(CellTable.ResetAt(cells, k), trays, plants) == JoinedKeys(cells, trays, plants) - {k}
    ensures PlantJoinedKeys(CellTable.ResetAt(cells, k), plants) == PlantJoinedKeys(cells, plants) - {k}
  {
    var r := CellTable.ResetAt(cells, k);
    forall k' | k' in JoinedKeys(cells, trays, plants) - {k} ensures k' in JoinedKeys(r, trays, plants) {
      assert r[k'] == cells[k'];
    }
    forall k' | k' in PlantJoinedKeys(cells, plants) - {k} ensures k' in PlantJoinedKeys(r, plants) {
      assert r[k'] == cells[k'];
    }
  }

  /** After a plant is deleted with its cells, no entry refers to it and every
      entry of another plant is still there. */
  lemma {:induction false} PlantDeleteLeavesCalendar(cells: CellTable.Table, trays: map<int, Tray>, plants: map<int, Plant>, p: int)
    ensures JoinedKeys(CellTable.WithoutPlant(cells, p), trays, plants - {p})
            == set k | k in JoinedKeys(cells, trays, plants) && cells[k].plantId != Some(p)
    ensures PlantJoinedKeys(CellTable.WithoutPlant(cells, p), plants - {p})
            == set k | k in PlantJoinedKeys(cells, plants) && cells[k].plantId != Some(p)
  {
    var r := CellTable.WithoutPlant(cells, p);
    forall k | k in JoinedKeys(cells, trays, plants) && cells[k].plantId != Some(p) ensures k in JoinedKeys(r, trays, plants - {p}) {
      assert k in r;
    }
    forall k | k in PlantJoinedKeys(cells, plants) && cells[k].plantId != Some(p) ensures k in PlantJoinedKeys(r, plants - {p}) {
      assert k in r;
    }
  }

  /** After a tray is deleted with its cells, no entry is in it and every entry of
      another tray is still there. */
  lemma {:induction false} TrayDeleteLeavesCalendar(cells: CellTable.Table, trays: map<int, Tray>, plants: map<int, Plant>, t: int)
    ensures JoinedKeys(CellTable.WithoutTray(cells, t), trays - {t}, plants)
            == set k | k in JoinedKeys(cells, trays, plants) && k.trayId != t
    ensures PlantJoinedKeys(CellTable.WithoutTray(cells, t), plants)
            == set k | k in PlantJoinedKeys(cells, plants) && k.trayId != t
  {
    var r := CellTable.WithoutTray(cells, t);
    forall k | k in JoinedKeys(cells, trays, plants) && k.trayId != t ensures k in JoinedKeys(r, trays - {t}, plants) {
      assert k in r;
    }
    forall k | k in PlantJoinedKeys(cells, plants) && k.trayId != t ensures k in PlantJoinedKeys(r, plants) {
      assert k in r;
    }
  }
}
