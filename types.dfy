/** The records the seed planner passes between its database, its server and its
    client (src/typings/types.d.ts). Calendar dates ("YYYY-MM-DD" strings) are day
    numbers counted from 1970-01-01; a date that is absent or the empty string is
    `None`. Identifiers and grid coordinates are integers. */
module Types {

  datatype Option<+T> = None | Some(value: T)

  /** A physical seed tray; its cells are addressed by x in [0, columns), y in [0, rows). */
  datatype Tray = Tray(id: int, name: string, location: string, rows: int, columns: int, notes: Option<string>)

  /** A cultivar. The day offsets are nullable columns. */
  datatype Plant = Plant(
    id: int,
    speciesId: int,
    name: string,
    variety: string,
    daysToGerminate: Option<int>,
    daysToHarvest: Option<int>)

  /** One occupancy row of a tray; `plantId` is null after a reset. */
  datatype TrayCell = TrayCell(id: int, trayId: int, x: int, y: int, plantId: Option<int>, plantedDate: Option<int>)

  /** A tray cell enriched with its plant's display fields. */
  datatype DisplayCell = DisplayCell(cell: TrayCell, plantName: Option<string>, variety: Option<string>)

  datatype Coord = Coord(x: int, y: int)

  /** One entry of the seeding calendar. */
  datatype SeedingEvent = SeedingEvent(
    plantName: string,
    trayName: string,
    plantedDate: Option<int>,
    germinationDate: Option<int>,
    harvestDate: Option<int>)

  /** The number of elements `Array.from({ length: n })` or `for (i = 0; i < n; i++)`
      produces for an integer `n`: negative lengths give none. */
  function Count(n: int): nat
  {
    if n < 0 then 0 else n
  }
}
