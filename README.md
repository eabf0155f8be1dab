# Seed planner: tray occupancy, selection and calendar model

This Dafny project models the core of the seed planner. The planner keeps seed trays: grids of `rows × columns` cells, each of which may hold a plant planted on some day.

- **Cell table and server handlers** (`cell_table.dfy`, `server_handlers.dfy`, `calendar.dfy`).
  - The `tray_cells` table is a map from `(tray_id, x, y)` to the row's id, nullable plant id and planted day. Trays and plants sit beside it in the class `CellTable.Database`, together with the serial counter.
  - Each SQL statement the routes issue is a method of `Database`. Its new state is a pure function of the old one: the upsert, the reset, and the two cascading deletes.
  - The three servers (`server.ts`, the Postgres `server.js` and the SQLite `server-sqllite.js`) are handler methods over that class. They differ in three observable ways:
    - whether an assign validates its plant id;
    - whether a reset that matched nothing is reported;
    - how the calendar dates are derived.
- **Grid view** (`grid_utils.dfy`). The dense `rows × columns` grid is built from the sparse rows, with the first match or a placeholder at each coordinate. It is then turned upside down. Row and column indices are translated to coordinates.
- **Selection** (`selection.dfy`, `grid_axis_selection.dfy`, `tray_grid.dfy`).
  - The selected-cells list is a class with a duplicate-free invariant.
  - It supports cell, row and column toggles.
  - The grid component's batch assign and batch reset send one request per selected cell. Lemmas relate those requests to the cell table.
- **Calendar utilities** (`seeding_utils.dfy`). Events are grouped by month, filtered by an inclusive range, and tested for recency.
  - Dates are day numbers.
  - A `Date` is an instant in milliseconds.
  - The month label is a function supplied by the caller.
  - "Now" is a parameter.
- **Text chunking** (`text_split.dfy`): hard splitting, greedy word batching, and the choice between the two for variety names.
- **Sortable table** (`sortable_table.dfy`): the sort-config state, and the stable comparator sort on a copy of the data.
- **Form validation** (`new_plant_modal.dfy`, `new_tray_modal.dfy`): the add-plant and add-tray validators and their submit guards.

Shared helpers:
- `seqs.dfy`: order-preserving filter, reversal, string concatenation.
- `js.dfy`: `trim`, line terminators, `String(n)`, `Number.isInteger`.
- `types.dfy`: the records of `src/typings/types.d.ts`.

The handlers model the code as written. Where the calendar code contradicts its own documentation, the model also gives the corrected definition; see "Findings".

## Model

| member | source | states |
|---|---|---|
| GridUtils.BuildGrid | src/utils/gridUtils.tsx:9-26 | exactly `rows` rows of exactly `columns` entries (negative sizes give none); entry [r][c] has x = c and y = r |
| GridUtils.BuildGridEntry | src/utils/gridUtils.tsx:11-19 | the entry at [r][c] is the first stored row at (c, r) in list order, or, when none matches, a placeholder with id 0, this tray's id, no plant and no date |
| GridUtils.LookupPlant | src/utils/gridUtils.tsx:5-7 | `plantMap.get(id)` finds an entry iff some plant has the id, and then it is the last plant with that id (later map entries win) |
| GridUtils.PlantNameOf | src/utils/gridUtils.tsx:22 | the name is present iff the plant id is truthy and the last plant with that id has a non-empty name; it is then that plant's name |
| GridUtils.VarietyOf | src/utils/gridUtils.tsx:23 | the variety is present iff the plant id is truthy and the last plant with that id has a non-empty variety; it is then that plant's variety |
| GridUtils.EnrichmentSource | src/utils/gridUtils.tsx:5-23 | a grid entry that shows a name or a variety has a truthy plant id, and both are taken from the last plant with that id, each `null` when empty |
| GridUtils.FormatGrid | src/utils/gridUtils.tsx:29-31 | same length; display row d is raw row `rows-1-d` |
| GridUtils.FormatGridSpec | src/utils/gridUtils.tsx:29-31 | formatting twice gives back the input |
| GridUtils.GetRowCells | src/utils/gridUtils.tsx:33-40 | `columns` coordinates, x = 0..columns-1 in increasing order, all at y = rows-1-d |
| GridUtils.GetColumnCells | src/utils/gridUtils.tsx:42-48 | `rows` coordinates, y = 0..rows-1 in increasing order, all at x = c |
| GridUtils.RowCellsMatchDisplayRow | src/utils/gridUtils.tsx:33-40 | the coordinates of display row d are, column by column, those of row d of `formatGrid(buildGrid(...))` |
| GridUtils.ColumnCellsMatchDisplay | src/utils/gridUtils.tsx:42-48 | column c of the display shows the coordinates of `getColumnCells(tray, c)`, read from the top |
| SelectedCells.Toggled | src/hooks/useSelectedCells.tsx:11-18 | after a toggle, exactly the membership of the toggled coordinate has flipped |
| SelectedCells.ToggleAbsentAppends | src/hooks/useSelectedCells.tsx:14-16 | toggling an absent coordinate appends it at the end and keeps the earlier entries in order |
| SelectedCells.TogglePresentRemoves | src/hooks/useSelectedCells.tsx:13-15 | toggling a present coordinate of a duplicate-free list removes exactly that entry and keeps the rest in order |
| SelectedCells.ToggleTwiceRestores | src/hooks/useSelectedCells.tsx:11-18 | from a list without c, toggling c twice restores the list exactly |
| SelectedCells.ToggleKeepsDistinct | src/hooks/useSelectedCells.tsx:11-18 | toggling keeps the list duplicate-free |
| SelectedCells.CellSelection.constructor | src/hooks/useSelectedCells.tsx:6 | the selection starts empty (and so duplicate-free) |
| SelectedCells.CellSelection.IsCellSelected | src/hooks/useSelectedCells.tsx:8-9 | true iff some entry has the same x and y |
| SelectedCells.CellSelection.ToggleCell | src/hooks/useSelectedCells.tsx:11-18 | the new list is the toggle of the old one; only the toggled coordinate changes membership; duplicate-freedom is preserved |
| SelectedCells.CellSelection.SetSelectedCells | src/hooks/useSelectedCells.tsx:22 | the state setter replaces the list |
| SelectedCells.CellSelection.ClearSelection | src/hooks/useSelectedCells.tsx:20 | the selection becomes empty |
| GridAxisSelection.AxisKeepsOffAxis | src/hooks/useGridAxisSelection.tsx:11-35 | an axis toggle keeps, in order, every entry off the axis |
| GridAxisSelection.AxisClearsFull | src/hooks/useGridAxisSelection.tsx:15-16 | when every axis cell is selected, exactly the previous entries off the axis remain |
| GridAxisSelection.AxisFillsMissing | src/hooks/useGridAxisSelection.tsx:17-19 | otherwise the previous list is kept as a prefix, followed by exactly the missing axis cells |
| GridAxisSelection.AxisKeepsDistinct | src/hooks/useGridAxisSelection.tsx:11-35 | an axis toggle of a duplicate-free list over duplicate-free axis cells stays duplicate-free |
| GridAxisSelection.AxisAppendsInOrder | src/hooks/useGridAxisSelection.tsx:18-19 | the appended cells keep the order of the axis cells |
| GridAxisSelection.AxisToggled | src/hooks/useGridAxisSelection.tsx:14-20 | every entry of the result was in the old list or is an axis cell; every old entry off the axis is kept |
| GridAxisSelection.RowToggled | src/hooks/useGridAxisSelection.tsx:11-22 | every entry of the result was selected before or lies in the toggled row (y = rows-1-d, 0 <= x < columns); every old entry of another row is kept |
| GridAxisSelection.ColumnToggled | src/hooks/useGridAxisSelection.tsx:24-35 | every entry of the result was selected before or lies in column c (0 <= y < rows); every old entry of another column is kept |
| GridAxisSelection.RowToggleClearsFullRow | src/hooks/useGridAxisSelection.tsx:13-16 | a fully selected row is removed: exactly the previous entries whose y differs from the row's remain; RowToggleKeepsOtherRows gives their order |
| GridAxisSelection.RowToggleFillsRow | src/hooks/useGridAxisSelection.tsx:17-19 | a partly selected row becomes full: the old list stays as a prefix, and the appended cells are the missing ones at y = rows-1-d, in increasing x |
| GridAxisSelection.RowToggleKeepsOtherRows | src/hooks/useGridAxisSelection.tsx:14-19 | the entries of other rows are unchanged, in order |
| GridAxisSelection.RowToggleKeepsDistinct | src/hooks/useGridAxisSelection.tsx:11-22 | a row toggle never introduces a duplicate |
| GridAxisSelection.RowTogglePartialTwice | src/hooks/useGridAxisSelection.tsx:11-22 | toggling a partly selected row fills it; toggling it again leaves exactly the earlier entries of other rows |
| GridAxisSelection.ColumnToggleClearsFullColumn | src/hooks/useGridAxisSelection.tsx:28-29 | a fully selected column is removed: exactly the previous entries with x different from c remain |
| GridAxisSelection.ColumnToggleFillsColumn | src/hooks/useGridAxisSelection.tsx:30-32 | a partly selected column becomes full, appending the missing (c, y) in increasing y |
| GridAxisSelection.ColumnToggleKeepsOtherColumns | src/hooks/useGridAxisSelection.tsx:27-33 | the entries of other columns are unchanged, in order |
| GridAxisSelection.ColumnToggleKeepsDistinct | src/hooks/useGridAxisSelection.tsx:24-35 | a column toggle never introduces a duplicate |
| GridAxisSelection.ToggleRow | src/hooks/useGridAxisSelection.tsx:11-22 | `threw` iff the tray has no columns and the selection is non-empty (the filter callback's `rowCells[0].y` is then a TypeError); with no columns the selection is unchanged either way; otherwise it becomes the row toggle of the old one; duplicate-freedom is preserved |
| GridAxisSelection.ToggleColumn | src/hooks/useGridAxisSelection.tsx:24-35 | the selection becomes the column toggle of the old one; duplicate-freedom is preserved |
| TrayGridView.TrayGrid.constructor | src/components/display/TrayGrid/TrayGrid.tsx:24-39 | empty selection, no plant chosen |
| TrayGridView.TrayGrid.EffectiveToggleCell | src/components/display/TrayGrid/TrayGrid.tsx:71 | with editing on it toggles the cell; with editing off the selection is unchanged |
| TrayGridView.TrayGrid.EffectiveIsCellSelected | src/components/display/TrayGrid/TrayGrid.tsx:72 | true iff editing is on and the cell is selected |
| TrayGridView.TrayGrid.SetSelectedPlant | src/components/display/TrayGrid/TrayGrid.tsx:39 | the chosen plant becomes the given one |
| TrayGridView.TrayGrid.HandleAssignPlant | src/components/display/TrayGrid/TrayGrid.tsx:74-87 | with a non-empty selection and a chosen plant: one request per selected cell, in order, with that cell's x and y and the plant; then the selection is emptied and the plant cleared. Otherwise nothing is sent and nothing changes |
| TrayGridView.TrayGrid.HandleResetCells | src/components/display/TrayGrid/TrayGrid.tsx:89-96 | one reset per selected cell, in order, then the selection is emptied; nothing is sent for an empty selection |
| TrayGridView.AssignRequests | src/components/display/TrayGrid/TrayGrid.tsx:76-83 | one request per cell, carrying its coordinates, the plant and the client's day |
| TrayGridView.ApplyAssignsSpec | src/components/display/TrayGrid/TrayGrid.tsx:76-83 | applying a batch of assigns of one plant leaves every targeted cell holding it with today's date, leaves every other row unchanged, and adds no other key |
| TrayGridView.AssignBatchFillsSelection | src/components/display/TrayGrid/TrayGrid.tsx:74-87 | after the assigns for a selection, every selected cell of the tray holds the plant, and rows outside the selection are unchanged |
| TrayGridView.ResetBatchClearsSelection | src/components/display/TrayGrid/TrayGrid.tsx:89-96 | after the resets for a selection, every stored selected cell keeps its row and date and has no plant; other rows and the key set are unchanged |
| CellTable.Upserted | src/server/express/server.ts:377-383 | the keys are the old keys plus the assigned one; that row holds the plant and today's date; an existing row keeps its id, a new one takes the counter; every other row is unchanged |
| CellTable.UpsertIdempotent | src/server/express/server.ts:378-381 | repeating the same assign on the same day changes neither the table nor the model's serial counter |
| CellTable.UpsertKeepsIds | src/server/express/server.ts:377-383 | row ids stay positive, below the counter, and one per key |
| CellTable.ResetAt | src/server/express/server.ts:399-402 | the keys are unchanged; the matching row keeps its id and planted date and loses its plant; every other row is unchanged |
| CellTable.ResetRowCount | src/server/express/server.ts:399-403 | the update's row count is at most 1, and 0 iff no row has the key |
| CellTable.ResetKeepsIds | src/server/express/server.ts:399-402 | a reset keeps row ids valid |
| CellTable.WithoutTray | src/server/express/server.ts:245 | no row of the deleted tray remains; the rows of every other tray are exactly as before; every kept row is unchanged |
| CellTable.WithoutPlant | src/server/express/server.ts:337 | the rows holding the plant are deleted, not nulled; every other row, including the reset ones, is kept unchanged |
| CellTable.DeletesKeepIds | src/server/express/server.ts:245-246 | the cascading deletes keep row ids valid |
| CellTable.SelectRows | src/server/express/server.ts:433-446 | lists each row under the selected keys exactly once, as stored |
| CellTable.Database.UpsertCell | src/server/express/server.ts:377-383 | the table becomes the upsert of the old one; trays and plants are untouched; id validity is preserved |
| CellTable.Database.ResetCell | src/server/express/server.ts:399-402 | the table becomes the reset of the old one, and the returned count is 1 iff the key was stored |
| CellTable.Database.DeleteCellsOfTray | src/server/express/server.ts:245 | the tray's rows are deleted and nothing else changes |
| CellTable.Database.DeleteTrayRow | src/server/express/server.ts:246 | the tray is removed and nothing else changes |
| CellTable.Database.DeleteCellsOfPlant | src/server/express/server.ts:337 | the rows holding the plant are deleted and nothing else changes |
| CellTable.Database.DeletePlantRow | src/server/express/server.ts:338 | the plant is removed and nothing else changes |
| CellTable.Database.SelectTray | src/server/express/server.ts:424-427 | the tray is returned iff it is stored |
| CellTable.Database.SelectCellsOfTray | src/server/express/server.ts:433-446 | lists exactly the stored rows of the tray, each once |
| ServerHandlers.AssignCell | src/server/express/server.ts:373-389 | always succeeds; the new table is the upsert on (tray, x, y), with neither the plant id nor the coordinates checked; trays and plants are unchanged; the same route in seed-planner-api/server.js:155-167 behaves identically |
| ServerHandlers.AssignCellChecked | seed-planner-api/server-sqllite.js:98-121 | 400 iff the plant id is missing, null or 0, and then nothing is written; otherwise success and the same upsert |
| ServerHandlers.ResetCellReporting | src/server/express/server.ts:395-412 | 404 iff no row has the key; the table becomes the reset of the old one |
| ServerHandlers.ResetCellSilently | seed-planner-api/server.js:170-175 | always success, even when nothing matched; the table becomes the reset of the old one; the same route in seed-planner-api/server-sqllite.js:124-129 behaves identically |
| ServerHandlers.DeleteTray | src/server/express/server.ts:242-247 | the tray's rows are deleted first, then the tray; plants and the rows of other trays are unchanged; the same route in seed-planner-api/server.js:87-92 and seed-planner-api/server-sqllite.js:42-47 behaves identically |
| ServerHandlers.DeletePlant | src/server/express/server.ts:334-339 | the rows holding the plant are deleted first, then the plant; other rows and the trays are unchanged; the same route in seed-planner-api/server.js:134-139 and seed-planner-api/server-sqllite.js:78-83 behaves identically |
| ServerHandlers.GetTrayGrid | src/server/express/server.ts:420-447 | 404 iff the tray is absent; otherwise the tray and exactly its stored rows, which is a sparse list; the same route in seed-planner-api/server.js:180-194 and seed-planner-api/server-sqllite.js:134-148 behaves identically |
| ServerHandlers.GetCalendarAliased | src/server/express/server.ts:461-478 | one event per row that joins a stored tray and plant (reset rows excluded), with both derived dates equal to the planted day, as written; the same route in seed-planner-api/server.js:197-215 behaves identically |
| ServerHandlers.GetCalendarIntended | src/server/express/server.ts:456-460 | the same join, with each date its offset after planting and absent without an offset, as the route's documentation describes |
| ServerHandlers.GetCalendarSqlite | seed-planner-api/server-sqllite.js:151-178 | one event per row that joins a stored plant (trays are not joined), with the tray named "Tray <id>" and each date the planted day plus its offset, NULL counting as 0 |
| Calendar.AliasedCalendar | src/server/express/server.ts:471-477 | one event per joined row, with the plant name, the tray name, and the planted day in all three date fields |
| Calendar.SqliteCalendar | seed-planner-api/server-sqllite.js:160-175 | one event per row, with the plant name, "Tray " followed by the tray id, and each derived date the planted day plus its offset or 0 |
| Calendar.IntendedCalendar | src/server/express/server.ts:459 | each derived date is present iff the plant has that offset, and then lies exactly that many days after planting |
| Calendar.AliasedEvent | src/server/express/server.ts:471-477 | the event carries the plant name, the tray name and the planted day, and both derived dates equal the planted day |
| Calendar.SqliteEvent | seed-planner-api/server-sqllite.js:160-174 | the tray name is "Tray " followed by the id; both derived dates are present, each the planted day plus its own offset, or the planted day when the offset is NULL |
| Calendar.IntendedEvent | src/server/express/server.ts:459 | the corrected event: each derived date is present iff its offset is, and then lies exactly that offset after planting |
| Calendar.IntendedAgreesWithSqlite | seed-planner-api/server-sqllite.js:160-174 | the SQLite event equals the corrected event iff both offsets are stored |
| Calendar.AliasedEventIgnoresOffsets | src/server/express/server.ts:475-476 | a plant with offsets 7 and 60 planted on day 100 is listed as germinating and harvested on day 100 instead of on days 107 and 160 |
| Calendar.AliasedEventDates | seed-planner-api/server.js:210-211 | the aliased event equals the corrected one iff both offsets are 0 |
| Calendar.SqliteNullOffsetIsPlantedDay | seed-planner-api/server-sqllite.js:163-166 | a plant with no offsets, planted on day 200, is dated as germinating and harvested on day 200 |
| Calendar.JoinedRowsJoinable | src/server/express/server.ts:463-469 | every row the join lists has a stored tray, a stored plant and a date |
| Calendar.PlantJoinedRowsHavePlant | seed-planner-api/server-sqllite.js:154-158 | every row the join lists has a stored plant and a date |
| Calendar.ResetLeavesCalendar | src/server/express/server.ts:399-402 | a reset takes exactly its own cell off both calendars |
| Calendar.PlantDeleteLeavesCalendar | src/server/express/server.ts:337-338 | after a plant delete the calendars hold exactly the earlier entries of other plants |
| Calendar.TrayDeleteLeavesCalendar | src/server/express/server.ts:245-246 | after a tray delete the calendars hold exactly the earlier entries of other trays |
| SeedingUtils.SelectedDate | src/utils/seedingUtils.tsx:13-16 | germination reads `germination_date`, harvest reads `harvest_date`, and anything else reads `planted_date` |
| SeedingUtils.EventInOneBucket | src/utils/seedingUtils.tsx:18-24 | an event without a date is in no bucket; a dated event is in the bucket of its month and in no other |
| SeedingUtils.GroupByMonthYear | src/utils/seedingUtils.tsx:9-28 | the keys are exactly the months with a dated event; each bucket holds that month's events in input order; the bucket sizes sum to the number of dated events; the key order is the order in which the months are first met, the order `Object.entries` renders at src/components/display/SeedingList.tsx:22 |
| SeedingUtils.PushedGroups | src/utils/seedingUtils.tsx:23-24 | one `forEach` step keeps the grouping exact |
| SeedingUtils.MonthOrderFirstSeen | src/utils/seedingUtils.tsx:20-24 | a month is listed iff some event falls in it, and months are listed in the order of their first event |
| SeedingUtils.FilterEventsInRange | src/utils/seedingUtils.tsx:38-43 | the result holds exactly the events whose date is present and lies between start and end, both inclusive |
| SeedingUtils.RangeOfDays | src/utils/seedingUtils.tsx:38-43 | with bounds at midnight of days s and e, the result holds exactly the events dated s..e |
| SeedingUtils.IsRecentEvent | src/utils/seedingUtils.tsx:51-56 | read by days: when `now` is a midnight, recent iff the event is at most `pastDays` days before that day; at any later moment of the day, iff it is fewer than `pastDays` days before it |
| SeedingUtils.RecentBoundary | src/utils/seedingUtils.tsx:51-56 | at midnight an event is recent iff it is at most `pastDays` days old; later in the day, iff it is less than `pastDays` days old |
| TextSplit.RunLength | src/utils/textSplitUtils.tsx:5 | one match of `.{1,n}` takes as many characters as it can, up to n, and stops only at a line terminator |
| TextSplit.HardSplit | src/utils/textSplitUtils.tsx:4-7 | every chunk has 1 to maxLength characters and no line terminator |
| TextSplit.HardSplitConcat | src/utils/textSplitUtils.tsx:4-7 | the chunks put together are the text without its line terminators |
| TextSplit.HardSplitCuts | src/utils/textSplitUtils.tsx:4-7 | on text without line terminators the chunks put together are the text; all chunks but the last have exactly maxLength characters; the empty text gives none |
| TextSplit.StepFits | src/utils/textSplitUtils.tsx:17-38 | one loop step keeps every pushed line between 1 and maxLength characters, and the open batch within maxLength |
| TextSplit.Step | src/utils/textSplitUtils.tsx:17-38 | a word longer than maxLength flushes the open batch, is hard-split, and leaves no batch open; a short word opens the batch when none is open, joins it with a space iff the result fits, and otherwise pushes the batch and opens a new one |
| TextSplit.Batched | src/utils/textSplitUtils.tsx:13-46 | every returned line has 1 to maxLength characters |
| TextSplit.StepCarries | src/utils/textSplitUtils.tsx:17-38 | ignoring spaces and line terminators, the pushed lines and the open batch after one step spell out what they spelled before, followed by the word |
| TextSplit.BatchedKeepsText | src/utils/textSplitUtils.tsx:13-46 | ignoring spaces and line terminators, the lines spell out the words in order |
| TextSplit.BatchWords | src/utils/textSplitUtils.tsx:13-46 | the loop computes the batching, including the final flush |
| TextSplit.SplitOn | src/utils/textSplitUtils.tsx:54 | at least one part, and no part contains the separator |
| TextSplit.SplitJoin | src/utils/textSplitUtils.tsx:54 | joining the parts with the separator gives the text back |
| TextSplit.SplitVariety | src/utils/textSplitUtils.tsx:52-59 | text containing a space is split on spaces and batched; otherwise it is hard-split |
| TextSplit.SplitVarietyLines | src/utils/textSplitUtils.tsx:52-59 | every line has 1 to maxLength characters; ignoring spaces and line terminators the lines spell out the name; "" gives no line |
| SortableTable.FindColumn | src/components/table/SortableTable.tsx:28 | the first column with the key, or none iff no column has it |
| SortableTable.Compare | src/components/table/SortableTable.tsx:23-35 | 0 with an empty key or a missing or sort-disabled column; for two numbers their difference, negated for "desc"; otherwise `localeCompare` of the two strings, negated for "desc" |
| SortableTable.SortPermutes | src/components/table/SortableTable.tsx:23 | the sorted copy holds the same rows, each the same number of times |
| SortableTable.SortKeepsOrder | src/components/table/SortableTable.tsx:23-25 | a comparator that never reports "greater" leaves the order unchanged (so the empty-key case keeps the data's order) |
| SortableTable.InsertSorted | src/components/table/SortableTable.tsx:23 | inserting into a sorted sequence keeps it sorted when the comparator agrees with a rank |
| SortableTable.SortSorted | src/components/table/SortableTable.tsx:23-35 | when the comparator says "greater" exactly when the rank is greater, the result is ordered by rank |
| SortableTable.UnsortedKeepsOrder | src/components/table/SortableTable.tsx:24-29 | with an empty key, or a key that names no column or a sort-disabled one, the rows keep the data's order |
| SortableTable.NumericColumnSorted | src/components/table/SortableTable.tsx:27-33 | when every row holds a number under a sortable key, the rows are in ascending numeric order for "asc" and in descending order for "desc" |
| SortableTable.NextConfig | src/components/table/SortableTable.tsx:38-46 | a click on a sort-disabled column leaves the config unchanged; otherwise the key becomes the clicked one, and the direction becomes "desc" iff it was the same key ascending |
| SortableTable.RepeatedClicksAlternate | src/components/table/SortableTable.tsx:42-45 | two clicks on one sortable column give opposite directions on that key |
| SortableTable.Table.constructor | src/components/table/SortableTable.tsx:17-20 | the config starts as key "" and "asc" |
| SortableTable.Table.HandleSort | src/components/table/SortableTable.tsx:38-46 | the config becomes the next config for the clicked key |
| SortableTable.Table.SortedData | src/components/table/SortableTable.tsx:23-35 | a sorted copy of the data with the same rows, each the same number of times; the data itself is a value and is not changed |
| NewPlantModal.DaysFromInput | src/components/modal/NewPlantModal.tsx:97 | NaN and 0 clear the offset; any other number is kept as typed |
| NewPlantModal.IsPositiveInteger | src/components/modal/NewPlantModal.tsx:54-56 | true iff the value is absent, or a whole number of at least 1 |
| NewPlantModal.IsFormValid | src/components/modal/NewPlantModal.tsx:43-51 | true iff the name and the variety each have a visible character, the species id is positive, and both offsets pass `isPositiveInteger` |
| NewPlantModal.HandleSubmit | src/components/modal/NewPlantModal.tsx:35-40 | the plant is sent iff the form is valid, and it is sent unchanged |
| NewPlantModal.SubmittedPlantWellFormed | src/components/modal/NewPlantModal.tsx:43-56 | a sent plant has a name and a variety with a visible character, a positive species id, and offsets that are absent or whole numbers of at least 1 |
| NewPlantModal.OffsetsMayBeAbsent | src/components/modal/NewPlantModal.tsx:48-55 | a plant with both offsets absent passes validation |
| NewPlantModal.OffsetInputCheck | src/components/modal/NewPlantModal.tsx:54-56 | what a day input yields passes iff the input is NaN, 0 or a positive whole number |
| NewPlantModal.InitialDraftInvalid | src/components/modal/NewPlantModal.tsx:14-21 | the blank form cannot be submitted |
| NewTrayModal.CountFromInput | src/components/modal/NewTrayModal.tsx:83 | NaN becomes 0; any number is kept |
| NewTrayModal.IsPositiveInteger | src/components/modal/NewTrayModal.tsx:52-54 | true iff the value is a whole number of at least 1 |
| NewTrayModal.IsFormValid | src/components/modal/NewTrayModal.tsx:42-49 | true iff the name and the location each have a visible character, and rows and columns pass `isPositiveInteger` |
| NewTrayModal.HandleSubmit | src/components/modal/NewTrayModal.tsx:34-39 | the tray is sent iff the form is valid, and it is sent unchanged |
| NewTrayModal.SubmittedTrayWellFormed | src/components/modal/NewTrayModal.tsx:42-54 | a sent tray has a name and a location with a visible character, and rows and columns that are whole numbers of at least 1 |
| NewTrayModal.EmptyCountRejected | src/components/modal/NewTrayModal.tsx:83-90 | an empty or non-numeric rows or columns field is stored as 0, and the form cannot be submitted |
| NewTrayModal.NotesUnchecked | src/components/modal/NewTrayModal.tsx:42-49 | the notes never affect validity |
| NewTrayModal.InitialDraftInvalid | src/components/modal/NewTrayModal.tsx:13-20 | the blank form cannot be submitted |

## Left out

- TextSplit.HardSplit: requires `maxLength >= 1`. With 0 the pattern `.{1,0}` is invalid and the source throws; that error path is not modelled.
- TextSplit.BatchWords: requires `maxLength >= 1`. With 0 the source throws only once it reaches a non-empty word; that error path is not modelled.
- TextSplit.SplitVariety: requires `maxLength >= 1`, for the same reason. A non-integer `maxLength` is not modelled either.
- TextSplit: lengths count characters. JavaScript counts UTF-16 code units, so text outside the Basic Multilingual Plane is not modelled.
- GridAxisSelection.ToggleRow and GridAxisSelection.ToggleColumn read the selection of the last render.
  - The source decides "all selected" and "missing" with `isCellSelected` from the last render, then filters `prev` in the setter.
  - The model uses one selection state for both. A second toggle queued before a re-render is not modelled.
- GridAxisSelection.ToggleRow: with no columns and a non-empty selection, the source throws a TypeError inside the state setter, because the `filter` callback reads `rowCells[0].y`. With an empty selection the callback never runs and the selection stays empty. The model reports the error as `threw` and leaves the selection unchanged; what React does with the error is not modelled. GridAxisSelection.RowToggled, the pure toggle, requires `columns >= 1`, because its filter names the row's y.
- NewPlantModal.HandleSubmit: the browser's constraint validation is not modelled. The `required` attributes (NewPlantModal.tsx:72-105) and the `type="number"` step check can block submission before `handleSubmit` runs, so "sent iff valid" holds of the handler only. A draft with both offsets absent passes `isFormValid` but its empty required fields stop the browser from submitting it.
- NewTrayModal.HandleSubmit: the same; its `required` and `type="number"` inputs (NewTrayModal.tsx:70-91) are checked by the browser before the handler, which the model does not capture.
- SortableTable.Table.SortedData: the engine's order is specified only for a consistent comparator. The model fixes one stable insertion sort.
  - Sortedness is proved for numeric columns only.
  - For text columns, `localeCompare` is a parameter with no properties assumed.
  - Cell values are integers, strings, `null` and `undefined`. Fractional numbers, booleans and objects are not modelled.
- SortableTable: React rendering of the header and the `data-sort` attribute is not modelled.
- SeedingUtils: `toLocaleString` month labels become the caller's `monthKey`.
  - `new Date("YYYY-MM-DD")` is UTC midnight of that day. Time zones and daylight saving are not modelled.
- SeedingUtils.FilterEventsInRange: its contract states membership, not that the result keeps input order (the body is an order-preserving filter).
- SeedingUtils.FilterEventsInRange: only the three date fields can be the key. A string field such as the plant name is not modelled.
- SeedingUtils.IsRecentEvent: the clock is the parameter `now`. `setDate` is taken as a fixed 24-hour step, so daylight-saving changes are not modelled.
- Dates through `toISOString` are not modelled. The server and client day computations can shift a day across time zones.
- CellTable.NextIdAfterUpsert: the serial advances only when a row is inserted. A Postgres sequence also advances on an `ON CONFLICT` update; only the ids' validity depends on this.
- CellTable: the database schema (foreign keys, `ON DELETE` rules, column types) is not part of this model. No foreign key is enforced. An assign may name a tray or plant that does not exist, as the handlers allow.
- ServerHandlers: route parameters are strings in the source. They are modelled as integers, and the coercion is not modelled.
  - Request bodies with missing x or y are not modelled.
  - 500 responses, logging and the database drivers are not modelled.
  - Concurrency and atomicity of the statements are not modelled: operations run one at a time.
- ServerHandlers.GetTrayGrid: the joined `plant_name`, `plant_variety`, species and genus columns are not modelled. Only the `tray_cells` columns are returned.
- TrayGridView: the mutations are returned as the list of requests sent, and their success or failure is not modelled. The client's `planted_date` is carried, but the server ignores it.
- NewPlantModal and NewTrayModal:
  - Parsing of the input text by `Number(...)` is abstracted to its result: a finite number, or NaN. `Number("")` is 0.
  - Infinity is not modelled.
  - The species select and the modal open and close state are not modelled.
- Rendering, React state wiring, the API wrappers, the other pages and modals, and the Express server set-up are not modelled.

## Findings

| source | as written | input that shows it | evidently intended | confidence | as-written member | corrected member |
|---|---|---|---|---|---|---|
| src/server/express/server.ts:475-476 | both `germination_date` and `harvest_date` are `new Date(row.planted_date)`; the selected offsets are unused | a plant with `days_to_germinate` 7 and `days_to_harvest` 60 planted on day 100 is listed as germinating and harvested on day 100 | each date is the planted day plus its offset, as the route's documentation at line 459 says | high, not executed | Calendar.AliasedEventIgnoresOffsets | Calendar.IntendedEvent |
| seed-planner-api/server.js:210-211 | the same aliasing in the Postgres server | the same plant as above | the same | high, not executed | Calendar.AliasedEventDates | Calendar.IntendedCalendar |
| seed-planner-api/server-sqllite.js:163-166 | a NULL offset is added as 0 by `getDate() + null` | a plant with no offsets planted on day 200 is dated as germinating and harvested on day 200 | no derived date when the offset is unknown (the `SeedingEvent` date fields are optional) | medium, not executed | Calendar.SqliteNullOffsetIsPlantedDay | Calendar.IntendedEvent |
