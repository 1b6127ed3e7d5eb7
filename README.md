# Weekly Schedule Builder: the data model, in Dafny

The Weekly Schedule Builder (`main.py`) is a Tkinter window. It shows a grid of text cells, one
per day of the week and time block (Morning, Afternoon, Evening). It can clear the grid, save it
to a JSON file, load it back and export it as CSV.

This project models that window's data model and proves properties of it:

- the fixed 7 × 3 grid of cells, one per key in `DAYS` × `TIME_BLOCKS`;
- reading the grid into a nested mapping (`get_schedule`, which strips each text);
- refilling the grid from a parsed document (`set_schedule`), including its lenient defaults and
  the state it leaves when it raises part-way;
- clearing the grid (`new_blank`);
- the two row layouts `export_csv` writes (wide and long).

Files:

- `schedule.dfy` (module `Schedule`): the value level.
  - Days and blocks are enumerations named by their labels.
  - Grid contents are a `map` from (day, block) to text; the nested mapping is a `Table`.
  - Parsed JSON is the `Doc` datatype.
  - It holds `str.strip()`, `get_schedule` (`Harvest`) and the lookup `set_schedule` performs
    per cell (`CellText`).
  - `Decode` is the grid `set_schedule` leaves when it completes; `RaisedAt` is the grid it
    leaves when it raises.
  - `AsDoc` is the document a save writes, with the save/load round-trip lemmas.
- `export.dfy` (module `Export`): the row sequences of the two CSV layouts and their relation to
  the table.
- `app.dfy` (module `App`): class `ScheduleApp`.
  - Its field `entries` holds the text of every cell.
  - Its constructor is the key-building loop of `create_grid`.
  - The methods with loops are the constructor, `NewBlank`, `SetSchedule` (the loop over days)
    and `SetDay` (the loop over one day's blocks). `SetCell` is the body of the inner loop, and
    `Load` is the `try`/`except` of `load` around `set_schedule`. All of them update `entries` in
    place and are proved against the functions of `Schedule`.
  - `ExportRows` ties the export rows to the object: they are the rows of `get_schedule`'s table.

Three consequences of what `main.py` does:

- `get_schedule` strips every text, so saving and loading gives the grid back unchanged only
  when no cell has whitespace at either end (`SaveLoadIdentity`). What always holds is
  `ReloadPreservesTable`: harvest, save, load and harvest again gives the first harvest.
- `set_schedule` clears and refills the cells one by one, so a document it cannot read leaves
  the grid partly overwritten. It raises at the first cell, in visiting order, whose lookup or
  insert fails: every earlier cell is refilled, that cell is empty, and every later cell is as
  it was (`RaisedAt`, which `SetSchedule` ends in).
- A value under a day and a block is passed to `Entry.insert` as it is. A string is inserted
  unchanged. JSON null raises: Tkinter ends a Tcl command's arguments at the first `None`, so
  Tcl receives `insert 0` without a text and reports an error after the cell was cleared
  (`NullLeafRaises`). Any other value (a number, a boolean, an array or an object) is inserted
  as Tk converts it. The model takes that conversion as a parameter `render`;
  `DecodeStringLeaves` shows `render` plays no part when every leaf is a string. `DecodeSomeIff`
  states exactly which documents load without raising.

## Model

| member | source | states |
|---|---|---|
| Schedule.Enumerated | main.py:10-11 | `DAYS` lists each of the 7 days and `TIME_BLOCKS` each of the 3 blocks, each exactly once. |
| Schedule.DayIndex | main.py:10 | Every day sits at a position below 7 in `DAYS`. |
| Schedule.BlockIndex | main.py:11 | Every block sits at a position below 3 in `TIME_BLOCKS`. |
| Schedule.NamesDistinct | main.py:10-11 | Different days have different labels, and so do different blocks. |
| Schedule.CellKeysExact | main.py:35-42 | The keys of `entries` are all (day, block) pairs and no others, 21 of them. The day-major order visits each exactly once. |
| Schedule.GridKeys | main.py:35-42 | A grid with a cell for every key has exactly those 21 keys. |
| App.ScheduleApp.constructor | main.py:35-42 | The block-by-block, day-by-day loop creates exactly the 21 keys, each holding an empty Entry. |
| Schedule.LeadingSpaces | main.py:62 | The length of the whitespace prefix `strip` removes: all whitespace, followed by a non-space or the end. |
| Schedule.TrailingSpaces | main.py:62 | The length of the whitespace suffix `strip` removes: all whitespace, preceded by a non-space or the start. |
| Schedule.Strip | main.py:62 | `strip()` removes the leading whitespace and trailing whitespace and leaves a text that neither starts nor ends with whitespace. |
| Schedule.StripIdempotent | main.py:62 | `strip` leaves text without outer whitespace unchanged; applying it twice equals applying it once. |
| Schedule.Harvest | main.py:60-65 | `get_schedule` has all 7 days, each with all 3 blocks, and each value is the strip of that cell's text. |
| App.ScheduleApp.GetSchedule | main.py:60-65 | The same, read from the object's `entries`. |
| App.ScheduleApp.NewBlank | main.py:75-78 | After the loop over all entries every cell is `""` and the key set is unchanged. |
| Schedule.CellText | main.py:72 | `insert(0, schedule.get(day, {}).get(tbk, ""))` raises exactly when the document or its value for the day is not a mapping, or the value for the day and block is null. A missing day or missing block gives `""`. Otherwise the cell shows the stored value: a string unchanged, anything else as Tk converts it. |
| Schedule.PositionAt | main.py:69-70 | Position 3i+j of the visiting order belongs to day i and block j, and to no other cell. |
| Schedule.PositionInjective | main.py:69-70 | Different cells have different positions in the visiting order. |
| Schedule.FirstBadFrom | main.py:69-72 | From a position on, the first cell whose refill raises, with none raising before it; none exactly when no cell from there on raises. |
| Schedule.FirstBad | main.py:69-72 | The first cell, in the day-by-day, block-by-block visiting order, whose refill raises; every earlier cell refills without raising; none exactly when no cell raises. |
| Schedule.FirstBadAt | main.py:69-72 | A cell whose refill raises, after cells that do not, is the first failing cell. |
| Schedule.FailingCell | main.py:69-72 | A cell whose refill raises is the first failing cell or comes after it. |
| Schedule.Decode | main.py:67-72 | The completed refill: it fails exactly when some cell's refill raises; otherwise every one of the 21 cells holds its lookup result. |
| App.ScheduleApp.SetCell | main.py:71-72 | `delete(0, END)` then `insert(0, value)`. The cell holds the looked-up value, or stays empty when the lookup or insert raises, exactly when `CellFails`. No other cell changes. |
| Schedule.RefillStep | main.py:70-72 | Refilling the next cell extends the refilled run by one position and leaves every cell outside it as it was. |
| App.ScheduleApp.SetDay | main.py:70-72 | The inner block loop for day i. It either refills the day's three cells, or raises at a failing cell of that day: the day's earlier cells are refilled, that cell is cleared. No cell outside the visited part changes. |
| App.ScheduleApp.SetSchedule | main.py:67-72 | Either the loop completes and `entries` equals `Decode`, or it raises at the first failing cell, leaving exactly the `RaisedAt` state. |
| Schedule.DecodeFilled | main.py:67-72 | A grid holding the lookup result in every cell is the one `Decode` gives. |
| Schedule.NonMappingDocument | main.py:69-72 | A document that is not a mapping raises at Monday's Morning cell, the very first one. |
| Schedule.NullLeafRaises | main.py:72 | A null under a day and a block makes the refill raise, at that cell or at an earlier one. |
| Schedule.DecodeAgrees | main.py:69-72 | Documents that give every cell the same lookup result refill the grid identically, and raise alike at the same cell. |
| Schedule.DecodeSomeIff | main.py:69-72 | The refill completes if and only if the document is a mapping, each day value it has is a mapping, and no block value under a day is null. |
| Schedule.DecodeWellFormed | main.py:69-72 | For such a document, each cell receives `doc[day][block]` as the Entry shows it, or `""` if the day or the block is missing. |
| Schedule.DecodeStringLeaves | main.py:72 | With string leaves only, the result does not depend on how Tk converts non-string values. |
| Schedule.DecodeMissingDay | main.py:72 | A missing day loads as empty cells, exactly as if it were present with an empty mapping. |
| Schedule.DecodeMissingBlock | main.py:72 | A missing block loads as `""`, exactly as if it were present with `""`. |
| Schedule.RelevantDay | main.py:72 | Cutting a day's mapping down to the block labels keeps every block label it has, with its value, and no other key. |
| Schedule.Relevant | main.py:69-72 | Cutting a document down to the day labels keeps every day label it has, with its value cut down by `RelevantDay`, and no other key. |
| Schedule.DecodeIgnoresForeignKeys | main.py:69-72 | Keys outside `DAYS` and `TIME_BLOCKS` have no effect on whether the refill raises or on what it loads. |
| Schedule.DayOfName | main.py:10 | Looking a day's label up among the day labels gives back that day. |
| Schedule.BlockOfName | main.py:11 | Looking a block's label up among the block labels gives back that block. |
| Schedule.RowDoc | main.py:96 | The saved mapping of a day is an object whose keys are exactly the three block labels. |
| Schedule.AsDoc | main.py:96 | The saved document is an object whose keys are exactly the seven day labels. |
| Schedule.RowDocLookup | main.py:96 | The saved mapping of a day holds each block's text as a string under the block's label. |
| Schedule.AsDocLookup | main.py:96 | The saved document holds each day's mapping under the day's label. |
| Schedule.AsDocCellText | main.py:72 | Looking up a cell in a saved table gives that cell's text. |
| Schedule.DecodeAsDoc | main.py:67-72 | Loading a saved table never raises and puts every cell's text back where it was. |
| Schedule.SaveLoadStrips | main.py:60-72 | Saving the grid and loading the file never raises, and it leaves every cell holding its own text stripped. |
| Schedule.SaveLoadIdentity | main.py:60-72 | Save then load gives the grid back unchanged if and only if no cell has whitespace at either end. |
| Schedule.ReloadPreservesTable | main.py:60-72 | Harvest, refill from the harvest and harvest again gives the first harvest back. |
| App.ScheduleApp.Load | main.py:101-116 | No file chosen: nothing changes. Unreadable or unparsable file: error, nothing changes. Otherwise `set_schedule` runs; it completes with `Decode`'s grid, or the error leaves the `RaisedAt` state at the first failing cell. |
| Export.BlockLabelRow | main.py:146 | The block labels in `TIME_BLOCKS` order are `Morning`, `Afternoon`, `Evening`. |
| Export.Rows | main.py:144-156 | Wide: 8 rows, the header `["Days","Morning","Afternoon","Evening"]`, then `[day, Morning text, Afternoon text, Evening text]` per day in order. Long: 22 rows, the header `["Day","Time Block","Task"]`, then row k is `[DAYS[k/3], TIME_BLOCKS[k%3], its text]`. |
| App.ScheduleApp.ExportRows | main.py:121-156 | The exported rows are those of `get_schedule`'s table: the headers, then each day's or each cell's stripped text in `DAYS` and `TIME_BLOCKS` order. |
| Export.RowWidths | main.py:144-156 | Every wide row has 4 fields and every long row has 3. |
| Export.WideReadBack | main.py:146-149 | The wide cell of (day, block) sits in the row that begins with the day's label, under the column whose header is the block's label. |
| Export.LongListsEachCellOnce | main.py:153-156 | Exactly one long data row carries a given day and block label, and its third field is that cell's text. |
| Export.LongUnpivotsWide | main.py:144-156 | Long data row 3i+j holds wide row i's label, wide column j's header and the wide cell at (i, j). |

## Left out

- Window and widgets: the Tkinter window, labels, buttons, the on-screen layout (blocks as rows, days as columns), `mainloop` and Quit (main.py:15-58, main.py:165-168). None of it computes anything. The model keeps only the text each Entry holds.
- Tk's conversion of non-string values: `Entry.insert` applied to a number, boolean, array or nested object uses Tkinter's and Tcl's conversion, which is not visible here. It is the parameter `render`, and no document is excluded. Null is the one value modelled as raising.
- File dialogs and message boxes: `filedialog`, `messagebox` and `os.path.basename` in `save`, `load` and `export_csv`. The chosen path becomes `Load`'s `chosen` flag. The wide/long answer becomes `Rows`'s `wide` flag. The dialog texts are not modelled.
- JSON text: `json.dump` and `json.load` are library code. The model works on the parsed document (`Doc`). Loading a file saved from a string table is taken to give back the document `AsDoc` describes. A file that cannot be opened or parsed is `Load`'s `parsed == None`.
- The `save` action itself (main.py:80-99): only the document it writes (`AsDoc`) is modelled. Its file and error handling is I/O.
- CSV text: the quoting and escaping `csv.writer` applies. `Rows` stops at the sequence of rows of fields. The export's file and error handling is I/O.
- Labels are represented as enumerations with their label strings (`DayName`, `BlockName`), not as free strings. The documents themselves still have free string keys.
- `new_blank` visits the cells in the dictionary's insertion order. `NewBlank` visits them in an arbitrary order, which does not change its result.
- `strip` is modelled as Python's no-argument `str.strip()`. It removes the characters for which `str.isspace()` holds, listed by code point in `IsSpace`.
