/** The ScheduleApp object (main.py:14-116) reduced to its state: the text of each Entry cell of
    the grid, which create_grid sets up, new_blank clears and set_schedule refills. */
module App {
  import opened Schedule
  import opened Export

  /** How a call of set_schedule ends: it ran through every cell, or the lookup or the insert for
      the cell `at` raised after that cell was cleared. */
  datatype Outcome = Completed | Raised(at: Key)

  /** How the Load JSON action ends: no file was chosen, the grid was loaded, or an error dialog
      was shown (the file could not be read or parsed, or set_schedule raised). */
  datatype LoadOutcome = Cancelled | Loaded | Failed

  class ScheduleApp {
    /** entries: the text currently shown by the Entry widget of each (day, block). */
    var entries: Cells

    /** The grid has exactly one cell for each (day, block) pair. */
    ghost predicate Valid()
      reads this
    {
      IsGrid(entries)
    }

    /** create_grid: one new, empty Entry per block and day, built block by block. */
    constructor ()
      ensures Valid()
      ensures entries.Keys == CellKeys() && |entries| == 21
      ensures forall k: Key :: entries[k] == ""
    {
      var cells: Cells := map[];
      var row := 0;
      while row < |TIME_BLOCKS|
        invariant 0 <= row <= |TIME_BLOCKS|
        invariant forall k: Key :: k in cells <==> BlockIndex(k.1) < row
        invariant forall k :: k in cells ==> cells[k] == ""
      {
        var col := 0;
        while col < |DAYS|
          invariant 0 <= col <= |DAYS|
          invariant forall k: Key :: k in cells <==>
            (BlockIndex(k.1) < row || (BlockIndex(k.1) == row && DayIndex(k.0) < col))
          invariant forall k :: k in cells ==> cells[k] == ""
        {
          DaysInOrder(col);
          BlocksInOrder(row);
          cells := cells[(DAYS[col], TIME_BLOCKS[row]) := ""];
          col := col + 1;
        }
        row := row + 1;
      }
      entries := cells;
      new;
      GridKeys(entries);
    }

    /** get_schedule: every cell's text, stripped, under its day and block. */
    function GetSchedule(): (t: Table)
      reads this
      requires Valid()
      ensures IsTable(t)
      ensures forall d, b :: t[d][b] == Strip(entries[(d, b)])
    {
      Harvest(entries)
    }

    /** The rows export_csv writes: those of the table get_schedule returns, so every exported
        text is its cell's text stripped. */
    function ExportRows(wide: bool): (r: seq<Row>)
      reads this
      requires Valid()
      ensures wide ==> |r| == 8 && r[0] == ["Days", "Morning", "Afternoon", "Evening"]
      ensures wide ==> forall i :: 0 <= i < |DAYS| ==>
        r[1 + i] == [DayName(DAYS[i]), Strip(entries[(DAYS[i], Morning)]),
                     Strip(entries[(DAYS[i], Afternoon)]), Strip(entries[(DAYS[i], Evening)])]
      ensures !wide ==> |r| == 22 && r[0] == ["Day", "Time Block", "Task"]
      ensures !wide ==> forall k :: 0 <= k < |DAYS| * |TIME_BLOCKS| ==>
        r[1 + k] == [DayName(DAYS[k / 3]), BlockName(TIME_BLOCKS[k % 3]), Strip(entries[(DAYS[k / 3], TIME_BLOCKS[k % 3])])]
    {
      Rows(GetSchedule(), wide)
    }

    /** new_blank: every cell is cleared, one at a time; no cell is added or removed. */
    method NewBlank()
      requires Valid()
      modifies this
      ensures Valid()
      ensures entries.Keys == old(entries).Keys
      ensures forall k: Key :: entries[k] == ""
    {
      var pending := entries.Keys;
      while pending != {}
        invariant Valid()
        invariant entries.Keys == old(entries).Keys
        invariant forall k: Key :: k !in pending ==> entries[k] == ""
        decreases pending
      {
        var k :| k in pending;
        entries := entries[k := ""];
        pending := pending - {k};
      }
    }

    /** The body of set_schedule's inner loop for one cell: delete(0, END) empties it; then the
        document's value for it is looked up and insert(0, ...) puts it in front of the (now empty)
        text, or the lookup or the insert raises and the cell stays empty. */
    method SetCell(key: Key, doc: Doc, render: Doc -> string) returns (ok: bool)
      requires Valid()
      modifies this
      ensures Valid()
      ensures ok <==> !CellFails(doc, key.0, key.1)
      ensures ok ==> Some(entries[key]) == CellText(doc, key.0, key.1, render)
      ensures !ok ==> entries[key] == ""
      ensures forall k: Key :: k != key ==> entries[k] == old(entries)[k]
    {
      entries := entries[key := ""];
      var text := CellText(doc, key.0, key.1, render);
      if text.None? {
        return false;
      }
      assert text.value + entries[key] == text.value;
      entries := entries[key := text.value + entries[key]];
      ok := true;
    }

    /** The inner loop of set_schedule for day number i: block by block, clear the cell, then
        insert the document's value for it. When a cell's refill raises (`at`), the day's earlier
        cells are refilled, `at` is cleared and the rest is as it was. No other day's cells change. */
    method SetDay(i: nat, doc: Doc, render: Doc -> string) returns (ok: bool, at: Key)
      requires Valid() && i < |DAYS|
      modifies this
      ensures Valid()
      ensures ok ==> forall k: Key :: 3 * i <= Position(k) < 3 * i + 3 ==> Some(entries[k]) == CellText(doc, k.0, k.1, render)
      ensures ok ==> forall k: Key :: (Position(k) < 3 * i || Position(k) >= 3 * i + 3) ==> entries[k] == old(entries)[k]
      ensures !ok ==> at.0 == DAYS[i] && CellFails(doc, at.0, at.1) && entries[at] == ""
      ensures !ok ==> forall k: Key :: 3 * i <= Position(k) < Position(at) ==> Some(entries[k]) == CellText(doc, k.0, k.1, render)
      ensures !ok ==> forall k: Key :: (Position(k) < 3 * i || Position(k) > Position(at)) ==> entries[k] == old(entries)[k]
    {
      var j := 0;
      at := (DAYS[i], Morning);
      while j < |TIME_BLOCKS|
        invariant 0 <= j <= |TIME_BLOCKS|
        invariant Valid()
        invariant forall k: Key :: 3 * i <= Position(k) < 3 * i + j ==> Some(entries[k]) == CellText(doc, k.0, k.1, render)
        invariant forall k: Key :: (Position(k) < 3 * i || Position(k) >= 3 * i + j) ==> entries[k] == old(entries)[k]
      {
        PositionAt(i, j);
        at := (DAYS[i], TIME_BLOCKS[j]);
        ghost var before := entries;
        ok := SetCell(at, doc, render);
        if !ok {
          return;
        }
        RefillStep(old(entries), before, entries, doc, render, 3 * i, at);
        j := j + 1;
      }
      ok := true;
    }

    /** set_schedule: day by day and block by block, clear the cell, then insert the document's
        value for it. Completed: every cell holds what Decode gives. Raised: the refill of the
        first failing cell raised after that cell was cleared; earlier cells are refilled and the
        later ones are as they were. */
    method SetSchedule(doc: Doc, render: Doc -> string) returns (outcome: Outcome)
      requires Valid()
      modifies this
      ensures Valid()
      ensures outcome.Completed? <==> Decode(doc, render).Some?
      ensures outcome.Completed? ==> entries == Decode(doc, render).value
      ensures outcome.Raised? ==>
        FirstBad(doc) == Some(outcome.at) && RaisedAt(old(entries), entries, doc, render, outcome.at)
    {
      var i := 0;
      while i < |DAYS|
        invariant 0 <= i <= |DAYS|
        invariant Valid()
        invariant forall k: Key :: Position(k) < 3 * i ==> Some(entries[k]) == CellText(doc, k.0, k.1, render)
        invariant forall k: Key :: Position(k) >= 3 * i ==> entries[k] == old(entries)[k]
      {
        var ok, at := SetDay(i, doc, render);
        if !ok {
          FirstBadAt(doc, at);
          return Raised(at);
        }
        i := i + 1;
      }
      DecodeFilled(doc, render, entries);
      outcome := Completed;
    }

    /** load: when a file was chosen, a document that could not be read or parsed (None) shows an
        error and leaves the grid alone; a parsed one is handed to set_schedule, and an exception
        it raises shows an error and leaves the grid as set_schedule left it. */
    method Load(chosen: bool, parsed: Option<Doc>, render: Doc -> string) returns (outcome: LoadOutcome)
      requires Valid()
      modifies this
      ensures Valid()
      ensures !chosen || parsed.None? ==> entries == old(entries)
      ensures !chosen ==> outcome == Cancelled
      ensures chosen && parsed.None? ==> outcome == Failed
      ensures chosen && parsed.Some? ==>
        (outcome == Loaded <==> Decode(parsed.value, render).Some?) &&
        (outcome == Loaded ==> entries == Decode(parsed.value, render).value)
      ensures chosen && parsed.Some? && outcome == Failed ==>
        RaisedAt(old(entries), entries, parsed.value, render, FirstBad(parsed.value).value)
    {
      if !chosen {
        return Cancelled;
      }
      if parsed.None? {
        return Failed;
      }
      var result := SetSchedule(parsed.value, render);
      outcome := if result.Completed? then Loaded else Failed;
    }
  }
}
