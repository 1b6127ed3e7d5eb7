/** The rows export_csv hands to the CSV writer (main.py:144-156), in the wide layout (one row per
    day, one column per block) and in the long layout (one row per cell). */
module Export {
  import opened Schedule

  /** One CSV record: its fields, before any quoting. */
  type Row = seq<string>

  /** The labels of TIME_BLOCKS, in order. */
  function BlockLabelRow(): (r: Row)
    ensures r == ["Morning", "Afternoon", "Evening"]
  {
    seq(|TIME_BLOCKS|, j requires 0 <= j < |TIME_BLOCKS| => BlockName(TIME_BLOCKS[j]))
  }

  /** The wide row of day d: its label, then its text under each block. */
  function WideRow(t: Table, d: Day): Row
    requires IsTable(t)
  {
    [DayName(d)] + seq(|TIME_BLOCKS|, j requires 0 <= j < |TIME_BLOCKS| => t[d][TIME_BLOCKS[j]])
  }

  /** The long row of the k-th cell in day-major, block-minor order. */
  function LongRow(t: Table, k: nat): Row
    requires IsTable(t) && k < |DAYS| * |TIME_BLOCKS|
  {
    var key := TableOrder()[k];
    [DayName(key.0), BlockName(key.1), t[key.0][key.1]]
  }

  /** The rows export_csv writes for a table: wide when `wide`, long otherwise. */
  function Rows(t: Table, wide: bool): (r: seq<Row>)
    requires IsTable(t)
    ensures wide ==> |r| == 8 && r[0] == ["Days", "Morning", "Afternoon", "Evening"]
    ensures wide ==> forall i :: 0 <= i < |DAYS| ==>
      r[1 + i] == [DayName(DAYS[i]), t[DAYS[i]][Morning], t[DAYS[i]][Afternoon], t[DAYS[i]][Evening]]
    ensures !wide ==> |r| == 22 && r[0] == ["Day", "Time Block", "Task"]
    ensures !wide ==> forall k :: 0 <= k < |DAYS| * |TIME_BLOCKS| ==>
      r[1 + k] == [DayName(DAYS[k / 3]), BlockName(TIME_BLOCKS[k % 3]), t[DAYS[k / 3]][TIME_BLOCKS[k % 3]]]
  {
    if wide then
      [["Days"] + BlockLabelRow()] + seq(|DAYS|, i requires 0 <= i < |DAYS| => WideRow(t, DAYS[i]))
    else
      [["Day", "Time Block", "Task"]] + seq(|DAYS| * |TIME_BLOCKS|, k requires 0 <= k < |DAYS| * |TIME_BLOCKS| => LongRow(t, k))
  }

  /** Every row of the wide layout has 4 fields and every row of the long layout 3. */
  lemma RowWidths(t: Table, wide: bool)
    requires IsTable(t)
    ensures forall i :: 0 <= i < |Rows(t, wide)| ==> |Rows(t, wide)[i]| == if wide then 4 else 3
  {
    var r := Rows(t, wide);
    forall i | 0 <= i < |r| ensures |r[i]| == if wide then 4 else 3 {
      if i > 0 {
        assert r[1 + (i - 1)] == r[i];
      }
    }
  }

  /** The wide layout can be read back: the cell of day d and block b sits in the row of d (which
      begins with d's label) under the column headed by b's label. */
  lemma WideReadBack(t: Table, d: Day, b: Block)
    requires IsTable(t)
    ensures
      var r, i, j := Rows(t, true), DayIndex(d), BlockIndex(b);
      r[1 + i][0] == DayName(d) && r[0][1 + j] == BlockName(b) && r[1 + i][1 + j] == t[d][b]
  {
    var r := Rows(t, true);
    var i := DayIndex(d);
    match b
    case Morning => case Afternoon => case Evening =>
  }

  /** Position 3*i+j of the table order belongs to day number i and block number j. */
  lemma TableIndex(i: nat, j: nat)
    requires j < 3
    ensures (3 * i + j) / 3 == i && (3 * i + j) % 3 == j
  {
  }

  /** The long layout lists every cell exactly once: exactly one data row carries the labels of
      day d and block b, and its third field is the cell's text. */
  lemma LongListsEachCellOnce(t: Table, d: Day, b: Block)
    requires IsTable(t)
    ensures
      var r, k := Rows(t, false), 1 + 3 * DayIndex(d) + BlockIndex(b);
      k < 22 && r[k] == [DayName(d), BlockName(b), t[d][b]]
    ensures
      var r := Rows(t, false);
      forall k :: 1 <= k < |r| && r[k][0] == DayName(d) && r[k][1] == BlockName(b) ==>
        k == 1 + 3 * DayIndex(d) + BlockIndex(b)
  {
    var r := Rows(t, false);
    var k0 := 3 * DayIndex(d) + BlockIndex(b);
    TableIndex(DayIndex(d), BlockIndex(b));
    assert r[1 + k0] == [DayName(DAYS[k0 / 3]), BlockName(TIME_BLOCKS[k0 % 3]), t[DAYS[k0 / 3]][TIME_BLOCKS[k0 % 3]]];
    forall k | 1 <= k < |r| && r[k][0] == DayName(d) && r[k][1] == BlockName(b)
      ensures k == 1 + k0
    {
      var k' := k - 1;
      assert r[1 + k'] == [DayName(DAYS[k' / 3]), BlockName(TIME_BLOCKS[k' % 3]), t[DAYS[k' / 3]][TIME_BLOCKS[k' % 3]]];
      DayNameInjective(DAYS[k' / 3], d);
      BlockNameInjective(TIME_BLOCKS[k' % 3], b);
      DaysInOrder(k' / 3);
      BlocksInOrder(k' % 3);
    }
  }

  /** The long layout is the wide layout unpivoted: long data row 3*i+j is the label of day i, the
      header of block column j, and the wide cell at row i, column j. */
  lemma LongUnpivotsWide(t: Table, i: nat, j: nat)
    requires IsTable(t) && i < |DAYS| && j < |TIME_BLOCKS|
    ensures
      var w, l := Rows(t, true), Rows(t, false);
      l[1 + (3 * i + j)] == [w[1 + i][0], w[0][1 + j], w[1 + i][1 + j]]
  {
    var w, l := Rows(t, true), Rows(t, false);
    var k := 3 * i + j;
    assert k / 3 == i && k % 3 == j;
    assert l[1 + k] == [DayName(DAYS[i]), BlockName(TIME_BLOCKS[j]), t[DAYS[i]][TIME_BLOCKS[j]]];
    assert w[1 + i] == [DayName(DAYS[i]), t[DAYS[i]][Morning], t[DAYS[i]][Afternoon], t[DAYS[i]][Evening]];
  }
}
