/** The fixed shape of the weekly schedule (main.py:10-11, 35-42) and the value-level meaning of
    harvesting the grid (get_schedule) and of refilling it from a loaded document (set_schedule). */
module Schedule {

  datatype Option<T> = None | Some(value: T)

  /** The closed set of days; DayName gives the label the program uses for each. */
  datatype Day = Monday | Tuesday | Wednesday | Thursday | Friday | Saturday | Sunday

  /** The closed set of time blocks; BlockName gives the label the program uses for each. */
  datatype Block = Morning | Afternoon | Evening

  /** DAYS, in the order every loop of the program visits them. */
  const DAYS: seq<Day> := [Monday, Tuesday, Wednesday, Thursday, Friday, Saturday, Sunday]

  /** TIME_BLOCKS, in the order every loop of the program visits them. */
  const TIME_BLOCKS: seq<Block> := [Morning, Afternoon, Evening]

  function DayName(d: Day): string
  {
    match d
    case Monday => "Monday"
    case Tuesday => "Tuesday"
    case Wednesday => "Wednesday"
    case Thursday => "Thursday"
    case Friday => "Friday"
    case Saturday => "Saturday"
    case Sunday => "Sunday"
  }

  function BlockName(b: Block): string
  {
    match b
    case Morning => "Morning"
    case Afternoon => "Afternoon"
    case Evening => "Evening"
  }

  /** The position of a day in DAYS. */
  function DayIndex(d: Day): (i: nat)
    ensures i < |DAYS| && DAYS[i] == d
  {
    match d
    case Monday => 0
    case Tuesday => 1
    case Wednesday => 2
    case Thursday => 3
    case Friday => 4
    case Saturday => 5
    case Sunday => 6
  }

  /** The position of a block in TIME_BLOCKS. */
  function BlockIndex(b: Block): (j: nat)
    ensures j < |TIME_BLOCKS| && TIME_BLOCKS[j] == b
  {
    match b
    case Morning => 0
    case Afternoon => 1
    case Evening => 2
  }

  /** DayIndex inverts indexing into DAYS. */
  lemma DaysInOrder(i: nat)
    requires i < |DAYS|
    ensures DayIndex(DAYS[i]) == i
  {
  }

  /** BlockIndex inverts indexing into TIME_BLOCKS. */
  lemma BlocksInOrder(j: nat)
    requires j < |TIME_BLOCKS|
    ensures BlockIndex(TIME_BLOCKS[j]) == j
  {
  }

  /** Both lists name every value of their enumeration, each exactly once. */
  lemma Enumerated()
    ensures forall d: Day :: d in DAYS
    ensures forall b: Block :: b in TIME_BLOCKS
    ensures forall i, i' :: 0 <= i < i' < |DAYS| ==> DAYS[i] != DAYS[i']
    ensures forall j, j' :: 0 <= j < j' < |TIME_BLOCKS| ==> TIME_BLOCKS[j] != TIME_BLOCKS[j']
  {
    forall d: Day ensures d in DAYS {
      assert DAYS[DayIndex(d)] == d;
    }
    forall b: Block ensures b in TIME_BLOCKS {
      assert TIME_BLOCKS[BlockIndex(b)] == b;
    }
  }

  /** Different days, and different blocks, have different labels. */
  lemma NamesDistinct()
    ensures forall d, d' :: d != d' ==> DayName(d) != DayName(d')
    ensures forall b, b' :: b != b' ==> BlockName(b) != BlockName(b')
  {
    forall d, d' | d != d' ensures DayName(d) != DayName(d') {
      if |DayName(d)| == |DayName(d')| {
        assert DayName(d)[0] != DayName(d')[0];
      }
    }
  }

  /** A day label names one day. */
  lemma DayNameInjective(d: Day, d': Day)
    requires DayName(d) == DayName(d')
    ensures d == d'
  {
    NamesDistinct();
  }

  /** A block label names one block. */
  lemma BlockNameInjective(b: Block, b': Block)
    requires BlockName(b) == BlockName(b')
    ensures b == b'
  {
    NamesDistinct();
  }

  /** A cell key (day, block), as used for `entries`. */
  type Key = (Day, Block)

  /** The text currently shown by each cell of the grid. */
  type Cells = map<Key, string>

  /** The nested mapping {day: {block: text}} that get_schedule returns. */
  type Table = map<Day, map<Block, string>>

  /** The keys create_grid gives `entries`: every day paired with every block. */
  function CellKeys(): set<Key>
  {
    set d, b | d in DAYS && b in TIME_BLOCKS :: (d, b)
  }

  /** Cells with a text for every key. */
  ghost predicate IsGrid(cells: Cells)
  {
    forall k: Key :: k in cells
  }

  /** Grids are equal exactly when they agree on every cell. */
  lemma GridsEqual(r: Cells, cells: Cells)
    requires IsGrid(r) && IsGrid(cells)
    ensures r == cells <==> forall k: Key :: r[k] == cells[k]
  {
    if forall k: Key :: r[k] == cells[k] {
      assert r.Keys == cells.Keys;
    }
  }

  /** Tables that agree on every cell are equal. */
  lemma TablesEqual(t: Table, t': Table)
    requires IsTable(t) && IsTable(t')
    requires forall d, b :: t[d][b] == t'[d][b]
    ensures t == t'
  {
    forall d | true ensures t[d] == t'[d] {
      assert t[d].Keys == t'[d].Keys;
    }
    assert t.Keys == t'.Keys;
  }

  /** A grid has exactly the 21 keys (day, block), for every day in DAYS and block in TIME_BLOCKS. */
  lemma GridKeys(cells: Cells)
    requires IsGrid(cells)
    ensures cells.Keys == CellKeys() && |cells| == 21
  {
    CellKeysExact();
    assert cells.Keys == CellKeys();
  }

  /** The 21 keys in the order get_schedule, set_schedule and the long export visit them:
      day-major, block-minor. */
  function TableOrder(): (ks: seq<Key>)
    ensures |ks| == |DAYS| * |TIME_BLOCKS|
    ensures forall k :: 0 <= k < |ks| ==> ks[k] == (DAYS[k / |TIME_BLOCKS|], TIME_BLOCKS[k % |TIME_BLOCKS|])
  {
    seq(|DAYS| * |TIME_BLOCKS|, k requires 0 <= k < |DAYS| * |TIME_BLOCKS| => (DAYS[k / |TIME_BLOCKS|], TIME_BLOCKS[k % |TIME_BLOCKS|]))
  }

  /** The key set of the grid holds every (day, block) pair, there are 21 of them, and the table
      order visits each of them exactly once. */
  lemma {:induction false} CellKeysExact()
    ensures forall k: Key :: k in CellKeys()
    ensures |CellKeys()| == 21
    ensures forall k, k' :: 0 <= k < k' < |TableOrder()| ==> TableOrder()[k] != TableOrder()[k']
    ensures CellKeys() == set k | k in TableOrder()
  {
    Enumerated();
    var order := TableOrder();
    forall k, k' | 0 <= k < k' < |order| ensures order[k] != order[k'] {
      assert k / 3 != k' / 3 || k % 3 != k' % 3;
    }
    forall key: Key ensures key in order {
      var i, j := DayIndex(key.0), BlockIndex(key.1);
      assert order[3 * i + j] == key;
    }
    assert CellKeys() == set k | k in order;
    DistinctCard(order);
  }

  /** A sequence without repetitions has as many distinct elements as it has positions. */
  lemma {:induction false} DistinctCard<T>(s: seq<T>)
    requires forall k, k' :: 0 <= k < k' < |s| ==> s[k] != s[k']
    ensures |set x | x in s| == |s|
  {
    if s != [] {
      DistinctCard(s[1..]);
      assert (set x | x in s) == (set x | x in s[1..]) + {s[0]};
      assert s[0] !in s[1..];
    }
  }

  // ---------------------------------------------------------------------------------------------
  // str.strip()

  /** The characters Python's str.isspace() accepts, which are those str.strip() removes. */
  predicate IsSpace(c: char)
  {
    var n := c as int;
    (0x09 <= n <= 0x0D) || (0x1C <= n <= 0x20) || n == 0x85 || n == 0xA0 || n == 0x1680 ||
    (0x2000 <= n <= 0x200A) || n == 0x2028 || n == 0x2029 || n == 0x202F || n == 0x205F || n == 0x3000
  }

  /** The number of whitespace characters at the front of s. */
  function LeadingSpaces(s: string): (n: nat)
    ensures n <= |s|
    ensures forall k :: 0 <= k < n ==> IsSpace(s[k])
    ensures n == |s| || !IsSpace(s[n])
  {
    if s != [] && IsSpace(s[0]) then 1 + LeadingSpaces(s[1..]) else 0
  }

  /** The number of whitespace characters at the back of s. */
  function TrailingSpaces(s: string): (n: nat)
    ensures n <= |s|
    ensures forall k :: |s| - n <= k < |s| ==> IsSpace(s[k])
    ensures n == |s| || !IsSpace(s[|s| - 1 - n])
  {
    if s != [] && IsSpace(s[|s| - 1]) then 1 + TrailingSpaces(s[..|s| - 1]) else 0
  }

  /** str.strip(): s without its leading and trailing whitespace. The result is the part of s that
      begins after its leading whitespace, everything after the result is whitespace, and the
      result neither begins nor ends with whitespace. */
  function Strip(s: string): (r: string)
    ensures LeadingSpaces(s) + |r| <= |s|
    ensures r == s[LeadingSpaces(s)..LeadingSpaces(s) + |r|]
    ensures forall k :: LeadingSpaces(s) + |r| <= k < |s| ==> IsSpace(s[k])
    ensures r == [] || (!IsSpace(r[0]) && !IsSpace(r[|r| - 1]))
  {
    var a := LeadingSpaces(s);
    s[a..|s| - TrailingSpaces(s[a..])]
  }

  /** Text without whitespace at either end is left alone by strip; in particular strip is idempotent. */
  lemma StripIdempotent(s: string)
    ensures s == [] || (!IsSpace(s[0]) && !IsSpace(s[|s| - 1])) ==> Strip(s) == s
    ensures Strip(Strip(s)) == Strip(s)
  {
    var r := Strip(s);
    assert LeadingSpaces(r) == 0;
    assert TrailingSpaces(r) == 0;
  }

  // ---------------------------------------------------------------------------------------------
  // get_schedule

  /** A table of the shape get_schedule returns: every day present, each holding every block. */
  ghost predicate IsTable(t: Table)
  {
    (forall d :: d in t) && (forall d, b :: b in t[d])
  }

  /** get_schedule: every cell's text, whitespace-stripped, under its day and block. */
  function Harvest(cells: Cells): (t: Table)
    requires IsGrid(cells)
    ensures IsTable(t)
    ensures forall d, b :: t[d][b] == Strip(cells[(d, b)])
  {
    Enumerated();
    map d | d in DAYS :: map b | b in TIME_BLOCKS :: Strip(cells[(d, b)])
  }

  // ---------------------------------------------------------------------------------------------
  // The document set_schedule reads

  /** A parsed JSON value: an object, a string, null, or anything else (a number, true, false or
      an array, carried as its JSON text). No JSON object has a non-string key. */
  datatype Doc = Obj(fields: map<string, Doc>) | Str(text: string) | Null | Other(literal: string)

  /** `value.get(key, default)`: None when the value has no `get` because it is not a mapping
      (Python raises AttributeError). */
  function Get(value: Doc, key: string, default: Doc): Option<Doc>
  {
    match value
    case Obj(fields) => Some(if key in fields then fields[key] else default)
    case _ => None
  }

  /** The text a cell shows after `insert(0, v)` on an empty cell, or None where the insert raises.
      A string is inserted as it is. Tkinter ends a Tcl command's arguments at the first None, so
      for JSON null Tcl receives `insert 0` without a text and raises. Any other value (a number,
      a boolean, an array or an object) is shown as Tk's conversion of it, which `render` stands
      for. */
  function Shown(v: Doc, render: Doc -> string): Option<string>
  {
    match v
    case Str(s) => Some(s)
    case Null => None
    case _ => Some(render(v))
  }

  /** The lookup of day d raises: the document is not a mapping, or it holds a non-mapping under d's label. */
  predicate DayFails(doc: Doc, d: Day)
  {
    !doc.Obj? || (DayName(d) in doc.fields && !doc.fields[DayName(d)].Obj?)
  }

  /** Refilling cell (d, b) raises: the lookup of day d raises, or the value under d and b is null. */
  predicate CellFails(doc: Doc, d: Day, b: Block)
  {
    DayFails(doc, d) ||
    (DayName(d) in doc.fields && BlockName(b) in doc.fields[DayName(d)].fields &&
     doc.fields[DayName(d)].fields[BlockName(b)].Null?)
  }

  /** `insert(0, doc.get(day, {}).get(block, ""))` as the text the cell receives, or None where it
      raises. A missing day or block gives the empty text. */
  function CellText(doc: Doc, d: Day, b: Block, render: Doc -> string): (r: Option<string>)
    ensures r.None? <==> CellFails(doc, d, b)
    ensures doc.Obj? && DayName(d) !in doc.fields ==> r == Some("")
    ensures doc.Obj? && DayName(d) in doc.fields && doc.fields[DayName(d)].Obj? ==>
      var inner := doc.fields[DayName(d)].fields;
      r == if BlockName(b) in inner then Shown(inner[BlockName(b)], render) else Some("")
  {
    match Get(doc, DayName(d), Obj(map[]))
    case None => None
    case Some(dayValue) =>
      match Get(dayValue, BlockName(b), Str(""))
      case None => None
      case Some(v) => Shown(v, render)
  }

  /** The position of a cell in the order set_schedule visits the cells: day by day along DAYS,
      and within a day block by block along TIME_BLOCKS. */
  function Position(k: Key): (p: nat)
    ensures p < |DAYS| * |TIME_BLOCKS|
  {
    3 * DayIndex(k.0) + BlockIndex(k.1)
  }

  /** Different cells have different positions. */
  lemma PositionInjective(k: Key, k': Key)
    requires Position(k) == Position(k')
    ensures k == k'
  {
  }

  /** Position 3*i+j belongs to day number i and block number j, and to no other cell. */
  lemma PositionAt(i: nat, j: nat)
    requires i < |DAYS| && j < |TIME_BLOCKS|
    ensures Position((DAYS[i], TIME_BLOCKS[j])) == 3 * i + j
    ensures forall k: Key :: Position(k) == 3 * i + j ==> k == (DAYS[i], TIME_BLOCKS[j])
  {
    DaysInOrder(i);
    BlocksInOrder(j);
  }

  /** The first cell at position 3*i+j or later whose refill raises, if any. */
  function FirstBadFrom(doc: Doc, i: nat, j: nat): (r: Option<Key>)
    requires i <= |DAYS| && j <= |TIME_BLOCKS|
    ensures r.None? <==> forall k: Key :: Position(k) >= 3 * i + j ==> !CellFails(doc, k.0, k.1)
    ensures r.Some? ==> Position(r.value) >= 3 * i + j && CellFails(doc, r.value.0, r.value.1)
    ensures r.Some? ==> forall k: Key :: 3 * i + j <= Position(k) < Position(r.value) ==> !CellFails(doc, k.0, k.1)
    decreases |DAYS| - i, |TIME_BLOCKS| - j
  {
    if i == |DAYS| then None
    else if j == |TIME_BLOCKS| then FirstBadFrom(doc, i + 1, 0)
    else
      PositionAt(i, j);
      if CellFails(doc, DAYS[i], TIME_BLOCKS[j]) then Some((DAYS[i], TIME_BLOCKS[j]))
      else FirstBadFrom(doc, i, j + 1)
  }

  /** The first cell, in visiting order, whose refill raises, if any: every earlier cell refills
      without raising. */
  function FirstBad(doc: Doc): (r: Option<Key>)
    ensures r.None? <==> forall k: Key :: !CellFails(doc, k.0, k.1)
    ensures r.Some? ==> CellFails(doc, r.value.0, r.value.1)
    ensures r.Some? ==> forall k: Key :: Position(k) < Position(r.value) ==> !CellFails(doc, k.0, k.1)
  {
    FirstBadFrom(doc, 0, 0)
  }

  /** A cell whose refill raises, after cells that do not, is the first failing cell. */
  lemma FirstBadAt(doc: Doc, key: Key)
    requires CellFails(doc, key.0, key.1)
    requires forall k: Key :: Position(k) < Position(key) ==> !CellFails(doc, k.0, k.1)
    ensures FirstBad(doc) == Some(key)
  {
    var r := FirstBad(doc);
    assert r.Some?;
    PositionInjective(r.value, key);
  }

  /** A cell whose refill raises is the first failing cell or comes after it. */
  lemma FailingCell(doc: Doc, key: Key)
    requires CellFails(doc, key.0, key.1)
    ensures FirstBad(doc).Some? && Position(FirstBad(doc).value) <= Position(key)
  {
  }

  /** The cells set_schedule leaves when it runs to the end: every cell holds the document's value
      for it; None when the refill of some cell raises. */
  function Decode(doc: Doc, render: Doc -> string): (r: Option<Cells>)
    ensures r.None? <==> FirstBad(doc).Some?
    ensures r.Some? ==> IsGrid(r.value)
    ensures r.Some? ==> forall k: Key :: Some(r.value[k]) == CellText(doc, k.0, k.1, render)
  {
    if FirstBad(doc).Some? then None
    else
      CellKeysExact();
      Some(map k | k in CellKeys() :: CellText(doc, k.0, k.1, render).value)
  }

  /** The cells set_schedule leaves when the refill of cell `at` raises: every earlier cell holds
      the document's value, cell `at` has been cleared, and every later cell still holds what it
      held before. */
  ghost predicate RaisedAt(before: Cells, after: Cells, doc: Doc, render: Doc -> string, at: Key)
    requires IsGrid(before) && IsGrid(after)
  {
    (forall k: Key :: Position(k) < Position(at) ==> Some(after[k]) == CellText(doc, k.0, k.1, render)) &&
    after[at] == "" &&
    (forall k: Key :: Position(k) > Position(at) ==> after[k] == before[k])
  }

  /** Refilling the cell at the end of a refilled run of positions lo, lo+1, ... extends the run
      by one and leaves every cell outside the run as it was originally. */
  lemma RefillStep(orig: Cells, prev: Cells, next: Cells, doc: Doc, render: Doc -> string, lo: nat, key: Key)
    requires IsGrid(orig) && IsGrid(prev) && IsGrid(next) && lo <= Position(key)
    requires forall k: Key :: lo <= Position(k) < Position(key) ==> Some(prev[k]) == CellText(doc, k.0, k.1, render)
    requires forall k: Key :: (Position(k) < lo || Position(k) >= Position(key)) ==> prev[k] == orig[k]
    requires Some(next[key]) == CellText(doc, key.0, key.1, render)
    requires forall k: Key :: k != key ==> next[k] == prev[k]
    ensures forall k: Key :: lo <= Position(k) <= Position(key) ==> Some(next[k]) == CellText(doc, k.0, k.1, render)
    ensures forall k: Key :: (Position(k) < lo || Position(k) > Position(key)) ==> next[k] == orig[k]
  {
    forall k: Key | Position(k) == Position(key) ensures k == key {
      PositionInjective(k, key);
    }
  }

  /** Cells holding the document's value for every cell are what Decode gives. */
  lemma DecodeFilled(doc: Doc, render: Doc -> string, cells: Cells)
    requires IsGrid(cells)
    requires forall k: Key :: Some(cells[k]) == CellText(doc, k.0, k.1, render)
    ensures Decode(doc, render) == Some(cells)
  {
    var loaded := Decode(doc, render).value;
    GridsEqual(cells, loaded);
  }

  /** A document that is not a mapping fails at Monday's Morning cell, the first one set_schedule visits. */
  lemma NonMappingDocument(doc: Doc, render: Doc -> string)
    requires !doc.Obj?
    ensures FirstBad(doc) == Some((Monday, Morning))
    ensures Decode(doc, render).None?
  {
    FirstBadAt(doc, (Monday, Morning));
  }

  /** A null under a day and a block makes set_schedule raise, at that cell or at an earlier one. */
  lemma NullLeafRaises(doc: Doc, render: Doc -> string, d: Day, b: Block)
    requires doc.Obj? && DayName(d) in doc.fields && doc.fields[DayName(d)].Obj?
    requires BlockName(b) in doc.fields[DayName(d)].fields
    requires doc.fields[DayName(d)].fields[BlockName(b)] == Null
    ensures Decode(doc, render).None?
    ensures FirstBad(doc).Some? && Position(FirstBad(doc).value) <= Position((d, b))
  {
    FailingCell(doc, (d, b));
  }

  /** Two documents (each with its conversion of non-string values) that give every cell the same
      lookup result load the same cells, and raise alike, at the same cell. */
  lemma DecodeAgrees(doc: Doc, doc': Doc, render: Doc -> string, render': Doc -> string)
    requires forall d, b :: CellText(doc, d, b, render) == CellText(doc', d, b, render')
    ensures FirstBad(doc) == FirstBad(doc')
    ensures Decode(doc, render) == Decode(doc', render')
  {
    assert forall k: Key :: CellFails(doc, k.0, k.1) <==> CellFails(doc', k.0, k.1) by {
      forall k: Key ensures CellFails(doc, k.0, k.1) <==> CellFails(doc', k.0, k.1) {
        assert CellText(doc, k.0, k.1, render) == CellText(doc', k.0, k.1, render');
      }
    }
    if FirstBad(doc).Some? {
      FirstBadAt(doc', FirstBad(doc).value);
    }
    if Decode(doc, render).Some? {
      var r, r' := Decode(doc, render).value, Decode(doc', render').value;
      forall k: Key ensures r[k] == r'[k] {
        assert Some(r[k]) == CellText(doc, k.0, k.1, render);
      }
      GridsEqual(r, r');
    }
  }

  /** The documents set_schedule reads without raising: a mapping whose value under each day label
      it has is itself a mapping, holding no null under a block label. */
  predicate Loadable(doc: Doc)
  {
    doc.Obj? &&
    (forall d :: DayName(d) in doc.fields ==> doc.fields[DayName(d)].Obj?) &&
    (forall d, b :: DayName(d) in doc.fields && BlockName(b) in doc.fields[DayName(d)].fields ==>
       !doc.fields[DayName(d)].fields[BlockName(b)].Null?)
  }

  /** set_schedule completes exactly on the loadable documents. */
  lemma DecodeSomeIff(doc: Doc, render: Doc -> string)
    ensures Decode(doc, render).Some? <==> Loadable(doc)
  {
    if Loadable(doc) {
      forall k: Key ensures !CellFails(doc, k.0, k.1) {
      }
    } else {
      if !doc.Obj? {
        NonMappingDocument(doc, render);
      } else if exists d :: DayName(d) in doc.fields && !doc.fields[DayName(d)].Obj? {
        var d :| DayName(d) in doc.fields && !doc.fields[DayName(d)].Obj?;
        FailingCell(doc, (d, Morning));
      } else {
        var d, b :| DayName(d) in doc.fields && BlockName(b) in doc.fields[DayName(d)].fields &&
          doc.fields[DayName(d)].fields[BlockName(b)].Null?;
        NullLeafRaises(doc, render, d, b);
      }
    }
  }

  /** A loadable document: every cell holds the value under its day and block, shown as the Entry
      shows it, or "" where either is missing. */
  lemma DecodeWellFormed(doc: Doc, render: Doc -> string)
    requires Loadable(doc)
    ensures Decode(doc, render).Some?
    ensures forall d, b ::
      (Some(Decode(doc, render).value[(d, b)]) ==
       if DayName(d) in doc.fields && BlockName(b) in doc.fields[DayName(d)].fields
       then Shown(doc.fields[DayName(d)].fields[BlockName(b)], render)
       else Some(""))
  {
    DecodeSomeIff(doc, render);
    var cells := Decode(doc, render).value;
    forall d, b | true ensures Some(cells[(d, b)]) == CellText(doc, d, b, render) {
    }
  }

  /** Every value the document holds under a day and a block is a string. */
  predicate StringLeaves(doc: Doc)
  {
    doc.Obj? &&
    forall k :: k in doc.fields && doc.fields[k].Obj? ==>
      forall k' :: k' in doc.fields[k].fields ==> doc.fields[k].fields[k'].Str?
  }

  /** With string leaves only, Tk's conversion of other values plays no part in what is loaded. */
  lemma DecodeStringLeaves(doc: Doc, render: Doc -> string, render': Doc -> string)
    requires StringLeaves(doc)
    ensures Decode(doc, render) == Decode(doc, render')
  {
    forall d, b | true ensures CellText(doc, d, b, render) == CellText(doc, d, b, render') {
    }
    DecodeAgrees(doc, doc, render, render');
  }

  /** Leniency: a day the document lacks loads as empty text in all its cells, exactly as if the
      document held an empty mapping under it. */
  lemma DecodeMissingDay(doc: Doc, render: Doc -> string, d: Day)
    requires doc.Obj? && DayName(d) !in doc.fields
    ensures Decode(doc, render) == Decode(Obj(doc.fields[DayName(d) := Obj(map[])]), render)
    ensures Decode(doc, render).Some? ==> forall b :: Decode(doc, render).value[(d, b)] == ""
  {
    var doc' := Obj(doc.fields[DayName(d) := Obj(map[])]);
    NamesDistinct();
    forall d', b | true ensures CellText(doc, d', b, render) == CellText(doc', d', b, render) {
      if d' == d {
        assert CellText(doc', d', b, render) == Some("");
      } else {
        assert DayName(d') in doc.fields <==> DayName(d') in doc'.fields;
      }
    }
    DecodeAgrees(doc, doc', render, render);
  }

  /** Leniency: a block a day's mapping lacks loads as empty text, exactly as if the mapping held "" under it. */
  lemma DecodeMissingBlock(doc: Doc, render: Doc -> string, d: Day, b: Block)
    requires doc.Obj? && DayName(d) in doc.fields && doc.fields[DayName(d)].Obj?
    requires BlockName(b) !in doc.fields[DayName(d)].fields
    ensures Decode(doc, render).Some? ==> Decode(doc, render).value[(d, b)] == ""
    ensures
      var inner := doc.fields[DayName(d)].fields;
      Decode(doc, render) == Decode(Obj(doc.fields[DayName(d) := Obj(inner[BlockName(b) := Str("")])]), render)
  {
    var inner := doc.fields[DayName(d)].fields;
    var doc' := Obj(doc.fields[DayName(d) := Obj(inner[BlockName(b) := Str("")])]);
    NamesDistinct();
    forall d', b' | true ensures CellText(doc, d', b', render) == CellText(doc', d', b', render) {
      if d' != d {
        assert DayName(d') in doc.fields <==> DayName(d') in doc'.fields;
      }
    }
    DecodeAgrees(doc, doc', render, render);
  }

  /** k is the label of one of the days. */
  predicate IsDayLabel(k: string)
  {
    exists i :: 0 <= i < |DAYS| && DayName(DAYS[i]) == k
  }

  /** k is the label of one of the time blocks. */
  predicate IsBlockLabel(k: string)
  {
    exists j :: 0 <= j < |TIME_BLOCKS| && BlockName(TIME_BLOCKS[j]) == k
  }

  /** The part of a day's value set_schedule can see: a mapping keeps only the block labels. */
  function RelevantDay(v: Doc): (r: Doc)
    ensures v.Obj? <==> r.Obj?
    ensures v.Obj? ==> forall b :: (BlockName(b) in r.fields <==> BlockName(b) in v.fields)
    ensures v.Obj? ==> forall b :: BlockName(b) in v.fields ==> r.fields[BlockName(b)] == v.fields[BlockName(b)]
    ensures v.Obj? ==> forall k :: k in r.fields ==> IsBlockLabel(k)
  {
    match v
    case Obj(inner) =>
      assert forall b :: IsBlockLabel(BlockName(b)) by {
        forall b ensures IsBlockLabel(BlockName(b)) { assert TIME_BLOCKS[BlockIndex(b)] == b; }
      }
      Obj(map k | k in inner && IsBlockLabel(k) :: inner[k])
    case _ => v
  }

  /** The parts of a document set_schedule can see: top-level keys that are day labels, with
      their values cut down by RelevantDay. */
  function Relevant(doc: Doc): (r: Doc)
    ensures doc.Obj? <==> r.Obj?
    ensures doc.Obj? ==> forall d :: (DayName(d) in r.fields <==> DayName(d) in doc.fields)
    ensures doc.Obj? ==> forall d :: DayName(d) in doc.fields ==>
      r.fields[DayName(d)] == RelevantDay(doc.fields[DayName(d)])
    ensures doc.Obj? ==> forall k :: k in r.fields ==> IsDayLabel(k)
  {
    match doc
    case Obj(fields) =>
      assert forall d :: IsDayLabel(DayName(d)) by {
        forall d ensures IsDayLabel(DayName(d)) { assert DAYS[DayIndex(d)] == d; }
      }
      Obj(map k | k in fields && IsDayLabel(k) :: RelevantDay(fields[k]))
    case _ => doc
  }

  /** Keys outside DAYS and TIME_BLOCKS have no effect: dropping them changes neither whether
      set_schedule raises nor what it loads. */
  lemma DecodeIgnoresForeignKeys(doc: Doc, render: Doc -> string)
    ensures Decode(Relevant(doc), render) == Decode(doc, render)
  {
    forall d, b | true ensures CellText(Relevant(doc), d, b, render) == CellText(doc, d, b, render) {
      if doc.Obj? && DayName(d) in doc.fields {
        var v := doc.fields[DayName(d)];
        assert Relevant(doc).fields[DayName(d)] == RelevantDay(v);
      }
    }
    DecodeAgrees(Relevant(doc), doc, render, render);
  }

  // ---------------------------------------------------------------------------------------------
  // save followed by load

  /** The labels of all days. */
  function DayLabels(): set<string>
  {
    set i | 0 <= i < |DAYS| :: DayName(DAYS[i])
  }

  /** The labels of all time blocks. */
  function BlockLabels(): set<string>
  {
    set j | 0 <= j < |TIME_BLOCKS| :: BlockName(TIME_BLOCKS[j])
  }

  /** The first day, from number i on, labelled k. */
  function FindDay(k: string, i: nat): (r: Option<Day>)
    requires i <= |DAYS|
    ensures r.Some? ==> DayName(r.value) == k
    ensures r.None? ==> forall j :: i <= j < |DAYS| ==> DayName(DAYS[j]) != k
    decreases |DAYS| - i
  {
    if i == |DAYS| then None
    else if DayName(DAYS[i]) == k then Some(DAYS[i])
    else FindDay(k, i + 1)
  }

  /** The first block, from number j on, labelled k. */
  function FindBlock(k: string, j: nat): (r: Option<Block>)
    requires j <= |TIME_BLOCKS|
    ensures r.Some? ==> BlockName(r.value) == k
    ensures r.None? ==> forall j' :: j <= j' < |TIME_BLOCKS| ==> BlockName(TIME_BLOCKS[j']) != k
    decreases |TIME_BLOCKS| - j
  {
    if j == |TIME_BLOCKS| then None
    else if BlockName(TIME_BLOCKS[j]) == k then Some(TIME_BLOCKS[j])
    else FindBlock(k, j + 1)
  }

  /** The day a label names, if any: labels and days correspond one to one. */
  function DayOf(k: string): (r: Option<Day>)
    ensures r.Some? ==> DayName(r.value) == k
  {
    FindDay(k, 0)
  }

  /** DayOf inverts DayName. */
  lemma DayOfName(d: Day)
    ensures DayOf(DayName(d)) == Some(d)
  {
    NamesDistinct();
    assert DAYS[DayIndex(d)] == d;
  }

  /** The block a label names, if any. */
  function BlockOf(k: string): (r: Option<Block>)
    ensures r.Some? ==> BlockName(r.value) == k
  {
    FindBlock(k, 0)
  }

  /** BlockOf inverts BlockName. */
  lemma BlockOfName(b: Block)
    ensures BlockOf(BlockName(b)) == Some(b)
  {
    NamesDistinct();
    assert TIME_BLOCKS[BlockIndex(b)] == b;
  }

  /** The document json.dump writes for one day's mapping and json.load reads back: an object
      holding every block's label, with the block's text as a string. */
  function RowDoc(row: map<Block, string>): (r: Doc)
    requires forall b :: b in row
    ensures r.Obj? && r.fields.Keys == BlockLabels()
  {
    assert forall k :: k in BlockLabels() ==> BlockOf(k).Some? by {
      forall j | 0 <= j < |TIME_BLOCKS| ensures BlockOf(BlockName(TIME_BLOCKS[j])).Some? {
        BlockOfName(TIME_BLOCKS[j]);
      }
    }
    Obj(map k | k in BlockLabels() :: Str(row[BlockOf(k).value]))
  }

  /** The document json.dump writes for a table and json.load reads back: an object holding every
      day's label, with the day's RowDoc. */
  function AsDoc(t: Table): (r: Doc)
    requires IsTable(t)
    ensures r.Obj? && r.fields.Keys == DayLabels()
  {
    assert forall k :: k in DayLabels() ==> DayOf(k).Some? by {
      forall i | 0 <= i < |DAYS| ensures DayOf(DayName(DAYS[i])).Some? {
        DayOfName(DAYS[i]);
      }
    }
    Obj(map k | k in DayLabels() :: RowDoc(t[DayOf(k).value]))
  }

  /** The saved day mapping holds each block's text under the block's label. */
  lemma RowDocLookup(row: map<Block, string>, b: Block)
    requires forall b' :: b' in row
    ensures BlockName(b) in RowDoc(row).fields && RowDoc(row).fields[BlockName(b)] == Str(row[b])
  {
    BlockOfName(b);
    assert BlockName(TIME_BLOCKS[BlockIndex(b)]) in BlockLabels();
  }

  /** The saved document holds each day's mapping under the day's label. */
  lemma AsDocLookup(t: Table, d: Day)
    requires IsTable(t)
    ensures DayName(d) in AsDoc(t).fields && AsDoc(t).fields[DayName(d)] == RowDoc(t[d])
  {
    DayOfName(d);
    assert DayName(DAYS[DayIndex(d)]) in DayLabels();
  }

  /** The document saved from a table gives each cell back the table's text. */
  lemma AsDocCellText(t: Table, d: Day, b: Block, render: Doc -> string)
    requires IsTable(t)
    ensures CellText(AsDoc(t), d, b, render) == Some(t[d][b])
  {
    AsDocLookup(t, d);
    RowDocLookup(t[d], b);
  }

  /** Loading a saved table never raises and gives every cell the table's text. */
  lemma DecodeAsDoc(t: Table, render: Doc -> string)
    requires IsTable(t)
    ensures Decode(AsDoc(t), render).Some?
    ensures forall k: Key :: Decode(AsDoc(t), render).value[k] == t[k.0][k.1]
  {
    forall d, b | true ensures CellText(AsDoc(t), d, b, render) == Some(t[d][b]) {
      AsDocCellText(t, d, b, render);
    }
    forall k: Key ensures !CellFails(AsDoc(t), k.0, k.1) {
      AsDocCellText(t, k.0, k.1, render);
    }
  }

  /** Saving the grid and loading the file back never raises and gives every cell its own text, stripped. */
  lemma SaveLoadStrips(cells: Cells, render: Doc -> string)
    requires IsGrid(cells)
    ensures Decode(AsDoc(Harvest(cells)), render).Some?
    ensures forall k: Key :: Decode(AsDoc(Harvest(cells)), render).value[k] == Strip(cells[k])
  {
    DecodeAsDoc(Harvest(cells), render);
  }

  /** The cells come back from a save and a load unchanged exactly when none has whitespace at either end. */
  lemma SaveLoadIdentity(cells: Cells, render: Doc -> string)
    requires IsGrid(cells)
    ensures Decode(AsDoc(Harvest(cells)), render) == Some(cells) <==>
      forall k: Key :: Strip(cells[k]) == cells[k]
  {
    SaveLoadStrips(cells, render);
    var r := Decode(AsDoc(Harvest(cells)), render).value;
    GridsEqual(r, cells);
    assert (forall k: Key :: r[k] == cells[k]) <==> (forall k: Key :: Strip(cells[k]) == cells[k]);
  }

  /** Harvesting, saving, loading and harvesting again gives the first harvest back. */
  lemma ReloadPreservesTable(cells: Cells, render: Doc -> string)
    requires IsGrid(cells)
    ensures Decode(AsDoc(Harvest(cells)), render).Some?
    ensures Harvest(Decode(AsDoc(Harvest(cells)), render).value) == Harvest(cells)
  {
    SaveLoadStrips(cells, render);
    var reloaded := Decode(AsDoc(Harvest(cells)), render).value;
    forall d, b | true ensures Harvest(reloaded)[d][b] == Harvest(cells)[d][b] {
      StripIdempotent(cells[(d, b)]);
    }
    TablesEqual(Harvest(reloaded), Harvest(cells));
  }
}
