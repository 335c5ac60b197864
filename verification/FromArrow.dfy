/** Arrow arrays from outside the store, turned into cells in bulk: children first, then one slice per row. */
module FromArrow {
  import opened Machine
  import opened Wrappers
  import opened Values
  import opened NumberText
  import opened DecimalTheorems
  import Encodings
  import Store
  import TaggedDecoding
  import TaggedFormat

  // ---------------------------------------------------------------- arrays

  /** The types without children. */
  datatype LeafType =
    | Boolean
    | Signed(bits: nat)
    | Unsigned(bits: nat)
    | Float16
    | Float32
    | Float64
    | Utf8
    | Binary
    | Date32
    | Date64
    | Time32(unit: Encodings.TimeUnit)
    | Time64(unit: Encodings.TimeUnit)
    | TimestampOf(unit: Encodings.TimeUnit, zone: Option<string>)
    | Duration(unit: Encodings.TimeUnit)
    | IntervalOf(parts: Encodings.IntervalUnit)
    | DecimalOf(bits: nat, scale: i8)
    | Decimal256(scale: i8)
    | Unsupported

  /** What a valid slot holds, by physical type. */
  datatype Slot =
    | Flag(flag: bool)
    | Number(n: int)
    | Chars(text: string)
    | Octets(bytes: seq<u8>)
    | Parts(months: i32, days: i32, fraction: i64)

  /** An array as its accessors show it: validity, offsets, and the children they point into. */
  datatype Source =
    | Nulls(rows: nat)
    | Leaf(leafType: LeafType, slots: seq<Option<Slot>>)
    | List(valid: seq<bool>, offsets: seq<nat>, items: Source)
    | FixedSizeList(valid: seq<bool>, width: i32, items: Source)
    | Struct(valid: seq<bool>, columns: seq<Source>)
    | MapOf(valid: seq<bool>, offsets: seq<nat>, keys: Source, items: Source)
    | Union(typeIds: seq<i8>, positions: seq<nat>, fieldIds: seq<i8>, children: seq<Source>)

  function Length(arr: Source): nat {
    match arr
    case Nulls(rows) => rows
    case Leaf(_, slots) => |slots|
    case Union(typeIds, _, _, _) => |typeIds|
    case _ => |arr.valid|
  }

  predicate FitsBits(n: int, bits: nat) {
    match bits
    case 8 => -0x80 <= n < 0x80
    case 16 => -0x8000 <= n < 0x8000
    case 32 => InI32(n)
    case 64 => InI64(n)
    case 128 => InI128(n)
    case _ => false
  }

  predicate FitsUnsigned(n: int, bits: nat) {
    match bits
    case 8 => 0 <= n < 0x100
    case 16 => 0 <= n < 0x1_0000
    case 32 => 0 <= n < 0x1_0000_0000
    case 64 => 0 <= n < 0x1_0000_0000_0000_0000
    case _ => false
  }

  predicate SlotFits(leafType: LeafType, slot: Slot) {
    match leafType
    case Boolean => slot.Flag?
    case Signed(bits) => slot.Number? && bits <= 64 && FitsBits(slot.n, bits)
    case Unsigned(bits) => slot.Number? && FitsUnsigned(slot.n, bits)
    case Float16 => slot.Number? && FitsUnsigned(slot.n, 16)
    case Float32 => slot.Number? && FitsUnsigned(slot.n, 32)
    case Float64 => slot.Number? && FitsUnsigned(slot.n, 64)
    case Utf8 => slot.Chars?
    case Binary => slot.Octets?
    case Date32 => slot.Number? && InI32(slot.n)
    case Date64 => slot.Number? && InI64(slot.n)
    case Time32(_) => slot.Number? && InI32(slot.n)
    case Time64(_) => slot.Number? && InI64(slot.n)
    case TimestampOf(_, _) => slot.Number? && InI64(slot.n)
    case Duration(_) => slot.Number? && InI64(slot.n)
    case IntervalOf(YearMonth) => slot.Number? && InI32(slot.n)
    case IntervalOf(DayTime) => slot.Parts? && InI32(slot.fraction)
    case IntervalOf(MonthDayNano) => slot.Parts?
    case DecimalOf(bits, _) => slot.Number? && bits >= 32 && FitsBits(slot.n, bits)
    case Decimal256(_) => slot.Number?
    case Unsupported => true
  }

  /** One more offset than rows, never falling, never past the child. */
  predicate Offsets(offsets: seq<nat>, rows: nat, limit: nat) {
    && |offsets| == rows + 1
    && (forall i :: 0 <= i < rows ==> offsets[i] <= offsets[i + 1])
    && (forall i :: 0 <= i <= rows ==> offsets[i] <= limit)
  }

  /** The child with this type id. */
  function ChildOf(fieldIds: seq<i8>, typeId: i8): (r: Option<nat>)
    ensures r.Some? ==> r.value < |fieldIds| && fieldIds[r.value] == typeId
    ensures r.None? ==> typeId !in fieldIds
  {
    if fieldIds == [] then None
    else if fieldIds[0] == typeId then Some(0)
    else
      var rest :- ChildOf(fieldIds[1..], typeId);
      Some(rest + 1)
  }

  /** What Arrow guarantees of every array it builds. */
  predicate WellFormed(arr: Source) {
    match arr
    case Nulls(_) => true
    case Leaf(leafType, slots) => forall row :: 0 <= row < |slots| && slots[row].Some? ==> SlotFits(leafType, slots[row].value)
    case List(valid, offsets, items) => WellFormed(items) && Offsets(offsets, |valid|, Length(items))
    case FixedSizeList(valid, width, items) => WellFormed(items) && (width >= 0 ==> |valid| * width <= Length(items))
    case Struct(valid, columns) =>
      forall c :: 0 <= c < |columns| ==> WellFormed(columns[c]) && Length(columns[c]) == |valid|
    case MapOf(valid, offsets, keys, items) =>
      && WellFormed(keys) && WellFormed(items)
      && Offsets(offsets, |valid|, Length(keys)) && Length(keys) == Length(items)
    case Union(typeIds, positions, fieldIds, children) =>
      && |positions| == |typeIds| && |fieldIds| == |children|
      && (forall c :: 0 <= c < |children| ==> WellFormed(children[c]))
      && (forall c, d :: 0 <= c < d < |fieldIds| ==> fieldIds[c] != fieldIds[d])
      && (forall row :: 0 <= row < |typeIds| ==>
            var c := ChildOf(fieldIds, typeIds[row]);
            c.Some? && positions[row] < Length(children[c.value]))
  }

  // ---------------------------------------------------------------- one slot

  datatype Zone = Zone(id: nat)

  /** What comes from libraries: the zone tables, float text, and Arrow's own display of a slot. */
  datatype Platform = Platform(
    resolve: string -> Option<Zone>,
    offsetAt: (Zone, i64) -> Option<i32>,
    halfAsDouble: u16 -> u64,
    singleAsDouble: u32 -> u64,
    shown: (LeafType, Slot) -> string,
    wideDecimal: (int, i8) -> string)

  /** So many of a unit, in microseconds: rounded down, and refused past `i64`. */
  function Micros(value: i64, unit: Encodings.TimeUnit): Option<i64> {
    match unit
    case Second => if InI64(value * 1_000_000) then Some(value * 1_000_000) else None
    case Millisecond => if InI64(value * 1000) then Some(value * 1000) else None
    case Microsecond => Some(value)
    case Nanosecond => Some(value / 1000)
  }

  /** Below zero the scale becomes a factor; ten to the 39th overflows on its own, so even zero is refused there. */
  function Rescale(unscaled: i128, scale: i8): Option<(i128, u8)> {
    if scale >= 0 then Some((unscaled, scale))
    else if !InI128(Pow10(Abs(scale))) then None
    else if !InI128(unscaled * Pow10(Abs(scale))) then None
    else Some((unscaled * Pow10(Abs(scale)), 0))
  }

  function DecimalCell(unscaled: i128, scale: i8, shown: string): Value {
    match Rescale(unscaled, scale)
    case Some((n, s)) => Decimal(n, s)
    case None => Text(shown)
  }

  function TimestampCell(p: Platform, micros: Option<i64>, zone: Option<Zone>, shown: string): Value {
    match (micros, zone)
    case (None, _) => Text(shown)
    case (Some(instant), None) => Timestamp(instant, None)
    case (Some(instant), Some(z)) =>
      (match p.offsetAt(z, instant)
       case Some(offset) => Timestamp(instant, Some(offset))
       case None => Text(shown))
  }

  function LeafCell(p: Platform, leafType: LeafType, zone: Option<Zone>, json: bool, slot: Slot): Value
    requires SlotFits(leafType, slot)
  {
    var shown := p.shown(leafType, slot);
    match leafType
    case Boolean => Bool(slot.flag)
    case Signed(_) => Int(slot.n)
    case Unsigned(_) => UInt(slot.n)
    case Float16 => Float(p.halfAsDouble(slot.n))
    case Float32 => Float(p.singleAsDouble(slot.n))
    case Float64 => Float(slot.n)
    case Utf8 => if json then Json(slot.text) else Text(slot.text)
    case Binary => Bytes(slot.bytes)
    case Date32 => Date(slot.n)
    case Date64 => TimestampCell(p, Micros(slot.n, Encodings.Millisecond), None, shown)
    case Time32(unit) => Time(if unit == Encodings.Second then slot.n * 1_000_000 else slot.n * 1000)
    case Time64(unit) => Time(if unit == Encodings.Nanosecond then slot.n / 1000 else slot.n)
    case TimestampOf(unit, _) => TimestampCell(p, Micros(slot.n, unit), zone, shown)
    case Duration(unit) =>
      (match Micros(slot.n, unit)
       case Some(micros) => Interval(IntervalValue(0, 0, micros))
       case None => Text(shown))
    case IntervalOf(YearMonth) => Interval(IntervalValue(slot.n, 0, 0))
    case IntervalOf(DayTime) => Interval(IntervalValue(0, slot.days, slot.fraction * 1000))
    case IntervalOf(MonthDayNano) => Interval(IntervalValue(slot.months, slot.days, slot.fraction / 1000))
    case DecimalOf(_, scale) => DecimalCell(slot.n, scale, shown)
    case Decimal256(scale) =>
      if InI128(slot.n) then DecimalCell(slot.n, scale, shown) else Text(p.wideDecimal(slot.n, scale))
    case Unsupported => Text(shown)
  }

  function SlotCell(p: Platform, leafType: LeafType, zone: Option<Zone>, json: bool, slot: Option<Slot>): Value
    requires slot.Some? ==> SlotFits(leafType, slot.value)
  {
    match slot
    case None => Null
    case Some(held) => LeafCell(p, leafType, zone, json, held)
  }

  // ---------------------------------------------------------------- one row

  function ZoneOf(p: Platform, leafType: LeafType): Option<Zone> {
    if leafType.TimestampOf? && leafType.zone.Some? then p.resolve(leafType.zone.value) else None
  }

  /** The value of one row, read on its own: a row reaches only into the slots that belong to it. */
  function CellAt(p: Platform, arr: Source, row: nat, json: bool): Value
    requires WellFormed(arr) && row < Length(arr)
    decreases arr, 0
  {
    match arr
    case Nulls(_) => Null
    case Leaf(leafType, slots) => SlotCell(p, leafType, ZoneOf(p, leafType), json, slots[row])
    case List(valid, offsets, items) =>
      if valid[row] then Array(Between(p, items, offsets[row], offsets[row + 1])) else Null
    case FixedSizeList(valid, width, items) =>
      if !valid[row] || width < 0 then Null
      else
        EndOfRow(row, width, |valid|);
        Array(Between(p, items, row * width, (row + 1) * width))
    case Struct(valid, columns) =>
      if valid[row] then Row(seq(|columns|, c requires 0 <= c < |columns| => CellAt(p, columns[c], row, false))) else Null
    case MapOf(valid, offsets, keys, items) =>
      if valid[row]
      then Map(Zipped(Between(p, keys, offsets[row], offsets[row + 1]), Between(p, items, offsets[row], offsets[row + 1])))
      else Null
    case Union(typeIds, positions, fieldIds, children) =>
      CellAt(p, children[ChildOf(fieldIds, typeIds[row]).value], positions[row], false)
  }

  function Between(p: Platform, arr: Source, lo: nat, hi: nat): (cells: seq<Value>)
    requires WellFormed(arr) && lo <= hi <= Length(arr)
    ensures |cells| == hi - lo
    decreases arr, 1
  {
    seq(hi - lo, k requires 0 <= k < hi - lo => CellAt(p, arr, lo + k, false))
  }

  function Zipped(keys: seq<Value>, items: seq<Value>): (entries: seq<Entry>)
    requires |keys| == |items|
    ensures |entries| == |keys|
  {
    seq(|keys|, k requires 0 <= k < |keys| => Entry(keys[k], items[k]))
  }

  lemma EndOfRow(row: nat, width: nat, rows: nat)
    requires row < rows
    ensures 0 <= row * width <= (row + 1) * width <= rows * width
  {
    assert rows * width == (row + 1) * width + (rows - row - 1) * width;
  }

  // ---------------------------------------------------------------- faults

  /** The first thing the conversion trips over: children before their parent, in order. Rows do not matter. */
  function FirstFault(p: Platform, arr: Source): Option<Encodings.Corruption> {
    match arr
    case Nulls(_) => None
    case Leaf(leafType, _) =>
      if leafType.TimestampOf? && leafType.zone.Some? && p.resolve(leafType.zone.value).None?
      then Some(Encodings.UnknownZone(leafType.zone.value)) else None
    case List(_, _, items) => FirstFault(p, items)
    case FixedSizeList(_, width, items) =>
      var inner := FirstFault(p, items);
      if inner.Some? then inner else if width < 0 then Some(Encodings.NegativeWidth) else None
    case Struct(_, columns) => FirstOfAll(p, columns)
    case MapOf(_, _, keys, items) =>
      var first := FirstFault(p, keys);
      if first.Some? then first else FirstFault(p, items)
    case Union(_, _, _, children) => FirstOfAll(p, children)
  }

  function FirstOfAll(p: Platform, columns: seq<Source>): Option<Encodings.Corruption> {
    if columns == [] then None
    else
      var first := FirstFault(p, columns[0]);
      if first.Some? then first else FirstOfAll(p, columns[1..])
  }

  /** Every zone name an array carries. */
  function ZoneNames(arr: Source): set<string> {
    match arr
    case Nulls(_) => {}
    case Leaf(leafType, _) => if leafType.TimestampOf? && leafType.zone.Some? then {leafType.zone.value} else {}
    case List(_, _, items) => ZoneNames(items)
    case FixedSizeList(_, _, items) => ZoneNames(items)
    case Struct(_, columns) => NamesOfAll(columns)
    case MapOf(_, _, keys, items) => ZoneNames(keys) + ZoneNames(items)
    case Union(_, _, _, children) => NamesOfAll(children)
  }

  function NamesOfAll(columns: seq<Source>): set<string> {
    if columns == [] then {} else ZoneNames(columns[0]) + NamesOfAll(columns[1..])
  }

  // ---------------------------------------------------------------- in bulk

  /** The cells are the rows of the array, in order. */
  predicate Rows(p: Platform, arr: Source, json: bool, cells: seq<Value>)
    requires WellFormed(arr)
  {
    |cells| == Length(arr) && forall row :: 0 <= row < |cells| ==> cells[row] == CellAt(p, arr, row, json)
  }

  method LeafRows(p: Platform, leafType: LeafType, zone: Option<Zone>, json: bool, slots: seq<Option<Slot>>)
    returns (cells: seq<Value>)
    requires WellFormed(Leaf(leafType, slots)) && zone == ZoneOf(p, leafType)
    ensures Rows(p, Leaf(leafType, slots), json, cells)
  {
    cells := [];
    for row := 0 to |slots|
      invariant |cells| == row
      invariant forall i :: 0 <= i < row ==> cells[i] == SlotCell(p, leafType, zone, json, slots[i])
    {
      cells := cells + [SlotCell(p, leafType, zone, json, slots[row])];
    }
  }

  method NullRows(p: Platform, rows: nat, json: bool) returns (cells: seq<Value>)
    ensures Rows(p, Nulls(rows), json, cells)
  {
    cells := seq(rows, _ => Null);
  }

  /** A slice of the children is what the rows in that range are, one by one. */
  lemma SliceIsBetween(p: Platform, arr: Source, cells: seq<Value>, lo: nat, hi: nat)
    requires WellFormed(arr) && Rows(p, arr, false, cells) && lo <= hi <= Length(arr)
    ensures cells[lo..hi] == Between(p, arr, lo, hi)
  {
  }

  method ListRows(p: Platform, arr: Source, children: seq<Value>, json: bool) returns (cells: seq<Value>)
    requires WellFormed(arr) && arr.List? && Rows(p, arr.items, false, children)
    ensures Rows(p, arr, json, cells)
  {
    cells := [];
    for row := 0 to |arr.valid|
      invariant |cells| == row
      invariant forall i :: 0 <= i < row ==> cells[i] == CellAt(p, arr, i, json)
    {
      if arr.valid[row] {
        var lo, hi := arr.offsets[row], arr.offsets[row + 1];
        SliceIsBetween(p, arr.items, children, lo, hi);
        cells := cells + [Array(children[lo..hi])];
      } else {
        cells := cells + [Null];
      }
    }
  }

  method FixedRows(p: Platform, arr: Source, children: seq<Value>, json: bool) returns (cells: seq<Value>)
    requires WellFormed(arr) && arr.FixedSizeList? && arr.width >= 0 && Rows(p, arr.items, false, children)
    ensures Rows(p, arr, json, cells)
  {
    var width := arr.width;
    cells := [];
    for row := 0 to |arr.valid|
      invariant |cells| == row
      invariant forall i :: 0 <= i < row ==> cells[i] == CellAt(p, arr, i, json)
    {
      if arr.valid[row] {
        EndOfRow(row, width, |arr.valid|);
        SliceIsBetween(p, arr.items, children, row * width, (row + 1) * width);
        cells := cells + [Array(children[row * width..(row + 1) * width])];
      } else {
        cells := cells + [Null];
      }
    }
  }

  /** Each of these arrays, converted. */
  predicate AllRows(p: Platform, columns: seq<Source>, cells: seq<seq<Value>>)
    requires forall c :: 0 <= c < |columns| ==> WellFormed(columns[c])
  {
    |cells| == |columns| && forall c :: 0 <= c < |columns| ==> Rows(p, columns[c], false, cells[c])
  }

  method StructRows(p: Platform, arr: Source, columns: seq<seq<Value>>, json: bool) returns (cells: seq<Value>)
    requires WellFormed(arr) && arr.Struct? && AllRows(p, arr.columns, columns)
    ensures Rows(p, arr, json, cells)
  {
    cells := [];
    for row := 0 to |arr.valid|
      invariant |cells| == row
      invariant forall i :: 0 <= i < row ==> cells[i] == CellAt(p, arr, i, json)
    {
      if arr.valid[row] {
        var fields := seq(|columns|, c requires 0 <= c < |columns| => columns[c][row]);
        assert CellAt(p, arr, row, json).Row? && fields == CellAt(p, arr, row, json).fields;
        cells := cells + [Row(fields)];
      } else {
        cells := cells + [Null];
      }
    }
  }

  method MapRows(p: Platform, arr: Source, keys: seq<Value>, items: seq<Value>, json: bool) returns (cells: seq<Value>)
    requires WellFormed(arr) && arr.MapOf? && Rows(p, arr.keys, false, keys) && Rows(p, arr.items, false, items)
    ensures Rows(p, arr, json, cells)
  {
    cells := [];
    for row := 0 to |arr.valid|
      invariant |cells| == row
      invariant forall i :: 0 <= i < row ==> cells[i] == CellAt(p, arr, i, json)
    {
      if arr.valid[row] {
        var lo, hi := arr.offsets[row], arr.offsets[row + 1];
        SliceIsBetween(p, arr.keys, keys, lo, hi);
        SliceIsBetween(p, arr.items, items, lo, hi);
        cells := cells + [Map(Zipped(keys[lo..hi], items[lo..hi]))];
      } else {
        cells := cells + [Null];
      }
    }
  }

  /** The children go into a table by type id; each row then takes its slot from the child it names. */
  method UnionRows(p: Platform, arr: Source, children: seq<seq<Value>>, json: bool) returns (cells: seq<Value>)
    requires WellFormed(arr) && arr.Union? && AllRows(p, arr.children, children)
    ensures Rows(p, arr, json, cells)
  {
    var table: map<i8, seq<Value>> := map[];
    for c := 0 to |arr.fieldIds|
      invariant forall d :: 0 <= d < c ==> arr.fieldIds[d] in table && table[arr.fieldIds[d]] == children[d]
    {
      table := table[arr.fieldIds[c] := children[c]];
    }
    cells := [];
    for row := 0 to |arr.typeIds|
      invariant |cells| == row
      invariant forall i :: 0 <= i < row ==> cells[i] == CellAt(p, arr, i, json)
    {
      ghost var c := ChildOf(arr.fieldIds, arr.typeIds[row]).value;
      assert arr.fieldIds[c] == arr.typeIds[row] && Rows(p, arr.children[c], false, children[c]);
      cells := cells + [table[arr.typeIds[row]][arr.positions[row]]];
    }
  }

  /** Remembers every zone it has looked up, for as long as one batch is converted. */
  class Converter {
    const platform: Platform
    var zones: map<string, Zone>
    /** The names looked up and found, in the order of the lookups. */
    ghost var parsed: seq<string>

    ghost predicate Valid()
      reads this
    {
      && (forall name :: name in zones ==> platform.resolve(name) == Some(zones[name]))
      && (forall name :: name in zones <==> name in parsed)
      && (forall i, j :: 0 <= i < j < |parsed| ==> parsed[i] != parsed[j])
    }

    constructor (platform: Platform)
      ensures Valid() && this.platform == platform && zones == map[] && parsed == []
    {
      this.platform := platform;
      zones := map[];
      parsed := [];
    }

    method FindZone(name: string) returns (r: Result<Zone, Encodings.ColumnarError>)
      requires Valid()
      modifies this`zones, this`parsed
      ensures Valid()
      ensures platform.resolve(name) == if r.Ok? then Some(r.value) else None
      ensures r.Err? ==> r.error == Encodings.Corrupt(Encodings.UnknownZone(name))
      ensures zones.Keys == old(zones.Keys) + if r.Ok? then {name} else {}
      ensures old(parsed) <= parsed
    {
      if name in zones {
        return Ok(zones[name]);
      }
      var zone := platform.resolve(name);
      if zone.None? {
        return Err(Encodings.Corrupt(Encodings.UnknownZone(name)));
      }
      zones := zones[name := zone.value];
      parsed := parsed + [name];
      r := Ok(zone.value);
    }

    /**
     One value per row, each equal to the value of that row read on its own; refused exactly for
     the first fault. Every zone name is looked up, and none of them twice.
     */
    method Cells(arr: Source, json: bool) returns (r: Result<seq<Value>, Encodings.ColumnarError>)
      requires Valid() && WellFormed(arr)
      modifies this`zones, this`parsed
      ensures Valid() && old(parsed) <= parsed
      ensures match FirstFault(platform, arr)
              case Some(fault) => r == Err(Encodings.Corrupt(fault))
              case None => r.Ok? && Rows(platform, arr, json, r.value) && zones.Keys == old(zones.Keys) + ZoneNames(arr)
      decreases arr, 0
    {
      hide CellAt, Rows, AllRows, SlotFits, Offsets;
      match arr {
        case Nulls(rows) =>
          var cells := NullRows(platform, rows, json);
          r := Ok(cells);
        case Leaf(leafType, slots) =>
          var zone: Option<Zone> := None;
          if leafType.TimestampOf? && leafType.zone.Some? {
            var found :- FindZone(leafType.zone.value);
            zone := Some(found);
          }
          var cells := LeafRows(platform, leafType, zone, json, slots);
          r := Ok(cells);
        case List(_, _, items) =>
          var children :- Cells(items, false);
          var cells := ListRows(platform, arr, children, json);
          r := Ok(cells);
        case FixedSizeList(_, width, items) =>
          var children :- Cells(items, false);
          if width < 0 {
            return Err(Encodings.Corrupt(Encodings.NegativeWidth));
          }
          var cells := FixedRows(platform, arr, children, json);
          r := Ok(cells);
        case Struct(_, columns) =>
          var converted :- CellsOfAll(columns);
          var cells := StructRows(platform, arr, converted, json);
          r := Ok(cells);
        case MapOf(_, _, keys, items) =>
          var keyCells :- Cells(keys, false);
          var itemCells :- Cells(items, false);
          var cells := MapRows(platform, arr, keyCells, itemCells, json);
          r := Ok(cells);
        case Union(_, _, _, children) =>
          var converted :- CellsOfAll(children);
          var cells := UnionRows(platform, arr, converted, json);
          r := Ok(cells);
      }
    }

    method CellsOfAll(columns: seq<Source>) returns (r: Result<seq<seq<Value>>, Encodings.ColumnarError>)
      requires Valid() && forall c :: 0 <= c < |columns| ==> WellFormed(columns[c])
      modifies this`zones, this`parsed
      ensures Valid() && old(parsed) <= parsed
      ensures match FirstOfAll(platform, columns)
              case Some(fault) => r == Err(Encodings.Corrupt(fault))
              case None => r.Ok? && AllRows(platform, columns, r.value) && zones.Keys == old(zones.Keys) + NamesOfAll(columns)
      decreases columns, 1
    {
      var converted: seq<seq<Value>> := [];
      for c := 0 to |columns|
        invariant Valid() && old(parsed) <= parsed
        invariant AllRows(platform, columns[..c], converted)
        invariant FirstOfAll(platform, columns) == FirstOfAll(platform, columns[c..])
        invariant zones.Keys + NamesOfAll(columns[c..]) == old(zones.Keys) + NamesOfAll(columns)
      {
        assert columns[c..][0] == columns[c] && columns[c..][1..] == columns[c + 1..];
        var cells :- Cells(columns[c], false);
        converted := converted + [cells];
        assert columns[..c + 1] == columns[..c] + [columns[c]];
      }
      assert columns[..|columns|] == columns;
      r := Ok(converted);
    }
  }

  // ---------------------------------------------------------------- what a cell means

  /** Whether a row holds nothing: its own bit, or for a union the row of the child it names. */
  predicate NullRow(arr: Source, row: nat)
    requires WellFormed(arr) && row < Length(arr)
  {
    match arr
    case Nulls(_) => true
    case Leaf(_, slots) => slots[row].None?
    case Union(typeIds, positions, fieldIds, children) =>
      NullRow(children[ChildOf(fieldIds, typeIds[row]).value], positions[row])
    case _ => !arr.valid[row]
  }

  /** Nulls stay null and nothing else becomes one, whatever the slot could not be typed as. */
  lemma {:induction false} NullsAreKept(p: Platform, arr: Source, row: nat, json: bool)
    requires WellFormed(arr) && row < Length(arr) && FirstFault(p, arr).None?
    ensures CellAt(p, arr, row, json).Null? <==> NullRow(arr, row)
  {
    if arr.Union? {
      var c := ChildOf(arr.fieldIds, arr.typeIds[row]).value;
      NoFaultInside(p, arr.children, c);
      NullsAreKept(p, arr.children[c], arr.positions[row], false);
    }
  }

  lemma {:induction false} NoFaultInside(p: Platform, columns: seq<Source>, c: nat)
    requires c < |columns| && FirstOfAll(p, columns).None?
    ensures FirstFault(p, columns[c]).None?
  {
    if c > 0 {
      NoFaultInside(p, columns[1..], c - 1);
    }
  }

  function UnitNanos(unit: Encodings.TimeUnit): nat {
    match unit
    case Second => 1_000_000_000
    case Millisecond => 1_000_000
    case Microsecond => 1000
    case Nanosecond => 1
  }

  /** `micros` is the last whole microsecond not after this many nanoseconds. */
  predicate Floors(micros: int, nanos: int) {
    micros * 1000 <= nanos < (micros + 1) * 1000
  }

  /** Conversion floors, before 1970 as after it, and refuses exactly what no `i64` of microseconds holds. */
  lemma MicrosFloor(value: i64, unit: Encodings.TimeUnit, micros: i64)
    ensures Micros(value, unit) == Some(micros) <==> Floors(micros, value * UnitNanos(unit))
  {
  }

  /** `n / 10^s`. */
  ghost function Quantity(n: int, scale: int): real {
    n as real * Pow10Real(-scale)
  }

  lemma PowersBound()
    ensures Pow10(38) == 100_000_000_000_000_000_000_000_000_000_000_000_000
    ensures Pow10(39) == 1_000_000_000_000_000_000_000_000_000_000_000_000_000
  {
    Pow10Values();
    Pow10Adds(6, 6);
    Pow10Adds(12, 12);
    Pow10Adds(24, 12);
    Pow10Adds(36, 2);
    Pow10Adds(36, 3);
  }

  lemma {:induction false} PowersGrow(a: nat, b: nat)
    requires a <= b
    ensures Pow10(a) <= Pow10(b)
  {
    if a < b {
      PowersGrow(a, b - 1);
    }
  }

  /**
   A decimal keeps its number. Text is shown instead exactly when a negative scale takes it out of
   `i128`, or when the scale is below -38, even for zero, which would fit.
   */
  lemma DecimalIsExact(unscaled: i128, scale: i8, shown: string)
    ensures var cell := DecimalCell(unscaled, scale, shown);
            && (cell.Decimal? <==> scale >= -38 && (scale < 0 ==> InI128(unscaled * Pow10(Abs(scale)))))
            && (cell.Decimal? ==> Quantity(cell.unscaled, cell.scale) == Quantity(unscaled, scale))
            && (!cell.Decimal? ==> cell == Text(shown))
  {
    var up := Abs(scale);
    PowersBound();
    if scale < 0 {
      if up <= 38 {
        PowersGrow(up, 38);
      } else {
        PowersGrow(39, up);
      }
      RealProduct(unscaled, Pow10(up));
    }
  }

  /** How deep the children of an array go. */
  function Depth(arr: Source): nat {
    match arr
    case Nulls(_) => 0
    case Leaf(_, _) => 0
    case List(_, _, items) => 1 + Depth(items)
    case FixedSizeList(_, _, items) => 1 + Depth(items)
    case Struct(_, columns) => 1 + DepthOfAll(columns)
    case MapOf(_, _, keys, items) => 1 + Max(Depth(keys), Depth(items))
    case Union(_, _, _, children) => DepthOfAll(children)
  }

  function DepthOfAll(columns: seq<Source>): (d: nat)
    ensures forall c :: 0 <= c < |columns| ==> Depth(columns[c]) <= d
  {
    if columns == [] then 0 else Max(Depth(columns[0]), DepthOfAll(columns[1..]))
  }

  lemma {:induction false} NestingBound(items: seq<Value>, d: nat)
    requires forall k :: 0 <= k < |items| ==> Nesting(items[k]) <= d
    ensures NestingOfAll(items) <= d + 1
  {
    if items != [] {
      NestingBound(items[1..], d);
    }
  }

  lemma {:induction false} NestingBoundOfEntries(entries: seq<Entry>, d: nat)
    requires forall k :: 0 <= k < |entries| ==> Nesting(entries[k].key) <= d && Nesting(entries[k].item) <= d
    ensures NestingOfEntries(entries) <= d + 1
  {
    if entries != [] {
      NestingBoundOfEntries(entries[1..], d);
    }
  }

  /** No cell nests deeper than its array does. */
  lemma {:induction false} NestingFollowsDepth(p: Platform, arr: Source, row: nat, json: bool)
    requires WellFormed(arr) && row < Length(arr)
    ensures Nesting(CellAt(p, arr, row, json)) <= Depth(arr)
    decreases arr, 0
  {
    match arr {
      case Nulls(_) =>
      case Leaf(leafType, slots) =>
      case List(valid, offsets, items) =>
        if valid[row] {
          NestingOfRange(p, items, offsets[row], offsets[row + 1]);
          NestingBound(Between(p, items, offsets[row], offsets[row + 1]), Depth(items));
        }
      case FixedSizeList(valid, width, items) =>
        if valid[row] && width >= 0 {
          EndOfRow(row, width, |valid|);
          NestingOfRange(p, items, row * width, (row + 1) * width);
          NestingBound(Between(p, items, row * width, (row + 1) * width), Depth(items));
        }
      case Struct(valid, columns) =>
        if valid[row] {
          var fields := CellAt(p, arr, row, json).fields;
          forall c | 0 <= c < |columns|
            ensures Nesting(fields[c]) <= DepthOfAll(columns)
          {
            NestingFollowsDepth(p, columns[c], row, false);
          }
          NestingBound(fields, DepthOfAll(columns));
        }
      case MapOf(valid, offsets, keys, items) =>
        if valid[row] {
          NestingOfRange(p, keys, offsets[row], offsets[row + 1]);
          NestingOfRange(p, items, offsets[row], offsets[row + 1]);
          NestingBoundOfEntries(CellAt(p, arr, row, json).entries, Max(Depth(keys), Depth(items)));
        }
      case Union(typeIds, positions, fieldIds, children) =>
        NestingFollowsDepth(p, children[ChildOf(fieldIds, typeIds[row]).value], positions[row], false);
    }
  }

  lemma {:induction false} NestingOfRange(p: Platform, arr: Source, lo: nat, hi: nat)
    requires WellFormed(arr) && lo <= hi <= Length(arr)
    ensures forall k :: 0 <= k < hi - lo ==> Nesting(Between(p, arr, lo, hi)[k]) <= Depth(arr)
    decreases arr, 1
  {
    forall k | 0 <= k < hi - lo
      ensures Nesting(Between(p, arr, lo, hi)[k]) <= Depth(arr)
    {
      NestingFollowsDepth(p, arr, lo + k, false);
    }
  }

  // ---------------------------------------------------------------- a batch

  datatype Field = Field(metadata: map<string, string>, arr: Source)

  predicate IsJson(field: Field) {
    "ARROW:extension:name" in field.metadata && field.metadata["ARROW:extension:name"] == "arrow.json"
  }

  /** The cells of one column of a batch. */
  function ColumnCells(p: Platform, field: Field): (cells: seq<Value>)
    requires WellFormed(field.arr)
    ensures Rows(p, field.arr, IsJson(field), cells)
  {
    seq(Length(field.arr), row requires 0 <= row < Length(field.arr) => CellAt(p, field.arr, row, IsJson(field)))
  }

  /** A record batch: equally long columns. */
  predicate IsBatch(fields: seq<Field>) {
    && (forall c :: 0 <= c < |fields| ==> WellFormed(fields[c].arr))
    && (forall c :: 0 <= c < |fields| ==> Length(fields[c].arr) == Length(fields[0].arr))
  }

  predicate Faultless(p: Platform, fields: seq<Field>) {
    forall c :: 0 <= c < |fields| ==> FirstFault(p, fields[c].arr).None?
  }

  /** No cell of the column nests deeper than the codec goes. */
  predicate ShallowColumn(p: Platform, field: Field)
    requires WellFormed(field.arr)
  {
    Store.Shallow(ColumnCells(p, field))
  }

  /**
   Refused are the first fault, a batch without columns and a cell nested past the codec's limit,
   in that order. Every other batch is sealed, each column holding the cells of the batch.
   */
  method Import(p: Platform, fields: seq<Field>) returns (r: Result<Store.SealedChunk, Encodings.ColumnarError>)
    requires IsBatch(fields)
    ensures forall c :: 0 <= c < |fields| && FirstFault(p, fields[c].arr).Some? && Faultless(p, fields[..c])
                        ==> r == Err(Encodings.Corrupt(FirstFault(p, fields[c].arr).value))
    ensures fields == [] ==> r == Err(Encodings.Width(1, 0))
    ensures Faultless(p, fields) && (exists c :: 0 <= c < |fields| && !ShallowColumn(p, fields[c])) ==>
              r == Err(Encodings.Corrupt(Encodings.BadBlob(TaggedDecoding.TooDeep)))
    ensures Faultless(p, fields) && fields != [] && (forall c :: 0 <= c < |fields| ==> ShallowColumn(p, fields[c])) ==>
              && r.Ok?
              && |r.value.fields| == |r.value.arrays| == |r.value.encodings| == |fields|
              && forall c :: 0 <= c < |fields| ==>
                   Store.Placed(c, ColumnCells(p, fields[c]), r.value.fields[c], r.value.arrays[c], r.value.encodings[c])
  {
    hide CellAt, Depth, FirstFault, Store.Chosen, Store.Placed, Store.Shallow;
    var converter := new Converter(p);
    var columns: seq<seq<Value>> := [];
    for c := 0 to |fields|
      invariant converter.Valid() && converter.platform == p
      invariant |columns| == c && Faultless(p, fields[..c])
      invariant forall b :: 0 <= b < c ==> columns[b] == ColumnCells(p, fields[b])
    {
      var cells := converter.Cells(fields[c].arr, IsJson(fields[c]));
      assert fields[..c + 1] == fields[..c] + [fields[c]];
      if cells.Err? {
        FirstFaultyColumn(p, fields, c);
        return Err(cells.error);
      }
      assert cells.value == ColumnCells(p, fields[c]);
      columns := columns + [cells.value];
    }
    assert fields[..|fields|] == fields;
    r := Store.SealColumns(columns);
  }

  lemma NoneBefore(p: Platform, fields: seq<Field>, c: nat)
    requires c <= |fields| && Faultless(p, fields[..c])
    ensures forall b :: 0 <= b < c ==> FirstFault(p, fields[b].arr).None?
  {
    hide FirstFault;
    forall b | 0 <= b < c
      ensures FirstFault(p, fields[b].arr).None?
    {
      assert fields[..c][b] == fields[b];
    }
  }

  /** Only one column can be the first with a fault. */
  lemma FirstFaultyColumn(p: Platform, fields: seq<Field>, c: nat)
    requires c < |fields| && FirstFault(p, fields[c].arr).Some? && Faultless(p, fields[..c])
    ensures !Faultless(p, fields)
    ensures forall b :: 0 <= b < |fields| && FirstFault(p, fields[b].arr).Some? && Faultless(p, fields[..b]) ==> b == c
  {
    hide FirstFault;
    NoneBefore(p, fields, c);
    forall b | 0 <= b < |fields| && FirstFault(p, fields[b].arr).Some? && Faultless(p, fields[..b])
      ensures b == c
    {
      NoneBefore(p, fields, b);
    }
  }

  /** So a batch of arrays nested no deeper than the codec goes is never refused for depth. */
  lemma ShallowArrays(p: Platform, field: Field)
    requires WellFormed(field.arr) && Depth(field.arr) <= TaggedFormat.MAX_DEPTH
    ensures ShallowColumn(p, field)
  {
    hide CellAt, Nesting, Depth;
    forall row | 0 <= row < Length(field.arr)
      ensures Nesting(ColumnCells(p, field)[row]) <= TaggedFormat.MAX_DEPTH
    {
      NestingFollowsDepth(p, field.arr, row, IsJson(field));
    }
  }

  /** From an Arrow array to the store and back: a row reads as its own meaning, if and only if that survives its kind. */
  lemma ImportReadsBack(p: Platform, source: Field, field: Encodings.Field, arr: Store.ArrowArray, enc: Encodings.Encoding, row: nat)
    requires WellFormed(source.arr) && row < Length(source.arr)
    requires Store.Sealed(ColumnCells(p, source), field, arr, enc)
    requires forall i :: 0 <= i < Length(source.arr) ==> Store.InMemory(CellAt(p, source.arr, i, IsJson(source)))
    ensures Store.WellTyped(arr) && |arr.slots| == Length(source.arr)
    ensures exists kind :: Store.Chosen(ColumnCells(p, source), kind)
              && (Store.ValueAt(arr, enc, row) == Ok(CellAt(p, source.arr, row, IsJson(source)))
                  <==> Store.Survives(kind, CellAt(p, source.arr, row, IsJson(source))))
  {
    Store.SealedReadsBack(ColumnCells(p, source), field, arr, enc, row);
  }
}
