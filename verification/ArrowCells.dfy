/** What the cells of a converted array are, type by type. */
module ArrowCells {
  import opened Machine
  import opened Wrappers
  import opened Values
  import opened NumberText
  import opened FromArrow
  import Encodings

  // ---------------------------------------------------------------- leaves

  /**
   An instant of so many nanoseconds, in a zone or in none: the microsecond it falls in, with the
   offset of the zone at that microsecond; the text, when no `i64` holds that or the zone has none.
   */
  predicate InstantSays(p: Platform, zone: Option<Zone>, nanos: int, cell: Value, shown: string) {
    match cell
    case Timestamp(instant, offset) =>
      Floors(instant, nanos) && if zone.Some? then offset.Some? && p.offsetAt(zone.value, instant) == offset else offset.None?
    case Text(text) =>
      text == shown && (InI64(nanos / 1000) ==> zone.Some? && p.offsetAt(zone.value, nanos / 1000).None?)
    case _ => false
  }

  /** A length of time, in nothing but microseconds. */
  predicate DurationSays(nanos: int, cell: Value, shown: string) {
    match cell
    case Interval(i) => i.months == 0 && i.days == 0 && Floors(i.micros, nanos)
    case Text(text) => text == shown && !InI64(nanos / 1000)
    case _ => false
  }

  /** A decimal of this number, at its own scale or, below zero, at scale zero; the text where that is out of range. */
  ghost predicate DecimalSays(n: int, scale: i8, cell: Value, shown: string) {
    match cell
    case Decimal(unscaled, s) => s == (if scale >= 0 then scale else 0) && Quantity(unscaled, s) == Quantity(n, scale)
    case Text(text) => text == shown && (scale < -38 || (scale < 0 && !InI128(n * Pow10(Abs(scale)))))
    case _ => false
  }

  predicate TimeSays(nanos: int, cell: Value) {
    cell.Time? && Floors(cell.micros, nanos)
  }

  /** The cell of a valid slot of each type; a zone that cannot be resolved is a fault and has no cells. */
  ghost predicate LeafSays(p: Platform, leafType: LeafType, json: bool, slot: Slot, cell: Value)
    requires SlotFits(leafType, slot)
  {
    var shown := p.shown(leafType, slot);
    match leafType
    case Boolean => cell.Bool? && cell.flag == slot.flag
    case Signed(_) => cell.Int? && cell.signed == slot.n
    case Unsigned(_) => cell.UInt? && cell.unsigned == slot.n
    case Float16 => cell.Float? && cell.bits == p.halfAsDouble(slot.n)
    case Float32 => cell.Float? && cell.bits == p.singleAsDouble(slot.n)
    case Float64 => cell.Float? && cell.bits == slot.n
    case Utf8 => if json then cell.Json? && cell.json == slot.text else cell.Text? && cell.text == slot.text
    case Binary => cell.Bytes? && cell.bytes == slot.bytes
    case Date32 => cell.Date? && cell.days == slot.n
    case Date64 => InstantSays(p, None, slot.n * 1_000_000, cell, shown)
    case Time32(Second) => TimeSays(slot.n * 1_000_000_000, cell)
    case Time32(_) => TimeSays(slot.n * 1_000_000, cell)
    case Time64(Nanosecond) => TimeSays(slot.n, cell)
    case Time64(_) => TimeSays(slot.n * 1000, cell)
    case TimestampOf(unit, None) => InstantSays(p, None, slot.n * UnitNanos(unit), cell, shown)
    case TimestampOf(unit, Some(name)) =>
      p.resolve(name).Some? ==> InstantSays(p, p.resolve(name), slot.n * UnitNanos(unit), cell, shown)
    case Duration(unit) => DurationSays(slot.n * UnitNanos(unit), cell, shown)
    case IntervalOf(YearMonth) =>
      cell.Interval? && cell.interval.months == slot.n && cell.interval.days == 0 && cell.interval.micros == 0
    case IntervalOf(DayTime) =>
      && cell.Interval? && cell.interval.months == 0 && cell.interval.days == slot.days
      && Floors(cell.interval.micros, slot.fraction * 1_000_000)
    case IntervalOf(MonthDayNano) =>
      && cell.Interval? && cell.interval.months == slot.months && cell.interval.days == slot.days
      && Floors(cell.interval.micros, slot.fraction)
    case DecimalOf(_, scale) => DecimalSays(slot.n, scale, cell, shown)
    case Decimal256(scale) =>
      if InI128(slot.n) then DecimalSays(slot.n, scale, cell, shown)
      else cell.Text? && cell.text == p.wideDecimal(slot.n, scale)
    case Unsupported => cell.Text? && cell.text == shown
  }

  lemma InstantMeans(p: Platform, value: i64, unit: Encodings.TimeUnit, zone: Option<Zone>, shown: string)
    ensures InstantSays(p, zone, value * UnitNanos(unit), TimestampCell(p, Micros(value, unit), zone, shown), shown)
  {
    MicrosOrNone(value, unit);
  }

  lemma MicrosOrNone(value: i64, unit: Encodings.TimeUnit)
    ensures var nanos := value * UnitNanos(unit);
            if InI64(nanos / 1000) then Micros(value, unit) == Some(nanos / 1000) && Floors(nanos / 1000, nanos)
            else Micros(value, unit) == None
  {
    var nanos := value * UnitNanos(unit);
    assert Floors(nanos / 1000, nanos);
    if InI64(nanos / 1000) {
      MicrosFloor(value, unit, nanos / 1000);
    }
  }

  lemma DecimalMeans(n: i128, scale: i8, shown: string)
    ensures DecimalSays(n, scale, DecimalCell(n, scale, shown), shown)
  {
    DecimalIsExact(n, scale, shown);
    hide Pow10, Quantity;
  }

  /** Every valid slot of every type becomes the value it stands for. */
  lemma LeafMeans(p: Platform, leafType: LeafType, slots: seq<Option<Slot>>, row: nat, json: bool)
    requires WellFormed(Leaf(leafType, slots)) && row < |slots| && slots[row].Some?
    ensures LeafSays(p, leafType, json, slots[row].value, CellAt(p, Leaf(leafType, slots), row, json))
  {
    var slot := slots[row].value;
    var shown := p.shown(leafType, slot);
    assert CellAt(p, Leaf(leafType, slots), row, json) == LeafCell(p, leafType, ZoneOf(p, leafType), json, slot);
    hide InstantSays, TimestampCell, Micros, DecimalSays, DecimalCell, CellAt, WellFormed;
    match leafType {
      case Date64 => InstantMeans(p, slot.n, Encodings.Millisecond, None, shown);
      case TimestampOf(unit, zone) => InstantMeans(p, slot.n, unit, ZoneOf(p, leafType), shown);
      case Duration(unit) => MicrosOrNone(slot.n, unit);
      case DecimalOf(_, scale) => DecimalMeans(slot.n, scale, shown);
      case Decimal256(scale) =>
        if InI128(slot.n) {
          DecimalMeans(slot.n, scale, shown);
        }
      case _ =>
    }
  }

  // ---------------------------------------------------------------- arrays with children

  /** The items are the rows of the child from `lo` on, in order. */
  predicate FromRow(p: Platform, items: seq<Value>, child: Source, lo: nat, count: nat)
    requires WellFormed(child) && lo + count <= Length(child)
  {
    |items| == count && forall k :: 0 <= k < count ==> items[k] == CellAt(p, child, lo + k, false)
  }

  /** A row of an array with children, told from the rows of the children. */
  predicate NestedSays(p: Platform, arr: Source, row: nat, cell: Value)
    requires WellFormed(arr) && row < Length(arr) && !arr.Leaf?
  {
    match arr
    case Nulls(_) => cell.Null?
    case Leaf(_, _) => false
    case List(valid, offsets, items) =>
      if valid[row] then cell.Array? && FromRow(p, cell.items, items, offsets[row], offsets[row + 1] - offsets[row]) else cell.Null?
    case FixedSizeList(valid, width, items) =>
      if valid[row] && width >= 0 then
        EndOfRow(row, width, |valid|);
        cell.Array? && FromRow(p, cell.items, items, row * width, width)
      else cell.Null?
    case Struct(valid, columns) =>
      if valid[row] then
        cell.Row? && |cell.fields| == |columns|
        && forall c :: 0 <= c < |columns| ==> cell.fields[c] == CellAt(p, columns[c], row, false)
      else cell.Null?
    case MapOf(valid, offsets, keys, items) =>
      if valid[row] then
        cell.Map? && |cell.entries| == offsets[row + 1] - offsets[row]
        && forall k :: 0 <= k < |cell.entries| ==>
             && cell.entries[k].key == CellAt(p, keys, offsets[row] + k, false)
             && cell.entries[k].item == CellAt(p, items, offsets[row] + k, false)
      else cell.Null?
    case Union(typeIds, positions, fieldIds, children) =>
      forall c :: 0 <= c < |children| && fieldIds[c] == typeIds[row] ==>
        positions[row] < Length(children[c]) && cell == CellAt(p, children[c], positions[row], false)
  }

  lemma RangeMeans(p: Platform, child: Source, lo: nat, hi: nat)
    requires WellFormed(child) && lo <= hi <= Length(child)
    ensures FromRow(p, Between(p, child, lo, hi), child, lo, hi - lo)
  {
    hide CellAt, WellFormed, Length;
  }

  lemma ListMeans(p: Platform, arr: Source, row: nat, json: bool)
    requires WellFormed(arr) && row < Length(arr) && arr.List?
    ensures NestedSays(p, arr, row, CellAt(p, arr, row, json))
  {
    hide FromRow;
    if arr.valid[row] {
      RangeMeans(p, arr.items, arr.offsets[row], arr.offsets[row + 1]);
    }
  }

  lemma FixedMeans(p: Platform, arr: Source, row: nat, json: bool)
    requires WellFormed(arr) && row < Length(arr) && arr.FixedSizeList?
    ensures NestedSays(p, arr, row, CellAt(p, arr, row, json))
  {
    hide FromRow;
    var width := arr.width;
    if arr.valid[row] && width >= 0 {
      EndOfRow(row, width, |arr.valid|);
      RangeMeans(p, arr.items, row * width, (row + 1) * width);
      assert (row + 1) * width - row * width == width;
    }
  }

  lemma StructMeans(p: Platform, arr: Source, row: nat, json: bool)
    requires WellFormed(arr) && row < Length(arr) && arr.Struct?
    ensures NestedSays(p, arr, row, CellAt(p, arr, row, json))
  {
  }

  lemma PairsMean(p: Platform, keys: Source, items: Source, lo: nat, hi: nat)
    requires WellFormed(keys) && WellFormed(items) && lo <= hi <= Length(keys) && Length(keys) == Length(items)
    ensures var pairs := Zipped(Between(p, keys, lo, hi), Between(p, items, lo, hi));
            |pairs| == hi - lo
            && forall k :: 0 <= k < |pairs| ==>
                 pairs[k].key == CellAt(p, keys, lo + k, false) && pairs[k].item == CellAt(p, items, lo + k, false)
  {
    hide CellAt, WellFormed, Length;
  }

  lemma MapMeans(p: Platform, arr: Source, row: nat, json: bool)
    requires WellFormed(arr) && row < Length(arr) && arr.MapOf?
    ensures NestedSays(p, arr, row, CellAt(p, arr, row, json))
  {
    hide Zipped, Between;
    if arr.valid[row] {
      PairsMean(p, arr.keys, arr.items, arr.offsets[row], arr.offsets[row + 1]);
    }
  }

  lemma UnionMeans(p: Platform, arr: Source, row: nat, json: bool)
    requires WellFormed(arr) && row < Length(arr) && arr.Union?
    ensures NestedSays(p, arr, row, CellAt(p, arr, row, json))
  {
    hide ChildOf;
    var c := ChildOf(arr.fieldIds, arr.typeIds[row]).value;
    assert arr.fieldIds[c] == arr.typeIds[row];
  }

  /** Every row of an array with children is made of the rows of the children that belong to it. */
  lemma NestedMeans(p: Platform, arr: Source, row: nat, json: bool)
    requires WellFormed(arr) && row < Length(arr) && !arr.Leaf?
    ensures NestedSays(p, arr, row, CellAt(p, arr, row, json))
  {
    match arr {
      case List(_, _, _) => ListMeans(p, arr, row, json);
      case FixedSizeList(_, _, _) => FixedMeans(p, arr, row, json);
      case Struct(_, _) => StructMeans(p, arr, row, json);
      case MapOf(_, _, _, _) => MapMeans(p, arr, row, json);
      case Union(_, _, _, _) => UnionMeans(p, arr, row, json);
      case _ =>
    }
  }

  /** Json columns are those whose field says so; what a chunk stores as JSON is taken for JSON again. */
  lemma JsonComesBack(field: Encodings.Field, enc: Encodings.Encoding, arr: Source)
    requires Encodings.Marked(field, enc)
    ensures IsJson(Field(field.metadata, arr)) <==> enc == Encodings.Json
  {
  }
}
