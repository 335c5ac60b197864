/** The value tree that every source is turned into and every output is made from. */
module Values {
  import opened Machine
  import opened Wrappers

  datatype IntervalValue = IntervalValue(months: i32, days: i32, micros: i64)

  /** One pair of a map: a map is a list of them, in order and with repeats. */
  datatype Entry = Entry(key: Value, item: Value)

  /** Floats are their 64 bits, so NaN payloads and the sign of zero are part of the value. */
  datatype Value =
    | Null
    | Bool(flag: bool)
    | Int(signed: i64)
    | UInt(unsigned: u64)
    | Float(bits: u64)
    | Decimal(unscaled: i128, scale: u8)
    | Text(text: string)
    | Bytes(bytes: seq<u8>)
    | Timestamp(instant: i64, offsetSecs: Option<i32>)
    | Date(days: i32)
    | Time(micros: i64)
    | Interval(interval: IntervalValue)
    | Json(json: string)
    | Array(items: seq<Value>)
    | Row(fields: seq<Value>)
    | Map(entries: seq<Entry>)
    | Unknown(typeName: string, shown: Option<string>, raw: Option<seq<u8>>)

  predicate Composite(v: Value) {
    v.Array? || v.Row? || v.Map?
  }

  /** How many levels of children hang under a value; a composite without children has none. */
  function Nesting(v: Value): nat {
    match v
    case Array(items) => NestingOfAll(items)
    case Row(fields) => NestingOfAll(fields)
    case Map(entries) => NestingOfEntries(entries)
    case _ => 0
  }

  function NestingOfAll(items: seq<Value>): nat {
    if items == [] then 0 else Max(1 + Nesting(items[0]), NestingOfAll(items[1..]))
  }

  function NestingOfEntries(entries: seq<Entry>): nat {
    if entries == [] then 0
    else Max(1 + NestingOfEntry(entries[0]), NestingOfEntries(entries[1..]))
  }

  function NestingOfEntry(entry: Entry): nat {
    Max(Nesting(entry.key), Nesting(entry.item))
  }

  /** The values in a tree, itself included. */
  function Nodes(v: Value): nat {
    1 + match v
        case Array(items) => NodesOfAll(items)
        case Row(fields) => NodesOfAll(fields)
        case Map(entries) => NodesOfEntries(entries)
        case _ => 0
  }

  function NodesOfAll(items: seq<Value>): nat {
    if items == [] then 0 else Nodes(items[0]) + NodesOfAll(items[1..])
  }

  function NodesOfEntries(entries: seq<Entry>): nat {
    if entries == [] then 0
    else NodesOfEntry(entries[0]) + NodesOfEntries(entries[1..])
  }

  function NodesOfEntry(entry: Entry): nat {
    Nodes(entry.key) + Nodes(entry.item)
  }

  function Max(a: nat, b: nat): nat {
    if a < b then b else a
  }
}
