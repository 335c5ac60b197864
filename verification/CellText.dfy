/** One cell's text straight from a sealed array, with the shortcuts that skip building a value. */
module CellText {
  import opened Wrappers
  import opened Values
  import opened Encodings
  import opened Store
  import opened Render

  function TextAt(arr: ArrowArray, enc: Encoding, row: nat, floats: FloatText): Result<Option<string>, ColumnarError>
    requires WellTyped(arr) && row < |arr.slots|
  {
    match arr.slots[row]
    case None => Ok(None)
    case Some(slot) =>
      match enc
      case Text => if arr.dataType == Utf8Type then Ok(Some(slot.text)) else Err(Mismatch(enc, arr.dataType))
      case Json => if arr.dataType == Utf8Type then Ok(Some(slot.text)) else Err(Mismatch(enc, arr.dataType))
      case Bytes => if arr.dataType == Binary then Ok(Some(HexText(slot.bytes))) else Err(Mismatch(enc, arr.dataType))
      case _ =>
        var value :- ValueAt(arr, enc, row);
        Ok(ToText(value, floats))
  }

  /** Wherever a value can be read, the text is the text of that value, shortcut or not. */
  lemma ShortcutsAgree(arr: ArrowArray, enc: Encoding, row: nat, floats: FloatText)
    requires WellTyped(arr) && row < |arr.slots| && ValueAt(arr, enc, row).Ok?
    ensures TextAt(arr, enc, row, floats) == Ok(ToText(ValueAt(arr, enc, row).value, floats))
  {
    match arr.slots[row] {
      case None =>
      case Some(slot) =>
        match enc {
          case Text => assert Written("", Value.Text(slot.text), floats) == "" + slot.text == slot.text;
          case Json => assert Written("", Value.Json(slot.text), floats) == "" + slot.text == slot.text;
          case Bytes => assert Written("", Value.Bytes(slot.bytes), floats) == "" + HexText(slot.bytes) == HexText(slot.bytes);
          case _ =>
        }
    }
  }

  /** So a sealed cell that comes back shows the text of the cell that was staged. */
  lemma SealedText(column: seq<Value>, field: Field, arr: ArrowArray, enc: Encoding, row: nat, floats: FloatText)
    requires Sealed(column, field, arr, enc) && row < |column|
    requires forall i :: 0 <= i < |column| ==> InMemory(column[i])
    ensures WellTyped(arr) && |arr.slots| == |column|
    ensures exists kind :: Chosen(column, kind)
              && (Survives(kind, column[row]) ==> TextAt(arr, enc, row, floats) == Ok(ToText(column[row], floats)))
  {
    SealedReadsBack(column, field, arr, enc, row);
    if ValueAt(arr, enc, row).Ok? {
      ShortcutsAgree(arr, enc, row, floats);
    }
  }
}
