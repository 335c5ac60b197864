# The value path, modelled and proved in Dafny

This project models how one canonical `Value` of the Rust engine travels: encoded into a blob,
staged and cut into chunks, sealed into typed columns and read back, printed, parsed from what a
server sent, converted from Arrow, framed between processes, and pointed at in the text of a
statement. `dafny verify dfyconfig.toml` checks the whole project; no code of the repository is executed.

Code that changes things step by step is modelled that way: `ByteBuffer` and the `Reader` cursor,
`ChunkBuilder`, the `TextBuffer` that the writers append to, the byte `Source` and `Sink` of the
framing, the zone cache of the Arrow `Converter`, and the loops of the column builder, the position
walk and the decimal parser. Each such method is proved against a function of its inputs, and the
lemmas say what that function means. Text is a sequence of Unicode scalars with a concrete UTF-8
codec (`Utf8`), floats are their 64 bits, and machine integers are bounded subset types, with casts
and release-profile wrap-around written out (`Machine`).

| File | Holds |
|---|---|
| `Values`, `Machine`, `Wrappers`, `Utf8`, `NumberText`, `TextScan` | the value tree, integers, results, UTF-8, decimal digits, splitting text |
| `TaggedFormat`, `TaggedCodec` | the blob of a value; the encoder that appends it |
| `TaggedDecoding`, `TaggedReader`, `TaggedTheorems`, `TaggedPrefixes`, `TaggedLayout` | what is read at a position; the cursor that reads it; both directions of the codec; blobs laid end to end; the actual bytes |
| `Columns`, `ChunkBuilders`, `Chunking`, `ChunkWeights` | rectangular blocks and their size, the builder, the two ways of cutting, and where the cuts fall in bytes and rows |
| `Encodings`, `Zones`, `ZoneGrammar`, `Store`, `SealedTypes`, `StoreReads`, `CellText` | encodings and fields, zone text, sealing and reading, which type a column gets, text straight from a column |
| `FromArrow`, `ArrowCells` | arrays from outside, turned into cells in bulk, and what each cell is |
| `Calendar`, `Render`, `Renderer`, `RenderTheorems`, `JsonGrammar`, `JsonTheorems` | the calendar, the texts, the writers that produce them, and a reader for RFC 8259 |
| `Normalize`, `DecimalTheorems`, `TemporalTheorems`, `TemporalGrammar`, `TemporalValues` | the parsers of one server's text, what every text they accept means, and what they agree with |
| `Framing`, `Position` | QHA1 frames; lines and columns |

## Exact conditions

These are the places where a natural reading of the documentation promises more than the code
does. The model follows the code, and the theorem named states when, and only when, the promise holds.

- A blob comes back if and only if every string and byte string in it is at most 256 MiB, every
  count fits 32 bits, and at most 64 levels of children hang under the value
  (`TaggedTheorems.RoundTrip`). The encoder writes longer strings without complaint.
- A column of zoned timestamps is chosen for any whole-minute offset, but the zone text is read back
  if and only if the offset is under 24 hours in size (`Zones.OffsetSurvives`, `Store.ReadBack`).
- A printed timestamp in a zone names its instant if and only if the offset has no seconds: the
  suffix drops them, the wall clock does not (`RenderTheorems.ZonedTextNames`).
- `write_text` appends a value's own text if and only if the buffer was empty, or the value is not
  an interval, or the interval has months: the separators of an interval ask about the whole buffer
  (`Render.AppendLaw`).
- A nested value prints as JSON if and only if it holds no non-finite float
  (`JsonTheorems.StructuresPrintJson`).
- A printed decimal parses back if and only if its scale is at most 38 and it is not the least `i128`
  (`DecimalTheorems.DecimalRoundTrip`).
- A parsed decimal is the number its text denotes if and only if the 32-bit scale did not wrap or
  every digit is zero (`DecimalTheorems.ParsedIsExact`). No accepted text shorter than 2^31 - 64
  characters wraps (`DecimalTheorems.ShortTextsDoNotWrap`); a longer one can be misread
  (`DecimalTheorems.LongTextIsMisread`).
- A printed timestamp without a zone parses back if and only if it is not before year 0
  (`TemporalTheorems.TimestampRoundTrip`).
- The two protocols of the server agree on a date and time out of range only where no fraction is
  printed: the text protocol keeps the fraction, the binary one drops it
  (`TemporalTheorems.DateTimesAgree`). They agree on a duration if and only if its minutes and seconds
  are in the range the text parser accepts (`TemporalTheorems.DurationsAgree`).
- A date with day 31 in a 30-day month is accepted and rolls into the next month
  (`Calendar.LooseDateRoundTrip`).
- A decimal with an Arrow scale below -38 becomes text even when it is zero (`FromArrow.DecimalIsExact`).
- A place in a text of any length is given its own offset if and only if that offset fits 32 bits
  and the line is shorter than 2^32 - 1 scalars. It is refused if the line is that long or starts
  past 32 bits; in between, the offset comes back less 2^32, so two places can share one
  (`Position.OffsetIsExact`, `Position.LineOffsetIsExact`, `Position.LongTextsShareOffsets`).
- No blob starts another as long as every string and count is below 2^32; past that the cut count
  makes the blob of the empty array a start of a longer one (`TaggedPrefixes.SelfDelimiting`,
  `TaggedPrefixes.CutCountIsPrefix`).
- Durations are checked only from above: minutes and seconds are in range if and only if neither
  field has a minus sign before a digit other than zero, so `10:-30:00` is half past nine
  (`TemporalGrammar.DurationRanges`, `TemporalGrammar.NegativeMinutes`). Text after a third colon is
  not read. The microseconds are those the text says if and only if they fit an `i64`
  (`TemporalGrammar.DurationMeans`, `TemporalGrammar.StampMeans`).

## Model

| member | source | states |
|---|---|---|
| Utf8.DecodeOfEncode | crates/qh-columnar/src/tagged.rs:373-384 | UTF-8 text decodes to the scalars it was encoded from |
| Utf8.EncodeOfDecode | crates/qh-columnar/src/tagged.rs:373-384 | only canonical UTF-8 is accepted: whatever decodes is the encoding of what it decodes to |
| TaggedCodec.EncodeValue | crates/qh-columnar/src/tagged.rs:50-52 | appends the blob and succeeds exactly when the value nests at most 64 levels; a refusal only ever leaves bytes added at the end |
| TaggedCodec.EncodeAt | crates/qh-columnar/src/tagged.rs:54-160 | the same at any depth, for every variant |
| TaggedCodec.EncodeComposite | crates/qh-columnar/src/tagged.rs:162-174 | an array or row is its tag, its count cut to 32 bits, and the blobs of its items in order |
| TaggedCodec.EncodeEntries | crates/qh-columnar/src/tagged.rs:126-133 | a map is its tag, its count, and key then item for each entry in order |
| TaggedCodec.EncodeUnknown | crates/qh-columnar/src/tagged.rs:134-157 | an unknown value keeps which of text and raw bytes were present |
| TaggedReader.Reader.Take | crates/qh-columnar/src/tagged.rs:311-330 | never reads past the end, and does not move when it fails |
| TaggedReader.Reader.LengthPrefixed | crates/qh-columnar/src/tagged.rs:363-371 | refuses a length over 256 MiB before taking anything |
| TaggedReader.Reader.Text | crates/qh-columnar/src/tagged.rs:373-384 | refuses bytes that are not UTF-8 |
| TaggedReader.Reader.DecodeValue | crates/qh-columnar/src/tagged.rs:184-266 | on every byte string it terminates, stays in bounds, never moves back, and restores the depth on success and on failure; the result and the new position are those read at the old one |
| TaggedReader.Reader.DecodeComposite | crates/qh-columnar/src/tagged.rs:268-275 | the counted items, read one after another |
| TaggedReader.Reader.DecodeEntries | crates/qh-columnar/src/tagged.rs:229-237 | the counted pairs, read one after another |
| TaggedReader.Reader.DecodeNested | crates/qh-columnar/src/tagged.rs:280-290 | refuses the 65th level, and gives the level back whatever happens inside |
| TaggedTheorems.ValueExact | crates/qh-columnar/src/tagged.rs:184-290 | the decoder returns a value if and only if the bytes spell that value, its lengths are within the limits, and it fits under the depth limit |
| TaggedTheorems.TextExact | crates/qh-columnar/src/tagged.rs:373-384 | a text field is read if and only if its prefixed UTF-8 lies there and is at most 256 MiB |
| TaggedTheorems.TimestampExact | crates/qh-columnar/src/tagged.rs:200-215 | a zone flag of 0 or 1 keeps no zone apart from offset zero, and any other flag is refused |
| TaggedTheorems.UnknownExact | crates/qh-columnar/src/tagged.rs:238-261 | an unknown value is read if and only if its name, flags and the parts the flags promise lie there |
| TaggedTheorems.BlobAccepted | crates/qh-columnar/src/tagged.rs:54-160 | the bytes the encoder writes for a value spell that value |
| TaggedTheorems.RoundTrip | crates/qh-columnar/src/tagged.rs:50-290 | wherever a blob lies and whatever follows, decoding gives the value and stops at its end if and only if the value is storable |
| TaggedPrefixes.SelfDelimiting | crates/qh-columnar/src/tagged.rs:50-179 | at any depth, with every string and count below 2^32, blobs laid end to end are told apart: equal bytes start with the blob of one value only, so none is a proper prefix of another |
| TaggedPrefixes.ValuesAgree | crates/qh-columnar/src/tagged.rs:54-179 | two values whose blobs lie at one place are one value, field by field |
| TaggedPrefixes.CutCountIsPrefix | crates/qh-columnar/src/tagged.rs:169-169 | a count of 2^32 is cut to zero, and then one blob does start another |
| TaggedPrefixes.FitsIsCounted | crates/qh-columnar/src/tagged.rs:363-371 | every value the decoder accepts is among those told apart |
| TaggedTheorems.DecodedIsStorable | crates/qh-columnar/src/tagged.rs:184-385 | any success, on any bytes, consumes at least one byte for each value in the tree, nests at most 64 deep, and survives being encoded again |
| TaggedTheorems.BlobCoversNodes | crates/qh-columnar/src/tagged.rs:54-160 | a blob has at least one byte for each value in the tree |
| TaggedLayout.ScalarBytes | crates/qh-columnar/src/tagged.rs:61-117 | the tag and the fixed-width fields of each scalar, in actual bytes |
| TaggedLayout.InstantBytes | crates/qh-columnar/src/tagged.rs:95-123 | timestamps with and without a zone, and intervals, in actual bytes |
| TaggedLayout.StringBytes | crates/qh-columnar/src/tagged.rs:83-94 | texts, JSON and byte strings with their length, in actual bytes |
| TaggedLayout.UnknownBytes | crates/qh-columnar/src/tagged.rs:134-157 | unknown values with each of the four presence flags, in actual bytes |
| TaggedLayout.ListBytes | crates/qh-columnar/src/tagged.rs:162-174 | arrays and rows with their count, in actual bytes |
| TaggedLayout.MapBytes | crates/qh-columnar/src/tagged.rs:126-133 | a map with its count, each key before its item, in actual bytes |
| TaggedLayout.DepthLimit | crates/qh-columnar/src/tagged.rs:40-59 | 64 levels of arrays come back and 65 do not |
| TaggedLayout.LengthLimit | crates/qh-columnar/src/tagged.rs:363-371 | texts and byte strings come back up to 268,435,456 bytes and not beyond |
| Columns.NewBatch | crates/qh-core/src/batch.rs:65-80 | a batch is accepted exactly when it has a column and is rectangular; otherwise the first column of another length is named |
| Columns.TotalWidthOfAppend | crates/qh-columnar/src/builder.rs:225-247 | the size estimate of rows put end to end is the sum of the two estimates |
| Columns.RowWidthIsSliceWidth | crates/qh-columnar/src/builder.rs:138-163 | a row measured across the columns is as wide as the same row measured by column |
| Columns.PrefixGrows | crates/qh-columnar/src/builder.rs:138-163 | summing row by row, as the cut does, gives what summing column by column, as the builder does, gives |
| Columns.FullIsMonotone | crates/qh-columnar/src/builder.rs:94-96 | a full block stays full when it grows |
| ChunkBuilders.ChunkBuilder.constructor | crates/qh-columnar/src/builder.rs:56-62 | a new builder is rectangular, empty and measured |
| ChunkBuilders.ChunkBuilder.IsFull | crates/qh-columnar/src/builder.rs:94-96 | the running estimate decides fullness as the staged cells themselves would |
| ChunkBuilders.ChunkBuilder.Truncate | crates/qh-columnar/src/builder.rs:79-91 | keeps the leading rows of every column; the estimate stays the sum over the staged cells, so its subtraction cannot underflow |
| ChunkBuilders.ChunkBuilder.PushValue | crates/qh-columnar/src/builder.rs:124-132 | one cell at the end of one column, measured |
| ChunkBuilders.ChunkBuilder.PushRow | crates/qh-columnar/src/builder.rs:260-266 | one whole row keeps the builder rectangular and measured |
| ChunkBuilders.ChunkBuilder.PushOwned | crates/qh-columnar/src/builder.rs:225-247 | every row is appended in order, whether the columns are taken whole or cell by cell; another width changes nothing |
| ChunkBuilders.ChunkBuilder.PushBatch | crates/qh-columnar/src/builder.rs:251-270 | appends the leading rows up to the first point where the builder is full, and says how many |
| ChunkBuilders.ChunkBuilder.SplitSealable | crates/qh-columnar/src/builder.rs:138-163 | the fewest leading rows that fill a chunk, or all; head and rest hold the old rows, and both are measured |
| ChunkBuilders.CutPoint | crates/qh-columnar/src/builder.rs:138-149 | counting row by row finds that cut and its exact size |
| Chunking.SealableBounds | crates/qh-columnar/src/builder.rs:32-35 | every chunk has 1 to 65,536 rows and is under 2 MiB before its last row |
| Chunking.OneChunking | crates/qh-columnar/src/builder.rs:138-163 | a block can be cut into chunks, all full but the last, in only one way |
| Chunking.Drain | crates/qh-ffi/src/commands.rs:2563-2580 | cutting until empty terminates and loses, adds or reorders no row |
| Chunking.LoadAndDrain | crates/qh-columnar/src/builder.rs:223-247 | a batch loaded whole is drained into the chunks of that batch |
| Chunking.PushAndRetry | crates/qh-columnar/src/builder.rs:249-270 | push, seal, retry the rest: terminates with the chunks of the batch |
| Chunking.CutBothWays | crates/qh-columnar/src/builder.rs:138-270 | the two ways of cutting a batch give the same chunks |
| ChunkWeights.ChunkPayload | crates/qh-columnar/src/builder.rs:94-163 | every sealable chunk has at most 65,536 rows, and the text and bytes of all its cells before the last row are under 2 MiB |
| ChunkWeights.UniformCut | crates/qh-columnar/src/builder.rs:138-149 | rows of one weight are cut at the row limit or where the weight adds up to 2 MiB |
| ChunkWeights.CutOfFixedSize | crates/qh-columnar/src/builder.rs:100-112 | columns of fixed-size cells are cut at 65,536 rows or 131,072 cells |
| ChunkWeights.CutOfBytes | crates/qh-columnar/src/builder.rs:102-103 | a column of n-byte texts, JSON or byte strings is cut where n + 9 a row adds up to 2 MiB |
| ChunkWeights.CutOfUnknown | crates/qh-columnar/src/builder.rs:104-106 | a column of unknown values of n bytes is cut where n + 21 a row adds up to 2 MiB |
| ChunkWeights.CutOfLists | crates/qh-columnar/src/builder.rs:107-107 | a column of arrays or rows of n children is cut where 9 + 16 n a row adds up to 2 MiB |
| ChunkWeights.LargeTextsPart | crates/qh-columnar/src/builder.rs:138-163 | two texts of 2 MiB go into two chunks |
| Encodings.Parse | crates/qh-columnar/src/encoding.rs:37-79 | a name is read as an encoding exactly when it is that encoding's name |
| Encodings.FieldKeepsEncoding | crates/qh-columnar/src/encoding.rs:87-107 | the encoding written on a field is the one read from it |
| Encodings.FieldIsMarked | crates/qh-columnar/src/encoding.rs:87-94 | a field carries its encoding's name, and the JSON extension if it is JSON and only then |
| Encodings.CompatibleExact | crates/qh-columnar/src/encoding.rs:110-139 | the encodings each type can be read under, seen from the type: one each, but for text with JSON and bytes with tagged |
| Zones.OffsetSurvives | crates/qh-columnar/src/read.rs:157-181 | a whole-minute offset comes back from its zone text if and only if it is under a day in size |
| Zones.OffsetTextReads | crates/qh-columnar/src/builder.rs:575-584 | any offset under a day is read back in whole minutes, cut towards zero; any other is refused |
| ZoneGrammar.OffsetMeans | crates/qh-columnar/src/read.rs:157-181 | every text of a sign, hours and minutes in range is read as that offset |
| ZoneGrammar.OffsetOnly | crates/qh-columnar/src/read.rs:157-181 | no other text is read as an offset |
| Store.PickEncoding | crates/qh-columnar/src/builder.rs:353-404 | the kind all non-null cells agree on, none if there are none, tagged if there is no such kind: the fold has that result in any order |
| Store.ChosenOnce | crates/qh-columnar/src/builder.rs:353-414 | no column has two kinds |
| SealedTypes.SealedType | crates/qh-columnar/src/builder.rs:353-414 | a column of nulls, and no other, is stored as null; one with a cell no type can hold, or two cells no one type can, and no other, as tagged; every other in the encoding and Arrow type of its cells' variant, scale and zone |
| SealedTypes.IntegersStayIntegers | crates/qh-columnar/src/builder.rs:353-404 | integers, with nulls or without, are an `i64` column of Int64 slots |
| Store.BuildColumn | crates/qh-columnar/src/builder.rs:418-573 | one slot a row, each holding what the kind makes of the cell; refused exactly when some cell cannot be held |
| Store.RefusedOnlyForDepth | crates/qh-columnar/src/builder.rs:418-573 | under the chosen kind a cell is refused exactly when it nests past the codec's limit |
| Store.SealColumn | crates/qh-columnar/src/builder.rs:290-299 | one column is sealed exactly when no cell nests past the limit, named by its place and marked with its encoding |
| Store.SealColumns | crates/qh-columnar/src/builder.rs:281-305 | exactly the chunks with columns, of one length, with no cell nested past the limit are sealed, every column in its chosen kind and its field saying so; each refusal has its own error |
| Store.TaggedSurvives | crates/qh-columnar/src/read.rs:33-127 | a tagged cell comes back if and only if the codec keeps it |
| StoreReads.ReadMeans | crates/qh-columnar/src/read.rs:33-127 | on any array, a type that cannot hold the encoding is a mismatch, an empty slot a null, and every other slot the value it holds or the error that is in it |
| Store.ReadBack | crates/qh-columnar/src/read.rs:33-127 | whichever kind was chosen, a row reads as the staged cell if and only if the cell survives that kind, and the encoding never mismatches the array |
| Store.SealedReadsBack | crates/qh-columnar/src/builder.rs:281-584 | sealing then reading is the identity on every cell that survives, and on no other |
| CellText.ShortcutsAgree | crates/qh-columnar/src/read.rs:131-149 | the borrowing and hex shortcuts give the text of the value that would be read |
| CellText.SealedText | crates/qh-columnar/src/read.rs:131-149 | a sealed cell that comes back shows the text of the staged cell |
| FromArrow.Converter.Cells | crates/qh-columnar/src/from_arrow.rs:135-541 | for every nesting of arrays, one value per row, equal to that row read on its own; refused exactly for the first fault; every zone is looked up and none twice |
| FromArrow.Converter.FindZone | crates/qh-columnar/src/from_arrow.rs:543-552 | the cache answers as the zone table does, and each name is parsed at most once |
| FromArrow.ListRows | crates/qh-columnar/src/from_arrow.rs:459-478 | slicing the converted children gives each list of the column |
| FromArrow.FixedRows | crates/qh-columnar/src/from_arrow.rs:479-489 | slicing by width gives each list of fixed size |
| FromArrow.StructRows | crates/qh-columnar/src/from_arrow.rs:490-502 | picking one cell of every converted column gives each row |
| FromArrow.MapRows | crates/qh-columnar/src/from_arrow.rs:503-518 | slicing and zipping keys and values gives each map, its order and duplicates kept |
| FromArrow.UnionRows | crates/qh-columnar/src/from_arrow.rs:519-528 | each row takes the cell its type id and offset name |
| FromArrow.NullsAreKept | crates/qh-columnar/src/from_arrow.rs:135-541 | a cell is null if and only if its row is: no value that cannot be typed turns into a null |
| FromArrow.MicrosFloor | crates/qh-columnar/src/from_arrow.rs:91-100 | a count of any unit becomes the last whole microsecond not after it, and is refused exactly past `i64` |
| ArrowCells.LeafMeans | crates/qh-columnar/src/from_arrow.rs:160-450 | every valid slot of every type without children becomes the value it stands for: numbers, flags, texts and bytes kept, instants and clocks floored to the microsecond with the zone's offset at that instant, text exactly where no value can hold it |
| ArrowCells.NestedMeans | crates/qh-columnar/src/from_arrow.rs:459-528 | every row of a list, struct, map or union is made of the children's rows that belong to it, in order, key by key |
| ArrowCells.JsonComesBack | crates/qh-columnar/src/from_arrow.rs:72-77 | a field is taken for JSON exactly when it is marked as a JSON column |
| FromArrow.DecimalIsExact | crates/qh-columnar/src/from_arrow.rs:124-131 | a decimal keeps its number, or is shown as text exactly when a negative scale takes it out of range |
| FromArrow.NestingFollowsDepth | crates/qh-columnar/src/from_arrow.rs:459-528 | no cell nests deeper than its array |
| FromArrow.Import | crates/qh-columnar/src/from_arrow.rs:62-70 | the first fault, a batch without columns and a cell nested past the codec's limit are refused, each with its error; every other batch is sealed, each column holding its cells |
| FromArrow.ShallowArrays | crates/qh-columnar/src/from_arrow.rs:459-528 | arrays nested no deeper than the limit hold no cell that is refused for depth |
| FromArrow.ImportReadsBack | crates/qh-columnar/src/from_arrow.rs:62-70 | from an array to the store and back, a row reads as its own meaning if and only if that survives its kind |
| Calendar.DateRoundTrip | crates/qh-core/src/render.rs:479-499 | from any valid date to its day count and back |
| Calendar.DaysRoundTrip | crates/qh-driver-mysql/src/normalize.rs:594-602 | from any day count to a date, which is valid, and back |
| Calendar.LooseDateRoundTrip | crates/qh-driver-mysql/src/normalize.rs:507-516 | a parsed date with day 1 to 31 comes back from its day count if and only if the month has that day |
| Calendar.NextDayIsOneMore | crates/qh-driver-mysql/src/normalize.rs:594-602 | the calendar successor of a date has the next day count, under the 4, 100 and 400 year rule |
| Calendar.DaysFollowTheCalendar | crates/qh-core/src/render.rs:479-499 | day n + 1 is the calendar successor of day n |
| Render.AppendLaw | crates/qh-core/src/render.rs:79-120 | appending leaves the buffer as a prefix and adds the value's own text, if and only if the stated condition on intervals holds |
| Render.IntervalAppends | crates/qh-core/src/render.rs:398-448 | an interval with months appends cleanly to any buffer |
| Render.HexIsExact | crates/qh-core/src/render.rs:463-470 | two digits a byte, and no two byte strings share a text |
| RenderTheorems.ZonedParts | crates/qh-core/src/render.rs:349-375 | a zoned timestamp prints as the wall clock of its zone and the zone |
| RenderTheorems.ZonedTextNames | crates/qh-core/src/render.rs:349-375 | the clock read back less the offset read back is the instant, if and only if the offset has no seconds |
| RenderTheorems.IntervalReads | crates/qh-core/src/render.rs:398-448 | the text of an interval says its months, days and clock: a reader gives the same interval back |
| RenderTheorems.PlainTexts | crates/qh-core/src/render.rs:64-104 | the texts of nulls, flags, texts and JSON |
| RenderTheorems.UnknownTexts | crates/qh-core/src/render.rs:111-118 | an unknown value shows its text if it has one, else its bytes in hex, else nothing |
| RenderTheorems.HexDigitsAre | crates/qh-core/src/render.rs:463-470 | two lower-case digits a byte, the high one first |
| RenderTheorems.EscapesAre | crates/qh-core/src/render.rs:563-580 | which characters are escaped in JSON, and as what |
| Renderer.RenderText | crates/qh-core/src/render.rs:64-71 | the text of a value, and no text for a null |
| Renderer.WriteText | crates/qh-core/src/render.rs:79-120 | the buffer after any value has been written to it |
| Renderer.WriteDecimal | crates/qh-core/src/render.rs:253-277 | appends sign, digits and point, padded to the scale |
| Renderer.WriteDate | crates/qh-core/src/render.rs:294-298 | appends the date of the day count |
| Renderer.WriteTime | crates/qh-core/src/render.rs:309-324 | appends sign, clock and the six-digit fraction if there is one |
| Renderer.WriteTimestamp | crates/qh-core/src/render.rs:349-375 | appends the wall clock of the zone, before 1970 as after it, and the zone |
| Renderer.WriteInterval | crates/qh-core/src/render.rs:398-448 | the buffer after an interval, separators included |
| Renderer.WriteHex | crates/qh-core/src/render.rs:463-470 | appends the hex of every byte in order |
| Renderer.WriteJsonLike | crates/qh-core/src/render.rs:507-532 | appends a nested value as JSON: scalars bare, everything else quoted |
| Renderer.WriteJsonArray | crates/qh-core/src/render.rs:535-544 | appends the items in order |
| Renderer.WriteJsonMap | crates/qh-core/src/render.rs:547-559 | appends the entries in order, duplicates included, a null key as the empty text |
| Renderer.WriteJsonString | crates/qh-core/src/render.rs:563-580 | appends the text with quotes, backslashes and control characters escaped |
| JsonTheorems.StructuresPrintJson | crates/qh-core/src/render.rs:507-580 | the text of an array, row or map is one JSON text, and reads as the same tree in the same order, if and only if it holds no non-finite float |
| JsonTheorems.LikeReads | crates/qh-core/src/render.rs:507-532 | the same for every nested value, whatever delimiter follows |
| JsonTheorems.ArrayReads | crates/qh-core/src/render.rs:535-544 | the same for the items of an array |
| JsonTheorems.MapReads | crates/qh-core/src/render.rs:547-559 | the same for the members of an object, key order and duplicates kept |
| JsonTheorems.StringReads | crates/qh-core/src/render.rs:563-580 | every printed string is a JSON string that reads as the text it came from |
| DecimalTheorems.RunParseDecimal | crates/qh-driver-mysql/src/normalize.rs:274-318 | the parser with its scale and digits changing in place gives what the parts of the text give |
| DecimalTheorems.ParsedIsExact | crates/qh-driver-mysql/src/normalize.rs:274-318 | whatever is accepted has a scale from 0 to 38, and the unscaled integer over its power of ten is the number the text denotes if and only if the scale did not wrap or every digit is zero |
| DecimalTheorems.ShortTextsDoNotWrap | crates/qh-driver-mysql/src/normalize.rs:297-311 | no accepted text shorter than 2^31 - 64 characters wraps the scale |
| DecimalTheorems.LongTextIsMisread | crates/qh-driver-mysql/src/normalize.rs:297-311 | past 2^32 digits the scale wraps: a number far below one tenth is read as five tenths |
| DecimalTheorems.DecimalRoundTrip | crates/qh-driver-mysql/src/normalize.rs:274-318 | parsing a printed decimal gives the exact integer and scale, trailing zeros included, if and only if the scale is at most 38 and it is not the least `i128` |
| DecimalTheorems.DecimalColumnKeeps | crates/qh-driver-mysql/src/normalize.rs:252-271 | the text of a decimal, sent for a decimal column, is that decimal, or stays that text exactly where it cannot be |
| DecimalTheorems.IntegersAgree | crates/qh-driver-mysql/src/normalize.rs:252-271 | an integer is one decimal whether it is sent as a number or as its text |
| DecimalTheorems.DecimalColumnLosesNothing | crates/qh-driver-mysql/src/normalize.rs:252-318 | whatever bytes are sent for a decimal column stay those bytes, stay their text, or become the number the text denotes, that last if and only if the scale did not wrap or every digit is zero |
| TemporalTheorems.TimestampRoundTrip | crates/qh-driver-mysql/src/normalize.rs:507-568 | a printed instant parses back if and only if it is not before year 0 |
| TemporalTheorems.DateTextRoundTrip | crates/qh-driver-mysql/src/normalize.rs:499-516 | a printed date parses back if and only if its year is not negative |
| TemporalTheorems.TimeTextRoundTrip | crates/qh-driver-mysql/src/normalize.rs:571-590 | a printed time parses back for every `i64`, negative ones and hours past 24 included |
| TemporalTheorems.StampReads | crates/qh-driver-mysql/src/normalize.rs:539-568 | a date and clock with any fraction of one to six digits is read exactly when its parts are in range |
| TemporalTheorems.YearZero | crates/qh-core/src/render.rs:479-499 | the year printed is not negative exactly from day -719,528 on |
| TemporalTheorems.DatesAgree | crates/qh-driver-mysql/src/normalize.rs:320-347 | a date is one value by either protocol, zero dates and impossible ones included |
| TemporalTheorems.DateTimesAgree | crates/qh-driver-mysql/src/normalize.rs:349-375 | a date and time is one value by either protocol, at every fraction width that loses nothing, exactly when it is in range or has no fraction |
| TemporalTheorems.DurationsAgree | crates/qh-driver-mysql/src/normalize.rs:377-416 | a duration is one value by either protocol, time of day or interval, exactly when its minutes and seconds are in range |
| TemporalTheorems.DurationReads | crates/qh-driver-mysql/src/normalize.rs:571-590 | the server's text of a duration, hours past 24 and signs included, is read as its microseconds |
| TemporalGrammar.ClockTextExact | crates/qh-driver-mysql/src/normalize.rs:547-555 | a text has at most one reading as hours, minutes, seconds and fraction, and is spelled by it |
| TemporalGrammar.SignedExact | crates/qh-driver-mysql/src/normalize.rs:578-583 | a signed field is an optional sign and digits, within the integer's range |
| TemporalGrammar.FractionExact | crates/qh-driver-mysql/src/normalize.rs:559-568 | a fraction is one to six digits, and its microseconds are what they spell |
| TemporalGrammar.DurationMeans | crates/qh-driver-mysql/src/normalize.rs:571-590 | every text that says a duration is read as it, exactly so if and only if the microseconds fit an `i64` |
| TemporalGrammar.DurationOnly | crates/qh-driver-mysql/src/normalize.rs:571-590 | no other text is read as a duration |
| TemporalGrammar.DurationRanges | crates/qh-driver-mysql/src/normalize.rs:585-587 | the minutes and seconds read are in 0..59 and 0..60 if and only if neither field has a minus sign before a digit other than zero |
| TemporalGrammar.NegativeMinutes | crates/qh-driver-mysql/src/normalize.rs:585-588 | `10:-30:00` is read as half past nine |
| TemporalGrammar.DateMeans | crates/qh-driver-mysql/src/normalize.rs:507-516 | every text of three numerals in range between hyphens is read as that date |
| TemporalGrammar.DateOnly | crates/qh-driver-mysql/src/normalize.rs:507-516 | no other text is read as a date |
| TemporalGrammar.StampMeans | crates/qh-driver-mysql/src/normalize.rs:518-557 | every text that says a date and a clock is read as that instant, exactly so if and only if it fits an `i64` |
| TemporalGrammar.StampOnly | crates/qh-driver-mysql/src/normalize.rs:539-557 | no other text is read as a timestamp, the zero date included |
| TemporalValues.TimeOfParts | crates/qh-driver-mysql/src/normalize.rs:377-399 | the parts of a duration become a time of day from nothing up to a day, and an interval otherwise |
| TemporalValues.TimeOfText | crates/qh-driver-mysql/src/normalize.rs:400-416 | every text of a duration becomes that value too |
| TemporalValues.DateOfParts | crates/qh-driver-mysql/src/normalize.rs:320-347 | the parts of a date become that date, or its text if they are out of range |
| TemporalValues.DateOfText | crates/qh-driver-mysql/src/normalize.rs:499-516 | every text of a date becomes that date while its day count fits 32 bits |
| TemporalValues.StampOfParts | crates/qh-driver-mysql/src/normalize.rs:349-375 | the parts of a timestamp become that instant without a zone, or its text if they are out of range |
| TemporalValues.StampOfText | crates/qh-driver-mysql/src/normalize.rs:539-557 | every text of a timestamp becomes that instant without a zone |
| TemporalValues.OtherTexts | crates/qh-driver-mysql/src/normalize.rs:320-416 | a text that says nothing of the kind stays that text |
| TemporalValues.OtherBytes | crates/qh-driver-mysql/src/normalize.rs:320-416 | bytes that are no text stay those bytes |
| TemporalValues.NumbersAndNulls | crates/qh-driver-mysql/src/normalize.rs:460-475 | nulls and numbers in a column of another kind are kept |
| TemporalValues.PartsElsewhere | crates/qh-driver-mysql/src/normalize.rs:460-497 | temporal parts in a column of another kind are kept as text |
| TextScan.TrimMeans | crates/qh-driver-mysql/src/normalize.rs:508-508 | trimming takes whitespace off both ends and nothing else |
| Framing.KindFromByte | crates/qh-analytics-proto/src/lib.rs:78-86 | a byte is a kind exactly when it is that kind's byte |
| Framing.WriteFrame | crates/qh-analytics-proto/src/lib.rs:97-115 | appends the frame, or refuses a payload over the limit and writes nothing; when the sink breaks, what was written is a start of the frame |
| Framing.Source.ReadToEnd | crates/qh-analytics-proto/src/lib.rs:141-150 | short reads and interruptions do not change what is read |
| Framing.ReadHeader | crates/qh-analytics-proto/src/lib.rs:122-134 | the header is filled through short reads; the end before its first byte is a clean end |
| Framing.ReadFrame | crates/qh-analytics-proto/src/lib.rs:122-156 | however reads are split or interrupted, the result is what the remaining bytes say, and exactly the frame's bytes are consumed |
| Framing.ReadLoop | helpers/analytics/src/server.rs:194-216 | reading frame after frame gives the frames and the ending the bytes determine, however the source splits or interrupts its reads |
| Framing.FrameReads | crates/qh-analytics-proto/src/lib.rs:97-156 | a written frame is read back, and every cut inside it is a truncation |
| Framing.CutStream | crates/qh-analytics-proto/src/lib.rs:97-156 | a stream cut anywhere gives its whole frames in order, then a clean end at a boundary and a truncation elsewhere |
| Framing.WholeStream | crates/qh-analytics-proto/src/lib.rs:97-156 | every frame written is read back in order, then a clean end |
| Position.LineSpan | crates/qh-core/src/error.rs:343-354 | the walk over the lines finds the span of the line |
| Position.LineMeans | crates/qh-core/src/error.rs:343-354 | in a text of any length, a line holds exactly the positions with that many newlines before them |
| Position.SpanMeans | crates/qh-core/src/error.rs:343-354 | the span found is the line, and there is none exactly when the line does not exist or its start or width passes 32 bits |
| Position.PlaceMeans | crates/qh-core/src/error.rs:327-332 | a line and column is a place of the text exactly when the line exists and the column is at most one past its width |
| Position.OffsetIsExact | crates/qh-core/src/error.rs:327-332 | a place of any text is given its own offset if and only if that fits 32 bits and its line is shorter than 2^32 - 1; what comes back otherwise is said too |
| Position.OnlyPlacesHaveOffsets | crates/qh-core/src/error.rs:327-332 | what is no place of the text is given no offset |
| Position.LineOffsetIsExact | crates/qh-core/src/error.rs:338-340 | a line alone gives the offset of its first scalar if and only if that and the line's width fit 32 bits; what comes back otherwise is said too |
| Position.OnlyLinesHaveOffsets | crates/qh-core/src/error.rs:338-340 | a line that is not in the text is given no offset |
| Position.ShortTextsAreExact | crates/qh-core/src/error.rs:327-340 | in a text shorter than 2^32 - 1 scalars both functions are exact without exception |
| Position.PlacesAreOrdered | crates/qh-core/src/error.rs:327-354 | later offsets lie on later lines, or further along the same one |
| Position.PlacesAndOffsets | crates/qh-core/src/error.rs:327-354 | every 32-bit offset up to one past the text is one place's, which is given it unless its line is too long; in a text of at most 2^32 - 1 scalars no other place is |
| Position.LongestTextWraps | crates/qh-core/src/error.rs:327-332 | the shortest kind of text with a wrapped offset: the last place is given 0 |
| Position.LongTextsShareOffsets | crates/qh-core/src/error.rs:327-332 | one scalar more, and two places are given offset 1 |

## Left out

- JsonTheorems.StructuresPrintJson: the shortest text of a float is a parameter, of which it is only assumed that a finite float prints as a JSON number and others as `nan`, `inf` or `-inf` (`write_float`, `write_scientific`, `crates/qh-core/src/render.rs:190-240`).
- FromArrow.Converter.Cells: dictionary and run-end arrays, which are cast by `arrow_cast` before the same conversion, are not modelled; neither are the zone tables, the float texts and Arrow's own display of a slot, which are parameters.
- FromArrow.ImportReadsBack: a cell whose blob does not fit in memory is excluded.
- Store.SealColumns: Arrow's own limit of 2 GiB of text or bytes in one array is not modelled.
- CellText.ShortcutsAgree: says nothing of an array whose type does not fit the encoding, where the two paths may report different errors.
- Zones.OffsetSurvives: a zone text with characters outside ASCII, which can stop the program at a slice, is modelled as refused.
- DecimalTheorems.LongTextIsMisread: arithmetic wraps as a release build does; a debug build stops instead, here and in the calendar, the timestamps and offsets past 32 bits.
- Calendar.DateRoundTrip: day counts are unbounded integers; the `i64` overflow of `civil_from_days` within 719,468 of the limit is not modelled.
- The per-type `push_*` methods of the builder, which wrap `push_value`.
- `to_json_value`, `decimal_to_f64`, integers and floats as the two protocols send them, and the table of column types in `normalize.rs`.
- Framing.ReadLoop: what the helper does with each frame, and its own reasons to stop, are not modelled.
- Control messages and the record-batch codec of `qh-analytics-proto`, and flushing.
- The cursors, the row cap and cancellation around the drain loop of `commands.rs`.
- Drivers, TLS, credentials, metadata queries, the editor, the grammar table, the app and its bindings.
