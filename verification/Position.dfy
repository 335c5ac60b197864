/** From a line and column to an offset in a text, all counted from 1 and in Unicode scalars. */
module Position {
  import opened Machine
  import opened Wrappers

  /** The scalars before the first newline. */
  function LineWidth(s: string): (n: nat)
    ensures n <= |s| && (n < |s| ==> s[n] == '\n') && forall i :: 0 <= i < n ==> s[i] != '\n'
  {
    if s == "" || s[0] == '\n' then 0 else 1 + LineWidth(s[1..])
  }

  /** The scalars before line `index` of the text and the scalars in it; `before` are already passed. */
  function SpanFrom(s: string, index: nat, before: u32): Option<(u32, u32)> {
    var width := LineWidth(s);
    if width > U32_MAX then None
    else if index == 0 then Some((before, width))
    else if before + width + 1 > U32_MAX || width == |s| then None
    else SpanFrom(s[width + 1..], index - 1, before + width + 1)
  }

  function SpanOf(sql: string, line: u32): Option<(u32, u32)> {
    if line == 0 then None else SpanFrom(sql, line - 1, 0)
  }

  /** Walks the lines, counting the scalars passed. */
  method LineSpan(sql: string, line: u32) returns (r: Option<(u32, u32)>)
    ensures r == SpanOf(sql, line)
  {
    if line == 0 {
      return None;
    }
    var index := line - 1;
    var before: u32 := 0;
    var rest := sql;
    var number := 0;
    while true
      invariant number <= index
      invariant SpanFrom(sql, index, 0) == SpanFrom(rest, index - number, before)
      decreases |rest|
    {
      var width := LineWidth(rest);
      if width > U32_MAX {
        return None;
      }
      if number == index {
        return Some((before, width));
      }
      if before + width + 1 > U32_MAX || width == |rest| {
        return None;
      }
      before := before + width + 1;
      rest := rest[width + 1..];
      number := number + 1;
    }
  }

  /** A column may be one past the last scalar of its line. The sum wraps as a release build adds. */
  function OffsetOfLineColumn(sql: string, line: u32, column: u32): Option<u32> {
    var (before, width) :- SpanOf(sql, line);
    if width + 1 > U32_MAX then None
    else if 1 <= column <= width + 1 then Some((before + column) % U32_MODULUS)
    else None
  }

  function OffsetOfLine(sql: string, line: u32): Option<u32> {
    var (before, _) :- SpanOf(sql, line);
    Some((before + 1) % U32_MODULUS)
  }

  // ---------------------------------------------------------------- where an offset lies

  function Newlines(s: string): nat {
    if s == "" then 0 else Newlines(s[..|s| - 1]) + if s[|s| - 1] == '\n' then 1 else 0
  }

  /** The scalars after the last newline. */
  function Tail(s: string): nat {
    if s == "" || s[|s| - 1] == '\n' then 0 else 1 + Tail(s[..|s| - 1])
  }

  /** The offset is in this line at this column: judged by the text that precedes it. */
  predicate LiesAt(sql: string, offset: int, line: int, column: int) {
    1 <= offset <= |sql| + 1 && line == 1 + Newlines(sql[..offset - 1]) && column == 1 + Tail(sql[..offset - 1])
  }

  lemma {:induction false} OneLine(s: string)
    requires forall i :: 0 <= i < |s| ==> s[i] != '\n'
    ensures Newlines(s) == 0 && Tail(s) == |s|
  {
    if s != "" {
      OneLine(s[..|s| - 1]);
    }
  }

  lemma {:induction false} LineThenMore(first: string, rest: string)
    requires forall i :: 0 <= i < |first| ==> first[i] != '\n'
    ensures Newlines(first + "\n" + rest) == 1 + Newlines(rest)
    ensures Tail(first + "\n" + rest) == Tail(rest)
  {
    var s := first + "\n" + rest;
    if rest == "" {
      assert s[..|s| - 1] == first;
      OneLine(first);
    } else {
      assert s[..|s| - 1] == first + "\n" + rest[..|rest| - 1];
      LineThenMore(first, rest[..|rest| - 1]);
    }
  }

  /** Where line `index` starts and how wide it is, however long the text. */
  function LineOf(s: string, index: nat): (r: Option<(nat, nat)>)
    ensures r.Some? ==> r.value.0 + r.value.1 <= |s|
    decreases |s|
  {
    var width := LineWidth(s);
    if index == 0 then Some((0, width))
    else if width == |s| then None
    else
      match LineOf(s[width + 1..], index - 1)
      case None => None
      case Some(line) => Some((width + 1 + line.0, line.1))
  }

  /** A line holds exactly the positions whose preceding text has that many newlines. */
  lemma {:induction false} LineMeans(s: string, index: nat, k: nat, column: nat)
    requires k <= |s|
    ensures Newlines(s[..k]) == index && Tail(s[..k]) == column
            <==> var r := LineOf(s, index); r.Some? && column <= r.value.1 && r.value.0 + column == k
    decreases |s|
  {
    hide Newlines, Tail, LineWidth;
    var width := LineWidth(s);
    if k <= width {
      OneLine(s[..k]);
    } else {
      PastTheLine(s, k);
      if index > 0 {
        LineMeans(s[width + 1..], index - 1, k - width - 1, column);
      }
    }
  }

  lemma SplitAround(s: string, at: nat, k: nat)
    requires at < k <= |s|
    ensures s[..k] == s[..at] + [s[at]] + s[at + 1..][..k - at - 1]
  {
  }

  /** What precedes a position past the first line: one newline more than in the rest, ending alike. */
  lemma PastTheLine(s: string, k: nat)
    requires LineWidth(s) < k <= |s|
    ensures var rest := s[LineWidth(s) + 1..][..k - LineWidth(s) - 1];
            Newlines(s[..k]) == 1 + Newlines(rest) && Tail(s[..k]) == Tail(rest)
  {
    hide Newlines, Tail, LineWidth;
    var width := LineWidth(s);
    SplitAround(s, width, k);
    LineThenMore(s[..width], s[width + 1..][..k - width - 1]);
  }

  /** The span is the line, unless its start or its width passes 32 bits. */
  lemma {:induction false} SpanMeans(s: string, index: nat, before: u32)
    ensures SpanFrom(s, index, before) ==
            match LineOf(s, index)
            case None => None
            case Some(line) => if before + line.0 > U32_MAX || line.1 > U32_MAX then None else Some((before + line.0, line.1))
    decreases |s|
  {
    hide LineWidth;
    var width := LineWidth(s);
    if index > 0 && width < |s| && before + width + 1 <= U32_MAX {
      SpanMeans(s[width + 1..], index - 1, before + width + 1);
    }
  }

  // ---------------------------------------------------------------- main results

  lemma InText(sql: string, offset: int, line: int, column: int)
    requires LiesAt(sql, offset, line, column)
    ensures 1 <= offset <= |sql| + 1 && line > 0 && column > 0
  {
  }

  /** A line and column is a place of the text exactly when the line exists and is wide enough. */
  lemma PlaceMeans(sql: string, line: nat, column: nat, offset: int)
    requires line > 0
    ensures LiesAt(sql, offset, line, column)
            <==> var r := LineOf(sql, line - 1); r.Some? && 1 <= column <= r.value.1 + 1 && offset == r.value.0 + column
  {
    hide LineOf, Newlines, Tail;
    if 1 <= offset <= |sql| + 1 && column > 0 {
      LineMeans(sql, line - 1, offset - 1, column - 1);
    }
  }

  /**
   A place of any text is given its own offset exactly when that offset fits 32 bits and the line
   is shorter than 2^32 - 1 scalars. Otherwise it is refused, if the line is that long or starts
   past 32 bits; in between, the offset comes back less 2^32.
   */
  lemma OffsetIsExact(sql: string, line: u32, column: u32, offset: nat)
    requires LiesAt(sql, offset, line, column)
    ensures LineOf(sql, line - 1).Some?
    ensures var (start, width) := LineOf(sql, line - 1).value; var r := OffsetOfLineColumn(sql, line, column);
            && offset == start + column
            && (r == Some(offset) <==> offset <= U32_MAX && width < U32_MAX)
            && (r == None <==> start > U32_MAX || width >= U32_MAX)
            && (r.Some? && offset > U32_MAX ==> r == Some(offset - U32_MODULUS))
  {
    hide LineOf, LiesAt, SpanFrom;
    InText(sql, offset, line, column);
    PlaceMeans(sql, line, column, offset);
    SpanMeans(sql, line - 1, 0);
  }

  /** Nothing but a place of the text is given an offset. */
  lemma OnlyPlacesHaveOffsets(sql: string, line: u32, column: u32)
    requires OffsetOfLineColumn(sql, line, column).Some?
    ensures exists offset: nat :: LiesAt(sql, offset, line, column)
  {
    hide LineOf, LiesAt, SpanFrom;
    SpanMeans(sql, line - 1, 0);
    PlaceMeans(sql, line, column, LineOf(sql, line - 1).value.0 + column);
  }

  /** Only the line: the offset of its first scalar, under the same condition but for one more scalar of width. */
  lemma LineOffsetIsExact(sql: string, line: u32, offset: nat)
    requires LiesAt(sql, offset, line, 1)
    ensures LineOf(sql, line - 1).Some?
    ensures var (start, width) := LineOf(sql, line - 1).value; var r := OffsetOfLine(sql, line);
            && offset == start + 1
            && (r == Some(offset) <==> offset <= U32_MAX && width <= U32_MAX)
            && (r == None <==> start > U32_MAX || width > U32_MAX)
            && (r.Some? && offset > U32_MAX ==> r == Some(0))
  {
    hide LineOf, LiesAt, SpanFrom;
    InText(sql, offset, line, 1);
    PlaceMeans(sql, line, 1, offset);
    SpanMeans(sql, line - 1, 0);
  }

  lemma OnlyLinesHaveOffsets(sql: string, line: u32)
    requires OffsetOfLine(sql, line).Some?
    ensures exists offset: nat :: LiesAt(sql, offset, line, 1)
  {
    hide LineOf, LiesAt, SpanFrom;
    SpanMeans(sql, line - 1, 0);
    PlaceMeans(sql, line, 1, LineOf(sql, line - 1).value.0 + 1);
  }

  /** In a text shorter than 2^32 - 1 scalars the offsets are those of the places, with no exception. */
  lemma ShortTextsAreExact(sql: string, line: u32, column: u32, offset: u32)
    requires |sql| < 4_294_967_295
    ensures OffsetOfLineColumn(sql, line, column) == Some(offset) <==> LiesAt(sql, offset, line, column)
    ensures OffsetOfLine(sql, line) == Some(offset) <==> LiesAt(sql, offset, line, 1)
  {
    hide LineOf, LiesAt, OffsetOfLineColumn, OffsetOfLine;
    if OffsetOfLineColumn(sql, line, column).Some? {
      OnlyPlacesHaveOffsets(sql, line, column);
      var place: nat :| LiesAt(sql, place, line, column);
      InText(sql, place, line, column);
      OffsetIsExact(sql, line, column, place);
    }
    if OffsetOfLine(sql, line).Some? {
      OnlyLinesHaveOffsets(sql, line);
      var place: nat :| LiesAt(sql, place, line, 1);
      InText(sql, place, line, 1);
      LineOffsetIsExact(sql, line, place);
    }
    if LiesAt(sql, offset, line, column) {
      InText(sql, offset, line, column);
      OffsetIsExact(sql, line, column, offset);
    }
    if LiesAt(sql, offset, line, 1) {
      InText(sql, offset, line, 1);
      LineOffsetIsExact(sql, line, offset);
    }
  }

  /** Later offsets lie at later places: on a later line, or further along the same one. */
  lemma {:induction false} PlacesAreOrdered(sql: string, a: nat, b: nat)
    requires a < b <= |sql|
    ensures var lines, later := Newlines(sql[..a]), Newlines(sql[..b]);
            lines < later || (lines == later && Tail(sql[..a]) < Tail(sql[..b]))
    decreases b
  {
    var last := sql[..b];
    assert last[..b - 1] == sql[..b - 1];
    if a < b - 1 {
      PlacesAreOrdered(sql, a, b - 1);
    }
  }

  /**
   Every offset that fits 32 bits, from 1 to one past the text, belongs to exactly one line and
   column, which is given it unless its line is too long; and while the text itself fits 32 bits
   no other line and column is given it.
   */
  lemma PlacesAndOffsets(sql: string, offset: u32)
    requires 1 <= offset <= |sql| + 1
    ensures exists line: u32, column: u32 ::
              && LiesAt(sql, offset, line, column) && LineOf(sql, line - 1).Some?
              && (OffsetOfLineColumn(sql, line, column) == Some(offset) <==> LineOf(sql, line - 1).value.1 < U32_MAX)
              && (|sql| <= U32_MAX ==>
                    forall line2: u32, column2: u32 ::
                      OffsetOfLineColumn(sql, line2, column2) == Some(offset) ==> line2 == line && column2 == column)
  {
    hide LineOf, OffsetOfLineColumn;
    var prefix := sql[..offset - 1];
    PlaceIsBounded(prefix);
    var line: u32, column: u32 := 1 + Newlines(prefix), 1 + Tail(prefix);
    OffsetIsExact(sql, line, column, offset);
    if |sql| <= U32_MAX {
      forall line2: u32, column2: u32 | OffsetOfLineColumn(sql, line2, column2) == Some(offset)
        ensures line2 == line && column2 == column
      {
        OnlyPlacesHaveOffsets(sql, line2, column2);
        var place: nat :| LiesAt(sql, place, line2, column2);
        OffsetIsExact(sql, line2, column2, place);
      }
    }
  }

  lemma {:induction false} PlaceIsBounded(s: string)
    ensures Newlines(s) + Tail(s) <= |s|
  {
    if s != "" {
      PlaceIsBounded(s[..|s| - 1]);
    }
  }

  // ---------------------------------------------------------------- texts too long

  lemma SecondLine(first: string, rest: string)
    requires forall i :: 0 <= i < |first| ==> first[i] != '\n'
    requires forall i :: 0 <= i < |rest| ==> rest[i] != '\n'
    ensures LineOf(first + "\n" + rest, 1) == Some((|first| + 1, |rest|))
  {
    var sql := first + "\n" + rest;
    assert sql[|first|] == '\n' && sql[|first| + 1..] == rest;
    assert LineWidth(sql) == |first|;
    assert LineWidth(rest) == |rest|;
  }

  /** One scalar past the bound: the last place is given offset 0. */
  lemma LongestTextWraps(rest: string)
    requires |rest| == U32_MAX - 1 && forall i :: 0 <= i < |rest| ==> rest[i] != '\n'
    ensures OffsetOfLineColumn("\n" + rest, 2, U32_MAX) == Some(0)
  {
    hide LineOf, LiesAt, OffsetOfLineColumn;
    SecondLine("", rest);
    assert "" + "\n" + rest == "\n" + rest;
    PlaceMeans("\n" + rest, 2, U32_MAX, U32_MAX + 1);
    OffsetIsExact("\n" + rest, 2, U32_MAX, U32_MAX + 1);
  }

  /** Two scalars past it: one offset is given to two places. */
  lemma LongTextsShareOffsets(rest: string)
    requires |rest| == U32_MAX - 1 && forall i :: 0 <= i < |rest| ==> rest[i] != '\n'
    ensures OffsetOfLineColumn("a\n" + rest, 1, 1) == Some(1)
    ensures OffsetOfLineColumn("a\n" + rest, 2, U32_MAX) == Some(1)
  {
    var sql := "a\n" + rest;
    assert LineWidth(sql) == 1 by {
      assert sql[1] == '\n' && sql[0] != '\n';
    }
    assert LineOf(sql, 0) == Some((0, 1));
    hide LineOf, LiesAt, OffsetOfLineColumn;
    SecondLine("a", rest);
    assert "a" + "\n" + rest == sql;
    PlaceMeans(sql, 1, 1, 1);
    OffsetIsExact(sql, 1, 1, 1);
    PlaceMeans(sql, 2, U32_MAX, U32_MAX + 2);
    OffsetIsExact(sql, 2, U32_MAX, U32_MAX + 2);
  }
}
