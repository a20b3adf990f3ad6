/**
 * What the writer produces. A null cell is written as `-`; a value is written as is,
 * or between quotes with `"` doubled and a line feed written as `"/"` when it holds a
 * line feed, a quote, `#` or whitespace. Packed output puts one space after every cell
 * and one line feed between rows; aligned output pads every cell with spaces to the
 * widest cell of its column and separates cells by one space.
 */
module WriterSpec {
  import opened WsvTypes

  /** Placement of a cell in its padded column; Packed writes no padding at all. */
  datatype ColumnAlignment = Left | Right | Packed

  /** Characters that force a value into quotes. */
  predicate NeedsQuoteChar(ch: char)
  {
    ch == LF || ch == '"' || ch == '#' || IsWhitespace(ch)
  }

  /** A value must be quoted when any of its characters forces it. */
  predicate NeedsQuotes(s: string)
  {
    exists i | 0 <= i < |s| :: NeedsQuoteChar(s[i])
  }

  /** How one character is written: a line feed as `"/"`, a quote doubled. */
  function EscapeChar(ch: char): (e: string)
    ensures 1 <= |e| <= 3
  {
    if ch == LF then "\"/\"" else if ch == '"' then "\"\"" else [ch]
  }

  /** A value with every character escaped. */
  function Escaped(s: string): string
  {
    if |s| == 0 then [] else EscapeChar(s[0]) + Escaped(s[1..])
  }

  /** Escaping works character by character, so it distributes over joining. */
  lemma {:induction false} EscapedAppend(a: string, b: string)
    ensures Escaped(a + b) == Escaped(a) + Escaped(b)
    decreases |a|
  {
    if |a| == 0 {
      assert a + b == b;
    } else {
      assert (a + b)[1..] == a[1..] + b;
      EscapedAppend(a[1..], b);
    }
  }

  /** Escaping one more character appends its escape. */
  lemma EscapedSnoc(s: string, k: nat)
    requires k < |s|
    ensures Escaped(s[..k + 1]) == Escaped(s[..k]) + EscapeChar(s[k])
  {
    assert s[..k + 1] == s[..k] + [s[k]];
    EscapedAppend(s[..k], [s[k]]);
    assert Escaped([s[k]]) == EscapeChar(s[k]) + Escaped([]);
  }

  /** A value that needs no quotes is written unchanged. */
  lemma {:induction false} EscapedUnquoted(s: string)
    requires !NeedsQuotes(s)
    ensures Escaped(s) == s
    decreases |s|
  {
    if |s| > 0 {
      assert forall i | 0 <= i < |s| - 1 :: s[1..][i] == s[i + 1];
      EscapedUnquoted(s[1..]);
    }
  }

  /** How a cell is written, without padding or separator. */
  function RenderCell(c: Cell): string
  {
    match c
    case None => "-"
    case Some(s) => if NeedsQuotes(s) then "\"" + Escaped(s) + "\"" else Escaped(s)
  }

  /** The width the aligned writer reserves for a cell: a null counts 1, a line feed 3,
      a quote 2, any other character 1, and quoting adds 2. */
  function EscapedWidth(s: string): nat
  {
    if |s| == 0 then 0
    else (if s[0] == LF then 3 else if s[0] == '"' then 2 else 1) + EscapedWidth(s[1..])
  }

  function CellWidth(c: Cell): nat
  {
    match c
    case None => 1
    case Some(s) => EscapedWidth(s) + if NeedsQuotes(s) then 2 else 0
  }

  /** The reserved width is exactly the length of what is written. */
  lemma {:induction false} EscapedWidthIsLength(s: string)
    ensures EscapedWidth(s) == |Escaped(s)|
    decreases |s|
  {
    if |s| > 0 {
      EscapedWidthIsLength(s[1..]);
    }
  }

  lemma CellWidthIsLength(c: Cell)
    ensures CellWidth(c) == |RenderCell(c)|
  {
    if c.Some? {
      EscapedWidthIsLength(c.value);
    }
  }

  /** The packed text of the cells of `row` from index `j` on: each cell and a space. */
  function CellsText(row: Row, j: nat): string
    decreases |row| - j
  {
    if j >= |row| then [] else RenderCell(row[j]) + " " + CellsText(row, j + 1)
  }

  /** The packed text of the rows from index `k` on, each but the very first row of the
      input preceded by a line feed. */
  function RowsFrom(rows: seq<Row>, k: nat): string
    decreases |rows| - k
  {
    if k >= |rows| then [] else (if k == 0 then [] else [LF]) + CellsText(rows[k], 0) + RowsFrom(rows, k + 1)
  }

  /** The packed output for `rows`. */
  function PackedText(rows: seq<Row>): string
  {
    RowsFrom(rows, 0)
  }

  /** `n` spaces. */
  function Spaces(n: nat): (s: string)
    ensures |s| == n && forall i | 0 <= i < n :: s[i] == ' '
  {
    seq(n, _ => ' ')
  }

  /** The column widths after one more row: each column as wide as its widest cell so far. */
  function Widen(widths: seq<nat>, row: Row): (w: seq<nat>)
    ensures |w| == if |widths| < |row| then |row| else |widths|
  {
    seq(if |widths| < |row| then |row| else |widths|, i requires 0 <= i < |widths| || 0 <= i < |row| =>
      if i < |widths| && i < |row| then (if CellWidth(row[i]) > widths[i] then CellWidth(row[i]) else widths[i])
      else if i < |widths| then widths[i]
      else CellWidth(row[i]))
  }

  /** The width of every column of `rows`: the first pass of the aligned writer. */
  function ColumnWidths(rows: seq<Row>): seq<nat>
  {
    if |rows| == 0 then [] else Widen(ColumnWidths(rows[..|rows| - 1]), rows[|rows| - 1])
  }

  /** A cell padded to `width` with spaces: after the text for Left, before it for Right. */
  function PadCell(c: Cell, width: nat, alignment: ColumnAlignment): string
  {
    var pad := Spaces(if width > CellWidth(c) then width - CellWidth(c) else 0);
    if alignment == Right then pad + RenderCell(c)
    else if alignment == Left then RenderCell(c) + pad
    else RenderCell(c)
  }

  /** Parts joined by single spaces. */
  function Join(parts: seq<string>): string
  {
    if |parts| == 0 then []
    else Join(parts[..|parts| - 1]) + (if |parts| == 1 then [] else " ") + parts[|parts| - 1]
  }

  /** Every cell of `row` padded to the width of its column. */
  function PaddedCells(row: Row, widths: seq<nat>, alignment: ColumnAlignment): (parts: seq<string>)
    requires |row| <= |widths|
    ensures |parts| == |row|
  {
    seq(|row|, i requires 0 <= i < |row| => PadCell(row[i], widths[i], alignment))
  }

  /** One aligned row: its padded cells separated by single spaces. */
  function AlignedRow(row: Row, widths: seq<nat>, alignment: ColumnAlignment): string
    requires |row| <= |widths|
  {
    Join(PaddedCells(row, widths, alignment))
  }

  /** The aligned text of the rows from index `k` on, with the widths of all of them. */
  function AlignedFrom(rows: seq<Row>, k: nat, widths: seq<nat>, alignment: ColumnAlignment): string
    requires forall j | k <= j < |rows| :: |rows[j]| <= |widths|
    decreases |rows| - k
  {
    if k >= |rows| then []
    else (if k == 0 then [] else [LF]) + AlignedRow(rows[k], widths, alignment)
         + AlignedFrom(rows, k + 1, widths, alignment)
  }

  /** Joining one more part adds a separating space (unless it is the first) and the part. */
  lemma JoinSnoc(parts: seq<string>, i: nat)
    requires i < |parts|
    ensures Join(parts[..i + 1]) == Join(parts[..i]) + (if i == 0 then [] else " ") + parts[i]
  {
    assert parts[..i + 1][..i] == parts[..i];
  }

  /** A cell is written as its text (`-` for a null), escaped, between quotes when needed. */
  lemma RenderCellParts(c: Cell)
    ensures var q: string := if c.Some? && NeedsQuotes(c.value) then "\"" else [];
            RenderCell(c) == q + Escaped(c.UnwrapOr("-")) + q
  {
    if c.None? {
      assert Escaped("-") == "-" + Escaped([]);
    }
  }

  /** The aligned output for `rows[first..]`, the rows numbered from `first`. */
  function AlignedText(rows: seq<Row>, first: nat, alignment: ColumnAlignment): string
    requires first <= |rows|
  {
    WidthsCoverRows(rows, first);
    AlignedFrom(rows, first, ColumnWidths(rows[first..]), alignment)
  }

  /** The columns measured over `rows[first..]` are enough for each of those rows. */
  lemma WidthsCoverRows(rows: seq<Row>, first: nat)
    requires first <= |rows|
    ensures forall j | first <= j < |rows| :: |rows[j]| <= |ColumnWidths(rows[first..])|
  {
    ColumnWidthsLength(rows[first..]);
    forall j | first <= j < |rows|
      ensures |rows[j]| <= |ColumnWidths(rows[first..])|
    {
      assert rows[first..][j - first] in rows[first..];
    }
  }

  /** The longest row length of `rows`. */
  function MaxLength(rows: seq<Row>): (m: nat)
    ensures forall r | r in rows :: |r| <= m
    ensures |rows| > 0 ==> exists r | r in rows :: |r| == m
  {
    if |rows| == 0 then 0
    else
      var m := MaxLength(rows[..|rows| - 1]);
      assert forall r | r in rows :: r in rows[..|rows| - 1] || r == rows[|rows| - 1];
      if |rows[|rows| - 1]| > m then |rows[|rows| - 1]| else m
  }

  /** There is one width per column of the longest row. */
  lemma {:induction false} ColumnWidthsLength(rows: seq<Row>)
    ensures |ColumnWidths(rows)| == MaxLength(rows)
  {
    if |rows| > 0 {
      ColumnWidthsLength(rows[..|rows| - 1]);
    }
  }

  /** Every cell fits the width of its column. */
  lemma {:induction false} CellFitsColumn(rows: seq<Row>, k: nat, i: nat)
    requires k < |rows| && i < |rows[k]|
    ensures i < |ColumnWidths(rows)| && CellWidth(rows[k][i]) <= ColumnWidths(rows)[i]
  {
    var init := rows[..|rows| - 1];
    var w0 := ColumnWidths(init);
    assert ColumnWidths(rows) == Widen(w0, rows[|rows| - 1]);
    if k < |init| {
      assert rows[k] == init[k];
      CellFitsColumn(init, k, i);
    }
  }

  /** Every column is exactly as wide as some cell of it. */
  lemma {:induction false} ColumnWidthsAttained(rows: seq<Row>)
    ensures forall i | 0 <= i < |ColumnWidths(rows)| ::
              exists k | 0 <= k < |rows| :: i < |rows[k]| && CellWidth(rows[k][i]) == ColumnWidths(rows)[i]
  {
    if |rows| > 0 {
      var init := rows[..|rows| - 1];
      var last := rows[|rows| - 1];
      ColumnWidthsAttained(init);
      var w0 := ColumnWidths(init);
      assert ColumnWidths(rows) == Widen(w0, last);
      forall i | 0 <= i < |ColumnWidths(rows)|
        ensures exists k | 0 <= k < |rows| :: i < |rows[k]| && CellWidth(rows[k][i]) == ColumnWidths(rows)[i]
      {
        if i < |last| && (i >= |w0| || CellWidth(last[i]) > w0[i]) {
          assert rows[|rows| - 1] == last;
        } else {
          assert i < |w0| && ColumnWidths(rows)[i] == w0[i];
          var k :| 0 <= k < |init| && i < |init[k]| && CellWidth(init[k][i]) == w0[i];
          assert rows[k] == init[k];
        }
      }
    } else {
      assert ColumnWidths(rows) == [];
    }
  }

  /** Where cell `i` of an aligned row starts: after the widths of the cells before it
      and one separating space each. */
  function ColumnStart(widths: seq<nat>, i: nat): nat
    requires i <= |widths|
  {
    if i == 0 then 0 else ColumnStart(widths, i - 1) + widths[i - 1] + 1
  }

  /** A padded cell that fits its column fills it exactly. */
  lemma PadCellWidth(c: Cell, width: nat, alignment: ColumnAlignment)
    requires alignment != Packed && CellWidth(c) <= width
    ensures |PadCell(c, width, alignment)| == width
  {
    CellWidthIsLength(c);
  }

  /** Joined parts of the given lengths end one space short of where the next part starts. */
  lemma {:induction false} JoinLength(parts: seq<string>, widths: seq<nat>)
    requires |parts| <= |widths|
    requires forall j | 0 <= j < |parts| :: |parts[j]| == widths[j]
    ensures |Join(parts)| + (if |parts| == 0 then 0 else 1) == ColumnStart(widths, |parts|)
    decreases |parts|
  {
    if |parts| > 0 {
      JoinLength(parts[..|parts| - 1], widths);
    }
  }

  /** In joined parts of the given lengths, part `i` starts at `ColumnStart(widths, i)`. */
  lemma {:induction false} JoinPosition(parts: seq<string>, widths: seq<nat>, i: nat)
    requires i < |parts| <= |widths|
    requires forall j | 0 <= j < |parts| :: |parts[j]| == widths[j]
    ensures var a := Join(parts);
            ColumnStart(widths, i) + widths[i] <= |a|
            && a[ColumnStart(widths, i)..ColumnStart(widths, i) + widths[i]] == parts[i]
    decreases |parts|
  {
    var init := parts[..|parts| - 1];
    var sep: string := if |parts| == 1 then [] else " ";
    var last := parts[|parts| - 1];
    assert Join(parts) == Join(init) + sep + last;
    JoinLength(init, widths);
    if i == |parts| - 1 {
      MiddleSlice(Join(init) + sep, last, []);
      assert Join(init) + sep + last + [] == Join(parts);
    } else {
      JoinPosition(init, widths, i);
      assert init[i] == parts[i];
      InnerSlice(Join(init), sep + last, ColumnStart(widths, i), ColumnStart(widths, i) + widths[i]);
      AppendAssoc(Join(init), sep, last);
    }
  }

  /** In every aligned row whose cells fit their columns, cell `i` occupies the same
      columns of text: it starts at `ColumnStart(widths, i)` and fills `widths[i]`. */
  lemma AlignedCellPosition(row: Row, i: nat, widths: seq<nat>, alignment: ColumnAlignment)
    requires alignment != Packed && i < |row| <= |widths|
    requires forall j | 0 <= j < |row| :: CellWidth(row[j]) <= widths[j]
    ensures var a := AlignedRow(row, widths, alignment);
            ColumnStart(widths, i) + widths[i] <= |a|
            && a[ColumnStart(widths, i)..ColumnStart(widths, i) + widths[i]]
               == PadCell(row[i], widths[i], alignment)
  {
    var parts := PaddedCells(row, widths, alignment);
    forall j | 0 <= j < |parts|
      ensures |parts[j]| == widths[j]
    {
      PadCellWidth(row[j], widths[j], alignment);
    }
    JoinPosition(parts, widths, i);
  }

  /** A slice inside `a` is the same slice of `a + b`. */
  lemma InnerSlice<T>(a: seq<T>, b: seq<T>, lo: nat, hi: nat)
    requires lo <= hi <= |a|
    ensures (a + b)[lo..hi] == a[lo..hi]
  {
  }

  lemma AppendAssoc<T>(a: seq<T>, b: seq<T>, c: seq<T>)
    ensures a + (b + c) == a + b + c
  {
  }

  /** The middle part of `a + b + c` is `b`. */
  lemma MiddleSlice<T>(a: seq<T>, b: seq<T>, c: seq<T>)
    ensures (a + b + c)[|a|..|a| + |b|] == b
  {
  }

  /** Appending to a text that extends `out` by `before` extends it by more. */
  lemma AppendStep(out: string, before: string, r0: string, sep: string, piece: string, r1: string)
    requires r0 == out + before && r1 == r0 + sep + piece
    ensures r1 == out + (before + sep + piece)
  {
  }

  /** Moving the next pieces of a goal text from the part still to write to the written part. */
  lemma TakeStep(goal: string, s0: string, sep: string, piece: string, rest: string, s1: string)
    requires goal == s0 + (sep + piece + rest) && s1 == s0 + sep + piece
    ensures goal == s1 + rest
  {
  }
}
