/**
 * The writer: a character iterator over the packed text of a sequence of rows, and
 * `ToString`, which either collects that iterator or, for Left and Right alignment,
 * measures every cell in a first pass and writes padded columns in a second.
 * The row and cell iterators it consumes are modelled as a sequence of rows and
 * the number of rows (and cells of the current row) handed out so far.
 */
module Writer {
  import opened WsvTypes
  import opened WriterSpec

  /** What the aligned writer's first pass records about one cell. */
  datatype Measured = Measured(needsQuotes: bool, width: nat, cell: Cell)

  /** The record of the first pass for `c`: whether it is quoted and how wide it is. */
  function Measure(c: Cell): (m: Measured)
    ensures m.cell == c
  {
    Measured(c.Some? && NeedsQuotes(c.value), CellWidth(c), c)
  }

  /** Appends the escaped characters of `s` to `out` and reports whether `s` needs quotes. */
  method AppendEscaped(out: string, s: string) returns (r: string, needsQuotes: bool)
    ensures r == out + Escaped(s)
    ensures needsQuotes == NeedsQuotes(s)
  {
    r := out;
    needsQuotes := false;
    for k := 0 to |s|
      invariant r == out + Escaped(s[..k])
      invariant needsQuotes == exists i | 0 <= i < k :: NeedsQuoteChar(s[i])
    {
      EscapedSnoc(s, k);
      var ch := s[k];
      AppendAssoc(out, Escaped(s[..k]), EscapeChar(ch));
      if ch == LF {
        r := r + ['"', '/', '"'];
        needsQuotes := true;
      } else if ch == '"' {
        r := r + ['"', '"'];
        needsQuotes := true;
      } else {
        r := r + [ch];
        needsQuotes := needsQuotes || ch == '#' || IsWhitespace(ch);
      }
    }
    assert s[..|s|] == s;
  }

  /** A value as the iterator writes it: escaped, with a quote put in front and one
      at the back when it needs quotes. */
  method QuoteValue(s: string) returns (text: string)
    ensures text == RenderCell(Some(s))
  {
    var needsQuotes;
    text, needsQuotes := AppendEscaped([], s);
    if needsQuotes {
      text := ['"'] + text + ['"'];
    }
    assert [] + Escaped(s) == Escaped(s);
  }

  /** The first pass over one cell: whether it needs quotes and how wide it is written. */
  method MeasureCell(c: Cell) returns (m: Measured)
    ensures m == Measure(c)
  {
    var needsQuotes := false;
    var len := 0;
    match c {
      case None =>
        len := 1;
      case Some(s) =>
        for k := 0 to |s|
          invariant len == |Escaped(s[..k])|
          invariant needsQuotes == exists i | 0 <= i < k :: NeedsQuoteChar(s[i])
        {
          EscapedSnoc(s, k);
          var ch := s[k];
          if ch == LF {
            len := len + 3;
            needsQuotes := true;
          } else if ch == '"' {
            len := len + 2;
            needsQuotes := true;
          } else if ch == '#' {
            len := len + 1;
            needsQuotes := true;
          } else {
            len := len + 1;
            needsQuotes := needsQuotes || ch == '#' || IsWhitespace(ch);
          }
        }
        assert s[..|s|] == s;
        EscapedWidthIsLength(s);
    }
    if needsQuotes {
      len := len + 2;
    }
    m := Measured(needsQuotes, len, c);
  }

  /** The first pass over one row: records every cell and widens the column widths. */
  method MeasureRow(row: Row, widths0: seq<nat>) returns (line: seq<Measured>, widths: seq<nat>)
    ensures |line| == |row| && forall i | 0 <= i < |row| :: line[i] == Measure(row[i])
    ensures widths == Widen(widths0, row)
  {
    line := [];
    widths := widths0;
    for i := 0 to |row|
      invariant |line| == i && forall j | 0 <= j < i :: line[j] == Measure(row[j])
      invariant widths == Widen(widths0, row[..i])
    {
      var m := MeasureCell(row[i]);
      if i < |widths| {
        if m.width > widths[i] {
          widths := widths[i := m.width];
        }
      } else {
        widths := widths + [m.width];
      }
      line := line + [m];
      assert row[..i + 1][..i] == row[..i];
    }
    assert row[..|row|] == row;
  }

  /** The first pass of the aligned writer over `rows[first..]`. */
  method MeasureRows(rows: seq<Row>, first: nat) returns (lines: seq<seq<Measured>>, widths: seq<nat>)
    requires first <= |rows|
    ensures |lines| == |rows| - first
    ensures forall j, i | 0 <= j < |lines| && 0 <= i < |rows[first + j]| ::
              |lines[j]| == |rows[first + j]| && lines[j][i] == Measure(rows[first + j][i])
    ensures forall j | 0 <= j < |lines| :: |lines[j]| == |rows[first + j]|
    ensures widths == ColumnWidths(rows[first..])
  {
    lines := [];
    widths := [];
    for j := first to |rows|
      invariant |lines| == j - first
      invariant forall l, i | 0 <= l < |lines| && 0 <= i < |rows[first + l]| ::
                  |lines[l]| == |rows[first + l]| && lines[l][i] == Measure(rows[first + l][i])
      invariant forall l | 0 <= l < |lines| :: |lines[l]| == |rows[first + l]|
      invariant widths == ColumnWidths(rows[first..j])
    {
      var line;
      line, widths := MeasureRow(rows[j], widths);
      lines := lines + [line];
      assert rows[first..j + 1][..j - first] == rows[first..j];
    }
    assert rows[first..|rows|] == rows[first..];
  }

  /** Appends `count` spaces, `count` being how far `from` falls short of `to`. */
  method AppendPadding(out: string, from: nat, to: nat) returns (r: string)
    ensures r == out + Spaces(if to > from then to - from else 0)
  {
    r := out;
    assert out + Spaces(0) == out;
    for k := from to (if to > from then to else from)
      invariant r == out + Spaces(k - from)
    {
      assert Spaces(k + 1 - from) == Spaces(k - from) + " ";
      r := r + " ";
    }
  }

  /** A cell as the second pass writes it, without padding: quotes when the first pass
      found them needed, and the escaped text (`-` for a null). */
  method AppendRendered(out: string, m: Measured) returns (r: string)
    requires m == Measure(m.cell)
    ensures r == out + RenderCell(m.cell)
  {
    var value := if m.cell.None? then "-" else m.cell.value;
    ghost var q: string := if m.needsQuotes then "\"" else [];
    r := out;
    if m.needsQuotes {
      r := r + "\"";
    }
    assert r == out + q;
    var quoted;
    r, quoted := AppendEscaped(r, value);
    if m.needsQuotes {
      r := r + "\"";
    }
    assert r == out + q + Escaped(value) + q;
    RenderCellParts(m.cell);
    assert value == m.cell.UnwrapOr("-");
  }

  /** The second pass over one cell: padding before it for Right, after it for Left. */
  method WriteCell(out: string, m: Measured, width: nat, alignment: ColumnAlignment) returns (r: string)
    requires m == Measure(m.cell)
    ensures r == out + PadCell(m.cell, width, alignment)
  {
    ghost var pad := Spaces(if width > CellWidth(m.cell) then width - CellWidth(m.cell) else 0);
    ghost var text := RenderCell(m.cell);
    r := out;
    if alignment == Right {
      r := AppendPadding(r, m.width, width);
    }
    ghost var padded := r;
    r := AppendRendered(r, m);
    if alignment == Left {
      r := AppendPadding(r, m.width, width);
    }
    if alignment == Right {
      assert r == out + (pad + text);
    } else if alignment == Left {
      assert r == out + (text + pad);
    }
  }

  /** The second pass over one row: its padded cells separated by single spaces. */
  method WriteRow(out: string, line: seq<Measured>, ghost row: Row, widths: seq<nat>, alignment: ColumnAlignment)
    returns (r: string)
    requires |line| == |row| <= |widths|
    requires forall i | 0 <= i < |row| :: line[i] == Measure(row[i])
    ensures r == out + AlignedRow(row, widths, alignment)
  {
    ghost var parts := PaddedCells(row, widths, alignment);
    r := out;
    assert parts[..0] == [];
    for i := 0 to |line|
      invariant r == out + Join(parts[..i])
    {
      ghost var r0 := r;
      ghost var sep: string := if i == 0 then [] else " ";
      if i != 0 {
        r := r + " ";
      }
      r := WriteCell(r, line[i], widths[i], alignment);
      JoinSnoc(parts, i);
      AppendStep(out, Join(parts[..i]), r0, sep, parts[i], r);
    }
    assert parts[..|line|] == parts;
  }

  /** The aligned text of `rows[first..]`, the rows numbered from `first`: the
      two passes of `to_string` for Left and Right alignment. */
  method AlignedString(rows: seq<Row>, first: nat, alignment: ColumnAlignment) returns (s: string)
    requires first <= |rows|
    ensures s == AlignedText(rows, first, alignment)
  {
    var lines, widths := MeasureRows(rows, first);
    WidthsCoverRows(rows, first);
    ghost var goal := AlignedFrom(rows, first, widths, alignment);
    s := "";
    for j := first to |rows|
      invariant goal == s + AlignedFrom(rows, j, widths, alignment)
    {
      ghost var s0 := s;
      ghost var sep: string := if j == 0 then [] else [LF];
      if j != 0 {
        s := s + [LF];
      }
      s := WriteRow(s, lines[j - first], rows[j], widths, alignment);
      TakeStep(goal, s0, sep, AlignedRow(rows[j], widths, alignment), AlignedFrom(rows, j + 1, widths, alignment), s);
    }
    assert AlignedFrom(rows, |rows|, widths, alignment) == [];
  }

  /** Where the writer's iterator stands: rows handed out by the row iterator, the
      next cell of the current row (None between rows), and characters produced but
      not yet returned. */
  datatype IterState = IterState(nextRow: nat, inner: Option<nat>, lookahead: string)

  predicate ValidState(values: seq<Row>, st: IterState)
  {
    && st.nextRow <= |values|
    && (st.inner.Some? ==> 0 < st.nextRow && st.inner.value <= |values[st.nextRow - 1]|)
  }

  /** The measure of the iterator's loop: rows not started, then cells left in the row. */
  function RowsLeft(values: seq<Row>, st: IterState): nat
    requires ValidState(values, st)
  {
    |values| - st.nextRow
  }

  function CellsLeft(values: seq<Row>, st: IterState): nat
    requires ValidState(values, st)
  {
    if st.inner.Some? then |values[st.nextRow - 1]| - st.inner.value + 1 else 0
  }

  /** One call of the iterator: return a lookahead character; else take the next cell of
      the current row (a null gives `-` and defers a space, a value is written into the
      lookahead with its space and the loop goes on); else leave an exhausted row; else
      start the next row, returning a line feed unless it is the first, or end. */
  function NextChar(values: seq<Row>, st: IterState): (r: (Option<char>, IterState))
    requires ValidState(values, st)
    ensures ValidState(values, r.1)
    decreases RowsLeft(values, st), CellsLeft(values, st)
  {
    if |st.lookahead| > 0 then (Some(st.lookahead[0]), st.(lookahead := st.lookahead[1..]))
    else
      var st1 := if st.inner.Some? && st.inner.value == |values[st.nextRow - 1]| then st.(inner := None) else st;
      if st1.inner.Some? then
        var row := values[st1.nextRow - 1];
        var i := st1.inner.value;
        match row[i]
        case None => (Some('-'), st1.(inner := Some(i + 1), lookahead := " "))
        case Some(_) => NextChar(values, st1.(inner := Some(i + 1), lookahead := RenderCell(row[i]) + " "))
      else if st1.nextRow == |values| then (None, st1)
      else
        var st2 := IterState(st1.nextRow + 1, Some(0), []);
        if st1.nextRow != 0 then (Some(LF), st2) else NextChar(values, st2)
  }

  /** A value cell is written into the lookahead and the loop goes on. */
  lemma NextCharValue(values: seq<Row>, st: IterState)
    requires ValidState(values, st) && |st.lookahead| == 0 && st.inner.Some?
    requires st.inner.value < |values[st.nextRow - 1]| && values[st.nextRow - 1][st.inner.value].Some?
    ensures var row := values[st.nextRow - 1];
            var i := st.inner.value;
            NextChar(values, st) == NextChar(values, st.(inner := Some(i + 1), lookahead := RenderCell(row[i]) + " "))
  {
  }

  /** Everything the iterator has still to return from `st`. */
  ghost function Text(values: seq<Row>, st: IterState): string
    requires ValidState(values, st)
  {
    st.lookahead + Pending(values, st.nextRow, st.inner)
  }

  /** One call of the iterator from `st` returns the first character of what it has
      still to return and leaves the rest, or returns None when nothing is left. */
  ghost predicate Consumes(values: seq<Row>, st: IterState)
    requires ValidState(values, st)
  {
    var r := NextChar(values, st);
    && (Text(values, st) == [] ==> r.0.None? && Text(values, r.1) == [])
    && (Text(values, st) != [] ==> r.0 == Some(Text(values, st)[0]) && Text(values, r.1) == Text(values, st)[1..])
  }

  /** The iterator returns what it has still to return one character at a time, in
      order, and returns None exactly when nothing is left. */
  lemma {:induction false} NextCharConsumes(values: seq<Row>, st: IterState)
    requires ValidState(values, st)
    ensures Consumes(values, st)
    decreases RowsLeft(values, st), CellsLeft(values, st)
  {
    if |st.lookahead| > 0 {
      ConsumesLookahead(values, st);
    } else if st.inner.Some? && st.inner.value == |values[st.nextRow - 1]| {
      NextCharConsumes(values, st.(inner := None));
      ConsumesEndOfRow(values, st);
    } else if st.inner.Some? {
      var row := values[st.nextRow - 1];
      var i := st.inner.value;
      if row[i].None? {
        ConsumesNull(values, st);
      } else {
        NextCharConsumes(values, st.(inner := Some(i + 1), lookahead := RenderCell(row[i]) + " "));
        ConsumesValue(values, st);
      }
    } else if st.nextRow < |values| {
      if st.nextRow != 0 {
        ConsumesLineFeed(values, st);
      } else {
        NextCharConsumes(values, IterState(1, Some(0), []));
        ConsumesFirstRow(values, st);
      }
    } else {
      ConsumesEnd(values, st);
    }
  }

  /** What is still to be returned is the character one call returns followed by what
      is still to be returned after it; when the call returns None, nothing is left. */
  lemma NextCharSplits(values: seq<Row>, st: IterState, r: Option<char>, st': IterState)
    requires ValidState(values, st) && ValidState(values, st')
    requires (r, st') == NextChar(values, st)
    ensures r.None? ==> Text(values, st) == [] && Text(values, st') == []
    ensures r.Some? ==> Text(values, st) == [r.value] + Text(values, st')
  {
    NextCharConsumes(values, st);
    if r.Some? {
      Uncons(Text(values, st));
    }
  }

  /** A character in the lookahead is returned first. */
  lemma ConsumesLookahead(values: seq<Row>, st: IterState)
    requires ValidState(values, st) && |st.lookahead| > 0
    ensures Consumes(values, st)
  {
    PopFront(st.lookahead, Pending(values, st.nextRow, st.inner));
  }

  /** An exhausted row is left without returning anything. */
  lemma ConsumesEndOfRow(values: seq<Row>, st: IterState)
    requires ValidState(values, st) && |st.lookahead| == 0
    requires st.inner.Some? && st.inner.value == |values[st.nextRow - 1]|
    requires Consumes(values, st.(inner := None))
    ensures Consumes(values, st)
  {
    assert NextChar(values, st) == NextChar(values, st.(inner := None));
    assert Text(values, st) == Text(values, st.(inner := None));
  }

  /** A null cell returns `-` and defers its space. */
  lemma ConsumesNull(values: seq<Row>, st: IterState)
    requires ValidState(values, st) && |st.lookahead| == 0
    requires st.inner.Some? && st.inner.value < |values[st.nextRow - 1]|
    requires values[st.nextRow - 1][st.inner.value].None?
    ensures Consumes(values, st)
  {
    var after := Pending(values, st.nextRow, Some(st.inner.value + 1));
    assert Text(values, st) == "- " + after;
    PopFront("- ", after);
  }

  /** A value cell moves into the lookahead and nothing is returned for it yet. */
  lemma ConsumesValue(values: seq<Row>, st: IterState)
    requires ValidState(values, st) && |st.lookahead| == 0
    requires st.inner.Some? && st.inner.value < |values[st.nextRow - 1]|
    requires values[st.nextRow - 1][st.inner.value].Some?
    requires var c := values[st.nextRow - 1][st.inner.value];
             Consumes(values, st.(inner := Some(st.inner.value + 1), lookahead := RenderCell(c) + " "))
    ensures Consumes(values, st)
  {
    var c := values[st.nextRow - 1][st.inner.value];
    var st' := st.(inner := Some(st.inner.value + 1), lookahead := RenderCell(c) + " ");
    NextCharValue(values, st);
    assert Text(values, st) == Text(values, st');
  }

  /** Every row but the first starts with a line feed. */
  lemma ConsumesLineFeed(values: seq<Row>, st: IterState)
    requires ValidState(values, st) && |st.lookahead| == 0 && st.inner.None?
    requires 0 < st.nextRow < |values|
    ensures Consumes(values, st)
  {
    var st2 := IterState(st.nextRow + 1, Some(0), []);
    assert Text(values, st) == [LF] + Text(values, st2);
    PopFront([LF], Text(values, st2));
  }

  /** The first row starts without a line feed. */
  lemma ConsumesFirstRow(values: seq<Row>, st: IterState)
    requires ValidState(values, st) && |st.lookahead| == 0 && st.inner.None?
    requires st.nextRow == 0 < |values|
    requires Consumes(values, IterState(1, Some(0), []))
    ensures Consumes(values, st)
  {
    assert NextChar(values, st) == NextChar(values, IterState(1, Some(0), []));
    assert Text(values, st) == Text(values, IterState(1, Some(0), []));
  }

  /** With every row written, nothing is left and None is returned. */
  lemma ConsumesEnd(values: seq<Row>, st: IterState)
    requires ValidState(values, st) && |st.lookahead| == 0 && st.inner.None?
    requires st.nextRow == |values|
    ensures Consumes(values, st)
  {
  }

  class WsvWriter {
    var alignColumns: ColumnAlignment
    /** Every row the upstream iterator yields, in order. */
    const values: seq<Row>
    /** How many rows the upstream iterator has handed out. */
    var nextRow: nat
    /** The row being written, as the index of its next cell; None between rows. */
    var currentInner: Option<nat>
    /** Characters produced but not yet returned. */
    var lookaheadChars: seq<char>

    ghost predicate Valid()
      reads this
    {
      ValidState(values, State())
    }

    function State(): IterState
      reads this
    {
      IterState(nextRow, currentInner, lookaheadChars)
    }

    /** Everything the iterator has still to return. */
    ghost function Remaining(): string
      reads this
      requires Valid()
    {
      Text(values, State())
    }

    /** A writer over `rows`, packed; it returns exactly the packed text of `rows`. */
    constructor (rows: seq<Row>)
      ensures Valid() && values == rows && alignColumns == Packed
      ensures Remaining() == PackedText(rows)
    {
      alignColumns := Packed;
      values := rows;
      nextRow := 0;
      currentInner := None;
      lookaheadChars := [];
      PendingBetweenRows(rows, 0);
    }

    /** Sets the column alignment. */
    method AlignColumns(alignment: ColumnAlignment)
      requires Valid()
      modifies this
      ensures Valid() && alignColumns == alignment
      ensures nextRow == old(nextRow) && currentInner == old(currentInner)
      ensures lookaheadChars == old(lookaheadChars) && Remaining() == old(Remaining())
    {
      alignColumns := alignment;
    }

    /** The whole output. Packed, it is everything the iterator has still to return,
        collected by calling `Next` until it returns None. Left or Right, it is the
        aligned text of the rows the row iterator has not yet handed out, numbered on
        from those it has; a row already started and the lookahead are dropped. */
    method ToString() returns (s: string)
      requires Valid()
      modifies this
      ensures old(alignColumns) == Packed ==> s == old(Remaining())
      ensures old(alignColumns) != Packed ==> s == AlignedText(values, old(nextRow), old(alignColumns))
    {
      if alignColumns != Packed {
        s := AlignedString(values, nextRow, alignColumns);
      } else {
        s := Drain();
      }
    }

    /** Everything the iterator has still to return, collected by calling `Next` until
        it returns None. */
    method Drain() returns (s: string)
      requires Valid()
      modifies this
      ensures Valid() && alignColumns == old(alignColumns)
      ensures s == old(Remaining()) && Remaining() == []
    {
      s := "";
      while true
        invariant Valid() && alignColumns == old(alignColumns)
        invariant s + Remaining() == old(Remaining())
        decreases |Remaining()|
      {
        ghost var st := State();
        var c := Next();
        NextCharSplits(values, st, c, State());
        if c.None? {
          return;
        }
        AppendAssoc(s, [c.value], Remaining());
        s := s + [c.value];
      }
    }

    /** The next character of the packed text, or None at its end: one step of the
        iterator as `NextChar` says. */
    method Next() returns (r: Option<char>)
      requires Valid()
      modifies this
      ensures Valid() && alignColumns == old(alignColumns)
      ensures (r, State()) == NextChar(values, old(State()))
    {
      ghost var goal := NextChar(values, State());
      while true
        invariant Valid() && alignColumns == old(alignColumns)
        invariant NextChar(values, State()) == goal
        decreases RowsLeft(values, State()), CellsLeft(values, State())
      {
        if |lookaheadChars| > 0 {
          r := Some(lookaheadChars[0]);
          lookaheadChars := lookaheadChars[1..];
          return;
        }
        var done;
        if currentInner.Some? {
          r, done := NextCell();
          if done {
            return;
          }
          if currentInner.Some? {
            continue;
          }
        }
        r, done := NextRow();
        if done {
          return;
        }
      }
    }

    /** The next cell of the current row, with an empty lookahead: an exhausted row is
        left; a null cell returns `-` and defers a space; a value is written, quoted when
        it needs to be, into the lookahead with its space. `done` says whether `r` is the
        iterator's answer; otherwise the iterator goes on from the new state. */
    method NextCell() returns (r: Option<char>, done: bool)
      requires Valid() && |lookaheadChars| == 0 && currentInner.Some?
      modifies this
      ensures Valid() && alignColumns == old(alignColumns) && nextRow == old(nextRow)
      ensures done ==> (r, State()) == NextChar(values, old(State()))
      ensures !done ==> NextChar(values, State()) == NextChar(values, old(State()))
      ensures !done ==> CellsLeft(values, State()) < old(CellsLeft(values, State()))
    {
      ghost var st := State();
      var row := values[nextRow - 1];
      var i := currentInner.value;
      if i == |row| {
        currentInner := None;
        return None, false;
      }
      currentInner := Some(i + 1);
      match row[i] {
        case None =>
          lookaheadChars := " ";
          return Some('-'), true;
        case Some(s) =>
          NextCharValue(values, st);
          var text := QuoteValue(s);
          lookaheadChars := text + " ";
          assert State() == st.(inner := Some(i + 1), lookahead := RenderCell(row[i]) + " ");
          return None, false;
      }
    }

    /** The next row from the row iterator, between rows: None at the end; otherwise
        the row is started, and a line feed is returned unless it is the first row. */
    method NextRow() returns (r: Option<char>, done: bool)
      requires Valid() && |lookaheadChars| == 0 && currentInner.None?
      modifies this
      ensures Valid() && alignColumns == old(alignColumns)
      ensures done ==> (r, State()) == NextChar(values, old(State()))
      ensures !done ==> NextChar(values, State()) == NextChar(values, old(State()))
      ensures !done ==> RowsLeft(values, State()) < old(RowsLeft(values, State()))
    {
      if nextRow == |values| {
        return None, true;
      }
      var k := nextRow;
      nextRow := nextRow + 1;
      currentInner := Some(0);
      if k != 0 {
        return Some(LF), true;
      }
      return None, false;
    }
  }

  /** What the writer has still to produce beyond its lookahead, in the order it
      produces it: the rest of the current row from cell `inner` on, each cell followed
      by a space, then every row not yet started, each but the first of all preceded
      by a line feed. */
  ghost function Pending(values: seq<Row>, nextRow: nat, inner: Option<nat>): string
    requires nextRow <= |values|
    requires inner.Some? ==> 0 < nextRow && inner.value <= |values[nextRow - 1]|
    decreases |values| - nextRow, if inner.Some? then |values[nextRow - 1]| - inner.value + 1 else 0
  {
    match inner
    case Some(i) =>
      if i < |values[nextRow - 1]|
      then RenderCell(values[nextRow - 1][i]) + " " + Pending(values, nextRow, Some(i + 1))
      else Pending(values, nextRow, None)
    case None =>
      if nextRow < |values|
      then (if nextRow == 0 then [] else [LF]) + Pending(values, nextRow + 1, Some(0))
      else []
  }

  /** The rest of a row, and what follows it, is its packed text and the rows after it. */
  lemma {:induction false} PendingInRow(values: seq<Row>, k: nat, i: nat)
    requires 0 < k <= |values| && i <= |values[k - 1]|
    requires Pending(values, k, None) == RowsFrom(values, k)
    ensures Pending(values, k, Some(i)) == CellsText(values[k - 1], i) + RowsFrom(values, k)
    decreases |values[k - 1]| - i
  {
    var row := values[k - 1];
    if i < |row| {
      var cell := RenderCell(row[i]) + " ";
      PendingInRow(values, k, i + 1);
      assert Pending(values, k, Some(i)) == cell + Pending(values, k, Some(i + 1));
      assert CellsText(row, i) == cell + CellsText(row, i + 1);
      AppendAssoc(cell, CellsText(row, i + 1), RowsFrom(values, k));
    } else {
      assert Pending(values, k, Some(i)) == Pending(values, k, None);
    }
  }

  /** Between rows, what is pending is the packed text of the rows not yet started. */
  lemma {:induction false} PendingBetweenRows(values: seq<Row>, k: nat)
    requires k <= |values|
    ensures Pending(values, k, None) == RowsFrom(values, k)
    decreases |values| - k
  {
    if k < |values| {
      PendingBetweenRows(values, k + 1);
      PendingInRow(values, k + 1, 0);
      AppendAssoc((if k == 0 then [] else [LF]), CellsText(values[k], 0), RowsFrom(values, k + 1));
    }
  }

  /** The first character of `a + b`, and what follows it, when `a` is not empty. */
  lemma Uncons(t: string)
    requires |t| > 0
    ensures t == [t[0]] + t[1..]
  {
  }

  lemma PopFront(a: string, b: string)
    requires |a| > 0
    ensures (a + b)[0] == a[0] && (a + b)[1..] == a[1..] + b
  {
  }
}
