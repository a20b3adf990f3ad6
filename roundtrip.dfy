/**
 * Reading back what the packed writer writes. Every value comes back as itself and
 * every null as a null, except the two values the writer leaves unquoted although
 * they do not read back: the empty value (written as nothing) and the value `-`
 * (written as the null marker). Every row comes back, except an empty last row,
 * which the parser drops.
 */
module RoundTrip {
  import opened WsvTypes
  import opened WsvScanner
  import opened WsvParse
  import opened WriterSpec
  import LineIterator

  /** A cell that reads back as itself once written. */
  predicate Faithful(c: Cell)
  {
    c != Some("") && c != Some("-")
  }

  predicate FaithfulRow(row: Row)
  {
    forall i | 0 <= i < |row| :: Faithful(row[i])
  }

  predicate FaithfulRows(rows: seq<Row>)
  {
    forall k | 0 <= k < |rows| :: FaithfulRow(rows[k])
  }

  /** The token a cell reads back as. */
  function CellToken(c: Cell): Token
  {
    match c
    case None => Null
    case Some(s) => Value(s)
  }

  /** The tokens of the cells of `row` from index `j` on. */
  function CellTokens(row: Row, j: nat): seq<Result<Token, WsvError>>
    decreases |row| - j
  {
    if j >= |row| then [] else [Ok(CellToken(row[j]))] + CellTokens(row, j + 1)
  }

  /** The tokens of the rows from index `k` on, each but the very first row of all
      preceded by a line feed. */
  function RowTokens(rows: seq<Row>, k: nat): seq<Result<Token, WsvError>>
    decreases |rows| - k
  {
    if k >= |rows| then []
    else (if k == 0 then [] else [Ok(LineFeed)]) + CellTokens(rows[k], 0) + RowTokens(rows, k + 1)
  }

  /** `text` holds `piece` at position `p`. */
  predicate HoldsAt(text: seq<char>, p: nat, piece: string)
    decreases |piece|
  {
    && p + |piece| <= |text|
    && (|piece| == 0 || (text[p] == piece[0] && HoldsAt(text, p + 1, piece[1..])))
  }

  /** Position `q` ends a value: the text ends there, or a space or a line feed follows. */
  predicate Delimited(text: seq<char>, q: nat)
  {
    q <= |text| && (q == |text| || text[q] == ' ' || text[q] == LF)
  }

  lemma {:induction false} CharAt(text: seq<char>, p: nat, piece: string, k: nat)
    requires HoldsAt(text, p, piece) && k < |piece|
    ensures text[p + k] == piece[k]
    decreases k
  {
    if k > 0 {
      CharAt(text, p + 1, piece[1..], k - 1);
    }
  }

  /** The characters at `p` are `piece`. */
  lemma HoldsAtSlice(text: seq<char>, p: nat, piece: string)
    requires HoldsAt(text, p, piece)
    ensures text[p..p + |piece|] == piece
  {
    forall k | 0 <= k < |piece|
      ensures text[p..p + |piece|][k] == piece[k]
    {
      CharAt(text, p, piece, k);
    }
  }

  /** Where `a + b` is held at `p`, `a` is held at `p` and `b` at `m`, just after `a`. */
  lemma {:induction false} HoldsAtSplit(text: seq<char>, p: nat, a: string, b: string, m: nat)
    requires HoldsAt(text, p, a + b) && m == p + |a|
    ensures HoldsAt(text, p, a) && HoldsAt(text, m, b)
    decreases |a|
  {
    if |a| > 0 {
      assert (a + b)[1..] == a[1..] + b;
      HoldsAtSplit(text, p + 1, a[1..], b, m);
    } else {
      assert a + b == b;
    }
  }

  /** One escaped character scans back, in one pass, to the character. */
  lemma EscapeStep(text: seq<char>, i: nat, loc: Location, acc: string, ch: char, j: nat)
    requires HoldsAt(text, i, EscapeChar(ch)) && j == i + |EscapeChar(ch)|
    ensures ScanQuoted(text, i, loc, acc) == ScanQuoted(text, j, LocationAfter(loc, text, i, j), acc + [ch])
  {
    var h := EscapeChar(ch);
    CharAt(text, i, h, 0);
    if ch == LF || ch == '"' {
      CharAt(text, i, h, 1);
      if ch == LF {
        CharAt(text, i, h, 2);
      }
    }
    var st := QuotedStepAt(text, i, loc, acc);
    assert st.Continue? && st.next == i + |h| && st.acc == acc + [ch];
    QuotedStepLocation(text, i, loc, acc);
  }

  /** The inside of a quoted value written by the writer, followed by the closing quote
      and a delimiter, scans back to the value. */
  lemma {:induction false} ScanEscaped(text: seq<char>, i: nat, loc: Location, acc: string, s: string)
    requires HoldsAt(text, i, Escaped(s) + "\"") && Delimited(text, i + |Escaped(s)| + 1)
    ensures var q := ScanQuoted(text, i, loc, acc);
            q.Closed? && q.value == acc + s && q.end == i + |Escaped(s)| + 1
    decreases |s|
  {
    if |s| == 0 {
      CharAt(text, i, Escaped(s) + "\"", 0);
      assert QuotedStepAt(text, i, loc, acc) == Finish(Closed(acc, i + 1, Advance(loc, '"')));
      assert acc + s == acc;
    } else {
      var h := EscapeChar(s[0]);
      var e := Escaped(s[1..]);
      assert Escaped(s) == h + e;
      AppendAssoc(h, e, "\"");
      var j := i + |h|;
      HoldsAtSplit(text, i, h, e + "\"", j);
      EscapeStep(text, i, loc, acc, s[0], j);
      assert HoldsAt(text, j, e + "\"") && Delimited(text, j + |e| + 1);
      ScanEscaped(text, j, LocationAfter(loc, text, i, j), acc + [s[0]], s[1..]);
      AppendAssoc(acc, [s[0]], s[1..]);
      assert [s[0]] + s[1..] == s;
    }
  }

  /** Every character of a value that needs no quotes may appear in a bare value. */
  lemma BareChars(s: string)
    requires !NeedsQuotes(s)
    ensures forall i | 0 <= i < |s| :: IsBareChar(s[i])
  {
  }

  /** What reading a token at `p` must give back: `t`, with the scanner just after the
      `n` characters it was written in and nothing deferred. */
  predicate ReadsAs(r: Step, t: Token, p: nat, n: nat)
  {
    r.token == Some(Ok(t)) && r.next.pos == p + n && r.next.pending.None? && !r.next.errored
  }

  /** The null marker reads back as the null token. */
  lemma NullAt(text: seq<char>, p: nat, loc: Location)
    requires HoldsAt(text, p, "-") && Delimited(text, p + 1)
    ensures p < |text| && !IsWhitespace(text[p])
    ensures ReadsAs(TokenAt(text, p, loc), Null, p, 1)
  {
    CharAt(text, p, "-", 0);
    SpanEndIs(IsBareChar, text, p, p + 1);
    HoldsAtSlice(text, p, "-");
  }

  /** A value written bare reads back as itself. */
  lemma BareAt(text: seq<char>, p: nat, loc: Location, s: string)
    requires s != "" && s != "-" && forall i | 0 <= i < |s| :: IsBareChar(s[i])
    requires HoldsAt(text, p, s) && Delimited(text, p + |s|)
    ensures p < |text| && !IsWhitespace(text[p])
    ensures ReadsAs(TokenAt(text, p, loc), Value(s), p, |s|)
  {
    CharAt(text, p, s, 0);
    forall k | p <= k < p + |s|
      ensures IsBareChar(text[k])
    {
      CharAt(text, p, s, k - p);
    }
    HoldsAtSlice(text, p, s);
    SpanEndIs(IsBareChar, text, p, p + |s|);
  }

  /** A value written between quotes reads back as itself. */
  lemma QuotedAt(text: seq<char>, p: nat, loc: Location, s: string, e: nat)
    requires HoldsAt(text, p, "\"" + (Escaped(s) + "\"")) && e == p + |Escaped(s)| + 2
    requires Delimited(text, e)
    ensures p < |text| && !IsWhitespace(text[p])
    ensures ReadsAs(TokenAt(text, p, loc), Value(s), p, e - p)
  {
    HoldsAtSplit(text, p, "\"", Escaped(s) + "\"", p + 1);
    CharAt(text, p, "\"", 0);
    var q := ScanQuoted(text, p + 1, Advance(loc, '"'), []);
    ScanEscaped(text, p + 1, Advance(loc, '"'), [], s);
    assert q.value == s by {
      assert [] + s == s;
    }
    assert q.end == e;
    assert TokenAt(text, p, loc) == QuotedToken(text, p, loc);
    assert AfterString(if e < |text| then text[e] else ' ', q.loc).None?;
  }

  /** The packed text as the writer emits it, one piece at a time: a cell and the space
      after it, in one of the three forms the reader tells apart, or the line feed
      between two rows. */
  datatype Piece = NullCell | BareCell(s: string) | QuotedCell(s: string) | RowBreak

  /** The characters of a cell piece, without the space after it. */
  function CellText(pc: Piece): string
  {
    match pc
    case NullCell => "-"
    case BareCell(s) => s
    case QuotedCell(s) => "\"" + (Escaped(s) + "\"")
    case RowBreak => []
  }

  /** The characters of a piece. */
  function PieceText(pc: Piece): string
  {
    if pc.RowBreak? then [LF] else CellText(pc) + " "
  }

  /** The token a piece reads back as. */
  function PieceToken(pc: Piece): Token
  {
    match pc
    case NullCell => Null
    case BareCell(s) => Value(s)
    case QuotedCell(s) => Value(s)
    case RowBreak => LineFeed
  }

  /** A bare piece holds neither the empty value nor the null marker, and only
      characters that may appear unquoted. */
  predicate PieceOk(pc: Piece)
  {
    pc.BareCell? ==> pc.s != "" && pc.s != "-" && forall i | 0 <= i < |pc.s| :: IsBareChar(pc.s[i])
  }

  predicate AllPiecesOk(ps: seq<Piece>)
  {
    forall i | 0 <= i < |ps| :: PieceOk(ps[i])
  }

  /** The piece the packed writer emits for a cell. */
  function CellPiece(c: Cell): Piece
  {
    match c
    case None => NullCell
    case Some(s) => if NeedsQuotes(s) then QuotedCell(s) else BareCell(s)
  }

  /** The text of a sequence of pieces. */
  function PiecesText(ps: seq<Piece>): string
  {
    if |ps| == 0 then [] else PieceText(ps[0]) + PiecesText(ps[1..])
  }

  /** The tokens of a sequence of pieces. */
  function PiecesTokens(ps: seq<Piece>): seq<Result<Token, WsvError>>
  {
    if |ps| == 0 then [] else [Ok(PieceToken(ps[0]))] + PiecesTokens(ps[1..])
  }

  /** The pieces of the cells of `row` from index `j` on. */
  function CellPieces(row: Row, j: nat): seq<Piece>
    decreases |row| - j
  {
    if j >= |row| then [] else [CellPiece(row[j])] + CellPieces(row, j + 1)
  }

  /** The pieces of the rows from index `k` on, a line feed before each but the very
      first row. */
  function RowPieces(rows: seq<Row>, k: nat): seq<Piece>
    decreases |rows| - k
  {
    if k >= |rows| then []
    else (if k == 0 then [] else [RowBreak]) + CellPieces(rows[k], 0) + RowPieces(rows, k + 1)
  }

  /** A faithful cell's piece is its rendering followed by a space, and reads back as
      the cell's token. */
  lemma CellPieceWritten(c: Cell)
    requires Faithful(c)
    ensures PieceOk(CellPiece(c))
    ensures PieceText(CellPiece(c)) == RenderCell(c) + " "
    ensures PieceToken(CellPiece(c)) == CellToken(c)
  {
    match c
    case None =>
    case Some(s) =>
      if NeedsQuotes(s) {
        AppendAssoc("\"", Escaped(s), "\"");
      } else {
        EscapedUnquoted(s);
        BareChars(s);
      }
  }

  /** The text and tokens of two sequences of pieces, one after the other. */
  lemma {:induction false} PiecesAppend(a: seq<Piece>, b: seq<Piece>)
    ensures PiecesText(a + b) == PiecesText(a) + PiecesText(b)
    ensures PiecesTokens(a + b) == PiecesTokens(a) + PiecesTokens(b)
    decreases |a|
  {
    if |a| == 0 {
      assert a + b == b;
    } else {
      assert (a + b)[1..] == a[1..] + b;
      PiecesAppend(a[1..], b);
      AppendAssoc(PieceText(a[0]), PiecesText(a[1..]), PiecesText(b));
      AppendAssoc([Ok(PieceToken(a[0]))], PiecesTokens(a[1..]), PiecesTokens(b));
    }
  }

  /** The pieces of a row's faithful cells are the cells' packed text and tokens. */
  lemma {:induction false} CellPiecesWritten(row: Row, j: nat)
    requires FaithfulRow(row)
    ensures AllPiecesOk(CellPieces(row, j))
    ensures PiecesText(CellPieces(row, j)) == CellsText(row, j)
    ensures PiecesTokens(CellPieces(row, j)) == CellTokens(row, j)
    decreases |row| - j
  {
    if j < |row| {
      var ps := CellPieces(row, j);
      CellPiecesWritten(row, j + 1);
      CellPieceWritten(row[j]);
      assert ps[1..] == CellPieces(row, j + 1);
    }
  }

  /** Well-formed pieces stay well-formed when put one after the other. */
  lemma PiecesOkAppend(a: seq<Piece>, b: seq<Piece>)
    requires AllPiecesOk(a) && AllPiecesOk(b)
    ensures AllPiecesOk(a + b)
  {
    forall i | 0 <= i < |a + b|
      ensures PieceOk((a + b)[i])
    {
      if i >= |a| {
        assert (a + b)[i] == b[i - |a|];
      }
    }
  }

  /** The piece before every row but the first is the line feed between rows. */
  function LeadPieces(k: nat): (ps: seq<Piece>)
    ensures AllPiecesOk(ps)
    ensures PiecesText(ps) == if k == 0 then [] else [LF]
    ensures PiecesTokens(ps) == if k == 0 then [] else [Ok(LineFeed)]
  {
    if k == 0 then [] else [RowBreak]
  }

  /** The pieces of faithful rows are the rows' packed text and tokens. */
  lemma {:induction false} RowPiecesWritten(rows: seq<Row>, k: nat)
    requires FaithfulRows(rows)
    ensures AllPiecesOk(RowPieces(rows, k))
    ensures PiecesText(RowPieces(rows, k)) == RowsFrom(rows, k)
    ensures PiecesTokens(RowPieces(rows, k)) == RowTokens(rows, k)
    decreases |rows| - k
  {
    if k < |rows| {
      var lead := LeadPieces(k);
      var cells := CellPieces(rows[k], 0);
      var rest := RowPieces(rows, k + 1);
      assert RowPieces(rows, k) == lead + cells + rest;
      CellPiecesWritten(rows[k], 0);
      RowPiecesWritten(rows, k + 1);
      PiecesAppend(lead, cells);
      PiecesAppend(lead + cells, rest);
      PiecesOkAppend(lead, cells);
      PiecesOkAppend(lead + cells, rest);
    }
  }

  /** A whitespace character before the next token is skipped over. */
  lemma SkipWhitespace(text: seq<char>, p: nat, loc: Location, p1: nat)
    requires p < |text| && IsWhitespace(text[p]) && p1 == p + 1
    ensures AllTokens(text, TokState(p, loc, None, false))
         == AllTokens(text, TokState(p1, Advance(loc, text[p]), None, false))
  {
    var n := SpanEnd(IsWhitespace, text, p);
    assert n == SpanEnd(IsWhitespace, text, p1);
    LocationAfterFirst(loc, text, p, n);
    assert NextToken(text, TokState(p, loc, None, false))
        == NextToken(text, TokState(p1, Advance(loc, text[p]), None, false));
  }

  /** A token that does not start with whitespace is read where it starts. */
  lemma TokenHere(text: seq<char>, p: nat, loc: Location)
    requires p < |text| && !IsWhitespace(text[p])
    ensures NextToken(text, TokState(p, loc, None, false)) == TokenAt(text, p, loc)
  {
    SpanEndIs(IsWhitespace, text, p, p);
  }

  /** A token read in `n` characters and followed by whitespace: the tokens from its
      start are the token and then the tokens from just after the whitespace. */
  lemma ReadAndSkip(text: seq<char>, p: nat, loc: Location, t: Token, n: nat, p1: nat)
    requires p < |text| && !IsWhitespace(text[p]) && ReadsAs(TokenAt(text, p, loc), t, p, n)
    requires p1 == p + n + 1 && p1 <= |text| && IsWhitespace(text[p + n])
    ensures AllTokens(text, TokState(p, loc, None, false))
         == [Ok(t)] + AllTokens(text, TokState(p1, LocationAfter(loc, text, p, p1), None, false))
  {
    var m := p + n;
    var st := TokState(p, loc, None, false);
    TokenHere(text, p, loc);
    NextTokenLocation(text, st);
    var l1 := LocationAfter(loc, text, p, m);
    assert NextToken(text, st) == Step(Some(Ok(t)), TokState(m, l1, None, false));
    SkipWhitespace(text, m, l1, p1);
    LocationAfterSplit(loc, text, p, m, p1);
    assert LocationAfter(l1, text, m, p1) == Advance(l1, text[m]);
  }

  /** The state of the tokenizer at position `p` with nothing deferred. */
  function At(text: seq<char>, p: nat): TokState
    requires p <= |text|
  {
    TokState(p, LocationAfter(StartLocation(), text, 0, p), None, false)
  }

  /** A line feed held at `p` reads back as the line feed token. */
  lemma BreakReads(text: seq<char>, p: nat, p1: nat)
    requires HoldsAt(text, p, [LF]) && p1 == p + 1
    ensures p1 <= |text|
    ensures AllTokens(text, At(text, p)) == [Ok(LineFeed)] + AllTokens(text, At(text, p1))
  {
    CharAt(text, p, [LF], 0);
    var loc := LocationAfter(StartLocation(), text, 0, p);
    TokenHere(text, p, loc);
    LocationAfterSplit(StartLocation(), text, 0, p, p1);
    assert LocationAfter(loc, text, p, p1) == Advance(loc, LF);
    assert NextToken(text, At(text, p)) == Step(Some(Ok(LineFeed)), At(text, p1));
  }

  /** A cell piece held at `p` reads back as its token, and reading goes on after its
      space. */
  lemma CellPieceReads(text: seq<char>, p: nat, pc: Piece, p1: nat)
    requires !pc.RowBreak? && PieceOk(pc)
    requires HoldsAt(text, p, CellText(pc) + " ") && p1 == p + |CellText(pc)| + 1
    ensures p1 <= |text|
    ensures AllTokens(text, At(text, p)) == [Ok(PieceToken(pc))] + AllTokens(text, At(text, p1))
  {
    var w := CellText(pc);
    var e := p + |w|;
    var loc := LocationAfter(StartLocation(), text, 0, p);
    HoldsAtSplit(text, p, w, " ", e);
    CharAt(text, e, " ", 0);
    assert Delimited(text, e);
    if pc.NullCell? {
      NullAt(text, p, loc);
    } else if pc.BareCell? {
      BareAt(text, p, loc, pc.s);
    } else {
      QuotedAt(text, p, loc, pc.s, e);
    }
    ReadAndSkip(text, p, loc, PieceToken(pc), |w|, p1);
    LocationAfterSplit(StartLocation(), text, 0, p, p1);
  }

  /** A piece held at `p` reads back as its token, and reading goes on just after it. */
  lemma PieceReads(text: seq<char>, p: nat, pc: Piece, p1: nat)
    requires PieceOk(pc) && HoldsAt(text, p, PieceText(pc)) && p1 == p + |PieceText(pc)|
    ensures p1 <= |text|
    ensures AllTokens(text, At(text, p)) == [Ok(PieceToken(pc))] + AllTokens(text, At(text, p1))
  {
    if pc.RowBreak? {
      BreakReads(text, p, p1);
    } else {
      CellPieceReads(text, p, pc, p1);
    }
  }

  /** No token is left at the end of the text. */
  lemma NoTokensAtEnd(text: seq<char>, p: nat)
    requires p == |text|
    ensures AllTokens(text, At(text, p)) == []
  {
    assert BlankFrom(text, p);
  }

  /** Pieces held from `p` to the end of the text read back as their tokens. */
  lemma {:induction false} PiecesRead(text: seq<char>, p: nat, ps: seq<Piece>)
    requires AllPiecesOk(ps) && HoldsAt(text, p, PiecesText(ps)) && p + |PiecesText(ps)| == |text|
    ensures AllTokens(text, At(text, p)) == PiecesTokens(ps)
    decreases |ps|
  {
    if |ps| == 0 {
      NoTokensAtEnd(text, p);
    } else {
      var p1 := p + |PieceText(ps[0])|;
      HoldsAtSplit(text, p, PieceText(ps[0]), PiecesText(ps[1..]), p1);
      assert PieceOk(ps[0]);
      PieceReads(text, p, ps[0], p1);
      assert AllPiecesOk(ps[1..]) by {
        forall i | 0 <= i < |ps[1..]|
          ensures PieceOk(ps[1..][i])
        {
          assert ps[1..][i] == ps[i + 1];
        }
      }
      PiecesRead(text, p1, ps[1..]);
    }
  }

  /** Every token of the rows is a token, not an error. */
  predicate AllOk(ts: seq<Result<Token, WsvError>>)
  {
    forall i | 0 <= i < |ts| :: ts[i].Ok?
  }

  lemma {:induction false} CellTokensOk(row: Row, j: nat)
    ensures AllOk(CellTokens(row, j))
    decreases |row| - j
  {
    if j < |row| {
      CellTokensOk(row, j + 1);
    }
  }

  lemma {:induction false} RowTokensOk(rows: seq<Row>, k: nat)
    ensures AllOk(RowTokens(rows, k))
    decreases |rows| - k
  {
    if k < |rows| {
      CellTokensOk(rows[k], 0);
      RowTokensOk(rows, k + 1);
    }
  }

  /** `text` holds its own suffix from `p` at `p`. */
  lemma {:induction false} HoldsSuffix(text: seq<char>, p: nat)
    requires p <= |text|
    ensures HoldsAt(text, p, text[p..])
    decreases |text| - p
  {
    if p < |text| {
      assert text[p..][1..] == text[p + 1..];
      HoldsSuffix(text, p + 1);
    }
  }

  /** The packed text of faithful rows tokenizes to the rows' tokens. */
  lemma PackedTokens(rows: seq<Row>)
    requires FaithfulRows(rows)
    ensures Tokenize(PackedText(rows)) == RowTokens(rows, 0)
  {
    var text := PackedText(rows);
    var ps := RowPieces(rows, 0);
    RowPiecesWritten(rows, 0);
    HoldsSuffix(text, 0);
    assert text[0..] == PiecesText(ps);
    PiecesRead(text, 0, ps);
    assert At(text, 0) == Initial();
  }

  /** Folding a token that is not an error, then the rest. */
  lemma FoldCons(acc: seq<Row>, t: Token, ts: seq<Result<Token, WsvError>>)
    requires |acc| > 0
    ensures FoldRows(acc, [Ok(t)] + ts) == FoldRows(AddToken(acc, t), ts)
  {
    assert ([Ok(t)] + ts)[1..] == ts;
  }

  /** Folding the tokens of a row's cells appends those cells to the last row. */
  lemma {:induction false} FoldCells(acc: seq<Row>, row: Row, j: nat, ts: seq<Result<Token, WsvError>>)
    requires |acc| > 0 && j <= |row|
    ensures FoldRows(acc, CellTokens(row, j) + ts)
         == FoldRows(acc[..|acc| - 1] + [acc[|acc| - 1] + row[j..]], ts)
    decreases |row| - j
  {
    var n := |acc| - 1;
    if j == |row| {
      assert CellTokens(row, j) + ts == ts;
      assert acc[n] + row[j..] == acc[n];
      assert acc[..n] + [acc[n]] == acc;
    } else {
      var t := CellToken(row[j]);
      var y := CellTokens(row, j + 1);
      AppendAssoc([Ok(t)], y, ts);
      FoldCons(acc, t, y + ts);
      var acc' := AddCell(acc, row[j]);
      assert AddToken(acc, t) == acc';
      FoldCells(acc', row, j + 1, ts);
      assert row[j..] == [row[j]] + row[j + 1..];
      AppendAssoc(acc[n], [row[j]], row[j + 1..]);
      assert acc'[..n] == acc[..n];
    }
  }

  /** Folding a row's cell tokens into a fresh empty row gives that row. */
  lemma FoldFreshRow(acc: seq<Row>, row: Row, ts: seq<Result<Token, WsvError>>)
    ensures FoldRows(acc + [[]], CellTokens(row, 0) + ts) == FoldRows(acc + [row], ts)
  {
    var open := acc + [[]];
    FoldCells(open, row, 0, ts);
    assert open[..|open| - 1] + [open[|open| - 1] + row[0..]] == acc + [row] by {
      assert open[..|open| - 1] == acc;
      assert open[|open| - 1] + row[0..] == row;
    }
  }

  /** Folding the tokens of the rows from `k > 0` on appends those rows. */
  lemma {:induction false} FoldRowsFrom(acc: seq<Row>, rows: seq<Row>, k: nat)
    requires |acc| > 0 && 0 < k <= |rows|
    ensures FoldRows(acc, RowTokens(rows, k)) == acc + rows[k..]
    decreases |rows| - k
  {
    if k < |rows| {
      var tail := RowTokens(rows, k + 1);
      var cells := CellTokens(rows[k], 0);
      AppendAssoc([Ok(LineFeed)], cells, tail);
      FoldCons(acc, LineFeed, cells + tail);
      FoldFreshRow(acc, rows[k], tail);
      FoldRowsFrom(acc + [rows[k]], rows, k + 1);
      AppendAssoc(acc, [rows[k]], rows[k + 1..]);
      assert [rows[k]] + rows[k + 1..] == rows[k..];
    } else {
      assert acc + rows[k..] == acc;
    }
  }

  /** Folding the tokens of all rows into a fresh empty row appends the rows. */
  lemma FoldAllRows(acc: seq<Row>, rows: seq<Row>)
    requires |rows| > 0
    ensures FoldRows(acc + [[]], RowTokens(rows, 0)) == acc + rows
  {
    var tail := RowTokens(rows, 1);
    assert RowTokens(rows, 0) == CellTokens(rows[0], 0) + tail;
    FoldFreshRow(acc, rows[0], tail);
    if |rows| == 1 {
      assert tail == [];
      assert [rows[0]] == rows;
    } else {
      FoldRowsFrom(acc + [rows[0]], rows, 1);
      AppendAssoc(acc, [rows[0]], rows[1..]);
      assert [rows[0]] + rows[1..] == rows;
    }
  }

  /** What parsing the packed text of faithful rows gives back: the rows, without the
      last one when it is empty. */
  lemma PackedReadsBack(rows: seq<Row>)
    requires FaithfulRows(rows)
    ensures ParseResult(PackedText(rows))
         == Ok(if |rows| > 0 && rows[|rows| - 1] == [] then rows[..|rows| - 1] else rows)
  {
    var text := PackedText(rows);
    var ts := RowTokens(rows, 0);
    PackedTokens(rows);
    assert ParseResult(text) == ParseRows([[]], ts);
    RowTokensOk(rows, 0);
    assert FirstError(ts).None?;
    var folded := FoldRows([[]], ts);
    assert ParseRows([[]], ts) == Ok(DropTrailingEmpty(folded));
    if |rows| > 0 {
      var none: seq<Row> := [];
      FoldAllRows(none, rows);
      assert none + [[]] == [[]] && none + rows == rows;
    } else {
      assert ts == [];
    }
  }

  /** The round trip: rows whose cells are faithful and whose last row is not empty
      are read back exactly. */
  lemma PackedRoundTrip(rows: seq<Row>)
    requires FaithfulRows(rows)
    requires |rows| == 0 || |rows[|rows| - 1]| > 0
    ensures ParseResult(PackedText(rows)) == Ok(rows)
  {
    PackedReadsBack(rows);
  }

  /** The streaming parser reads the packed text back row by row, with no error. */
  lemma StreamingRoundTrip(rows: seq<Row>)
    requires FaithfulRows(rows)
    requires |rows| == 0 || |rows[|rows| - 1]| > 0
    ensures LineIterator.AllLines(PackedText(rows), LineIterator.InitialLines()) == LineIterator.OkRows(rows)
  {
    PackedRoundTrip(rows);
    LineIterator.StreamingMatchesParse(PackedText(rows), rows);
  }

  /** A text that is one quoted value and nothing else tokenizes to that value alone:
      inside the quotes `""` stands for a quote and `"/"` for a line feed. */
  lemma QuotedAlone(s: string)
    ensures Tokenize("\"" + (Escaped(s) + "\"")) == [Ok(Value(s))]
  {
    var text := "\"" + (Escaped(s) + "\"");
    var e := |text|;
    HoldsSuffix(text, 0);
    assert text[0..] == text;
    QuotedAt(text, 0, StartLocation(), s, e);
    TokenHere(text, 0, StartLocation());
    var r := NextToken(text, Initial());
    assert r.token == Some(Ok(Value(s))) && r.next.pos == e;
    assert BlankFrom(text, e);
    assert AllTokens(text, r.next) == [];
  }

  /** A value without quotes and line feeds is escaped as itself. */
  lemma {:induction false} EscapedPlain(s: string)
    requires forall i | 0 <= i < |s| :: s[i] != LF && s[i] != '"'
    ensures Escaped(s) == s
    decreases |s|
  {
    if |s| > 0 {
      assert forall i | 0 <= i < |s[1..]| :: s[1..][i] == s[i + 1];
      EscapedPlain(s[1..]);
    }
  }

  /** A value with no quote and no line feed, followed by a quote and a slash, is
      escaped as itself followed by a doubled quote and the slash. */
  lemma EscapedQuoteSlash(a: string, b: string)
    requires forall i | 0 <= i < |a| :: a[i] != LF && a[i] != '"'
    requires b == "\"/"
    ensures Escaped(a + b) == a + "\"\"/"
  {
    EscapedAppend(a, b);
    EscapedPlain(a);
    var c := b[1..];
    assert c == "/";
    EscapedPlain(c);
    assert Escaped(b) == EscapeChar(b[0]) + Escaped(c);
  }

  /** The quoted form of `string "/`, made of `string ` and `"/`. */
  lemma QuoteSlashForm(a: string, b: string)
    requires a == "string " && b == "\"/"
    ensures "\"" + (Escaped(a + b) + "\"") == "\"string \"\"/\""
  {
    EscapedQuoteSlash(a, b);
  }

  /** The quoted form of three quotes. */
  lemma QuotesForm()
    ensures "\"" + (Escaped("\"\"\"") + "\"") == "\"\"\"\"\"\"\"\""
  {
    assert Escaped("\"\"\"") == "\"\"\"\"\"\"";
  }

  /** The quoted form of three line feeds. */
  lemma LineFeedsForm()
    ensures "\"" + (Escaped([LF, LF, LF]) + "\"") == "\"\"/\"\"/\"\"/\"\""
  {
    var l := "\"/\"";
    assert [LF][1..] == [];
    assert Escaped([LF]) == l;
    assert [LF, LF][1..] == [LF];
    assert Escaped([LF, LF]) == l + l;
    assert [LF, LF, LF][1..] == [LF, LF];
    assert Escaped([LF, LF, LF]) == l + l + l;
  }

  /** `"string ""/"` is the value `string "/`: the quote pair is an escaped quote, and
      the slash after it is not part of a line break escape. */
  lemma EscapedQuoteBeforeSlash(text: string)
    requires text == "\"string \"\"/\""
    ensures Tokenize(text) == [Ok(Value("string \"/"))]
  {
    var a, b := "string ", "\"/";
    QuoteSlashForm(a, b);
    QuotedAlone(a + b);
    assert a + b == "string \"/";
  }

  /** Eight quotes are the value made of three quotes. */
  lemma EightQuotes(text: string)
    requires text == "\"\"\"\"\"\"\"\""
    ensures Tokenize(text) == [Ok(Value("\"\"\""))]
  {
    QuotesForm();
    QuotedAlone("\"\"\"");
  }

  /** `""/""/""/""` is the value made of three line feeds. */
  lemma ThreeLineBreaks(text: string)
    requires text == "\"\"/\"\"/\"\"/\"\""
    ensures Tokenize(text) == [Ok(Value([LF, LF, LF]))]
  {
    LineFeedsForm();
    QuotedAlone([LF, LF, LF]);
  }

  /** A null cell and a value holding a space, packed: the marker, the value between
      quotes, and a space after each of the two cells, the last one included. */
  lemma PackedNullAndSpaced(v: string)
    requires v == "x y"
    ensures PackedText([[None, Some(v)]]) == "- \"" + v + "\" "
  {
    assert IsWhitespace(v[1]);
    assert NeedsQuotes(v);
    EscapedPlain(v);
    assert RenderCell(Some(v)) == "\"" + v + "\"";
    var row: Row := [None, Some(v)];
    assert CellsText(row, 2) == [];
    assert CellsText(row, 0) == "- " + (RenderCell(Some(v)) + " ");
    assert RowsFrom([row], 1) == [];
  }

  /** The empty value is written as nothing, so it does not come back. */
  lemma EmptyValueIsLost()
    ensures PackedText([[Some("")]]) == " "
    ensures ParseResult(PackedText([[Some("")]])) == Ok([])
  {
    var text := PackedText([[Some("")]]);
    assert RenderCell(Some("")) == "";
    assert text == " ";
    SkipWhitespace(text, 0, StartLocation(), 1);
    assert Tokenize(text) == [];
  }

  /** The value `-` is written as the null marker and comes back as a null cell. */
  lemma DashValueBecomesNull()
    ensures PackedText([[Some("-")]]) == "- "
    ensures ParseResult(PackedText([[Some("-")]])) == Ok([[None]])
  {
    var text := PackedText([[Some("-")]]);
    assert !NeedsQuoteChar('-');
    EscapedUnquoted("-");
    assert text == "- ";
    PackedTokens([[None]]);
    assert PackedText([[None]]) == text;
    var none: seq<Row> := [];
    FoldAllRows(none, [[None]]);
    assert none + [[]] == [[]] && none + [[None]] == [[None]];
  }
}
