/**
 * The streaming row builder (`parse_lazy` and `WSVLineIterator`): rows are collected
 * from the streaming tokenizer one at a time. A line feed yields the row collected so
 * far, even an empty one; the end of input yields the last row only if it is not
 * empty. An error after some cells yields that partial row first and the error on the
 * next call; after an error the iterator yields nothing.
 */
module LineIterator {
  import opened WsvTypes
  import opened WsvScanner
  import opened LazyTokenizer
  import opened WsvParse

  /** The iterator's state between two calls of `next`: the tokenizer's state, the
      deferred error and the terminal flag. */
  datatype LineState = LineState(tok: TokState, pending: Option<WsvError>, errored: bool)

  /** What one call of `next` returns and the state it leaves behind. */
  datatype LineStep = LineStep(item: Option<Result<Row, WsvError>>, next: LineState)

  /** The state of a fresh iterator. */
  function InitialLines(): LineState
  {
    LineState(Initial(), None, false)
  }

  /** The loop of `next`: reads tokens from `tok`, adding cells to `line`, until a line
      feed, the end of the tokens, or an error. */
  function CollectLine(text: seq<char>, tok: TokState, line: Row): (r: LineStep)
    requires tok.pos <= |text|
    ensures r.next.tok.pos <= |text|
    ensures r.item.None? ==> line == []
    ensures r.item.Some? ==>
              || Measure(text, r.next.tok) < Measure(text, tok)
              || (line != [] && Measure(text, r.next.tok) <= Measure(text, tok))
    ensures r.item.Some? && r.item.value.Err? ==> r.next.errored && r.next.pending.None?
    decreases Measure(text, tok)
  {
    var s := NextToken(text, tok);
    match s.token
    case None =>
      if line == [] then LineStep(None, LineState(s.next, None, false))
      else LineStep(Some(Ok(line)), LineState(s.next, None, false))
    case Some(Err(e)) =>
      if line == [] then LineStep(Some(Err(e)), LineState(s.next, None, true))
      else LineStep(Some(Ok(line)), LineState(s.next, Some(e), true))
    case Some(Ok(LineFeed)) => LineStep(Some(Ok(line)), LineState(s.next, None, false))
    case Some(Ok(Comment(_))) => CollectLine(text, s.next, line)
    case Some(Ok(Null)) => CollectLine(text, s.next, line + [None])
    case Some(Ok(Value(v))) => CollectLine(text, s.next, line + [Some(v)])
  }

  /** One call of `next`: a deferred error is returned first, a terminal iterator
      yields nothing, otherwise one row is collected. */
  function NextLine(text: seq<char>, ls: LineState): (r: LineStep)
    requires ls.tok.pos <= |text|
    ensures r.next.tok.pos <= |text|
  {
    if ls.pending.Some? then LineStep(Some(Err(ls.pending.value)), ls.(pending := None))
    else if ls.errored then LineStep(None, ls)
    else CollectLine(text, ls.tok, [])
  }

  /** A ranking that every call yielding an item decreases. */
  function LineMeasure(text: seq<char>, ls: LineState): nat
    requires ls.tok.pos <= |text|
  {
    if ls.errored && ls.pending.None? then 0
    else 3 * Measure(text, ls.tok) + (if ls.pending.Some? then 2 else 1)
  }

  /** Every item the iterator yields from `ls` until it yields nothing. */
  function AllLines(text: seq<char>, ls: LineState): seq<Result<Row, WsvError>>
    requires ls.tok.pos <= |text|
    decreases LineMeasure(text, ls)
  {
    var r := NextLine(text, ls);
    if r.item.None? then [] else [r.item.value] + AllLines(text, r.next)
  }

  /** Once the iterator yields nothing it keeps yielding nothing. */
  lemma NextLineFused(text: seq<char>, ls: LineState)
    requires ls.tok.pos <= |text|
    requires NextLine(text, ls).item.None?
    ensures var r := NextLine(text, ls); NextLine(text, r.next).item.None?
  {
    if ls.pending.None? && !ls.errored {
      CollectLineFused(text, ls.tok, []);
    }
  }

  /** A row collection that yields nothing leaves the tokenizer yielding nothing. */
  lemma {:induction false} CollectLineFused(text: seq<char>, tok: TokState, line: Row)
    requires tok.pos <= |text|
    requires CollectLine(text, tok, line).item.None?
    ensures var r := CollectLine(text, tok, line);
            !r.next.errored && r.next.pending.None? && NextToken(text, r.next.tok).token.None?
    decreases Measure(text, tok)
  {
    var s := NextToken(text, tok);
    if s.token.None? {
      NextTokenFused(text, tok);
    } else {
      match s.token.value
      case Err(_) =>
      case Ok(t) =>
        assert t.Comment?;
        CollectLineFused(text, s.next, line);
    }
  }

  /** Rows as the items the iterator yields. */
  function OkRows(rows: seq<Row>): (r: seq<Result<Row, WsvError>>)
    ensures |r| == |rows| && forall i | 0 <= i < |rows| :: r[i] == Ok(rows[i])
  {
    seq(|rows|, i requires 0 <= i < |rows| => Ok(rows[i]))
  }

  /** The first error of `ts` as a last item, or nothing. */
  function ErrorTail(ts: seq<Result<Token, WsvError>>): seq<Result<Row, WsvError>>
  {
    match FirstError(ts)
    case Some(e) => [Err(e)]
    case None => []
  }

  /** The items the iterator yields for the tokens `ts` after collecting `line`: a
      reference semantics over token sequences. */
  function LinesOf(ts: seq<Result<Token, WsvError>>, line: Row): seq<Result<Row, WsvError>>
    decreases |ts|
  {
    var partial := if line == [] then [] else [Ok(line)];
    if |ts| == 0 then partial
    else match ts[0]
      case Err(e) => partial + [Err(e)]
      case Ok(LineFeed) => [Ok(line)] + LinesOf(ts[1..], [])
      case Ok(Comment(_)) => LinesOf(ts[1..], line)
      case Ok(Null) => LinesOf(ts[1..], line + [None])
      case Ok(Value(v)) => LinesOf(ts[1..], line + [Some(v)])
  }

  /** What collecting a row from `tok` and then iterating yields is `LinesOf` the
      tokens that remain. */
  lemma {:induction false} CollectLineAgrees(text: seq<char>, tok: TokState, line: Row)
    requires tok.pos <= |text|
    ensures var r := CollectLine(text, tok, line);
            (if r.item.None? then [] else [r.item.value] + AllLines(text, r.next))
            == LinesOf(AllTokens(text, tok), line)
    decreases Measure(text, tok)
  {
    var s := NextToken(text, tok);
    var ts := AllTokens(text, tok);
    if s.token.None? {
      NextTokenFused(text, tok);
      assert ts == [];
    } else {
      assert ts == [s.token.value] + AllTokens(text, s.next);
      assert ts[1..] == AllTokens(text, s.next);
      match s.token.value
      case Err(e) =>
      case Ok(LineFeed) =>
        CollectLineAgrees(text, s.next, []);
      case Ok(Comment(_)) =>
        CollectLineAgrees(text, s.next, line);
      case Ok(Null) =>
        CollectLineAgrees(text, s.next, line + [None]);
      case Ok(Value(v)) =>
        CollectLineAgrees(text, s.next, line + [Some(v)]);
    }
  }

  /** Folding behind a fixed prefix of rows leaves the prefix alone. */
  lemma {:induction false} FoldRowsPrefix(prefix: seq<Row>, rows: seq<Row>, ts: seq<Result<Token, WsvError>>)
    requires |rows| > 0
    ensures FoldRows(prefix + rows, ts) == prefix + FoldRows(rows, ts)
    decreases |ts|
  {
    if |ts| > 0 && ts[0].Ok? {
      var t := ts[0].value;
      assert AddToken(prefix + rows, t) == prefix + AddToken(rows, t);
      FoldRowsPrefix(prefix, AddToken(rows, t), ts[1..]);
    }
  }

  /** Dropping an empty last row does not touch the rows before it. */
  lemma DropTrailingEmptyPrefix(line: Row, rows: seq<Row>)
    requires |rows| > 0
    ensures DropTrailingEmpty([line] + rows) == [line] + DropTrailingEmpty(rows)
  {
    if rows[|rows| - 1] == [] {
      assert ([line] + rows)[..|rows|] == [line] + rows[..|rows| - 1];
    }
  }

  /** `OkRows` distributes over joining. */
  lemma OkRowsAppend(a: seq<Row>, b: seq<Row>)
    ensures OkRows(a + b) == OkRows(a) + OkRows(b)
  {
  }

  /** The line feed case of `LinesOfFold`: the finished row is followed by the rows of
      the rest. */
  lemma LineFeedFold(rest: seq<Result<Token, WsvError>>, line: Row)
    requires LinesOf(rest, []) == OkRows(DropTrailingEmpty(FoldRows([[]], rest))) + ErrorTail(rest)
    ensures [Ok(line)] + LinesOf(rest, [])
            == OkRows(DropTrailingEmpty(FoldRows([line] + [[]], rest))) + ErrorTail(rest)
  {
    var x := FoldRows([[]], rest);
    FoldRowsPrefix([line], [[]], rest);
    DropTrailingEmptyPrefix(line, x);
    var d := DropTrailingEmpty(x);
    OkRowsAppend([line], d);
    assert OkRows([line]) == [Ok(line)];
    assert [Ok(line)] + (OkRows(d) + ErrorTail(rest)) == ([Ok(line)] + OkRows(d)) + ErrorTail(rest);
  }

  /** The reference semantics yields the eager rows, then the first error if any. */
  lemma {:induction false} LinesOfFold(ts: seq<Result<Token, WsvError>>, line: Row)
    ensures LinesOf(ts, line) == OkRows(DropTrailingEmpty(FoldRows([line], ts))) + ErrorTail(ts)
    decreases |ts|
  {
    if |ts| > 0 && ts[0].Ok? {
      var rest := ts[1..];
      assert ErrorTail(ts) == ErrorTail(rest);
      match ts[0].value
      case LineFeed =>
        LinesOfFold(rest, []);
        LineFeedFold(rest, line);
      case Comment(_) =>
        LinesOfFold(rest, line);
      case Null =>
        assert AddToken([line], Null) == [line + [None]];
        LinesOfFold(rest, line + [None]);
      case Value(v) =>
        assert AddToken([line], Value(v)) == [line + [Some(v)]];
        LinesOfFold(rest, line + [Some(v)]);
    }
  }

  /** The streaming parser yields the rows the eager parser builds, then the error the
      eager parser returns, if there is one. */
  lemma StreamingAgrees(text: string)
    ensures AllLines(text, InitialLines())
            == OkRows(DropTrailingEmpty(FoldRows([[]], Tokenize(text)))) + ErrorTail(Tokenize(text))
  {
    CollectLineAgrees(text, Initial(), []);
    LinesOfFold(Tokenize(text), []);
  }

  /** On text the eager parser accepts, the streaming parser yields the same rows. */
  lemma StreamingMatchesParse(text: string, rows: seq<Row>)
    requires ParseResult(text) == Ok(rows)
    ensures AllLines(text, InitialLines()) == OkRows(rows)
  {
    StreamingAgrees(text);
  }

  /** On text the eager parser rejects with `e`, the streaming parser yields rows (the
      last of them the partial row, when it is not empty) and then `e` as its last item. */
  lemma StreamingReportsError(text: string, e: WsvError)
    requires ParseResult(text) == Err(e)
    ensures var items := AllLines(text, InitialLines());
            && |items| > 0 && items[|items| - 1] == Err(e)
            && forall i | 0 <= i < |items| - 1 :: items[i].Ok?
  {
    StreamingAgrees(text);
  }

  class WsvLineIterator {
    const tokenizer: WsvLazyTokenizer
    /** An error held back while the partial row before it is returned. */
    var lookaheadError: Option<WsvError>
    var errored: bool

    ghost predicate Valid()
      reads this, tokenizer
    {
      tokenizer.Valid()
    }

    /** The iterator state this object stands for. */
    function State(): LineState
      reads this, tokenizer
    {
      LineState(tokenizer.State(), lookaheadError, errored)
    }

    constructor (text: string)
      ensures Valid() && fresh(tokenizer) && tokenizer.chars == text && State() == InitialLines()
    {
      tokenizer := new WsvLazyTokenizer(text);
      lookaheadError := None;
      errored := false;
    }

    /** The next row, the deferred error, or None: exactly what `NextLine` says. */
    method Next() returns (r: Option<Result<Row, WsvError>>)
      requires Valid()
      modifies this, tokenizer
      ensures Valid()
      ensures LineStep(r, State()) == NextLine(tokenizer.chars, old(State()))
    {
      if lookaheadError.Some? {
        var err := lookaheadError.value;
        lookaheadError := None;
        return Some(Err(err));
      }
      if errored {
        return None;
      }
      var line: Row := [];
      ghost var goal := CollectLine(tokenizer.chars, tokenizer.State(), []);
      while true
        invariant tokenizer.Valid() && lookaheadError.None? && !errored
        invariant goal == CollectLine(tokenizer.chars, tokenizer.State(), line)
        decreases Measure(tokenizer.chars, tokenizer.State())
      {
        var token := tokenizer.Next();
        match token
        case None =>
          if line == [] {
            return None;
          } else {
            return Some(Ok(line));
          }
        case Some(Err(err)) =>
          errored := true;
          if line == [] {
            return Some(Err(err));
          } else {
            lookaheadError := Some(err);
            return Some(Ok(line));
          }
        case Some(Ok(t)) =>
          match t
          case Comment(_) =>
          case LineFeed =>
            return Some(Ok(line));
          case Null =>
            line := line + [None];
          case Value(val) =>
            line := line + [Some(val)];
      }
    }
  }
}
