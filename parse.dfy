/**
 * The eager row builder (`parse` and `parse_with_col_count`): the tokens of the eager
 * tokenizer folded into rows. Every line feed ends the current row, even an empty one;
 * a value adds a cell, the null token adds a null cell and a comment adds nothing. One
 * empty row at the end is dropped. The first error is the whole result.
 */
module WsvParse {
  import opened WsvTypes
  import opened WsvScanner
  import opened EagerTokenizer

  /** The rows after adding `c` to the last row. */
  function AddCell(rows: seq<Row>, c: Cell): (r: seq<Row>)
    requires |rows| > 0
    ensures |r| == |rows| && r[..|rows| - 1] == rows[..|rows| - 1]
    ensures r[|rows| - 1] == rows[|rows| - 1] + [c]
  {
    rows[|rows| - 1 := rows[|rows| - 1] + [c]]
  }

  /** The rows after one token: a line feed opens a new row, a value or null adds a
      cell to the last row, a comment changes nothing. */
  function AddToken(rows: seq<Row>, t: Token): seq<Row>
    requires |rows| > 0
  {
    match t
    case LineFeed => rows + [[]]
    case Null => AddCell(rows, None)
    case Value(v) => AddCell(rows, Some(v))
    case Comment(_) => rows
  }

  /** The rows built from `rows` by the tokens of `ts` up to the first error. */
  function FoldRows(rows: seq<Row>, ts: seq<Result<Token, WsvError>>): (r: seq<Row>)
    requires |rows| > 0
    ensures |r| >= |rows|
    decreases |ts|
  {
    if |ts| == 0 || ts[0].Err? then rows else FoldRows(AddToken(rows, ts[0].value), ts[1..])
  }

  /** The first error among `ts`, if any. */
  function FirstError(ts: seq<Result<Token, WsvError>>): (e: Option<WsvError>)
    ensures e.Some? <==> exists i | 0 <= i < |ts| :: ts[i].Err?
  {
    if |ts| == 0 then None
    else if ts[0].Err? then Some(ts[0].error)
    else
      assert forall i | 1 <= i < |ts| :: ts[i] == ts[1..][i - 1];
      FirstError(ts[1..])
  }

  /** `rows` without its last row when that row is empty. */
  function DropTrailingEmpty(rows: seq<Row>): (r: seq<Row>)
    requires |rows| > 0
    ensures r == rows || (r == rows[..|rows| - 1] && rows[|rows| - 1] == [])
  {
    if rows[|rows| - 1] == [] then rows[..|rows| - 1] else rows
  }

  /** What parsing the tokens `ts` from the partial rows `rows` returns. */
  function ParseRows(rows: seq<Row>, ts: seq<Result<Token, WsvError>>): Result<seq<Row>, WsvError>
    requires |rows| > 0
  {
    match FirstError(ts)
    case Some(e) => Err(e)
    case None => Ok(DropTrailingEmpty(FoldRows(rows, ts)))
  }

  /** Parsing a token that is not an error is adding it to the rows. */
  lemma ParseRowsStep(rows: seq<Row>, t: Token, rest: seq<Result<Token, WsvError>>)
    requires |rows| > 0
    ensures ParseRows(rows, [Ok(t)] + rest) == ParseRows(AddToken(rows, t), rest)
  {
    assert ([Ok(t)] + rest)[1..] == rest;
  }

  /** What `parse` returns for `text`. */
  function ParseResult(text: string): Result<seq<Row>, WsvError>
  {
    ParseRows([[]], Tokenize(text))
  }

  /** The eager parser: folds the tokens into rows, opening a row at every line feed,
      returns the first error alone, and drops the last row if it is empty. The column
      count is only a capacity hint. */
  method ParseWithColCount(sourceText: string, colCount: nat) returns (r: Result<seq<Row>, WsvError>)
    ensures r == ParseResult(sourceText)
  {
    var result: seq<Row> := [[]];
    var lastLineNum: nat := 0;
    var tokenizer := new WsvTokenizer(sourceText);
    while true
      invariant tokenizer.Valid() && tokenizer.source == sourceText
      invariant |result| > 0 && lastLineNum == |result| - 1
      invariant ParseRows(result, AllTokens(sourceText, tokenizer.State())) == ParseResult(sourceText)
      decreases Measure(sourceText, tokenizer.State())
    {
      ghost var before := tokenizer.State();
      var fallible := tokenizer.Next();
      if fallible.None? {
        break;
      }
      ghost var rest := AllTokens(sourceText, tokenizer.State());
      assert AllTokens(sourceText, before) == [fallible.value] + rest;
      match fallible.value
      case Err(e) =>
        assert FirstError([fallible.value] + rest) == Some(e);
        return Err(e);
      case Ok(token) =>
        ghost var rows := result;
        match token
        case LineFeed =>
          result := result + [[]];
          lastLineNum := lastLineNum + 1;
        case Null =>
          result := result[lastLineNum := result[lastLineNum] + [None]];
        case Value(value) =>
          result := result[lastLineNum := result[lastLineNum] + [Some(value)]];
        case Comment(_) =>
        assert result == AddToken(rows, token);
        ParseRowsStep(rows, token, rest);
    }
    if |result[lastLineNum]| == 0 {
      result := result[..lastLineNum];
    }
    return Ok(result);
  }

  /** `parse`: the eager parser without a capacity hint. */
  method Parse(sourceText: string) returns (r: Result<seq<Row>, WsvError>)
    ensures r == ParseResult(sourceText)
  {
    r := ParseWithColCount(sourceText, 0);
  }
}
