/**
 * Values shared by every part of the WSV (whitespace separated values) codec:
 * source locations, the four parser error kinds, tokens, cells and rows.
 */
module WsvTypes {

  /** The line feed character: it ends a row and is never whitespace. */
  const LF: char := '\n'

  datatype Option<+T> = None | Some(value: T) {
    /** The value, or `default` when there is none. */
    function UnwrapOr(default: T): T
    {
      match this
      case Some(v) => v
      case None => default
    }
  }

  datatype Result<+T, +E> = Ok(value: T) | Err(error: E)

  /** A position in the source text, counted in code points from line 1, column 1.
      The byte offset that the eager tokenizer also keeps is not modelled. */
  datatype Location = Location(line: nat, col: nat)

  /** The location before anything has been consumed. */
  function StartLocation(): (loc: Location)
    ensures loc.line == 1 && loc.col == 1
  {
    Location(1, 1)
  }

  /** The "Parser Errors" of the WSV format. */
  datatype ErrorType =
    | StringNotClosed
    | InvalidDoubleQuoteAfterValue
    | InvalidCharacterAfterString
    | InvalidStringLineBreak

  /** An error kind paired with the location it was detected at. */
  datatype WsvError = WsvError(errType: ErrorType, location: Location)

  /** The tokens of a WSV text. `Value` holds the decoded text of a bare or quoted
      value; `Comment` holds the text after `#` up to, not including, the line feed. */
  datatype Token = LineFeed | Null | Value(text: string) | Comment(text: string)

  /** A cell is a value or the null marker; a row is a sequence of cells. */
  type Cell = Option<string>
  type Row = seq<Cell>

  /** The 24 code points the format treats as whitespace. */
  const Whitespace: set<char> := {
    '\t', '\U{000B}', '\U{000C}', '\r', ' ', '\U{0085}', '\U{00A0}', '\U{1680}',
    '\U{2000}', '\U{2001}', '\U{2002}', '\U{2003}', '\U{2004}', '\U{2005}', '\U{2006}',
    '\U{2007}', '\U{2008}', '\U{2009}', '\U{200A}', '\U{2028}', '\U{2029}', '\U{202F}',
    '\U{205F}', '\U{3000}'
  }

  /** Whitespace separates values; the line feed, the quote and `#` are not whitespace. */
  function IsWhitespace(ch: char): (b: bool)
    ensures b ==> ch != LF && ch != '"' && ch != '#' && ch != '-'
    ensures ch == ' ' || ch == '\t' ==> b
  {
    ch in Whitespace
  }

  /** Every character of `s` is whitespace. */
  predicate AllWhitespace(s: seq<char>)
  {
    forall i | 0 <= i < |s| :: IsWhitespace(s[i])
  }
}
