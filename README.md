# WhitespaceSV codec, modelled in Dafny

This project models the core of the `whitespacesv` Rust crate (`src/lib.rs`). The crate is a reader and
writer for WSV (whitespace-separated values). In that text format:

- every line is a row;
- cells are separated by whitespace;
- `-` is a null cell;
- `#` starts a comment that runs to the end of the line;
- a value holding whitespace, `"` or `#` is written between quotes, with `""` standing for one quote and `"/"` for a line feed.

The model keeps the crate's structure:

- **`WsvTypes`** (`types.dfy`): locations, tokens, the four error kinds, and the 24 whitespace code points.
- **`WsvScanner`** (`scanner.dfy`): a pure definition of what one call of a tokenizer's `next` returns. It is given as a function from the input and a scanner state (position, location, deferred error, terminal flag) to a token and the next state. `Tokenize` is every token until the first `None`.
- **`EagerTokenizer`** (`eager_tokenizer.dfy`): `WSVTokenizer` as a class. It has the crate's fields, the one-character lookahead, and the chunk logic of `match_string`, with byte offsets read as character indices.
- **`LazyTokenizer`** (`lazy_tokenizer.dfy`): `WSVLazyTokenizer` as a class over a character stream.
- Both classes prove `Next` against the scanner definition. Each call returns exactly the scanner's token and leaves exactly the scanner's next state. So the two tokenizers agree on every input.
- **`ScannerFacts`** (`scanner_facts.dfy`): the scanner's behaviour on the cases the crate's tests exercise. These are:
  - values directly followed by a comment;
  - unclosed quoted values and the location reported for them;
  - a broken `"/` escape;
  - the two errors deferred by one call.
- **`WsvParse`** (`parse.dfy`): `parse` and `parse_with_col_count`. They fold the eager tokens into rows, and the first error is the whole result.
- **`LineIterator`** (`line_iterator.dfy`): `WSVLineIterator`, the streaming row builder. It is proved to yield the rows `parse` builds. On an error it yields a non-empty partial row first and then the same error.
- **`WriterSpec`** (`writer_spec.dfy`): what the writer produces.
  - Packed text: each cell rendered and followed by one space; rows separated by one line feed.
  - Aligned text: column widths, padding, and the position of every padded cell in its row.
- **`Writer`** (`writer.dfy`): `WSVWriter` as a class. It has two parts:
  - the packed character iterator, proved to return its remaining text one character at a time;
  - `to_string`, whose aligned branch is two passes (measure, then write) proved equal to the aligned text.
- **`RoundTrip`** (`roundtrip.dfy`): reading back what the packed writer writes. It includes the crate's quoted-value test cases and the two cells that do not survive a write and read back.

The code is followed where it differs from the prose description of the format:

- The packed writer puts a space after every cell, the last cell of a row included. A row `[null, "x y"]` is written `- "x y" `, not `- "x y"` (`RoundTrip.PackedNullAndSpaced`).
- End of input inside quotes is StringNotClosed. It does not mark the tokenizer as errored, but nothing follows, because the input is used up.

## Model

| member | source | states |
|---|---|---|
| WsvTypes.StartLocation | src/lib.rs:984-991 | A fresh location is line 1, column 1. |
| WsvTypes.IsWhitespace | src/lib.rs:584-592 | Space and tab are whitespace; no whitespace character is a line feed, a quote, `#` or `-`. |
| WsvScanner.LocationAfterSplit | src/lib.rs:540-546 | The location after consuming `i..k` is the location after `j..k` started from the location after `i..j`. |
| WsvScanner.LocationAfterFirst | src/lib.rs:540-546 | Consuming a range is consuming its first character, then the rest. |
| WsvScanner.SpanEnd | src/lib.rs:495-521 | The run matched from `i` is maximal: every character before its end satisfies the predicate, and the character at its end does not. |
| WsvScanner.SpanEndIs | src/lib.rs:495-521 | Any end position with those two properties is the one `SpanEnd` finds. |
| WsvScanner.QuotedStepAt | src/lib.rs:435-483 | One pass inside quotes. It moves forward or finishes. A closed value is the text decoded so far, ending just after the quote. An error carries the location reached. Only end of input is a non-fatal StringNotClosed. |
| WsvScanner.QuotedStepLocation | src/lib.rs:435-483 | A pass reaches the location after exactly the characters it consumed. |
| WsvScanner.ScanQuoted | src/lib.rs:428-493 | A quoted scan ends inside the input. A closed one consumes at least the closing quote. A non-fatal failure happens only at end of input and is StringNotClosed. |
| WsvScanner.ScanQuotedLocation | src/lib.rs:428-493 | The location a quoted scan reports, errors included, is the location after exactly the characters it consumed. |
| WsvScanner.QuotedToken | src/lib.rs:608-617 | A quoted value always yields a token. An error leaves the scanner errored, or at end of input with nothing deferred. |
| WsvScanner.BareToken | src/lib.rs:625-655 | There is no bare token exactly when no bare character is next. A bare token is never an error and never leaves the scanner errored. |
| WsvScanner.TokenAt | src/lib.rs:608-656 | The scan after whitespace yields nothing exactly at end of input. A token consumes input. An error leaves the scanner terminal. |
| WsvScanner.NextToken | src/lib.rs:598-656 | `next` yields None exactly when it has errored, or when nothing is deferred and only whitespace is left. Every token decreases the ranking. An error makes it terminal. |
| WsvScanner.TokenAtLocation | src/lib.rs:608-656 | After a token, the location is the one after exactly the consumed characters. |
| WsvScanner.NextTokenLocation | src/lib.rs:598-656 | After a call of `next`, the location is the one after exactly the consumed characters. |
| WsvScanner.NextTokenFused | src/lib.rs:598-605 | Once `next` yields None, it yields None again. |
| WsvScanner.AllTokens | src/lib.rs:598-605 | An error is always the last token: nothing follows it. |
| ScannerFacts.LocationOnLine | src/lib.rs:540-546 | Consuming characters other than a line feed keeps the line and adds their number to the column. |
| ScannerFacts.LocationAfterLineFeed | src/lib.rs:540-543 | Consuming a line feed moves to column 1 of the next line. |
| ScannerFacts.ScanToEnd | src/lib.rs:474-482 | An unclosed quoted value running to end of input is a non-fatal StringNotClosed, at the location after its last character. |
| ScannerFacts.ScanToLineFeed | src/lib.rs:461-468 | An unclosed quoted value reaching a raw line feed is a fatal StringNotClosed, at the location before the line feed. |
| ScannerFacts.UnclosedBeforeLineFeed | src/lib.rs:1627-1643 | A quote whose line ends with no other quote is StringNotClosed, on that line, at the column just past its last character, and nothing follows. From column 1 with 35 characters before the line feed, this is column 36. |
| ScannerFacts.UnclosedAtEnd | src/lib.rs:1483-1494 | A text that opens a quote and ends without closing it is the single error StringNotClosed, located just past its last character. |
| ScannerFacts.BareThenQuote | src/lib.rs:642-652 | A bare value directly followed by `"` is returned as a value. The next call returns InvalidDoubleQuoteAfterValue at the location after the value. The call after that returns nothing. |
| ScannerFacts.QuotedThenOther | src/lib.rs:608-617 | A closed quoted value followed by a character other than whitespace, a line feed or `#` is returned as a value. The next call returns InvalidCharacterAfterString at the location after the closing quote. Then nothing is returned. |
| ScannerFacts.BareThenComment | src/lib.rs:1393-1404 | A bare value directly followed by `#` is returned as that value, and the next call returns the comment: the rest of the line, without the line feed. |
| ScannerFacts.QuotedThenComment | src/lib.rs:1469-1480 | A closed quoted value directly followed by `#` is returned as the value with nothing deferred, and the next call returns the comment. |
| ScannerFacts.ScanPlainRun | src/lib.rs:474-476 | Inside quotes, a run without quotes or line feeds is copied into the value unchanged. |
| ScannerFacts.BrokenLineBreakAt | src/lib.rs:441-448 | `"/` not followed by a quote is the single error InvalidStringLineBreak, located just past the slash. |
| ScannerFacts.BrokenLineBreak | src/lib.rs:1421-1431 | A quoted text with `"/` followed by anything but a quote tokenizes to InvalidStringLineBreak alone. |
| EagerTokenizer.Concat | src/lib.rs:486-492 | A single chunk is returned as the value itself. |
| EagerTokenizer.ConcatAppend | src/lib.rs:489-491 | Joining chunks with one more chunk appends that chunk's text. |
| EagerTokenizer.EscapedQuoteChunks | src/lib.rs:436-440 | Closing the chunk before `""` and restarting at the second quote keeps the decoded text, with one quote added. |
| EagerTokenizer.LineBreakChunks | src/lib.rs:449-452 | Closing the chunk before `"/"`, adding a line-feed chunk and restarting after the escape keeps the decoded text, with one line feed added. |
| EagerTokenizer.ClosingChunks | src/lib.rs:453-459 | The chunk closed at the final quote completes the decoded text. |
| EagerTokenizer.ExtendChunk | src/lib.rs:474 | Consuming an ordinary character inside an open chunk appends it to the decoded text. |
| EagerTokenizer.OpenChunk | src/lib.rs:469-473 | Opening a chunk at the current position leaves the decoded text unchanged. |
| EagerTokenizer.WsvTokenizer.constructor | src/lib.rs:417-426 | A new tokenizer is at the scanner's initial state over its source. |
| EagerTokenizer.WsvTokenizer.PeekInner | src/lib.rs:577-582 | Fills the lookahead slot with the next indexed character, or None at the end, and changes no scanner state. |
| EagerTokenizer.WsvTokenizer.Peek | src/lib.rs:570-575 | Returns the next character without consuming it. |
| EagerTokenizer.WsvTokenizer.PeekLocation | src/lib.rs:557-568 | Returns the current location one column on, with the next character's index, or None at the end. |
| EagerTokenizer.WsvTokenizer.MatchCharIf | src/lib.rs:527-555 | Consumes the next character exactly when it satisfies the predicate. It returns that character with its index and advances the location past it. Otherwise nothing changes. |
| EagerTokenizer.WsvTokenizer.MatchChar | src/lib.rs:523-525 | Consumes the next character exactly when it is `ch`. |
| EagerTokenizer.WsvTokenizer.MatchCharWhile | src/lib.rs:495-521 | Consumes the maximal run satisfying the predicate. It returns the slice it spans, or None when the run is empty, and moves the location past it. |
| EagerTokenizer.WsvTokenizer.MatchStringStep | src/lib.rs:435-483 | One loop pass does what the scanner's quoted pass does. The chunks stand for the text decoded so far. Before the first ordinary character, a pass only opens a chunk. |
| EagerTokenizer.WsvTokenizer.AfterQuote | src/lib.rs:435-460 | After a quote inside the value: `""`, `"/"`, a broken `"/`, or the closing quote, each as the scanner's pass says. |
| EagerTokenizer.WsvTokenizer.EscapedQuote | src/lib.rs:436-440 | The `""` escape agrees with the scanner's pass. |
| EagerTokenizer.WsvTokenizer.LineBreakEscape | src/lib.rs:441-452 | The `"/"` escape agrees with the scanner's pass. So does InvalidStringLineBreak, which marks the tokenizer errored. |
| EagerTokenizer.WsvTokenizer.PlainStep | src/lib.rs:461-483 | A raw line feed (fatal StringNotClosed), the opening of a chunk, an ordinary character, or end of input (StringNotClosed) each agree with the scanner's pass. |
| EagerTokenizer.WsvTokenizer.MatchString | src/lib.rs:428-493 | With a quote next, it returns the scanner's quoted outcome, ends where the scan ends, and is errored exactly on a fatal failure. Otherwise it returns None and changes nothing. |
| EagerTokenizer.WsvTokenizer.ScanChunks | src/lib.rs:432-484 | The loop of `match_string` ends where the scanner's quoted scan ends. Its chunks join to the decoded value, or it stops with the scan's error. |
| EagerTokenizer.WsvTokenizer.Next | src/lib.rs:598-656 | Each call returns the scanner's token for the old state and leaves the scanner's next state. |
| EagerTokenizer.WsvTokenizer.ScanToken | src/lib.rs:608-656 | After whitespace is skipped, the token is exactly the scanner's token at that position. |
| EagerTokenizer.WsvTokenizer.ScanComment | src/lib.rs:618-622 | After `#`, it returns the rest of the line as the comment and stops before the line feed. |
| EagerTokenizer.WsvTokenizer.CheckAfterString | src/lib.rs:610-616 | Defers InvalidCharacterAfterString exactly when the character after the closing quote is not whitespace, a line feed or `#` (end of input counts as a space). |
| EagerTokenizer.WsvTokenizer.BareValue | src/lib.rs:625-655 | Returns the scanner's bare token: a lone `-` is null, and a value directly followed by a quote defers InvalidDoubleQuoteAfterValue. |
| LazyTokenizer.WsvLazyTokenizer.constructor | src/lib.rs:676-684 | A new tokenizer is at the scanner's initial state over its characters. |
| LazyTokenizer.WsvLazyTokenizer.PeekInner | src/lib.rs:793-798 | Pulls one character from the stream into the empty lookahead slot, and changes no scanner state. |
| LazyTokenizer.WsvLazyTokenizer.Peek | src/lib.rs:786-791 | Returns the next character without consuming it. |
| LazyTokenizer.WsvLazyTokenizer.PeekLocation | src/lib.rs:774-784 | Returns the current location one column on, or None at the end. |
| LazyTokenizer.WsvLazyTokenizer.MatchCharIf | src/lib.rs:749-772 | Consumes the next character exactly when it satisfies the predicate, and advances the location past it. |
| LazyTokenizer.WsvLazyTokenizer.MatchChar | src/lib.rs:745-747 | Consumes the next character exactly when it is `ch`. |
| LazyTokenizer.WsvLazyTokenizer.MatchCharWhile | src/lib.rs:727-743 | Consumes the maximal run satisfying the predicate. It returns the run, or None when the run is empty. |
| LazyTokenizer.WsvLazyTokenizer.MatchStringStep | src/lib.rs:692-723 | One loop pass appends the decoded character, or ends with the value or the error, as the scanner's pass says. |
| LazyTokenizer.WsvLazyTokenizer.MatchString | src/lib.rs:686-725 | With a quote next, it returns the scanner's quoted outcome, ends where the scan ends, and is errored exactly on a fatal failure. Otherwise it returns None and changes nothing. |
| LazyTokenizer.WsvLazyTokenizer.Next | src/lib.rs:816-876 | Each call returns the scanner's token for the old state and leaves the scanner's next state. This is the same specification the eager tokenizer meets. |
| LazyTokenizer.WsvLazyTokenizer.ScanToken | src/lib.rs:826-875 | After whitespace is skipped, the token is exactly the scanner's token at that position. |
| LazyTokenizer.WsvLazyTokenizer.CheckAfterString | src/lib.rs:828-834 | Defers InvalidCharacterAfterString exactly when the character after the closing quote is not whitespace, a line feed or `#`. |
| LazyTokenizer.WsvLazyTokenizer.BareValue | src/lib.rs:844-875 | Returns the scanner's bare token, null for a lone `-`, deferring InvalidDoubleQuoteAfterValue before a quote. |
| WsvParse.AddCell | src/lib.rs:55-60 | Adding a cell appends it to the last row and leaves every other row as it was. |
| WsvParse.FoldRows | src/lib.rs:48-63 | Folding tokens never removes a row. |
| WsvParse.FirstError | src/lib.rs:49 | Parsing stops with an error exactly when some token is an error. |
| WsvParse.DropTrailingEmpty | src/lib.rs:65-69 | The rows are kept, or lose only their last row, and only when it is empty. |
| WsvParse.ParseRowsStep | src/lib.rs:48-63 | Parsing a non-error token is adding it to the rows and parsing on. |
| WsvParse.ParseWithColCount | src/lib.rs:40-72 | The loop returns the parse result for the whole token stream: the rows with one trailing empty row dropped, or the first error alone. |
| WsvParse.Parse | src/lib.rs:32-35 | Returns the same parse result. |
| LineIterator.CollectLine | src/lib.rs:128-157 | Collecting a row yields nothing only for an empty row. An error item leaves the iterator terminal with nothing deferred. Every item makes progress. |
| LineIterator.NextLine | src/lib.rs:115-158 | One call stays within the input. |
| LineIterator.NextLineFused | src/lib.rs:115-126 | Once the iterator yields nothing, it yields nothing again. |
| LineIterator.CollectLineFused | src/lib.rs:128-137 | Collecting that yields nothing leaves the tokenizer yielding nothing. |
| LineIterator.OkRows | src/lib.rs:151-152 | The items for error-free rows are those rows, in order, each as a success. |
| LineIterator.CollectLineAgrees | src/lib.rs:128-157 | Collecting a row and iterating on yields the reference items for the tokens that remain. |
| LineIterator.FoldRowsPrefix | src/lib.rs:48-63 | Folding tokens only touches the rows after a finished prefix. |
| LineIterator.DropTrailingEmptyPrefix | src/lib.rs:65-69 | Dropping an empty last row ignores the rows before it. |
| LineIterator.OkRowsAppend | src/lib.rs:151 | Rows yielded one after the other are the rows joined. |
| LineIterator.LineFeedFold | src/lib.rs:151 | A line feed ends the row being built, even an empty one, as the eager fold does. |
| LineIterator.LinesOfFold | src/lib.rs:115-158 | The items for a token stream are the eager rows (one trailing empty row dropped) followed by the first error, if any. |
| LineIterator.StreamingAgrees | src/lib.rs:115-158 | For every text, the streaming iterator yields the rows `parse` builds, then `parse`'s error if there is one. |
| LineIterator.StreamingMatchesParse | src/lib.rs:115-158 | On text `parse` accepts, the streaming iterator yields exactly its rows. |
| LineIterator.StreamingReportsError | src/lib.rs:139-147 | On text `parse` rejects with `e`, the streaming iterator yields rows only, then `e` as its last item. |
| LineIterator.WsvLineIterator.constructor | src/lib.rs:99-106 | A new iterator is at the initial state over a fresh streaming tokenizer. |
| LineIterator.WsvLineIterator.Next | src/lib.rs:115-158 | Each call yields the reference next item and leaves the reference next state. |
| WriterSpec.EscapeChar | src/lib.rs:351-368 | A character is written as one to three characters. |
| WriterSpec.EscapedAppend | src/lib.rs:351-368 | Escaping works character by character, so it distributes over joining. |
| WriterSpec.EscapedSnoc | src/lib.rs:295-306 | Escaping one more character appends that character's escape. |
| WriterSpec.EscapedUnquoted | src/lib.rs:364-368 | A value that needs no quotes is written as itself. |
| WriterSpec.EscapedWidthIsLength | src/lib.rs:226-247 | The width the first pass counts (3 per line feed, 2 per quote, 1 otherwise) is the length of the escaped text. |
| WriterSpec.CellWidthIsLength | src/lib.rs:221-253 | A cell's measured width is the length of its rendering: 1 for null, plus 2 for quotes when needed. |
| WriterSpec.Spaces | src/lib.rs:285-289 | Padding of `n` is exactly `n` spaces. |
| WriterSpec.PaddedCells | src/lib.rs:280-316 | A row has one padded part per cell: a jagged row gets no extra cells. |
| WriterSpec.Widen | src/lib.rs:254-261 | A row widens the width list to the longer of the two. |
| WriterSpec.JoinSnoc | src/lib.rs:275-278 | Joining one more part adds a separating space, unless it is the first part, then the part. |
| WriterSpec.RenderCellParts | src/lib.rs:280-310 | A cell is written as an optional quote, its escaped text (`-` for null) and the same optional quote. |
| WriterSpec.WidthsCoverRows | src/lib.rs:254-261 | The column widths cover every remaining row, however jagged. |
| WriterSpec.MaxLength | src/lib.rs:254-255 | The longest row length bounds every row and is attained. |
| WriterSpec.ColumnWidthsLength | src/lib.rs:254-255 | There is one column width per column of the longest row. |
| WriterSpec.CellFitsColumn | src/lib.rs:254-261 | Every cell fits in its column's width. |
| WriterSpec.ColumnWidthsAttained | src/lib.rs:254-261 | Every column width is the width of some cell in that column. |
| WriterSpec.PadCellWidth | src/lib.rs:285-316 | A Left or Right padded cell is exactly its column's width. |
| WriterSpec.JoinLength | src/lib.rs:275-278 | Joined padded cells end where the next column starts, less one separator. |
| WriterSpec.JoinPosition | src/lib.rs:275-278 | Each part of a join sits at its column's start. |
| WriterSpec.AlignedCellPosition | src/lib.rs:270-318 | In an aligned row, cell `i` padded to its width sits at column `i`'s start. |
| Writer.Measure | src/lib.rs:217-253 | The first pass's record of a cell is about that cell. |
| Writer.AppendEscaped | src/lib.rs:351-370 | Appends the escaped value and reports exactly whether the value needs quotes. |
| Writer.QuoteValue | src/lib.rs:349-375 | The characters queued for a value are its rendering: escaped, and quoted when needed. |
| Writer.MeasureCell | src/lib.rs:217-262 | The first pass records whether the cell is quoted and its rendered width. |
| Writer.MeasureRow | src/lib.rs:214-264 | Measuring a row records every cell and widens the column widths by it. |
| Writer.MeasureRows | src/lib.rs:207-267 | The first pass records every cell of every remaining row, and ends with the column widths of those rows. |
| Writer.AppendPadding | src/lib.rs:286-288 | Appends as many spaces as the measured width falls short of the column width. |
| Writer.AppendRendered | src/lib.rs:280-310 | Appends the cell's rendering. |
| Writer.WriteCell | src/lib.rs:280-316 | Appends the cell padded to its column: spaces before it for Right, after it for Left. |
| Writer.WriteRow | src/lib.rs:275-317 | Appends the aligned row: padded cells separated by single spaces, with no trailing separator. |
| Writer.AlignedString | src/lib.rs:207-321 | The two passes produce the aligned text of the remaining rows, a line feed before every row but row 0. |
| Writer.NextChar | src/lib.rs:333-392 | The iterator's step keeps its state valid. |
| Writer.NextCharValue | src/lib.rs:349-376 | A value cell is queued with its space, and the loop goes on. |
| Writer.NextCharConsumes | src/lib.rs:333-392 | Each call returns the first character still to come and leaves the rest, or returns None exactly when nothing is left. |
| Writer.NextCharSplits | src/lib.rs:333-392 | The text still to come is the returned character followed by the text after the call. |
| Writer.ConsumesLookahead | src/lib.rs:335-337 | A character waiting in the queue is returned first, and the rest of the output is unchanged. |
| Writer.ConsumesEndOfRow | src/lib.rs:341-343 | An exhausted row is left without returning anything, and the output still to come is unchanged. |
| Writer.ConsumesNull | src/lib.rs:345-348 | A null cell returns `-` and leaves its space as the next character. |
| Writer.ConsumesValue | src/lib.rs:349-377 | A value cell is moved into the queue as its rendering and a space, and the output still to come is unchanged. |
| Writer.ConsumesLineFeed | src/lib.rs:382-388 | Every row but the first starts by returning a line feed. |
| Writer.ConsumesFirstRow | src/lib.rs:382-388 | The first row starts without a line feed. |
| Writer.ConsumesEnd | src/lib.rs:382-390 | With every row written, None is returned and nothing is left. |
| Writer.PendingInRow | src/lib.rs:339-380 | The rest of a started row is its cells, each followed by a space, then the rows not yet started. |
| Writer.PendingBetweenRows | src/lib.rs:382-390 | Between rows, what is still to come is the packed text of the rows not yet started. |
| Writer.WsvWriter.constructor | src/lib.rs:180-192 | A new writer is Packed, and returns exactly the packed text of its rows. |
| Writer.WsvWriter.AlignColumns | src/lib.rs:198-201 | Sets the alignment and changes nothing else. |
| Writer.WsvWriter.ToString | src/lib.rs:203-323 | Packed, it returns everything still to come. Left or Right, it returns the aligned text of the rows not yet handed out. |
| Writer.WsvWriter.Drain | src/lib.rs:205 | Collecting the iterator returns everything still to come and leaves nothing. |
| Writer.WsvWriter.Next | src/lib.rs:333-392 | Each call is exactly the iterator's step. |
| Writer.WsvWriter.NextCell | src/lib.rs:339-380 | Handles the current row's next cell: leaves an exhausted row; returns `-` for null and queues a space; queues a value with its space. |
| Writer.WsvWriter.NextRow | src/lib.rs:382-390 | Ends the output, or starts the next row, returning a line feed unless it is the first row. |
| RoundTrip.CharAt | src/lib.rs:333-392 | A piece held at a position gives the text's character at each offset. |
| RoundTrip.HoldsAtSlice | src/lib.rs:333-392 | A piece held at a position is the slice there. |
| RoundTrip.HoldsAtSplit | src/lib.rs:333-392 | Where a joined piece is held, each part is held at its own offset. |
| RoundTrip.EscapeStep | src/lib.rs:351-368 | One escaped character scans back to the character in one pass. |
| RoundTrip.ScanEscaped | src/lib.rs:428-493 | The escaped inside of a written value, with its closing quote and a delimiter, scans back to the value. |
| RoundTrip.BareChars | src/lib.rs:364-368 | A value that needs no quotes is made of bare-value characters only. |
| RoundTrip.NullAt | src/lib.rs:345-347 | The null marker reads back as the null token. |
| RoundTrip.BareAt | src/lib.rs:625-655 | A value written bare reads back as itself. |
| RoundTrip.QuotedAt | src/lib.rs:608-617 | A value written between quotes reads back as itself, with nothing deferred. |
| RoundTrip.CellPieceWritten | src/lib.rs:344-376 | A cell that reads back is written as its rendering and a space, and reads back as its own token. |
| RoundTrip.PiecesAppend | src/lib.rs:333-392 | Pieces' text and tokens distribute over joining. |
| RoundTrip.CellPiecesWritten | src/lib.rs:339-380 | A row's cells are written as its cell pieces. |
| RoundTrip.PiecesOkAppend | src/lib.rs:333-392 | Joined lists of readable pieces stay readable. |
| RoundTrip.LeadPieces | src/lib.rs:386-388 | Before every row but the first comes one line-feed piece, which reads back as the line-feed token. |
| RoundTrip.RowPiecesWritten | src/lib.rs:333-392 | The packed text of the rows is the text of their pieces, and the pieces read back as the rows' tokens. |
| RoundTrip.SkipWhitespace | src/lib.rs:606 | Whitespace before a token changes nothing that is read. |
| RoundTrip.TokenHere | src/lib.rs:598-656 | With no whitespace next, a call of `next` is the token at the position. |
| RoundTrip.ReadAndSkip | src/lib.rs:598-656 | A token followed by a space reads as that token, then whatever follows the space. |
| RoundTrip.BreakReads | src/lib.rs:623-624 | A line feed reads as the line-feed token. |
| RoundTrip.CellPieceReads | src/lib.rs:598-656 | A written cell and its space read as the cell's token. |
| RoundTrip.PieceReads | src/lib.rs:598-656 | Every written piece reads as its token. |
| RoundTrip.NoTokensAtEnd | src/lib.rs:598-656 | At the end of the text nothing is read. |
| RoundTrip.PiecesRead | src/lib.rs:598-656 | A text made of readable pieces tokenizes to the pieces' tokens. |
| RoundTrip.CellTokensOk | src/lib.rs:48-63 | The tokens of a row's cells are never errors. |
| RoundTrip.RowTokensOk | src/lib.rs:48-63 | The tokens of rows are never errors. |
| RoundTrip.HoldsSuffix | src/lib.rs:333-392 | Every suffix is held where it starts. |
| RoundTrip.PackedTokens | src/lib.rs:1178-1183 | The packed text of rows with no `""` or `"-"` cell tokenizes to the rows' cells, with a line feed between rows. |
| RoundTrip.FoldCons | src/lib.rs:48-63 | Folding a token and the rest is adding the token, then folding the rest. |
| RoundTrip.FoldCells | src/lib.rs:55-60 | Folding a row's cell tokens appends the cells to the last row. |
| RoundTrip.FoldFreshRow | src/lib.rs:51-60 | A new empty row filled with a row's cells is that row. |
| RoundTrip.FoldRowsFrom | src/lib.rs:48-63 | Folding the tokens of rows after the first appends those rows. |
| RoundTrip.FoldAllRows | src/lib.rs:44-63 | Folding the tokens of all rows into one empty row builds the rows. |
| RoundTrip.PackedReadsBack | src/lib.rs:1178-1183 | Parsing the packed text of rows with no `""` or `"-"` cell gives back the rows, less an empty last row. |
| RoundTrip.PackedRoundTrip | src/lib.rs:1178-1183 | With no such cell and a non-empty last row, parsing the packed text gives back exactly the rows. |
| RoundTrip.StreamingRoundTrip | src/lib.rs:1310-1315 | Under the same conditions, the streaming parser yields exactly the rows, with no error. |
| RoundTrip.QuotedAlone | src/lib.rs:1382-1390 | A text that is one written quoted value and nothing else tokenizes to that value alone. |
| RoundTrip.EscapedPlain | src/lib.rs:364-368 | A value with no quote and no line feed is escaped as itself. |
| RoundTrip.EscapedQuoteSlash | src/lib.rs:351-368 | A value with no quote or line feed, followed by `"/`, is escaped as itself, then a doubled quote, then the slash. |
| RoundTrip.QuoteSlashForm | src/lib.rs:1434-1444 | `string "/` is written as `"string ""/"`. |
| RoundTrip.QuotesForm | src/lib.rs:1446-1455 | Three quotes are written as eight. |
| RoundTrip.LineFeedsForm | src/lib.rs:1457-1467 | Three line feeds are written as `""/""/""/""`. |
| RoundTrip.EscapedQuoteBeforeSlash | src/lib.rs:1434-1444 | `"string ""/"` tokenizes to the single value `string "/`, not to a line break. |
| RoundTrip.EightQuotes | src/lib.rs:1446-1455 | Eight quotes tokenize to the single value of three quotes. |
| RoundTrip.ThreeLineBreaks | src/lib.rs:1457-1467 | `""/""/""/""` tokenizes to the single value of three line feeds. |
| RoundTrip.PackedNullAndSpaced | src/lib.rs:344-376 | A null cell and `x y` are packed as `- "x y" `, with a space after the last cell too. |
| RoundTrip.EmptyValueIsLost | src/lib.rs:364-375 | The empty value is written as a lone space and reads back as no rows at all. |
| RoundTrip.DashValueBecomesNull | src/lib.rs:364-375 | The value `-` is written as `- ` and reads back as a null cell. |

## Left out

- Byte offsets: `Location.byte_index`, the byte arithmetic of the eager tokenizer's chunks, and the borrowed/owned (`Cow`) split are not modelled. Text is a sequence of characters, byte offsets become character indices, and a value is a string. `Location` keeps only line and column.
- Generic iterators and laziness: both tokenizers read a finite character sequence. The writer reads a finite sequence of rows, with the number of rows and cells handed out so far standing for its iterators. Unbounded input is not modelled.
- `WsvParse.ParseWithColCount`: the column-count argument is only a capacity hint in the crate and has no effect in the model.
- The `finished` field of `WSVLineIterator` is never set to true by the crate, so the model has no such field.
- The `Display` implementation of `WSVError` and the error accessors are plain formatting and field reads.
- `parse_lazy` (src/lib.rs:79-81) is only the constructor of the line iterator, which is modelled.
- The crate's tests that read files, print output or generate large inputs are file and console I/O. The e2e round trip is modelled by `RoundTrip.PackedRoundTrip` and `RoundTrip.StreamingRoundTrip`, for every input that avoids the two lossy cells.
- Writer.WsvWriter.ToString: the aligned branch drops the lookahead and the rest of a row already started, as the crate does; `ToString` consumes the writer, so its state afterwards is not specified.
- Writer.NextChar: its own contract states only that the state stays valid. What each step returns is stated by `Writer.NextCharConsumes` and `Writer.NextCharSplits`.
- LineIterator.NextLine: its own contract states only that it stays within the input. What the iterator yields is stated by `LineIterator.StreamingAgrees` and the lemmas after it.
- WsvTypes.IsWhitespace: its contract names only space and tab as whitespace. The full list of 24 code points is its body.
