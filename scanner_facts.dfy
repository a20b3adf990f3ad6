/**
 * Consequences of the scanner's definition for the cases the tokenizer is known to
 * face: a value directly followed by a comment, unclosed quoted values and the
 * location they are reported at, a broken `"/` escape, and the two errors deferred
 * by one call.
 */
module ScannerFacts {
  import opened WsvTypes
  import opened WsvScanner

  /** No line feed among `text[i..j]`. */
  predicate OneLine(text: seq<char>, i: nat, j: nat)
    requires i <= j <= |text|
  {
    forall k | i <= k < j :: text[k] != LF
  }

  /** No quote and no line feed among `text[i..j]`. */
  predicate Plain(text: seq<char>, i: nat, j: nat)
    requires i <= j <= |text|
  {
    forall k | i <= k < j :: text[k] != LF && text[k] != '"'
  }

  /** Consuming characters on one line moves the column by their number and keeps
      the line. */
  lemma {:induction false} LocationOnLine(loc: Location, text: seq<char>, i: nat, j: nat)
    requires i <= j <= |text| && OneLine(text, i, j)
    ensures LocationAfter(loc, text, i, j) == Location(loc.line, loc.col + (j - i))
    decreases j - i
  {
    if j > i {
      LocationOnLine(loc, text, i, j - 1);
    }
  }

  /** Consuming a line feed moves to column 1 of the next line. */
  lemma LocationAfterLineFeed(loc: Location, text: seq<char>, i: nat)
    requires i < |text| && text[i] == LF
    ensures LocationAfter(loc, text, i, i + 1) == Location(loc.line + 1, 1)
  {
    assert LocationAfter(loc, text, i, i) == loc;
  }

  /** Inside quotes, characters other than quotes and line feeds up to the end of the
      input are consumed, and the end of input is StringNotClosed at the location after
      them, which does not mark the scanner as errored. */
  lemma {:induction false} ScanToEnd(text: seq<char>, i: nat, loc: Location, acc: string)
    requires i <= |text| && Plain(text, i, |text|)
    ensures var l := LocationAfter(loc, text, i, |text|);
            ScanQuoted(text, i, loc, acc) == Failed(WsvError(StringNotClosed, l), false, |text|, l)
    decreases |text| - i
  {
    if i < |text| {
      ScanToEnd(text, i + 1, Advance(loc, text[i]), acc + [text[i]]);
      LocationAfterFirst(loc, text, i, |text|);
    }
  }

  /** Inside quotes, characters other than quotes and line feeds up to a raw line feed
      at `j` are consumed, and the line feed is StringNotClosed at the location before
      it, which marks the scanner as errored. */
  lemma {:induction false} ScanToLineFeed(text: seq<char>, i: nat, loc: Location, acc: string, j: nat)
    requires i <= j < |text| && text[j] == LF && Plain(text, i, j)
    ensures var l := LocationAfter(loc, text, i, j);
            ScanQuoted(text, i, loc, acc) == Failed(WsvError(StringNotClosed, l), true, j, l)
    decreases j - i
  {
    if i < j {
      ScanToLineFeed(text, i + 1, Advance(loc, text[i]), acc + [text[i]], j);
      LocationAfterFirst(loc, text, i, j);
    }
  }

  /** A quote at `i` whose line ends before any other quote is StringNotClosed, reported
      on the quote's line at the column just past the last character before the line
      feed; the scanner is then errored and returns nothing more. */
  lemma UnclosedBeforeLineFeed(text: seq<char>, i: nat, loc: Location, j: nat)
    requires i < j < |text| && text[i] == '"' && text[j] == LF && Plain(text, i + 1, j)
    ensures var r := TokenAt(text, i, loc);
            && r.token == Some(Err(WsvError(StringNotClosed, Location(loc.line, loc.col + (j - i)))))
            && r.next.errored
            && NextToken(text, r.next).token.None?
  {
    var l1 := Advance(loc, '"');
    ScanToLineFeed(text, i + 1, l1, [], j);
    LocationOnLine(l1, text, i + 1, j);
  }

  /** A text that opens a quote and ends without closing it, on one line, is the single
      error StringNotClosed at the column just past its last character. */
  lemma UnclosedAtEnd(s: string)
    requires Plain(s, 0, |s|)
    ensures Tokenize("\"" + s) == [Err(WsvError(StringNotClosed, Location(1, |s| + 2)))]
  {
    var text := "\"" + s;
    assert Plain(text, 1, |text|) by {
      forall k | 1 <= k < |text|
        ensures text[k] != LF && text[k] != '"'
      {
        assert text[k] == s[k - 1];
      }
    }
    var l1 := Advance(StartLocation(), '"');
    ScanToEnd(text, 1, l1, []);
    assert OneLine(text, 1, |text|);
    LocationOnLine(l1, text, 1, |text|);
    SpanEndIs(IsWhitespace, text, 0, 0);
    var r := NextToken(text, Initial());
    assert r.token == Some(Err(WsvError(StringNotClosed, Location(1, |s| + 2))));
    assert r.next.pos == |text| && !r.next.errored && r.next.pending.None?;
    assert BlankFrom(text, |text|);
    assert AllTokens(text, r.next) == [];
  }

  /** A bare value directly followed by a quote is returned as a value; the next call
      returns InvalidDoubleQuoteAfterValue at the location after the value, and the
      call after that returns nothing. */
  lemma BareThenQuote(text: seq<char>, i: nat, loc: Location, m: nat)
    requires i < m < |text| && text[m] == '"' && text[i..m] != "-"
    requires IsBareChar(text[i]) && forall k | i <= k < m :: IsBareChar(text[k])
    ensures var r := TokenAt(text, i, loc);
            var r2 := NextToken(text, r.next);
            && r.token == Some(Ok(Value(text[i..m])))
            && r2.token == Some(Err(WsvError(InvalidDoubleQuoteAfterValue, LocationAfter(loc, text, i, m))))
            && NextToken(text, r2.next).token.None?
  {
    SpanEndIs(IsBareChar, text, i, m);
  }

  /** A closed quoted value followed by anything but whitespace, a line feed or `#` is
      returned as a value; the next call returns InvalidCharacterAfterString at the
      location after the closing quote, and the call after that returns nothing. */
  lemma QuotedThenOther(text: seq<char>, i: nat, loc: Location)
    requires i < |text| && text[i] == '"'
    requires var q := ScanQuoted(text, i + 1, Advance(loc, '"'), []);
             q.Closed? && q.end < |text|
             && text[q.end] != LF && text[q.end] != '#' && !IsWhitespace(text[q.end])
    ensures var q := ScanQuoted(text, i + 1, Advance(loc, '"'), []);
            var r := TokenAt(text, i, loc);
            var r2 := NextToken(text, r.next);
            && r.token == Some(Ok(Value(q.value)))
            && r2.token == Some(Err(WsvError(InvalidCharacterAfterString, q.loc)))
            && NextToken(text, r2.next).token.None?
  {
  }

  /** A bare value directly followed by `#` is returned as a value, and the next call
      returns the comment: the rest of the line, up to the line feed at `n` or the end. */
  lemma BareThenComment(text: seq<char>, i: nat, loc: Location, m: nat, n: nat)
    requires i < m < n <= |text| && text[m] == '#' && text[i..m] != "-"
    requires IsBareChar(text[i]) && forall k | i <= k < m :: IsBareChar(text[k])
    requires OneLine(text, m + 1, n) && (n == |text| || text[n] == LF)
    ensures var r := TokenAt(text, i, loc);
            var r2 := NextToken(text, r.next);
            && r.token == Some(Ok(Value(text[i..m])))
            && r2.token == Some(Ok(Comment(text[m + 1..n])))
            && r2.next.pos == n && !r2.next.errored && r2.next.pending.None?
  {
    SpanEndIs(IsBareChar, text, i, m);
    SpanEndIs(IsWhitespace, text, m, m);
    SpanEndIs(IsNotLineFeed, text, m + 1, n);
  }

  /** A closed quoted value directly followed by `#` is returned as a value with no
      deferred error, and the next call returns the comment. */
  lemma QuotedThenComment(text: seq<char>, i: nat, loc: Location, n: nat)
    requires i < |text| && text[i] == '"'
    requires var q := ScanQuoted(text, i + 1, Advance(loc, '"'), []);
             && q.Closed? && q.end < n <= |text| && text[q.end] == '#'
             && OneLine(text, q.end + 1, n) && (n == |text| || text[n] == LF)
    ensures var q := ScanQuoted(text, i + 1, Advance(loc, '"'), []);
            var r := TokenAt(text, i, loc);
            var r2 := NextToken(text, r.next);
            && r.token == Some(Ok(Value(q.value)))
            && r2.token == Some(Ok(Comment(text[q.end + 1..n])))
            && r2.next.pos == n && !r2.next.errored && r2.next.pending.None?
  {
    var q := ScanQuoted(text, i + 1, Advance(loc, '"'), []);
    SpanEndIs(IsWhitespace, text, q.end, q.end);
    SpanEndIs(IsNotLineFeed, text, q.end + 1, n);
  }

  /** Inside quotes, a run of characters other than quotes and line feeds is copied to
      the value as it is. */
  lemma {:induction false} ScanPlainRun(text: seq<char>, i: nat, loc: Location, acc: string, j: nat)
    requires i <= j <= |text| && Plain(text, i, j)
    ensures ScanQuoted(text, i, loc, acc) == ScanQuoted(text, j, LocationAfter(loc, text, i, j), acc + text[i..j])
    decreases j - i
  {
    if i == j {
      assert acc + text[i..j] == acc;
    } else {
      ScanPlainRun(text, i + 1, Advance(loc, text[i]), acc + [text[i]], j);
      LocationAfterFirst(loc, text, i, j);
      assert (acc + [text[i]]) + text[i + 1..j] == acc + text[i..j];
    }
  }

  /** A text that opens a quote, runs on one line without a quote up to `"/` at `j`,
      and has no quote after the slash, is the single error InvalidStringLineBreak
      just past the slash. */
  lemma BrokenLineBreakAt(text: seq<char>, j: nat)
    requires 0 < j && j + 1 < |text| && text[0] == '"' && Plain(text, 1, j)
    requires text[j] == '"' && text[j + 1] == '/' && (j + 2 == |text| || text[j + 2] != '"')
    ensures Tokenize(text) == [Err(WsvError(InvalidStringLineBreak, Location(1, j + 3)))]
  {
    var l1 := Advance(StartLocation(), '"');
    ScanPlainRun(text, 1, l1, [], j);
    LocationOnLine(l1, text, 1, j);
    SpanEndIs(IsWhitespace, text, 0, 0);
    var r := NextToken(text, Initial());
    assert r.token == Some(Err(WsvError(InvalidStringLineBreak, Location(1, j + 3))));
    assert r.next.errored;
    assert AllTokens(text, r.next) == [];
  }

  /** `"/` inside a quoted value, not followed by a quote, is InvalidStringLineBreak
      at the location just past the slash, and the scanner then returns nothing more. */
  lemma BrokenLineBreak(s: string, rest: string)
    requires Plain(s, 0, |s|) && (|rest| == 0 || rest[0] != '"')
    ensures Tokenize("\"" + s + "\"/" + rest)
            == [Err(WsvError(InvalidStringLineBreak, Location(1, |s| + 4)))]
  {
    var text := "\"" + s + "\"/" + rest;
    var j := 1 + |s|;
    assert Plain(text, 1, j) by {
      forall k | 1 <= k < j
        ensures text[k] != LF && text[k] != '"'
      {
        assert text[k] == s[k - 1];
      }
    }
    assert text[j] == '"' && text[j + 1] == '/';
    assert j + 2 == |text| || text[j + 2] != '"' by {
      if j + 2 < |text| {
        assert text[j + 2] == rest[0];
      }
    }
    BrokenLineBreakAt(text, j);
  }
}
