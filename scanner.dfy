/**
 * The token scanner of the WSV format as a pure state machine over a text and a
 * position in it. Both tokenizers (the eager one over an in-memory text and the lazy
 * one over a character stream) are proved to take exactly the steps of `NextToken`.
 */
module WsvScanner {
  import opened WsvTypes

  /** The location after consuming `ch`: a line feed starts the next line at column 1,
      any other character moves one column to the right. */
  function Advance(loc: Location, ch: char): Location
  {
    if ch == LF then Location(loc.line + 1, 1) else Location(loc.line, loc.col + 1)
  }

  /** The location reached from `loc` by consuming `text[i..j]` one character at a time. */
  function LocationAfter(loc: Location, text: seq<char>, i: nat, j: nat): Location
    requires i <= j <= |text|
    decreases j - i
  {
    if j == i then loc else Advance(LocationAfter(loc, text, i, j - 1), text[j - 1])
  }

  /** Consuming `text[i..k]` is consuming `text[i..j]` and then `text[j..k]`. */
  lemma {:induction false} LocationAfterSplit(loc: Location, text: seq<char>, i: nat, j: nat, k: nat)
    requires i <= j <= k <= |text|
    ensures LocationAfter(loc, text, i, k) == LocationAfter(LocationAfter(loc, text, i, j), text, j, k)
    decreases k - j
  {
    if k > j {
      LocationAfterSplit(loc, text, i, j, k - 1);
    }
  }

  /** Consuming `text[i..j]` is consuming `text[i]` and then `text[i + 1..j]`. */
  lemma LocationAfterFirst(loc: Location, text: seq<char>, i: nat, j: nat)
    requires i < j <= |text|
    ensures LocationAfter(loc, text, i, j) == LocationAfter(Advance(loc, text[i]), text, i + 1, j)
  {
    LocationAfterSplit(loc, text, i, i + 1, j);
    assert LocationAfter(loc, text, i, i) == loc;
  }

  /** Characters that may appear in a bare (unquoted) value. */
  predicate IsBareChar(ch: char)
  {
    ch != LF && ch != '"' && ch != '#' && !IsWhitespace(ch)
  }

  /** Characters that may appear in a comment. */
  predicate IsNotLineFeed(ch: char)
  {
    ch != LF
  }

  /** Every character; the inside of a quoted value is consumed by this test. */
  predicate AnyChar(ch: char)
  {
    true
  }

  /** The end of the longest run of characters satisfying `p` that starts at `i`: the
      span that `match_char_while` consumes. */
  function SpanEnd(p: char -> bool, text: seq<char>, i: nat): (j: nat)
    requires i <= |text|
    ensures i <= j <= |text|
    ensures forall k | i <= k < j :: p(text[k])
    ensures j < |text| ==> !p(text[j])
    decreases |text| - i
  {
    if i < |text| && p(text[i]) then SpanEnd(p, text, i + 1) else i
  }

  /** The span is determined by its two properties: every character in it satisfies `p`
      and the one after it does not. */
  lemma {:induction false} SpanEndIs(p: char -> bool, text: seq<char>, i: nat, j: nat)
    requires i <= j <= |text|
    requires forall k | i <= k < j :: p(text[k])
    requires j == |text| || !p(text[j])
    ensures SpanEnd(p, text, i) == j
    decreases j - i
  {
    if i < j {
      SpanEndIs(p, text, i + 1, j);
    }
  }

  /** The outcome of scanning the inside of a quoted value: either the value was
      closed, or an error stopped the scan. `fatal` says whether the scanner marks
      itself as errored (the end-of-input case does not). In both cases `end` is the
      position after the last character consumed and `loc` the location reached. */
  datatype Quoted =
    | Closed(value: string, end: nat, loc: Location)
    | Failed(error: WsvError, fatal: bool, end: nat, loc: Location)

  /** What one pass of the loop that scans a quoted value does: decode an escape or an
      ordinary character and continue at `next` with `acc` extended, or finish. */
  datatype QuotedStep =
    | Continue(next: nat, loc: Location, acc: string)
    | Finish(outcome: Quoted)

  /** One pass at position `i` with `acc` decoded so far: `""` decodes to a quote, `"/"`
      to a line feed, a lone quote closes the value, a raw line feed or the end of input
      is StringNotClosed, and `"/` not followed by a quote is InvalidStringLineBreak. */
  function QuotedStepAt(text: seq<char>, i: nat, loc: Location, acc: string): (r: QuotedStep)
    requires i <= |text|
    ensures r.Continue? ==> i < r.next <= |text|
    ensures r.Finish? ==> i <= r.outcome.end <= |text|
    ensures r.Finish? && r.outcome.Closed? ==> r.outcome.value == acc && r.outcome.end == i + 1
    ensures r.Finish? && r.outcome.Failed? ==> r.outcome.error.location == r.outcome.loc
    ensures r.Finish? && r.outcome.Failed? && !r.outcome.fatal ==>
              i == |text| && r.outcome.error.errType == StringNotClosed
  {
    if i < |text| && text[i] == '"' then
      var l1 := Advance(loc, '"');
      if i + 1 < |text| && text[i + 1] == '"' then
        Continue(i + 2, Advance(l1, '"'), acc + ['"'])
      else if i + 1 < |text| && text[i + 1] == '/' then
        var l2 := Advance(l1, '/');
        if i + 2 < |text| && text[i + 2] == '"' then
          Continue(i + 3, Advance(l2, '"'), acc + [LF])
        else
          Finish(Failed(WsvError(InvalidStringLineBreak, l2), true, i + 2, l2))
      else
        Finish(Closed(acc, i + 1, l1))
    else if i < |text| && text[i] == LF then
      Finish(Failed(WsvError(StringNotClosed, loc), true, i, loc))
    else if i < |text| then
      Continue(i + 1, Advance(loc, text[i]), acc + [text[i]])
    else
      Finish(Failed(WsvError(StringNotClosed, loc), false, i, loc))
  }

  /** A pass reaches the location after exactly the characters it consumed. */
  lemma QuotedStepLocation(text: seq<char>, i: nat, loc: Location, acc: string)
    requires i <= |text|
    ensures var r := QuotedStepAt(text, i, loc, acc);
            && (r.Continue? ==> r.loc == LocationAfter(loc, text, i, r.next))
            && (r.Finish? ==> r.outcome.loc == LocationAfter(loc, text, i, r.outcome.end))
  {
    if i < |text| {
      assert LocationAfter(loc, text, i, i) == loc;
      var l1 := LocationAfter(loc, text, i, i + 1);
      assert l1 == Advance(loc, text[i]);
      if i + 1 < |text| {
        var l2 := LocationAfter(loc, text, i, i + 2);
        assert l2 == Advance(l1, text[i + 1]);
        if i + 2 < |text| {
          assert LocationAfter(loc, text, i, i + 3) == Advance(l2, text[i + 2]);
        }
      }
    }
  }

  /** Scans a quoted value from position `i`, just after the opening quote, pass after
      pass until a pass finishes; `acc` is the text decoded so far. */
  function ScanQuoted(text: seq<char>, i: nat, loc: Location, acc: string): (q: Quoted)
    requires i <= |text|
    ensures i <= q.end <= |text|
    ensures q.Closed? ==> i < q.end
    ensures q.Failed? ==> q.error.location == q.loc
    ensures q.Failed? && !q.fatal ==> q.end == |text| && q.error.errType == StringNotClosed
    decreases |text| - i
  {
    match QuotedStepAt(text, i, loc, acc)
    case Finish(q) => q
    case Continue(next, l, a) => ScanQuoted(text, next, l, a)
  }

  /** The location a quoted scan reports is the location after exactly the characters
      it consumed, so errors point at the last consumed character. */
  lemma {:induction false} ScanQuotedLocation(text: seq<char>, i: nat, loc: Location, acc: string)
    requires i <= |text|
    ensures var q := ScanQuoted(text, i, loc, acc); q.loc == LocationAfter(loc, text, i, q.end)
    decreases |text| - i
  {
    var st := QuotedStepAt(text, i, loc, acc);
    QuotedStepLocation(text, i, loc, acc);
    if st.Continue? {
      ScanQuotedLocation(text, st.next, st.loc, st.acc);
      LocationAfterSplit(loc, text, i, st.next, ScanQuoted(text, st.next, st.loc, st.acc).end);
    }
  }

  /** The token (or error) a quoted scan yields. */
  function TokenOf(q: Quoted): Result<Token, WsvError>
  {
    if q.Closed? then Ok(Value(q.value)) else Err(q.error)
  }

  /** The scanner's state between two calls of `next`: the position of the first
      unconsumed character, the current location, the deferred error (if any) and the
      terminal flag. */
  datatype TokState = TokState(pos: nat, loc: Location, pending: Option<WsvError>, errored: bool)

  /** The state of a fresh tokenizer. */
  function Initial(): TokState
  {
    TokState(0, StartLocation(), None, false)
  }

  /** A ranking that every token-producing step decreases. */
  function Measure(text: seq<char>, st: TokState): nat
    requires st.pos <= |text|
  {
    if st.errored then 0 else 2 * (|text| - st.pos) + (if st.pending.Some? then 2 else 1)
  }

  /** What one call of `next` returns, and the state it leaves behind. */
  datatype Step = Step(token: Option<Result<Token, WsvError>>, next: TokState)

  /** The deferred error, if any, after a quoted value closed with `look` next
      (a space standing for the end of input). */
  function AfterString(look: char, loc: Location): Option<WsvError>
  {
    if look != LF && look != '#' && !IsWhitespace(look)
    then Some(WsvError(InvalidCharacterAfterString, loc))
    else None
  }

  /** A quoted value whose opening quote is at `i`, with the InvalidCharacterAfterString
      error deferred when the closing quote is followed by anything but the end of
      input, whitespace, a line feed or `#`. */
  function QuotedToken(text: seq<char>, i: nat, loc: Location): (r: Step)
    requires i < |text| && text[i] == '"'
    ensures r.token.Some? && i < r.next.pos <= |text|
    ensures r.token.value.Err? ==>
              r.next.errored || (r.next.pending.None? && r.next.pos == |text|)
  {
    var q := ScanQuoted(text, i + 1, Advance(loc, '"'), []);
    var look := if q.end < |text| then text[q.end] else ' ';
    Step(Some(TokenOf(q)), TokState(q.end, q.loc, AfterString(look, q.loc), q.Failed? && q.fatal))
  }

  /** A bare value starting at `i`: the longest run of characters other than a line
      feed, a quote, `#` and whitespace. Exactly `-` is the null token; a value followed
      directly by a quote defers InvalidDoubleQuoteAfterValue. */
  function BareToken(text: seq<char>, i: nat, loc: Location): (r: Step)
    requires i <= |text|
    ensures i <= r.next.pos <= |text|
    ensures r.token.None? <==> i == |text| || !IsBareChar(text[i])
    ensures r.token.Some? ==> r.token.value.Ok? && i < r.next.pos && !r.next.errored
  {
    var m := SpanEnd(IsBareChar, text, i);
    var after := TokState(m, LocationAfter(loc, text, i, m), None, false);
    if m == i then Step(None, after)
    else if text[i..m] == "-" then Step(Some(Ok(Null)), after)
    else if m < |text| && text[m] == '"' then
      Step(Some(Ok(Value(text[i..m]))),
           after.(pending := Some(WsvError(InvalidDoubleQuoteAfterValue, after.loc))))
    else Step(Some(Ok(Value(text[i..m]))), after)
  }

  /** The token starting at `i`, which is not whitespace: a quoted value, a comment (the
      rest of the line, without the line feed), a line feed, or a bare value. */
  function TokenAt(text: seq<char>, i: nat, loc: Location): (r: Step)
    requires i <= |text| && (i == |text| || !IsWhitespace(text[i]))
    ensures i <= r.next.pos <= |text|
    ensures r.token.None? <==> i == |text|
    ensures r.token.Some? ==> i < r.next.pos
    ensures r.token.Some? && r.token.value.Ok? ==> !r.next.errored
    ensures r.token.Some? && r.token.value.Err? ==>
              r.next.errored || (r.next.pending.None? && r.next.pos == |text|)
  {
    if i < |text| && text[i] == '"' then QuotedToken(text, i, loc)
    else if i < |text| && text[i] == '#' then
      var m := SpanEnd(IsNotLineFeed, text, i + 1);
      Step(Some(Ok(Comment(text[i + 1..m]))),
           TokState(m, LocationAfter(loc, text, i, m), None, false))
    else if i < |text| && text[i] == LF then
      Step(Some(Ok(LineFeed)), TokState(i + 1, Advance(loc, LF), None, false))
    else BareToken(text, i, loc)
  }

  /** Only whitespace is left from position `i` on. */
  predicate BlankFrom(text: seq<char>, i: nat)
  {
    forall k | i <= k < |text| :: IsWhitespace(text[k])
  }

  /** One call of the tokenizer's `next`: a terminal scanner yields nothing, a deferred
      error is returned (and makes the scanner terminal), otherwise whitespace is
      skipped and the next token scanned. */
  function NextToken(text: seq<char>, st: TokState): (r: Step)
    requires st.pos <= |text|
    ensures st.pos <= r.next.pos <= |text|
    ensures r.token.Some? ==> Measure(text, r.next) < Measure(text, st)
    ensures Measure(text, r.next) <= Measure(text, st)
    ensures r.token.None? <==> st.errored || (st.pending.None? && BlankFrom(text, st.pos))
    ensures r.token.Some? && r.token.value.Err? ==>
              r.next.errored || (r.next.pending.None? && r.next.pos == |text|)
  {
    if st.errored then Step(None, st)
    else if st.pending.Some? then
      Step(Some(Err(st.pending.value)), st.(pending := None, errored := true))
    else
      var n := SpanEnd(IsWhitespace, text, st.pos);
      TokenAt(text, n, LocationAfter(st.loc, text, st.pos, n))
  }

  lemma TokenAtLocation(text: seq<char>, i: nat, loc: Location)
    requires i <= |text| && (i == |text| || !IsWhitespace(text[i]))
    ensures var r := TokenAt(text, i, loc); r.next.loc == LocationAfter(loc, text, i, r.next.pos)
  {
    if i < |text| && text[i] == '"' {
      var q := ScanQuoted(text, i + 1, Advance(loc, '"'), []);
      ScanQuotedLocation(text, i + 1, Advance(loc, '"'), []);
      LocationAfterSplit(loc, text, i, i + 1, q.end);
    }
  }

  /** A step moves the location over exactly the characters it consumes: the location
      the tokenizer reports is always the location after the consumed input. */
  lemma NextTokenLocation(text: seq<char>, st: TokState)
    requires st.pos <= |text|
    ensures var r := NextToken(text, st); r.next.loc == LocationAfter(st.loc, text, st.pos, r.next.pos)
  {
    if !st.errored && st.pending.None? {
      var n := SpanEnd(IsWhitespace, text, st.pos);
      var loc := LocationAfter(st.loc, text, st.pos, n);
      var r := TokenAt(text, n, loc);
      TokenAtLocation(text, n, loc);
      LocationAfterSplit(st.loc, text, st.pos, n, r.next.pos);
    }
  }

  /** Once the tokenizer yields nothing it keeps yielding nothing. */
  lemma NextTokenFused(text: seq<char>, st: TokState)
    requires st.pos <= |text|
    requires NextToken(text, st).token.None?
    ensures var r := NextToken(text, st); NextToken(text, r.next) == Step(None, r.next)
  {
    var r := NextToken(text, st);
    if !st.errored {
      assert BlankFrom(text, r.next.pos);
    }
  }

  /** Every result the tokenizer yields from `st` until it yields nothing. At most one
      of them is an error, and it is the last. */
  function AllTokens(text: seq<char>, st: TokState): (ts: seq<Result<Token, WsvError>>)
    requires st.pos <= |text|
    ensures forall i | 0 <= i < |ts| :: ts[i].Err? ==> i == |ts| - 1
    decreases Measure(text, st)
  {
    var r := NextToken(text, st);
    if r.token.None? then [] else [r.token.value] + AllTokens(text, r.next)
  }

  /** The tokens of a whole text. */
  function Tokenize(text: string): seq<Result<Token, WsvError>>
  {
    AllTokens(text, Initial())
  }
}
