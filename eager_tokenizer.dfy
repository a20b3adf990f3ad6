/**
 * The eager tokenizer over an in-memory text. Unlike the streaming tokenizer it does
 * not copy a quoted value character by character: it records the chunks of the source
 * between escapes and joins them at the end. Byte offsets are modelled as character
 * indices. Each method is proved to do what the scanner specification in WsvScanner
 * says, so both tokenizers yield the same tokens.
 */
module EagerTokenizer {
  import opened WsvTypes
  import opened WsvScanner

  /** The strings of `chunks` joined in order. */
  function Concat(chunks: seq<string>): (s: string)
    ensures |chunks| == 1 ==> s == chunks[0]
  {
    if |chunks| == 0 then [] else Concat(chunks[..|chunks| - 1]) + chunks[|chunks| - 1]
  }

  /** Joining one more chunk appends it. */
  lemma ConcatAppend(chunks: seq<string>, c: string)
    ensures Concat(chunks + [c]) == Concat(chunks) + c
  {
    assert (chunks + [c])[..|chunks|] == chunks;
  }

  /** The text a quoted value has decoded so far, while scanning at `pos`: the finished
      chunks, then the source from the start of the open chunk up to `pos`. */
  function ChunkText(text: seq<char>, chunks: seq<string>, chunkStart: Option<nat>, pos: nat): string
    requires pos <= |text| && (chunkStart.Some? ==> chunkStart.value <= pos)
  {
    Concat(chunks) + (if chunkStart.Some? then text[chunkStart.value..pos] else [])
  }

  /** `""` at `i`: closing the open chunk at the first quote and opening the next at
      the second quote decodes one more quote. */
  lemma EscapedQuoteChunks(text: seq<char>, chunks: seq<string>, chunkStart: Option<nat>, i: nat)
    requires i + 1 < |text| && text[i + 1] == '"' && (chunkStart.Some? ==> chunkStart.value <= i)
    ensures ChunkText(text, chunks + [text[chunkStart.UnwrapOr(i)..i]], Some(i + 1), i + 2)
            == ChunkText(text, chunks, chunkStart, i) + ['"']
  {
    ConcatAppend(chunks, text[chunkStart.UnwrapOr(i)..i]);
    assert text[i + 1..i + 2] == ['"'];
  }

  /** `"/"` at `i`: closing the open chunk at the first quote, adding a line feed chunk
      and opening the next chunk after the escape decodes one more line feed. */
  lemma LineBreakChunks(text: seq<char>, chunks: seq<string>, chunkStart: Option<nat>, i: nat)
    requires i + 2 < |text| && (chunkStart.Some? ==> chunkStart.value <= i)
    ensures ChunkText(text, chunks + [text[chunkStart.UnwrapOr(i)..i]] + ["\n"], Some(i + 3), i + 3)
            == ChunkText(text, chunks, chunkStart, i) + [LF]
  {
    var c := text[chunkStart.UnwrapOr(i)..i];
    ConcatAppend(chunks, c);
    ConcatAppend(chunks + [c], "\n");
  }

  /** A closing quote at `i` closes the open chunk: the chunks then join to the text
      decoded so far. */
  lemma ClosingChunks(text: seq<char>, chunks: seq<string>, chunkStart: Option<nat>, i: nat)
    requires i <= |text| && (chunkStart.Some? ==> chunkStart.value <= i)
    ensures Concat(chunks + [text[chunkStart.UnwrapOr(i)..i]]) == ChunkText(text, chunks, chunkStart, i)
  {
    ConcatAppend(chunks, text[chunkStart.UnwrapOr(i)..i]);
  }

  /** An ordinary character at `i` extends the open chunk. */
  lemma ExtendChunk(text: seq<char>, chunks: seq<string>, start: nat, i: nat)
    requires start <= i < |text|
    ensures ChunkText(text, chunks, Some(start), i + 1) == ChunkText(text, chunks, Some(start), i) + [text[i]]
  {
    assert text[start..i + 1] == text[start..i] + [text[i]];
  }

  /** Opening a chunk at `i` does not change the decoded text. */
  lemma OpenChunk(text: seq<char>, chunks: seq<string>, i: nat)
    requires i <= |text|
    ensures ChunkText(text, chunks, Some(i), i) == ChunkText(text, chunks, None, i)
  {
    assert text[i..i] == [];
  }

  /** How one pass of the loop of `match_string` ends: go round again, leave the loop
      at the closing quote, or return an error. */
  datatype Pass = Again | Close | Stop(error: WsvError)

  /** A pass of the chunking loop, which ended with `pass`, left the chunks, the
      position `pos`, the location `loc` and the terminal flag as the scanner pass
      `st` says: continuing with the same decoded text, closing with the same value,
      or stopping with the same error. */
  ghost predicate PassAgrees(text: seq<char>, st: QuotedStep, pass: Pass, chunks: seq<string>,
                             chunkStart: Option<nat>, pos: nat, loc: Location,
                             errored: bool, wasErrored: bool)
  {
    && (st.Continue? ==>
          && pass.Again? && chunkStart.Some? && chunkStart.value <= pos <= |text|
          && pos == st.next && loc == st.loc && errored == wasErrored
          && ChunkText(text, chunks, chunkStart, pos) == st.acc)
    && (st.Finish? && st.outcome.Closed? ==>
          && pass.Close? && Concat(chunks) == st.outcome.value
          && pos == st.outcome.end && loc == st.outcome.loc && errored == wasErrored)
    && (st.Finish? && st.outcome.Failed? ==>
          && pass == Stop(st.outcome.error)
          && pos == st.outcome.end && loc == st.outcome.loc
          && errored == (wasErrored || st.outcome.fatal))
  }

  class WsvTokenizer {
    /** The whole source text. */
    const source: seq<char>
    /** How many characters the `char_indices` iterator has handed out. */
    var cursor: nat
    /** The one-character lookahead slot, with the character's index. */
    var peeked: Option<(nat, char)>
    var currentLocation: Location
    /** The index of the last character consumed (0 before any): the location's byte offset. */
    var byteIndex: nat
    /** A deferred error, returned by the next call of `Next`. */
    var lookaheadError: Option<WsvError>
    /** Set once the tokenizer has stopped for good. */
    var errored: bool

    /** The lookahead slot holds exactly the last character handed out, and the byte
        offset is the index of the character before the first unconsumed one. */
    ghost predicate Valid()
      reads this
    {
      && cursor <= |source|
      && (peeked.Some? ==> 0 < cursor && peeked.value == (cursor - 1, source[cursor - 1]))
      && byteIndex == (if Position() == 0 then 0 else Position() - 1)
    }

    /** The position of the first character not yet consumed. */
    function Position(): nat
      reads this
    {
      if peeked.Some? && 0 < cursor then cursor - 1 else cursor
    }

    /** The scanner state this object stands for. */
    function State(): TokState
      reads this
    {
      TokState(Position(), currentLocation, lookaheadError, errored)
    }

    constructor (text: string)
      ensures Valid() && source == text && State() == Initial()
    {
      source := text;
      cursor := 0;
      peeked := None;
      currentLocation := StartLocation();
      byteIndex := 0;
      lookaheadError := None;
      errored := false;
    }

    /** Fills the lookahead slot from the iterator if it is empty. */
    method PeekInner() returns (r: Option<(nat, char)>)
      requires Valid()
      modifies this
      ensures Valid() && State() == old(State()) && byteIndex == old(byteIndex)
      ensures peeked == r
      ensures r == (if Position() < |source| then Some((Position(), source[Position()])) else None)
    {
      if peeked.None? && cursor < |source| {
        peeked := Some((cursor, source[cursor]));
        cursor := cursor + 1;
      }
      r := peeked;
    }

    /** The next character, without consuming it. */
    method Peek() returns (r: Option<char>)
      requires Valid()
      modifies this
      ensures Valid() && State() == old(State()) && byteIndex == old(byteIndex)
      ensures r.Some? ==> peeked.Some? && peeked.value.1 == r.value
      ensures peeked.None? <==> Position() == |source|
      ensures r == (if Position() < |source| then Some(source[Position()]) else None)
    {
      var p := PeekInner();
      if p.None? {
        r := None;
      } else {
        r := Some(p.value.1);
      }
    }

    /** The location of the next character and its index, if there is one. */
    method PeekLocation() returns (r: Option<(Location, nat)>)
      requires Valid()
      modifies this
      ensures Valid() && State() == old(State()) && byteIndex == old(byteIndex)
      ensures r == (if Position() < |source|
                    then Some((Location(currentLocation.line, currentLocation.col + 1), Position()))
                    else None)
    {
      var p := PeekInner();
      if p.None? {
        r := None;
      } else {
        r := Some((Location(currentLocation.line, currentLocation.col + 1), p.value.0));
      }
    }

    /** Consumes the next character if it satisfies `p`, moving the location past it;
        returns the character with its index. */
    method MatchCharIf(p: char -> bool) returns (r: Option<(nat, char)>)
      requires Valid()
      modifies this
      ensures Valid()
      ensures lookaheadError == old(lookaheadError) && errored == old(errored)
      ensures var i := old(Position());
              if i < |source| && p(source[i])
              then r == Some((i, source[i])) && Position() == i + 1
                   && currentLocation == Advance(old(currentLocation), source[i])
              else r == None && Position() == i && currentLocation == old(currentLocation)
    {
      var found := Peek();
      if found.Some? && p(found.value) {
        var (i, ch) := peeked.value;
        peeked := None;
        if ch == LF {
          currentLocation := Location(currentLocation.line + 1, 1);
        } else {
          currentLocation := Location(currentLocation.line, currentLocation.col + 1);
        }
        byteIndex := i;
        r := Some((i, ch));
      } else {
        r := None;
      }
    }

    /** Consumes the next character if it is `ch`. */
    method MatchChar(ch: char) returns (r: Option<(nat, char)>)
      requires Valid()
      modifies this
      ensures Valid()
      ensures lookaheadError == old(lookaheadError) && errored == old(errored)
      ensures var i := old(Position());
              if i < |source| && source[i] == ch
              then r == Some((i, ch)) && Position() == i + 1
                   && currentLocation == Advance(old(currentLocation), ch)
              else r == None && Position() == i && currentLocation == old(currentLocation)
    {
      r := MatchCharIf(c => c == ch);
    }

    /** Consumes the longest run of characters satisfying `p` and returns the slice of
        the source it spans, or None when the run is empty. */
    method MatchCharWhile(p: char -> bool) returns (r: Option<string>)
      requires Valid()
      modifies this
      ensures Valid()
      ensures lookaheadError == old(lookaheadError) && errored == old(errored)
      ensures var i := old(Position());
              var j := SpanEnd(p, source, i);
              && Position() == j
              && r == (if j == i then None else Some(source[i..j]))
              && currentLocation == LocationAfter(old(currentLocation), source, i, j)
    {
      ghost var i := Position();
      ghost var l0 := currentLocation;
      var start: Option<nat> := None;
      while true
        invariant Valid() && i <= Position() <= |source|
        invariant start == (if Position() == i then None else Some(i))
        invariant forall k | i <= k < Position() :: p(source[k])
        invariant currentLocation == LocationAfter(l0, source, i, Position())
        invariant lookaheadError == old(lookaheadError) && errored == old(errored)
        decreases |source| - Position()
      {
        var m := MatchCharIf(p);
        if m.None? {
          break;
        }
        if start.None? {
          start := Some(m.value.0);
        }
      }
      SpanEndIs(p, source, i, Position());
      if start.None? {
        return None;
      }
      var _ := Peek();
      var endIndex := if peeked.None? then |source| else peeked.value.0;
      r := Some(source[start.value..endIndex]);
    }

    /** One pass of the loop of `match_string`. Before the first ordinary character
        a pass only opens a chunk, consuming nothing; every other pass does what
        `QuotedStepAt` says, with the chunks standing for the text decoded so far. */
    method MatchStringStep(chunks: seq<string>, chunkStart: Option<nat>)
      returns (pass: Pass, chunks': seq<string>, chunkStart': Option<nat>)
      requires Valid() && (chunkStart.Some? ==> chunkStart.value <= Position())
      modifies this
      ensures Valid() && lookaheadError == old(lookaheadError)
      ensures chunkStart'.Some? ==> chunkStart'.value <= Position()
      ensures var i := old(Position());
              if chunkStart.None? && !(i < |source| && (source[i] == '"' || source[i] == LF)) then
                && pass.Again? && chunks' == chunks && chunkStart' == Some(i)
                && State() == old(State())
              else
                PassAgrees(source, QuotedStepAt(source, i, old(currentLocation),
                                                ChunkText(source, chunks, chunkStart, i)),
                           pass, chunks', chunkStart', Position(), currentLocation,
                           errored, old(errored))
    {
      ghost var i := Position();
      ghost var loc := currentLocation;
      var quote := MatchChar('"');
      if quote.Some? {
        pass, chunks', chunkStart' := AfterQuote(i, loc, chunks, chunkStart);
        return;
      }
      pass, chunks', chunkStart' := PlainStep(chunks, chunkStart);
    }

    /** The pass after a quote was consumed at `i`: `""` closes the open chunk at the
        first quote and opens the next at the second, `"/"` closes it, adds a line feed
        chunk and opens the next after the escape, and a lone quote closes the last
        chunk and the value. */
    method AfterQuote(ghost i: nat, ghost loc: Location, chunks: seq<string>, chunkStart: Option<nat>)
      returns (pass: Pass, chunks': seq<string>, chunkStart': Option<nat>)
      requires Valid() && i < |source| && source[i] == '"'
      requires Position() == i + 1 && currentLocation == Advance(loc, '"')
      requires chunkStart.Some? ==> chunkStart.value <= i
      modifies this
      ensures Valid() && lookaheadError == old(lookaheadError)
      ensures chunkStart'.Some? ==> chunkStart'.value <= Position()
      ensures PassAgrees(source, QuotedStepAt(source, i, loc, ChunkText(source, chunks, chunkStart, i)),
                         pass, chunks', chunkStart', Position(), currentLocation,
                         errored, old(errored))
    {
      ghost var acc := ChunkText(source, chunks, chunkStart, i);
      ghost var l1 := Advance(loc, '"');
      chunks', chunkStart' := chunks, chunkStart;
      var escaped := MatchChar('"');
      if escaped.Some? {
        pass, chunks', chunkStart' := EscapedQuote(i, loc, chunks, chunkStart);
        return;
      }
      var slash := MatchChar('/');
      if slash.Some? {
        pass, chunks', chunkStart' := LineBreakEscape(i, loc, chunks, chunkStart);
        return;
      }
      assert Position() == i + 1 && byteIndex == i;
      assert QuotedStepAt(source, i, loc, acc) == Finish(Closed(acc, i + 1, l1));
      chunks' := chunks + [source[chunkStart.UnwrapOr(byteIndex)..byteIndex]];
      ClosingChunks(source, chunks, chunkStart, i);
      return Close, chunks', chunkStart';
    }

    /** The rest of a pass after `""` was consumed at `i`: the escape closes the open
        chunk just before its second quote, and a new chunk starts at that quote. */
    method EscapedQuote(ghost i: nat, ghost loc: Location, chunks: seq<string>, chunkStart: Option<nat>)
      returns (pass: Pass, chunks': seq<string>, chunkStart': Option<nat>)
      requires Valid() && i + 1 < |source| && source[i] == '"' && source[i + 1] == '"'
      requires Position() == i + 2 && currentLocation == Advance(Advance(loc, '"'), '"')
      requires chunkStart.Some? ==> chunkStart.value <= i
      ensures chunkStart'.Some? ==> chunkStart'.value <= Position()
      ensures PassAgrees(source, QuotedStepAt(source, i, loc, ChunkText(source, chunks, chunkStart, i)),
                         pass, chunks', chunkStart', Position(), currentLocation,
                         errored, errored)
    {
      ghost var acc := ChunkText(source, chunks, chunkStart, i);
      assert byteIndex == i + 1;
      assert QuotedStepAt(source, i, loc, acc) == Continue(i + 2, currentLocation, acc + ['"']);
      var endIndex := byteIndex - 1;
      chunks' := chunks + [source[chunkStart.UnwrapOr(endIndex)..endIndex]];
      chunkStart' := Some(byteIndex);
      EscapedQuoteChunks(source, chunks, chunkStart, i);
      return Again, chunks', chunkStart';
    }

    /** The rest of a pass after `"/` was consumed at `i`: a closing quote completes the
        `"/"` escape, which closes the open chunk and adds a line feed chunk; anything
        else is InvalidStringLineBreak. */
    method LineBreakEscape(ghost i: nat, ghost loc: Location, chunks: seq<string>, chunkStart: Option<nat>)
      returns (pass: Pass, chunks': seq<string>, chunkStart': Option<nat>)
      requires Valid() && i + 1 < |source| && source[i] == '"' && source[i + 1] == '/'
      requires Position() == i + 2 && currentLocation == Advance(Advance(loc, '"'), '/')
      requires chunkStart.Some? ==> chunkStart.value <= i
      modifies this
      ensures Valid() && lookaheadError == old(lookaheadError)
      ensures chunkStart'.Some? ==> chunkStart'.value <= Position()
      ensures PassAgrees(source, QuotedStepAt(source, i, loc, ChunkText(source, chunks, chunkStart, i)),
                         pass, chunks', chunkStart', Position(), currentLocation,
                         errored, old(errored))
    {
      ghost var acc := ChunkText(source, chunks, chunkStart, i);
      ghost var l2 := currentLocation;
      chunks', chunkStart' := chunks, chunkStart;
      var close := MatchChar('"');
      if close.None? {
        assert QuotedStepAt(source, i, loc, acc)
            == Finish(Failed(WsvError(InvalidStringLineBreak, l2), true, i + 2, l2));
        errored := true;
        return Stop(WsvError(InvalidStringLineBreak, currentLocation)), chunks', chunkStart';
      }
      assert Position() == i + 3 && byteIndex == i + 2 && source[i + 2] == '"';
      assert QuotedStepAt(source, i, loc, acc) == Continue(i + 3, Advance(l2, '"'), acc + [LF]);
      var endIndex := byteIndex - 2;
      chunks' := chunks + [source[chunkStart.UnwrapOr(endIndex)..endIndex]];
      chunks' := chunks' + ["\n"];
      chunkStart' := Some(byteIndex + 1);
      LineBreakChunks(source, chunks, chunkStart, i);
      return Again, chunks', chunkStart';
    }

    /** A pass that does not start at a quote: a raw line feed is StringNotClosed,
        the first pass opens a chunk, any other character extends the open chunk, and
        the end of input is StringNotClosed. */
    method PlainStep(chunks: seq<string>, chunkStart: Option<nat>)
      returns (pass: Pass, chunks': seq<string>, chunkStart': Option<nat>)
      requires Valid() && (chunkStart.Some? ==> chunkStart.value <= Position())
      requires Position() == |source| || source[Position()] != '"'
      modifies this
      ensures Valid() && lookaheadError == old(lookaheadError)
      ensures chunkStart'.Some? ==> chunkStart'.value <= Position()
      ensures var i := old(Position());
              if chunkStart.None? && !(i < |source| && source[i] == LF) then
                && pass.Again? && chunks' == chunks && chunkStart' == Some(i)
                && State() == old(State())
              else
                PassAgrees(source, QuotedStepAt(source, i, old(currentLocation),
                                                ChunkText(source, chunks, chunkStart, i)),
                           pass, chunks', chunkStart', Position(), currentLocation,
                           errored, old(errored))
    {
      ghost var i := Position();
      chunks', chunkStart' := chunks, chunkStart;
      var ahead := Peek();
      if ahead == Some(LF) {
        errored := true;
        return Stop(WsvError(StringNotClosed, currentLocation)), chunks', chunkStart';
      }
      if chunkStart.None? {
        var at := PeekLocation();
        chunkStart' := Some(if at.None? then |source| else at.value.1);
        return Again, chunks', chunkStart';
      }
      var ch := MatchCharIf(AnyChar);
      if ch.None? {
        var at := PeekLocation();
        return Stop(WsvError(StringNotClosed, if at.None? then currentLocation else at.value.0)),
               chunks', chunkStart';
      }
      ExtendChunk(source, chunks, chunkStart.value, i);
      return Again, chunks', chunkStart';
    }

    /** A quoted value, if the next character is a quote: decodes `""` and `"/"`,
        stops at the closing quote, and reports StringNotClosed or
        InvalidStringLineBreak as the scanner specification says. A value without
        escapes is the single chunk between the quotes. */
    method MatchString() returns (r: Option<Result<Token, WsvError>>)
      requires Valid()
      modifies this
      ensures Valid() && lookaheadError == old(lookaheadError)
      ensures var i := old(Position());
              if i < |source| && source[i] == '"' then
                var q := ScanQuoted(source, i + 1, Advance(old(currentLocation), '"'), []);
                && r == Some(TokenOf(q))
                && Position() == q.end && currentLocation == q.loc
                && errored == (old(errored) || (q.Failed? && q.fatal))
              else
                r == None && State() == old(State())
    {
      var open := MatchChar('"');
      if open.None? {
        return None;
      }
      var pass, chunks := ScanChunks();
      if pass.Stop? {
        return Some(Err(pass.error));
      }
      if |chunks| == 1 {
        return Some(Ok(Value(chunks[0])));
      } else {
        return Some(Ok(Value(Concat(chunks))));
      }
    }

    /** The loop of `match_string`, after the opening quote: passes until the closing
        quote or an error. The chunks it leaves join to the decoded value. */
    method ScanChunks() returns (pass: Pass, chunks: seq<string>)
      requires Valid()
      modifies this
      ensures Valid() && lookaheadError == old(lookaheadError)
      ensures var q := ScanQuoted(source, old(Position()), old(currentLocation), []);
              && (q.Closed? ==> pass.Close? && Concat(chunks) == q.value)
              && (q.Failed? ==> pass == Stop(q.error))
              && Position() == q.end && currentLocation == q.loc
              && errored == (old(errored) || (q.Failed? && q.fatal))
    {
      ghost var goal := ScanQuoted(source, Position(), currentLocation, []);
      chunks := [];
      var chunkStart: Option<nat> := None;
      ghost var acc: string := [];
      while true
        invariant Valid() && lookaheadError == old(lookaheadError) && errored == old(errored)
        invariant chunkStart.Some? ==> chunkStart.value <= Position()
        invariant acc == ChunkText(source, chunks, chunkStart, Position())
        invariant goal == ScanQuoted(source, Position(), currentLocation, acc)
        decreases |source| - Position(), if chunkStart.None? then 1 else 0
      {
        ghost var p0 := Position();
        ghost var st := QuotedStepAt(source, p0, currentLocation, acc);
        ghost var opening := chunkStart.None? &&
                             !(Position() < |source| && (source[Position()] == '"' || source[Position()] == LF));
        pass, chunks, chunkStart := MatchStringStep(chunks, chunkStart);
        if pass.Close? {
          return;
        }
        if pass.Stop? {
          return;
        }
        if opening {
          OpenChunk(source, chunks, p0);
        } else {
          acc := st.acc;
        }
      }
    }

    /** One token, a deferred error, or None once the input is used up or the
        tokenizer has errored: exactly one step of the scanner specification. */
    method Next() returns (r: Option<Result<Token, WsvError>>)
      requires Valid()
      modifies this
      ensures Valid()
      ensures Step(r, State()) == NextToken(source, old(State()))
    {
      if errored {
        return None;
      }
      if lookaheadError.Some? {
        var err := lookaheadError.value;
        lookaheadError := None;
        errored := true;
        return Some(Err(err));
      }
      var _ := MatchCharWhile(IsWhitespace);
      r := ScanToken();
    }

    /** The part of `next` after the whitespace is skipped: a quoted value, a comment,
        a line feed or a bare value, as `TokenAt` says. */
    method ScanToken() returns (r: Option<Result<Token, WsvError>>)
      requires Valid() && !errored && lookaheadError.None?
      requires Position() == |source| || !IsWhitespace(source[Position()])
      modifies this
      ensures Valid()
      ensures Step(r, State()) == TokenAt(source, old(Position()), old(currentLocation))
    {
      ghost var i := Position();
      ghost var loc := currentLocation;
      var str := MatchString();
      if str.Some? {
        CheckAfterString();
        return str;
      }
      var hash := MatchChar('#');
      if hash.Some? {
        r := ScanComment(i, loc);
        return;
      }
      var lf := MatchChar(LF);
      if lf.Some? {
        return Some(Ok(LineFeed));
      }
      r := BareValue();
    }

    /** A comment, once its `#` at `i` is consumed: the rest of the line up to the
        line feed, which is left for the next call. */
    method ScanComment(ghost i: nat, ghost loc: Location) returns (r: Option<Result<Token, WsvError>>)
      requires Valid() && !errored && lookaheadError.None?
      requires i < |source| && source[i] == '#'
      requires Position() == i + 1 && currentLocation == Advance(loc, '#')
      modifies this
      ensures Valid()
      ensures Step(r, State()) == TokenAt(source, i, loc)
    {
      var text := MatchCharWhile(IsNotLineFeed);
      LocationAfterFirst(loc, source, i, Position());
      assert text.UnwrapOr("") == source[i + 1..Position()];
      return Some(Ok(Comment(text.UnwrapOr(""))));
    }

    /** After a closing quote: defers InvalidCharacterAfterString unless the next
        character is whitespace, a line feed or `#`, or there is none. */
    method CheckAfterString()
      requires Valid() && lookaheadError.None?
      modifies this
      ensures Valid() && Position() == old(Position())
      ensures currentLocation == old(currentLocation) && errored == old(errored)
      ensures var i := Position();
              lookaheadError == AfterString(if i < |source| then source[i] else ' ', currentLocation)
    {
      var look := Peek();
      var lookahead := look.UnwrapOr(' ');
      if lookahead != LF && lookahead != '#' && !IsWhitespace(lookahead) {
        lookaheadError := Some(WsvError(InvalidCharacterAfterString, currentLocation));
      }
    }

    /** A bare value: `-` alone is the null token, and a quote right after the value
        defers InvalidDoubleQuoteAfterValue. */
    method BareValue() returns (r: Option<Result<Token, WsvError>>)
      requires Valid() && !errored && lookaheadError.None?
      modifies this
      ensures Valid()
      ensures Step(r, State()) == BareToken(source, old(Position()), old(currentLocation))
    {
      var value := MatchCharWhile(IsBareChar);
      match value
      case None =>
        return None;
      case Some(s) =>
        if s == "-" {
          return Some(Ok(Null));
        }
        var after := Peek();
        if after == Some('"') {
          lookaheadError := Some(WsvError(InvalidDoubleQuoteAfterValue, currentLocation));
        }
        return Some(Ok(Value(s)));
    }
  }
}
