/**
 * The streaming tokenizer: the scanner run over a character iterator, copying every
 * value into an owned string. The iterator is modelled as the sequence of characters
 * it yields and a count of how many it has handed out so far. Each method is proved
 * to do what the scanner specification in WsvScanner says.
 */
module LazyTokenizer {
  import opened WsvTypes
  import opened WsvScanner

  class WsvLazyTokenizer {
    /** Every character the upstream iterator yields, in order. */
    const chars: seq<char>
    /** How many characters the upstream iterator has handed out. */
    var yielded: nat
    /** The one-character lookahead slot: the last character handed out, not yet consumed. */
    var peeked: Option<char>
    var currentLocation: Location
    /** A deferred error, returned by the next call of `Next`. */
    var lookaheadError: Option<WsvError>
    /** Set once the tokenizer has stopped for good. */
    var errored: bool

    /** The lookahead slot holds exactly the last character handed out. */
    ghost predicate Valid()
      reads this
    {
      && yielded <= |chars|
      && (peeked.Some? ==> 0 < yielded && peeked.value == chars[yielded - 1])
    }

    /** The position of the first character not yet consumed. */
    function Position(): nat
      reads this
    {
      if peeked.Some? && 0 < yielded then yielded - 1 else yielded
    }

    /** The scanner state this object stands for. */
    function State(): TokState
      reads this
    {
      TokState(Position(), currentLocation, lookaheadError, errored)
    }

    constructor (text: string)
      ensures Valid() && chars == text && State() == Initial()
    {
      chars := text;
      yielded := 0;
      peeked := None;
      currentLocation := StartLocation();
      lookaheadError := None;
      errored := false;
    }

    /** Fills the lookahead slot from the iterator if it is empty. */
    method PeekInner() returns (r: Option<char>)
      requires Valid()
      modifies this
      ensures Valid() && State() == old(State())
      ensures peeked == r
      ensures r == (if Position() < |chars| then Some(chars[Position()]) else None)
    {
      if peeked.None? && yielded < |chars| {
        peeked := Some(chars[yielded]);
        yielded := yielded + 1;
      }
      r := peeked;
    }

    /** The next character, without consuming it. */
    method Peek() returns (r: Option<char>)
      requires Valid()
      modifies this
      ensures Valid() && State() == old(State())
      ensures r.Some? ==> peeked == r
      ensures r == (if Position() < |chars| then Some(chars[Position()]) else None)
    {
      r := PeekInner();
    }

    /** The location of the next character, if there is one. */
    method PeekLocation() returns (r: Option<Location>)
      requires Valid()
      modifies this
      ensures Valid() && State() == old(State())
      ensures r == (if Position() < |chars|
                    then Some(Location(currentLocation.line, currentLocation.col + 1))
                    else None)
    {
      var p := PeekInner();
      if p.None? {
        r := None;
      } else {
        r := Some(Location(currentLocation.line, currentLocation.col + 1));
      }
    }

    /** Consumes the next character if it satisfies `p`, moving the location past it. */
    method MatchCharIf(p: char -> bool) returns (r: Option<char>)
      requires Valid()
      modifies this
      ensures Valid()
      ensures lookaheadError == old(lookaheadError) && errored == old(errored)
      ensures var i := old(Position());
              if i < |chars| && p(chars[i])
              then r == Some(chars[i]) && Position() == i + 1
                   && currentLocation == Advance(old(currentLocation), chars[i])
              else r == None && Position() == i && currentLocation == old(currentLocation)
    {
      var found := Peek();
      if found.Some? && p(found.value) {
        var ch := peeked.value;
        peeked := None;
        if ch == LF {
          currentLocation := Location(currentLocation.line + 1, 1);
        } else {
          currentLocation := Location(currentLocation.line, currentLocation.col + 1);
        }
        r := Some(ch);
      } else {
        r := None;
      }
    }

    /** Consumes the next character if it is `ch`. */
    method MatchChar(ch: char) returns (r: Option<char>)
      requires Valid()
      modifies this
      ensures Valid()
      ensures lookaheadError == old(lookaheadError) && errored == old(errored)
      ensures var i := old(Position());
              if i < |chars| && chars[i] == ch
              then r == Some(ch) && Position() == i + 1
                   && currentLocation == Advance(old(currentLocation), ch)
              else r == None && Position() == i && currentLocation == old(currentLocation)
    {
      r := MatchCharIf(c => c == ch);
    }

    /** Consumes the longest run of characters satisfying `p` and returns it,
        or None when the run is empty. */
    method MatchCharWhile(p: char -> bool) returns (r: Option<string>)
      requires Valid()
      modifies this
      ensures Valid()
      ensures lookaheadError == old(lookaheadError) && errored == old(errored)
      ensures var i := old(Position());
              var j := SpanEnd(p, chars, i);
              && Position() == j
              && r == (if j == i then None else Some(chars[i..j]))
              && currentLocation == LocationAfter(old(currentLocation), chars, i, j)
    {
      ghost var i := Position();
      ghost var l0 := currentLocation;
      var str := "";
      while true
        invariant Valid() && i <= Position() <= |chars| && str == chars[i..Position()]
        invariant forall k | i <= k < Position() :: p(chars[k])
        invariant currentLocation == LocationAfter(l0, chars, i, Position())
        invariant lookaheadError == old(lookaheadError) && errored == old(errored)
        decreases |chars| - Position()
      {
        var c := MatchCharIf(p);
        if c.None? {
          break;
        }
        str := str + [c.value];
      }
      SpanEndIs(p, chars, i, Position());
      if |str| == 0 {
        r := None;
      } else {
        r := Some(str);
      }
    }

    /** One pass of the loop of `match_string`: an escape or an ordinary character is
        decoded and appended to `result`, or the value ends (closed, or with an error). */
    method MatchStringStep(result: string) returns (done: Option<Result<Token, WsvError>>, next: string)
      requires Valid()
      modifies this
      ensures Valid() && lookaheadError == old(lookaheadError)
      ensures var st := QuotedStepAt(chars, old(Position()), old(currentLocation), result);
              && (st.Continue? ==>
                    && done.None? && next == st.acc
                    && Position() == st.next && currentLocation == st.loc
                    && errored == old(errored))
              && (st.Finish? ==>
                    && done == Some(TokenOf(st.outcome))
                    && Position() == st.outcome.end && currentLocation == st.outcome.loc
                    && errored == (old(errored) || (st.outcome.Failed? && st.outcome.fatal)))
    {
      next := result;
      var quote := MatchChar('"');
      if quote.Some? {
        var escaped := MatchChar('"');
        if escaped.Some? {
          next := result + ['"'];
          return None, next;
        }
        var slash := MatchChar('/');
        if slash.Some? {
          var close := MatchChar('"');
          if close.None? {
            errored := true;
            return Some(Err(WsvError(InvalidStringLineBreak, currentLocation))), next;
          }
          next := result + [LF];
          return None, next;
        }
        return Some(Ok(Value(result))), next;
      }
      var ahead := Peek();
      if ahead == Some(LF) {
        errored := true;
        return Some(Err(WsvError(StringNotClosed, currentLocation))), next;
      }
      var ch := MatchCharIf(AnyChar);
      if ch.Some? {
        next := result + [ch.value];
        return None, next;
      }
      var at := PeekLocation();
      return Some(Err(WsvError(StringNotClosed, at.UnwrapOr(currentLocation)))), next;
    }

    /** A quoted value, if the next character is a quote: decodes `""` and `"/"`,
        stops at the closing quote, and reports StringNotClosed or
        InvalidStringLineBreak as the scanner specification says. */
    method MatchString() returns (r: Option<Result<Token, WsvError>>)
      requires Valid()
      modifies this
      ensures Valid() && lookaheadError == old(lookaheadError)
      ensures var i := old(Position());
              if i < |chars| && chars[i] == '"' then
                var q := ScanQuoted(chars, i + 1, Advance(old(currentLocation), '"'), []);
                && r == Some(TokenOf(q))
                && Position() == q.end && currentLocation == q.loc
                && errored == (old(errored) || (q.Failed? && q.fatal))
              else
                r == None && State() == old(State())
    {
      var open := MatchChar('"');
      if open.None? {
        return None;
      }
      ghost var goal := ScanQuoted(chars, Position(), currentLocation, []);
      var result := "";
      while true
        invariant Valid() && lookaheadError == old(lookaheadError) && errored == old(errored)
        invariant Position() <= |chars|
        invariant goal == ScanQuoted(chars, Position(), currentLocation, result)
        decreases |chars| - Position()
      {
        var done;
        done, result := MatchStringStep(result);
        if done.Some? {
          return done;
        }
      }
    }

    /** One token, a deferred error, or None once the input is used up or the
        tokenizer has errored: exactly one step of the scanner specification. */
    method Next() returns (r: Option<Result<Token, WsvError>>)
      requires Valid()
      modifies this
      ensures Valid()
      ensures Step(r, State()) == NextToken(chars, old(State()))
    {
      if errored {
        return None;
      }
      if lookaheadError.Some? {
        var err := lookaheadError.value;
        lookaheadError := None;
        errored := true;
        return Some(Err(err));
      }
      var _ := MatchCharWhile(IsWhitespace);
      r := ScanToken();
    }

    /** The part of `next` after the whitespace is skipped: a quoted value, a comment,
        a line feed or a bare value, as `TokenAt` says. */
    method ScanToken() returns (r: Option<Result<Token, WsvError>>)
      requires Valid() && !errored && lookaheadError.None?
      requires Position() == |chars| || !IsWhitespace(chars[Position()])
      modifies this
      ensures Valid()
      ensures Step(r, State()) == TokenAt(chars, old(Position()), old(currentLocation))
    {
      ghost var i := Position();
      ghost var loc := currentLocation;
      var str := MatchString();
      if str.Some? {
        CheckAfterString();
        return str;
      }
      var hash := MatchChar('#');
      if hash.Some? {
        var text := MatchCharWhile(IsNotLineFeed);
        LocationAfterFirst(loc, chars, i, Position());
        assert text.UnwrapOr("") == chars[i + 1..Position()];
        return Some(Ok(Comment(text.UnwrapOr(""))));
      }
      var lf := MatchChar(LF);
      if lf.Some? {
        return Some(Ok(LineFeed));
      }
      r := BareValue();
    }

    /** After a closing quote: defers InvalidCharacterAfterString unless the next
        character is whitespace, a line feed or `#`, or there is none. */
    method CheckAfterString()
      requires Valid() && lookaheadError.None?
      modifies this
      ensures Valid() && Position() == old(Position())
      ensures currentLocation == old(currentLocation) && errored == old(errored)
      ensures var i := Position();
              lookaheadError == AfterString(if i < |chars| then chars[i] else ' ', currentLocation)
    {
      var look := Peek();
      var lookahead := look.UnwrapOr(' ');
      if lookahead != LF && lookahead != '#' && !IsWhitespace(lookahead) {
        lookaheadError := Some(WsvError(InvalidCharacterAfterString, currentLocation));
      }
    }

    /** A bare value: `-` alone is the null token, and a quote right after the value
        defers InvalidDoubleQuoteAfterValue. */
    method BareValue() returns (r: Option<Result<Token, WsvError>>)
      requires Valid() && !errored && lookaheadError.None?
      modifies this
      ensures Valid()
      ensures Step(r, State()) == BareToken(chars, old(Position()), old(currentLocation))
    {
      var value := MatchCharWhile(IsBareChar);
      match value
      case None =>
        return None;
      case Some(s) =>
        if s == "-" {
          return Some(Ok(Null));
        }
        var after := Peek();
        if after == Some('"') {
          lookaheadError := Some(WsvError(InvalidDoubleQuoteAfterValue, currentLocation));
        }
        return Some(Ok(Value(s)));
    }
  }
}
