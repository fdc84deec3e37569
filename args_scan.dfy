/** The three-state tokenizer without redirection that appears twice in the
    source, once as `parse_input` in src/parse/parse_args.rs and once as
    `parse_args` in src/commands/util.rs. The two copies differ only in the
    names of their constants, so the algorithm is written once here and
    parameterised by the table of bytes a backslash escapes inside double
    quotes (each file's `SPECIAL_CHARS`). */
module ArgsScan {
  import opened Bytes

  datatype ParseState = Normal | SingleQuote | DoubleQuote

  /** The loop variables: `parse_state`, `escaped`, `is_word_done`,
      `parsed_buffer` and the token list built so far. */
  datatype Scanner = Scanner(state: ParseState, escaped: bool, wordDone: bool, buffer: Bytes, tokens: seq<Bytes>)

  const Start := Scanner(Normal, false, false, [], [])

  /** The start of each iteration: a word marked done in the previous
      iteration is pushed and the buffer cleared. */
  function Flush(sc: Scanner): (r: Scanner)
    ensures !r.wordDone && r.state == sc.state && r.escaped == sc.escaped
    ensures !sc.wordDone ==> r == sc
    ensures sc.wordDone ==> r.buffer == [] && r.tokens == sc.tokens + [sc.buffer]
  {
    if sc.wordDone then sc.(wordDone := false, buffer := [], tokens := sc.tokens + [sc.buffer]) else sc
  }

  /** The `match parse_state` on one byte `c`; `rest` is the input after `c`,
      which the look-ahead for a closing quote searches. */
  function Dispatch(sc: Scanner, c: byte, rest: Bytes, specials: seq<byte>): Scanner {
    match sc.state
    case DoubleQuote =>
      if sc.escaped then
        sc.(buffer := sc.buffer + EscapedPiece(c, specials), escaped := false)
      else if c == DOUBLE_QUOTE then sc.(state := Normal)
      else if c == BACKSLASH then sc.(escaped := true)
      else sc.(buffer := sc.buffer + [c])
    case SingleQuote =>
      if c == SINGLE_QUOTE then sc.(state := Normal) else sc.(buffer := sc.buffer + [c])
    case Normal =>
      if sc.escaped then sc.(buffer := sc.buffer + [c], escaped := false)
      else if c == WHITESPACE && sc.buffer != [] then sc.(wordDone := true)
      else if c == WHITESPACE && sc.tokens != [] then sc
      else if c == BACKSLASH then sc.(escaped := true)
      else if c == SINGLE_QUOTE && SINGLE_QUOTE in rest then sc.(state := SingleQuote)
      else if c == SINGLE_QUOTE then sc
      else if c == DOUBLE_QUOTE && DOUBLE_QUOTE in rest then sc.(state := DoubleQuote)
      else if c == DOUBLE_QUOTE then sc
      else sc.(buffer := sc.buffer + [c])
  }

  /** One iteration of the `for` loop. */
  function Step(sc: Scanner, c: byte, rest: Bytes, specials: seq<byte>): Scanner {
    Dispatch(Flush(sc), c, rest, specials)
  }

  /** The loop run over the remaining input `s`. */
  function Scan(sc: Scanner, s: Bytes, specials: seq<byte>): Scanner
    decreases |s|
  {
    if s == [] then sc else Scan(Step(sc, s[0], s[1..], specials), s[1..], specials)
  }

  /** After the loop: a non-empty buffer becomes the last token. Nothing
      pushed before is lost and no empty token is added. */
  function Finish(sc: Scanner): (r: seq<Bytes>)
    ensures sc.tokens <= r && |r| == |sc.tokens| + (if sc.buffer == [] then 0 else 1)
    ensures |r| > |sc.tokens| ==> r[|r| - 1] == sc.buffer != []
  {
    if sc.buffer != [] then sc.tokens + [sc.buffer] else sc.tokens
  }

  /** No arm of the `match` pushes a token or takes a byte off the word; an
      arm adds at most two bytes; a word is marked done only when it holds
      something. */
  lemma DispatchKeepsTokens(sc: Scanner, c: byte, rest: Bytes, specials: seq<byte>)
    ensures var r := Dispatch(sc, c, rest, specials);
      && r.tokens == sc.tokens
      && sc.buffer <= r.buffer && |r.buffer| <= |sc.buffer| + 2
      && (!sc.wordDone && r.wordDone ==> r.buffer != [])
  {
  }

  /** One iteration only adds to the token list, at most one token, and that
      token is the word finished in the iteration before. */
  lemma StepPushesFinishedWord(sc: Scanner, c: byte, rest: Bytes, specials: seq<byte>)
    ensures var r := Step(sc, c, rest, specials);
      && sc.tokens <= r.tokens && |r.tokens| <= |sc.tokens| + 1
      && (|r.tokens| > |sc.tokens| ==> sc.wordDone && r.tokens == sc.tokens + [sc.buffer])
  {
    DispatchKeepsTokens(Flush(sc), c, rest, specials);
  }

  /** The loop never loses a token already pushed, and pushes at most one
      per byte. */
  lemma {:induction false} ScanKeepsTokens(sc: Scanner, s: Bytes, specials: seq<byte>)
    ensures var r := Scan(sc, s, specials);
      sc.tokens <= r.tokens && |r.tokens| <= |sc.tokens| + |s|
    decreases |s|
  {
    if s != [] {
      var next := Step(sc, s[0], s[1..], specials);
      StepPushesFinishedWord(sc, s[0], s[1..], specials);
      ScanKeepsTokens(next, s[1..], specials);
    }
  }

  /** Every token pushed so far is non-empty, and a word is marked done only
      when the buffer holds something. */
  predicate Good(sc: Scanner) {
    && (sc.wordDone ==> sc.buffer != [])
    && forall i | 0 <= i < |sc.tokens| :: sc.tokens[i] != []
  }

  lemma {:induction false} ScanKeepsGood(sc: Scanner, s: Bytes, specials: seq<byte>)
    requires Good(sc)
    ensures Good(Scan(sc, s, specials))
    decreases |s|
  {
    if s != [] {
      ScanKeepsGood(Step(sc, s[0], s[1..], specials), s[1..], specials);
    }
  }

  /** The token list the function returns for `input`, given the table of
      bytes that a backslash escapes inside double quotes. A line of spaces
      (the empty line too) gives no token, and no token is ever empty. */
  function Tokens(input: Bytes, specials: seq<byte>): (r: seq<Bytes>)
    ensures AllSpace(input) ==> r == []
    ensures forall i | 0 <= i < |r| :: r[i] != []
  {
    if AllSpace(input) then []
    else
      ScanKeepsGood(Start, input, specials);
      Finish(Scan(Start, input, specials))
  }

  /** The loop of both source functions, written as they write it. */
  method ScanTokens(input: Bytes, specials: seq<byte>) returns (result: seq<Bytes>)
    ensures result == Tokens(input, specials)
  {
    if AllSpace(input) {
      return [];
    }
    var parsedBuffer: Bytes := [];
    var parseState := Normal;
    var escaped := false;
    var isWordDone := false;
    result := [];
    for index := 0 to |input|
      invariant Scan(Scanner(parseState, escaped, isWordDone, parsedBuffer, result), input[index..], specials)
             == Scan(Start, input, specials)
    {
      ghost var before := Scanner(parseState, escaped, isWordDone, parsedBuffer, result);
      var b := input[index];
      if isWordDone {
        result := result + [parsedBuffer];
        parsedBuffer := [];
        isWordDone := false;
      }
      match parseState {
        case DoubleQuote =>
          if escaped {
            if b !in specials {
              parsedBuffer := parsedBuffer + [BACKSLASH];
            }
            parsedBuffer := parsedBuffer + [b];
            escaped := false;
          } else if b == DOUBLE_QUOTE {
            parseState := Normal;
          } else if b == BACKSLASH {
            escaped := true;
          } else {
            parsedBuffer := parsedBuffer + [b];
          }
        case SingleQuote =>
          if b == SINGLE_QUOTE {
            parseState := Normal;
          } else {
            parsedBuffer := parsedBuffer + [b];
          }
        case Normal =>
          if escaped {
            parsedBuffer := parsedBuffer + [b];
            escaped := false;
          } else if b == WHITESPACE && parsedBuffer != [] {
            isWordDone := true;
          } else if b == WHITESPACE && result != [] {
            // skipped
          } else if b == BACKSLASH {
            escaped := true;
          } else if b == SINGLE_QUOTE && SINGLE_QUOTE in input[index + 1..] {
            parseState := SingleQuote;
          } else if b == SINGLE_QUOTE {
            // an unmatched quote is dropped
          } else if b == DOUBLE_QUOTE && DOUBLE_QUOTE in input[index + 1..] {
            parseState := DoubleQuote;
          } else if b == DOUBLE_QUOTE {
            // an unmatched quote is dropped
          } else {
            parsedBuffer := parsedBuffer + [b];
          }
      }
      assert input[index..][0] == b && input[index..][1..] == input[index + 1..];
      assert Scanner(parseState, escaped, isWordDone, parsedBuffer, result)
          == Step(before, b, input[index + 1..], specials);
    }
    if parsedBuffer != [] {
      result := result + [parsedBuffer];
    }
  }

  // ---------------------------------------------------------------------
  // What the scan does with each kind of run in the input
  // ---------------------------------------------------------------------

  /** No quote and no backslash: only spaces are special. */
  predicate Unquoted(s: Bytes) {
    forall i | 0 <= i < |s| :: s[i] != SINGLE_QUOTE && s[i] != DOUBLE_QUOTE && s[i] != BACKSLASH
  }

  lemma {:induction false} ScanUnquoted(sc: Scanner, s: Bytes, specials: seq<byte>)
    requires sc.state == Normal && !sc.escaped && Unquoted(s)
    requires sc.wordDone ==> sc.buffer != []
    requires sc.tokens != [] || sc.buffer != [] || s == [] || s[0] != WHITESPACE
    ensures Finish(Scan(sc, s, specials))
         == sc.tokens + (if sc.wordDone then [sc.buffer] + Words(s) else WordsAfter(sc.buffer, s))
    decreases |s|
  {
    if s != [] {
      var next := Step(sc, s[0], s[1..], specials);
      assert Unquoted(s[1..]) by {
        forall i | 0 <= i < |s[1..]| ensures s[1..][i] == s[i + 1] { }
      }
      ScanUnquoted(next, s[1..], specials);
      if sc.wordDone {
        assert sc.tokens + [sc.buffer] + WordsAfter([], s) == sc.tokens + ([sc.buffer] + Words(s));
      }
    }
  }

  /** On a line without quotes or backslashes that does not start with a
      space, the tokens are exactly the words of the line. */
  lemma TokensOfUnquoted(input: Bytes, specials: seq<byte>)
    requires Unquoted(input) && (input == [] || input[0] != WHITESPACE)
    ensures Tokens(input, specials) == Words(input)
  {
    if !AllSpace(input) {
      ScanUnquoted(Start, input, specials);
    }
  }

  /** A space at the very start is not a separator: it is copied into the
      first token (so " echo" gives the single token " echo"). */
  lemma LeadingSpaceKept(t: Bytes, specials: seq<byte>)
    requires Unquoted(t) && !AllSpace(t)
    ensures Tokens([WHITESPACE] + t, specials) == WordsAfter([WHITESPACE], t)
  {
    var input := [WHITESPACE] + t;
    assert input[1..] == t;
    var i :| 0 <= i < |t| && t[i] != WHITESPACE;
    assert input[i + 1] != WHITESPACE;
    assert Step(Start, WHITESPACE, t, specials) == Start.(buffer := [WHITESPACE]);
    assert Scan(Start, input, specials) == Scan(Start.(buffer := [WHITESPACE]), t, specials);
    ScanUnquoted(Start.(buffer := [WHITESPACE]), t, specials);
    assert [] + WordsAfter([WHITESPACE], t) == WordsAfter([WHITESPACE], t);
  }

  /** A non-empty run that is neither a space nor a quote nor a backslash:
      the scan copies it as it is. */
  predicate PlainWord(w: Bytes) {
    w != [] && NoSpace(w) && Unquoted(w)
  }

  /** A line that does not start with a space is tokenized by the loop and
      the final push alone. */
  lemma TokensByScan(input: Bytes, specials: seq<byte>)
    requires input != [] && input[0] != WHITESPACE
    ensures Tokens(input, specials) == Finish(Scan(Start, input, specials))
  {
    assert !AllSpace(input);
  }

  /** A run of bytes that are neither spaces, quotes nor backslashes is
      appended to the word being read. */
  lemma {:induction false} OrdinaryRun(sc: Scanner, w: Bytes, t: Bytes, specials: seq<byte>)
    requires sc.state == Normal && !sc.escaped && !sc.wordDone && NoSpace(w) && Unquoted(w)
    ensures Scan(sc, w + t, specials) == Scan(sc.(buffer := sc.buffer + w), t, specials)
    decreases |w|
  {
    if w == [] {
      assert w + t == t && sc.buffer + w == sc.buffer;
    } else {
      assert (w + t)[0] == w[0] && (w + t)[1..] == w[1..] + t;
      assert NoSpace(w[1..]) && Unquoted(w[1..]) by {
        forall i | 0 <= i < |w[1..]| ensures w[1..][i] == w[i + 1] { }
      }
      OrdinaryRun(sc.(buffer := sc.buffer + [w[0]]), w[1..], t, specials);
      assert sc.buffer + [w[0]] + w[1..] == sc.buffer + w;
    }
  }

  /** The word being read, if any, pushed onto the token list. */
  function Separated(sc: Scanner): Scanner {
    if sc.buffer == [] then sc else sc.(buffer := [], tokens := sc.tokens + [sc.buffer])
  }

  lemma {:induction false} SpacesAfterWord(sc: Scanner, sp: Bytes, t: Bytes, specials: seq<byte>)
    requires sc.state == Normal && !sc.escaped && !sc.wordDone && sc.tokens != [] && sc.buffer == []
    requires AllSpace(sp)
    ensures Scan(sc, sp + t, specials) == Scan(sc, t, specials)
    decreases |sp|
  {
    if sp != [] {
      assert (sp + t)[0] == WHITESPACE && (sp + t)[1..] == sp[1..] + t;
      SpacesAfterWord(sc, sp[1..], t, specials);
    } else {
      assert sp + t == t;
    }
  }

  /** After the first token has begun, a run of spaces ends the word being
      read (if any) and is otherwise skipped: it never makes an empty token.
      The word is pushed at the start of the next iteration, hence `t` is
      not empty. */
  lemma Spaces(sc: Scanner, sp: Bytes, t: Bytes, specials: seq<byte>)
    requires sc.state == Normal && !sc.escaped && !sc.wordDone && (sc.tokens != [] || sc.buffer != [])
    requires sp != [] && AllSpace(sp) && t != []
    ensures Scan(sc, sp + t, specials) == Scan(Separated(sc), t, specials)
  {
    var s := sp + t;
    assert s[0] == WHITESPACE && s[1..] == sp[1..] + t;
    var next := Step(sc, WHITESPACE, s[1..], specials);
    if sc.buffer != [] {
      assert next == sc.(wordDone := true);
      if sp[1..] == [] {
        assert sp[1..] + t == t;
      } else {
        var s1 := sp[1..] + t;
        assert s1[0] == WHITESPACE && s1[1..] == sp[2..] + t;
        assert Step(next, WHITESPACE, s1[1..], specials) == Separated(sc);
        SpacesAfterWord(Separated(sc), sp[2..], t, specials);
      }
    } else {
      SpacesAfterWord(sc, sp[1..], t, specials);
    }
  }

  /** Outside quotes, a backslash is dropped and the byte after it is copied,
      whatever it is. */
  lemma EscapedByte(sc: Scanner, c: byte, t: Bytes, specials: seq<byte>)
    requires sc.state == Normal && !sc.escaped
    ensures Scan(sc, [BACKSLASH, c] + t, specials)
         == Scan(Flush(sc).(buffer := Flush(sc).buffer + [c]), t, specials)
  {
    var s := [BACKSLASH, c] + t;
    assert s[0] == BACKSLASH && s[1..] == [c] + t;
    assert ([c] + t)[0] == c && ([c] + t)[1..] == t;
  }

  lemma {:induction false} InsideSingleQuotes(sc: Scanner, q: Bytes, t: Bytes, specials: seq<byte>)
    requires sc.state == SingleQuote && !sc.wordDone && SINGLE_QUOTE !in q
    ensures Scan(sc, q + [SINGLE_QUOTE] + t, specials)
         == Scan(sc.(state := Normal, buffer := sc.buffer + q), t, specials)
    decreases |q|
  {
    var s := q + [SINGLE_QUOTE] + t;
    if q == [] {
      assert s[0] == SINGLE_QUOTE && s[1..] == t;
      assert sc.buffer + q == sc.buffer;
    } else {
      assert s[0] == q[0] && s[1..] == q[1..] + [SINGLE_QUOTE] + t;
      InsideSingleQuotes(sc.(buffer := sc.buffer + [q[0]]), q[1..], t, specials);
      assert sc.buffer + [q[0]] + q[1..] == sc.buffer + q;
    }
  }

  /** A single quote with another one later opens a quoted run: the bytes up
      to the next single quote are copied verbatim and glued to the word
      being read. */
  lemma SingleQuoted(sc: Scanner, q: Bytes, t: Bytes, specials: seq<byte>)
    requires sc.state == Normal && !sc.escaped && SINGLE_QUOTE !in q
    ensures Scan(sc, [SINGLE_QUOTE] + q + [SINGLE_QUOTE] + t, specials)
         == Scan(Flush(sc).(buffer := Flush(sc).buffer + q), t, specials)
  {
    var s := [SINGLE_QUOTE] + q + [SINGLE_QUOTE] + t;
    assert s[0] == SINGLE_QUOTE && s[1..] == q + [SINGLE_QUOTE] + t;
    assert SINGLE_QUOTE in s[1..] by { assert s[1..][|q|] == SINGLE_QUOTE; }
    InsideSingleQuotes(Flush(sc).(state := SingleQuote), q, t, specials);
  }

  /** A quote byte with no matching quote after it is dropped. */
  lemma UnmatchedQuoteDropped(sc: Scanner, quote: byte, t: Bytes, specials: seq<byte>)
    requires sc.state == Normal && !sc.escaped
    requires quote == SINGLE_QUOTE || quote == DOUBLE_QUOTE
    requires quote !in t
    ensures Scan(sc, [quote] + t, specials) == Scan(Flush(sc), t, specials)
  {
    var s := [quote] + t;
    assert s[0] == quote && s[1..] == t;
  }

  /** Inside double quotes, a backslash and the byte after it add what they
      stand for. */
  lemma DoubleQuotedEscape(sc: Scanner, c: byte, t: Bytes, specials: seq<byte>)
    requires sc.state == DoubleQuote && !sc.escaped && !sc.wordDone
    ensures Scan(sc, [BACKSLASH, c] + t, specials)
         == Scan(sc.(buffer := sc.buffer + EscapedPiece(c, specials)), t, specials)
  {
    var s := [BACKSLASH, c] + t;
    assert s[0] == BACKSLASH && s[1..] == [c] + t;
    assert ([c] + t)[0] == c && ([c] + t)[1..] == t;
  }

  /** Inside double quotes, any byte other than a backslash or a double
      quote is copied. */
  lemma DoubleQuotedByte(sc: Scanner, c: byte, t: Bytes, specials: seq<byte>)
    requires sc.state == DoubleQuote && !sc.escaped && !sc.wordDone
    requires c != BACKSLASH && c != DOUBLE_QUOTE
    ensures Scan(sc, [c] + t, specials) == Scan(sc.(buffer := sc.buffer + [c]), t, specials)
  {
    var s := [c] + t;
    assert s[0] == c && s[1..] == t;
  }

  lemma {:induction false} InsideDoubleQuotes(sc: Scanner, q: Bytes, t: Bytes, specials: seq<byte>)
    requires sc.state == DoubleQuote && !sc.escaped && !sc.wordDone && DoubleQuotedBody(q)
    ensures Scan(sc, q + [DOUBLE_QUOTE] + t, specials)
         == Scan(sc.(state := Normal, buffer := sc.buffer + Unescape(q, specials)), t, specials)
    decreases |q|
  {
    var s := q + [DOUBLE_QUOTE] + t;
    if q == [] {
      assert s[0] == DOUBLE_QUOTE && s[1..] == t;
      assert sc.buffer + [] == sc.buffer;
    } else if q[0] == BACKSLASH {
      var rest := q[2..] + [DOUBLE_QUOTE] + t;
      var piece := EscapedPiece(q[1], specials);
      var u := Unescape(q[2..], specials);
      assert Scan(sc, s, specials) == Scan(sc.(buffer := sc.buffer + piece), rest, specials) by {
        assert s == [BACKSLASH, q[1]] + rest;
        DoubleQuotedEscape(sc, q[1], rest, specials);
      }
      assert sc.buffer + piece + u == sc.buffer + Unescape(q, specials) by {
        assert Unescape(q, specials) == piece + u;
      }
      assert DoubleQuotedBody(q[2..]);
      InsideDoubleQuotes(sc.(buffer := sc.buffer + piece), q[2..], t, specials);
    } else {
      var rest := q[1..] + [DOUBLE_QUOTE] + t;
      var u := Unescape(q[1..], specials);
      assert Scan(sc, s, specials) == Scan(sc.(buffer := sc.buffer + [q[0]]), rest, specials) by {
        assert s == [q[0]] + rest;
        DoubleQuotedByte(sc, q[0], rest, specials);
      }
      assert sc.buffer + [q[0]] + u == sc.buffer + Unescape(q, specials) by {
        assert Unescape(q, specials) == [q[0]] + u;
      }
      assert DoubleQuotedBody(q[1..]);
      InsideDoubleQuotes(sc.(buffer := sc.buffer + [q[0]]), q[1..], t, specials);
    }
  }

  /** A double-quoted run adds what `Unescape` makes of its contents to the
      word being read. */
  lemma DoubleQuoted(sc: Scanner, q: Bytes, t: Bytes, specials: seq<byte>)
    requires sc.state == Normal && !sc.escaped && DoubleQuotedBody(q)
    ensures Scan(sc, [DOUBLE_QUOTE] + q + [DOUBLE_QUOTE] + t, specials)
         == Scan(Flush(sc).(buffer := Flush(sc).buffer + Unescape(q, specials)), t, specials)
  {
    var s := [DOUBLE_QUOTE] + q + [DOUBLE_QUOTE] + t;
    assert s[0] == DOUBLE_QUOTE && s[1..] == q + [DOUBLE_QUOTE] + t;
    assert DOUBLE_QUOTE in s[1..] by { assert s[1..][|q|] == DOUBLE_QUOTE; }
    InsideDoubleQuotes(Flush(sc).(state := DoubleQuote), q, t, specials);
  }
}
