/** src/parse/mod.rs: `parse_input`, the five-state tokenizer that splits a
    line into a command, its arguments and an output-redirection target. */
module Parse {
  import opened Wrappers
  import opened Bytes

  /** `CommandOptions`: `errorout` is declared but never set. */
  datatype CommandOptions = CommandOptions(
    cmd: Option<Bytes>,
    args: Option<seq<Bytes>>,
    output: Option<Bytes>,
    errorout: Option<Bytes>)

  /** `CommandOptions::default()` */
  const Default := CommandOptions(None, None, None, None)

  /** `final_parsed_input[0]` on an empty main stream: the function panics. */
  datatype ParseError = NoCommandToken

  /** The bytes a backslash escapes inside double quotes: `` ` \ " $ `` */
  const SPECIAL_CHARS: seq<byte> := [GRAVE, BACKSLASH, DOUBLE_QUOTE, DOLLAR_SIGN]

  datatype ParseState = Normal | SingleQuote | DoubleQuote | PotentialRedirect | Redirect

  /** The loop variables: `parse_state`, `escaped`, `is_word_done`,
      `parsed_buffer`, and the two token streams `final_parsed_input` (main)
      and `parsed_redirect` (redirect). */
  datatype Scanner = Scanner(
    state: ParseState, escaped: bool, wordDone: bool, buffer: Bytes,
    main: seq<Bytes>, redirect: seq<Bytes>)

  const Start := Scanner(Normal, false, false, [], [], [])

  /** The two token streams once the loop is over. */
  datatype Streams = Streams(main: seq<Bytes>, redirect: seq<Bytes>)

  /** `Vec::pop`, the popped byte discarded: pushing that byte back gives
      the buffer again, and an empty buffer stays empty. */
  function Pop(b: Bytes): (r: Bytes)
    ensures b == [] ==> r == []
    ensures b != [] ==> r + [b[|b| - 1]] == b
  {
    if b == [] then [] else b[..|b| - 1]
  }

  /** The start of each iteration: a word marked done in the previous
      iteration goes to the redirect stream (and the state back to Normal)
      if the state is Redirect, to the main stream otherwise. */
  function Flush(sc: Scanner): (r: Scanner)
    ensures !r.wordDone && r.escaped == sc.escaped
    ensures !sc.wordDone ==> r == sc
    ensures sc.wordDone ==> r.buffer == [] && r.state == (if sc.state == Redirect then Normal else sc.state)
    ensures sc.wordDone && sc.state == Redirect ==> r.main == sc.main && r.redirect == sc.redirect + [sc.buffer]
    ensures sc.wordDone && sc.state != Redirect ==> r.main == sc.main + [sc.buffer] && r.redirect == sc.redirect
  {
    if !sc.wordDone then sc
    else if sc.state == Redirect then
      sc.(state := Normal, wordDone := false, buffer := [], redirect := sc.redirect + [sc.buffer])
    else sc.(wordDone := false, buffer := [], main := sc.main + [sc.buffer])
  }

  /** The `match parse_state` on one byte `c`; `rest` is the input after `c`,
      which the look-ahead for a closing quote searches. */
  function Dispatch(sc: Scanner, c: byte, rest: Bytes): Scanner {
    match sc.state
    case PotentialRedirect =>
      if c == REDIRECT then sc.(buffer := Pop(sc.buffer), state := Redirect)
      else sc.(state := Normal)
    case Redirect =>
      if c == WHITESPACE && sc.buffer != [] then sc.(wordDone := true)
      else if c == WHITESPACE then sc
      else sc.(buffer := sc.buffer + [c])
    case DoubleQuote =>
      if sc.escaped then
        sc.(buffer := sc.buffer + EscapedPiece(c, SPECIAL_CHARS), escaped := false)
      else if c == DOUBLE_QUOTE then sc.(state := Normal)
      else if c == BACKSLASH then sc.(escaped := true)
      else sc.(buffer := sc.buffer + [c])
    case SingleQuote =>
      if c == SINGLE_QUOTE then sc.(state := Normal) else sc.(buffer := sc.buffer + [c])
    case Normal =>
      if sc.escaped then sc.(buffer := sc.buffer + [c], escaped := false)
      else if c == '1' || c == '2' then sc.(buffer := sc.buffer + [c], state := PotentialRedirect)
      else if c == REDIRECT then sc.(state := Redirect)
      else if c == WHITESPACE && sc.buffer != [] then sc.(wordDone := true)
      else if c == WHITESPACE && sc.main != [] then sc
      else if c == BACKSLASH then sc.(escaped := true)
      else if c == SINGLE_QUOTE && SINGLE_QUOTE in rest then sc.(state := SingleQuote)
      else if c == SINGLE_QUOTE then sc
      else if c == DOUBLE_QUOTE && DOUBLE_QUOTE in rest then sc.(state := DoubleQuote)
      else if c == DOUBLE_QUOTE then sc
      else sc.(buffer := sc.buffer + [c])
  }

  /** One iteration of the `for` loop. */
  function Step(sc: Scanner, c: byte, rest: Bytes): Scanner {
    Dispatch(Flush(sc), c, rest)
  }

  /** The loop run over the remaining input `s`. */
  function Scan(sc: Scanner, s: Bytes): Scanner
    decreases |s|
  {
    if s == [] then sc else Scan(Step(sc, s[0], s[1..]), s[1..])
  }

  /** After the loop: a non-empty buffer goes to the redirect stream if the
      state is Redirect, to the main stream otherwise. Nothing pushed before
      is lost, and a word is added exactly when the buffer is non-empty. */
  function Finish(sc: Scanner): (r: Streams)
    ensures sc.main <= r.main && sc.redirect <= r.redirect
    ensures |r.main| + |r.redirect| == |sc.main| + |sc.redirect| + (if sc.buffer == [] then 0 else 1)
    ensures sc.buffer != [] ==> r.main == sc.main + [sc.buffer] || r.redirect == sc.redirect + [sc.buffer]
    ensures sc.buffer != [] ==> (|r.redirect| > |sc.redirect| <==> sc.state == Redirect)
  {
    if sc.buffer == [] then Streams(sc.main, sc.redirect)
    else if sc.state == Redirect then Streams(sc.main, sc.redirect + [sc.buffer])
    else Streams(sc.main + [sc.buffer], sc.redirect)
  }

  /** The token streams of a whole line. */
  function Streamed(input: Bytes): Streams {
    Finish(Scan(Start, input))
  }

  /** No arm of the `match` pushes a token; an arm adds at most two bytes to
      the word, and only the `>` after a `1` or `2` takes one off; a word is
      marked done only when it holds something. */
  lemma DispatchKeepsStreams(sc: Scanner, c: byte, rest: Bytes)
    ensures var r := Dispatch(sc, c, rest);
      && r.main == sc.main && r.redirect == sc.redirect
      && (sc.state != PotentialRedirect ==> sc.buffer <= r.buffer && |r.buffer| <= |sc.buffer| + 2)
      && (sc.state == PotentialRedirect ==> r.buffer == sc.buffer || r.buffer == Pop(sc.buffer))
      && (!sc.wordDone && r.wordDone ==> r.buffer != [])
  {
  }

  /** One iteration only adds to the streams, at most one token between
      them, and that token is the word finished in the iteration before. */
  lemma StepPushesFinishedWord(sc: Scanner, c: byte, rest: Bytes)
    ensures var r := Step(sc, c, rest);
      && sc.main <= r.main && sc.redirect <= r.redirect
      && |r.main| + |r.redirect| <= |sc.main| + |sc.redirect| + 1
      && (|r.main| + |r.redirect| > |sc.main| + |sc.redirect| ==>
            sc.wordDone && (r.main == sc.main + [sc.buffer] || r.redirect == sc.redirect + [sc.buffer]))
  {
    DispatchKeepsStreams(Flush(sc), c, rest);
  }

  /** The loop never loses a token already pushed, and pushes at most one
      per byte. */
  lemma {:induction false} ScanKeepsStreams(sc: Scanner, s: Bytes)
    ensures var r := Scan(sc, s);
      && sc.main <= r.main && sc.redirect <= r.redirect
      && |r.main| + |r.redirect| <= |sc.main| + |sc.redirect| + |s|
    decreases |s|
  {
    if s != [] {
      var next := Step(sc, s[0], s[1..]);
      StepPushesFinishedWord(sc, s[0], s[1..]);
      ScanKeepsStreams(next, s[1..]);
    }
  }

  /** Every token in either stream is non-empty, and a word is marked done
      only when the buffer holds something. */
  predicate Good(sc: Scanner) {
    && (sc.wordDone ==> sc.buffer != [])
    && (forall i | 0 <= i < |sc.main| :: sc.main[i] != [])
    && (forall i | 0 <= i < |sc.redirect| :: sc.redirect[i] != [])
  }

  lemma {:induction false} ScanKeepsGood(sc: Scanner, s: Bytes)
    requires Good(sc)
    ensures Good(Scan(sc, s))
    decreases |s|
  {
    if s != [] {
      ScanKeepsGood(Step(sc, s[0], s[1..]), s[1..]);
    }
  }

  /** No token either stream receives is empty. */
  lemma StreamedTokensNonEmpty(input: Bytes)
    ensures forall i | 0 <= i < |Streamed(input).main| :: Streamed(input).main[i] != []
    ensures forall i | 0 <= i < |Streamed(input).redirect| :: Streamed(input).redirect[i] != []
  {
    ScanKeepsGood(Start, input);
  }

  /** The `CommandOptions` literal at the end: the first main token is the
      command, the others (if any) the arguments, the first redirect token,
      trimmed, the output target. */
  function Assemble(st: Streams): (r: Result<CommandOptions, ParseError>)
    ensures r.Failure? <==> st.main == []
    ensures r.Success? ==> r.value.cmd.Some? && r.value.errorout.None?
    ensures r.Success? ==>
      [r.value.cmd.value] + r.value.args.GetOr([]) == st.main && (r.value.args.Some? ==> r.value.args.value != [])
    ensures r.Success? ==> (r.value.output.Some? <==> st.redirect != [])
    ensures r.Success? && r.value.output.Some? ==>
      && Framed(st.redirect[0], |st.redirect[0]| - |TrimStart(st.redirect[0])|, r.value.output.value)
      && !StartsWithWhitespace(r.value.output.value) && !EndsWithWhitespace(r.value.output.value)
  {
    if st.main == [] then Failure(NoCommandToken)
    else Success(CommandOptions(
      Some(st.main[0]),
      if |st.main| > 1 then Some(st.main[1..]) else None,
      if st.redirect == [] then None else Some(Trim(st.redirect[0])),
      None))
  }

  /** What `parse_input` returns for `input`, or the panic it hits.
      The command is absent exactly for a line of spaces; no token is empty;
      an argument list is never present and empty; the output target has no
      surrounding whitespace; `errorout` is never set. */
  function Parsed(input: Bytes): (r: Result<CommandOptions, ParseError>)
    ensures (r.Success? && r.value.cmd.None?) <==> AllSpace(input)
    ensures r.Success? ==> r.value.errorout.None?
    ensures r.Success? && r.value.cmd.Some? ==> r.value.cmd.value != []
    ensures r.Success? && r.value.args.Some? ==>
      r.value.args.value != [] && forall i | 0 <= i < |r.value.args.value| :: r.value.args.value[i] != []
    ensures r.Success? && r.value.output.Some? ==>
      !StartsWithWhitespace(r.value.output.value) && !EndsWithWhitespace(r.value.output.value)
  {
    if AllSpace(input) then Success(Default)
    else
      StreamedTokensNonEmpty(input);
      Assemble(Streamed(input))
  }

  method ParseInput(input: Bytes) returns (r: Result<CommandOptions, ParseError>)
    ensures r == Parsed(input)
  {
    if AllSpace(input) {
      return Success(Default);
    }
    var parsedBuffer: Bytes := [];
    var parseState := Normal;
    var escaped := false;
    var isWordDone := false;
    var finalParsedInput: seq<Bytes> := [];
    var parsedRedirect: seq<Bytes> := [];
    for index := 0 to |input|
      invariant Scan(Scanner(parseState, escaped, isWordDone, parsedBuffer, finalParsedInput, parsedRedirect), input[index..])
             == Scan(Start, input)
    {
      ghost var before := Scanner(parseState, escaped, isWordDone, parsedBuffer, finalParsedInput, parsedRedirect);
      var b := input[index];
      if isWordDone {
        if parseState == Redirect {
          parsedRedirect := parsedRedirect + [parsedBuffer];
          parseState := Normal;
        } else {
          finalParsedInput := finalParsedInput + [parsedBuffer];
        }
        parsedBuffer := [];
        isWordDone := false;
      }
      match parseState {
        case PotentialRedirect =>
          if b == REDIRECT {
            // it was a redirect after all: the digit comes off the buffer
            if parsedBuffer != [] {
              parsedBuffer := parsedBuffer[..|parsedBuffer| - 1];
            }
            parseState := Redirect;
          } else {
            parseState := Normal;
          }
        case Redirect =>
          if b == WHITESPACE && parsedBuffer != [] {
            isWordDone := true;
          } else if b == WHITESPACE {
            // skipped
          } else {
            parsedBuffer := parsedBuffer + [b];
          }
        case DoubleQuote =>
          if escaped {
            if b !in SPECIAL_CHARS {
              parsedBuffer := parsedBuffer + [BACKSLASH];
            }
            parsedBuffer := parsedBuffer + [b];
            escaped := false;
          } else if b == DOUBLE_QUOTE {
            parseState := Normal;
          } else if b == BACKSLASH {
            escaped := true;
          } else {
            parsedBuffer := parsedBuffer + [b];
          }
        case SingleQuote =>
          if b == SINGLE_QUOTE {
            parseState := Normal;
          } else {
            parsedBuffer := parsedBuffer + [b];
          }
        case Normal =>
          if escaped {
            parsedBuffer := parsedBuffer + [b];
            escaped := false;
          } else if b == '1' || b == '2' {
            // popped again at the next byte if it is a `>`
            parsedBuffer := parsedBuffer + [b];
            parseState := PotentialRedirect;
          } else if b == REDIRECT {
            parseState := Redirect;
          } else if b == WHITESPACE && parsedBuffer != [] {
            isWordDone := true;
          } else if b == WHITESPACE && finalParsedInput != [] {
            // skipped
          } else if b == BACKSLASH {
            escaped := true;
          } else if b == SINGLE_QUOTE && SINGLE_QUOTE in input[index + 1..] {
            parseState := SingleQuote;
          } else if b == SINGLE_QUOTE {
            // an unmatched quote is dropped
          } else if b == DOUBLE_QUOTE && DOUBLE_QUOTE in input[index + 1..] {
            parseState := DoubleQuote;
          } else if b == DOUBLE_QUOTE {
            // an unmatched quote is dropped
          } else {
            parsedBuffer := parsedBuffer + [b];
          }
      }
      assert input[index..][0] == b && input[index..][1..] == input[index + 1..];
      assert Scanner(parseState, escaped, isWordDone, parsedBuffer, finalParsedInput, parsedRedirect)
          == Step(before, b, input[index + 1..]);
    }
    if parsedBuffer != [] {
      if parseState == Redirect {
        parsedRedirect := parsedRedirect + [parsedBuffer];
      } else {
        finalParsedInput := finalParsedInput + [parsedBuffer];
      }
    }
    if finalParsedInput == [] {
      return Failure(NoCommandToken);
    }
    r := Success(CommandOptions(
      Some(finalParsedInput[0]),
      if |finalParsedInput| > 1 then Some(finalParsedInput[1..]) else None,
      if parsedRedirect == [] then None else Some(Trim(parsedRedirect[0])),
      None));
  }

  // ---------------------------------------------------------------------
  // What the scan does with each kind of run in the input
  // ---------------------------------------------------------------------

  /** A byte that, in Normal state, is simply copied into the word. */
  predicate Ordinary(c: byte) {
    c != WHITESPACE && c != SINGLE_QUOTE && c != DOUBLE_QUOTE && c != BACKSLASH
    && c != '1' && c != '2' && c != REDIRECT
  }

  /** A word the scan copies as it is: nonempty, and made of bytes with no
      special meaning outside quotes. */
  predicate PlainWord(w: Bytes) {
    w != [] && forall k | 0 <= k < |w| :: Ordinary(w[k])
  }

  /** A word marked done is pushed at the start of the next iteration, so
      pushing it earlier changes nothing that follows. */
  lemma FlushEarly(sc: Scanner, t: Bytes)
    requires t != []
    ensures Scan(sc, t) == Scan(Flush(sc), t)
  {
  }

  /** A run of ordinary bytes is appended to the word being read. */
  lemma {:induction false} OrdinaryRun(sc: Scanner, w: Bytes, t: Bytes)
    requires sc.state == Normal && !sc.escaped && !sc.wordDone
    requires forall i | 0 <= i < |w| :: Ordinary(w[i])
    ensures Scan(sc, w + t) == Scan(sc.(buffer := sc.buffer + w), t)
    decreases |w|
  {
    if w == [] {
      assert w + t == t && sc.buffer + w == sc.buffer;
    } else {
      assert (w + t)[0] == w[0] && (w + t)[1..] == w[1..] + t;
      OrdinaryRun(sc.(buffer := sc.buffer + [w[0]]), w[1..], t);
      assert sc.buffer + [w[0]] + w[1..] == sc.buffer + w;
    }
  }

  /** The word being read, if any, moved to the main stream. */
  function Separated(sc: Scanner): Scanner {
    if sc.buffer == [] then sc else sc.(buffer := [], main := sc.main + [sc.buffer])
  }

  lemma {:induction false} SpacesAfterWord(sc: Scanner, sp: Bytes, t: Bytes)
    requires sc.state == Normal && !sc.escaped && !sc.wordDone && sc.main != [] && sc.buffer == []
    requires AllSpace(sp)
    ensures Scan(sc, sp + t) == Scan(sc, t)
    decreases |sp|
  {
    if sp != [] {
      assert (sp + t)[0] == WHITESPACE && (sp + t)[1..] == sp[1..] + t;
      SpacesAfterWord(sc, sp[1..], t);
    } else {
      assert sp + t == t;
    }
  }

  /** Between words, a run of spaces ends the word being read (if any) and
      is otherwise skipped: it never makes an empty token. */
  lemma Spaces(sc: Scanner, sp: Bytes, t: Bytes)
    requires sc.state == Normal && !sc.escaped && !sc.wordDone && (sc.main != [] || sc.buffer != [])
    requires sp != [] && AllSpace(sp) && t != []
    ensures Scan(sc, sp + t) == Scan(Separated(sc), t)
  {
    var s := sp + t;
    assert s[0] == WHITESPACE && s[1..] == sp[1..] + t;
    var next := Step(sc, WHITESPACE, s[1..]);
    if sc.buffer != [] {
      assert next == sc.(wordDone := true);
      if sp[1..] == [] {
        assert sp[1..] + t == t;
      } else {
        var s1 := sp[1..] + t;
        assert s1[0] == WHITESPACE && s1[1..] == sp[2..] + t;
        assert Step(next, WHITESPACE, s1[1..]) == Separated(sc);
        SpacesAfterWord(Separated(sc), sp[2..], t);
      }
    } else {
      SpacesAfterWord(sc, sp[1..], t);
    }
  }

  /** A space before anything has been read is not a separator: it is
      copied into the first token. */
  lemma LeadingSpaceCopied(sc: Scanner, t: Bytes)
    requires sc.state == Normal && !sc.escaped && !sc.wordDone && sc.main == [] && sc.buffer == []
    ensures Scan(sc, [WHITESPACE] + t) == Scan(sc.(buffer := [WHITESPACE]), t)
  {
    var s := [WHITESPACE] + t;
    assert s[0] == WHITESPACE && s[1..] == t;
    assert Step(sc, WHITESPACE, t) == sc.(buffer := [WHITESPACE]);
  }

  /** Outside quotes, a backslash is dropped and the byte after it is copied,
      whatever it is (a space, a quote, a digit, `>`). */
  lemma EscapedByte(sc: Scanner, c: byte, t: Bytes)
    requires sc.state == Normal && !sc.escaped
    ensures Scan(sc, [BACKSLASH, c] + t) == Scan(Flush(sc).(buffer := Flush(sc).buffer + [c]), t)
  {
    var s := [BACKSLASH, c] + t;
    assert s[0] == BACKSLASH && s[1..] == [c] + t;
    assert ([c] + t)[0] == c && ([c] + t)[1..] == t;
  }

  lemma {:induction false} InsideSingleQuotes(sc: Scanner, q: Bytes, t: Bytes)
    requires sc.state == SingleQuote && !sc.wordDone && SINGLE_QUOTE !in q
    ensures Scan(sc, q + [SINGLE_QUOTE] + t) == Scan(sc.(state := Normal, buffer := sc.buffer + q), t)
    decreases |q|
  {
    var s := q + [SINGLE_QUOTE] + t;
    if q == [] {
      assert s[0] == SINGLE_QUOTE && s[1..] == t;
      assert sc.buffer + q == sc.buffer;
    } else {
      assert s[0] == q[0] && s[1..] == q[1..] + [SINGLE_QUOTE] + t;
      InsideSingleQuotes(sc.(buffer := sc.buffer + [q[0]]), q[1..], t);
      assert sc.buffer + [q[0]] + q[1..] == sc.buffer + q;
    }
  }

  /** A single quote with another one later opens a quoted run: the bytes up
      to the next single quote are copied verbatim (spaces, backslashes,
      digits and `>` included) and glued to the word being read. */
  lemma SingleQuoted(sc: Scanner, q: Bytes, t: Bytes)
    requires sc.state == Normal && !sc.escaped && SINGLE_QUOTE !in q
    ensures Scan(sc, [SINGLE_QUOTE] + q + [SINGLE_QUOTE] + t)
         == Scan(Flush(sc).(buffer := Flush(sc).buffer + q), t)
  {
    var s := [SINGLE_QUOTE] + q + [SINGLE_QUOTE] + t;
    assert s[0] == SINGLE_QUOTE && s[1..] == q + [SINGLE_QUOTE] + t;
    assert SINGLE_QUOTE in s[1..] by { assert s[1..][|q|] == SINGLE_QUOTE; }
    InsideSingleQuotes(Flush(sc).(state := SingleQuote), q, t);
  }

  /** A quote byte with no matching quote after it is dropped. */
  lemma UnmatchedQuoteDropped(sc: Scanner, quote: byte, t: Bytes)
    requires sc.state == Normal && !sc.escaped
    requires quote == SINGLE_QUOTE || quote == DOUBLE_QUOTE
    requires quote !in t
    ensures Scan(sc, [quote] + t) == Scan(Flush(sc), t)
  {
    var s := [quote] + t;
    assert s[0] == quote && s[1..] == t;
  }

  /** Inside double quotes, a backslash and the byte after it add what they
      stand for. */
  lemma DoubleQuotedEscape(sc: Scanner, c: byte, t: Bytes)
    requires sc.state == DoubleQuote && !sc.escaped && !sc.wordDone
    ensures Scan(sc, [BACKSLASH, c] + t)
         == Scan(sc.(buffer := sc.buffer + EscapedPiece(c, SPECIAL_CHARS)), t)
  {
    var s := [BACKSLASH, c] + t;
    assert s[0] == BACKSLASH && s[1..] == [c] + t;
    assert ([c] + t)[0] == c && ([c] + t)[1..] == t;
  }

  /** Inside double quotes, any byte other than a backslash or a double
      quote is copied. */
  lemma DoubleQuotedByte(sc: Scanner, c: byte, t: Bytes)
    requires sc.state == DoubleQuote && !sc.escaped && !sc.wordDone
    requires c != BACKSLASH && c != DOUBLE_QUOTE
    ensures Scan(sc, [c] + t) == Scan(sc.(buffer := sc.buffer + [c]), t)
  {
    var s := [c] + t;
    assert s[0] == c && s[1..] == t;
  }

  lemma {:induction false} InsideDoubleQuotes(sc: Scanner, q: Bytes, t: Bytes)
    requires sc.state == DoubleQuote && !sc.escaped && !sc.wordDone && DoubleQuotedBody(q)
    ensures Scan(sc, q + [DOUBLE_QUOTE] + t)
         == Scan(sc.(state := Normal, buffer := sc.buffer + Unescape(q, SPECIAL_CHARS)), t)
    decreases |q|
  {
    var s := q + [DOUBLE_QUOTE] + t;
    if q == [] {
      assert s[0] == DOUBLE_QUOTE && s[1..] == t;
      assert sc.buffer + [] == sc.buffer;
    } else if q[0] == BACKSLASH {
      var rest := q[2..] + [DOUBLE_QUOTE] + t;
      var piece := EscapedPiece(q[1], SPECIAL_CHARS);
      var u := Unescape(q[2..], SPECIAL_CHARS);
      assert Scan(sc, s) == Scan(sc.(buffer := sc.buffer + piece), rest) by {
        assert s == [BACKSLASH, q[1]] + rest;
        DoubleQuotedEscape(sc, q[1], rest);
      }
      assert sc.buffer + piece + u == sc.buffer + Unescape(q, SPECIAL_CHARS) by {
        assert Unescape(q, SPECIAL_CHARS) == piece + u;
      }
      assert DoubleQuotedBody(q[2..]);
      InsideDoubleQuotes(sc.(buffer := sc.buffer + piece), q[2..], t);
    } else {
      var rest := q[1..] + [DOUBLE_QUOTE] + t;
      var u := Unescape(q[1..], SPECIAL_CHARS);
      assert Scan(sc, s) == Scan(sc.(buffer := sc.buffer + [q[0]]), rest) by {
        assert s == [q[0]] + rest;
        DoubleQuotedByte(sc, q[0], rest);
      }
      assert sc.buffer + [q[0]] + u == sc.buffer + Unescape(q, SPECIAL_CHARS) by {
        assert Unescape(q, SPECIAL_CHARS) == [q[0]] + u;
      }
      assert DoubleQuotedBody(q[1..]);
      InsideDoubleQuotes(sc.(buffer := sc.buffer + [q[0]]), q[1..], t);
    }
  }

  /** A double-quoted run adds what `Unescape` makes of its contents to the
      word being read. */
  lemma DoubleQuoted(sc: Scanner, q: Bytes, t: Bytes)
    requires sc.state == Normal && !sc.escaped && DoubleQuotedBody(q)
    ensures Scan(sc, [DOUBLE_QUOTE] + q + [DOUBLE_QUOTE] + t)
         == Scan(Flush(sc).(buffer := Flush(sc).buffer + Unescape(q, SPECIAL_CHARS)), t)
  {
    var s := [DOUBLE_QUOTE] + q + [DOUBLE_QUOTE] + t;
    assert s[0] == DOUBLE_QUOTE && s[1..] == q + [DOUBLE_QUOTE] + t;
    assert DOUBLE_QUOTE in s[1..] by { assert s[1..][|q|] == DOUBLE_QUOTE; }
    InsideDoubleQuotes(Flush(sc).(state := DoubleQuote), q, t);
  }

  /** A `1` or `2` not followed by `>` stays in the word, and the byte right
      after it is consumed without being copied. */
  lemma DigitKept(sc: Scanner, d: byte, c: byte, t: Bytes)
    requires sc.state == Normal && !sc.escaped && (d == '1' || d == '2') && c != REDIRECT
    ensures Scan(sc, [d, c] + t) == Scan(Flush(sc).(buffer := Flush(sc).buffer + [d]), t)
  {
    var s := [d, c] + t;
    assert s[0] == d && s[1..] == [c] + t;
    assert ([c] + t)[0] == c && ([c] + t)[1..] == t;
  }

  /** `1>` and `2>` both start an output redirection: the digit is taken
      back off the word and the state becomes Redirect. */
  lemma DigitRedirect(sc: Scanner, d: byte, t: Bytes)
    requires sc.state == Normal && !sc.escaped && (d == '1' || d == '2')
    ensures Scan(sc, [d, REDIRECT] + t) == Scan(Flush(sc).(state := Redirect), t)
  {
    var s := [d, REDIRECT] + t;
    assert s[0] == d && s[1..] == [REDIRECT] + t;
    assert ([REDIRECT] + t)[0] == REDIRECT && ([REDIRECT] + t)[1..] == t;
    assert Pop(Flush(sc).buffer + [d]) == Flush(sc).buffer;
  }

  /** `>` starts an output redirection without ending the word being read:
      bytes glued before it become the start of the redirect target. */
  lemma RedirectKeepsBuffer(sc: Scanner, t: Bytes)
    requires sc.state == Normal && !sc.escaped
    ensures Scan(sc, [REDIRECT] + t) == Scan(Flush(sc).(state := Redirect), t)
  {
    var s := [REDIRECT] + t;
    assert s[0] == REDIRECT && s[1..] == t;
  }

  lemma {:induction false} RedirectSpacesSkipped(sc: Scanner, sp: Bytes, t: Bytes)
    requires sc.state == Redirect && !sc.wordDone && sc.buffer == [] && AllSpace(sp)
    ensures Scan(sc, sp + t) == Scan(sc, t)
    decreases |sp|
  {
    if sp == [] {
      assert sp + t == t;
    } else {
      assert (sp + t)[0] == WHITESPACE && (sp + t)[1..] == sp[1..] + t;
      RedirectSpacesSkipped(sc, sp[1..], t);
    }
  }

  lemma {:induction false} RedirectRun(sc: Scanner, w: Bytes, t: Bytes)
    requires sc.state == Redirect && !sc.wordDone && NoSpace(w)
    ensures Scan(sc, w + t) == Scan(sc.(buffer := sc.buffer + w), t)
    decreases |w|
  {
    if w == [] {
      assert w + t == t && sc.buffer + w == sc.buffer;
    } else {
      assert (w + t)[0] == w[0] && (w + t)[1..] == w[1..] + t;
      RedirectRun(sc.(buffer := sc.buffer + [w[0]]), w[1..], t);
      assert sc.buffer + [w[0]] + w[1..] == sc.buffer + w;
    }
  }

  /** The redirect target: after `>`, spaces are skipped, then every byte up
      to the next space (quotes and backslashes included) is collected, and
      the target goes to the redirect stream with the state back to Normal. */
  lemma RedirectTarget(sc: Scanner, sp: Bytes, w: Bytes, t: Bytes)
    requires sc.state == Redirect && !sc.wordDone && sc.buffer == []
    requires AllSpace(sp) && w != [] && NoSpace(w) && t != []
    ensures Scan(sc, sp + w + [WHITESPACE] + t)
         == Scan(sc.(state := Normal, redirect := sc.redirect + [w]), t)
  {
    assert sp + w + [WHITESPACE] + t == sp + (w + ([WHITESPACE] + t));
    RedirectSpacesSkipped(sc, sp, w + ([WHITESPACE] + t));
    RedirectRun(sc, w, [WHITESPACE] + t);
    assert sc.buffer + w == w;
    var s := [WHITESPACE] + t;
    assert s[0] == WHITESPACE && s[1..] == t;
    var marked := sc.(buffer := w, wordDone := true);
    assert Step(sc.(buffer := w), WHITESPACE, t) == marked;
    FlushEarly(marked, t);
  }

  /** The same target at the end of the line. */
  lemma RedirectTargetAtEnd(sc: Scanner, sp: Bytes, w: Bytes)
    requires sc.state == Redirect && !sc.wordDone && sc.buffer == []
    requires AllSpace(sp) && w != [] && NoSpace(w)
    ensures Finish(Scan(sc, sp + w)) == Streams(sc.main, sc.redirect + [w])
  {
    RedirectSpacesSkipped(sc, sp, w);
    assert w == w + [];
    RedirectRun(sc, w, []);
    assert sc.buffer + w == w;
  }
}
