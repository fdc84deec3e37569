/** The five-state tokenizer of src/parse/mod.rs and the three-state one of
    src/parse/parse_args.rs and src/commands/util.rs share every arm except
    the redirection ones, so on a line with no `1`, `2` or `>` the main
    stream of the first is the token list of the second. */
module ScannerAgreement {
  import opened Wrappers
  import opened Bytes
  import Parse
  import ArgsScan
  import ParseArgs

  /** No byte of `s` can start a redirection. */
  predicate NoRedirectBytes(s: Bytes) {
    forall i | 0 <= i < |s| :: s[i] != '1' && s[i] != '2' && s[i] != REDIRECT
  }

  function StateOf(st: ArgsScan.ParseState): Parse.ParseState {
    match st
    case Normal => Parse.Normal
    case SingleQuote => Parse.SingleQuote
    case DoubleQuote => Parse.DoubleQuote
  }

  /** The two scanners are in corresponding states and the five-state one
      has nothing in its redirect stream. */
  predicate Sim(a: Parse.Scanner, b: ArgsScan.Scanner) {
    && a.state == StateOf(b.state)
    && a.escaped == b.escaped
    && a.wordDone == b.wordDone
    && a.buffer == b.buffer
    && a.main == b.tokens
    && a.redirect == []
  }

  /** One byte that cannot start a redirection moves both scanners to
      corresponding states. */
  lemma StepSim(a: Parse.Scanner, b: ArgsScan.Scanner, c: byte, rest: Bytes)
    requires Sim(a, b) && c != '1' && c != '2' && c != REDIRECT
    ensures Sim(Parse.Step(a, c, rest), ArgsScan.Step(b, c, rest, ParseArgs.SPECIAL_CHARS))
  {
  }

  lemma {:induction false} ScanSim(a: Parse.Scanner, b: ArgsScan.Scanner, s: Bytes)
    requires Sim(a, b) && NoRedirectBytes(s)
    ensures Sim(Parse.Scan(a, s), ArgsScan.Scan(b, s, ParseArgs.SPECIAL_CHARS))
    decreases |s|
  {
    if s != [] {
      assert s[0] != '1' && s[0] != '2' && s[0] != REDIRECT;
      StepSim(a, b, s[0], s[1..]);
      assert NoRedirectBytes(s[1..]) by {
        forall i | 0 <= i < |s[1..]| ensures s[1..][i] == s[i + 1] { }
      }
      ScanSim(Parse.Step(a, s[0], s[1..]), ArgsScan.Step(b, s[0], s[1..], ParseArgs.SPECIAL_CHARS), s[1..]);
    }
  }

  /** On a line with no `1`, `2` or `>`, `parse_input` of src/parse/mod.rs
      takes its command and arguments from the token list of the three-state
      tokenizer, and sets no output target. */
  lemma MainStreamIsArgsTokens(input: Bytes)
    requires NoRedirectBytes(input)
    ensures Parse.Streamed(input) == Parse.Streams(ArgsScan.Tokens(input, ParseArgs.SPECIAL_CHARS), [])
            || AllSpace(input)
    ensures Parse.Parsed(input)
         == if AllSpace(input) then Success(Parse.Default)
            else Parse.Assemble(Parse.Streams(ArgsScan.Tokens(input, ParseArgs.SPECIAL_CHARS), []))
  {
    ScanSim(Parse.Start, ArgsScan.Start, input);
  }

  /** On a line with no quote, backslash, `1`, `2` or `>` that does not start
      with a space, the command and arguments are the words of the line. */
  lemma ParsedUnquoted(input: Bytes)
    requires NoRedirectBytes(input) && ArgsScan.Unquoted(input)
    requires input == [] || input[0] != WHITESPACE
    ensures Parse.Parsed(input) == if input == [] then Success(Parse.Default)
                                   else Parse.Assemble(Parse.Streams(Words(input), []))
  {
    MainStreamIsArgsTokens(input);
    ArgsScan.TokensOfUnquoted(input, ParseArgs.SPECIAL_CHARS);
  }

  /** Joining space-free words with single spaces and tokenizing the result
      with the three-state tokenizer gives the words back, when no word holds
      a quote or a backslash. */
  lemma JoinedWordsRetokenize(ws: seq<Bytes>)
    requires forall i | 0 <= i < |ws| :: ws[i] != [] && NoSpace(ws[i])
    requires ArgsScan.Unquoted(Join(ws))
    ensures ArgsScan.Tokens(Join(ws), ParseArgs.SPECIAL_CHARS) == ws
  {
    WordsOfJoin(ws);
    if ws != [] {
      assert Join(ws)[0] == ws[0][0] by { JoinStart(ws); }
      assert ws[0][0] != WHITESPACE by { assert ws[0][0] == ws[0][0]; }
    }
    ArgsScan.TokensOfUnquoted(Join(ws), ParseArgs.SPECIAL_CHARS);
  }
}
