/** The unit tests of src/parse/mod.rs, src/parse/parse_args.rs and
    src/commands/util.rs, proved of the model. Each lemma receives the pieces
    of the test's line as parameters equal to literals, states what
    `parse_input` and the three-state tokenizer make of the line they form,
    and obtains it from the general shape of that line in LineShapes. */
module TokenizerExamples {
  import opened Wrappers
  import opened Bytes
  import opened Parse
  import ArgsScan
  import ParseArgs
  import opened LineShapes

  /** Lower-case letters, dots and spaces: the bytes the tests' text is made
      of. */
  predicate Text(s: Bytes) {
    forall k | 0 <= k < |s| :: s[k] == WHITESPACE || s[k] == '.' || 'a' <= s[k] <= 'z'
  }

  /** Text holds no quote and no backslash. */
  lemma TextFacts(s: Bytes)
    requires Text(s)
    ensures SINGLE_QUOTE !in s && DOUBLE_QUOTE !in s && BACKSLASH !in s
  {
  }

  /** Text with no space is a plain word for both scans. */
  lemma WordFacts(s: Bytes)
    requires s != [] && Text(s) && NoSpace(s)
    ensures PlainWord(s) && ArgsScan.PlainWord(s)
  {
  }

  // ---------------------------------------------------------------------
  // Unquoted lines
  // ---------------------------------------------------------------------

  /** `test\ \ \ `: escaped spaces stay in the command. */
  lemma EscapedSpaces(w: Bytes)
    requires w == "test"
    ensures Parsed(w + ([BACKSLASH, WHITESPACE] + ([BACKSLASH, WHITESPACE] + [BACKSLASH, WHITESPACE])))
         == Success(CommandOptions(Some("test   "), None, None, None))
    ensures ArgsScan.Tokens(w + ([BACKSLASH, WHITESPACE] + ([BACKSLASH, WHITESPACE] + [BACKSLASH, WHITESPACE])),
                            ParseArgs.SPECIAL_CHARS) == ["test   "]
  {
    WordFacts(w);
    assert w + [WHITESPACE, WHITESPACE, WHITESPACE] == "test   ";
    EscapedBytesKept(w, WHITESPACE);
    EscapedBytesKeptTokens(w, WHITESPACE);
  }

  /** `test\'\'\'`: escaped single quotes are copied, not matched. */
  lemma EscapedSingleQuotes(w: Bytes)
    requires w == "test"
    ensures Parsed(w + ([BACKSLASH, SINGLE_QUOTE] + ([BACKSLASH, SINGLE_QUOTE] + [BACKSLASH, SINGLE_QUOTE])))
         == Success(CommandOptions(Some("test'''"), None, None, None))
    ensures ArgsScan.Tokens(w + ([BACKSLASH, SINGLE_QUOTE] + ([BACKSLASH, SINGLE_QUOTE] + [BACKSLASH, SINGLE_QUOTE])),
                            ParseArgs.SPECIAL_CHARS) == ["test'''"]
  {
    WordFacts(w);
    assert w + [SINGLE_QUOTE, SINGLE_QUOTE, SINGLE_QUOTE] == "test'''";
    EscapedBytesKept(w, SINGLE_QUOTE);
    EscapedBytesKeptTokens(w, SINGLE_QUOTE);
  }

  // ---------------------------------------------------------------------
  // Single quotes
  // ---------------------------------------------------------------------

  /** `'hellooooo    '      test`: spaces inside quotes are kept, spaces
      outside separate. */
  lemma QuotedCommandThenWord(q: Bytes, sp: Bytes, w: Bytes)
    requires q == "hellooooo    " && sp == "      " && w == "test"
    ensures Parsed([SINGLE_QUOTE] + (q + ([SINGLE_QUOTE] + (sp + w))))
         == Success(CommandOptions(Some("hellooooo    "), Some(["test"]), None, None))
    ensures ArgsScan.Tokens([SINGLE_QUOTE] + (q + ([SINGLE_QUOTE] + (sp + w))), ParseArgs.SPECIAL_CHARS)
         == ["hellooooo    ", "test"]
  {
    TextFacts(q);
    WordFacts(w);
    QuotedThenWord(q, sp, w);
    QuotedThenWordTokens(q, sp, w);
  }

  /** `'hello''test'`: quoted runs with nothing between them are one word. */
  lemma AdjacentQuotedRuns(a: Bytes, b: Bytes)
    requires a == "hello" && b == "test"
    ensures Parsed([SINGLE_QUOTE] + (a + ([SINGLE_QUOTE] + ([SINGLE_QUOTE] + (b + [SINGLE_QUOTE])))))
         == Success(CommandOptions(Some("hellotest"), None, None, None))
    ensures ArgsScan.Tokens([SINGLE_QUOTE] + (a + ([SINGLE_QUOTE] + ([SINGLE_QUOTE] + (b + [SINGLE_QUOTE])))),
                            ParseArgs.SPECIAL_CHARS) == ["hellotest"]
  {
    TextFacts(a);
    TextFacts(b);
    assert a + b == "hellotest";
    AdjacentQuoted(a, b);
    AdjacentQuotedTokens(a, b);
  }

  /** `'hello'`, `'hello world'` and `'hello   '`: a quoted run alone is the
      command, with its spaces. */
  lemma SingleQuotedCommand(q: Bytes)
    requires q == "hello" || q == "hello world" || q == "hello   "
    ensures Parsed([SINGLE_QUOTE] + (q + [SINGLE_QUOTE])) == Success(CommandOptions(Some(q), None, None, None))
    ensures ArgsScan.Tokens([SINGLE_QUOTE] + (q + [SINGLE_QUOTE]), ParseArgs.SPECIAL_CHARS) == [q]
  {
    TextFacts(q);
    QuotedWord(q);
    QuotedWordTokens(q);
  }

  /** `'hello's`: a byte right after the closing quote continues the word. */
  lemma QuotedThenGluedByte(a: Bytes, w: Bytes)
    requires a == "hello" && w == "s"
    ensures Parsed([SINGLE_QUOTE] + (a + ([SINGLE_QUOTE] + w))) == Success(CommandOptions(Some("hellos"), None, None, None))
    ensures ArgsScan.Tokens([SINGLE_QUOTE] + (a + ([SINGLE_QUOTE] + w)), ParseArgs.SPECIAL_CHARS) == ["hellos"]
  {
    TextFacts(a);
    WordFacts(w);
    assert a + w == "hellos";
    QuotedGluedWord(a, w);
    QuotedGluedWordTokens(a, w);
  }

  /** `'hello  's'test  t'`: quoted, unquoted and quoted runs glued together
      are one word. */
  lemma QuotedUnquotedQuoted(a: Bytes, w: Bytes, b: Bytes)
    requires a == "hello  " && w == "s" && b == "test  t"
    ensures Parsed([SINGLE_QUOTE] + (a + ([SINGLE_QUOTE] + (w + ([SINGLE_QUOTE] + (b + [SINGLE_QUOTE]))))))
         == Success(CommandOptions(Some("hello  stest  t"), None, None, None))
    ensures ArgsScan.Tokens([SINGLE_QUOTE] + (a + ([SINGLE_QUOTE] + (w + ([SINGLE_QUOTE] + (b + [SINGLE_QUOTE]))))),
                            ParseArgs.SPECIAL_CHARS) == ["hello  stest  t"]
  {
    TextFacts(a);
    WordFacts(w);
    TextFacts(b);
    assert a + w + b == "hello  stest  t";
    QuotedWordQuoted(a, w, b);
    QuotedWordQuotedTokens(a, w, b);
  }

  /** `'hellooo' s 'again   t'`: a quoted argument keeps its spaces. */
  lemma QuotedArgumentWithSpaces(a: Bytes, sp: Bytes, w: Bytes, c: Bytes)
    requires a == "hellooo" && sp == " " && w == "s" && c == "again   t"
    ensures Parsed([SINGLE_QUOTE] + (a + ([SINGLE_QUOTE] + (sp + (w + (sp + ([SINGLE_QUOTE] + (c + [SINGLE_QUOTE]))))))))
         == Success(CommandOptions(Some("hellooo"), Some(["s", "again   t"]), None, None))
    ensures ArgsScan.Tokens([SINGLE_QUOTE] + (a + ([SINGLE_QUOTE] + (sp + (w + (sp + ([SINGLE_QUOTE] + (c + [SINGLE_QUOTE]))))))),
                            ParseArgs.SPECIAL_CHARS) == ["hellooo", "s", "again   t"]
  {
    TextFacts(a);
    WordFacts(w);
    TextFacts(c);
    QuotedArguments(a, sp, w, sp, c);
    QuotedArgumentsTokens(a, sp, w, sp, c);
  }

  /** `'hellooo' s 'again   t`: the unmatched quote is dropped and the rest
      of the line is split on spaces. */
  lemma UnmatchedSingleQuote(a: Bytes, sp: Bytes, w: Bytes, c: Bytes, sp3: Bytes, d: Bytes)
    requires a == "hellooo" && sp == " " && w == "s" && c == "again" && sp3 == "   " && d == "t"
    ensures Parsed([SINGLE_QUOTE] + (a + ([SINGLE_QUOTE] + (sp + (w + (sp + ([SINGLE_QUOTE] + (c + (sp3 + d)))))))))
         == Success(CommandOptions(Some("hellooo"), Some(["s", "again", "t"]), None, None))
    ensures ArgsScan.Tokens([SINGLE_QUOTE] + (a + ([SINGLE_QUOTE] + (sp + (w + (sp + ([SINGLE_QUOTE] + (c + (sp3 + d)))))))),
                            ParseArgs.SPECIAL_CHARS) == ["hellooo", "s", "again", "t"]
  {
    TextFacts(a);
    WordFacts(w);
    WordFacts(c);
    WordFacts(d);
    UnmatchedQuoteArguments(a, sp, w, sp, c, sp3, d);
    UnmatchedQuoteArgumentsTokens(a, sp, w, sp, c, sp3, d);
  }

  // ---------------------------------------------------------------------
  // Double quotes
  // ---------------------------------------------------------------------

  /** `"\"hellooo\""`, `"\"hellooo test\""` and `"\"hellooo' test\""`:
      escaped double quotes are kept, the backslashes dropped, and spaces and
      single quotes inside are copied. */
  lemma EscapedDoubleQuotes(a: Bytes)
    requires a == "hellooo" || a == "hellooo test" || a == "hellooo' test"
    ensures Parsed([DOUBLE_QUOTE] + (([BACKSLASH, DOUBLE_QUOTE] + (a + [BACKSLASH, DOUBLE_QUOTE])) + [DOUBLE_QUOTE]))
         == Success(CommandOptions(Some([DOUBLE_QUOTE] + (a + [DOUBLE_QUOTE])), None, None, None))
    ensures ArgsScan.Tokens([DOUBLE_QUOTE] + (([BACKSLASH, DOUBLE_QUOTE] + (a + [BACKSLASH, DOUBLE_QUOTE])) + [DOUBLE_QUOTE]),
                            ParseArgs.SPECIAL_CHARS) == [[DOUBLE_QUOTE] + (a + [DOUBLE_QUOTE])]
  {
    var quote: Bytes := [BACKSLASH, DOUBLE_QUOTE];
    assert BACKSLASH !in a && DOUBLE_QUOTE !in a by {
      if a == "hellooo' test" {
        assert forall k | 0 <= k < |a| :: a[k] == SINGLE_QUOTE || a[k] == WHITESPACE || 'a' <= a[k] <= 'z';
      } else {
        TextFacts(a);
      }
    }
    EscapedQuotesAround(a);
    assert ParseArgs.SPECIAL_CHARS == SPECIAL_CHARS;
    DoubleQuotedWord(quote + (a + quote));
    DoubleQuotedWordTokens(quote + (a + quote));
  }

  /** The body of the line `"\"hellooo \\ test\""` (or with `\'`) stands for
      the token with its escaped quotes and, for `\'`, its backslash. */
  lemma EscapedQuotesBody(a: Bytes, c: byte, b: Bytes)
    requires a == "hellooo " && b == " test" && (c == BACKSLASH || c == SINGLE_QUOTE)
    ensures var body := [BACKSLASH, DOUBLE_QUOTE] + (a + ([BACKSLASH, c] + (b + [BACKSLASH, DOUBLE_QUOTE])));
      && DoubleQuotedBody(body)
      && Unescape(body, SPECIAL_CHARS)
         == (if c == BACKSLASH then "\"hellooo \\ test\"" else "\"hellooo \\' test\"")
  {
    var quote: Bytes := [BACKSLASH, DOUBLE_QUOTE];
    var mid: Bytes := [BACKSLASH, c];
    var token := if c == BACKSLASH then "\"hellooo \\ test\"" else "\"hellooo \\' test\"";
    var e := EscapedPiece(c, SPECIAL_CHARS);
    assert [DOUBLE_QUOTE] + (a + (e + (b + [DOUBLE_QUOTE]))) == token by {
      assert e == if c == BACKSLASH then [BACKSLASH] else [BACKSLASH, SINGLE_QUOTE];
    }
    TextFacts(a);
    TextFacts(b);
    EscapedQuotesAroundEscape(a, c, b);
  }

  /** `"\"hellooo \\ test\""` and `"\"hellooo \' test\""`: inside double
      quotes `\\` stands for one backslash, while `\'` is kept as it is. */
  lemma EscapesInsideDoubleQuotes(a: Bytes, c: byte, b: Bytes)
    requires a == "hellooo " && b == " test" && (c == BACKSLASH || c == SINGLE_QUOTE)
    ensures var body := [BACKSLASH, DOUBLE_QUOTE] + (a + ([BACKSLASH, c] + (b + [BACKSLASH, DOUBLE_QUOTE])));
      var token := if c == BACKSLASH then "\"hellooo \\ test\"" else "\"hellooo \\' test\"";
      && Parsed([DOUBLE_QUOTE] + (body + [DOUBLE_QUOTE])) == Success(CommandOptions(Some(token), None, None, None))
      && ArgsScan.Tokens([DOUBLE_QUOTE] + (body + [DOUBLE_QUOTE]), ParseArgs.SPECIAL_CHARS) == [token]
  {
    var body := [BACKSLASH, DOUBLE_QUOTE] + (a + ([BACKSLASH, c] + (b + [BACKSLASH, DOUBLE_QUOTE])));
    EscapedQuotesBody(a, c, b);
    assert ParseArgs.SPECIAL_CHARS == SPECIAL_CHARS;
    DoubleQuotedWord(body);
    DoubleQuotedWordTokens(body);
  }

  // ---------------------------------------------------------------------
  // Redirection
  // ---------------------------------------------------------------------

  /** `test.txt` has no whitespace at either end. */
  lemma TrimTestTxt(target: Bytes)
    requires target == "test.txt"
    ensures Trim(target) == target
  {
    assert |target| == 8 && target[0] == 't' && target[7] == 't';
    assert LeadingWhitespace(target) == 0;
    assert TrailingWhitespace(target) == 0;
  }

  /** `echo > test.txt`: the word after `>` is the output target and is not
      an argument. */
  lemma RedirectToFile(w: Bytes, sp: Bytes, target: Bytes)
    requires w == "echo" && sp == " " && target == "test.txt"
    ensures Parsed(w + (sp + ([REDIRECT] + (sp + target))))
         == Success(CommandOptions(Some("echo"), None, Some("test.txt"), None))
  {
    assert PlainWord(w) by { WordFacts(w); }
    assert AllSpace(sp);
    assert target != [] && NoSpace(target);
    RedirectedOutput(w, sp, sp, target);
    TrimTestTxt(target);
  }
}
