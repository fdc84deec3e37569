/** What the tokenizers make of each shape of line their unit tests
    exercise, for every choice of the pieces (a plain word, a quoted run, a
    run of spaces ...). Each proof follows the line run by run through the
    lemmas of the tokenizer modules, once for the five-state scan of
    src/parse/mod.rs and once for the three-state scan of
    src/parse/parse_args.rs and src/commands/util.rs. Lines are written as
    their pieces concatenated from the right. */
module LineShapes {
  import opened Wrappers
  import opened Bytes
  import opened Parse
  import ArgsScan
  import ParseArgs

  /** A line that does not start with a space is assembled from its token
      streams. */
  lemma ParsedFromStreams(input: Bytes, st: Streams)
    requires input != [] && input[0] != WHITESPACE && Streamed(input) == st
    ensures Parsed(input) == Assemble(st)
  {
  }

  /** The three-state scanner outside quotes and escapes, with no word
      marked done. */
  function Between(buffer: Bytes, tokens: seq<Bytes>): ArgsScan.Scanner {
    ArgsScan.Scanner(ArgsScan.Normal, false, false, buffer, tokens)
  }

  /** A word the five-state scan copies as it is is copied as it is by the
      three-state scan too. */
  lemma PlainWordForArgs(w: Bytes)
    requires PlainWord(w)
    ensures ArgsScan.PlainWord(w)
  {
    assert forall k | 0 <= k < |w| :: Ordinary(w[k]);
  }

  /** Three-state: from a scanner between words, a quoted run `q` followed
      by `t`. */
  lemma ArgsQuotedRun(sc: ArgsScan.Scanner, q: Bytes, t: Bytes)
    requires sc.state == ArgsScan.Normal && !sc.escaped && !sc.wordDone && SINGLE_QUOTE !in q
    ensures ArgsScan.Scan(sc, [SINGLE_QUOTE] + (q + ([SINGLE_QUOTE] + t)), ParseArgs.SPECIAL_CHARS)
         == ArgsScan.Scan(sc.(buffer := sc.buffer + q), t, ParseArgs.SPECIAL_CHARS)
  {
    assert [SINGLE_QUOTE] + q + [SINGLE_QUOTE] + t == [SINGLE_QUOTE] + (q + ([SINGLE_QUOTE] + t));
    ArgsScan.SingleQuoted(sc, q, t, ParseArgs.SPECIAL_CHARS);
  }

  /** Nothing of a plain word, a run of spaces and a plain word is a single
      quote. */
  lemma NoSingleQuoteIn(c: Bytes, sp: Bytes, d: Bytes)
    requires ArgsScan.PlainWord(c) && AllSpace(sp) && ArgsScan.PlainWord(d)
    ensures SINGLE_QUOTE !in c + (sp + d)
  {
    var r := c + (sp + d);
    forall k | 0 <= k < |r| ensures r[k] != SINGLE_QUOTE {
      if k < |c| {
        assert r[k] == c[k];
      } else if k < |c| + |sp| {
        assert r[k] == sp[k - |c|];
      } else {
        assert r[k] == d[k - |c| - |sp|];
      }
    }
  }

  // ---------------------------------------------------------------------
  // Escapes outside quotes
  // ---------------------------------------------------------------------

  /** A plain word followed by three escaped copies of a byte is one token:
      each backslash is dropped and the byte after it kept, whatever it is. */
  lemma EscapedBytesKept(w: Bytes, c: byte)
    requires PlainWord(w)
    ensures Parsed(w + ([BACKSLASH, c] + ([BACKSLASH, c] + [BACKSLASH, c])))
         == Success(CommandOptions(Some(w + [c, c, c]), None, None, None))
  {
    var e: Bytes := [BACKSLASH, c];
    var input := w + (e + (e + e));
    var s1 := Scanner(Normal, false, false, w, [], []);
    var s2 := Scanner(Normal, false, false, w + [c], [], []);
    var s3 := Scanner(Normal, false, false, w + [c] + [c], [], []);
    var s4 := Scanner(Normal, false, false, w + [c, c, c], [], []);
    assert Scan(Start, input) == Scan(s1, e + (e + e)) by {
      assert Start.buffer + w == w;
      OrdinaryRun(Start, w, e + (e + e));
    }
    assert Scan(s1, e + (e + e)) == Scan(s2, e + e) by {
      EscapedByte(s1, c, e + e);
    }
    assert Scan(s2, e + e) == Scan(s3, e) by {
      EscapedByte(s2, c, e);
    }
    assert w + [c] + [c] + [c] == w + [c, c, c];
    assert Scan(s3, e) == s4 by {
      assert e + [] == e;
      EscapedByte(s3, c, []);
    }
    assert input[0] == w[0];
    ParsedFromStreams(input, Streams([w + [c, c, c]], []));
  }

  lemma EscapedBytesKeptTokens(w: Bytes, c: byte)
    requires ArgsScan.PlainWord(w)
    ensures ArgsScan.Tokens(w + ([BACKSLASH, c] + ([BACKSLASH, c] + [BACKSLASH, c])), ParseArgs.SPECIAL_CHARS)
         == [w + [c, c, c]]
  {
    var specials := ParseArgs.SPECIAL_CHARS;
    var e: Bytes := [BACKSLASH, c];
    var input := w + (e + (e + e));
    var s1 := Between(w, []);
    var s2 := Between(w + [c], []);
    var s3 := Between(w + [c] + [c], []);
    assert ArgsScan.Scan(ArgsScan.Start, input, specials) == ArgsScan.Scan(s1, e + (e + e), specials) by {
      assert ArgsScan.Start.buffer + w == w;
      ArgsScan.OrdinaryRun(ArgsScan.Start, w, e + (e + e), specials);
    }
    assert ArgsScan.Scan(s1, e + (e + e), specials) == ArgsScan.Scan(s2, e + e, specials) by {
      ArgsScan.EscapedByte(s1, c, e + e, specials);
    }
    assert ArgsScan.Scan(s2, e + e, specials) == ArgsScan.Scan(s3, e, specials) by {
      ArgsScan.EscapedByte(s2, c, e, specials);
    }
    assert w + [c] + [c] + [c] == w + [c, c, c];
    assert ArgsScan.Scan(s3, e, specials) == Between(w + [c, c, c], []) by {
      assert e + [] == e;
      ArgsScan.EscapedByte(s3, c, [], specials);
    }
    assert input[0] == w[0];
    ArgsScan.TokensByScan(input, specials);
  }

  // ---------------------------------------------------------------------
  // Single quotes
  // ---------------------------------------------------------------------

  /** From a scanner between words, a quoted run `q` followed by `t`. */
  lemma QuotedRun(sc: Scanner, q: Bytes, t: Bytes)
    requires sc.state == Normal && !sc.escaped && !sc.wordDone && SINGLE_QUOTE !in q
    ensures Scan(sc, [SINGLE_QUOTE] + (q + ([SINGLE_QUOTE] + t))) == Scan(sc.(buffer := sc.buffer + q), t)
  {
    assert [SINGLE_QUOTE] + q + [SINGLE_QUOTE] + t == [SINGLE_QUOTE] + (q + ([SINGLE_QUOTE] + t));
    SingleQuoted(sc, q, t);
  }

  /** A single-quoted run alone on the line is the command, spaces and all. */
  lemma QuotedWord(q: Bytes)
    requires q != [] && SINGLE_QUOTE !in q
    ensures Parsed([SINGLE_QUOTE] + (q + [SINGLE_QUOTE])) == Success(CommandOptions(Some(q), None, None, None))
  {
    var input := [SINGLE_QUOTE] + (q + [SINGLE_QUOTE]);
    var s1 := Scanner(Normal, false, false, q, [], []);
    assert Scan(Start, input) == s1 by {
      assert [SINGLE_QUOTE] + [] == [SINGLE_QUOTE];
      assert Start.buffer + q == q;
      QuotedRun(Start, q, []);
    }
    ParsedFromStreams(input, Streams([q], []));
  }

  lemma QuotedWordTokens(q: Bytes)
    requires q != [] && SINGLE_QUOTE !in q
    ensures ArgsScan.Tokens([SINGLE_QUOTE] + (q + [SINGLE_QUOTE]), ParseArgs.SPECIAL_CHARS) == [q]
  {
    var specials := ParseArgs.SPECIAL_CHARS;
    var input := [SINGLE_QUOTE] + (q + [SINGLE_QUOTE]);
    assert ArgsScan.Scan(ArgsScan.Start, input, specials) == Between(q, []) by {
      assert [SINGLE_QUOTE] + [] == [SINGLE_QUOTE];
      assert ArgsScan.Start.buffer + q == q;
      ArgsQuotedRun(ArgsScan.Start, q, []);
    }
    ArgsScan.TokensByScan(input, specials);
  }

  /** Spaces inside a quoted run are kept; spaces after it separate. */
  lemma QuotedThenWord(q: Bytes, sp: Bytes, w: Bytes)
    requires q != [] && SINGLE_QUOTE !in q && sp != [] && AllSpace(sp) && PlainWord(w)
    ensures Parsed([SINGLE_QUOTE] + (q + ([SINGLE_QUOTE] + (sp + w))))
         == Success(CommandOptions(Some(q), Some([w]), None, None))
  {
    var input := [SINGLE_QUOTE] + (q + ([SINGLE_QUOTE] + (sp + w)));
    var s1 := Scanner(Normal, false, false, q, [], []);
    var s2 := Scanner(Normal, false, false, [], [q], []);
    var s3 := Scanner(Normal, false, false, w, [q], []);
    assert Scan(Start, input) == Scan(s1, sp + w) by {
      assert Start.buffer + q == q;
      QuotedRun(Start, q, sp + w);
    }
    assert Scan(s1, sp + w) == Scan(s2, w) by {
      assert Start.main + [q] == [q];
      Spaces(s1, sp, w);
    }
    assert Scan(s2, w) == s3 by {
      assert w + [] == w;
      assert s2.buffer + w == w;
      OrdinaryRun(s2, w, []);
    }
    assert [q] + [w] == [q, w];
    ParsedFromStreams(input, Streams([q, w], []));
    assert [q, w][1..] == [w];
  }

  lemma QuotedThenWordTokens(q: Bytes, sp: Bytes, w: Bytes)
    requires q != [] && SINGLE_QUOTE !in q && sp != [] && AllSpace(sp) && ArgsScan.PlainWord(w)
    ensures ArgsScan.Tokens([SINGLE_QUOTE] + (q + ([SINGLE_QUOTE] + (sp + w))), ParseArgs.SPECIAL_CHARS) == [q, w]
  {
    var specials := ParseArgs.SPECIAL_CHARS;
    var input := [SINGLE_QUOTE] + (q + ([SINGLE_QUOTE] + (sp + w)));
    var s1 := Between(q, []);
    var s2 := Between([], [q]);
    assert ArgsScan.Scan(ArgsScan.Start, input, specials) == ArgsScan.Scan(s1, sp + w, specials) by {
      assert ArgsScan.Start.buffer + q == q;
      ArgsQuotedRun(ArgsScan.Start, q, sp + w);
    }
    assert ArgsScan.Scan(s1, sp + w, specials) == ArgsScan.Scan(s2, w, specials) by {
      assert ArgsScan.Start.tokens + [q] == [q];
      ArgsScan.Spaces(s1, sp, w, specials);
    }
    assert ArgsScan.Scan(s2, w, specials) == Between(w, [q]) by {
      assert w + [] == w;
      assert s2.buffer + w == w;
      ArgsScan.OrdinaryRun(s2, w, [], specials);
    }
    assert [q] + [w] == [q, w];
    ArgsScan.TokensByScan(input, specials);
  }

  /** Two quoted runs with nothing between them make one word. */
  lemma AdjacentQuoted(a: Bytes, b: Bytes)
    requires SINGLE_QUOTE !in a && SINGLE_QUOTE !in b && a + b != []
    ensures Parsed([SINGLE_QUOTE] + (a + ([SINGLE_QUOTE] + ([SINGLE_QUOTE] + (b + [SINGLE_QUOTE])))))
         == Success(CommandOptions(Some(a + b), None, None, None))
  {
    var input := [SINGLE_QUOTE] + (a + ([SINGLE_QUOTE] + ([SINGLE_QUOTE] + (b + [SINGLE_QUOTE]))));
    var s1 := Scanner(Normal, false, false, a, [], []);
    var s2 := Scanner(Normal, false, false, a + b, [], []);
    assert Scan(Start, input) == Scan(s1, [SINGLE_QUOTE] + (b + [SINGLE_QUOTE])) by {
      assert Start.buffer + a == a;
      QuotedRun(Start, a, [SINGLE_QUOTE] + (b + [SINGLE_QUOTE]));
    }
    assert Scan(s1, [SINGLE_QUOTE] + (b + [SINGLE_QUOTE])) == s2 by {
      assert [SINGLE_QUOTE] + [] == [SINGLE_QUOTE];
      QuotedRun(s1, b, []);
    }
    ParsedFromStreams(input, Streams([a + b], []));
  }

  lemma AdjacentQuotedTokens(a: Bytes, b: Bytes)
    requires SINGLE_QUOTE !in a && SINGLE_QUOTE !in b && a + b != []
    ensures ArgsScan.Tokens([SINGLE_QUOTE] + (a + ([SINGLE_QUOTE] + ([SINGLE_QUOTE] + (b + [SINGLE_QUOTE])))),
                            ParseArgs.SPECIAL_CHARS) == [a + b]
  {
    var specials := ParseArgs.SPECIAL_CHARS;
    var tail := [SINGLE_QUOTE] + (b + [SINGLE_QUOTE]);
    var input := [SINGLE_QUOTE] + (a + ([SINGLE_QUOTE] + tail));
    var s1 := Between(a, []);
    assert ArgsScan.Scan(ArgsScan.Start, input, specials) == ArgsScan.Scan(s1, tail, specials) by {
      assert ArgsScan.Start.buffer + a == a;
      ArgsQuotedRun(ArgsScan.Start, a, tail);
    }
    assert ArgsScan.Scan(s1, tail, specials) == Between(a + b, []) by {
      assert [SINGLE_QUOTE] + [] == [SINGLE_QUOTE];
      ArgsQuotedRun(s1, b, []);
    }
    ArgsScan.TokensByScan(input, specials);
  }

  /** A plain word right after a quoted run continues the same word. */
  lemma QuotedGluedWord(a: Bytes, w: Bytes)
    requires SINGLE_QUOTE !in a && PlainWord(w)
    ensures Parsed([SINGLE_QUOTE] + (a + ([SINGLE_QUOTE] + w))) == Success(CommandOptions(Some(a + w), None, None, None))
  {
    var input := [SINGLE_QUOTE] + (a + ([SINGLE_QUOTE] + w));
    var s1 := Scanner(Normal, false, false, a, [], []);
    var s2 := Scanner(Normal, false, false, a + w, [], []);
    assert Scan(Start, input) == Scan(s1, w) by {
      assert Start.buffer + a == a;
      QuotedRun(Start, a, w);
    }
    assert Scan(s1, w) == s2 by {
      assert w + [] == w;
      OrdinaryRun(s1, w, []);
    }
    ParsedFromStreams(input, Streams([a + w], []));
  }

  lemma QuotedGluedWordTokens(a: Bytes, w: Bytes)
    requires SINGLE_QUOTE !in a && ArgsScan.PlainWord(w)
    ensures ArgsScan.Tokens([SINGLE_QUOTE] + (a + ([SINGLE_QUOTE] + w)), ParseArgs.SPECIAL_CHARS) == [a + w]
  {
    var specials := ParseArgs.SPECIAL_CHARS;
    var input := [SINGLE_QUOTE] + (a + ([SINGLE_QUOTE] + w));
    var s1 := Between(a, []);
    assert ArgsScan.Scan(ArgsScan.Start, input, specials) == ArgsScan.Scan(s1, w, specials) by {
      assert ArgsScan.Start.buffer + a == a;
      ArgsQuotedRun(ArgsScan.Start, a, w);
    }
    assert ArgsScan.Scan(s1, w, specials) == Between(a + w, []) by {
      assert w + [] == w;
      ArgsScan.OrdinaryRun(s1, w, [], specials);
    }
    ArgsScan.TokensByScan(input, specials);
  }

  /** Quoted, unquoted and quoted again with no space between: one word. */
  lemma QuotedWordQuoted(a: Bytes, w: Bytes, b: Bytes)
    requires SINGLE_QUOTE !in a && PlainWord(w) && SINGLE_QUOTE !in b
    ensures Parsed([SINGLE_QUOTE] + (a + ([SINGLE_QUOTE] + (w + ([SINGLE_QUOTE] + (b + [SINGLE_QUOTE]))))))
         == Success(CommandOptions(Some(a + w + b), None, None, None))
  {
    var tail := [SINGLE_QUOTE] + (b + [SINGLE_QUOTE]);
    var input := [SINGLE_QUOTE] + (a + ([SINGLE_QUOTE] + (w + tail)));
    var s1 := Scanner(Normal, false, false, a, [], []);
    var s2 := Scanner(Normal, false, false, a + w, [], []);
    var s3 := Scanner(Normal, false, false, a + w + b, [], []);
    assert Scan(Start, input) == Scan(s1, w + tail) by {
      assert Start.buffer + a == a;
      QuotedRun(Start, a, w + tail);
    }
    assert Scan(s1, w + tail) == Scan(s2, tail) by {
      OrdinaryRun(s1, w, tail);
    }
    assert Scan(s2, tail) == s3 by {
      assert [SINGLE_QUOTE] + [] == [SINGLE_QUOTE];
      QuotedRun(s2, b, []);
    }
    ParsedFromStreams(input, Streams([a + w + b], []));
  }

  lemma QuotedWordQuotedTokens(a: Bytes, w: Bytes, b: Bytes)
    requires SINGLE_QUOTE !in a && ArgsScan.PlainWord(w) && SINGLE_QUOTE !in b
    ensures ArgsScan.Tokens([SINGLE_QUOTE] + (a + ([SINGLE_QUOTE] + (w + ([SINGLE_QUOTE] + (b + [SINGLE_QUOTE]))))),
                            ParseArgs.SPECIAL_CHARS) == [a + w + b]
  {
    var specials := ParseArgs.SPECIAL_CHARS;
    var tail := [SINGLE_QUOTE] + (b + [SINGLE_QUOTE]);
    var input := [SINGLE_QUOTE] + (a + ([SINGLE_QUOTE] + (w + tail)));
    var s1 := Between(a, []);
    var s2 := Between(a + w, []);
    assert ArgsScan.Scan(ArgsScan.Start, input, specials) == ArgsScan.Scan(s1, w + tail, specials) by {
      assert ArgsScan.Start.buffer + a == a;
      ArgsQuotedRun(ArgsScan.Start, a, w + tail);
    }
    assert ArgsScan.Scan(s1, w + tail, specials) == ArgsScan.Scan(s2, tail, specials) by {
      ArgsScan.OrdinaryRun(s1, w, tail, specials);
    }
    assert ArgsScan.Scan(s2, tail, specials) == Between(a + w + b, []) by {
      assert [SINGLE_QUOTE] + [] == [SINGLE_QUOTE];
      ArgsQuotedRun(s2, b, []);
    }
    ArgsScan.TokensByScan(input, specials);
  }

  /** After finished tokens `m`: a plain word, spaces, then anything. */
  lemma WordThenSpacesAfter(m: seq<Bytes>, w: Bytes, sp: Bytes, t: Bytes)
    requires m != [] && PlainWord(w) && sp != [] && AllSpace(sp) && t != []
    ensures Scan(Scanner(Normal, false, false, [], m, []), w + (sp + t))
         == Scan(Scanner(Normal, false, false, [], m + [w], []), t)
  {
    var s2 := Scanner(Normal, false, false, [], m, []);
    var s3 := Scanner(Normal, false, false, w, m, []);
    assert Scan(s2, w + (sp + t)) == Scan(s3, sp + t) by {
      assert s2.buffer + w == w;
      OrdinaryRun(s2, w, sp + t);
    }
    Spaces(s3, sp, t);
  }

  /** A quoted command, spaces, a plain word and spaces, followed by
      anything: the first two tokens are finished. */
  lemma QuotedThenWordPrefix(a: Bytes, sp: Bytes, w: Bytes, sp2: Bytes, tail: Bytes)
    requires a != [] && SINGLE_QUOTE !in a && PlainWord(w)
    requires sp != [] && AllSpace(sp) && sp2 != [] && AllSpace(sp2) && tail != []
    ensures Scan(Start, [SINGLE_QUOTE] + (a + ([SINGLE_QUOTE] + (sp + (w + (sp2 + tail))))))
         == Scan(Scanner(Normal, false, false, [], [a, w], []), tail)
  {
    var t2 := w + (sp2 + tail);
    var s1 := Scanner(Normal, false, false, a, [], []);
    assert Scan(Start, [SINGLE_QUOTE] + (a + ([SINGLE_QUOTE] + (sp + t2)))) == Scan(s1, sp + t2) by {
      assert Start.buffer + a == a;
      QuotedRun(Start, a, sp + t2);
    }
    assert Scan(s1, sp + t2) == Scan(Scanner(Normal, false, false, [], [a], []), t2) by {
      assert Start.main + [a] == [a];
      Spaces(s1, sp, t2);
    }
    assert [a] + [w] == [a, w];
    WordThenSpacesAfter([a], w, sp2, tail);
  }

  /** A quoted run may be an argument too, with its spaces kept. */
  lemma QuotedArguments(a: Bytes, sp: Bytes, w: Bytes, sp2: Bytes, c: Bytes)
    requires a != [] && SINGLE_QUOTE !in a && PlainWord(w) && c != [] && SINGLE_QUOTE !in c
    requires sp != [] && AllSpace(sp) && sp2 != [] && AllSpace(sp2)
    ensures Parsed([SINGLE_QUOTE] + (a + ([SINGLE_QUOTE] + (sp + (w + (sp2 + ([SINGLE_QUOTE] + (c + [SINGLE_QUOTE]))))))))
         == Success(CommandOptions(Some(a), Some([w, c]), None, None))
  {
    var tail := [SINGLE_QUOTE] + (c + [SINGLE_QUOTE]);
    var input := [SINGLE_QUOTE] + (a + ([SINGLE_QUOTE] + (sp + (w + (sp2 + tail)))));
    var s4 := Scanner(Normal, false, false, [], [a, w], []);
    var s5 := Scanner(Normal, false, false, c, [a, w], []);
    QuotedThenWordPrefix(a, sp, w, sp2, tail);
    assert Scan(s4, tail) == s5 by {
      assert [SINGLE_QUOTE] + [] == [SINGLE_QUOTE];
      assert s4.buffer + c == c;
      QuotedRun(s4, c, []);
    }
    assert [a, w] + [c] == [a, w, c];
    ParsedFromStreams(input, Streams([a, w, c], []));
    assert [a, w, c][1..] == [w, c];
  }

  /** After finished tokens `m`, three-state: a plain word, spaces, then
      anything. */
  lemma ArgsWordThenSpacesAfter(m: seq<Bytes>, w: Bytes, sp: Bytes, t: Bytes)
    requires m != [] && ArgsScan.PlainWord(w) && sp != [] && AllSpace(sp) && t != []
    ensures ArgsScan.Scan(Between([], m), w + (sp + t), ParseArgs.SPECIAL_CHARS)
         == ArgsScan.Scan(Between([], m + [w]), t, ParseArgs.SPECIAL_CHARS)
  {
    var specials := ParseArgs.SPECIAL_CHARS;
    var s2 := Between([], m);
    var s3 := Between(w, m);
    assert ArgsScan.Scan(s2, w + (sp + t), specials) == ArgsScan.Scan(s3, sp + t, specials) by {
      assert s2.buffer + w == w;
      ArgsScan.OrdinaryRun(s2, w, sp + t, specials);
    }
    ArgsScan.Spaces(s3, sp, t, specials);
  }

  /** Three-state: a quoted command, spaces, a plain word and spaces,
      followed by anything: the first two tokens are finished. */
  lemma ArgsQuotedThenWordPrefix(a: Bytes, sp: Bytes, w: Bytes, sp2: Bytes, tail: Bytes)
    requires a != [] && SINGLE_QUOTE !in a && ArgsScan.PlainWord(w)
    requires sp != [] && AllSpace(sp) && sp2 != [] && AllSpace(sp2) && tail != []
    ensures ArgsScan.Scan(ArgsScan.Start, [SINGLE_QUOTE] + (a + ([SINGLE_QUOTE] + (sp + (w + (sp2 + tail))))),
                          ParseArgs.SPECIAL_CHARS)
         == ArgsScan.Scan(Between([], [a, w]), tail, ParseArgs.SPECIAL_CHARS)
  {
    var specials := ParseArgs.SPECIAL_CHARS;
    var t2 := w + (sp2 + tail);
    var s1 := Between(a, []);
    assert ArgsScan.Scan(ArgsScan.Start, [SINGLE_QUOTE] + (a + ([SINGLE_QUOTE] + (sp + t2))), specials)
        == ArgsScan.Scan(s1, sp + t2, specials) by {
      assert ArgsScan.Start.buffer + a == a;
      ArgsQuotedRun(ArgsScan.Start, a, sp + t2);
    }
    assert ArgsScan.Scan(s1, sp + t2, specials) == ArgsScan.Scan(Between([], [a]), t2, specials) by {
      assert ArgsScan.Start.tokens + [a] == [a];
      ArgsScan.Spaces(s1, sp, t2, specials);
    }
    assert [a] + [w] == [a, w];
    ArgsWordThenSpacesAfter([a], w, sp2, tail);
  }

  lemma QuotedArgumentsTokens(a: Bytes, sp: Bytes, w: Bytes, sp2: Bytes, c: Bytes)
    requires a != [] && SINGLE_QUOTE !in a && ArgsScan.PlainWord(w) && c != [] && SINGLE_QUOTE !in c
    requires sp != [] && AllSpace(sp) && sp2 != [] && AllSpace(sp2)
    ensures ArgsScan.Tokens([SINGLE_QUOTE] + (a + ([SINGLE_QUOTE] + (sp + (w + (sp2 + ([SINGLE_QUOTE] + (c + [SINGLE_QUOTE]))))))),
                            ParseArgs.SPECIAL_CHARS) == [a, w, c]
  {
    var specials := ParseArgs.SPECIAL_CHARS;
    var tail := [SINGLE_QUOTE] + (c + [SINGLE_QUOTE]);
    var input := [SINGLE_QUOTE] + (a + ([SINGLE_QUOTE] + (sp + (w + (sp2 + tail)))));
    var s4 := Between([], [a, w]);
    ArgsQuotedThenWordPrefix(a, sp, w, sp2, tail);
    assert ArgsScan.Scan(s4, tail, specials) == Between(c, [a, w]) by {
      assert [SINGLE_QUOTE] + [] == [SINGLE_QUOTE];
      assert s4.buffer + c == c;
      ArgsQuotedRun(s4, c, []);
    }
    assert [a, w] + [c] == [a, w, c];
    ArgsScan.TokensByScan(input, specials);
  }

  /** After finished tokens `m`: a single quote with no partner is dropped,
      then a word, spaces and a word follow as usual. */
  lemma UnmatchedQuoteThenWords(m: seq<Bytes>, c: Bytes, sp: Bytes, d: Bytes)
    requires m != [] && PlainWord(c) && sp != [] && AllSpace(sp) && PlainWord(d)
    ensures Scan(Scanner(Normal, false, false, [], m, []), [SINGLE_QUOTE] + (c + (sp + d)))
         == Scanner(Normal, false, false, d, m + [c], [])
  {
    var s0 := Scanner(Normal, false, false, [], m, []);
    var s1 := Scanner(Normal, false, false, c, m, []);
    var s2 := Scanner(Normal, false, false, [], m + [c], []);
    assert Scan(s0, [SINGLE_QUOTE] + (c + (sp + d))) == Scan(s0, c + (sp + d)) by {
      PlainWordForArgs(c);
      PlainWordForArgs(d);
      NoSingleQuoteIn(c, sp, d);
      UnmatchedQuoteDropped(s0, SINGLE_QUOTE, c + (sp + d));
    }
    assert Scan(s0, c + (sp + d)) == Scan(s1, sp + d) by {
      assert s0.buffer + c == c;
      OrdinaryRun(s0, c, sp + d);
    }
    assert Scan(s1, sp + d) == Scan(s2, d) by {
      Spaces(s1, sp, d);
    }
    assert Scan(s2, d) == Scanner(Normal, false, false, d, m + [c], []) by {
      assert d + [] == d;
      assert s2.buffer + d == d;
      OrdinaryRun(s2, d, []);
    }
  }

  /** A single quote with no partner is dropped, and what follows it is
      split on spaces as usual. */
  lemma UnmatchedQuoteArguments(a: Bytes, sp: Bytes, w: Bytes, sp2: Bytes, c: Bytes, sp3: Bytes, d: Bytes)
    requires a != [] && SINGLE_QUOTE !in a && PlainWord(w) && PlainWord(c) && PlainWord(d)
    requires sp != [] && AllSpace(sp) && sp2 != [] && AllSpace(sp2) && sp3 != [] && AllSpace(sp3)
    ensures Parsed([SINGLE_QUOTE] + (a + ([SINGLE_QUOTE] + (sp + (w + (sp2 + ([SINGLE_QUOTE] + (c + (sp3 + d)))))))))
         == Success(CommandOptions(Some(a), Some([w, c, d]), None, None))
  {
    var tail := [SINGLE_QUOTE] + (c + (sp3 + d));
    var input := [SINGLE_QUOTE] + (a + ([SINGLE_QUOTE] + (sp + (w + (sp2 + tail)))));
    QuotedThenWordPrefix(a, sp, w, sp2, tail);
    UnmatchedQuoteThenWords([a, w], c, sp3, d);
    assert [a, w] + [c] == [a, w, c];
    assert [a, w, c] + [d] == [a, w, c, d];
    ParsedFromStreams(input, Streams([a, w, c, d], []));
    assert [a, w, c, d][1..] == [w, c, d];
  }

  /** After finished tokens `m`, three-state: a single quote with no
      partner is dropped, then a word, spaces and a word follow as usual. */
  lemma ArgsUnmatchedQuoteThenWords(m: seq<Bytes>, c: Bytes, sp: Bytes, d: Bytes)
    requires m != [] && ArgsScan.PlainWord(c) && sp != [] && AllSpace(sp) && ArgsScan.PlainWord(d)
    ensures ArgsScan.Scan(Between([], m), [SINGLE_QUOTE] + (c + (sp + d)), ParseArgs.SPECIAL_CHARS)
         == Between(d, m + [c])
  {
    var specials := ParseArgs.SPECIAL_CHARS;
    var s0 := Between([], m);
    var s1 := Between(c, m);
    var s2 := Between([], m + [c]);
    assert ArgsScan.Scan(s0, [SINGLE_QUOTE] + (c + (sp + d)), specials) == ArgsScan.Scan(s0, c + (sp + d), specials) by {
      NoSingleQuoteIn(c, sp, d);
      ArgsScan.UnmatchedQuoteDropped(s0, SINGLE_QUOTE, c + (sp + d), specials);
    }
    assert ArgsScan.Scan(s0, c + (sp + d), specials) == ArgsScan.Scan(s1, sp + d, specials) by {
      assert s0.buffer + c == c;
      ArgsScan.OrdinaryRun(s0, c, sp + d, specials);
    }
    assert ArgsScan.Scan(s1, sp + d, specials) == ArgsScan.Scan(s2, d, specials) by {
      ArgsScan.Spaces(s1, sp, d, specials);
    }
    assert ArgsScan.Scan(s2, d, specials) == Between(d, m + [c]) by {
      assert d + [] == d;
      assert s2.buffer + d == d;
      ArgsScan.OrdinaryRun(s2, d, [], specials);
    }
  }

  lemma UnmatchedQuoteArgumentsTokens(a: Bytes, sp: Bytes, w: Bytes, sp2: Bytes, c: Bytes, sp3: Bytes, d: Bytes)
    requires a != [] && SINGLE_QUOTE !in a && ArgsScan.PlainWord(w) && ArgsScan.PlainWord(c) && ArgsScan.PlainWord(d)
    requires sp != [] && AllSpace(sp) && sp2 != [] && AllSpace(sp2) && sp3 != [] && AllSpace(sp3)
    ensures ArgsScan.Tokens([SINGLE_QUOTE] + (a + ([SINGLE_QUOTE] + (sp + (w + (sp2 + ([SINGLE_QUOTE] + (c + (sp3 + d)))))))),
                            ParseArgs.SPECIAL_CHARS) == [a, w, c, d]
  {
    var specials := ParseArgs.SPECIAL_CHARS;
    var tail := [SINGLE_QUOTE] + (c + (sp3 + d));
    var input := [SINGLE_QUOTE] + (a + ([SINGLE_QUOTE] + (sp + (w + (sp2 + tail)))));
    ArgsQuotedThenWordPrefix(a, sp, w, sp2, tail);
    ArgsUnmatchedQuoteThenWords([a, w], c, sp3, d);
    assert [a, w] + [c] == [a, w, c];
    assert [a, w, c] + [d] == [a, w, c, d];
    ArgsScan.TokensByScan(input, specials);
  }

  // ---------------------------------------------------------------------
  // Double quotes
  // ---------------------------------------------------------------------

  /** A double-quoted run alone on the line is the command, and means what
      `Unescape` makes of it. */
  lemma DoubleQuotedWord(body: Bytes)
    requires DoubleQuotedBody(body) && Unescape(body, SPECIAL_CHARS) != []
    ensures Parsed([DOUBLE_QUOTE] + (body + [DOUBLE_QUOTE]))
         == Success(CommandOptions(Some(Unescape(body, SPECIAL_CHARS)), None, None, None))
  {
    var input := [DOUBLE_QUOTE] + (body + [DOUBLE_QUOTE]);
    var u := Unescape(body, SPECIAL_CHARS);
    assert Scan(Start, input) == Scanner(Normal, false, false, u, [], []) by {
      assert [DOUBLE_QUOTE] + body + [DOUBLE_QUOTE] + [] == input;
      assert Start.buffer + u == u;
      DoubleQuoted(Start, body, []);
    }
    ParsedFromStreams(input, Streams([u], []));
  }

  lemma DoubleQuotedWordTokens(body: Bytes)
    requires DoubleQuotedBody(body) && Unescape(body, ParseArgs.SPECIAL_CHARS) != []
    ensures ArgsScan.Tokens([DOUBLE_QUOTE] + (body + [DOUBLE_QUOTE]), ParseArgs.SPECIAL_CHARS)
         == [Unescape(body, ParseArgs.SPECIAL_CHARS)]
  {
    var specials := ParseArgs.SPECIAL_CHARS;
    var input := [DOUBLE_QUOTE] + (body + [DOUBLE_QUOTE]);
    var u := Unescape(body, specials);
    assert ArgsScan.Scan(ArgsScan.Start, input, specials) == Between(u, []) by {
      assert [DOUBLE_QUOTE] + body + [DOUBLE_QUOTE] + [] == input;
      assert ArgsScan.Start.buffer + u == u;
      ArgsScan.DoubleQuoted(ArgsScan.Start, body, [], specials);
    }
    ArgsScan.TokensByScan(input, specials);
  }

  /** `\"` at both ends of a run with no backslash or double quote: the
      quotes are kept and the backslashes dropped. */
  lemma EscapedQuotesAround(a: Bytes)
    requires BACKSLASH !in a && DOUBLE_QUOTE !in a
    ensures DoubleQuotedBody([BACKSLASH, DOUBLE_QUOTE] + (a + [BACKSLASH, DOUBLE_QUOTE]))
    ensures Unescape([BACKSLASH, DOUBLE_QUOTE] + (a + [BACKSLASH, DOUBLE_QUOTE]), SPECIAL_CHARS)
         == [DOUBLE_QUOTE] + (a + [DOUBLE_QUOTE])
  {
    var quote: Bytes := [BACKSLASH, DOUBLE_QUOTE];
    assert DoubleQuotedBody(quote) && Unescape(quote, SPECIAL_CHARS) == [DOUBLE_QUOTE] by {
      assert EscapedPiece(DOUBLE_QUOTE, SPECIAL_CHARS) == [DOUBLE_QUOTE];
      assert DoubleQuotedBody([]);
      assert quote + [] == quote;
      UnescapeEscape(DOUBLE_QUOTE, [], SPECIAL_CHARS);
    }
    UnescapePlain(a, quote, SPECIAL_CHARS);
    assert EscapedPiece(DOUBLE_QUOTE, SPECIAL_CHARS) == [DOUBLE_QUOTE];
    UnescapeEscape(DOUBLE_QUOTE, a + quote, SPECIAL_CHARS);
  }

  /** An escape pair, a plain run and a closing `\"`. */
  lemma EscapeThenQuote(c: byte, b: Bytes)
    requires BACKSLASH !in b && DOUBLE_QUOTE !in b
    ensures DoubleQuotedBody([BACKSLASH, c] + (b + [BACKSLASH, DOUBLE_QUOTE]))
    ensures Unescape([BACKSLASH, c] + (b + [BACKSLASH, DOUBLE_QUOTE]), SPECIAL_CHARS)
         == EscapedPiece(c, SPECIAL_CHARS) + (b + [DOUBLE_QUOTE])
  {
    var quote: Bytes := [BACKSLASH, DOUBLE_QUOTE];
    assert DoubleQuotedBody(quote) && Unescape(quote, SPECIAL_CHARS) == [DOUBLE_QUOTE] by {
      assert EscapedPiece(DOUBLE_QUOTE, SPECIAL_CHARS) == [DOUBLE_QUOTE];
      assert DoubleQuotedBody([]);
      assert quote + [] == quote;
      UnescapeEscape(DOUBLE_QUOTE, [], SPECIAL_CHARS);
    }
    UnescapePlain(b, quote, SPECIAL_CHARS);
    UnescapeEscape(c, b + quote, SPECIAL_CHARS);
  }

  /** The same with one escape pair `\c` inside: it stands for `c` when `c`
      is special inside double quotes, and for both bytes otherwise. */
  lemma EscapedQuotesAroundEscape(a: Bytes, c: byte, b: Bytes)
    requires BACKSLASH !in a && DOUBLE_QUOTE !in a && BACKSLASH !in b && DOUBLE_QUOTE !in b
    ensures DoubleQuotedBody([BACKSLASH, DOUBLE_QUOTE] + (a + ([BACKSLASH, c] + (b + [BACKSLASH, DOUBLE_QUOTE]))))
    ensures Unescape([BACKSLASH, DOUBLE_QUOTE] + (a + ([BACKSLASH, c] + (b + [BACKSLASH, DOUBLE_QUOTE]))), SPECIAL_CHARS)
         == [DOUBLE_QUOTE] + (a + (EscapedPiece(c, SPECIAL_CHARS) + (b + [DOUBLE_QUOTE])))
  {
    var inner := [BACKSLASH, c] + (b + [BACKSLASH, DOUBLE_QUOTE]);
    EscapeThenQuote(c, b);
    UnescapePlain(a, inner, SPECIAL_CHARS);
    assert EscapedPiece(DOUBLE_QUOTE, SPECIAL_CHARS) == [DOUBLE_QUOTE];
    UnescapeEscape(DOUBLE_QUOTE, a + inner, SPECIAL_CHARS);
  }

  // ---------------------------------------------------------------------
  // Redirection
  // ---------------------------------------------------------------------

  /** From the start of a line, a plain word and spaces. */
  lemma WordThenSpaces(w: Bytes, sp: Bytes, t: Bytes)
    requires PlainWord(w) && sp != [] && AllSpace(sp) && t != []
    ensures Scan(Start, w + (sp + t)) == Scan(Scanner(Normal, false, false, [], [w], []), t)
  {
    var s1 := Scanner(Normal, false, false, w, [], []);
    assert Scan(Start, w + (sp + t)) == Scan(s1, sp + t) by {
      assert Start.buffer + w == w;
      OrdinaryRun(Start, w, sp + t);
    }
    Spaces(s1, sp, t);
    assert Start.main + [w] == [w];
  }

  /** `w > target`: the word after `>` is the output target, trimmed, and is
      not an argument. */
  lemma RedirectedOutput(w: Bytes, sp: Bytes, sp2: Bytes, target: Bytes)
    requires PlainWord(w) && sp != [] && AllSpace(sp) && AllSpace(sp2) && target != [] && NoSpace(target)
    ensures Parsed(w + (sp + ([REDIRECT] + (sp2 + target))))
         == Success(CommandOptions(Some(w), None, Some(Trim(target)), None))
  {
    var input := w + (sp + ([REDIRECT] + (sp2 + target)));
    var s2 := Scanner(Normal, false, false, [], [w], []);
    var s3 := Scanner(Redirect, false, false, [], [w], []);
    WordThenSpaces(w, sp, [REDIRECT] + (sp2 + target));
    assert Scan(s2, [REDIRECT] + (sp2 + target)) == Scan(s3, sp2 + target) by {
      RedirectKeepsBuffer(s2, sp2 + target);
    }
    assert Finish(Scan(s3, sp2 + target)) == Streams([w], [target]) by {
      assert [] + [target] == [target];
      RedirectTargetAtEnd(s3, sp2, target);
    }
    assert input[0] == w[0];
    ParsedFromStreams(input, Streams([w], [target]));
  }

  /** `w 2> target`: `1>` and `2>` redirect like `>`, and the digit does not
      reach the arguments. */
  lemma NumberedRedirect(w: Bytes, sp: Bytes, d: byte, sp2: Bytes, target: Bytes)
    requires PlainWord(w) && sp != [] && AllSpace(sp) && (d == '1' || d == '2')
    requires AllSpace(sp2) && target != [] && NoSpace(target)
    ensures Parsed(w + (sp + ([d, REDIRECT] + (sp2 + target))))
         == Success(CommandOptions(Some(w), None, Some(Trim(target)), None))
  {
    var input := w + (sp + ([d, REDIRECT] + (sp2 + target)));
    var s2 := Scanner(Normal, false, false, [], [w], []);
    var s3 := Scanner(Redirect, false, false, [], [w], []);
    WordThenSpaces(w, sp, [d, REDIRECT] + (sp2 + target));
    assert Scan(s2, [d, REDIRECT] + (sp2 + target)) == Scan(s3, sp2 + target) by {
      DigitRedirect(s2, d, sp2 + target);
    }
    assert Finish(Scan(s3, sp2 + target)) == Streams([w], [target]) by {
      assert [] + [target] == [target];
      RedirectTargetAtEnd(s3, sp2, target);
    }
    assert input[0] == w[0];
    ParsedFromStreams(input, Streams([w], [target]));
  }

  /** After the command: a plain word glued to `>` and a plain word. */
  lemma GluedRedirectScan(w: Bytes, a: Bytes, b: Bytes)
    requires PlainWord(a) && PlainWord(b)
    ensures Scan(Scanner(Normal, false, false, [], [w], []), a + ([REDIRECT] + b))
         == Scanner(Redirect, false, false, a + b, [w], [])
  {
    var s2 := Scanner(Normal, false, false, [], [w], []);
    var s3 := Scanner(Normal, false, false, a, [w], []);
    var s4 := Scanner(Redirect, false, false, a, [w], []);
    assert Scan(s2, a + ([REDIRECT] + b)) == Scan(s3, [REDIRECT] + b) by {
      assert s2.buffer + a == a;
      OrdinaryRun(s2, a, [REDIRECT] + b);
    }
    assert Scan(s3, [REDIRECT] + b) == Scan(s4, b) by {
      RedirectKeepsBuffer(s3, b);
    }
    assert b + [] == b;
    RedirectRun(s4, b, []);
  }

  /** `w a>b`: `>` does not end the word before it, so `a` becomes the start
      of the target instead of an argument. */
  lemma GluedRedirect(w: Bytes, sp: Bytes, a: Bytes, b: Bytes)
    requires PlainWord(w) && sp != [] && AllSpace(sp) && PlainWord(a) && PlainWord(b)
    ensures Parsed(w + (sp + (a + ([REDIRECT] + b)))) == Success(CommandOptions(Some(w), None, Some(Trim(a + b)), None))
  {
    var input := w + (sp + (a + ([REDIRECT] + b)));
    assert [] + [a + b] == [a + b];
    assert input[0] == w[0];
    WordThenSpaces(w, sp, a + ([REDIRECT] + b));
    GluedRedirectScan(w, a, b);
    ParsedFromStreams(input, Streams([w], [a + b]));
  }

  // ---------------------------------------------------------------------
  // Further consequences of the byte-level rules
  // ---------------------------------------------------------------------

  /** `a1xb`: a `1` or `2` not followed by `>` is kept, but the byte after it
      is consumed unread, whatever it is. */
  lemma DigitSwallowsNextByte(a: Bytes, d: byte, c: byte, b: Bytes)
    requires PlainWord(a) && PlainWord(b) && (d == '1' || d == '2') && c != REDIRECT
    ensures Parsed(a + ([d, c] + b)) == Success(CommandOptions(Some(a + [d] + b), None, None, None))
  {
    var input := a + ([d, c] + b);
    var s1 := Scanner(Normal, false, false, a, [], []);
    var s2 := Scanner(Normal, false, false, a + [d], [], []);
    assert Scan(Start, input) == Scan(s1, [d, c] + b) by {
      assert Start.buffer + a == a;
      OrdinaryRun(Start, a, [d, c] + b);
    }
    assert Scan(s1, [d, c] + b) == Scan(s2, b) by {
      DigitKept(s1, d, c, b);
    }
    assert Scan(s2, b) == Scanner(Normal, false, false, a + [d] + b, [], []) by {
      assert b + [] == b;
      OrdinaryRun(s2, b, []);
    }
    assert input[0] == a[0];
    ParsedFromStreams(input, Streams([a + [d] + b], []));
  }

  /** A space at the very start of a line is part of the command name, so
      ` echo` names the command " echo", not the builtin. */
  lemma LeadingSpaceInCommand(w: Bytes)
    requires PlainWord(w)
    ensures Parsed([WHITESPACE] + w) == Success(CommandOptions(Some([WHITESPACE] + w), None, None, None))
  {
    var input := [WHITESPACE] + w;
    var s1 := Scanner(Normal, false, false, [WHITESPACE], [], []);
    assert Scan(Start, input) == Scan(s1, w) by {
      LeadingSpaceCopied(Start, w);
    }
    assert Scan(s1, w) == Scanner(Normal, false, false, [WHITESPACE] + w, [], []) by {
      assert w + [] == w;
      OrdinaryRun(s1, w, []);
    }
    assert input[1] == w[0];
    assert !AllSpace(input);
  }

  /** `'`: a lone quote leaves no token at all, and `parse_input` panics
      indexing the empty token list. */
  lemma LoneQuotePanics()
    ensures Parsed([SINGLE_QUOTE]) == Failure(NoCommandToken)
  {
    var input := [SINGLE_QUOTE];
    assert Scan(Start, input) == Start by {
      assert [SINGLE_QUOTE] + [] == input;
      UnmatchedQuoteDropped(Start, SINGLE_QUOTE, []);
    }
    assert input[0] != WHITESPACE;
  }
}
