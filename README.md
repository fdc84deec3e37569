# shelly: the tokenizer and the command resolver, in Dafny

This project models the core of `shelly`, a small interactive shell written in
Rust. The core has two parts: the tokenizer, which turns one typed line into a
command, its arguments and an output target, and the resolver, which decides
what the command name means.

- **The five-state tokenizer** (`parse_input` in `src/parse/mod.rs`):
  - it walks the bytes of the line with the states Normal, SingleQuote,
    DoubleQuote, PotentialRedirect and Redirect, the flags `escaped` and
    `is_word_done`, a byte buffer and two token streams;
  - `Parse.ParseInput` is that loop, kept as a `for` loop over the bytes;
  - it is proved equal to `Parse.Parsed`, a function that runs the same
    step (`Parse.Step`) over the rest of the line. The step gets the rest of
    the line because the quote arms look ahead for a matching quote.
- **The three-state tokenizer**, which appears twice: `parse_input` in
  `src/parse/parse_args.rs` and `parse_args` in `src/commands/util.rs`.
  - It is modelled once, as `ArgsScan`, with the table of bytes a backslash
    escapes inside double quotes as a parameter.
  - The two copies run the same algorithm. They differ in names (the
    function, the token list, and the table's last constant, `DOLLAR_SIGN`
    or `ENDLINE`), in a backslash written as a constant or as a literal,
    and in comments; the tables hold the same four bytes, and the model
    proves them equal.
  - On a line with no `1`, `2` or `>`, the main stream of the five-state
    tokenizer is proved to be the token list of the three-state one.
- **The resolver** (`src/lib.rs`):
  - `get_binaries_from_paths` is a method with two nested loops, proved
    against `Lib.Binaries`, a fold over the search path;
  - the file system is given as data: one `Dir` per search-path entry,
    holding a listing of entries, a listing that fails, or "not a
    directory";
  - `Shell::init`, `Shell::parse` and `get_command_info` are modelled;
  - lemmas prove three things about the index: which names it holds, that
    the first regular file in search order wins, and exactly when the
    search fails.
- **The builtins of `src/commands/mod.rs`**: their table, the `type`
  decision, the status `exit` returns, the line `echo` prints and the line
  printed for an invalid command. A panic (`unwrap` on `None`, or indexing
  an empty list) is modelled as an explicit outcome, never as a
  precondition.
- **The unit tests of the three tokenizer files**: each is stated and
  proved as a lemma about the model. Each test is derived from a general
  lemma about the shape of its line.

Lines are sequences of bytes (`Bytes.byte`), because all three tokenizers
work byte by byte. Each byte is a `char` below 256, so ASCII literals read
naturally.

### Where the code and the shell's design description differ

The model follows the code. These are the places where the code does
something other than the design description says; each is proved about the
model.

- After a `1` or `2` that is not followed by `>`, the design keeps the next
  byte as an ordinary byte. The code leaves PotentialRedirect without copying
  that byte, so `a1xb` becomes `a1b` (`LineShapes.DigitSwallowsNextByte`).
- The design says a space ends a word in Normal state. A space at the very
  start of a line, however, is copied into the command name
  (`LineShapes.LeadingSpaceInCommand`, `ArgsScan.LeadingSpaceKept`). This is
  only reachable for lines that are not all spaces.
- `>` does not end the word being read. In `cmd a>b`, `a` becomes the start
  of the output target instead of an argument (`LineShapes.GluedRedirect`).
- The design says the command is absent only for an empty or all-space
  line. A line whose main stream ends up empty makes `parse_input` panic
  when it indexes `final_parsed_input[0]`; a line holding only a single
  quote is one (`LineShapes.LoneQuotePanics`).
- The design says the executable index is rebuilt for every line.
  `Shell::parse` checks membership against the index built once by
  `Shell::init`, and takes the path from the index rebuilt for the line.
  - A binary that has disappeared since start-up makes `get_command_info`
    panic (`Lib.Shell.Select`).
  - When the path is unchanged this cannot happen
    (`ShellBehaviour.SamePathNeverPanics`).

## Model

| member | source | states |
|---|---|---|
| Parse.Pop | src/parse/mod.rs:71 | an empty buffer stays empty; otherwise pushing the removed last byte back gives the buffer again |
| Parse.DispatchKeepsStreams | src/parse/mod.rs:67-134 | no arm of the `match` pushes a token; outside PotentialRedirect the word only grows, by at most two bytes; in PotentialRedirect it is unchanged or loses its last byte; a word is marked done only when it holds something |
| Parse.StepPushesFinishedWord | src/parse/mod.rs:53-134 | one iteration keeps every token already pushed and pushes at most one, the word marked done in the iteration before |
| Parse.ScanKeepsStreams | src/parse/mod.rs:53-135 | the loop never loses a pushed token and pushes at most one token per byte |
| Parse.Finish | src/parse/mod.rs:137-145 | after the loop no token is lost, and exactly one is added, the buffer, when the buffer is non-empty; it goes to the redirect stream exactly when the state is Redirect, to the main stream otherwise |
| Parse.Assemble | src/parse/mod.rs:147-160 | fails exactly when the main stream is empty; otherwise the command followed by the arguments is the main stream, an argument list is never present and empty, `errorout` is unset, and the output is present exactly when the redirect stream is non-empty and is its first token trimmed at both ends: a whitespace run, the output and a whitespace run make up that token, and the output neither starts nor ends with whitespace |
| Parse.Flush | src/parse/mod.rs:54-65 | a word not marked done leaves the scanner as it is; a done word is pushed to the redirect stream (and the state reset to Normal) in Redirect state, to the main stream otherwise, and the buffer is cleared; afterwards no word is marked done and `escaped` is untouched |
| Parse.ScanKeepsGood | src/parse/mod.rs:53-135 | the loop never pushes an empty token to either stream, and a word is marked done only when its buffer is non-empty |
| Parse.StreamedTokensNonEmpty | src/parse/mod.rs:53-145 | no token in the main or the redirect stream of a line is empty |
| Parse.Parsed | src/parse/mod.rs:30-161 | the command is absent exactly for an all-space line; `errorout` is never set; a command is non-empty; arguments, when present, are a non-empty list of non-empty tokens; an output target has no whitespace at either end |
| Parse.ParseInput | src/parse/mod.rs:30-161 | the byte loop returns what `Parsed` specifies, including the panic on an empty main stream |
| Parse.FlushEarly | src/parse/mod.rs:54-65 | a word marked done is flushed before the next byte is looked at |
| Parse.OrdinaryRun | src/parse/mod.rs:130-132 | in Normal state, a run of bytes that are not special is appended to the word being read |
| Parse.SpacesAfterWord | src/parse/mod.rs:120 | spaces between words or at the end of the line, once a token exists and the buffer is empty, are skipped |
| Parse.Spaces | src/parse/mod.rs:117-120 | a run of spaces after a word ends that word and adds it to the main stream |
| Parse.LeadingSpaceCopied | src/parse/mod.rs:117-132 | a space before anything has been read is copied into the word |
| Parse.EscapedByte | src/parse/mod.rs:106-121 | outside quotes a backslash is dropped and the byte after it is copied, whatever it is |
| Parse.InsideSingleQuotes | src/parse/mod.rs:99-105 | inside single quotes every byte up to the closing quote is copied, and the state returns to Normal |
| Parse.SingleQuoted | src/parse/mod.rs:99-124 | a single quote with a partner later opens a quoted run whose bytes are appended to the word |
| Parse.UnmatchedQuoteDropped | src/parse/mod.rs:122-129 | a single or double quote with no partner later in the line is dropped |
| Parse.DoubleQuotedEscape | src/parse/mod.rs:81-90 | inside double quotes a backslash keeps only the next byte if it is `` ` \ " $ ``, and otherwise keeps both bytes |
| Parse.DoubleQuotedByte | src/parse/mod.rs:91-96 | inside double quotes any byte other than a backslash or a double quote is copied |
| Parse.InsideDoubleQuotes | src/parse/mod.rs:81-98 | a double-quoted body up to its closing quote appends what `Unescape` makes of it and returns to Normal |
| Parse.DoubleQuoted | src/parse/mod.rs:81-128 | a double quote with a partner opens a run that appends the unescaped body to the word |
| Parse.DigitKept | src/parse/mod.rs:68-115 | a `1` or `2` not followed by `>` stays in the word, and the byte after it is consumed without being copied |
| Parse.DigitRedirect | src/parse/mod.rs:68-115 | `1>` and `2>` start an output redirection and the digit is removed from the word |
| Parse.RedirectKeepsBuffer | src/parse/mod.rs:116 | `>` starts an output redirection without ending the word being read |
| Parse.RedirectSpacesSkipped | src/parse/mod.rs:76-80 | in Redirect state, spaces before the target are skipped |
| Parse.RedirectRun | src/parse/mod.rs:76-80 | in Redirect state, a run of non-space bytes is appended to the target |
| Parse.RedirectTarget | src/parse/mod.rs:54-80 | the target ends at the first space after it, goes to the redirect stream, and the state returns to Normal |
| Parse.RedirectTargetAtEnd | src/parse/mod.rs:76-145 | a target at the end of the line goes to the redirect stream |
| ArgsScan.DispatchKeepsTokens | src/parse/parse_args.rs:36-84 | no arm of the `match` pushes a token or takes a byte off the word; an arm adds at most two bytes; a word is marked done only when it holds something |
| ArgsScan.StepPushesFinishedWord | src/parse/parse_args.rs:28-85 | one iteration keeps every token already pushed and pushes at most one, the word marked done in the iteration before |
| ArgsScan.ScanKeepsTokens | src/parse/parse_args.rs:28-85 | the loop never loses a pushed token and pushes at most one token per byte |
| ArgsScan.Finish | src/parse/parse_args.rs:87-91 | after the loop no token is lost, and exactly one is added, the non-empty buffer, when there is one |
| ArgsScan.TokensByScan | src/parse/parse_args.rs:7-94 | a line that does not start with a space is tokenized by the loop and the final push alone |
| ArgsScan.OrdinaryRun | src/parse/parse_args.rs:62-82 | outside quotes, a run of bytes that are neither spaces, quotes nor backslashes is appended to the word being read |
| ArgsScan.SpacesAfterWord | src/parse/parse_args.rs:70 | spaces between words, once a token exists and the buffer is empty, are skipped |
| ArgsScan.Spaces | src/parse/parse_args.rs:28-70 | a run of spaces after the first token has begun ends the word being read, which becomes the next token, and never makes an empty token |
| ArgsScan.Flush | src/parse/parse_args.rs:29-34 | a word not marked done leaves the scanner as it is; a done word is pushed to the token list and the buffer cleared; afterwards no word is marked done, and the state and `escaped` are untouched |
| ArgsScan.ScanKeepsGood | src/parse/parse_args.rs:28-85 | the loop never pushes an empty token |
| ArgsScan.Tokens | src/parse/parse_args.rs:7-94 | an all-space line gives no tokens, and no token is empty |
| ArgsScan.ScanTokens | src/parse/parse_args.rs:7-94 | the byte loop returns exactly `Tokens` of the line |
| ArgsScan.ScanUnquoted | src/parse/parse_args.rs:62-91 | on bytes with no quote or backslash, the scan splits the rest of the line into words on spaces |
| ArgsScan.TokensOfUnquoted | src/parse/parse_args.rs:7-94 | a line with no quote or backslash that does not start with a space gives exactly its space-separated words |
| ArgsScan.LeadingSpaceKept | src/parse/parse_args.rs:67-82 | a leading space is kept at the front of the first token |
| ArgsScan.EscapedByte | src/parse/parse_args.rs:63-71 | outside quotes a backslash is dropped and the next byte is copied |
| ArgsScan.InsideSingleQuotes | src/parse/parse_args.rs:55-61 | inside single quotes every byte up to the closing quote is copied |
| ArgsScan.SingleQuoted | src/parse/parse_args.rs:55-74 | a single quote with a partner later opens a quoted run appended to the word |
| ArgsScan.UnmatchedQuoteDropped | src/parse/parse_args.rs:72-79 | a quote with no partner later is dropped |
| ArgsScan.DoubleQuotedEscape | src/parse/parse_args.rs:37-46 | inside double quotes a backslash before a byte of the table keeps that byte only, and otherwise keeps both |
| ArgsScan.DoubleQuotedByte | src/parse/parse_args.rs:47-52 | inside double quotes an ordinary byte is copied |
| ArgsScan.InsideDoubleQuotes | src/parse/parse_args.rs:37-54 | a double-quoted body appends its unescaped bytes and returns to Normal |
| ArgsScan.DoubleQuoted | src/parse/parse_args.rs:37-78 | a double quote with a partner opens a run that appends the unescaped body |
| ParseArgs.ParseInput | src/parse/parse_args.rs:7-94 | returns the token list `Tokens` with the table `` ` \ " $ ``; an all-space line gives none, and no token is empty |
| CommandsUtil.ParseArgs | src/commands/util.rs:7-86 | returns the token list `Tokens` with this file's table; an all-space line gives none, and no token is empty |
| CommandsUtil.SameAsParseInput | src/commands/util.rs:22-24 | `parse_args` and the `parse_input` of `parse_args.rs` give the same tokens for every line; this holds because the two tables are the same four bytes, and the algorithm is the same |
| ScannerAgreement.ScanSim | src/parse/mod.rs:53-135 | on bytes with no `1`, `2` or `>`, the five-state and the three-state loops stay in corresponding states |
| ScannerAgreement.MainStreamIsArgsTokens | src/parse/mod.rs:30-161 | on such a line the main stream is the three-state token list and the redirect stream is empty, so the command and arguments are its head and tail |
| ScannerAgreement.ParsedUnquoted | src/parse/mod.rs:30-161 | a line with no quote, backslash, `1`, `2` or `>` that does not start with a space parses into its space-separated words |
| ScannerAgreement.JoinedWordsRetokenize | src/parse/parse_args.rs:7-94 | words joined by single spaces tokenize back into the same words |
| Bytes.Join | src/commands/mod.rs:83 | joining no words gives the empty line, joining one word gives that word, and joining n words gives their bytes and n - 1 separating spaces |
| Bytes.JoinAppend | src/commands/mod.rs:83 | joining one more word appends a space and that word to the joined line |
| Bytes.WordsShape | src/parse/parse_args.rs:67-69 | splitting on spaces never gives an empty word or a word holding a space |
| Bytes.WordsOfJoin | src/commands/mod.rs:83 | splitting a space-joined list of non-empty, space-free words gives the list back |
| Bytes.Trim | src/parse/mod.rs:157 | `trim` removes a leading and a trailing run of Unicode whitespace: the input is a whitespace run, then the result, then a whitespace run; the result neither starts nor ends with whitespace; an input with none at either end is returned unchanged |
| Bytes.TrimStart | src/parse/mod.rs:157 | the input is a run of Unicode whitespace followed by the result, and the result does not start with whitespace |
| Bytes.TrimEnd | src/parse/mod.rs:157 | the input is the result followed by a run of Unicode whitespace, and the result does not end with whitespace |
| Bytes.UnescapeByte | src/parse/mod.rs:91-96 | inside double quotes an ordinary byte stands for itself |
| Bytes.UnescapeEscape | src/parse/mod.rs:82-89 | a backslash and the byte after it stand for that byte if it is special, and for both bytes otherwise |
| Bytes.UnescapePlain | src/parse/mod.rs:91-96 | a run with no backslash and no double quote stands for itself |
| Bytes.UnescapeLength | src/parse/mod.rs:81-97 | what a double-quoted body stands for is never longer than the body and at least half as long, and a body without backslashes stands for itself |
| Commands.ExitStatus | src/commands/mod.rs:63-70 | status OK exactly when the first argument is `0`; status USAGE when there are no arguments or the first is something else; a panic exactly on an empty argument list |
| Commands.EchoLine | src/commands/mod.rs:81-85 | echo panics exactly when there are no arguments; an empty list prints the empty line, one argument prints itself, and n arguments print their bytes and n - 1 spaces |
| Commands.EchoLineAppend | src/commands/mod.rs:83 | one more argument appends a space and that argument to the printed line |
| Commands.EchoLineSplitsBack | src/commands/mod.rs:83 | splitting the printed line on spaces gives the arguments back, when they are non-empty and hold no space |
| Commands.InvalidLine | src/commands/mod.rs:96-100 | a panic exactly when there is no command; otherwise the name followed by `: command not found` |
| Commands.TypeLine | src/commands/mod.rs:139-152 | the printed line is empty only for the unreachable empty-line arm; otherwise it is the name followed by `: not found`, by ` is a shell builtin`, or by ` is ` and the located path, and a missing argument prints `Wrong usage` |
| Commands.TypeReply | src/commands/mod.rs:134-154 | a panic exactly when there are no arguments and `Wrong usage` for an empty list; otherwise the first argument is a builtin exactly when it is a builtin name, not found exactly when it is neither a builtin nor indexed, and located at its indexed path exactly when it is indexed but not a builtin; the empty-line arm is never taken |
| Lib.GetBinariesFromPaths | src/lib.rs:55-78 | the nested loops return exactly the fold `Binaries` over the search path, including the first I/O error |
| Lib.EntryFailurePersists | src/lib.rs:59-60 | once an entry error is met, the rest of the directory cannot undo the failure |
| Lib.FailurePersists | src/lib.rs:57-59 | once an I/O error is met, the rest of the search path cannot undo the failure |
| Lib.AddEntriesContents | src/lib.rs:59-73 | a directory fails exactly when one of its entries is an error; otherwise the names become the old names plus its regular files, an old name keeps its path, and a new name gets the path of its first file |
| Lib.BinariesFailure | src/lib.rs:55-78 | the search fails exactly when some directory on the path is unreadable or yields an entry error |
| Lib.BinariesKeys | src/lib.rs:55-78 | a name is indexed exactly when some directory on the path holds a regular file of that name |
| Lib.BinariesFirstWins | src/lib.rs:70-72 | the path recorded for a name is that of its first regular file in search order |
| Lib.NotADirectoryIgnored | src/lib.rs:58 | a search-path entry that is not a directory contributes nothing and raises no error |
| Lib.GetCommandInfo | src/lib.rs:90-97 | for an indexed name, the name and the path recorded for it |
| Lib.Shell.Init | src/lib.rs:25-29 | the index of the search path, or the empty index when the search fails |
| Lib.Shell.Select | src/lib.rs:35-51 | invalid exactly when the name is neither a builtin nor in the start-up index; a builtin name selects that builtin; `type` gets the current index; an indexed name selects a run command carrying that name and the path from the current index; a panic exactly when the name is indexed at start-up but missing now; never "Try again." |
| Lib.Shell.Parse | src/lib.rs:31-52 | a tokenizer panic is a panic; otherwise the line is classified against the index re-read from the search path as it now is |
| ShellBehaviour.CommandLine | src/parse/mod.rs:30-161 | plain words joined by single spaces parse into that command and those arguments, with no output target |
| ShellBehaviour.BuiltinNamesArePlain | src/commands/mod.rs:12 | every builtin name is a plain word, so it can be typed as it is |
| ShellBehaviour.EchoPrintsItsArguments | src/commands/mod.rs:81-85 | `echo` followed by plain words prints exactly those words separated by single spaces |
| ShellBehaviour.ExitStatusOfCommandLine | src/commands/mod.rs:63-70 | a typed `exit 0` gives status OK; `exit` with another first word or with none gives USAGE |
| ShellBehaviour.ExitNeverPanicsAfterParse | src/commands/mod.rs:65-67 | no line the tokenizer accepts makes `exit` panic |
| ShellBehaviour.BlankLineIsInvalidAndPanics | src/lib.rs:35-37 | when the empty name is not in the start-up index (a file system gives no entry an empty name, but the model does not rule one out), a blank line is classified as invalid, and reporting it panics on the missing name |
| ShellBehaviour.SamePathNeverPanics | src/lib.rs:45-50 | when the search path is the one read at start-up, classifying an accepted line neither panics nor says "Try again." |
| ShellBehaviour.RunsFirstMatch | src/lib.rs:45-48 | a non-builtin name that is a file on the path selects a run command carrying the path of its first match in search order |
| ShellBehaviour.UnknownNameIsInvalid | src/lib.rs:36-37 | a name that is neither a builtin nor a file on the path is an invalid command |
| ShellBehaviour.UnreadablePathLeavesOnlyBuiltins | src/lib.rs:27 | when the search fails at start-up, a line is invalid exactly when its name is not a builtin |
| ShellBehaviour.TypeAgreesWithDispatch | src/commands/mod.rs:134-154 | on the same index, `type NAME` reports not found, a builtin or a located path exactly when `Shell::parse` makes NAME invalid, a builtin or a run command, and the located path is the one the run command carries |
| LineShapes.EscapedBytesKept | src/parse/mod.rs:106-121 | a plain word followed by three escaped copies of any byte is one command made of the word and three copies of that byte |
| LineShapes.EscapedBytesKeptTokens | src/parse/parse_args.rs:63-71 | a plain word followed by three escaped copies of any byte (`1`, `2` and `>` included) is the single token made of the word and three copies of that byte |
| LineShapes.QuotedWord | src/parse/mod.rs:99-124 | a single-quoted run alone on a line is the command, spaces included |
| LineShapes.QuotedWordTokens | src/parse/parse_args.rs:55-74 | a single-quoted run of any bytes but a single quote, alone on a line, is the single token holding those bytes, spaces included |
| LineShapes.QuotedThenWord | src/parse/mod.rs:99-124 | spaces inside a quoted run are kept, and spaces after it separate the next argument |
| LineShapes.QuotedThenWordTokens | src/parse/parse_args.rs:55-74 | a quoted run of any bytes but a single quote, spaces, then a plain word give two tokens: the run with its spaces, and the word |
| LineShapes.AdjacentQuoted | src/parse/mod.rs:99-124 | two quoted runs with nothing between them make one word |
| LineShapes.AdjacentQuotedTokens | src/parse/parse_args.rs:55-74 | two quoted runs of any bytes but a single quote, with nothing between them, are the single token made of both |
| LineShapes.QuotedGluedWord | src/parse/mod.rs:99-132 | a plain word right after a quoted run continues that word |
| LineShapes.QuotedGluedWordTokens | src/parse/parse_args.rs:55-82 | a plain word right after a quoted run of any bytes but a single quote continues that token |
| LineShapes.QuotedWordQuoted | src/parse/mod.rs:99-132 | quoted, plain and quoted runs glued together make one word |
| LineShapes.QuotedWordQuotedTokens | src/parse/parse_args.rs:55-82 | quoted, plain and quoted runs glued together are one token, whatever the quoted runs hold besides a single quote |
| LineShapes.QuotedArguments | src/parse/mod.rs:99-124 | a quoted run can be an argument, with its spaces kept |
| LineShapes.QuotedArgumentsTokens | src/parse/parse_args.rs:55-74 | a quoted run, spaces, a plain word, spaces and a quoted run give three tokens, the quoted ones with their spaces and any other byte but a single quote |
| LineShapes.UnmatchedQuoteArguments | src/parse/mod.rs:122-125 | a single quote with no partner is dropped and the rest of the line is split on spaces |
| LineShapes.UnmatchedQuoteArgumentsTokens | src/parse/parse_args.rs:72-75 | after a quoted run and a word, a single quote with no partner is dropped and the rest of the line is split on spaces into tokens |
| LineShapes.DoubleQuotedWord | src/parse/mod.rs:81-128 | a double-quoted run alone on a line is the command, and stands for its unescaped body |
| LineShapes.DoubleQuotedWordTokens | src/parse/parse_args.rs:37-78 | a double-quoted run alone on a line is the single token its body stands for with this tokenizer's table, whatever the body holds |
| LineShapes.EscapedQuotesAround | src/parse/mod.rs:81-97 | `\"` at both ends of a plain run stands for the run between double quotes |
| LineShapes.EscapedQuotesAroundEscape | src/parse/mod.rs:81-97 | the same with one escape pair inside, which stands for one byte or for both as the special table says |
| LineShapes.RedirectedOutput | src/parse/mod.rs:116-158 | in `cmd > target` the target is the output, trimmed, and is not an argument |
| LineShapes.NumberedRedirect | src/parse/mod.rs:68-80 | `1>` and `2>` redirect the output like `>`, and the digit reaches neither the arguments nor the target |
| LineShapes.GluedRedirect | src/parse/mod.rs:116 | in `cmd a>b` the word before `>` becomes the start of the target |
| LineShapes.DigitSwallowsNextByte | src/parse/mod.rs:68-75 | a `1` or `2` not followed by `>` is kept, and the byte after it is lost |
| LineShapes.LeadingSpaceInCommand | src/parse/mod.rs:117-132 | a space at the start of a line is part of the command name |
| LineShapes.LoneQuotePanics | src/parse/mod.rs:122-148 | a line holding only a single quote leaves no token, and `parse_input` panics |
| TokenizerExamples.EscapedSpaces | src/parse/mod.rs:167-177 | `test\ \ \ ` is the command `test` followed by three spaces, and the single token of the same from the three-state tokenizer |
| TokenizerExamples.EscapedSingleQuotes | src/parse/mod.rs:179-188 | `test\'\'\'` is the command `test'''`, and the single token `test'''` |
| TokenizerExamples.QuotedCommandThenWord | src/parse/mod.rs:196-207 | `'hellooooo    '      test` is the quoted command with its spaces and the argument `test` |
| TokenizerExamples.AdjacentQuotedRuns | src/parse/mod.rs:209-220 | `'hello''test'` is the one command `hellotest` |
| TokenizerExamples.SingleQuotedCommand | src/parse/mod.rs:222-259 | `'hello'`, `'hello world'` and `'hello   '` are each one command, spaces included |
| TokenizerExamples.QuotedThenGluedByte | src/parse/mod.rs:261-272 | `'hello's` is the command `hellos` |
| TokenizerExamples.QuotedUnquotedQuoted | src/parse/mod.rs:274-285 | `'hello  's'test  t'` is the command `hello  stest  t` |
| TokenizerExamples.QuotedArgumentWithSpaces | src/parse/mod.rs:287-298 | `'hellooo' s 'again   t'` is the command `hellooo` with the arguments `s` and `again   t` |
| TokenizerExamples.UnmatchedSingleQuote | src/parse/mod.rs:300-312 | `'hellooo' s 'again   t` is the command `hellooo` with the arguments `s`, `again` and `t` |
| TokenizerExamples.EscapedDoubleQuotes | src/parse/mod.rs:319-356 | the three lines of the form `"\"…\""` are one command that keeps the escaped double quotes |
| TokenizerExamples.EscapesInsideDoubleQuotes | src/parse/mod.rs:358-382 | `"\"hellooo \\ test\""` keeps one backslash, and `"\"hellooo \' test\""` keeps the backslash and the quote |
| TokenizerExamples.RedirectToFile | src/parse/mod.rs:389-400 | `echo > test.txt` is the command `echo` with no arguments and the output `test.txt` |

In the five-state `LineShapes` rows a plain word is a non-empty run of bytes
other than a space, a quote, a backslash, `1`, `2` or `>`. In the
three-state `…Tokens` rows it is a non-empty run of bytes other than a
space, a quote or a backslash: that tokenizer has no redirection, so `1`,
`2` and `>` are ordinary bytes there.

Each example lemma except `RedirectToFile` also states the token list the
three-state tokenizer gives for the same line. Those token lists are the
expectations of the tests at src/parse/parse_args.rs:100-205 and
src/commands/util.rs:92-197.

## Left out

- UTF-8: tokens are byte sequences. The model leaves out `String::from_utf8(…).expect(…)`, which panics on a token that is not valid UTF-8. A single byte swallowed after a digit can split a multi-byte character, which makes the code panic; the model does not capture that panic.
- `CommandOptions::get_output` (src/parse/mod.rs:14-19) opens a file. That is I/O, and nothing in the core calls it.
- `get_path_variable` (src/lib.rs:80-86) reads the `PATH` environment variable, and its `todo!()` panics when the variable is unset. The search path is instead a parameter: the `dirs` of `Shell.Init` and `Shell.Parse`.
- The file system is given as data. The model does not capture a directory changing while it is being read, or `is_dir` and `is_file` following symbolic links.
- The `unwrap` on a file name that is not valid UTF-8 (src/lib.rs:63-68) is left out: names are byte sequences.
- The `to_str().unwrap()` in the `type` reply (src/commands/mod.rs:147) is left out: paths are byte sequences.
- The effects of running a command are left out, because they are I/O or a process-wide effect:
  - `RunCommand` spawning a process. `RunCommand::execute` (src/commands/mod.rs:112-119) starts the binary by its bare name and lets the operating system search for it; the path that `Shell::parse` records in the command is never used to start it. The model records that path and stops there, so which file is actually started is not modelled;
  - `PwdCommand` and `CdCommand`;
  - `println!`;
  - `process::exit`.
- For each builtin, the model keeps only the value the command computes: the exit status, the printed line, or the `type` answer.
- src/main.rs, the read-print loop, is not part of this model.
- Lib.Shell: a value (`datatype`), not a class. The index is set once by `Shell::init` and never updated afterwards, so nothing is changed in place.
- Lib.Shell.Parse: `Result<Box<dyn Execute>, …>` becomes the `Dispatch` value. Its "Try again." error is modelled, and is proved unreachable.
