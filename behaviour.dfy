/** Properties of the shell as a whole: what a typed line becomes once it has
    been tokenized by src/parse/mod.rs, classified by `Shell::parse` in
    src/lib.rs and handed to a builtin of src/commands/mod.rs. */
module ShellBehaviour {
  import opened Wrappers
  import opened Bytes
  import opened Commands
  import opened Lib
  import Tokenizer = Parse
  import ScannerAgreement

  lemma {:induction false} JoinOfPlainWords(ws: seq<Bytes>)
    requires forall i | 0 <= i < |ws| :: Tokenizer.PlainWord(ws[i])
    ensures forall k | 0 <= k < |Join(ws)| :: Join(ws)[k] == WHITESPACE || Tokenizer.Ordinary(Join(ws)[k])
    decreases |ws|
  {
    if |ws| > 1 {
      JoinOfPlainWords(ws[1..]);
      var line := Join(ws);
      var head := ws[0] + [WHITESPACE];
      assert line == head + Join(ws[1..]);
      forall k | 0 <= k < |line| ensures line[k] == WHITESPACE || Tokenizer.Ordinary(line[k]) {
        if k >= |head| {
          assert line[k] == Join(ws[1..])[k - |head|];
        }
      }
    }
  }

  /** A line made of a command name and its arguments, separated by single
      spaces and holding no quote, backslash, `1`, `2` or `>`, is parsed into
      that command and those arguments, with no output target. */
  lemma CommandLine(name: Bytes, ws: seq<Bytes>)
    requires Tokenizer.PlainWord(name) && forall i | 0 <= i < |ws| :: Tokenizer.PlainWord(ws[i])
    ensures Tokenizer.Parsed(Join([name] + ws))
         == Success(Tokenizer.CommandOptions(Some(name), if ws == [] then None else Some(ws), None, None))
  {
    var words := [name] + ws;
    var line := Join(words);
    assert forall i | 0 <= i < |words| :: Tokenizer.PlainWord(words[i]);
    JoinOfPlainWords(words);
    JoinStart(words);
    assert ScannerAgreement.NoRedirectBytes(line);
    ScannerAgreement.ParsedUnquoted(line);
    WordsOfJoin(words);
    assert words[1..] == ws;
  }

  /** Every builtin name can be typed as it is. */
  lemma BuiltinNamesArePlain(name: Bytes)
    requires name in BUILTINS
    ensures Tokenizer.PlainWord(name)
  {
    var exit, echo, type_, pwd, cd := BUILTINS[0], BUILTINS[1], BUILTINS[2], BUILTINS[3], BUILTINS[4];
    assert exit[0] == 'e' && exit[1] == 'x' && exit[2] == 'i' && exit[3] == 't';
    assert echo[0] == 'e' && echo[1] == 'c' && echo[2] == 'h' && echo[3] == 'o';
    assert type_[0] == 't' && type_[1] == 'y' && type_[2] == 'p' && type_[3] == 'e';
    assert pwd[0] == 'p' && pwd[1] == 'w' && pwd[2] == 'd';
    assert cd[0] == 'c' && cd[1] == 'd';
  }

  /** `echo` followed by plain words prints those words separated by single
      spaces. */
  lemma EchoPrintsItsArguments(echo: Bytes, ws: seq<Bytes>)
    requires echo == "echo"
    requires ws != [] && forall i | 0 <= i < |ws| :: Tokenizer.PlainWord(ws[i])
    ensures var r := Tokenizer.Parsed(Join([echo] + ws));
      && r.Success? && r.value.cmd == Some(echo)
      && EchoLine(r.value.args) == Returned(Join(ws))
  {
    BuiltinNamesArePlain(echo);
    CommandLine(echo, ws);
  }

  /** `exit 0` exits with status OK; `exit` with any other plain first
      argument, or with none, exits with status USAGE. */
  lemma ExitStatusOfCommandLine(exit: Bytes, ws: seq<Bytes>)
    requires exit == "exit"
    requires forall i | 0 <= i < |ws| :: Tokenizer.PlainWord(ws[i])
    ensures var r := Tokenizer.Parsed(Join([exit] + ws));
      && r.Success?
      && ExitStatus(r.value.args) == if ws != [] && ws[0] == "0" then Returned(OK) else Returned(USAGE)
  {
    BuiltinNamesArePlain(exit);
    CommandLine(exit, ws);
  }

  /** No line the tokenizer accepts makes `exit` panic: an argument list is
      never present and empty. */
  lemma ExitNeverPanicsAfterParse(input: Bytes)
    requires Tokenizer.Parsed(input).Success?
    ensures ExitStatus(Tokenizer.Parsed(input).value.args).Returned?
  {
  }

  /** A line of spaces (or an empty line) has no command; unless the empty
      name is a known binary it is classified as invalid, and reporting it
      then panics on the missing name. */
  lemma BlankLineIsInvalidAndPanics(shell: Shell, input: Bytes, dirs: seq<Dir>)
    requires AllSpace(input) && [] !in shell.validCommands
    ensures shell.Parse(input, dirs) == Selected(Invalid(Tokenizer.Default))
    ensures InvalidLine(shell.Parse(input, dirs).command.options.cmd).Panicked?
  {
  }

  /** When the path searched for the line is the one searched at start-up,
      classifying an accepted line never panics: the path of every binary
      found at start-up is in the index read for the line. */
  lemma SamePathNeverPanics(input: Bytes, dirs: seq<Dir>)
    requires Tokenizer.Parsed(input).Success?
    ensures !Shell.Init(dirs).Parse(input, dirs).Panicked?
    ensures !Shell.Init(dirs).Parse(input, dirs).TryAgain?
  {
  }

  /** A name that is not a builtin and is the name of a regular file on the
      search path selects a run command that carries the path of the first
      such file in search order. */
  lemma RunsFirstMatch(input: Bytes, dirs: seq<Dir>, i: int, j: int)
    requires Tokenizer.Parsed(input).Success?
    requires var cmd := Tokenizer.Parsed(input).value.cmd;
      cmd.Some? && cmd.value !in BUILTINS && FirstFileAt(dirs, i, j, cmd.value)
    requires Binaries(dirs).Success?
    ensures var options := Tokenizer.Parsed(input).value;
      Shell.Init(dirs).Parse(input, dirs)
        == Selected(Run(options, CommandInfo(options.cmd.value, dirs[i].entries[j].path)))
  {
    BinariesFirstWins(dirs, i, j, Tokenizer.Parsed(input).value.cmd.value);
  }

  /** A name that is neither a builtin nor the name of any regular file on a
      search path that could be read is an invalid command. */
  lemma UnknownNameIsInvalid(input: Bytes, dirs: seq<Dir>)
    requires Tokenizer.Parsed(input).Success?
    requires var cmd := Tokenizer.Parsed(input).value.cmd;
      cmd.Some? && cmd.value !in BUILTINS && !exists i, j :: FileAt(dirs, i, j, cmd.value)
    requires Binaries(dirs).Success?
    ensures Shell.Init(dirs).Parse(input, dirs) == Selected(Invalid(Tokenizer.Parsed(input).value))
  {
    BinariesKeys(dirs);
  }

  /** When the search path cannot be read at start-up, only builtins are
      recognised. */
  lemma UnreadablePathLeavesOnlyBuiltins(input: Bytes, dirs: seq<Dir>, later: seq<Dir>)
    requires Tokenizer.Parsed(input).Success?
    requires exists i | 0 <= i < |dirs| :: Faulty(dirs[i])
    ensures var name := Tokenizer.Parsed(input).value.cmd.GetOr([]);
      name !in BUILTINS <==> Shell.Init(dirs).Parse(input, later) == Selected(Invalid(Tokenizer.Parsed(input).value))
  {
    BinariesFailure(dirs);
  }

  /** `type NAME` describes NAME exactly as `Shell::parse` classifies it, when
      both consult the same index: not found for an invalid command, a shell
      builtin for a builtin, and, for a name it selects a run command for,
      the path that command carries. */
  lemma TypeAgreesWithDispatch(shell: Shell, options: Tokenizer.CommandOptions, name: Bytes)
    requires options.cmd == Some(name)
    ensures var d := shell.Select(options, shell.validCommands);
      var t := TypeReply(Some([name]), shell.validCommands);
      && (d == Selected(Invalid(options)) <==> t == Returned(NotFound(name)))
      && (d.Selected? && d.command.BuiltinName() == Some(name) <==> t == Returned(ShellBuiltin(name)))
      && (d.Selected? && d.command.Run? <==> t.Returned? && t.value.Located?)
      && (d.Selected? && d.command.Run? ==> t == Returned(Located(name, d.command.info.path)))
  {
  }
}
