/** src/commands/mod.rs: the builtin commands and what each one decides.
    Printing, exiting the process and changing directory are effects; the
    model states the line a command prints or the status it exits with. */
module Commands {
  import opened Wrappers
  import opened Bytes

  /** `BUILTINS`: the names the shell handles itself. */
  const BUILTINS: seq<Bytes> := ["exit", "echo", "type", "pwd", "cd"]

  /** `exitcode::OK` and `exitcode::USAGE` */
  const OK: int := 0
  const USAGE: int := 64

  // ---------------------------------------------------------------------
  // exit
  // ---------------------------------------------------------------------

  /** The status `exit` ends the process with, given its arguments. The guard
      takes the first argument with `unwrap`, so a present but empty argument
      list panics. */
  function ExitStatus(args: Option<seq<Bytes>>): (r: Outcome<int>)
    ensures r == Returned(OK) <==> args.Some? && args.value != [] && args.value[0] == "0"
    ensures r == Returned(USAGE) <==> args.None? || (args.value != [] && args.value[0] != "0")
    ensures r.Panicked? <==> args == Some([])
  {
    match args
    case Some(v) =>
      if v == [] then Panicked
      else if v[0] == "0" then Returned(OK)
      else Returned(USAGE)
    case None => Returned(USAGE)
  }

  // ---------------------------------------------------------------------
  // echo
  // ---------------------------------------------------------------------

  /** The line `echo` prints: its arguments separated by single spaces. With
      no arguments at all the `unwrap` panics. */
  function EchoLine(args: Option<seq<Bytes>>): (r: Outcome<Bytes>)
    ensures r.Panicked? <==> args.None?
    ensures args == Some([]) ==> r == Returned([])
    ensures args.Some? && |args.value| == 1 ==> r == Returned(args.value[0])
    ensures args.Some? && args.value != [] ==>
      |r.value| == |args.value| - 1 + TotalLength(args.value)
  {
    match args
    case None => Panicked
    case Some(v) => Returned(Join(v))
  }

  /** One more argument adds a space and that argument to the printed line. */
  lemma EchoLineAppend(ws: seq<Bytes>, w: Bytes)
    requires ws != []
    ensures EchoLine(Some(ws + [w])) == Returned(EchoLine(Some(ws)).value + [WHITESPACE] + w)
  {
    JoinAppend(ws, w);
  }

  /** Splitting the printed line on spaces gives the arguments back, when
      none of them is empty or holds a space. */
  lemma EchoLineSplitsBack(ws: seq<Bytes>)
    requires forall i | 0 <= i < |ws| :: ws[i] != [] && NoSpace(ws[i])
    ensures EchoLine(Some(ws)).Returned? && Words(EchoLine(Some(ws)).value) == ws
  {
    WordsOfJoin(ws);
  }

  // ---------------------------------------------------------------------
  // invalid command
  // ---------------------------------------------------------------------

  /** The line printed for a name that is neither a builtin nor a known
      binary. The name is taken with `unwrap`, so a line without a command
      panics here. */
  function InvalidLine(cmd: Option<Bytes>): (r: Outcome<Bytes>)
    ensures r.Panicked? <==> cmd.None?
    ensures cmd.Some? ==>
      && |r.value| == |cmd.value| + |": command not found"|
      && r.value[..|cmd.value|] == cmd.value
      && r.value[|cmd.value|..] == ": command not found"
  {
    match cmd
    case None => Panicked
    case Some(c) => Returned(c + ": command not found")
  }

  // ---------------------------------------------------------------------
  // type
  // ---------------------------------------------------------------------

  /** The five arms of the `match` in `TypeCommand::execute`. */
  datatype TypeAnswer =
    | NotFound(name: Bytes)
    | ShellBuiltin(name: Bytes)
    | Located(name: Bytes, path: Bytes)
    | WrongUsage
    | EmptyLine

  /** The line each answer prints: empty only for the empty line; otherwise
      the name asked about followed by ": not found", " is a shell builtin"
      or " is " and the located path, or the fixed "Wrong usage". */
  function TypeLine(a: TypeAnswer): (r: Bytes)
    ensures r == [] <==> a.EmptyLine?
    ensures (a.NotFound? || a.ShellBuiltin? || a.Located?) ==> a.name <= r && |r| > |a.name|
    ensures a.Located? ==> |a.path| <= |r| && r[|r| - |a.path|..] == a.path
    ensures a.NotFound? ==> r[|a.name|..] == ": not found"
    ensures a.ShellBuiltin? ==> r[|a.name|..] == " is a shell builtin"
    ensures a.Located? ==> |r| == |a.name| + |" is "| + |a.path| && r[|a.name|..|r| - |a.path|] == " is "
    ensures a.WrongUsage? ==> r == "Wrong usage"
  {
    match a
    case NotFound(n) => n + ": not found"
    case ShellBuiltin(n) => n + " is a shell builtin"
    case Located(n, p) => n + " is " + p
    case WrongUsage => "Wrong usage"
    case EmptyLine => []
  }

  /** What `type` answers about its first argument, given the index of known
      binaries (name to path). A builtin name is reported as a builtin even
      when a binary of that name is known; the final arm is never reached. */
  function TypeReply(args: Option<seq<Bytes>>, index: map<Bytes, Bytes>): (r: Outcome<TypeAnswer>)
    ensures r.Panicked? <==> args.None?
    ensures r.Returned? ==> !r.value.EmptyLine?
    ensures r == Returned(WrongUsage) <==> args == Some([])
    ensures args.Some? && args.value != [] ==>
      var name := args.value[0];
      && (r == Returned(ShellBuiltin(name)) <==> name in BUILTINS)
      && (r == Returned(NotFound(name)) <==> name !in BUILTINS && name !in index)
      && (r.Returned? && r.value.Located? <==> name !in BUILTINS && name in index)
      && (name !in BUILTINS && name in index ==> r == Returned(Located(name, index[name])))
  {
    match args
    case None => Panicked
    case Some(v) =>
      if v == [] then Returned(WrongUsage)
      else
        var bin := v[0];
        if bin !in BUILTINS && bin !in index then Returned(NotFound(bin))
        else if bin in BUILTINS then Returned(ShellBuiltin(bin))
        else if bin in index then Returned(Located(bin, index[bin]))
        else Returned(EmptyLine)
  }
}
