/** src/lib.rs: the index of executables found on the search path, and the
    `Shell` that classifies a parsed line as a builtin, a known binary or an
    invalid command. The file system is given as data: one `Dir` per entry
    of the search path, in order. */
module Lib {
  import opened Wrappers
  import opened Bytes
  import opened Commands
  import Tokenizer = Parse

  // ---------------------------------------------------------------------
  // The file system as the resolver sees it
  // ---------------------------------------------------------------------

  /** One item yielded by `read_dir`: an entry with its file name, whether
      its path is a regular file, and its full path; or an I/O error. */
  datatype DirEntry = Entry(name: Bytes, isFile: bool, path: Bytes) | EntryError

  /** A search-path entry: not a directory (or absent), a directory whose
      listing cannot be opened, or a directory and its listing. */
  datatype Dir = NotADirectory | Unreadable | Listing(entries: seq<DirEntry>)

  datatype IoError = IoError

  /** Binary name to the path it was found at. */
  type Index = map<Bytes, Bytes>

  // ---------------------------------------------------------------------
  // Specification: the index built by a prefix of the search
  // ---------------------------------------------------------------------

  /** The index after adding the entries `es` of one directory to `m`: a
      regular file is added under its name unless that name is already
      present; an entry error stops the search. */
  function AddEntries(m: Index, es: seq<DirEntry>): Result<Index, IoError>
    decreases |es|
  {
    if es == [] then Success(m)
    else match AddEntries(m, es[..|es| - 1])
      case Failure(e) => Failure(e)
      case Success(m') =>
        match es[|es| - 1]
        case EntryError => Failure(IoError)
        case Entry(name, isFile, path) =>
          Success(if isFile && name !in m' then m'[name := path] else m')
  }

  /** The result of searching the directories `dirs` in order. */
  function Binaries(dirs: seq<Dir>): Result<Index, IoError>
    decreases |dirs|
  {
    if dirs == [] then Success(map[])
    else match Binaries(dirs[..|dirs| - 1])
      case Failure(e) => Failure(e)
      case Success(m) =>
        match dirs[|dirs| - 1]
        case NotADirectory => Success(m)
        case Unreadable => Failure(IoError)
        case Listing(es) => AddEntries(m, es)
  }

  /** Entry `j` of `es` is a regular file called `k`. */
  predicate FileIn(es: seq<DirEntry>, j: int, k: Bytes) {
    0 <= j < |es| && es[j].Entry? && es[j].isFile && es[j].name == k
  }

  /** Entry `j` of directory `i` is a regular file called `k`. */
  predicate FileAt(dirs: seq<Dir>, i: int, j: int, k: Bytes) {
    0 <= i < |dirs| && dirs[i].Listing? && FileIn(dirs[i].entries, j, k)
  }

  /** No file called `k` comes before entry `j` of directory `i` in search order. */
  ghost predicate FirstFileAt(dirs: seq<Dir>, i: int, j: int, k: Bytes) {
    && FileAt(dirs, i, j, k)
    && forall i', j' | FileAt(dirs, i', j', k) :: i < i' || (i == i' && j <= j')
  }

  /** A directory whose listing fails, or that yields an entry error. */
  predicate Faulty(d: Dir) {
    d.Unreadable? || (d.Listing? && exists j | 0 <= j < |d.entries| :: d.entries[j].EntryError?)
  }

  // ---------------------------------------------------------------------
  // get_binaries_from_paths
  // ---------------------------------------------------------------------

  /** `get_binaries_from_paths`: the loop over the search path, and inside
      it the loop over one directory's entries; the `?` operators return
      the first I/O error met. */
  method GetBinariesFromPaths(paths: seq<Dir>) returns (r: Result<Index, IoError>)
    ensures r == Binaries(paths)
  {
    var binaries: Index := map[];
    for i := 0 to |paths|
      invariant Binaries(paths[..i]) == Success(binaries)
    {
      assert paths[..i + 1][..i] == paths[..i];
      match paths[i] {
        case NotADirectory =>
        case Unreadable =>
          assert Binaries(paths[..i + 1]).Failure?;
          FailurePersists(paths, i + 1);
          return Failure(IoError);
        case Listing(entries) =>
          ghost var before := binaries;
          for j := 0 to |entries|
            invariant AddEntries(before, entries[..j]) == Success(binaries)
          {
            assert entries[..j + 1][..j] == entries[..j];
            match entries[j] {
              case EntryError =>
                assert AddEntries(before, entries[..j + 1]).Failure?;
                EntryFailurePersists(before, entries, j + 1);
                assert Binaries(paths[..i + 1]).Failure?;
                FailurePersists(paths, i + 1);
                return Failure(IoError);
              case Entry(name, isFile, path) =>
                if isFile && name !in binaries {
                  binaries := binaries[name := path];
                }
            }
          }
          assert entries[..|entries|] == entries;
      }
    }
    assert paths[..|paths|] == paths;
    return Success(binaries);
  }

  /** Once an entry error has been met, the rest of the directory does not
      matter. */
  lemma {:induction false} EntryFailurePersists(m: Index, es: seq<DirEntry>, n: nat)
    requires n <= |es| && AddEntries(m, es[..n]).Failure?
    ensures AddEntries(m, es).Failure?
    decreases |es| - n
  {
    if n < |es| {
      assert es[..n + 1][..n] == es[..n];
      EntryFailurePersists(m, es, n + 1);
    } else {
      assert es[..n] == es;
    }
  }

  /** Once an I/O error has been met, the rest of the search path does not
      matter. */
  lemma {:induction false} FailurePersists(dirs: seq<Dir>, n: nat)
    requires n <= |dirs| && Binaries(dirs[..n]).Failure?
    ensures Binaries(dirs) == Failure(IoError)
    decreases |dirs| - n
  {
    if n < |dirs| {
      assert dirs[..n + 1][..n] == dirs[..n];
      FailurePersists(dirs, n + 1);
    } else {
      assert dirs[..n] == dirs;
      assert Binaries(dirs).error == IoError by {
        match Binaries(dirs).error { case IoError => }
      }
    }
  }

  // ---------------------------------------------------------------------
  // What the index holds
  // ---------------------------------------------------------------------

  /** Adding one directory's entries fails exactly when one of them is an
      error; otherwise the names are those already present plus the regular
      files of the directory, a present name keeps its path, and a new name
      gets the path of its first file in the directory. */
  lemma {:induction false} AddEntriesContents(m: Index, es: seq<DirEntry>)
    ensures AddEntries(m, es).Failure? <==> exists j | 0 <= j < |es| :: es[j].EntryError?
    ensures AddEntries(m, es).Success? ==>
      var m' := AddEntries(m, es).value;
      && (forall k :: k in m' <==> k in m || exists j :: FileIn(es, j, k))
      && (forall k | k in m :: m'[k] == m[k])
      && (forall k, j | FileIn(es, j, k) && k !in m && (forall j' | FileIn(es, j', k) :: j <= j') ::
            m'[k] == es[j].path)
    decreases |es|
  {
    if es != [] {
      var n := |es| - 1;
      var init := es[..n];
      AddEntriesContents(m, init);
      assert forall j | 0 <= j < n :: init[j] == es[j];
      if AddEntries(m, init).Success? && es[n].Entry? {
        var m0 := AddEntries(m, init).value;
        var m' := AddEntries(m, es).value;
        forall k
          ensures k in m' <==> k in m || exists j :: FileIn(es, j, k)
        {
          if k in m' && k !in m {
            if k in m0 {
              var j :| FileIn(init, j, k);
              assert FileIn(es, j, k);
            } else {
              assert FileIn(es, n, k);
            }
          }
          if exists j :: FileIn(es, j, k) {
            var j :| FileIn(es, j, k);
            if j < n {
              assert FileIn(init, j, k);
            }
          }
        }
        forall k, j | FileIn(es, j, k) && k !in m && (forall j' | FileIn(es, j', k) :: j <= j')
          ensures m'[k] == es[j].path
        {
          if j < n {
            assert FileIn(init, j, k);
            assert forall j' | FileIn(init, j', k) :: j <= j' by {
              forall j' | FileIn(init, j', k) ensures j <= j' {
                assert FileIn(es, j', k);
              }
            }
          } else {
            forall j' | FileIn(init, j', k) ensures false {
              assert FileIn(es, j', k);
            }
          }
        }
      }
      if AddEntries(m, init).Success? && es[n].EntryError? {
        assert es[n].EntryError?;
      }
    }
  }

  /** The search fails exactly when some directory on it is faulty. */
  lemma {:induction false} BinariesFailure(dirs: seq<Dir>)
    ensures Binaries(dirs).Failure? <==> exists i | 0 <= i < |dirs| :: Faulty(dirs[i])
    decreases |dirs|
  {
    if dirs != [] {
      var n := |dirs| - 1;
      var init := dirs[..n];
      BinariesFailure(init);
      assert forall i | 0 <= i < n :: init[i] == dirs[i];
      if Binaries(init).Success? && dirs[n].Listing? {
        AddEntriesContents(Binaries(init).value, dirs[n].entries);
      }
      if exists i | 0 <= i < |dirs| :: Faulty(dirs[i]) {
        var i :| 0 <= i < |dirs| && Faulty(dirs[i]);
        if i < n {
          assert Faulty(init[i]);
        }
      }
    }
  }

  /** A name is in the index exactly when some directory on the search path
      holds a regular file of that name. */
  lemma {:induction false} BinariesKeys(dirs: seq<Dir>)
    requires Binaries(dirs).Success?
    ensures forall k :: k in Binaries(dirs).value <==> exists i, j :: FileAt(dirs, i, j, k)
    decreases |dirs|
  {
    if dirs != [] {
      var n := |dirs| - 1;
      var init := dirs[..n];
      BinariesKeys(init);
      var m0 := Binaries(init).value;
      var m := Binaries(dirs).value;
      if dirs[n].Listing? {
        AddEntriesContents(m0, dirs[n].entries);
      }
      forall k
        ensures k in m <==> exists i, j :: FileAt(dirs, i, j, k)
      {
        if k in m {
          if k in m0 {
            var i, j :| FileAt(init, i, j, k);
            assert FileAt(dirs, i, j, k);
          } else {
            var j :| FileIn(dirs[n].entries, j, k);
            assert FileAt(dirs, n, j, k);
          }
        }
        if exists i, j :: FileAt(dirs, i, j, k) {
          var i, j :| FileAt(dirs, i, j, k);
          if i < n {
            assert FileAt(init, i, j, k);
          } else {
            assert FileIn(dirs[n].entries, j, k);
          }
        }
      }
    }
  }

  /** The path recorded for a name is that of its first regular file in
      search order: earlier directories win, and within a directory the
      earlier entry wins. */
  lemma {:induction false} BinariesFirstWins(dirs: seq<Dir>, i: int, j: int, k: Bytes)
    requires Binaries(dirs).Success? && FirstFileAt(dirs, i, j, k)
    ensures k in Binaries(dirs).value && Binaries(dirs).value[k] == dirs[i].entries[j].path
    decreases |dirs|
  {
    var n := |dirs| - 1;
    var init := dirs[..n];
    var m0 := Binaries(init).value;
    if dirs[n].Listing? {
      AddEntriesContents(m0, dirs[n].entries);
    }
    if i < n {
      assert FirstFileAt(init, i, j, k) by {
        forall i', j' | FileAt(init, i', j', k) ensures i < i' || (i == i' && j <= j') {
          assert FileAt(dirs, i', j', k);
        }
      }
      BinariesFirstWins(init, i, j, k);
    } else {
      BinariesKeys(init);
      assert k !in m0 by {
        forall i', j' | FileAt(init, i', j', k) ensures false {
          assert FileAt(dirs, i', j', k);
        }
      }
      forall j' | FileIn(dirs[n].entries, j', k) ensures j <= j' {
        assert FileAt(dirs, n, j', k);
      }
    }
  }

  /** A search-path entry that is not a directory contributes nothing. */
  lemma {:induction false} NotADirectoryIgnored(a: seq<Dir>, b: seq<Dir>)
    ensures Binaries(a + [NotADirectory] + b) == Binaries(a + b)
    decreases |b|
  {
    if b == [] {
      assert a + [NotADirectory] + b == a + [NotADirectory];
      assert (a + [NotADirectory])[..|a|] == a;
      assert a + b == a;
    } else {
      var n := |b| - 1;
      assert (a + [NotADirectory] + b)[..|a| + 1 + n] == a + [NotADirectory] + b[..n];
      assert (a + b)[..|a| + n] == a + b[..n];
      NotADirectoryIgnored(a, b[..n]);
    }
  }

  // ---------------------------------------------------------------------
  // get_command_info and the Shell
  // ---------------------------------------------------------------------

  /** `CommandInfo`: a binary's name and the path it was found at. */
  datatype CommandInfo = CommandInfo(bin: Bytes, path: Bytes)

  /** `get_command_info`: its caller must make sure the name is in the
      index (the `unwrap` would panic otherwise). */
  function GetCommandInfo(validCommands: Index, command: Bytes): (r: CommandInfo)
    requires command in validCommands
    ensures r.bin == command && r.path == validCommands[command]
  {
    CommandInfo(command, validCommands[command])
  }

  /** The command object `Shell::parse` builds. `Type` carries the index it
      will consult; `Run` the binary's name and the path recorded for it. */
  datatype Command =
    | Invalid(options: Tokenizer.CommandOptions)
    | Exit(options: Tokenizer.CommandOptions)
    | Echo(options: Tokenizer.CommandOptions)
    | Type(options: Tokenizer.CommandOptions, index: Index)
    | Pwd(options: Tokenizer.CommandOptions)
    | Cd(options: Tokenizer.CommandOptions)
    | Run(options: Tokenizer.CommandOptions, info: CommandInfo)
  {
    /** The builtin name a command stands for, if it is a builtin. */
    function BuiltinName(): Option<Bytes> {
      match this
      case Exit(_) => Some("exit")
      case Echo(_) => Some("echo")
      case Type(_, _) => Some("type")
      case Pwd(_) => Some("pwd")
      case Cd(_) => Some("cd")
      case _ => None
    }
  }

  /** The result of `Shell::parse`: a command, the "Try again." error, or a
      panic (from `parse_input`, or from `get_command_info` on a name the
      current index lacks). */
  datatype Dispatch = Selected(command: Command) | TryAgain | Panicked

  /** `Shell`: the index read once when the shell starts. */
  datatype Shell = Shell(validCommands: Index) {

    /** `Shell::init`: a failed search leaves the index empty. */
    static function Init(dirs: seq<Dir>): (s: Shell)
      ensures Binaries(dirs).Failure? ==> s.validCommands == map[]
      ensures Binaries(dirs).Success? ==> s.validCommands == Binaries(dirs).value
    {
      Shell(Binaries(dirs).GetOr(map[]))
    }

    /** The `match` of `Shell::parse` on the command name (the empty name when
      the line has none), given the index `current` re-read for this line.
      Membership is checked against the index read at start-up; the path of
      a binary comes from the current one. */
    function Select(options: Tokenizer.CommandOptions, current: Index): (r: Dispatch)
      ensures !r.TryAgain?
      ensures var name := options.cmd.GetOr([]);
        && (r == Selected(Invalid(options)) <==> name !in BUILTINS && name !in validCommands)
        && (name in BUILTINS ==> r.Selected? && r.command.BuiltinName() == Some(name)
                                 && r.command.options == options)
        && (name == "type" ==> r == Selected(Type(options, current)))
        && (name !in BUILTINS && name in validCommands && name in current ==>
              r == Selected(Run(options, CommandInfo(name, current[name]))))
        && (r.Panicked? <==> name !in BUILTINS && name in validCommands && name !in current)
    {
      var name := options.cmd.GetOr([]);
      if name !in BUILTINS && name !in validCommands then Selected(Invalid(options))
      else if name == "exit" then Selected(Exit(options))
      else if name == "echo" then Selected(Echo(options))
      else if name == "type" then Selected(Type(options, current))
      else if name == "pwd" then Selected(Pwd(options))
      else if name == "cd" then Selected(Cd(options))
      else if name in validCommands then
        if name in current then Selected(Run(options, GetCommandInfo(current, name)))
        else Dispatch.Panicked
      else TryAgain
    }

    /** `Shell::parse`: tokenize the line, search the path again as it now
      is (`dirs`), and classify. */
    function Parse(input: Bytes, dirs: seq<Dir>): (r: Dispatch)
      ensures Tokenizer.Parsed(input).Failure? ==> r.Panicked?
      ensures Tokenizer.Parsed(input).Success? ==>
        r == Select(Tokenizer.Parsed(input).value, Binaries(dirs).GetOr(map[]))
    {
      match Tokenizer.Parsed(input)
      case Failure(_) => Dispatch.Panicked
      case Success(options) => Select(options, Binaries(dirs).GetOr(map[]))
    }
  }
}
