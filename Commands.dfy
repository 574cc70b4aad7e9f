/**
 * The command layer of main.go: the command codes, the classification of a
 * token list (`ValidateCommand`), the normalisation of an input line into
 * tokens (the pure part of `ReadCommand`), the help lookup (`HelpInfo`) and
 * the start-up check of the archive path (`ValidateFlags`).
 */
module Commands {
  import opened Wrappers
  import opened GoStrings

  // The command codes, numbered from 0 as Go's `iota` numbers them.
  const HELP: int := 0
  const LS: int := 1
  const CD_BACK: int := 2
  const CD_TO: int := 3
  const CAT: int := 4
  const PWD: int := 5
  const EXIT: int := 6

  /** The first tokens the shell knows. */
  const SupportedCommands: set<string> := {"ls", "cd", "cat", "pwd", "exit"}

  predicate IsCommandCode(code: int) {
    HELP <= code <= EXIT
  }

  /** Why a token list was refused; the wording of Go's messages is not modelled. */
  datatype CommandError =
    | EmptyCommand
    | UnsupportedArg
    | NoArgsSupported(command: string)
    | OnlyHelpSupported(command: string)
    | UnsupportedCommand(name: string)

  /** Go's `(int, error)` pair returned by `ValidateCommand`. */
  datatype Validation = Validation(code: int, err: Option<CommandError>)

  /** `ValidateCommand`: classifies a token list by its first token and its arity. */
  function ValidateCommand(cmd: seq<string>): (v: Validation)
    ensures v.err.None? ==> IsCommandCode(v.code) && |cmd| >= 1 && cmd[0] in SupportedCommands
    ensures v.err.Some? ==> v.code == -1
    ensures v.err == Some(EmptyCommand) <==> |cmd| == 0
  {
    if |cmd| == 0 then Validation(-1, Some(EmptyCommand))
    else if cmd[0] == "ls" then
      if |cmd| == 1 then Validation(LS, None)
      else if |cmd| > 2 then Validation(-1, Some(UnsupportedArg))
      else if cmd[1] == "--help" then Validation(HELP, None)
      else Validation(-1, Some(UnsupportedArg))
    else if cmd[0] == "cd" then
      if |cmd| != 2 then Validation(-1, Some(UnsupportedArg))
      else if cmd[1] == "--help" then Validation(HELP, None)
      else if cmd[1] == ".." then Validation(CD_BACK, None)
      else Validation(CD_TO, None)
    else if cmd[0] == "cat" then
      if |cmd| != 2 then Validation(-1, Some(UnsupportedArg))
      else if cmd[1] == "--help" then Validation(HELP, None)
      else Validation(CAT, None)
    else if cmd[0] == "pwd" then
      if |cmd| > 2 then Validation(-1, Some(NoArgsSupported(cmd[0])))
      else if |cmd| == 2 then
        if cmd[1] == "--help" then Validation(HELP, None)
        else Validation(-1, Some(OnlyHelpSupported(cmd[0])))
      else Validation(PWD, None)
    else if cmd[0] == "exit" then Validation(EXIT, None)
    else Validation(-1, Some(UnsupportedCommand(cmd[0])))
  }

  /** The usage text of a command, or the fixed answer for any other word. */
  datatype HelpText = Usage(command: string) | UnexpectedHelpTopic

  /**
   * `HelpInfo`: usage text exists exactly for the commands other than `exit`,
   * and it is the usage of the command asked about.
   */
  function HelpInfo(cmd: string): (h: HelpText)
    ensures h.Usage? <==> cmd in SupportedCommands - {"exit"}
    ensures h.Usage? ==> h.command == cmd
  {
    if cmd == "ls" then Usage("ls")
    else if cmd == "cd" then Usage("cd")
    else if cmd == "cat" then Usage("cat")
    else if cmd == "pwd" then Usage("pwd")
    else UnexpectedHelpTopic
  }

  /**
   * The normalisation in `ReadCommand`: trim the line, take its fields, join
   * them with single spaces and split the result at spaces again.
   */
  function Tokenize(line: string): (tokens: seq<string>)
    ensures |tokens| >= 1
  {
    Split(Join(Fields(TrimSpace(line)), ' '), ' ')
  }

  /**
   * The extension test of `ValidateFlags`: the last `.`-separated piece is
   * `tar` or `zip`, which is the case exactly when the path ends in `.tar` or
   * `.zip` or is the bare word `tar` or `zip`.
   */
  function HasArchiveExtension(path: string): (r: bool)
    ensures r <==> path == "tar" || path == "zip" || EndsWith(path, ".tar") || EndsWith(path, ".zip")
  {
    var pieces := Split(path, '.');
    assert '.' !in "tar" && '.' !in "zip";
    assert ['.'] + "tar" == ".tar" && ['.'] + "zip" == ".zip";
    LastPiece(path, '.', "tar");
    LastPiece(path, '.', "zip");
    pieces[|pieces| - 1] == "tar" || pieces[|pieces| - 1] == "zip"
  }

  /** What `os.Stat` reported about the archive path. */
  datatype StatResult = Exists | DoesNotExist | StatFailed

  datatype FlagError = PathNotSet | FileDoesNotExist | UnexpectedStatError | BadExtension

  /**
   * `ValidateFlags`, with the outcome of `os.Stat(path)` passed in: the flags
   * pass exactly for a set path that exists and has an archive extension, and
   * an unset path is reported before anything else is looked at.
   */
  function ValidateFlags(path: string, stat: StatResult): (r: Option<FlagError>)
    ensures r == None <==> path != "" && stat == Exists && HasArchiveExtension(path)
    ensures path == "" ==> r == Some(PathNotSet)
    ensures r == Some(BadExtension) <==> path != "" && stat == Exists && !HasArchiveExtension(path)
  {
    if path == "" then Some(PathNotSet)
    else if stat == DoesNotExist then Some(FileDoesNotExist)
    else if stat == StatFailed then Some(UnexpectedStatError)
    else
      assert stat == Exists;
      if !HasArchiveExtension(path) then Some(BadExtension) else None
  }

  // ---------------------------------------------------------------- classification

  /** An empty token list is refused with code -1. */
  lemma EmptyCommandRefused()
    ensures ValidateCommand([]) == Validation(-1, Some(EmptyCommand))
  {
  }

  /** `ls` takes no argument except `--help`; a path argument is never accepted. */
  lemma LsClassification(cmd: seq<string>)
    requires |cmd| >= 1 && cmd[0] == "ls"
    ensures ValidateCommand(cmd).code == LS <==> |cmd| == 1
    ensures ValidateCommand(cmd).code == HELP <==> |cmd| == 2 && cmd[1] == "--help"
    ensures ValidateCommand(cmd).err.Some? <==> |cmd| > 2 || (|cmd| == 2 && cmd[1] != "--help")
  {
  }

  /** `cd` takes exactly one argument: `..` goes up, `--help` asks for help, anything else is a target. */
  lemma CdClassification(cmd: seq<string>)
    requires |cmd| >= 1 && cmd[0] == "cd"
    ensures ValidateCommand(cmd).code == CD_BACK <==> |cmd| == 2 && cmd[1] == ".."
    ensures ValidateCommand(cmd).code == HELP <==> |cmd| == 2 && cmd[1] == "--help"
    ensures ValidateCommand(cmd).code == CD_TO <==> |cmd| == 2 && cmd[1] != ".." && cmd[1] != "--help"
    ensures ValidateCommand(cmd).err.Some? <==> |cmd| != 2
  {
  }

  /** `cat` takes exactly one argument: `--help` or a file. */
  lemma CatClassification(cmd: seq<string>)
    requires |cmd| >= 1 && cmd[0] == "cat"
    ensures ValidateCommand(cmd).code == HELP <==> |cmd| == 2 && cmd[1] == "--help"
    ensures ValidateCommand(cmd).code == CAT <==> |cmd| == 2 && cmd[1] != "--help"
    ensures ValidateCommand(cmd).err.Some? <==> |cmd| != 2
  {
  }

  /** `pwd` takes no argument except `--help`; `exit` ignores whatever follows it. */
  lemma PwdAndExitClassification(cmd: seq<string>)
    requires |cmd| >= 1
    ensures cmd[0] == "pwd" ==>
      && (ValidateCommand(cmd).code == PWD <==> |cmd| == 1)
      && (ValidateCommand(cmd).code == HELP <==> |cmd| == 2 && cmd[1] == "--help")
      && (ValidateCommand(cmd).err.Some? <==> |cmd| > 2 || (|cmd| == 2 && cmd[1] != "--help"))
    ensures cmd[0] == "exit" ==> ValidateCommand(cmd) == Validation(EXIT, None)
  {
  }

  /** A first token outside the supported commands is always refused, naming that token. */
  lemma UnknownCommandRefused(cmd: seq<string>)
    requires |cmd| >= 1 && cmd[0] !in SupportedCommands
    ensures ValidateCommand(cmd) == Validation(-1, Some(UnsupportedCommand(cmd[0])))
  {
  }

  /**
   * The read loop prints `HelpInfo(cmd[0])` for a `HELP` code: every token
   * list classified as `HELP` names a command that has usage text.
   */
  lemma HelpCodeHasUsage(cmd: seq<string>)
    requires ValidateCommand(cmd) == Validation(HELP, None)
    ensures HelpInfo(cmd[0]) == Usage(cmd[0])
  {
  }

  // ---------------------------------------------------------------- normalisation

  /** A line holding only white space becomes exactly `[""]`, and only such a line does. */
  lemma TokenizeBlank(line: string)
    ensures Tokenize(line) == [""] <==> AllSpace(line)
  {
    FieldsTrimSpace(line);
    FieldsEmpty(line);
    if !AllSpace(line) {
      TokenizeWords(line);
      assert IsToken(Tokenize(line)[0]);
    }
  }

  /** Any other line becomes its white-space-separated words: non-empty and space-free. */
  lemma TokenizeWords(line: string)
    requires !AllSpace(line)
    ensures Tokenize(line) == Fields(line)
    ensures forall i :: 0 <= i < |Tokenize(line)| ==> IsToken(Tokenize(line)[i])
  {
    FieldsTrimSpace(line);
    FieldsEmpty(line);
    var words := Fields(line);
    forall i | 0 <= i < |words| ensures ' ' !in words[i] {
      assert IsToken(words[i]);
      assert IsSpace(' ');
    }
    SplitJoin(words, ' ');
  }

  /** Normalising the space-joined tokens again gives the same tokens. */
  lemma TokenizeIdempotent(line: string)
    ensures Tokenize(Join(Tokenize(line), ' ')) == Tokenize(line)
  {
    if AllSpace(line) {
      TokenizeBlank(line);
      assert Join([""], ' ') == "";
      TokenizeBlank("");
    } else {
      TokenizeWords(line);
      var words := Fields(line);
      FieldsJoin(words);
      var j := Join(words, ' ');
      FieldsEmpty(j);
      TokenizeWords(j);
    }
  }

  /**
   * The read loop never sees an empty token list: a blank line is refused as
   * the unsupported command "" rather than as an empty command.
   */
  lemma BlankLineIsUnsupportedCommand(line: string)
    ensures ValidateCommand(Tokenize(line)).err != Some(EmptyCommand)
    ensures AllSpace(line) ==> ValidateCommand(Tokenize(line)) == Validation(-1, Some(UnsupportedCommand("")))
  {
    if AllSpace(line) {
      TokenizeBlank(line);
      assert "" !in SupportedCommands;
      UnknownCommandRefused([""]);
    }
  }

  // ---------------------------------------------------------------- the archive path

  /** A double extension is judged by its last piece only: `x.tar.gz` is refused. */
  lemma TarGzRefused()
    ensures !HasArchiveExtension("x.tar.gz")
  {
    assert EndsWith("x.tar.gz", ".gz");
  }
}
