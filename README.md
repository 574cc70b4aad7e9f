# vshell-emulator: the cursor and the command layer, in Dafny

vshell-emulator is a small Go shell. It lets an operator look inside a ZIP or
TAR archive with `ls`, `cd`, `cat`, `pwd` and `exit`. This project models and
proves two parts of it.

- **The navigation cursor of `FileSystem`** (filesystem.go). The current
  directory is a list of path components. The first component is the
  extraction directory `buffer`. The second is a name derived from the
  archive path.
  - `newFileSystem` builds the first cursor. It derives the name by cutset
    trimming (`strings.TrimRight`).
  - `cd` changes the cursor in place. It pops one component, resets to the
    two fixed components, or appends the pieces of a directory argument.
  - `pwd` and `terminalPWD` render the cursor.

  `FileSystem` is a class with a `currentPath: seq<string>` field.
  `FileSystem.Cd` is a `modifies this` method, proved equal to the pure
  transition `CdStep`. The lemmas are stated about `CdStep`, and about `Run`,
  which chains any number of `cd` calls.
- **The command layer** (main.go). It covers:
  - the normalisation of an input line into tokens (`Tokenize`, the pure part
    of `ReadCommand`);
  - the classification of a token list into the codes `HELP` to `EXIT`
    (`ValidateCommand`);
  - the usage lookup (`HelpInfo`);
  - the start-up path check (`ValidateFlags` and its extension test).

The Go library calls that carry the meaning are modelled in their own modules:

- `GoStrings`: `Split`, `Join`, `Count`, `TrimSpace`, `Fields` and the
  cutset `TrimRight`, on strings of Unicode code points.
- `GoPath`: `filepath.Join` and `Clean`, with `/` as the separator. They are
  written from Go's documented rules: collapse repeated separators, drop `.`,
  let `..` cancel the element before it, and write an empty result as `.`.
  The Go standard library is not part of this model.

Storage appears in `cd` only through `os.Stat`. The model replaces it by a
map from the string handed to `Stat` to `Dir` or `File`. A missing key is a
failed `Stat`. The I/O outcomes of `newFileSystem` are two booleans passed
in: whether `os.ReadFile` succeeded, and whether the extraction succeeded.
The outcome of `os.Stat` in `ValidateFlags` is a parameter too.

Where the code departs from what a sandboxed archive shell would be expected
to do, the model follows the code, with one exception, the missing-target
panic below:

- **`..` is not rejected.** A sandboxed shell would be expected to refuse
  `..` pieces in `cd` and never to leave the extraction root. The code only
  counts `/` characters and appends whatever `strings.Split` returns.
  `Filesystem.DotDotEscapesRoot` proves the escape. From `[buffer, t]`,
  `cd ../..` onto a directory leaves a cursor that `filepath.Join` turns into
  `.`, the directory that holds `buffer`. `pwd` then prints `./..`. What the
  code does keep is the shape of the cursor: its first two components never
  change.
- **The name is cut by a cutset, not by an extension.** One would expect the
  name to be the archive's base name without its extension. The code instead
  trims trailing characters from the whole path as cutsets:
  - `.zip` for ZIP, so `tip.zip` gives `t`;
  - `.tar` and then `.gz` for TAR, so `data.tar` gives `d` and `x.tar.gz`
    gives `x.tar`.
- **A missing target panics.** Here the model does not follow the code. In
  `cd`, a target that cannot be stat'd makes the code panic (see Findings).
  `CdStep`, `FileSystem.Cd` and the lemmas about them return the stat error
  instead, which is what the code evidently intends. The code as written is
  modelled separately by `StatCheckAsWritten`.
- **Nothing wires these parts together.** In main.go, `main` never calls
  `newFileSystem` and never calls `cd`, `pwd` or `terminalPWD`. Its `LS`
  case is empty.

## Model

| member | source | states |
|---|---|---|
| `Commands.ValidateCommand` | main.go:77-126 | a result without an error carries a code between `HELP` and `EXIT`, from a list whose first token is a supported command; every error result has code -1; the "empty command" error comes exactly from the empty list |
| `Commands.EmptyCommandRefused` | main.go:78-80 | the empty token list gives code -1 and the empty-command error |
| `Commands.LsClassification` | main.go:83-91 | `ls` alone gives `LS`; `ls --help` gives `HELP`; any other argument, or more than one, is an error — a path argument is never accepted |
| `Commands.CdClassification` | main.go:92-101 | with exactly one argument, `..` gives `CD_BACK`, `--help` gives `HELP` and anything else gives `CD_TO`; any other argument count is an error (each an if-and-only-if) |
| `Commands.CatClassification` | main.go:102-109 | with exactly one argument, `--help` gives `HELP` and anything else gives `CAT`; any other count is an error |
| `Commands.PwdAndExitClassification` | main.go:110-122 | `pwd` alone gives `PWD`, `pwd --help` gives `HELP`, anything else is an error; `exit` gives `EXIT` whatever follows it |
| `Commands.UnknownCommandRefused` | main.go:123-124 | a first token outside the supported commands (main.go:13-19) gives code -1 and an error naming that token |
| `Commands.HelpInfo` | main.go:60-75 | usage text exists exactly for `ls`, `cd`, `cat` and `pwd` (not for `exit`), and it is the usage of the command asked about; every other word gets the fixed default answer |
| `Commands.HelpCodeHasUsage` | main.go:164-168 | whenever a token list is classified `HELP`, the loop's `HelpInfo(cmd[0])` finds usage text for it, never the default answer |
| `Commands.Tokenize` | main.go:134-135 | the normalised token list is never empty |
| `Commands.TokenizeBlank` | main.go:134-135 | a blank or all-white-space line gives exactly `[""]`, and only such a line does |
| `Commands.TokenizeWords` | main.go:134-135 | every other line gives exactly its white-space-separated words, each non-empty and free of white space |
| `Commands.TokenizeIdempotent` | main.go:134-135 | normalising the space-joined tokens again gives the same tokens |
| `Commands.BlankLineIsUnsupportedCommand` | main.go:153-158 | a line read by the loop never yields the empty-command error; a blank line is refused as the unsupported command `""` |
| `Commands.HasArchiveExtension` | main.go:53 | the extension test passes exactly when the last `.`-separated piece is `tar` or `zip`: when the path ends in `.tar` or `.zip`, or is the bare word `tar` or `zip` |
| `Commands.TarGzRefused` | main.go:53 | `x.tar.gz` fails the extension test |
| `Commands.ValidateFlags` | main.go:42-58 | the flags pass exactly when the path is set, `os.Stat` finds it, and it passes the extension test; an unset path is reported first; the bad-extension error comes exactly from an existing path that fails the test |
| `GoStrings.Split` | main.go:135 | `strings.Split` gives one piece more than there are separators, and no piece contains the separator |
| `GoStrings.SplitJoin` | main.go:135 | splitting a `Join` of separator-free pieces gives the pieces back |
| `GoStrings.JoinSplit` | filesystem.go:92 | joining the pieces of a `Split` gives the string back |
| `GoStrings.LastPiece` | main.go:53 | the last piece of a split is the separator-free word `w` exactly when the string is `w` or ends with the separator and `w` |
| `GoStrings.CountAll` | filesystem.go:80 | `Count(s, c)` equals the length of `s` exactly when every character of `s` is `c` |
| `GoStrings.Count` | filesystem.go:80 | `strings.Count` counts at most one per character, and is zero exactly when the character does not occur |
| `GoStrings.Fields` | main.go:134 | every word `strings.Fields` returns is non-empty and free of white space |
| `GoStrings.FieldsEmpty` | main.go:134 | `Fields` finds no word exactly in an all-white-space string |
| `GoStrings.FieldsTrimSpace` | main.go:134 | `TrimSpace` does not change the words of a line |
| `GoStrings.FieldsJoin` | main.go:134 | the words of the single-space join of words are those words |
| `GoStrings.TrimSpace` | main.go:134 | `strings.TrimSpace` never lengthens a string, is empty exactly for an all-white-space string, and otherwise starts and ends outside white space |
| `GoStrings.TrimRight` | filesystem.go:53 | the result is a prefix of the input; every removed character is in the cutset; the result is empty or ends outside the cutset |
| `GoStrings.TrimRightUnique` | filesystem.go:53 | any prefix that leaves only cutset characters behind it and ends outside the cutset is the result of `TrimRight` |
| `GoPath.JoinNames` | filesystem.go:131 | `filepath.Join` of ordinary names (not empty, `.` or `..`, and without `/`) is their plain `/`-join |
| `GoPath.Join` | filesystem.go:85 | `filepath.Join` is empty exactly when every element is empty |
| `GoPath.Clean` | filesystem.go:131 | a cleaned path is never empty |
| `Filesystem.NewFileSystem` | filesystem.go:40-63 | succeeds exactly when the read and the extraction succeed in ZIP or TAR mode; any other mode is the unsupported-mode error; on success the cursor has two components and the first is `buffer` |
| `Filesystem.ZipRootName` | filesystem.go:53 | the ZIP name is `path[..k]` exactly when `k` is where trailing `.`, `z`, `i` and `p` characters stop; so it never ends in one of them |
| `Filesystem.TarRootName` | filesystem.go:59-60 | the TAR name trims the cutset `.tar` and then `.gz`; it is a prefix of the path and never ends in `.`, `g` or `z` |
| `Filesystem.ZipNameExample` | filesystem.go:53 | `tip.zip` opens as `[buffer, t]` |
| `Filesystem.TarNameExample` | filesystem.go:59-60 | `data.tar` opens as `[buffer, d]` |
| `Filesystem.TarGzNameExample` | filesystem.go:59-60 | `x.tar.gz` opens as `[buffer, x.tar]` |
| `Filesystem.StatCheckAsWritten` | filesystem.go:85-90 | the guard as written panics exactly when the stat fails, and lets `cd` proceed exactly onto a directory |
| `Filesystem.CheckTarget` | filesystem.go:85-90 | the corrected guard lets `cd` proceed exactly onto a directory, returns the stat error for a target that cannot be stat'd, and refuses a file as not a directory |
| `Filesystem.CdStep` | filesystem.go:69-96 | from a cursor of two or more components, one `cd` keeps at least two and leaves the first two unchanged; an error leaves the cursor unchanged |
| `Filesystem.FileSystem.constructor` | filesystem.go:53 | the new `FileSystem` holds the given cursor |
| `Filesystem.FileSystem.Cd` | filesystem.go:69-96 | the new cursor and the returned error are those of `CdStep` on the old cursor; an error leaves the cursor unchanged; the first two components survive |
| `Filesystem.CdBack` | filesystem.go:74-78 | `CD_BACK`, whatever its path argument, removes exactly the last component when there are more than two, otherwise changes nothing, and never returns an error |
| `Filesystem.CdToReset` | filesystem.go:80-83 | `CD_TO` with an argument made only of `/`, the empty one included, resets the cursor to its first two components without error |
| `Filesystem.CdToDirectory` | filesystem.go:85-92 | `CD_TO` onto a directory appends the `/`-separated pieces of the argument, and joining those pieces with `/` gives the argument back |
| `Filesystem.CdToRefused` | filesystem.go:85-90 | `CD_TO` onto a file is refused as not a directory, and onto a path that does not stat as the stat error; the cursor is unchanged either way |
| `Filesystem.CdUnknownCommand` | filesystem.go:95 | any other command code is an error and leaves the cursor unchanged |
| `Filesystem.Run` | filesystem.go:69-96 | after any sequence of `cd` calls from a cursor of two or more components, the cursor still has at least two and the same first two |
| `Filesystem.BackUndoesAppend` | filesystem.go:74-78 | as many `CD_BACK` calls as components were appended restore the cursor, whatever path arguments those calls carry (`..` as the command loop passes it, or any other) |
| `Filesystem.CdToThenBack` | filesystem.go:74-92 | entering a directory and then making one `CD_BACK` call, with any path argument, per piece of the argument returns to the starting cursor |
| `Filesystem.RenderingShape` | filesystem.go:130-140 | the prompt is exactly `~` for a cursor of at most two components, and otherwise `~` followed directly, with no separator, by the components from index 2 joined with `/`; `pwd` does not depend on component 0 |
| `Filesystem.Pwd` | filesystem.go:130-132 | `pwd` always starts with `./`, and is `./` alone exactly when every component after the first is empty |
| `Filesystem.TerminalPwd` | filesystem.go:134-140 | the prompt always starts with `~`, and is `~` alone for a cursor of at most two components |
| `Filesystem.TerminalPwdRoundTrip` | filesystem.go:134-140 | the prompt starts with `~`, and splitting what follows it at `/` gives back the components after the first two |
| `Filesystem.CdToPrompt` | filesystem.go:134-140 | after entering a directory, the prompt is the old prompt, then a `/` unless the old prompt was `~`, then the argument as typed |
| `Filesystem.PwdNames` | filesystem.go:130-132 | for a cursor of ordinary names, `pwd` is `./` followed by the components after the first joined with `/`, so component 0 is never shown |
| `Filesystem.InitialRendering` | filesystem.go:130-140 | a freshly opened cursor with an ordinary name shows `~` as the prompt and `./` plus the name as `pwd` |
| `Filesystem.DotDotEscapesRoot` | filesystem.go:85-92 | `cd ../..` from `[buffer, t]` is accepted onto a directory; the resulting cursor joins to `.` (outside `buffer`) and `pwd` prints `./..` |
| `Filesystem.MissingTargetPanicsAsWritten` | filesystem.go:85-90 | as written, the guard after `os.Stat` panics on any target that cannot be stat'd |
| `Filesystem.CheckTargetAgrees` | filesystem.go:85-90 | the corrected guard never panics; where the written guard does not panic, the two agree; where it panics, the corrected one returns the stat error |

## Left out

- Reading the archive, extracting it (`os.ReadFile`, `extract.Zip`, `extract.Tar`) and removing the extraction directory (`close`). These are storage I/O. Only their success or failure is an input.
- `ls`. It is directory I/O, and it refers to an undeclared constant `LS_TO`, so filesystem.go does not compile as it stands.
- `cat`. It streams file bytes with `io.Copy`, which is I/O.
- `os.Stat` inside `cd`. It is replaced by a map from the stat'd path to `Dir` or `File`. The map is a fixed snapshot, so it says nothing about how the operating system resolves `..` or symbolic links. The `Info.Name()` shown in the not-a-directory message is not modelled either.
- `ParseFlags`, the `bufio` read in `ReadCommand`, and the `main` loop with its printing and `log.Fatalf`. These are process and terminal glue. Only the pure normalisation of a line that was read is modelled.
- The unused `Folder` and `File` types, and the unused `zipR`, `tarR` and `mode` fields of `FileSystem`. Nothing reads them.
- The English wording of error messages and usage texts. Errors are datatype values, and `HelpInfo` returns `Usage(command)` or a fixed `UnexpectedHelpTopic`.
- Go strings are byte strings. The model works on code points, which matches Go for valid UTF-8 input.
- Slice capacity. Go can reslice `currentPath[:2]` within capacity even when the length is below 2. The model instead requires a cursor of at least two components for the reset branch (`CdAllowed`). The only shorter cursor the code can build is the empty cursor of a failed `newFileSystem`, and its capacity is 0, so resetting it would panic in Go too.
- Filesystem.FileSystem.Cd: the missing-target case returns `StatError` where the source panics (see Findings). The model uses the corrected guard.
- Filesystem.CdStep: the same correction. A target that cannot be stat'd gives `StatError` and leaves the cursor unchanged, where the source panics.
- Filesystem.CdToRefused: states the corrected behaviour for a target that cannot be stat'd (the stat error, cursor unchanged). The source panics there; `Filesystem.MissingTargetPanicsAsWritten` states what the code does.
- Filesystem.Pwd: requires a cursor of at least one component. In Go, `currentPath[1:]` on the empty cursor panics. That cursor can only come from the zero `FileSystem{}` that a failed `newFileSystem` returns next to its error. The model does not represent that panic, for the same reason as the slice-capacity line above.

## Findings

| source | as written | input that shows it | evidently intended | confidence | as-written member | corrected member |
|---|---|---|---|---|---|---|
| filesystem.go:85-90 | the guard calls `IsDir` on the stat result before checking the error, and a failed `os.Stat` returns a nil `FileInfo` | `cd nosuch` where `nosuch` does not exist: the call panics | return the stat error and leave the cursor unchanged | high, not executed | `Filesystem.MissingTargetPanicsAsWritten` | `Filesystem.CheckTarget` |
