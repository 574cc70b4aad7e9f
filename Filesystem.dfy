/**
 * The navigation cursor of filesystem.go. A `FileSystem` holds the current
 * directory as a list of path components whose first two are the extraction
 * directory `buffer` and the name derived from the archive path; `cd` moves
 * it, `pwd` and `terminalPWD` render it. Storage is seen only through
 * `os.Stat`, which the model replaces by a map from the stat'd path to the
 * kind of entry found there.
 */
module Filesystem {
  import opened Wrappers
  import opened GoStrings
  import GoPath
  import Commands

  // Archive kinds, numbered from 0 as Go's `iota` numbers them.
  const ZIP: int := 0
  const TAR: int := 1

  /** The directory the archive is extracted into; always the first cursor component. */
  const BUFFERFILE: string := "buffer"

  // ---------------------------------------------------------------- newFileSystem

  datatype OpenError = ReadFailed | ExtractFailed | UnsupportedMode(mode: int)

  /**
   * The cursor `newFileSystem` gives the new `FileSystem`. `readOk` and
   * `extractOk` stand for the outcomes of `os.ReadFile` and of the extraction
   * into `buffer`. The name is derived from the whole path by cutset
   * trimming: `.zip` for ZIP; `.tar` and then `.gz` for TAR.
   */
  function NewFileSystem(path: string, mode: int, readOk: bool, extractOk: bool): (r: Result<seq<string>, OpenError>)
    ensures r.Ok? <==> readOk && (mode == ZIP || mode == TAR) && extractOk
    ensures r.Ok? ==> |r.value| == 2 && r.value[0] == BUFFERFILE
    ensures readOk && mode != ZIP && mode != TAR ==> r == Err(UnsupportedMode(mode))
  {
    if !readOk then Err(ReadFailed)
    else if mode == ZIP then
      if !extractOk then Err(ExtractFailed)
      else Ok([BUFFERFILE, TrimRight(path, ".zip")])
    else if mode == TAR then
      if !extractOk then Err(ExtractFailed)
      else Ok([BUFFERFILE, TrimRight(TrimRight(path, ".tar"), ".gz")])
    else Err(UnsupportedMode(mode))
  }

  // ---------------------------------------------------------------- storage as seen by cd

  datatype Entry = Dir | File

  /** `os.Stat` on a map from path strings to entries; an absent key is a failed stat. */
  function Lookup(tree: map<string, Entry>, p: string): (r: Option<Entry>)
  {
    if p in tree then Some(tree[p]) else None
  }

  /** The path `cd` hands to `os.Stat`: the joined cursor, a `/`, and the argument. */
  function StatTarget(cursor: seq<string>, path: string): (r: string)
  {
    GoPath.Join(cursor) + "/" + path
  }

  datatype CdError = StatError | NotADirectory | UnexpectedCommand(cmd: int)

  /** What the guard after `os.Stat` in `cd` does with the stat result. */
  datatype StatCheck = Proceed | Reject(e: CdError) | Panic

  /**
   * The guard as written: it calls `IsDir` on the stat result before it looks
   * at the error, and a failed stat returns a nil `FileInfo`, so a missing
   * target panics instead of returning the error.
   */
  function StatCheckAsWritten(info: Option<Entry>): (r: StatCheck)
    ensures r == Panic <==> info == None
    ensures r == Proceed <==> info == Some(Dir)
  {
    match info
    case None => Panic
    case Some(Dir) => Proceed
    case Some(File) => Reject(NotADirectory)
  }

  /** The guard as intended: a failed stat is returned as an error, a file is refused. */
  function CheckTarget(info: Option<Entry>): (r: Option<CdError>)
    ensures r == None <==> info == Some(Dir)
    ensures info == None ==> r == Some(StatError)
    ensures info == Some(File) ==> r == Some(NotADirectory)
  {
    match info
    case None => Some(StatError)
    case Some(Dir) => None
    case Some(File) => Some(NotADirectory)
  }

  // ---------------------------------------------------------------- cd

  /**
   * Resetting takes the first two components by reslicing, which the source
   * can do only on a cursor of at least two; the other cases demand nothing.
   */
  predicate CdAllowed(cursor: seq<string>, path: string, cmd: int) {
    cmd == Commands.CD_TO && Count(path, '/') == |path| ==> |cursor| >= 2
  }

  datatype CdOutcome = CdOutcome(cursor: seq<string>, err: Option<CdError>)

  /** The effect of one `cd` call on the cursor, and the error it returns. */
  function CdStep(cursor: seq<string>, path: string, cmd: int, tree: map<string, Entry>): (r: CdOutcome)
    requires CdAllowed(cursor, path, cmd)
    ensures |cursor| >= 2 ==> |r.cursor| >= 2 && r.cursor[..2] == cursor[..2]
    ensures r.err.Some? ==> r.cursor == cursor
  {
    if cmd == Commands.CD_BACK then
      CdOutcome(if |cursor| > 2 then cursor[..|cursor| - 1] else cursor, None)
    else if cmd == Commands.CD_TO then
      if Count(path, '/') == |path| then CdOutcome(cursor[..2], None)
      else
        match CheckTarget(Lookup(tree, StatTarget(cursor, path)))
        case Some(e) => CdOutcome(cursor, Some(e))
        case None => CdOutcome(cursor + Split(path, '/'), None)
    else CdOutcome(cursor, Some(UnexpectedCommand(cmd)))
  }

  /** The state of filesystem.go's `FileSystem` that its methods change: the cursor. */
  class FileSystem {
    var currentPath: seq<string>

    /** The struct literal `FileSystem{currentPath: cursor}`. */
    constructor (cursor: seq<string>)
      ensures currentPath == cursor
    {
      currentPath := cursor;
    }

    /** `cd`: moves the cursor up, back to the root, or into a directory. */
    method Cd(path: string, cmd: int, tree: map<string, Entry>) returns (err: Option<CdError>)
      requires CdAllowed(currentPath, path, cmd)
      modifies this
      ensures CdOutcome(currentPath, err) == CdStep(old(currentPath), path, cmd, tree)
      ensures err.Some? ==> currentPath == old(currentPath)
      ensures |old(currentPath)| >= 2 ==> |currentPath| >= 2 && currentPath[..2] == old(currentPath)[..2]
    {
      if cmd == Commands.CD_BACK {
        if |currentPath| > 2 {
          currentPath := currentPath[..|currentPath| - 1];
        }
        return None;
      } else if cmd == Commands.CD_TO {
        if Count(path, '/') == |path| {
          currentPath := currentPath[..2];
          return None;
        }
        var rejected := CheckTarget(Lookup(tree, StatTarget(currentPath, path)));
        if rejected.Some? {
          return rejected;
        }
        currentPath := currentPath + Split(path, '/');
        return None;
      }
      return Some(UnexpectedCommand(cmd));
    }
  }

  // ---------------------------------------------------------------- pwd and terminalPWD

  /**
   * `pwd`: `./` followed by the joined cursor without its first component;
   * it is `./` alone exactly when every later component is empty.
   */
  function Pwd(cursor: seq<string>): (r: string)
    requires |cursor| >= 1
    ensures |r| >= 2 && r[..2] == "./"
    ensures r == "./" <==> forall i :: 1 <= i < |cursor| ==> cursor[i] == ""
  {
    var rest := cursor[1..];
    assert (forall i :: 1 <= i < |cursor| ==> cursor[i] == "")
        <==> (forall j :: 0 <= j < |rest| ==> rest[j] == "") by {
      forall j | 0 <= j < |rest|
        ensures rest[j] == cursor[j + 1]
      {
      }
    }
    "./" + GoPath.Join(rest)
  }

  /** `terminalPWD`: `~` followed by the components after the fixed two, joined by `/`. */
  function TerminalPwd(cursor: seq<string>): (r: string)
    ensures |r| >= 1 && r[0] == '~'
    ensures |cursor| <= 2 ==> r == "~"
  {
    if |cursor| > 2 then "~" + Join(cursor[2..], '/') else "~"
  }

  // ---------------------------------------------------------------- the cursor under cd

  /**
   * `cd ..` removes exactly the last component above the root, never the
   * root, and never fails, whatever path argument comes with it.
   */
  lemma CdBack(cursor: seq<string>, path: string, tree: map<string, Entry>)
    ensures var r := CdStep(cursor, path, Commands.CD_BACK, tree);
      && r.err == None
      && (|cursor| > 2 ==> r.cursor == cursor[..|cursor| - 1])
      && (|cursor| <= 2 ==> r.cursor == cursor)
  {
  }

  /** An argument made only of `/`, the empty one included, resets the cursor to its two fixed components. */
  lemma CdToReset(cursor: seq<string>, path: string, tree: map<string, Entry>)
    requires |cursor| >= 2
    requires forall i :: 0 <= i < |path| ==> path[i] == '/'
    ensures CdStep(cursor, path, Commands.CD_TO, tree) == CdOutcome(cursor[..2], None)
  {
    CountAll(path, '/');
  }

  /**
   * Into a directory, the cursor grows by the `/`-separated pieces of the
   * argument, and joining those pieces again gives the argument back.
   */
  lemma CdToDirectory(cursor: seq<string>, path: string, tree: map<string, Entry>, i: nat)
    requires |cursor| >= 2
    requires i < |path| && path[i] != '/'
    requires Lookup(tree, StatTarget(cursor, path)) == Some(Dir)
    ensures CdStep(cursor, path, Commands.CD_TO, tree) == CdOutcome(cursor + Split(path, '/'), None)
    ensures Join(Split(path, '/'), '/') == path
  {
    CountAll(path, '/');
    JoinSplit(path, '/');
  }

  /** A target that is not a directory, or that cannot be stat'd, is an error and leaves the cursor alone. */
  lemma CdToRefused(cursor: seq<string>, path: string, tree: map<string, Entry>, i: nat)
    requires |cursor| >= 2
    requires i < |path| && path[i] != '/'
    requires Lookup(tree, StatTarget(cursor, path)) != Some(Dir)
    ensures var r := CdStep(cursor, path, Commands.CD_TO, tree);
      && r.cursor == cursor
      && r.err == Some(if StatTarget(cursor, path) in tree then NotADirectory else StatError)
  {
    CountAll(path, '/');
  }

  /** Any command code other than the two `cd` codes is an error and leaves the cursor alone. */
  lemma CdUnknownCommand(cursor: seq<string>, path: string, cmd: int, tree: map<string, Entry>)
    requires cmd != Commands.CD_BACK && cmd != Commands.CD_TO
    ensures CdStep(cursor, path, cmd, tree) == CdOutcome(cursor, Some(UnexpectedCommand(cmd)))
  {
  }

  /** One `cd` call: its path argument and its command code. */
  datatype CdCall = CdCall(path: string, cmd: int)

  /**
   * A sequence of `cd` calls from a cursor of at least two components: the
   * cursor keeps at least two components and its first two never change.
   */
  function Run(cursor: seq<string>, calls: seq<CdCall>, tree: map<string, Entry>): (r: seq<string>)
    requires |cursor| >= 2
    ensures |r| >= 2 && r[..2] == cursor[..2]
    decreases |calls|
  {
    if calls == [] then cursor
    else Run(CdStep(cursor, calls[0].path, calls[0].cmd, tree).cursor, calls[1..], tree)
  }

  /** A `cd ..` call for each of the given path arguments, in order. */
  function Backs(paths: seq<string>): (calls: seq<CdCall>)
    ensures |calls| == |paths|
    ensures forall i :: 0 <= i < |calls| ==> calls[i] == CdCall(paths[i], Commands.CD_BACK)
  {
    seq(|paths|, i requires 0 <= i < |paths| => CdCall(paths[i], Commands.CD_BACK))
  }

  /**
   * As many `cd ..` calls as components were appended undo the appending,
   * whatever path arguments those calls carry.
   */
  lemma {:induction false} BackUndoesAppend(cursor: seq<string>, added: seq<string>, paths: seq<string>, tree: map<string, Entry>)
    requires |cursor| >= 2
    requires |paths| == |added|
    ensures Run(cursor + added, Backs(paths), tree) == cursor
    decreases |added|
  {
    if added != [] {
      var n := |added|;
      var c := cursor + added;
      var calls := Backs(paths);
      assert calls[0] == CdCall(paths[0], Commands.CD_BACK);
      assert CdStep(c, paths[0], Commands.CD_BACK, tree).cursor == cursor + added[..n - 1];
      assert calls[1..] == Backs(paths[1..]);
      BackUndoesAppend(cursor, added[..n - 1], paths[1..], tree);
    } else {
      assert cursor + added == cursor;
    }
  }

  /**
   * Entering a directory and then going up once per piece of the argument,
   * with any path arguments on the way up, returns to the start.
   */
  lemma CdToThenBack(cursor: seq<string>, path: string, backPaths: seq<string>, tree: map<string, Entry>, i: nat)
    requires |cursor| >= 2
    requires i < |path| && path[i] != '/'
    requires Lookup(tree, StatTarget(cursor, path)) == Some(Dir)
    requires |backPaths| == |Split(path, '/')|
    ensures Run(cursor, [CdCall(path, Commands.CD_TO)] + Backs(backPaths), tree) == cursor
  {
    var calls := [CdCall(path, Commands.CD_TO)] + Backs(backPaths);
    CdToDirectory(cursor, path, tree, i);
    assert calls[1..] == Backs(backPaths);
    BackUndoesAppend(cursor, Split(path, '/'), backPaths, tree);
  }

  // ---------------------------------------------------------------- rendering

  /**
   * The prompt is `~` alone for the root cursor and otherwise `~` directly
   * followed by the components after the first two; `pwd` never shows the
   * first component.
   */
  lemma RenderingShape(cursor: seq<string>, other: string)
    requires |cursor| >= 1
    ensures |cursor| <= 2 ==> TerminalPwd(cursor) == "~"
    ensures |cursor| > 2 ==> TerminalPwd(cursor) == "~" + Join(cursor[2..], '/')
    ensures Pwd(cursor) == Pwd([other] + cursor[1..])
  {
    assert ([other] + cursor[1..])[1..] == cursor[1..];
  }

  /** Below the fixed two, the prompt determines the cursor: splitting it after `~` gives the components back. */
  lemma TerminalPwdRoundTrip(cursor: seq<string>)
    requires |cursor| > 2
    requires forall i :: 2 <= i < |cursor| ==> '/' !in cursor[i]
    ensures TerminalPwd(cursor)[0] == '~'
    ensures Split(TerminalPwd(cursor)[1..], '/') == cursor[2..]
  {
    var rest := cursor[2..];
    assert forall i :: 0 <= i < |rest| ==> '/' !in rest[i] by {
      forall i | 0 <= i < |rest| ensures '/' !in rest[i] {
        assert rest[i] == cursor[i + 2];
      }
    }
    assert TerminalPwd(cursor)[1..] == Join(rest, '/');
    SplitJoin(rest, '/');
  }

  /**
   * After entering a directory the prompt is the old prompt followed by the
   * argument as typed, with a `/` between them unless the old prompt was `~`.
   */
  lemma CdToPrompt(cursor: seq<string>, path: string, tree: map<string, Entry>, i: nat)
    requires |cursor| >= 2
    requires i < |path| && path[i] != '/'
    requires Lookup(tree, StatTarget(cursor, path)) == Some(Dir)
    ensures TerminalPwd(CdStep(cursor, path, Commands.CD_TO, tree).cursor)
      == TerminalPwd(cursor) + (if |cursor| > 2 then "/" else "") + path
  {
    CdToDirectory(cursor, path, tree, i);
    var pieces := Split(path, '/');
    var c := cursor + pieces;
    assert c[2..] == cursor[2..] + pieces;
    if |cursor| > 2 {
      JoinAppend(cursor[2..], pieces, '/');
    } else {
      assert c[2..] == pieces;
    }
  }

  /** For a cursor of ordinary names, `pwd` is `./` and the components after the first joined by `/`. */
  lemma PwdNames(cursor: seq<string>)
    requires |cursor| >= 2
    requires forall i :: 1 <= i < |cursor| ==> GoPath.IsName(cursor[i])
    ensures Pwd(cursor) == "./" + Join(cursor[1..], '/')
  {
    var rest := cursor[1..];
    forall i | 0 <= i < |rest| ensures GoPath.IsName(rest[i]) {
      assert rest[i] == cursor[i + 1];
    }
    GoPath.JoinNames(rest);
  }

  /** A fresh session shows `~` at the prompt and `./` plus the archive name as `pwd`. */
  lemma InitialRendering(path: string, mode: int)
    requires NewFileSystem(path, mode, true, true).Ok?
    requires GoPath.IsName(NewFileSystem(path, mode, true, true).value[1])
    ensures var c := NewFileSystem(path, mode, true, true).value;
      TerminalPwd(c) == "~" && Pwd(c) == "./" + c[1]
  {
    var c := NewFileSystem(path, mode, true, true).value;
    PwdNames(c);
    assert c[1..] == [c[1]];
  }

  /** The argument `../..` is not all `/` and splits into two `..` pieces. */
  lemma UpUpPieces()
    ensures Count("../..", '/') < |"../.."|
    ensures Split("../..", '/') == ["..", ".."]
  {
    CountAll("../..", '/');
    assert "../.."[0] != '/';
    SplitJoin(["..", ".."], '/');
    assert Join(["..", ".."], '/') == "../..";
  }

  /** Two `..` pieces cancel two ordinary names. */
  lemma UpUpCancels(a: string, b: string)
    requires GoPath.IsName(a) && GoPath.IsName(b)
    ensures GoPath.Reduce([a, b, "..", ".."], false) == []
    ensures GoPath.Reduce([b, "..", ".."], false) == [".."]
  {
    var c := [a, b, "..", ".."];
    GoPath.ReduceNames([a, b], false);
    GoPath.ReduceNames([b], false);
    assert c[..3][..2] == [a, b];
    assert c[..3] == [a, b, ".."];
    assert GoPath.Reduce(c[..3], false) == [a];
    assert c[1..][..2][..1] == [b];
    assert c[1..][..2] == [b, ".."];
    assert GoPath.Reduce(c[1..][..2], false) == [];
  }

  /** `filepath.Join` of separator-free components is the `/`-join of what `Reduce` keeps of them. */
  lemma JoinReduces(c: seq<string>, kept: seq<string>)
    requires |c| >= 1 && c[0] != "" && c[0][0] != '/'
    requires forall i :: 0 <= i < |c| ==> '/' !in c[i]
    requires GoPath.Reduce(c, false) == kept
    requires kept == [] || kept[0] != ""
    ensures GoPath.Join(c) == if kept == [] then "." else Join(kept, '/')
  {
    var p := Join(c, '/');
    SplitJoin(c, '/');
    GoPath.JoinStartsWith(c, '/');
    assert p[0] != '/';
    assert GoPath.Join(c) == GoPath.Clean(p);
    if kept != [] {
      GoPath.JoinStartsWith(kept, '/');
    }
  }

  /** The cursor `[buffer, root, .., ..]` joins to `.`, and without its first component to `..`. */
  lemma UpUpJoins(root: string)
    requires GoPath.IsName(root)
    ensures GoPath.Join([BUFFERFILE, root, "..", ".."]) == "."
    ensures GoPath.Join([root, "..", ".."]) == ".."
  {
    var c := [BUFFERFILE, root, "..", ".."];
    UpUpCancels(BUFFERFILE, root);
    JoinReduces(c, []);
    assert c[1..] == [root, "..", ".."];
    JoinReduces(c[1..], [".."]);
  }

  /**
   * `..` pieces are not refused: from `[buffer, t]` with `t` an ordinary
   * name, `cd ../..` onto a path that stats as a directory (the stat'd path is
   * `buffer/t/../..`) leaves a cursor whose joined path is `.`, the directory
   * that holds `buffer`, and `pwd` then prints `./..`.
   */
  lemma DotDotEscapesRoot(root: string, tree: map<string, Entry>)
    requires GoPath.IsName(root)
    requires Lookup(tree, StatTarget([BUFFERFILE, root], "../..")) == Some(Dir)
    ensures var r := CdStep([BUFFERFILE, root], "../..", Commands.CD_TO, tree);
      && r == CdOutcome([BUFFERFILE, root, "..", ".."], None)
      && GoPath.Join(r.cursor) == "."
      && Pwd(r.cursor) == "./.."
  {
    UpUpPieces();
    var c := [BUFFERFILE, root, "..", ".."];
    assert [BUFFERFILE, root] + ["..", ".."] == c;
    UpUpJoins(root);
    assert c[1..] == [root, "..", ".."];
  }

  // ---------------------------------------------------------------- the archive name

  /**
   * The ZIP name is the longest prefix of the path left after dropping
   * trailing `.`, `z`, `i` and `p` characters: it never ends in one of them.
   */
  lemma ZipRootName(path: string, k: nat)
    requires k <= |path|
    ensures var c := NewFileSystem(path, ZIP, true, true).value;
      c[1] == [] || c[1][|c[1]| - 1] !in ".zip"
    ensures var c := NewFileSystem(path, ZIP, true, true).value;
      c[1] == path[..k] <==>
        && (k == 0 || path[k - 1] !in ".zip")
        && forall i :: k <= i < |path| ==> path[i] in ".zip"
  {
    var c := NewFileSystem(path, ZIP, true, true).value;
    if (k == 0 || path[k - 1] !in ".zip") && forall i :: k <= i < |path| ==> path[i] in ".zip" {
      TrimRightUnique(path, ".zip", k);
    }
  }

  /** The TAR name trims the cutset `.tar` first and then `.gz`, so it never ends in `.`, `g` or `z`. */
  lemma TarRootName(path: string)
    ensures var c := NewFileSystem(path, TAR, true, true).value;
      && c[1] == TrimRight(TrimRight(path, ".tar"), ".gz")
      && |c[1]| <= |path| && c[1] == path[..|c[1]|]
      && (c[1] == [] || c[1][|c[1]| - 1] !in ".gz")
  {
  }

  /** Cutset trimming is not the removal of an extension: `tip.zip` gives the name `t`. */
  lemma ZipNameExample()
    ensures NewFileSystem("tip.zip", ZIP, true, true) == Ok(["buffer", "t"])
  {
    TrimRightUnique("tip.zip", ".zip", 1);
    assert "tip.zip"[..1] == "t";
  }

  /** `data.tar` gives the name `d`. */
  lemma TarNameExample()
    ensures NewFileSystem("data.tar", TAR, true, true) == Ok(["buffer", "d"])
  {
    TrimRightUnique("data.tar", ".tar", 1);
    assert "data.tar"[..1] == "d";
    TrimRightUnique("d", ".gz", 1);
  }

  /** `x.tar.gz` gives `x.tar`: the `.tar` cutset is trimmed before `.gz`, when `z` still ends the path. */
  lemma TarGzNameExample()
    ensures NewFileSystem("x.tar.gz", TAR, true, true) == Ok(["buffer", "x.tar"])
  {
    TrimRightUnique("x.tar.gz", ".tar", 8);
    assert "x.tar.gz"[..8] == "x.tar.gz";
    TrimRightUnique("x.tar.gz", ".gz", 5);
    assert "x.tar.gz"[..5] == "x.tar";
  }

  // ---------------------------------------------------------------- the stat guard

  /** As written, `cd` into a target that cannot be stat'd panics. */
  lemma MissingTargetPanicsAsWritten(tree: map<string, Entry>, target: string)
    requires target !in tree
    ensures StatCheckAsWritten(Lookup(tree, target)) == Panic
  {
  }

  /** The intended guard never panics and agrees with the written one wherever that one does not panic. */
  lemma CheckTargetAgrees(info: Option<Entry>)
    ensures StatCheckAsWritten(info) != Panic ==>
      StatCheckAsWritten(info) == (if CheckTarget(info).None? then Proceed else Reject(CheckTarget(info).value))
    ensures StatCheckAsWritten(info) == Panic ==> CheckTarget(info) == Some(StatError)
  {
  }
}
