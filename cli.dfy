/**
 * The checks on the command-line arguments (src/cli.rs): the input must be
 * an existing regular file whose extension, lower-cased, is `toml`; the
 * output must be an existing directory. The input check collects every
 * problem it finds before failing; `validate` runs the input check first
 * and stops there when it fails.
 *
 * The filesystem is a parameter: a map from path to the kind of entry that
 * exists there, a path outside the map being one that does not exist.
 * Paths use `/` as separator. `anyhow` errors are values carrying their
 * message and the chain of contexts added to them.
 */
module Cli {
  import opened Wrappers
  import Text
  import Ctx = Error

  type Path = string

  datatype EntryKind = RegularFile | Directory | OtherEntry

  type FileSystem = map<Path, EntryKind>

  datatype LogLevel = Error | Info

  datatype Args = Args(inputFilePath: Path, outputDirPath: Path, logLevel: LogLevel)

  /** An `anyhow::Error`: a root message, possibly wrapped in contexts. */
  datatype AnyError = Message(message: string) | Context(context: string, source: AnyError)

  /** What `to_string()` shows: the outermost context, or the message when there is none. */
  function Display(e: AnyError): (text: string)
    ensures e.Message? ==> text == e.message
    ensures e.Context? ==> text == e.context
  {
    match e
    case Message(m) => m
    case Context(c, _) => c
  }

  /** The module every error of this file is attributed to. */
  const ERROR_MODULE: Ctx.Module := Ctx.CliArgsValidation

  const VALID_EXTENSIONS: seq<string> := ["toml"]

  // ---------------------------------------------------------------------------
  // Path::file_name and Path::extension
  // ---------------------------------------------------------------------------

  /** The last index of `c` in `s`, if any. */
  function LastIndex(s: string, c: char): (r: Option<nat>)
    ensures r.Some? ==> r.value < |s| && s[r.value] == c && forall j :: r.value < j < |s| ==> s[j] != c
    ensures r.None? ==> forall j :: 0 <= j < |s| ==> s[j] != c
    decreases |s|
  {
    if s == [] then None
    else if s[|s| - 1] == c then Some(|s| - 1)
    else LastIndex(s[..|s| - 1], c)
  }

  predicate IsCurDir(s: string) {
    |s| == 1 && s[0] == '.'
  }

  predicate IsParentDir(s: string) {
    |s| == 2 && s[0] == '.' && s[1] == '.'
  }

  predicate EndsInSlash(s: string) {
    |s| >= 1 && s[|s| - 1] == '/'
  }

  predicate EndsInSlashDot(s: string) {
    |s| >= 2 && s[|s| - 2] == '/' && s[|s| - 1] == '.'
  }

  /** Drops the trailing separators and `.` components, which `Path::components` skips. */
  function TrimTrailing(p: Path): (t: Path)
    ensures |t| <= |p| && t == p[..|t|]
    ensures !IsCurDir(t) && !EndsInSlash(t) && !EndsInSlashDot(t)
    decreases |p|
  {
    if IsCurDir(p) then ""
    else if EndsInSlash(p) then TrimTrailing(p[..|p| - 1])
    else if EndsInSlashDot(p) then TrimTrailing(p[..|p| - 2])
    else p
  }

  /**
   * `Path::file_name`: the last component of the path, or `None` when the
   * path has none or ends in `..`.
   */
  function FileName(p: Path): (r: Option<string>)
    ensures r.Some? ==> r.value != [] && !IsCurDir(r.value) && !IsParentDir(r.value) && '/' !in r.value
  {
    var t := TrimTrailing(p);
    if t == [] then None
    else
      var name := match LastIndex(t, '/') case None => t case Some(i) => t[i + 1..];
      assert name != [] && !IsCurDir(name) by {
        if LastIndex(t, '/').Some? {
          var i := LastIndex(t, '/').value;
          assert i < |t| - 1;
          if |name| == 1 {
            assert t[|t| - 2] == '/' && t[|t| - 1] == name[0];
          }
        }
      }
      if IsParentDir(name) then None else Some(name)
  }

  /**
   * `Path::extension`: what follows the last `.` of the file name; `None`
   * when there is no file name, no dot, or the only dot is the first
   * character (a name like `.profile`).
   */
  function Extension(p: Path): (r: Option<string>)
    ensures r.Some? ==> FileName(p).Some? && '.' !in r.value
  {
    match FileName(p)
    case None => None
    case Some(name) =>
      match LastIndex(name, '.')
      case None => None
      case Some(d) => if d == 0 then None else Some(name[d + 1..])
  }

  // ---------------------------------------------------------------------------
  // validate_input_file_path
  // ---------------------------------------------------------------------------

  const NO_EXTENSION: string := "File has no extension"

  function InvalidExtension(ext: string): string {
    "Invalid file extension: " + ext + ", expected one of: " + Text.Join(VALID_EXTENSIONS, ", ")
  }

  function DoesNotExist(p: Path): string {
    "Path does not exist: " + p
  }

  function NotAFile(p: Path): string {
    "Path is not a file: " + p
  }

  function NotADirectory(p: Path): string {
    "Path is not a directory: " + p
  }

  /** The extension, lower-cased, is one of the accepted ones. */
  predicate HasValidExtension(p: Path) {
    Extension(p).Some? && Text.LowerAscii(Extension(p).value) in VALID_EXTENSIONS
  }

  function ExtensionErrors(p: Path): (errors: seq<Ctx.ErrorContext>)
    ensures |errors| <= 1
    ensures errors == [] <==> HasValidExtension(p)
  {
    match Extension(p)
    case None => [Ctx.ErrorContext(NO_EXTENSION, ERROR_MODULE)]
    case Some(ext) =>
      var lower := Text.LowerAscii(ext);
      if lower in VALID_EXTENSIONS then [] else [Ctx.ErrorContext(InvalidExtension(lower), ERROR_MODULE)]
  }

  function FileKindErrors(p: Path, fs: FileSystem): (errors: seq<Ctx.ErrorContext>)
    ensures |errors| <= 1
    ensures errors == [] <==> p in fs && fs[p] == RegularFile
  {
    if p !in fs then [Ctx.ErrorContext(DoesNotExist(p), ERROR_MODULE)]
    else if fs[p] != RegularFile then [Ctx.ErrorContext(NotAFile(p), ERROR_MODULE)]
    else []
  }

  /** The errors the input check collects, the extension's before the path's. */
  function InputFileErrors(p: Path, fs: FileSystem): (errors: seq<Ctx.ErrorContext>)
    ensures |errors| <= 2
    ensures errors == [] <==> HasValidExtension(p) && p in fs && fs[p] == RegularFile
    ensures forall i :: 0 <= i < |errors| ==> errors[i].errorModule == ERROR_MODULE
  {
    ExtensionErrors(p) + FileKindErrors(p, fs)
  }

  function Messages(errors: seq<Ctx.ErrorContext>): (ms: seq<string>)
    ensures |ms| == |errors|
    ensures forall i :: 0 <= i < |errors| ==> ms[i] == Ctx.Display(errors[i])
  {
    seq(|errors|, i requires 0 <= i < |errors| => Ctx.Display(errors[i]))
  }

  /** The error a check reports for the collected `errors`, all messages on one line each. */
  function Report(errors: seq<Ctx.ErrorContext>): (r: Result<(), AnyError>)
    ensures r.Ok? <==> errors == []
  {
    if errors == [] then Ok(())
    else Err(Message("Multiple validation errors:\n" + Text.Join(Messages(errors), "\n")))
  }

  /** `validate_input_file_path`. */
  method ValidateInputFilePath(path: Path, fs: FileSystem) returns (r: Result<(), AnyError>)
    ensures r == Report(InputFileErrors(path, fs))
  {
    var errors: seq<Ctx.ErrorContext> := [];
    var extensionResult := match Extension(path) case None => None case Some(ext) => Some(Text.LowerAscii(ext));
    match extensionResult {
      case None =>
        errors := errors + [Ctx.ErrorContext(NO_EXTENSION, ERROR_MODULE)];
      case Some(extension) =>
        if extension !in VALID_EXTENSIONS {
          errors := errors + [Ctx.ErrorContext(InvalidExtension(extension), ERROR_MODULE)];
        }
    }
    assert errors == ExtensionErrors(path);
    if path !in fs {
      errors := errors + [Ctx.ErrorContext(DoesNotExist(path), ERROR_MODULE)];
    } else if fs[path] != RegularFile {
      errors := errors + [Ctx.ErrorContext(NotAFile(path), ERROR_MODULE)];
    }
    if errors != [] {
      var errorMessages := Text.Join(Messages(errors), "\n");
      return Err(Message("Multiple validation errors:\n" + errorMessages));
    }
    return Ok(());
  }

  // ---------------------------------------------------------------------------
  // validate_output_dir_path
  // ---------------------------------------------------------------------------

  function OutputDirErrors(p: Path, fs: FileSystem): (errors: seq<Ctx.ErrorContext>)
    ensures |errors| <= 1
    ensures errors == [] <==> p in fs && fs[p] == Directory
    ensures p !in fs ==> errors == [Ctx.ErrorContext(DoesNotExist(p), ERROR_MODULE)]
    ensures p in fs && fs[p] != Directory ==> errors == [Ctx.ErrorContext(NotADirectory(p), ERROR_MODULE)]
  {
    if p !in fs then [Ctx.ErrorContext(DoesNotExist(p), ERROR_MODULE)]
    else if fs[p] != Directory then [Ctx.ErrorContext(NotADirectory(p), ERROR_MODULE)]
    else []
  }

  /**
   * `validate_output_dir_path`. The filesystem is an input and there is no
   * new one in the result: a missing directory is reported, never created.
   */
  method ValidateOutputDirPath(path: Path, fs: FileSystem) returns (r: Result<(), AnyError>)
    ensures r == Report(OutputDirErrors(path, fs))
  {
    var errors: seq<Ctx.ErrorContext> := [];
    if path !in fs {
      errors := errors + [Ctx.ErrorContext(DoesNotExist(path), ERROR_MODULE)];
    } else if fs[path] != Directory {
      errors := errors + [Ctx.ErrorContext(NotADirectory(path), ERROR_MODULE)];
    }
    if errors != [] {
      var errorMessages := Text.Join(Messages(errors), "\n");
      return Err(Message("Multiple validation errors:\n" + errorMessages));
    }
    return Ok(());
  }

  // ---------------------------------------------------------------------------
  // validate
  // ---------------------------------------------------------------------------

  /**
   * `Args::validate`: the input check, then the output check, each error
   * wrapped in a context naming the path; the output directory is not looked
   * at once the input check has failed.
   */
  method Validate(args: Args, fs: FileSystem) returns (r: Result<(), AnyError>)
    ensures r.Ok? <==> InputFileErrors(args.inputFilePath, fs) == [] && OutputDirErrors(args.outputDirPath, fs) == []
    ensures InputFileErrors(args.inputFilePath, fs) != [] ==>
      r == Err(Context("Failed to validate input file: " + args.inputFilePath,
                       Report(InputFileErrors(args.inputFilePath, fs)).error))
    ensures InputFileErrors(args.inputFilePath, fs) == [] && OutputDirErrors(args.outputDirPath, fs) != [] ==>
      r == Err(Context("Failed to validate output directory: " + args.outputDirPath,
                       Report(OutputDirErrors(args.outputDirPath, fs)).error))
  {
    var input := ValidateInputFilePath(args.inputFilePath, fs);
    if input.Err? {
      return Err(Context("Failed to validate input file: " + args.inputFilePath, input.error));
    }
    var output := ValidateOutputDirPath(args.outputDirPath, fs);
    if output.Err? {
      return Err(Context("Failed to validate output directory: " + args.outputDirPath, output.error));
    }
    return Ok(());
  }

  // ---------------------------------------------------------------------------
  // Lemmas: what the checks report
  // ---------------------------------------------------------------------------

  /** A file name without an extension is reported as such, whatever the filesystem says. */
  lemma NoExtensionReported(p: Path, fs: FileSystem)
    requires Extension(p).None?
    ensures InputFileErrors(p, fs)[0] == Ctx.ErrorContext("File has no extension", ERROR_MODULE)
  {
  }

  /** Another extension is reported with its lower-cased text and the accepted list. */
  lemma InvalidExtensionReported(p: Path, fs: FileSystem)
    requires Extension(p).Some? && Text.LowerAscii(Extension(p).value) != "toml"
    ensures InputFileErrors(p, fs)[0].message
      == "Invalid file extension: " + Text.LowerAscii(Extension(p).value) + ", expected one of: " + "toml"
  {
    InvalidExtensionError(p);
    FirstInputFileError(p, fs);
    JoinValidExtensions();
  }

  lemma InvalidExtensionError(p: Path)
    requires Extension(p).Some? && Text.LowerAscii(Extension(p).value) != "toml"
    ensures ExtensionErrors(p) == [Ctx.ErrorContext(InvalidExtension(Text.LowerAscii(Extension(p).value)), ERROR_MODULE)]
  {
  }

  lemma FirstInputFileError(p: Path, fs: FileSystem)
    requires ExtensionErrors(p) != []
    ensures InputFileErrors(p, fs)[0] == ExtensionErrors(p)[0]
  {
  }

  lemma JoinValidExtensions()
    ensures Text.Join(VALID_EXTENSIONS, ", ") == "toml"
  {
  }

  /** The extension is compared after lower-casing: `TOML`, `Toml` and `toml` are all alike. */
  lemma ExtensionIsCaseInsensitive(p: Path, q: Path)
    requires Extension(p).Some? && Extension(q).Some?
    requires Text.LowerAscii(Extension(p).value) == Text.LowerAscii(Extension(q).value)
    ensures HasValidExtension(p) <==> HasValidExtension(q)
  {
  }

  /** An upper-case `TOML` extension is accepted. */
  lemma UpperCaseTomlAccepted(p: Path)
    requires Extension(p) == Some("TOML")
    ensures HasValidExtension(p)
  {
    UpperTomlLowersToToml();
  }

  lemma UpperTomlLowersToToml()
    ensures Text.LowerAscii("TOML") == "toml"
  {
    var r := Text.LowerAscii("TOML");
    assert r[0] == Text.LowerChar('T') == 't';
    assert r[1] == Text.LowerChar('O') == 'o';
    assert r[2] == Text.LowerChar('M') == 'm';
    assert r[3] == Text.LowerChar('L') == 'l';
  }

  /**
   * A missing path is reported as missing and not also as "not a file"; an
   * existing path that is not a regular file is reported only as that.
   */
  lemma PathErrorsReported(p: Path, fs: FileSystem)
    ensures var path := InputFileErrors(p, fs)[|ExtensionErrors(p)|..];
      && (p !in fs ==> path == [Ctx.ErrorContext(DoesNotExist(p), ERROR_MODULE)])
      && (p in fs && fs[p] != RegularFile ==> path == [Ctx.ErrorContext(NotAFile(p), ERROR_MODULE)])
      && (p in fs && fs[p] == RegularFile ==> path == [])
  {
    var e := ExtensionErrors(p);
    assert InputFileErrors(p, fs)[|e|..] == FileKindErrors(p, fs);
  }

  /** Both the extension error and the path error are collected, not only the first. */
  lemma BothErrorsCollected(p: Path, fs: FileSystem)
    requires !HasValidExtension(p) && p !in fs
    ensures |InputFileErrors(p, fs)| == 2
    ensures InputFileErrors(p, fs)[1].message == "Path does not exist: " + p
  {
  }

  /** Every collected message occurs, unchanged, in the reported error's text. */
  lemma ReportListsEveryMessage(errors: seq<Ctx.ErrorContext>, i: nat)
    requires i < |errors|
    ensures var text := Display(Report(errors).error);
      Text.ContainsAt(text, errors[i].message, |"Multiple validation errors:\n"| + Text.JoinOffset(Messages(errors), "\n", i))
  {
    var ms := Messages(errors);
    Text.JoinContainsItem(ms, "\n", i);
    ContainsAfter("Multiple validation errors:\n", Text.Join(ms, "\n"), ms[i], Text.JoinOffset(ms, "\n", i));
  }

  lemma ContainsAfter(header: string, s: string, sub: string, k: nat)
    requires Text.ContainsAt(s, sub, k)
    ensures Text.ContainsAt(header + s, sub, |header| + k)
  {
    assert (header + s)[|header| + k..|header| + k + |sub|] == s[k..k + |sub|];
  }

  // ---------------------------------------------------------------------------
  // Lemmas: the extension rule
  // ---------------------------------------------------------------------------

  lemma {:induction false} LastIndexAfter(a: string, b: string, c: char)
    requires c !in b
    ensures LastIndex(a + b, c) == LastIndex(a, c)
    decreases |b|
  {
    if b != [] {
      var init := b[..|b| - 1];
      assert (a + b)[..|a + b| - 1] == a + init;
      LastIndexAfter(a, init, c);
    } else {
      assert a + b == a;
    }
  }

  /** The last component of a path is found behind the last separator. */
  lemma FileNameInDir(dir: Path, name: string)
    requires name != [] && !IsCurDir(name) && !IsParentDir(name) && '/' !in name
    requires dir == [] || dir[|dir| - 1] == '/'
    ensures FileName(dir + name) == Some(name)
  {
    var p := dir + name;
    assert p[|p| - 1] == name[|name| - 1];
    if |name| >= 2 {
      assert p[|p| - 2] == name[|name| - 2];
    } else if dir != [] {
      assert p[|p| - 2] == dir[|dir| - 1];
    }
    assert TrimTrailing(p) == p;
    LastIndexAfter(dir, name, '/');
    if dir != [] {
      assert LastIndex(dir, '/') == Some(|dir| - 1);
      assert p[|dir|..] == name;
    } else {
      assert p == name;
    }
  }

  lemma CharNotInAppend(a: string, b: string, c: char)
    requires c !in a && c !in b
    ensures c !in a + b
  {
  }

  lemma {:induction false} LastIndexOfLast(a: string, c: char, b: string)
    requires c !in b
    ensures LastIndex(a + [c] + b, c) == Some(|a|)
  {
    LastIndexAfter(a + [c], b, c);
    assert (a + [c])[|a|] == c;
  }

  lemma DotSuffix(stem: string, ext: string)
    requires '/' !in stem && '/' !in ext && '.' !in ext
    ensures '/' !in stem + "." + ext
    ensures LastIndex(stem + "." + ext, '.') == Some(|stem|)
    ensures (stem + "." + ext)[|stem| + 1..] == ext
  {
    CharNotInAppend(stem, ".", '/');
    CharNotInAppend(stem + ".", ext, '/');
    LastIndexOfLast(stem, '.', ext);
  }

  lemma LowerTomlIsToml()
    ensures Text.LowerAscii("toml") == "toml"
  {
    var r := Text.LowerAscii("toml");
    assert r[0] == Text.LowerChar('t') == 't';
    assert r[1] == Text.LowerChar('o') == 'o';
    assert r[2] == Text.LowerChar('m') == 'm';
    assert r[3] == Text.LowerChar('l') == 'l';
  }

  lemma ExtensionOfName(p: Path, name: string, d: nat)
    requires FileName(p) == Some(name)
    requires LastIndex(name, '.') == Some(d) && d > 0
    ensures Extension(p) == Some(name[d + 1..])
  {
  }

  /**
   * The stem of a file name does not matter: for any non-empty stem without
   * a separator (spaces, non-ASCII letters and symbols included), in any
   * directory, the extension of `stem.ext` is `ext`, and the file is
   * accepted exactly when `ext` lower-cases to `toml`.
   */
  lemma StemDoesNotMatter(dir: Path, stem: string, ext: string)
    requires stem != [] && ext != [] && '/' !in stem && '/' !in ext && '.' !in ext
    requires dir == [] || dir[|dir| - 1] == '/'
    ensures FileName(dir + stem + "." + ext) == Some(stem + "." + ext)
    ensures Extension(dir + stem + "." + ext) == Some(ext)
    ensures HasValidExtension(dir + stem + "." + ext) <==> Text.LowerAscii(ext) == "toml"
  {
    NameInDir(dir, stem, ext);
    ValidExtensionIsToml(dir + stem + "." + ext, ext);
  }

  lemma NameInDir(dir: Path, stem: string, ext: string)
    requires stem != [] && ext != [] && '/' !in stem && '/' !in ext && '.' !in ext
    requires dir == [] || dir[|dir| - 1] == '/'
    ensures FileName(dir + stem + "." + ext) == Some(stem + "." + ext)
    ensures Extension(dir + stem + "." + ext) == Some(ext)
  {
    var name := stem + "." + ext;
    assert dir + stem + "." + ext == dir + name;
    DotSuffix(stem, ext);
    assert |name| == |stem| + 1 + |ext| >= 3;
    FileNameInDir(dir, name);
    ExtensionOfName(dir + name, name, |stem|);
  }

  lemma ValidExtensionIsToml(p: Path, ext: string)
    requires Extension(p) == Some(ext)
    ensures HasValidExtension(p) <==> Text.LowerAscii(ext) == "toml"
  {
  }

  /** So a `.toml` file is accepted whatever its stem. */
  lemma TomlAcceptedWhateverTheStem(dir: Path, stem: string)
    requires stem != [] && '/' !in stem
    requires dir == [] || dir[|dir| - 1] == '/'
    ensures Extension(dir + stem + "." + "toml") == Some("toml")
    ensures HasValidExtension(dir + stem + "." + "toml")
  {
    StemDoesNotMatter(dir, stem, "toml");
    LowerTomlIsToml();
  }

  /**
   * A regular file named `stem.toml` passes the whole input check, so the
   * input check reports `Ok`.
   */
  lemma TomlFileAccepted(dir: Path, stem: string, fs: FileSystem)
    requires stem != [] && '/' !in stem
    requires dir == [] || dir[|dir| - 1] == '/'
    requires dir + stem + "." + "toml" in fs && fs[dir + stem + "." + "toml"] == RegularFile
    ensures InputFileErrors(dir + stem + "." + "toml", fs) == []
    ensures Report(InputFileErrors(dir + stem + "." + "toml", fs)) == Ok(())
  {
    TomlAcceptedWhateverTheStem(dir, stem);
  }

  /**
   * In any directory, a file name whose only dot is its first character (a
   * hidden file such as `dir/.profile`), or that has no dot, has no extension.
   */
  lemma HiddenFileInDirHasNoExtension(dir: Path, name: string)
    requires name != [] && '/' !in name && !IsCurDir(name) && !IsParentDir(name)
    requires forall j :: 0 < j < |name| ==> name[j] != '.'
    requires dir == [] || dir[|dir| - 1] == '/'
    ensures FileName(dir + name) == Some(name)
    ensures Extension(dir + name) == None
  {
    FileNameInDir(dir, name);
  }

  /** A name whose only dot is its first character, or that has no dot, has no extension. */
  lemma NoExtensionWithoutInnerDot(name: string)
    requires name != [] && '/' !in name && !IsParentDir(name)
    requires forall j :: 0 < j < |name| ==> name[j] != '.'
    ensures Extension(name) == None
  {
    if !IsCurDir(name) {
      FileNameInDir("", name);
      assert "" + name == name;
    }
  }
}
