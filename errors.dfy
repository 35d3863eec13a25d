/**
 * The slice of Rust's `std::io` that src/errors.rs inspects: the kind of an
 * I/O error and the error value itself. The text an `io::Error` displays is
 * not computed by the program; it is carried as `description`.
 */
module Io {

  /**
   * The variants of `std::io::ErrorKind`: the stable ones, plus `InProgress`
   * (unstable) and `Uncategorized` (hidden, for errors std cannot sort).
   * Only the sixteen that `CustomIoError` names are told apart by the program.
   */
  datatype ErrorKind =
    | NotFound | PermissionDenied | ConnectionRefused | ConnectionReset
    | HostUnreachable | NetworkUnreachable | ConnectionAborted | NotConnected
    | AddrInUse | AddrNotAvailable | NetworkDown | BrokenPipe | AlreadyExists
    | WouldBlock | NotADirectory | IsADirectory | DirectoryNotEmpty
    | ReadOnlyFilesystem | StaleNetworkFileHandle | InvalidInput | InvalidData
    | TimedOut | WriteZero | StorageFull | NotSeekable | QuotaExceeded
    | FileTooLarge | ResourceBusy | ExecutableFileBusy | Deadlock
    | CrossesDevices | TooManyLinks | InvalidFilename | ArgumentListTooLong
    | Interrupted | Unsupported | UnexpectedEof | OutOfMemory | InProgress
    | Other | Uncategorized

  /** An `std::io::Error`: its kind and the text it displays. */
  datatype Error = Error(kind: ErrorKind, description: string)
}

/**
 * The application's error types (src/errors.rs): the two lists of errors a
 * run can end with and their exit codes, the numbered log lines, the
 * conversion of an `io::Error` into `CustomIoError`, the hand-written
 * equality on `CustomIoError`, and the texts every error displays.
 */
module Errors {
  import Io
  import Text

  type Path = string

  // ---------------------------------------------------------------------------
  // CustomIoError
  // ---------------------------------------------------------------------------

  /** An I/O error sorted by kind; three kinds keep the path they concern. */
  datatype CustomIoError =
    | NotFound(path: Path)
    | PermissionDenied(path: Path)
    | ConnectionRefused
    | ConnectionReset
    | ConnectionAborted
    | NotConnected
    | AddrInUse
    | AddrNotAvailable
    | BrokenPipe
    | AlreadyExists(path: Path)
    | WouldBlock
    | InvalidInput
    | TimedOut
    | WriteZero
    | Interrupted
    | UnexpectedEof
    | Other(source: Io.Error)
  {
    predicate HasPath() {
      NotFound? || PermissionDenied? || AlreadyExists?
    }
  }

  /** The kinds that keep the path of the failed operation. */
  predicate KeepsPath(k: Io.ErrorKind) {
    k == Io.NotFound || k == Io.PermissionDenied || k == Io.AlreadyExists
  }

  /** The sixteen kinds that have a variant of their own in `CustomIoError`. */
  predicate HasOwnVariant(k: Io.ErrorKind) {
    || KeepsPath(k)
    || k == Io.ConnectionRefused || k == Io.ConnectionReset
    || k == Io.ConnectionAborted || k == Io.NotConnected
    || k == Io.AddrInUse || k == Io.AddrNotAvailable || k == Io.BrokenPipe
    || k == Io.WouldBlock || k == Io.InvalidInput || k == Io.TimedOut
    || k == Io.WriteZero || k == Io.Interrupted || k == Io.UnexpectedEof
  }

  /** The `io::ErrorKind` a variant stands for; `Other` stands for its source's kind. */
  function Kind(e: CustomIoError): (k: Io.ErrorKind)
    ensures !e.Other? ==> (e.HasPath() <==> KeepsPath(k))
    ensures !e.Other? ==> HasOwnVariant(k)
    ensures e.Other? ==> k == e.source.kind
  {
    match e
    case NotFound(_) => Io.NotFound
    case PermissionDenied(_) => Io.PermissionDenied
    case ConnectionRefused => Io.ConnectionRefused
    case ConnectionReset => Io.ConnectionReset
    case ConnectionAborted => Io.ConnectionAborted
    case NotConnected => Io.NotConnected
    case AddrInUse => Io.AddrInUse
    case AddrNotAvailable => Io.AddrNotAvailable
    case BrokenPipe => Io.BrokenPipe
    case AlreadyExists(_) => Io.AlreadyExists
    case WouldBlock => Io.WouldBlock
    case InvalidInput => Io.InvalidInput
    case TimedOut => Io.TimedOut
    case WriteZero => Io.WriteZero
    case Interrupted => Io.Interrupted
    case UnexpectedEof => Io.UnexpectedEof
    case Other(source) => source.kind
  }

  /**
   * `CustomIoError::from((error, path))`: the variant named after the
   * error's kind, with the path for the three kinds that keep one, and
   * `Other` holding the whole error for every other kind.
   */
  function FromIoError(error: Io.Error, path: Path): (r: CustomIoError)
    ensures Kind(r) == error.kind
    ensures r.HasPath() <==> KeepsPath(error.kind)
    ensures r.HasPath() ==> r.path == path
    ensures r.Other? <==> !HasOwnVariant(error.kind)
    ensures r.Other? ==> r.source == error
  {
    match error.kind
    case NotFound => NotFound(path)
    case PermissionDenied => PermissionDenied(path)
    case AlreadyExists => AlreadyExists(path)
    case ConnectionRefused => ConnectionRefused
    case ConnectionReset => ConnectionReset
    case ConnectionAborted => ConnectionAborted
    case NotConnected => NotConnected
    case AddrInUse => AddrInUse
    case AddrNotAvailable => AddrNotAvailable
    case BrokenPipe => BrokenPipe
    case WouldBlock => WouldBlock
    case InvalidInput => InvalidInput
    case TimedOut => TimedOut
    case WriteZero => WriteZero
    case Interrupted => Interrupted
    case UnexpectedEof => UnexpectedEof
    case _ => Other(error)
  }

  // ---------------------------------------------------------------------------
  // Path::components, which `==` on `PathBuf` compares
  // ---------------------------------------------------------------------------

  /** A component of a `/`-separated path, as `std::path::Component` has it. */
  datatype Component = RootDir | CurDir | ParentDir | Normal(name: string)

  /** The pieces of `s` between separators, empty ones included, the first one starting with `current`. */
  function SplitParts(s: string, current: string): (parts: seq<string>)
    ensures |parts| >= 1
    decreases |s|
  {
    if s == [] then [current]
    else if s[0] == '/' then [current] + SplitParts(s[1..], "")
    else SplitParts(s[1..], current + [s[0]])
  }

  /** The components of a run of pieces: empty pieces and `.` are skipped. */
  function Normals(parts: seq<string>): (cs: seq<Component>)
    ensures |cs| <= |parts|
    ensures forall i :: 0 <= i < |cs| ==> cs[i].ParentDir? || cs[i].Normal?
  {
    if parts == [] then []
    else
      var rest := Normals(parts[1..]);
      if parts[0] == "" || parts[0] == "." then rest
      else if parts[0] == ".." then [ParentDir] + rest
      else [Normal(parts[0])] + rest
  }

  /**
   * `Path::components` of a Unix path: a root for a leading `/`, a `.` only
   * as the very first component of a relative path, then the pieces between
   * separators with empty pieces and every other `.` dropped. So `a/b`,
   * `a//b`, `a/b/` and `a/./b` have the same components.
   */
  function Components(p: Path): (cs: seq<Component>)
    ensures (p != [] && p[0] == '/') <==> (cs != [] && cs[0] == RootDir)
    ensures forall i :: 0 < i < |cs| ==> cs[i].ParentDir? || cs[i].Normal?
  {
    var parts := SplitParts(p, "");
    if p != [] && p[0] == '/' then [RootDir] + Normals(parts)
    else if parts[0] == "." then [CurDir] + Normals(parts[1..])
    else Normals(parts)
  }

  /**
   * `PartialEq for CustomIoError`: same variant, and then paths with the
   * same components for the path-carrying variants (`PathBuf`'s `==`) and
   * equal kinds for `Other` (the displayed text of the wrapped error is
   * ignored).
   */
  function Equal(a: CustomIoError, b: CustomIoError): (r: bool)
    ensures r ==> Kind(a) == Kind(b)
    ensures a.HasPath() ==>
      (r <==> b.HasPath() && Kind(a) == Kind(b) && Components(a.path) == Components(b.path))
    ensures !a.Other? && !a.HasPath() ==> (r <==> a == b)
    ensures a.Other? && b.Other? ==> (r <==> a.source.kind == b.source.kind)
    ensures a.Other? != b.Other? ==> !r
  {
    match (a, b)
    case (NotFound(p1), NotFound(p2)) => Components(p1) == Components(p2)
    case (PermissionDenied(p1), PermissionDenied(p2)) => Components(p1) == Components(p2)
    case (ConnectionRefused, ConnectionRefused) => true
    case (ConnectionReset, ConnectionReset) => true
    case (ConnectionAborted, ConnectionAborted) => true
    case (NotConnected, NotConnected) => true
    case (AddrInUse, AddrInUse) => true
    case (AddrNotAvailable, AddrNotAvailable) => true
    case (BrokenPipe, BrokenPipe) => true
    case (AlreadyExists(p1), AlreadyExists(p2)) => Components(p1) == Components(p2)
    case (WouldBlock, WouldBlock) => true
    case (InvalidInput, InvalidInput) => true
    case (TimedOut, TimedOut) => true
    case (WriteZero, WriteZero) => true
    case (Interrupted, Interrupted) => true
    case (UnexpectedEof, UnexpectedEof) => true
    case (Other(s1), Other(s2)) => s1.kind == s2.kind
    case _ => false
  }

  /** `impl Eq for CustomIoError` is sound: `Equal` is an equivalence relation. */
  lemma EqualIsEquivalence(a: CustomIoError, b: CustomIoError, c: CustomIoError)
    ensures Equal(a, a)
    ensures Equal(a, b) ==> Equal(b, a)
    ensures Equal(a, b) && Equal(b, c) ==> Equal(a, c)
  {
    EqualReflexive(a);
    EqualSymmetric(a, b);
    EqualTransitive(a, b, c);
  }

  lemma EqualReflexive(a: CustomIoError)
    ensures Equal(a, a)
  {
  }

  lemma EqualSymmetric(a: CustomIoError, b: CustomIoError)
    ensures Equal(a, b) ==> Equal(b, a)
  {
  }

  lemma EqualTransitive(a: CustomIoError, b: CustomIoError, c: CustomIoError)
    ensures Equal(a, b) && Equal(b, c) ==> Equal(a, c)
  {
    if Equal(a, b) && Equal(b, c) {
      assert a.Other? == b.Other? == c.Other?;
    }
  }

  /**
   * Two converted I/O errors compare equal exactly when their kinds agree
   * and, for the three path-carrying kinds, their paths have the same
   * components.
   */
  lemma EqualAfterConversion(e1: Io.Error, p1: Path, e2: Io.Error, p2: Path)
    ensures Equal(FromIoError(e1, p1), FromIoError(e2, p2))
        <==> e1.kind == e2.kind && (KeepsPath(e1.kind) ==> Components(p1) == Components(p2))
  {
    var a, b := FromIoError(e1, p1), FromIoError(e2, p2);
    if e1.kind == e2.kind && !a.Other? {
      assert !b.Other? && Kind(a) == Kind(b);
    }
  }

  /** A normal path component: non-empty, without separator, and neither `.` nor `..`. */
  predicate IsName(s: string) {
    s != [] && '/' !in s && s != "." && s != ".."
  }

  /**
   * Paths are compared as `PathBuf`s: repeated and trailing separators and
   * an inner `.` do not matter, while a root, a leading `.` and the names
   * themselves do.
   */
  lemma PathsCompareByComponents(x: string, y: string, z: string)
    requires IsName(x) && IsName(y) && IsName(z)
    ensures Equal(NotFound(x + "/" + y), NotFound(x + "//" + y))
    ensures Equal(NotFound(x + "/" + y), NotFound(x + "/" + y + "/"))
    ensures Equal(NotFound(x + "/" + y), NotFound(x + "/./" + y))
    ensures !Equal(NotFound(x + "/" + y), NotFound("/" + x + "/" + y))
    ensures !Equal(NotFound(x + "/" + y), NotFound("./" + x + "/" + y))
    ensures Equal(NotFound(x + "/" + y), NotFound(x + "/" + z)) <==> y == z
  {
    ComponentsOfTwo(x, y);
    ComponentsOfTwo(x, z);
    ComponentsOfDoubleSeparator(x, y);
    ComponentsOfTrailingSeparator(x, y);
    ComponentsOfInnerDot(x, y);
    ComponentsOfLeadingDot(x, y);
  }

  lemma {:induction false} SplitName(name: string, rest: string, current: string)
    requires '/' !in name
    ensures SplitParts(name + rest, current) == SplitParts(rest, current + name)
    decreases |name|
  {
    if name != [] {
      assert (name + rest)[0] == name[0];
      assert (name + rest)[1..] == name[1..] + rest;
      SplitName(name[1..], rest, current + [name[0]]);
      assert current + [name[0]] + name[1..] == current + name;
    } else {
      assert name + rest == rest && current + name == current;
    }
  }

  lemma SplitSep(rest: string, current: string)
    ensures SplitParts("/" + rest, current) == [current] + SplitParts(rest, "")
  {
    assert ("/" + rest)[1..] == rest;
  }

  /** A piece without separator followed by `/` is the first piece. */
  lemma SplitFirst(a: string, rest: string)
    requires '/' !in a
    ensures SplitParts(a + "/" + rest, "") == [a] + SplitParts(rest, "")
  {
    assert a + "/" + rest == a + ("/" + rest);
    SplitName(a, "/" + rest, "");
    assert "" + a == a;
    SplitSep(rest, a);
  }

  /** A string without separator is a single piece. */
  lemma SplitLast(a: string)
    requires '/' !in a
    ensures SplitParts(a, "") == [a]
  {
    SplitName(a, "", "");
    assert a + "" == a && "" + a == a;
  }

  /** The pieces of `x/y`. */
  lemma SplitTwo(x: string, y: string)
    requires '/' !in x && '/' !in y
    ensures SplitParts(x + "/" + y, "") == [x, y]
  {
    SplitFirst(x, y);
    SplitLast(y);
  }

  lemma {:induction false} NormalsOfNames(xs: seq<string>)
    requires forall i :: 0 <= i < |xs| ==> IsName(xs[i])
    ensures |Normals(xs)| == |xs|
    ensures forall i :: 0 <= i < |xs| ==> Normals(xs)[i] == Normal(xs[i])
  {
    if xs != [] {
      NormalsOfNames(xs[1..]);
      assert IsName(xs[0]);
    }
  }

  /** A path whose first character is not `/` and whose first piece is not `.` has the components of its pieces. */
  lemma RelativeComponents(p: string, parts: seq<string>)
    requires p != [] && p[0] != '/' && SplitParts(p, "") == parts && parts[0] != "."
    ensures Components(p) == Normals(parts)
  {
  }

  lemma ComponentsOfTwo(x: string, y: string)
    requires IsName(x) && IsName(y)
    ensures Components(x + "/" + y) == [Normal(x), Normal(y)]
  {
    SplitTwo(x, y);
    RelativeComponents(x + "/" + y, [x, y]);
    NormalsOfNames([x, y]);
  }

  lemma ComponentsOfDoubleSeparator(x: string, y: string)
    requires IsName(x) && IsName(y)
    ensures Components(x + "//" + y) == [Normal(x), Normal(y)]
  {
    var p := x + "//" + y;
    assert p == x + "/" + ("" + "/" + y);
    SplitFirst(x, "" + "/" + y);
    SplitTwo("", y);
    RelativeComponents(p, [x, "", y]);
    assert Normals([x, "", y]) == [Normal(x)] + Normals([y]);
  }

  lemma ComponentsOfTrailingSeparator(x: string, y: string)
    requires IsName(x) && IsName(y)
    ensures Components(x + "/" + y + "/") == [Normal(x), Normal(y)]
  {
    var p := x + "/" + y + "/";
    assert p == x + "/" + (y + "/" + "");
    SplitFirst(x, y + "/" + "");
    SplitTwo(y, "");
    RelativeComponents(p, [x, y, ""]);
    assert Normals([x, y, ""]) == [Normal(x)] + Normals([y, ""]);
    assert Normals([y, ""]) == [Normal(y)] + Normals([""]);
  }

  lemma ComponentsOfInnerDot(x: string, y: string)
    requires IsName(x) && IsName(y)
    ensures Components(x + "/./" + y) == [Normal(x), Normal(y)]
  {
    var p := x + "/./" + y;
    assert p == x + "/" + ("." + "/" + y);
    SplitFirst(x, "." + "/" + y);
    SplitTwo(".", y);
    RelativeComponents(p, [x, ".", y]);
    assert Normals([x, ".", y]) == [Normal(x)] + Normals([".", y]);
    assert [".", y][1..] == [y];
    assert Normals([".", y]) == Normals([y]) == [Normal(y)];
  }

  lemma ComponentsOfLeadingDot(x: string, y: string)
    requires IsName(x) && IsName(y)
    ensures Components("./" + x + "/" + y) == [CurDir, Normal(x), Normal(y)]
  {
    var p := "./" + x + "/" + y;
    assert p == "." + "/" + (x + "/" + y);
    SplitFirst(".", x + "/" + y);
    SplitTwo(x, y);
    assert p[0] == '.';
    assert SplitParts(p, "")[1..] == [x, y];
    NormalsOfNames([x, y]);
  }

  /** Rust's `{:?}` of a path: quoted, with quotes, backslashes and common controls escaped. */
  function DebugPath(p: Path): (r: string)
    ensures |r| >= |p| + 2 && r[0] == '"' && r[|r| - 1] == '"'
  {
    "\"" + EscapeDebug(p) + "\""
  }

  function EscapeChar(c: char): string {
    match c
    case '"' => "\\\""
    case '\\' => "\\\\"
    case '\n' => "\\n"
    case '\r' => "\\r"
    case '\t' => "\\t"
    case '\0' => "\\0"
    case _ => [c]
  }

  predicate NeedsEscape(c: char) {
    c == '"' || c == '\\' || c == '\n' || c == '\r' || c == '\t' || c == '\0'
  }

  function EscapeDebug(s: string): (r: string)
    ensures |r| >= |s|
  {
    if s == [] then [] else EscapeChar(s[0]) + EscapeDebug(s[1..])
  }

  /** Printable ASCII other than `"` and `\\`: what Rust's `{:?}` shows unescaped with certainty. */
  predicate IsPlainChar(c: char) {
    ' ' <= c <= '~' && c != '"' && c != '\\'
  }

  /** A path of plain printable characters is shown as itself between double quotes. */
  lemma {:induction false} PlainPathDebug(p: Path)
    requires forall i :: 0 <= i < |p| ==> IsPlainChar(p[i])
    ensures DebugPath(p) == "\"" + p + "\""
  {
    PlainEscapeDebug(p);
  }

  lemma {:induction false} PlainEscapeDebug(s: string)
    requires forall i :: 0 <= i < |s| ==> !NeedsEscape(s[i])
    ensures EscapeDebug(s) == s
  {
    if s != [] {
      PlainEscapeDebug(s[1..]);
      assert [s[0]] + s[1..] == s;
    }
  }

  /** The `#[error(...)]` text of a `CustomIoError`. */
  function CustomIoErrorDisplay(e: CustomIoError): string {
    match e
    case NotFound(p) => "File not found: " + DebugPath(p)
    case PermissionDenied(p) => "Permission denied for file: " + DebugPath(p)
    case ConnectionRefused => "Connection refused"
    case ConnectionReset => "Connection reset by peer"
    case ConnectionAborted => "Connection aborted"
    case NotConnected => "Not connected"
    case AddrInUse => "Address in use"
    case AddrNotAvailable => "Address not available"
    case BrokenPipe => "Broken pipe"
    case AlreadyExists(p) => "Already exists: " + DebugPath(p)
    case WouldBlock => "Would block"
    case InvalidInput => "Invalid input/output"
    case TimedOut => "Timed out"
    case WriteZero => "Write zero"
    case Interrupted => "Interrupted"
    case UnexpectedEof => "Unexpected end of file"
    case Other(source) => "Other I/O error: " + source.description
  }

  // ---------------------------------------------------------------------------
  // ValidationError and AnalysisConfigError
  // ---------------------------------------------------------------------------

  datatype ValidationError =
    | PathIsNotFile(path: Path)
    | PathIsNotDir(path: Path)
    | InvalidFileExt(found: string, expected: string)
    | ExtNotFound
    | Io(ioError: CustomIoError)

  datatype AnalysisConfigError =
    | MismatchFileStructure(path: Path)
    | FailedToParse(message: string)
    | Io(ioError: CustomIoError)

  /** The `#[error(...)]` text of a `ValidationError`; paths are shown plainly. */
  function ValidationErrorDisplay(e: ValidationError): string {
    match e
    case PathIsNotFile(p) => "Path '" + p + "' is not a file"
    case PathIsNotDir(p) => "Path '" + p + "' is not a directory"
    case InvalidFileExt(found, expected) =>
      "Invalid file extension '" + found + "'. Expected one of: " + expected + "."
    case ExtNotFound => "No file extension found"
    case Io(io) => "I/O error occurred: " + CustomIoErrorDisplay(io)
  }

  /** The `#[error(...)]` text of an `AnalysisConfigError`. */
  function AnalysisConfigErrorDisplay(e: AnalysisConfigError): string {
    match e
    case MismatchFileStructure(p) => "Config file '" + p + "' has the wrong structure."
    case FailedToParse(m) => "Failed to parse: '" + m + "'"
    case Io(io) => "I/O error occurred: " + CustomIoErrorDisplay(io)
  }

  /** `PathIsNotFile(p)` reads `Path '<p>' is not a file`, `p` as given. */
  lemma PathIsNotFileDisplay(p: Path)
    ensures ValidationErrorDisplay(PathIsNotFile(p)) == "Path '" + p + "' is not a file"
  {
  }

  /**
   * The other four `ValidationError` texts: paths and extensions appear as
   * given, and an I/O error is shown after `I/O error occurred: `.
   */
  lemma ValidationErrorTexts(p: Path, found: string, expected: string, io: CustomIoError)
    ensures ValidationErrorDisplay(PathIsNotDir(p)) == "Path '" + p + "' is not a directory"
    ensures ValidationErrorDisplay(InvalidFileExt(found, expected))
         == "Invalid file extension '" + found + "'. Expected one of: " + expected + "."
    ensures ValidationErrorDisplay(ExtNotFound) == "No file extension found"
    ensures ValidationErrorDisplay(ValidationError.Io(io)) == "I/O error occurred: " + CustomIoErrorDisplay(io)
  {
  }

  /** The three `AnalysisConfigError` texts. */
  lemma AnalysisConfigErrorTexts(p: Path, message: string, io: CustomIoError)
    ensures AnalysisConfigErrorDisplay(MismatchFileStructure(p))
         == "Config file '" + p + "' has the wrong structure."
    ensures AnalysisConfigErrorDisplay(FailedToParse(message)) == "Failed to parse: '" + message + "'"
    ensures AnalysisConfigErrorDisplay(AnalysisConfigError.Io(io)) == "I/O error occurred: " + CustomIoErrorDisplay(io)
  {
  }

  /**
   * The three path-carrying `CustomIoError` texts end with the path in
   * Rust's debug form; a path of plain printable characters appears
   * between double quotes.
   */
  lemma IoErrorPathTexts(p: Path)
    requires forall i :: 0 <= i < |p| ==> IsPlainChar(p[i])
    ensures CustomIoErrorDisplay(NotFound(p)) == "File not found: \"" + p + "\""
    ensures CustomIoErrorDisplay(PermissionDenied(p)) == "Permission denied for file: \"" + p + "\""
    ensures CustomIoErrorDisplay(AlreadyExists(p)) == "Already exists: \"" + p + "\""
  {
    PlainPathDebug(p);
  }

  /** Whatever the path, a path-carrying I/O error's text ends with the debug-quoted path. */
  lemma IoErrorTextEndsWithPath(e: CustomIoError)
    requires e.HasPath()
    ensures var t, d := CustomIoErrorDisplay(e), DebugPath(e.path);
      |d| <= |t| && t[|t| - |d|..] == d
  {
  }

  /**
   * The thirteen fixed `CustomIoError` texts, and `Other`, which shows the
   * wrapped error's own text whatever its kind.
   */
  lemma IoErrorFixedTexts(source: Io.Error)
    ensures CustomIoErrorDisplay(ConnectionRefused) == "Connection refused"
    ensures CustomIoErrorDisplay(ConnectionReset) == "Connection reset by peer"
    ensures CustomIoErrorDisplay(ConnectionAborted) == "Connection aborted"
    ensures CustomIoErrorDisplay(NotConnected) == "Not connected"
    ensures CustomIoErrorDisplay(AddrInUse) == "Address in use"
    ensures CustomIoErrorDisplay(AddrNotAvailable) == "Address not available"
    ensures CustomIoErrorDisplay(BrokenPipe) == "Broken pipe"
    ensures CustomIoErrorDisplay(WouldBlock) == "Would block"
    ensures CustomIoErrorDisplay(InvalidInput) == "Invalid input/output"
    ensures CustomIoErrorDisplay(TimedOut) == "Timed out"
    ensures CustomIoErrorDisplay(WriteZero) == "Write zero"
    ensures CustomIoErrorDisplay(Interrupted) == "Interrupted"
    ensures CustomIoErrorDisplay(UnexpectedEof) == "Unexpected end of file"
    ensures CustomIoErrorDisplay(Other(source)) == "Other I/O error: " + source.description
  {
  }

  // ---------------------------------------------------------------------------
  // CustomErrors
  // ---------------------------------------------------------------------------

  /** What a failed run reports: a list of validation errors or of config-file errors. */
  datatype CustomErrors =
    | ValidationError(validationErrors: seq<ValidationError>)
    | AnalysisConfigError(configErrors: seq<AnalysisConfigError>)

  /** The process exit code of a failed run. */
  function ExitCode(e: CustomErrors): (code: int)
    ensures code == 2 <==> e.ValidationError?
    ensures code == 3 <==> e.AnalysisConfigError?
  {
    match e
    case ValidationError(_) => 2
    case AnalysisConfigError(_) => 3
  }

  /** `From<Vec<ValidationError>>`: the list is kept as it is, and the run exits with 2. */
  function FromValidationErrors(errors: seq<ValidationError>): (r: CustomErrors)
    ensures ExitCode(r) == 2 && r.validationErrors == errors
  {
    ValidationError(errors)
  }

  /** `From<Vec<AnalysisConfigError>>`: the list is kept as it is, and the run exits with 3. */
  function FromAnalysisConfigErrors(errors: seq<AnalysisConfigError>): (r: CustomErrors)
    ensures ExitCode(r) == 3 && r.configErrors == errors
  {
    AnalysisConfigError(errors)
  }

  function ErrorCount(e: CustomErrors): nat {
    match e
    case ValidationError(errors) => |errors|
    case AnalysisConfigError(errors) => |errors|
  }

  /** The label a line of `log_errors` carries after its number. */
  function Label(e: CustomErrors): string {
    match e
    case ValidationError(_) => "ValidationError"
    case AnalysisConfigError(_) => "ConfigFileError"
  }

  /** The displayed text of the `i`-th error of the list. */
  function ErrorText(e: CustomErrors, i: nat): string
    requires i < ErrorCount(e)
  {
    match e
    case ValidationError(errors) => ValidationErrorDisplay(errors[i])
    case AnalysisConfigError(errors) => AnalysisConfigErrorDisplay(errors[i])
  }

  /** The text of one logged line: `<n>. <label>: <error>`. */
  function LogLine(n: nat, tag: string, text: string): string {
    Text.NatToString(n) + ". " + tag + ": " + text
  }

  /**
   * `log_errors`: the lines it hands to the logger, one per error in list
   * order, numbered from 1 and labelled after the kind of list.
   */
  method LogErrors(e: CustomErrors) returns (lines: seq<string>)
    ensures |lines| == ErrorCount(e)
    ensures forall i :: 0 <= i < |lines| ==> lines[i] == LogLine(i + 1, Label(e), ErrorText(e, i))
  {
    match e {
      case ValidationError(errors) =>
        var texts := seq(|errors|, i requires 0 <= i < |errors| => ValidationErrorDisplay(errors[i]));
        lines := LogNumbered("ValidationError", texts);
      case AnalysisConfigError(errors) =>
        var texts := seq(|errors|, i requires 0 <= i < |errors| => AnalysisConfigErrorDisplay(errors[i]));
        lines := LogNumbered("ConfigFileError", texts);
    }
  }

  /** The loop of `log_errors`: one numbered, labelled line per displayed error. */
  method LogNumbered(tag: string, texts: seq<string>) returns (lines: seq<string>)
    ensures |lines| == |texts|
    ensures forall i :: 0 <= i < |lines| ==> lines[i] == LogLine(i + 1, tag, texts[i])
  {
    lines := [];
    for index := 0 to |texts|
      invariant |lines| == index
      invariant forall i :: 0 <= i < index ==> lines[i] == LogLine(i + 1, tag, texts[i])
    {
      lines := lines + [LogLine(index + 1, tag, texts[index])];
    }
  }

  /**
   * The number a log line starts with can be read back, so the lines of
   * `log_errors` are numbered 1, 2, ... in list order and no two share a
   * number.
   */
  lemma {:induction false} LogLineNumbering(n: nat, tag: string, text: string)
    ensures Text.DigitsValue(Text.LeadingDigits(LogLine(n, tag, text))) == n
  {
    var digits := Text.NatToString(n);
    assert LogLine(n, tag, text) == digits + (". " + tag + ": " + text);
    Text.LeadingDigitsOfNumber(digits, ". " + tag + ": " + text);
    Text.DecimalRoundTrip(n);
  }

  /** A log line shows its label right after the number and ends with the error's text. */
  lemma LogLineParts(n: nat, tag: string, text: string)
    ensures var line := LogLine(n, tag, text);
      var k := |Text.NatToString(n)|;
      && Text.ContainsAt(line, ". " + tag + ": ", k)
      && Text.ContainsAt(line, text, |line| - |text|)
  {
    var line := LogLine(n, tag, text);
    var digits := Text.NatToString(n);
    var middle := ". " + tag + ": ";
    assert line == digits + middle + text;
    assert line[|digits|..|digits| + |middle|] == middle;
    assert line[|line| - |text|..] == text;
  }
}
