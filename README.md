# Naifuru core in Dafny

Naifuru converts seismograph recordings between file formats. A run is described by a TOML
configuration, which lists conversions. Each conversion has a source format, a target format
and file entries, and entries that share a grouping key (`g_key`) belong to one recording.
Before anything is converted, the command line is checked: the input must be an existing
regular `.toml` file and the output an existing directory. Failures become error values with
fixed texts, numbered log lines and per-kind exit codes.

This project models that core and proves what it promises:

- `Grouping` is `Config::group_by_key`, the algorithm shared by both configuration revisions.
  It has three loops:
  - an outer loop over conversions;
  - an inner loop that fills a `HashMap` from key to entries;
  - a drain loop that pushes the map's buckets.

  The map's iteration order is unspecified, so the drain loop picks its next key
  nondeterministically (`:|`). The method reports, as a ghost output, the key order it used.
  Every property is proved for every possible order:
  - coverage: the result holds the same entries, counted with multiplicity;
  - each bucket is non-empty and holds exactly one conversion's entries for one key;
  - one bucket per key;
  - entries keep their order inside a bucket;
  - conversions are processed one after another, and keys are scoped to their conversion;
  - the number of buckets is the number of distinct keys.
- `AnalysisConfigFileParser` and `AnalyzeConfigFileParser` are the newer and the older revision
  of the configuration tree. The older revision gives a missing `g_key` the default `None`.
  Both call the shared grouping on their conversions' entry lists. So both revisions'
  `GroupByKey` carry the same contract over those lists: coverage, one bucket per distinct key,
  and every bucket one conversion's entries for one key.
- `AnalysisConfigFile` holds the conversion-job configuration. Its enums are parsed by their
  serde names, and each parser is proved to invert its name table and to reject every other string.
- `Cli` models:
  - `Path::file_name` and `Path::extension`;
  - the input check, which collects every problem before failing;
  - the output check;
  - `Args::validate`, which wraps each failure in a context naming the path.

  The filesystem is a map from path to kind of entry.
- `Errors` (with `Io`) models:
  - `CustomIoError::from` and the hand-written equality, which compares paths component by
    component as `PathBuf`'s `==` does, proved to be an equivalence;
  - the display texts;
  - the exit codes of `CustomErrors`;
  - `log_errors`, whose lines are numbered from 1 in list order, with a number that can be read back.
- `Error` models the module of an `ErrorContext`, its exit code and its display text.
- `Text` supplies ASCII lower-casing, `join` and decimal formatting, with their lemmas.

## Model

| member | source | states |
|---|---|---|
| Grouping.GroupByKey | src/analysis_config_file_parser.rs:90-108 | The result is the concatenation, conversion by conversion, of each conversion's buckets. The buckets follow a key order that lists every key of that conversion exactly once. Independent of that order: the result holds the input entries with the same multiplicity; it has one bucket per distinct key of each conversion; every bucket is non-empty and is one conversion's entries for one key. |
| Grouping.CollectByKey | src/analysis_config_file_parser.rs:97-99 | After the inner loop the map's keys are exactly the keys present. Each key maps to that key's entries in input order. |
| Grouping.DrainBuckets | src/analysis_config_file_parser.rs:101-104 | Draining the map in whatever order it iterates yields every bucket of the map, each once: as many buckets as keys, every map value among them and nothing else. The buckets follow a key order without repeats that covers the key set. |
| Grouping.DrainedAll | src/analysis_config_file_parser.rs:101-104 | When the drain ends, the buckets are exactly the map's values, one per key. |
| Grouping.GroupingCovers | src/analysis_config_file_parser.rs:90-108 | Flattened, the result holds the same entries as all conversions together, with the same multiplicity. Nothing is lost or duplicated. |
| Grouping.BucketsCover | src/analysis_config_file_parser.rs:97-104 | The buckets of one conversion hold its entries with the same multiplicity. |
| Grouping.SplitMultiset | src/analysis_config_file_parser.rs:97-99 | Selecting one key and dropping it split a conversion's entries between the two parts. |
| Grouping.OneBucketPerKey | src/analysis_config_file_parser.rs:97-104 | Every key present gets exactly one bucket. That bucket is all entries with the key and is non-empty. |
| Grouping.EveryBucketIsOneKeyOfOneConversion | src/analysis_config_file_parser.rs:93-105 | Every bucket of the result is non-empty and equals one conversion's entries for that bucket's key. |
| Grouping.FilterIsStable | src/analysis_config_file_parser.rs:97-99 | A bucket lists the entries whose positions hold its key, in increasing position order, so pushes preserve input order. |
| Grouping.PositionsOfKey | src/analysis_config_file_parser.rs:97-99 | A position is among a key's positions exactly when the entry there has that key. |
| Grouping.Positions | src/analysis_config_file_parser.rs:97-99 | The positions of a key are in range and strictly ascending. |
| Grouping.GroupingSlice | src/analysis_config_file_parser.rs:93-105 | Conversion `i`'s buckets form one contiguous slice of the result, right after the buckets of conversions `0..i`. |
| Grouping.GroupedPrefix | src/analysis_config_file_parser.rs:93-105 | The result for the first `i` conversions is a prefix of the whole result, because `result` is only appended to. |
| Grouping.GroupingCount | src/analysis_config_file_parser.rs:90-108 | The number of buckets equals the number of distinct keys, summed over conversions. |
| Grouping.KeysAreScopedPerConversion | src/analysis_config_file_parser.rs:93-98 | A two-conversion scenario: two conversions of one entry each, both with the same key, give two separate buckets, because the map is created anew per conversion. |
| Grouping.KeylessEntriesShareABucket | src/analysis_config_file_parser.rs:97-104 | Two entries without a key and one with a key give two buckets, and both keyless entries are in the same bucket, in order. |
| Grouping.SingleKeyOrder | src/analysis_config_file_parser.rs:101-104 | A single-entry conversion drains in exactly one order. |
| Grouping.Filter | src/analysis_config_file_parser.rs:97-99 | A key's bucket holds only entries of the input that carry that key, and it is no longer than the input. |
| Grouping.Buckets | src/analysis_config_file_parser.rs:101-104 | There is one bucket per listed key, and bucket `j` holds the entries with the `j`-th listed key. |
| Grouping.FilterOutKeys | src/analysis_config_file_parser.rs:97-99 | Dropping a key's entries removes exactly that key from the key set. |
| Grouping.FilterAbsent | src/analysis_config_file_parser.rs:97-99 | A key that does not occur has an empty bucket. |
| Grouping.CollectStep | src/analysis_config_file_parser.rs:98 | One `entry(...).or_default().push(group)` turns the map of the first `i` entries into the map of the first `i + 1`. |
| Grouping.RemoveStep | src/analysis_config_file_parser.rs:102-104 | Taking a key out of the part still to be drained keeps the drain loop's bookkeeping and shrinks what remains. |
| Grouping.DistinctLength | src/analysis_config_file_parser.rs:101-104 | A key order has exactly as many entries as there are distinct keys. |
| AnalysisConfigFileParser.GroupByKey | src/analysis_config_file_parser.rs:90-108 | `Config::group_by_key` of the newer revision gives the shared grouping of its conversions' entry lists, in conversion order. It holds every configured entry with the same multiplicity and one bucket per distinct key of each conversion, and every bucket is one conversion's entries for one key. |
| AnalysisConfigFileParser.GroupByKeyPartition | src/analysis_config_file_parser.rs:89-109 | What a caller may rely on, whatever the maps' order: multiset coverage; every bucket is one conversion's entries for one key; conversion `i` has one bucket per distinct key; those buckets sit as a slice after the buckets of earlier conversions. |
| AnalyzeConfigFileParser.GroupByKey | src/analyze_config_file_parser.rs:58-76 | The older revision's `group_by_key` gives the shared grouping of its conversions' entry lists, with the same coverage, bucket count and one-key-of-one-conversion buckets. |
| AnalyzeConfigFileParser.AbsentKeysShareTheNoneBucket | src/analyze_config_file_parser.rs:14-20 | Entries are read with `#[serde(default)]` on `g_key`. Every entry read without a `g_key` lands in the one bucket for key `None`, and that bucket holds only keyless entries. |
| AnalysisConfigFile.ParseFrom | src/analysis_config_file.rs:8-17 | A source format is read exactly when the string is one of the six snake_case names, and it is the format of that name. |
| AnalysisConfigFile.FromName | src/analysis_config_file.rs:8-17 | Every source format has one of the six configuration names. |
| AnalysisConfigFile.FromVariants | src/analysis_config_file.rs:8-17 | There are exactly six source formats, with six pairwise different names. |
| AnalysisConfigFile.FromRoundTrip | src/analysis_config_file.rs:8-17 | Reading a source format's name gives back that format. |
| AnalysisConfigFile.ParseTo | src/analysis_config_file.rs:20-25 | A target format is read exactly when the string is `jp_jma_csv` or `jp_stera3d_txt`, and it is the format of that name. |
| AnalysisConfigFile.ToName | src/analysis_config_file.rs:20-25 | Every target format has one of the two configuration names. |
| AnalysisConfigFile.ToRoundTrip | src/analysis_config_file.rs:20-25 | Reading a target format's name gives back that format. |
| AnalysisConfigFile.ParseAccAxis | src/analysis_config_file.rs:28-34 | An axis is read exactly when the string is `ns`, `ew` or `ud`, and it is the axis of that name. |
| AnalysisConfigFile.AccAxisName | src/analysis_config_file.rs:28-34 | Every axis has one of the three configuration names. |
| AnalysisConfigFile.AccAxisRoundTrip | src/analysis_config_file.rs:28-34 | Reading an axis name gives back that axis. |
| AnalysisConfigFile.ParseAccAxisField | src/analysis_config_file.rs:72-76 | An absent `acc_axis` gives a file without axis. A present one gives that axis when it names one, and rejects the configuration otherwise. |
| AnalysisConfigFile.NameFormatName | src/analysis_config_file.rs:36-45 | The name format has the configuration name `yyyymmdd-hhmmss-sn-n`. |
| AnalysisConfigFile.ParseNameFormat | src/analysis_config_file.rs:36-45 | The name format is read exactly from the kebab-case name `yyyymmdd-hhmmss-sn-n`. |
| AnalysisConfigFile.NameFormatRoundTrip | src/analysis_config_file.rs:36-45 | Reading the name format's name gives back the name format. |
| Cli.Validate | src/cli.rs:52-70 | Succeeds exactly when both checks find nothing. A failing input check gives its report wrapped in `Failed to validate input file: <path>`, and the output is then not checked. With a good input, a failing output check gives its report wrapped in `Failed to validate output directory: <path>`. |
| Cli.ValidateInputFilePath | src/cli.rs:72-126 | The result is the report of the collected input errors: the extension error first, then the path error. |
| Cli.InputFileErrors | src/cli.rs:72-111 | At most two errors. There are none exactly when the lower-cased extension is `toml` and the path is an existing regular file. Every error is attributed to the argument-validation module. |
| Cli.ExtensionErrors | src/cli.rs:76-99 | At most one error, and none exactly when the lower-cased extension is accepted. |
| Cli.FileKindErrors | src/cli.rs:101-111 | At most one error, and none exactly when the path exists and is a regular file. |
| Cli.Report | src/cli.rs:113-125 | Success exactly when nothing was collected. |
| Cli.ReportListsEveryMessage | src/cli.rs:113-123 | Every collected error's message appears unchanged in the displayed text of the reported error, after the `Multiple validation errors:` header, at its offset in the newline-joined list. |
| Cli.ValidateOutputDirPath | src/cli.rs:128-156 | The result is the report of the output errors. |
| Cli.OutputDirErrors | src/cli.rs:128-141 | A missing path gives `Path does not exist: <p>`. An existing non-directory gives `Path is not a directory: <p>`. An existing directory gives nothing. |
| Cli.NoExtensionReported | src/cli.rs:80-86 | A path without extension gets `File has no extension` as its first error. |
| Cli.InvalidExtensionReported | src/cli.rs:87-97 | Any other extension gets `Invalid file extension: <lower-cased ext>, expected one of: toml` as its first error. |
| Cli.JoinValidExtensions | src/cli.rs:74 | The joined list of accepted extensions reads `toml`. |
| Cli.PathErrorsReported | src/cli.rs:101-111 | A missing path is reported only as missing. An existing non-file is reported only as `Path is not a file`. A regular file adds nothing. |
| Cli.BothErrorsCollected | src/cli.rs:72-111 | A bad extension on a missing path gives two errors, so the check does not stop at the first. |
| Cli.ExtensionIsCaseInsensitive | src/cli.rs:76-78 | Two paths whose extensions lower-case alike are accepted or rejected together. |
| Cli.UpperCaseTomlAccepted | src/cli.rs:76-88 | A path whose extension is `TOML` passes the extension check. |
| Cli.StemDoesNotMatter | src/cli.rs:343-365 | For any non-empty stem without a separator and any non-empty `ext` without dot or separator, in any directory, the file name of `stem.ext` is itself and its extension is `ext`. It passes the extension check exactly when `ext` lower-cases to `toml`, so spaces, non-ASCII letters and symbols in the stem do not matter. |
| Cli.TomlAcceptedWhateverTheStem | src/cli.rs:343-365 | A `stem.toml` path passes the extension check for every non-empty stem without a separator, in any directory. |
| Cli.TomlFileAccepted | src/cli.rs:343-365 | A regular file named `stem.toml` (non-empty stem without separator, any directory) passes the whole input check: no error is collected and the report is `Ok`. |
| Cli.NoExtensionWithoutInnerDot | src/cli.rs:206-246 | A bare name with no dot after its first character has no extension (the `test` case of the tests). |
| Cli.HiddenFileInDirHasNoExtension | src/cli.rs:76-86 | In any directory, a file name with no dot after its first character, such as `dir/.profile`, is the path's file name and has no extension, so it is reported as having none. |
| Cli.FileName | src/cli.rs:76-78 | `Path::file_name` gives a non-empty component without separator that is neither `.` nor `..`. |
| Cli.Extension | src/cli.rs:76-78 | An extension exists only for a path with a file name and contains no dot. |
| Error.ExitCode | src/error.rs:17-24 | The argument-validation module exits with 1 and the configuration-analysis module with 2; neither exits with 0. |
| Error.ExitCodeInjective | src/error.rs:17-24 | Different modules exit with different codes. |
| Error.DisplayIsMessage | src/error.rs:32-36 | An error context displays exactly its message, whatever its module. |
| Errors.FromIoError | src/errors.rs:141-163 | The converted error stands for the I/O error's kind. It keeps the path exactly for not-found, permission-denied and already-exists. It is `Other`, holding the whole error, exactly for the kinds without a variant of their own. |
| Errors.Equal | src/errors.rs:165-189 | Equal errors have the same kind. Two non-`Other` errors are equal exactly when they are the same variant and, for the three path-carrying variants, their paths have the same components (`PathBuf`'s `==`). A payload-free variant equals exactly itself. Two `Other` errors are equal exactly when their sources' kinds agree. `Other` never equals a non-`Other` error. |
| Errors.EqualIsEquivalence | src/errors.rs:165-191 | The hand-written equality is reflexive, symmetric and transitive, as `impl Eq` requires. |
| Errors.EqualAfterConversion | src/errors.rs:141-189 | Two converted errors are equal exactly when the kinds agree and, for the path-keeping kinds, the paths have the same components. |
| Errors.Components | src/errors.rs:169-178 | `Path::components`, which the paths' `==` compares: the first component is the root exactly when the path starts with `/`, and every later component is `..` or a normal name. |
| Errors.PathsCompareByComponents | src/errors.rs:169-178 | For any normal names `x`, `y`, `z` (non-empty, without `/`, neither `.` nor `..`), the path `x/y` equals `x//y`, `x/y/` and `x/./y`. It differs from `/x/y` and `./x/y`, and it equals `x/z` exactly when `y == z`. |
| Errors.ComponentsOfTwo | src/errors.rs:169-178 | The components of `x/y` are the two names. |
| Errors.ComponentsOfDoubleSeparator | src/errors.rs:169-178 | A repeated separator adds no component: `x//y` has the components of `x/y`. |
| Errors.ComponentsOfTrailingSeparator | src/errors.rs:169-178 | A trailing separator adds no component. |
| Errors.ComponentsOfInnerDot | src/errors.rs:169-178 | An inner `.` adds no component. |
| Errors.ComponentsOfLeadingDot | src/errors.rs:169-178 | A leading `./` is kept as a current-directory component before the names. |
| Errors.DebugPath | src/errors.rs:89-117 | A path shown with `{:?}` is enclosed in double quotes and is no shorter than the path plus two. |
| Errors.PlainPathDebug | src/errors.rs:89-117 | A path made of printable ASCII characters other than `"` and `\` is shown as itself between double quotes. |
| Errors.PathIsNotFileDisplay | src/errors.rs:58-59 | `PathIsNotFile(p)` displays as `Path '<p>' is not a file`, with the path shown plainly. |
| Errors.ValidationErrorTexts | src/errors.rs:61-71 | The other `ValidationError` texts: `Path '<p>' is not a directory`; `Invalid file extension '<found>'. Expected one of: <expected>.`; `No file extension found`; and `I/O error occurred: ` followed by the wrapped I/O error's own text. |
| Errors.AnalysisConfigErrorTexts | src/errors.rs:74-84 | `Config file '<p>' has the wrong structure.`, `Failed to parse: '<message>'`, and `I/O error occurred: ` followed by the wrapped I/O error's own text. |
| Errors.IoErrorPathTexts | src/errors.rs:89-114 | For a path of printable ASCII characters other than `"` and `\`, the three path-carrying I/O errors read `File not found: "<p>"`, `Permission denied for file: "<p>"` and `Already exists: "<p>"`. |
| Errors.IoErrorTextEndsWithPath | src/errors.rs:89-114 | For any path, the text of a path-carrying I/O error ends with the path in debug form. |
| Errors.IoErrorFixedTexts | src/errors.rs:95-137 | The thirteen variants without payload have their fixed texts. `Other` shows its wrapped error's own text after `Other I/O error: `, whatever the kind. |
| Errors.Kind | src/errors.rs:141-161 | The kind a variant stands for, which inverts the conversion's match. A non-`Other` variant stands for a kind that has its own variant, and it keeps a path exactly when that kind keeps one. `Other` stands for its source's kind. |
| Errors.ExitCode | src/errors.rs:21-26 | Validation errors exit with 2, configuration errors with 3. |
| Errors.FromValidationErrors | src/errors.rs:44-48 | The list is kept as it is, and the run exits with 2. |
| Errors.FromAnalysisConfigErrors | src/errors.rs:50-54 | The list is kept as it is, and the run exits with 3. |
| Errors.LogErrors | src/errors.rs:28-41 | One line per error in list order. Line `i` is `<i+1>. ValidationError: <text>` or `<i+1>. ConfigFileError: <text>`, the label following the kind of list. |
| Errors.LogNumbered | src/errors.rs:31-33 | The enumerate loop gives one numbered, labelled line per displayed error. |
| Errors.LogLineNumbering | src/errors.rs:32 | The leading digits of a log line read back as its number, so the lines are numbered 1, 2, ... and no two share a number. |
| Errors.LogLineParts | src/errors.rs:32 | A log line shows `. <label>: ` right after the number and ends with the error's text. |
| Text.DecimalRoundTrip | src/errors.rs:32 | The decimal text of a number reads back as that number. |
| Text.NatToStringInjective | src/errors.rs:32 | Different numbers have different decimal texts. |
| Text.JoinContainsItem | src/cli.rs:114-118 | Each item occurs in the joined text at its offset. |
| Text.LowerAscii | src/cli.rs:78 | Lower-casing keeps the length and lower-cases each character. |
| Text.LowerAsciiIdempotent | src/cli.rs:78 | Lower-casing twice is lower-casing once. |

## Left out

- Reading the configuration file (`read_config_from_input_file` in the three configuration files) is I/O and is not modelled. The TOML parsing that serde performs is reduced to the name parsers above.
- `Args::new` (clap parsing), `main.rs`, `logging.rs` and the extractors are not part of this model.
- `log_errors` hands its lines to the `log` crate. Only the lines are modelled, not their emission.
- The filesystem is a parameter, a map from path to entry kind. Symbolic links, permissions and races between the checks and later use are not modelled.
- Paths use `/` only, with no Windows prefixes. `Path::display` is the path itself, so lossy UTF-8 conversion is not modelled.
- Cli.ExtensionErrors: `to_lowercase` is modelled on ASCII letters only. Rust lower-cases all of Unicode.
- Errors.Components: `Path::components` is modelled for Unix paths only. Windows prefixes and `\` separators are not modelled.
- Errors.DebugPath: only `"`, `\`, newline, carriage return, tab and NUL are escaped. Rust's `{:?}` also escapes other control and non-printable characters and grapheme-extending characters, writing them as `\u{..}`. Errors.PlainPathDebug and Errors.IoErrorPathTexts therefore require a path of printable ASCII characters other than `"` and `\`, which Rust shows unescaped.
- The display text of a wrapped `std::io::Error` is carried as a given string, since the operating system produces it.
- `group_by_key` returns references (`Vec<Vec<&Group>>`). The model returns entry values, so coverage is stated as multiset equality and not as "every reference once".
- The comment at src/analysis_config_file_parser.rs:101 says that entries without a key are handled individually. The code puts them all in one bucket for the key `None`, and the model follows the code (Grouping.KeylessEntriesShareABucket).
- The doc comment at src/cli.rs:26 says that a missing output directory is created. The code only reports it, and the model follows the code (Cli.OutputDirErrors).
- Both configuration revisions import `ConfigParseError` from src/errors.rs, which does not define it. Their `read_config_from_input_file` error paths are left out together with the file reading.
- The serde `rename_all` rule is not computed from the variant names. Each enum's name table is written out and proved to be inverted by its parser.
