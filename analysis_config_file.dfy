/**
 * The analysis configuration (src/analysis_config_file.rs): which recordings
 * a run converts, from which source format to which target format, grouped
 * and split into files with an optional acceleration axis.
 *
 * The enums are read from the configuration by name. serde's `rename_all`
 * fixes those names (snake_case for the formats and axes, kebab-case for the
 * name format); each enum below has its name table, the parser that inverts
 * it, and lemmas that the two are mutually inverse and that every other
 * string is rejected.
 */
module AnalysisConfigFile {
  import opened Wrappers

  newtype u16 = x: int | 0 <= x < 0x1_0000

  type Path = string

  // ---------------------------------------------------------------------------
  // From: the source format
  // ---------------------------------------------------------------------------

  /** File format before conversion. */
  datatype From = JpNiedKnet | UsScsnV2 | NzGeonetV1a | NzGeonetV2a | TwPalertSac | TkAfadAsc

  const AllFroms: seq<From> := [JpNiedKnet, UsScsnV2, NzGeonetV1a, NzGeonetV2a, TwPalertSac, TkAfadAsc]

  const FromNames: seq<string> :=
    ["jp_nied_knet", "us_scsn_v2", "nz_geonet_v1a", "nz_geonet_v2a", "tw_palert_sac", "tk_afad_asc"]

  /** The configuration name of a source format. */
  function FromName(f: From): (name: string)
    ensures name in FromNames
  {
    match f
    case JpNiedKnet => "jp_nied_knet"
    case UsScsnV2 => "us_scsn_v2"
    case NzGeonetV1a => "nz_geonet_v1a"
    case NzGeonetV2a => "nz_geonet_v2a"
    case TwPalertSac => "tw_palert_sac"
    case TkAfadAsc => "tk_afad_asc"
  }

  /** Reads a source format by name; any other string is rejected. */
  function ParseFrom(s: string): (r: Option<From>)
    ensures r.Some? <==> s in FromNames
    ensures r.Some? ==> FromName(r.value) == s
  {
    if s == "jp_nied_knet" then Some(JpNiedKnet)
    else if s == "us_scsn_v2" then Some(UsScsnV2)
    else if s == "nz_geonet_v1a" then Some(NzGeonetV1a)
    else if s == "nz_geonet_v2a" then Some(NzGeonetV2a)
    else if s == "tw_palert_sac" then Some(TwPalertSac)
    else if s == "tk_afad_asc" then Some(TkAfadAsc)
    else None
  }

  /** Exactly six source formats, with six different names. */
  lemma FromVariants()
    ensures forall f: From :: f in AllFroms
    ensures |AllFroms| == 6 == |FromNames|
    ensures forall i :: 0 <= i < 6 ==> FromName(AllFroms[i]) == FromNames[i]
    ensures forall i, j :: 0 <= i < j < 6 ==> FromNames[i] != FromNames[j]
  {
    forall f: From ensures f in AllFroms {
      match f
      case JpNiedKnet => assert AllFroms[0] == f;
      case UsScsnV2 => assert AllFroms[1] == f;
      case NzGeonetV1a => assert AllFroms[2] == f;
      case NzGeonetV2a => assert AllFroms[3] == f;
      case TwPalertSac => assert AllFroms[4] == f;
      case TkAfadAsc => assert AllFroms[5] == f;
    }
  }

  lemma FromRoundTrip(f: From)
    ensures ParseFrom(FromName(f)) == Some(f)
  {
  }

  // ---------------------------------------------------------------------------
  // To: the target format
  // ---------------------------------------------------------------------------

  /** File format after conversion. */
  datatype To = JpJmaCsv | JpStera3dTxt

  const ToNames: seq<string> := ["jp_jma_csv", "jp_stera3d_txt"]

  function ToName(t: To): (name: string)
    ensures name in ToNames
  {
    match t
    case JpJmaCsv => "jp_jma_csv"
    case JpStera3dTxt => "jp_stera3d_txt"
  }

  function ParseTo(s: string): (r: Option<To>)
    ensures r.Some? <==> s in ToNames
    ensures r.Some? ==> ToName(r.value) == s
  {
    if s == "jp_jma_csv" then Some(JpJmaCsv)
    else if s == "jp_stera3d_txt" then Some(JpStera3dTxt)
    else None
  }

  lemma ToRoundTrip(t: To)
    ensures ParseTo(ToName(t)) == Some(t)
  {
  }

  // ---------------------------------------------------------------------------
  // AccAxis: the acceleration component a file holds
  // ---------------------------------------------------------------------------

  datatype AccAxis = Ns | Ew | Ud

  const AccAxisNames: seq<string> := ["ns", "ew", "ud"]

  function AccAxisName(a: AccAxis): (name: string)
    ensures name in AccAxisNames
  {
    match a
    case Ns => "ns"
    case Ew => "ew"
    case Ud => "ud"
  }

  function ParseAccAxis(s: string): (r: Option<AccAxis>)
    ensures r.Some? <==> s in AccAxisNames
    ensures r.Some? ==> AccAxisName(r.value) == s
  {
    if s == "ns" then Some(Ns)
    else if s == "ew" then Some(Ew)
    else if s == "ud" then Some(Ud)
    else None
  }

  lemma AccAxisRoundTrip(a: AccAxis)
    ensures ParseAccAxis(AccAxisName(a)) == Some(a)
  {
  }

  /**
   * Reads the optional `acc_axis` field of a file: an absent field gives a
   * file without axis, a present one must name an axis. The outer `None`
   * is a rejected configuration.
   */
  function ParseAccAxisField(field: Option<string>): (r: Option<Option<AccAxis>>)
    ensures r == Some(None) <==> field.None?
    ensures forall a: AccAxis :: r == Some(Some(a)) <==> field == Some(AccAxisName(a))
    ensures r.None? <==> field.Some? && field.value !in AccAxisNames
  {
    match field
    case None => Some(None)
    case Some(s) =>
      match ParseAccAxis(s)
      case None => None
      case Some(a) => Some(Some(a))
  }

  // ---------------------------------------------------------------------------
  // NameFormat: how output files are named
  // ---------------------------------------------------------------------------

  /**
   * Output file names such as `20240101-161018-ISK005-knet.csv`: start date,
   * start time, station name, institution name.
   */
  datatype NameFormat = YyyymmddHhmmssSnN

  const NameFormatNames: seq<string> := ["yyyymmdd-hhmmss-sn-n"]

  function NameFormatName(n: NameFormat): (name: string)
    ensures name in NameFormatNames
  {
    match n
    case YyyymmddHhmmssSnN => "yyyymmdd-hhmmss-sn-n"
  }

  function ParseNameFormat(s: string): (r: Option<NameFormat>)
    ensures r.Some? <==> s in NameFormatNames
    ensures r.Some? ==> NameFormatName(r.value) == s
  {
    if s == "yyyymmdd-hhmmss-sn-n" then Some(YyyymmddHhmmssSnN) else None
  }

  lemma NameFormatRoundTrip(n: NameFormat)
    ensures ParseNameFormat(NameFormatName(n)) == Some(n)
  {
  }

  // ---------------------------------------------------------------------------
  // The configuration tree
  // ---------------------------------------------------------------------------

  datatype Config = Config(global: GlobalConfig, conversion: seq<ConversionConfig>)

  datatype GlobalConfig = GlobalConfig(nameFormat: NameFormat)

  /** One conversion job: its id, the formats on both sides and its groups in order. */
  datatype ConversionConfig = ConversionConfig(id: u16, from: From, to: To, group: seq<GroupConfig>)

  /** One recording: its id and its files in order. */
  datatype GroupConfig = GroupConfig(id: u16, files: seq<FileConfig>)

  /** One file; `accAxis` is `None` when the file names no axis. */
  datatype FileConfig = FileConfig(path: Path, accAxis: Option<AccAxis>)
}
