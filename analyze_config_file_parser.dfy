/**
 * The older revision of the configuration (src/analyze_config_file_parser.rs):
 * formats and the output name are plain strings there, and a file entry
 * without a `g_key` field gets the default key `None`. Its `group_by_key` has
 * the same body as the newer revision's.
 */
module AnalyzeConfigFileParser {
  import opened Wrappers
  import Grouping

  type Group = Grouping.Group

  datatype Conversion = Conversion(from: string, to: string, groups: seq<Group>)

  datatype Config = Config(conversions: seq<Conversion>, global: GlobalConfig)

  datatype GlobalConfig = GlobalConfig(config: GlobalSettings)

  datatype GlobalSettings = GlobalSettings(convertedName: string, accCalculate: bool, unitConversion: bool)

  /**
   * A file entry as written in the configuration: `gKeyField` is `None`
   * when the entry has no `g_key` field at all.
   */
  datatype GroupEntry = GroupEntry(path: string, component: Option<string>, gKeyField: Option<Grouping.u32>)

  /** Reading an entry: `#[serde(default)]` gives an absent key the value `None`. */
  function ReadGroup(e: GroupEntry): (g: Group)
    ensures g.path == e.path && g.component == e.component
    ensures e.gKeyField.None? ==> g.gKey == None
    ensures e.gKeyField.Some? ==> g.gKey == Some(e.gKeyField.value)
  {
    Grouping.Group(e.path, e.component, match e.gKeyField case None => None case Some(k) => Some(k))
  }

  function GroupLists(config: Config): (r: seq<seq<Group>>)
    ensures |r| == |config.conversions|
    ensures forall i :: 0 <= i < |r| ==> r[i] == config.conversions[i].groups
  {
    seq(|config.conversions|, i requires 0 <= i < |config.conversions| => config.conversions[i].groups)
  }

  /** `Config::group_by_key` of this revision. */
  method GroupByKey(config: Config) returns (result: seq<seq<Group>>, ghost orders: seq<seq<Grouping.Key>>)
    ensures Grouping.AreKeyOrders(orders, GroupLists(config))
    ensures result == Grouping.Grouped(GroupLists(config), orders)
    ensures multiset(Grouping.Flatten(result)) == multiset(Grouping.Flatten(GroupLists(config)))
    ensures |result| == Grouping.KeyTotal(GroupLists(config))
    ensures forall b :: b in result ==>
      b != [] && (exists i :: 0 <= i < |config.conversions| && b == Grouping.Filter(config.conversions[i].groups, Grouping.BucketKey(b)))
  {
    result, orders := Grouping.GroupByKey(GroupLists(config));
  }

  /**
   * Entries whose `g_key` field is absent all land in one bucket of their
   * conversion, the bucket of the key `None`, which holds exactly them.
   */
  lemma AbsentKeysShareTheNoneBucket(entries: seq<GroupEntry>, ks: seq<Grouping.Key>, i: nat)
    requires i < |entries| && entries[i].gKeyField.None?
    requires Grouping.IsKeyOrder(ks, seq(|entries|, j requires 0 <= j < |entries| => ReadGroup(entries[j])))
    ensures var gs := seq(|entries|, j requires 0 <= j < |entries| => ReadGroup(entries[j]));
      && (exists j :: 0 <= j < |ks| && ks[j] == None && Grouping.Buckets(gs, ks)[j] == Grouping.Filter(gs, None))
      && gs[i] in Grouping.Filter(gs, None)
      && forall x :: x in Grouping.Filter(gs, None) ==> x.gKey == None
  {
    var gs := seq(|entries|, j requires 0 <= j < |entries| => ReadGroup(entries[j]));
    assert gs[i].gKey == None;
    assert None in Grouping.KeySet(gs);
    Grouping.OneBucketPerKey(gs, ks, None);
    Grouping.FilterIsStable(gs, None);
    Grouping.PositionsOfKey(gs, None, i);
    var ps := Grouping.Positions(gs, None);
    var t :| 0 <= t < |ps| && ps[t] == i;
    assert Grouping.Filter(gs, None)[t] == gs[i];
  }
}
