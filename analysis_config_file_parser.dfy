/**
 * The configuration as src/analysis_config_file_parser.rs reads it: a list
 * of conversions, each with its source and target format and its file
 * entries, plus global settings; and `Config::group_by_key` over it.
 *
 * The three enums of that file (`ConversionFrom`, `ConversionTo`,
 * `NameFormat`) have the same variants and the same serde names as
 * `From`, `To` and `NameFormat` of src/analysis_config_file.rs, so they are
 * that module's datatypes under this file's names.
 */
module AnalysisConfigFileParser {
  import AnalysisConfigFile
  import Grouping

  type ConversionFrom = AnalysisConfigFile.From
  type ConversionTo = AnalysisConfigFile.To
  type NameFormat = AnalysisConfigFile.NameFormat

  /** A file entry: path, optional component label (`ns`, `ew`, `ud`) and grouping key. */
  type Group = Grouping.Group

  datatype Conversion = Conversion(from: ConversionFrom, to: ConversionTo, groups: seq<Group>)

  datatype Config = Config(conversions: seq<Conversion>, global: GlobalConfig)

  datatype GlobalConfig = GlobalConfig(config: GlobalSettings)

  datatype GlobalSettings = GlobalSettings(nameFormat: NameFormat, accCalculate: bool, unitConversion: bool)

  /** The entry lists of the conversions, in order. */
  function GroupLists(config: Config): (r: seq<seq<Group>>)
    ensures |r| == |config.conversions|
    ensures forall i :: 0 <= i < |r| ==> r[i] == config.conversions[i].groups
  {
    seq(|config.conversions|, i requires 0 <= i < |config.conversions| => config.conversions[i].groups)
  }

  /**
   * `Config::group_by_key`: the buckets of every conversion, conversion by
   * conversion, each conversion's buckets in its map's order `orders[i]`.
   */
  method GroupByKey(config: Config) returns (result: seq<seq<Group>>, ghost orders: seq<seq<Grouping.Key>>)
    ensures Grouping.AreKeyOrders(orders, GroupLists(config))
    ensures result == Grouping.Grouped(GroupLists(config), orders)
    ensures multiset(Grouping.Flatten(result)) == multiset(Grouping.Flatten(GroupLists(config)))
    ensures |result| == Grouping.KeyTotal(GroupLists(config))
    ensures forall b :: b in result ==> IsKeyBucket(config, b)
  {
    result, orders := Grouping.GroupByKey(GroupLists(config));
    forall b | b in result
      ensures IsKeyBucket(config, b)
    {
      var i :| 0 <= i < |config.conversions| && b == Grouping.Filter(GroupLists(config)[i], Grouping.BucketKey(b));
    }
  }

  /** `b` is non-empty and holds exactly the entries of one conversion that carry its key. */
  ghost predicate IsKeyBucket(config: Config, b: seq<Group>) {
    && b != []
    && (exists c :: 0 <= c < |config.conversions| &&
         b == Grouping.Filter(config.conversions[c].groups, Grouping.BucketKey(b)))
  }

  /**
   * What a caller of `group_by_key` may rely on, whatever the maps' order:
   * each entry of the configuration is in the result as often as in the
   * input; every bucket is non-empty and holds exactly one conversion's
   * entries for one key, in their original order; conversion `i`'s buckets
   * are one per key and follow those of conversion `i - 1`.
   */
  lemma GroupByKeyPartition(config: Config, orders: seq<seq<Grouping.Key>>, i: nat)
    requires Grouping.AreKeyOrders(orders, GroupLists(config))
    requires i < |config.conversions|
    ensures var result := Grouping.Grouped(GroupLists(config), orders);
      && multiset(Grouping.Flatten(result)) == multiset(Grouping.Flatten(GroupLists(config)))
      && (forall b :: b in result ==> IsKeyBucket(config, b))
      && |orders[i]| == |Grouping.KeySet(config.conversions[i].groups)|
      && var start := |Grouping.Grouped(GroupLists(config)[..i], orders[..i])|;
         && start + |orders[i]| <= |result|
         && result[start..start + |orders[i]|] == Grouping.Buckets(config.conversions[i].groups, orders[i])
  {
    var convs := GroupLists(config);
    var result := Grouping.Grouped(convs, orders);
    Grouping.GroupingCovers(convs, orders);
    forall b | b in result
      ensures IsKeyBucket(config, b)
    {
      Grouping.EveryBucketIsOneKeyOfOneConversion(convs, orders, b);
    }
    Grouping.DistinctLength(orders[i], Grouping.KeySet(convs[i]));
    Grouping.GroupingSlice(convs, orders, i);
  }
}
