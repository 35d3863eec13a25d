/**
 * `Config::group_by_key`, which both revisions of the configuration parser
 * (src/analysis_config_file_parser.rs and src/analyze_config_file_parser.rs)
 * implement with the same body: for each conversion, in order, collect its
 * entries under their `g_key` in a fresh `HashMap<Option<u32>, Vec<&Group>>`,
 * then append every bucket of that map to one flat result.
 *
 * A `HashMap` is iterated in no specified order. The method below takes the
 * map's keys in an arbitrary order (`:|`) and returns, as a ghost value, the
 * order it took; the specification fixes everything but that order.
 */
module Grouping {
  import opened Wrappers

  newtype u32 = x: int | 0 <= x < 0x1_0000_0000

  /** The grouping key of an entry; entries without one share the key `None`. */
  type Key = Option<u32>

  /** One file entry of a conversion: its path, its axis label and its grouping key. */
  datatype Group = Group(path: string, component: Option<string>, gKey: Key)

  // ---------------------------------------------------------------------------
  // Specification
  // ---------------------------------------------------------------------------

  /** The entries of `gs` whose key is `k`, in the order they have in `gs`. */
  function Filter(gs: seq<Group>, k: Key): (r: seq<Group>)
    ensures |r| <= |gs|
    ensures forall x :: x in r ==> x in gs && x.gKey == k
    decreases |gs|
  {
    if gs == [] then []
    else
      var last := gs[|gs| - 1];
      Filter(gs[..|gs| - 1], k) + (if last.gKey == k then [last] else [])
  }

  /** The keys that occur in `gs`, `None` included when some entry has no key. */
  function KeySet(gs: seq<Group>): set<Key> {
    set x | x in gs :: x.gKey
  }

  /** The key of a bucket: that of its first entry. */
  function BucketKey(b: seq<Group>): Key
    requires b != []
  {
    b[0].gKey
  }

  predicate Distinct(ks: seq<Key>) {
    forall i, j :: 0 <= i < j < |ks| ==> ks[i] != ks[j]
  }

  /** `ks` lists every key of `gs` exactly once, in some order (the order of a map's iteration). */
  ghost predicate IsKeyOrder(ks: seq<Key>, gs: seq<Group>) {
    Distinct(ks) && forall k :: k in ks <==> k in KeySet(gs)
  }

  /** One bucket per key of `ks`, in that order, each holding the entries with its key. */
  function Buckets(gs: seq<Group>, ks: seq<Key>): (bs: seq<seq<Group>>)
    ensures |bs| == |ks|
    ensures forall j :: 0 <= j < |ks| ==> bs[j] == Filter(gs, ks[j])
    decreases |ks|
  {
    if ks == [] then [] else Buckets(gs, ks[..|ks| - 1]) + [Filter(gs, ks[|ks| - 1])]
  }

  /**
   * The result of `group_by_key` for conversions with entry lists `convs`
   * when conversion `i`'s map yields its keys in the order `orders[i]`: the
   * buckets of the first conversion, then those of the second, and so on.
   */
  function Grouped(convs: seq<seq<Group>>, orders: seq<seq<Key>>): seq<seq<Group>>
    requires |orders| == |convs|
    decreases |convs|
  {
    if convs == [] then []
    else
      var n := |convs| - 1;
      Grouped(convs[..n], orders[..n]) + Buckets(convs[n], orders[n])
  }

  /** `orders` is a possible iteration order of every conversion's map. */
  ghost predicate AreKeyOrders(orders: seq<seq<Key>>, convs: seq<seq<Group>>) {
    |orders| == |convs| && forall i :: 0 <= i < |convs| ==> IsKeyOrder(orders[i], convs[i])
  }

  function Flatten<T>(xss: seq<seq<T>>): seq<T>
    decreases |xss|
  {
    if xss == [] then [] else xss[0] + Flatten(xss[1..])
  }

  /** The number of distinct keys of every conversion, added up. */
  function KeyTotal(convs: seq<seq<Group>>): nat
    decreases |convs|
  {
    if convs == [] then 0 else KeyTotal(convs[..|convs| - 1]) + |KeySet(convs[|convs| - 1])|
  }

  // ---------------------------------------------------------------------------
  // The algorithm
  // ---------------------------------------------------------------------------

  /** The nested loops of `group_by_key`, over the entry lists of the conversions. */
  method GroupByKey(convs: seq<seq<Group>>) returns (result: seq<seq<Group>>, ghost orders: seq<seq<Key>>)
    ensures AreKeyOrders(orders, convs)
    ensures result == Grouped(convs, orders)
    ensures multiset(Flatten(result)) == multiset(Flatten(convs))
    ensures |result| == KeyTotal(convs)
    ensures forall b :: b in result ==>
      b != [] && (exists i :: 0 <= i < |convs| && b == Filter(convs[i], BucketKey(b)))
  {
    result, orders := [], [];
    for i := 0 to |convs|
      invariant AreKeyOrders(orders, convs[..i])
      invariant result == Grouped(convs[..i], orders)
    {
      var grouped := CollectByKey(convs[i]);
      var buckets, ks := DrainBuckets(grouped, convs[i]);
      GroupedStep(convs, i, orders, ks);
      result, orders := result + buckets, orders + [ks];
    }
    assert convs[..|convs|] == convs;
    GroupingCovers(convs, orders);
    GroupingCount(convs, orders);
    forall b | b in result
      ensures b != [] && (exists i :: 0 <= i < |convs| && b == Filter(convs[i], BucketKey(b)))
    {
      EveryBucketIsOneKeyOfOneConversion(convs, orders, b);
    }
  }

  lemma GroupedStep(convs: seq<seq<Group>>, i: nat, orders: seq<seq<Key>>, ks: seq<Key>)
    requires i < |convs| && AreKeyOrders(orders, convs[..i]) && IsKeyOrder(ks, convs[i])
    ensures AreKeyOrders(orders + [ks], convs[..i + 1])
    ensures Grouped(convs[..i + 1], orders + [ks]) == Grouped(convs[..i], orders) + Buckets(convs[i], ks)
  {
    assert convs[..i + 1][..i] == convs[..i];
    assert (orders + [ks])[..i] == orders;
  }

  /** The inner loop `grouped.entry(group.g_key).or_default().push(group)`. */
  method CollectByKey(groups: seq<Group>) returns (grouped: map<Key, seq<Group>>)
    ensures grouped.Keys == KeySet(groups)
    ensures forall k :: k in grouped ==> grouped[k] == Filter(groups, k)
  {
    grouped := map[];
    for i := 0 to |groups|
      invariant grouped.Keys == KeySet(groups[..i])
      invariant forall k :: k in grouped ==> grouped[k] == Filter(groups[..i], k)
    {
      var group := groups[i];
      var bucket := [];
      if group.gKey in grouped {
        bucket := grouped[group.gKey];
      }
      CollectStep(grouped, groups, i);
      grouped := grouped[group.gKey := bucket + [group]];
    }
    assert groups[..|groups|] == groups;
  }

  /** The loop `for (_, groups) in grouped { result.push(groups) }`, in the map's own order. */
  method DrainBuckets(grouped: map<Key, seq<Group>>, ghost groups: seq<Group>)
    returns (buckets: seq<seq<Group>>, ghost ks: seq<Key>)
    requires grouped.Keys == KeySet(groups)
    requires forall k :: k in grouped ==> grouped[k] == Filter(groups, k)
    ensures IsKeyOrder(ks, groups)
    ensures buckets == Buckets(groups, ks)
    ensures |buckets| == |grouped|
    ensures forall k :: k in grouped ==> grouped[k] in buckets
    ensures forall b :: b in buckets ==> exists k :: k in grouped && grouped[k] == b
  {
    buckets, ks := [], [];
    var remaining := grouped;
    while remaining != map[]
      invariant remaining.Keys <= grouped.Keys
      invariant forall k :: k in remaining ==> remaining[k] == grouped[k]
      invariant Distinct(ks)
      invariant forall k :: k in ks <==> k in grouped && k !in remaining
      invariant buckets == Buckets(groups, ks)
      decreases |remaining.Keys|
    {
      var k :| k in remaining;
      BucketsSnoc(groups, ks, k);
      DistinctSnoc(ks, k);
      RemoveStep(grouped, remaining, ks, k);
      buckets, ks := buckets + [remaining[k]], ks + [k];
      remaining := remaining - {k};
    }
    DrainedAll(grouped, groups, ks, buckets);
  }

  /** Draining the whole map yields each of its buckets exactly once. */
  lemma DrainedAll(grouped: map<Key, seq<Group>>, groups: seq<Group>, ks: seq<Key>, buckets: seq<seq<Group>>)
    requires grouped.Keys == KeySet(groups)
    requires forall k :: k in grouped ==> grouped[k] == Filter(groups, k)
    requires IsKeyOrder(ks, groups) && buckets == Buckets(groups, ks)
    ensures |buckets| == |grouped|
    ensures forall k :: k in grouped ==> grouped[k] in buckets
    ensures forall b :: b in buckets ==> exists k :: k in grouped && grouped[k] == b
  {
    DrainedCount(grouped, ks);
    DrainedBuckets(grouped, groups, ks, buckets);
  }

  lemma DrainedCount(grouped: map<Key, seq<Group>>, ks: seq<Key>)
    requires Distinct(ks) && forall k :: k in ks <==> k in grouped
    ensures |ks| == |grouped|
  {
    DistinctLength(ks, grouped.Keys);
  }

  lemma DrainedBuckets(grouped: map<Key, seq<Group>>, groups: seq<Group>, ks: seq<Key>, buckets: seq<seq<Group>>)
    requires forall k :: k in ks <==> k in grouped
    requires forall k :: k in grouped ==> grouped[k] == Filter(groups, k)
    requires |buckets| == |ks| && forall j :: 0 <= j < |ks| ==> buckets[j] == Filter(groups, ks[j])
    ensures forall k :: k in grouped ==> grouped[k] in buckets
    ensures forall b :: b in buckets ==> exists k :: k in grouped && grouped[k] == b
  {
    forall k | k in grouped
      ensures grouped[k] in buckets
    {
      var j :| 0 <= j < |ks| && ks[j] == k;
      assert buckets[j] == grouped[k];
    }
    forall b | b in buckets
      ensures exists k :: k in grouped && grouped[k] == b
    {
      var j :| 0 <= j < |buckets| && buckets[j] == b;
      assert ks[j] in grouped;
    }
  }

  /** Taking key `k` out of the map still to be drained keeps the loop's bookkeeping. */
  lemma RemoveStep(grouped: map<Key, seq<Group>>, remaining: map<Key, seq<Group>>, ks: seq<Key>, k: Key)
    requires k in remaining && remaining.Keys <= grouped.Keys
    requires forall j :: j in remaining ==> remaining[j] == grouped[j]
    requires forall j :: j in ks <==> j in grouped && j !in remaining
    ensures var next := remaining - {k};
      && next.Keys <= grouped.Keys
      && (forall j :: j in next ==> next[j] == grouped[j])
      && (forall j :: j in ks + [k] <==> j in grouped && j !in next)
      && |next.Keys| < |remaining.Keys|
  {
    var next := remaining - {k};
    assert next.Keys == remaining.Keys - {k};
  }

  // ---------------------------------------------------------------------------
  // Lemmas: the loops' steps
  // ---------------------------------------------------------------------------

  lemma BucketsSnoc(gs: seq<Group>, ks: seq<Key>, k: Key)
    ensures Buckets(gs, ks + [k]) == Buckets(gs, ks) + [Filter(gs, k)]
  {
    assert (ks + [k])[..|ks|] == ks;
  }

  lemma DistinctSnoc(ks: seq<Key>, k: Key)
    requires Distinct(ks) && k !in ks
    ensures Distinct(ks + [k])
  {
  }

  /** Adding entry `i` to the map of the first `i` entries gives the map of the first `i + 1`. */
  lemma CollectStep(grouped: map<Key, seq<Group>>, gs: seq<Group>, i: nat)
    requires i < |gs|
    requires grouped.Keys == KeySet(gs[..i])
    requires forall k :: k in grouped ==> grouped[k] == Filter(gs[..i], k)
    ensures var g := gs[i];
      var next := grouped[g.gKey := (if g.gKey in grouped then grouped[g.gKey] else []) + [g]];
      && next.Keys == KeySet(gs[..i + 1])
      && forall k :: k in next ==> next[k] == Filter(gs[..i + 1], k)
  {
    var g := gs[i];
    if g.gKey !in grouped {
      FilterAbsent(gs[..i], g.gKey);
    }
    var next := grouped[g.gKey := (if g.gKey in grouped then grouped[g.gKey] else []) + [g]];
    PrefixKeys(gs, i);
    forall k | k in next ensures next[k] == Filter(gs[..i + 1], k) {
      PrefixFilter(gs, i, k);
    }
  }

  lemma PrefixKeys(gs: seq<Group>, i: nat)
    requires i < |gs|
    ensures KeySet(gs[..i + 1]) == KeySet(gs[..i]) + {gs[i].gKey}
  {
    assert gs[..i + 1] == gs[..i] + [gs[i]];
  }

  lemma PrefixFilter(gs: seq<Group>, i: nat, k: Key)
    requires i < |gs|
    ensures Filter(gs[..i + 1], k) == Filter(gs[..i], k) + (if gs[i].gKey == k then [gs[i]] else [])
  {
    assert gs[..i + 1][..i] == gs[..i];
  }

  /** A key that does not occur selects no entry. */
  lemma {:induction false} FilterAbsent(gs: seq<Group>, k: Key)
    requires k !in KeySet(gs)
    ensures Filter(gs, k) == []
    decreases |gs|
  {
    if gs != [] {
      var init := gs[..|gs| - 1];
      assert gs == init + [gs[|gs| - 1]];
      assert KeySet(init) <= KeySet(gs);
      FilterAbsent(init, k);
    }
  }

  /** A key that occurs selects at least one entry. */
  lemma {:induction false} FilterPresent(gs: seq<Group>, k: Key)
    requires k in KeySet(gs)
    ensures Filter(gs, k) != []
    decreases |gs|
  {
    var last := gs[|gs| - 1];
    var init := gs[..|gs| - 1];
    assert gs == init + [last];
    if last.gKey != k {
      var x :| x in gs && x.gKey == k;
      assert x in init;
      FilterPresent(init, k);
    }
  }

  // ---------------------------------------------------------------------------
  // Lemmas: coverage
  // ---------------------------------------------------------------------------

  /** The entries without `k`, in order. */
  function FilterOut(gs: seq<Group>, k: Key): (r: seq<Group>)
    decreases |gs|
  {
    if gs == [] then []
    else
      var last := gs[|gs| - 1];
      FilterOut(gs[..|gs| - 1], k) + (if last.gKey != k then [last] else [])
  }

  /** Selecting `k` and dropping `k` split the entries between them. */
  lemma {:induction false} SplitMultiset(gs: seq<Group>, k: Key)
    ensures multiset(gs) == multiset(Filter(gs, k)) + multiset(FilterOut(gs, k))
    decreases |gs|
  {
    if gs != [] {
      var init, last := gs[..|gs| - 1], gs[|gs| - 1];
      SplitMultiset(init, k);
      assert gs == init + [last];
      SplitStep(init, last, k);
    }
  }

  lemma SplitStep(init: seq<Group>, last: Group, k: Key)
    requires multiset(init) == multiset(Filter(init, k)) + multiset(FilterOut(init, k))
    ensures var gs := init + [last];
      multiset(gs) == multiset(Filter(gs, k)) + multiset(FilterOut(gs, k))
  {
    var gs := init + [last];
    assert gs[..|gs| - 1] == init;
    var f, o := Filter(init, k), FilterOut(init, k);
    MultisetSnoc(init, last);
    if last.gKey == k {
      assert Filter(gs, k) == f + [last] && FilterOut(gs, k) == o;
      MultisetSnoc(f, last);
      AddToFirst(multiset(init), multiset(f), multiset(o), last);
    } else {
      assert Filter(gs, k) == f && FilterOut(gs, k) == o + [last];
      MultisetSnoc(o, last);
      AddToSecond(multiset(init), multiset(f), multiset(o), last);
    }
  }

  lemma AddToFirst<T>(m: multiset<T>, a: multiset<T>, b: multiset<T>, x: T)
    requires m == a + b
    ensures m + multiset{x} == (a + multiset{x}) + b
  {
  }

  lemma AddToSecond<T>(m: multiset<T>, a: multiset<T>, b: multiset<T>, x: T)
    requires m == a + b
    ensures m + multiset{x} == a + (b + multiset{x})
  {
  }

  lemma MultisetSnoc<T>(s: seq<T>, x: T)
    ensures multiset(s + [x]) == multiset(s) + multiset{x}
  {
  }

  lemma {:induction false} FilterOutKeys(gs: seq<Group>, k: Key, k': Key)
    ensures k' in KeySet(FilterOut(gs, k)) <==> k' in KeySet(gs) && k' != k
    decreases |gs|
  {
    if gs != [] {
      var init := gs[..|gs| - 1];
      FilterOutKeys(init, k, k');
      assert gs == init + [gs[|gs| - 1]];
      assert KeySet(gs) == KeySet(init) + {gs[|gs| - 1].gKey};
      if gs[|gs| - 1].gKey != k {
        assert KeySet(FilterOut(gs, k)) == KeySet(FilterOut(init, k)) + {gs[|gs| - 1].gKey};
      }
    }
  }

  lemma {:induction false} FilterOutFilter(gs: seq<Group>, k: Key, k': Key)
    requires k' != k
    ensures Filter(FilterOut(gs, k), k') == Filter(gs, k')
    decreases |gs|
  {
    if gs != [] {
      var init, last := gs[..|gs| - 1], gs[|gs| - 1];
      FilterOutFilter(init, k, k');
      var rest := FilterOut(gs, k);
      if last.gKey != k {
        assert rest == FilterOut(init, k) + [last];
        assert rest[..|rest| - 1] == FilterOut(init, k);
        assert rest[|rest| - 1] == last;
        assert Filter(rest, k') == Filter(FilterOut(init, k), k') + (if last.gKey == k' then [last] else []);
      } else {
        assert rest == FilterOut(init, k);
      }
    }
  }

  /** The buckets of one conversion hold, together, exactly its entries. */
  lemma {:induction false} BucketsCover(gs: seq<Group>, ks: seq<Key>)
    requires IsKeyOrder(ks, gs)
    ensures multiset(Flatten(Buckets(gs, ks))) == multiset(gs)
    decreases |ks|
  {
    if ks == [] {
      NoKeysNoEntries(gs);
    } else {
      var k, tail := ks[0], ks[1..];
      var rest := FilterOut(gs, k);
      SplitMultiset(gs, k);
      forall k' ensures k' in tail <==> k' in KeySet(rest) {
        FilterOutKeys(gs, k, k');
        if k' in tail {
          var j :| 0 <= j < |tail| && tail[j] == k';
          assert ks[j + 1] == k';
        }
      }
      assert IsKeyOrder(tail, rest);
      BucketsCover(rest, tail);
      assert Buckets(gs, ks)[1..] == Buckets(rest, tail) by {
        forall j | 0 <= j < |tail| ensures Filter(gs, tail[j]) == Filter(rest, tail[j]) {
          assert tail[j] == ks[j + 1];
          FilterOutFilter(gs, k, tail[j]);
        }
      }
    }
  }

  lemma NoKeysNoEntries(gs: seq<Group>)
    ensures KeySet(gs) == {} ==> gs == []
  {
    if gs != [] {
      assert gs[0].gKey in KeySet(gs);
    }
  }

  lemma {:induction false} FlattenAppend<T>(a: seq<seq<T>>, b: seq<seq<T>>)
    ensures Flatten(a + b) == Flatten(a) + Flatten(b)
    decreases |a|
  {
    if a == [] {
      assert a + b == b;
    } else {
      assert (a + b)[0] == a[0];
      assert (a + b)[1..] == a[1..] + b;
      FlattenAppend(a[1..], b);
    }
  }

  /**
   * Coverage: every entry of every conversion appears in the result exactly
   * as often as in the input, and nothing else appears.
   */
  lemma {:induction false} GroupingCovers(convs: seq<seq<Group>>, orders: seq<seq<Key>>)
    requires AreKeyOrders(orders, convs)
    ensures multiset(Flatten(Grouped(convs, orders))) == multiset(Flatten(convs))
    decreases |convs|
  {
    if convs != [] {
      var n := |convs| - 1;
      var init, last := convs[..n], convs[n];
      var head := Grouped(init, orders[..n]);
      var tail := Buckets(last, orders[n]);
      KeyOrdersPrefix(orders, convs, n);
      GroupingCovers(init, orders[..n]);
      BucketsCover(last, orders[n]);
      assert Grouped(convs, orders) == head + tail;
      SnocSplit(convs);
      CoversStep(head, tail, init, last);
    }
  }

  lemma SnocSplit<T>(s: seq<T>)
    requires s != []
    ensures s == s[..|s| - 1] + [s[|s| - 1]]
  {
  }

  lemma CoversStep(head: seq<seq<Group>>, tail: seq<seq<Group>>, init: seq<seq<Group>>, last: seq<Group>)
    requires multiset(Flatten(head)) == multiset(Flatten(init))
    requires multiset(Flatten(tail)) == multiset(last)
    ensures multiset(Flatten(head + tail)) == multiset(Flatten(init + [last]))
  {
    FlattenAppend(head, tail);
    FlattenAppend(init, [last]);
    assert Flatten([last]) == last + Flatten([]);
  }

  lemma KeyOrdersPrefix(orders: seq<seq<Key>>, convs: seq<seq<Group>>, n: nat)
    requires AreKeyOrders(orders, convs) && n <= |convs|
    ensures AreKeyOrders(orders[..n], convs[..n])
  {
    forall i | 0 <= i < n ensures IsKeyOrder(orders[..n][i], convs[..n][i]) {
      assert orders[..n][i] == orders[i] && convs[..n][i] == convs[i];
    }
  }

  // ---------------------------------------------------------------------------
  // Lemmas: scoping, order and count
  // ---------------------------------------------------------------------------

  /** The result for the first `i` conversions is a prefix of the whole result. */
  lemma {:induction false} GroupedPrefix(convs: seq<seq<Group>>, orders: seq<seq<Key>>, i: nat)
    requires |orders| == |convs| && i <= |convs|
    ensures Grouped(convs[..i], orders[..i]) <= Grouped(convs, orders)
    decreases |convs|
  {
    if i < |convs| {
      var n := |convs| - 1;
      GroupedPrefix(convs[..n], orders[..n], i);
      assert convs[..n][..i] == convs[..i];
      assert orders[..n][..i] == orders[..i];
    } else {
      assert convs[..i] == convs && orders[..i] == orders;
    }
  }

  /**
   * Per-conversion scoping and the order between conversions: the buckets of
   * conversion `i` are the slice of the result that starts where those of
   * conversion `i - 1` end. So every bucket of an earlier conversion comes
   * before every bucket of a later one, and a bucket never mixes entries of
   * two conversions, even when they use the same key.
   */
  lemma GroupingSlice(convs: seq<seq<Group>>, orders: seq<seq<Key>>, i: nat)
    requires |orders| == |convs| && i < |convs|
    ensures var s := |Grouped(convs[..i], orders[..i])|;
      && s + |orders[i]| <= |Grouped(convs, orders)|
      && Grouped(convs, orders)[s..s + |orders[i]|] == Buckets(convs[i], orders[i])
  {
    GroupedPrefix(convs, orders, i + 1);
    GroupedSnoc(convs, orders, i);
    PrefixSlice(Grouped(convs[..i], orders[..i]), Buckets(convs[i], orders[i]), Grouped(convs, orders));
  }

  lemma GroupedSnoc(convs: seq<seq<Group>>, orders: seq<seq<Key>>, i: nat)
    requires |orders| == |convs| && i < |convs|
    ensures Grouped(convs[..i + 1], orders[..i + 1]) == Grouped(convs[..i], orders[..i]) + Buckets(convs[i], orders[i])
  {
    assert convs[..i + 1][..i] == convs[..i];
    assert orders[..i + 1][..i] == orders[..i];
    assert convs[..i + 1][i] == convs[i];
    assert orders[..i + 1][i] == orders[i];
  }

  lemma PrefixSlice<T>(a: seq<T>, b: seq<T>, c: seq<T>)
    requires a + b <= c
    ensures |a| + |b| <= |c| && c[|a|..|a| + |b|] == b
  {
    assert c[|a|..|a| + |b|] == (a + b)[|a|..];
  }

  /** A duplicate-free list of keys is as long as the set of its elements. */
  lemma {:induction false} DistinctLength(ks: seq<Key>, s: set<Key>)
    requires Distinct(ks)
    requires forall k :: k in ks <==> k in s
    ensures |ks| == |s|
    decreases |ks|
  {
    if ks != [] {
      var last := ks[|ks| - 1];
      var init := ks[..|ks| - 1];
      assert forall k :: k in ks <==> k in init || k == last;
      DistinctLength(init, s - {last});
    } else {
      assert s == {};
    }
  }

  /** The result holds one bucket per distinct key of each conversion, `None` counting once. */
  lemma {:induction false} GroupingCount(convs: seq<seq<Group>>, orders: seq<seq<Key>>)
    requires AreKeyOrders(orders, convs)
    ensures |Grouped(convs, orders)| == KeyTotal(convs)
    decreases |convs|
  {
    if convs != [] {
      var n := |convs| - 1;
      KeyOrdersPrefix(orders, convs, n);
      GroupingCount(convs[..n], orders[..n]);
      DistinctLength(orders[n], KeySet(convs[n]));
      assert |Grouped(convs, orders)| == |Grouped(convs[..n], orders[..n])| + |orders[n]|;
    }
  }

  /**
   * Each key of a conversion, `None` included, has exactly one bucket, and
   * that bucket holds every entry with the key and nothing else: all entries
   * without a key share a single bucket, although a comment in the source
   * says they are handled individually.
   */
  lemma OneBucketPerKey(gs: seq<Group>, ks: seq<Key>, k: Key)
    requires IsKeyOrder(ks, gs)
    requires k in KeySet(gs)
    ensures exists j :: 0 <= j < |ks| && ks[j] == k && Buckets(gs, ks)[j] == Filter(gs, k)
    ensures forall j, j' :: 0 <= j < |ks| && 0 <= j' < |ks| && ks[j] == k && ks[j'] == k ==> j == j'
    ensures Filter(gs, k) != []
  {
    FilterPresent(gs, k);
  }

  /**
   * Every bucket of the result is non-empty and is exactly the entries of
   * one conversion that carry one key: its entries share a key, come from
   * a single conversion and keep their order there.
   */
  lemma {:induction false} EveryBucketIsOneKeyOfOneConversion(convs: seq<seq<Group>>, orders: seq<seq<Key>>, b: seq<Group>)
    requires AreKeyOrders(orders, convs)
    requires b in Grouped(convs, orders)
    ensures b != []
    ensures exists i :: 0 <= i < |convs| && BucketKey(b) in KeySet(convs[i]) && b == Filter(convs[i], BucketKey(b))
    decreases |convs|
  {
    var n := |convs| - 1;
    var tail := Buckets(convs[n], orders[n]);
    if b in tail {
      var j :| 0 <= j < |tail| && tail[j] == b;
      var k := orders[n][j];
      OneBucketPerKey(convs[n], orders[n], k);
      assert b[0] in b;
    } else {
      KeyOrdersPrefix(orders, convs, n);
      EveryBucketIsOneKeyOfOneConversion(convs[..n], orders[..n], b);
      var i :| 0 <= i < n && BucketKey(b) in KeySet(convs[..n][i]) && b == Filter(convs[..n][i], BucketKey(b));
      assert convs[..n][i] == convs[i];
    }
  }

  /** The positions in `gs` of the entries with key `k`, ascending. */
  function Positions(gs: seq<Group>, k: Key): (ps: seq<nat>)
    ensures forall t :: 0 <= t < |ps| ==> ps[t] < |gs|
    ensures forall t, t' :: 0 <= t < t' < |ps| ==> ps[t] < ps[t']
    decreases |gs|
  {
    if gs == [] then []
    else Positions(gs[..|gs| - 1], k) + (if gs[|gs| - 1].gKey == k then [|gs| - 1] else [])
  }

  /** `Positions` finds every entry with key `k` and nothing else. */
  lemma {:induction false} PositionsOfKey(gs: seq<Group>, k: Key, p: nat)
    requires p < |gs|
    ensures p in Positions(gs, k) <==> gs[p].gKey == k
    decreases |gs|
  {
    var init := gs[..|gs| - 1];
    if p < |init| {
      PositionsOfKey(init, k, p);
      assert init[p] == gs[p];
    }
  }

  /**
   * Stable order inside a bucket: the bucket for `k` lists the entries at
   * the positions holding `k`, in increasing position order.
   */
  lemma {:induction false} FilterIsStable(gs: seq<Group>, k: Key)
    ensures |Filter(gs, k)| == |Positions(gs, k)|
    ensures forall t :: 0 <= t < |Positions(gs, k)| ==> Filter(gs, k)[t] == gs[Positions(gs, k)[t]]
    decreases |gs|
  {
    if gs != [] {
      var init := gs[..|gs| - 1];
      FilterIsStable(init, k);
      var f, ps := Filter(gs, k), Positions(gs, k);
      forall t | 0 <= t < |ps| ensures f[t] == gs[ps[t]] {
        if t < |Positions(init, k)| {
          assert ps[t] == Positions(init, k)[t];
          assert f[t] == Filter(init, k)[t];
          assert init[ps[t]] == gs[ps[t]];
        }
      }
    }
  }

  // ---------------------------------------------------------------------------
  // Two small scenarios
  // ---------------------------------------------------------------------------

  /** Equal keys in two different conversions give two buckets, one per conversion. */
  lemma KeysAreScopedPerConversion(orders: seq<seq<Key>>, a: Group, b: Group)
    requires a.gKey == b.gKey
    requires AreKeyOrders(orders, [[a], [b]])
    ensures Grouped([[a], [b]], orders) == [[a], [b]]
  {
    SingleKeyOrder(orders[0], a);
    SingleKeyOrder(orders[1], b);
    var convs := [[a], [b]];
    assert convs[..1] == [[a]] && convs[..1][..0] == [];
    assert Grouped(convs[..1], orders[..1]) == [[a]] by {
      assert orders[..1][..0] == [];
      assert Filter([a], a.gKey) == [a] by { assert [a][..0] == []; }
    }
    assert Filter([b], b.gKey) == [b] by { assert [b][..0] == []; }
  }

  lemma SingleKeyOrder(ks: seq<Key>, a: Group)
    requires IsKeyOrder(ks, [a])
    ensures ks == [a.gKey]
  {
    assert KeySet([a]) == {a.gKey};
    DistinctLength(ks, {a.gKey});
    assert ks[0] in ks;
  }

  /** Two key-less entries of one conversion share a bucket; a keyed one gets its own. */
  lemma KeylessEntriesShareABucket(ks: seq<Key>, a: Group, b: Group, c: Group)
    requires a.gKey == None && c.gKey == None && b.gKey.Some?
    requires IsKeyOrder(ks, [a, b, c])
    ensures |Buckets([a, b, c], ks)| == 2
    ensures [a, c] in Buckets([a, b, c], ks) && [b] in Buckets([a, b, c], ks)
  {
    var gs := [a, b, c];
    FilterOfThree(a, b, c);
    DistinctLength(ks, KeySet(gs));
    OneBucketPerKey(gs, ks, None);
    OneBucketPerKey(gs, ks, b.gKey);
  }

  lemma FilterOfThree(a: Group, b: Group, c: Group)
    requires a.gKey == None && c.gKey == None && b.gKey.Some?
    ensures KeySet([a, b, c]) == {None, b.gKey}
    ensures Filter([a, b, c], None) == [a, c]
    ensures Filter([a, b, c], b.gKey) == [b]
  {
    var gs := [a, b, c];
    assert gs[..2] == [a, b] && [a, b][..1] == [a] && [a][..0] == [];
    assert Filter([a], None) == [a];
    assert Filter([a, b], None) == [a];
    assert Filter([a], b.gKey) == [];
    assert Filter([a, b], b.gKey) == [b];
  }
}
