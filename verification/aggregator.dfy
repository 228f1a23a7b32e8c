/**
 The body of the latency endpoint: for every requested region, select its
 records, skip it when there are none, and otherwise record its mean
 latency, 95th-percentile latency, mean uptime and count of threshold
 breaches under the region's name. The table is a read-only parameter; the
 result is a fresh map.
 */
module Aggregator {
  import opened Measurements
  import opened Statistics

  datatype Option<T> = None | Some(value: T)

  /** The four figures reported for one region. */
  datatype Stats = Stats(avgLatency: real, p95Latency: real, avgUptime: real, breaches: nat)

  /** The quantile reported as the 95th-percentile latency. */
  const P95: real := 0.95

  /** The positions of `rows` whose latency lies strictly above `threshold`. */
  ghost function BreachIndices(rows: seq<Record>, threshold: int): set<nat>
  {
    set i: nat | i < |rows| && rows[i].latencyMs > threshold as real
  }

  /** How many rows have a latency strictly above `threshold`; a latency equal
      to the threshold is not a breach. Counted back to front. */
  function Breaches(rows: seq<Record>, threshold: int): (n: nat)
    ensures n <= |rows|
  {
    if rows == [] then 0
    else
      var last := rows[|rows| - 1];
      Breaches(rows[..|rows| - 1], threshold) + if last.latencyMs > threshold as real then 1 else 0
  }

  /** The breach count is exactly the number of rows whose latency exceeds
      the threshold: it counts every such row and no other. */
  lemma {:induction false} BreachesCountsRowsAbove(rows: seq<Record>, threshold: int)
    ensures Breaches(rows, threshold) == |BreachIndices(rows, threshold)|
  {
    if rows != [] {
      var n := |rows| - 1;
      var init := rows[..n];
      BreachesCountsRowsAbove(init, threshold);
      var above := if rows[n].latencyMs > threshold as real then {n} else {};
      assert BreachIndices(rows, threshold) == BreachIndices(init, threshold) + above by {
        forall i: nat | i < n
          ensures init[i] == rows[i]
        {
        }
      }
      assert n !in BreachIndices(init, threshold);
    }
  }

  /** Raising the threshold never increases the breach count. */
  lemma {:induction false} BreachesAntitone(rows: seq<Record>, t1: int, t2: int)
    requires t1 <= t2
    ensures Breaches(rows, t2) <= Breaches(rows, t1)
  {
    if rows != [] {
      BreachesAntitone(rows[..|rows| - 1], t1, t2);
    }
  }

  /** The four figures for the non-empty rows of one region. Each average
      and the percentile stay within the range of the values they summarise,
      the breach count never exceeds the number of rows, and each average is
      its column's total divided by the number of rows. */
  function Summarize(rows: seq<Record>, threshold: int): (s: Stats)
    requires |rows| > 0
    ensures Min(Latencies(rows)) <= s.avgLatency <= Max(Latencies(rows))
    ensures Min(Latencies(rows)) <= s.p95Latency <= Max(Latencies(rows))
    ensures Min(Uptimes(rows)) <= s.avgUptime <= Max(Uptimes(rows))
    ensures s.breaches <= |rows|
    ensures s.avgLatency == Sum(Latencies(rows)) / (|rows| as real)
    ensures s.avgUptime == Sum(Uptimes(rows)) / (|rows| as real)
  {
    var lat, up := Latencies(rows), Uptimes(rows);
    MeanWithinRange(lat);
    MeanWithinRange(up);
    Stats(Mean(lat), SortedPercentile(lat, P95), Mean(up), Breaches(rows, threshold))
  }

  /** The figures for one region, or None when the table holds no record of
      that region (the handler skips such a region). */
  function RegionStats(table: seq<Record>, region: string, threshold: int): (r: Option<Stats>)
    ensures r.None? <==> !HasRecords(table, region)
  {
    var rows := Filter(table, region);
    if rows == [] then None else Some(Summarize(rows, threshold))
  }

  /** A region's figures depend only on that region's records: two tables
      holding the same rows for it, in the same order, give the same figures. */
  lemma RegionStatsLocal(t1: seq<Record>, t2: seq<Record>, region: string, threshold: int)
    requires Filter(t1, region) == Filter(t2, region)
    ensures RegionStats(t1, region, threshold) == RegionStats(t2, region, threshold)
  {
  }

  /** Records of other regions do not matter: appending rows that hold
      nothing of `region` to the table leaves its figures unchanged. */
  lemma {:induction false} RegionStatsIgnoresOtherRegions(table: seq<Record>, extra: seq<Record>, region: string, threshold: int)
    requires !HasRecords(extra, region)
    ensures RegionStats(table + extra, region, threshold) == RegionStats(table, region, threshold)
  {
    FilterIgnoresOtherRecords(table, extra, region);
  }

  /** With a single record, both latency figures are that record's latency,
      the mean uptime is its uptime, and it is a breach exactly when its
      latency exceeds the threshold. */
  lemma RegionStatsSingleRecord(x: Record, threshold: int)
    ensures RegionStats([x], x.region, threshold)
      == Some(Stats(x.latencyMs, x.latencyMs, x.uptimePct,
                    if x.latencyMs > threshold as real then 1 else 0))
  {
    var rows := Filter([x], x.region);
    assert rows == [x];
    assert Latencies(rows) == [x.latencyMs];
    assert Uptimes(rows) == [x.uptimePct];
    assert rows[..0] == [];
  }

  /** The dictionary the handler's loop builds: walking `regions` in order,
      each key whose entry is present is (re)written with it and each key
      whose entry is absent is skipped. A key ends up in the result exactly
      when it was requested and its entry is present, and it holds that entry. */
  function Collect<V>(regions: seq<string>, entry: string -> Option<V>): (m: map<string, V>)
    ensures forall k :: k in m <==> k in regions && entry(k).Some?
    ensures forall k :: k in m ==> entry(k) == Some(m[k])
  {
    if regions == [] then map[]
    else
      var n := |regions| - 1;
      var prev := Collect(regions[..n], entry);
      assert forall k :: k in regions <==> k in regions[..n] || k == regions[n] by {
        assert regions == regions[..n] + [regions[n]];
      }
      match entry(regions[n])
      case None => prev
      case Some(v) => prev[regions[n] := v]
  }

  /** One more loop iteration: the previous dictionary, with the new key
      written when its entry is present and untouched otherwise. */
  lemma CollectSnoc<V>(regions: seq<string>, region: string, entry: string -> Option<V>)
    ensures entry(region).None? ==> Collect(regions + [region], entry) == Collect(regions, entry)
    ensures entry(region).Some? ==>
      Collect(regions + [region], entry) == Collect(regions, entry)[region := entry(region).value]
  {
    assert (regions + [region])[..|regions|] == regions;
  }

  /** The dictionary is determined by the set of requested keys: order and
      repetition make no difference. */
  lemma CollectDependsOnlyOnKeySet<V>(r1: seq<string>, r2: seq<string>, entry: string -> Option<V>)
    requires forall k :: k in r1 <==> k in r2
    ensures Collect(r1, entry) == Collect(r2, entry)
  {
    var m1, m2 := Collect(r1, entry), Collect(r2, entry);
    assert m1.Keys == m2.Keys;
    forall k | k in m1
      ensures m1[k] == m2[k]
    {
      assert entry(k) == Some(m1[k]) == Some(m2[k]);
    }
  }

  /** The dictionary reads the entry function only at the requested keys:
      two entry functions that agree there give the same dictionary. */
  lemma CollectSameEntries<V>(regions: seq<string>, e1: string -> Option<V>, e2: string -> Option<V>)
    requires forall k :: k in regions ==> e1(k) == e2(k)
    ensures Collect(regions, e1) == Collect(regions, e2)
  {
    var m1, m2 := Collect(regions, e1), Collect(regions, e2);
    assert m1.Keys == m2.Keys;
    forall k | k in m1
      ensures m1[k] == m2[k]
    {
      assert Some(m1[k]) == e1(k) == e2(k) == Some(m2[k]);
    }
  }

  /** A single key is stored with its entry when the entry is present;
      otherwise the dictionary is empty. */
  lemma CollectSingle<V>(region: string, entry: string -> Option<V>)
    ensures entry(region).Some? ==> Collect([region], entry) == map[region := entry(region).value]
    ensures entry(region).None? ==> Collect([region], entry) == map[]
  {
    var m := Collect([region], entry);
    if entry(region).Some? {
      assert m.Keys == {region};
    } else {
      assert m.Keys == {};
    }
  }

  /** The entry function of the latency handler: a region's figures, or
      None when it has no records. */
  function RegionEntry(table: seq<Record>, threshold: int): (entry: string -> Option<Stats>)
    ensures forall k :: entry(k) == RegionStats(table, k, threshold)
  {
    k => RegionStats(table, k, threshold)
  }

  /** The response of the latency endpoint: an entry for every requested
      region that has at least one record, holding that region's figures,
      and nothing else. */
  function Compute(table: seq<Record>, regions: seq<string>, threshold: int): (m: map<string, Stats>)
    ensures forall k :: k in m <==> k in regions && HasRecords(table, k)
    ensures forall k :: k in m ==> RegionStats(table, k, threshold) == Some(m[k])
  {
    Collect(regions, RegionEntry(table, threshold))
  }

  /** Order and repetition of the requested regions make no difference. */
  lemma ComputeDependsOnlyOnRequestedSet(table: seq<Record>, r1: seq<string>, r2: seq<string>, threshold: int)
    requires forall k :: k in r1 <==> k in r2
    ensures Compute(table, r1, threshold) == Compute(table, r2, threshold)
  {
    CollectDependsOnlyOnKeySet(r1, r2, RegionEntry(table, threshold));
  }

  /** Requesting a region a second time leaves the result unchanged. */
  lemma ComputeDuplicate(table: seq<Record>, regions: seq<string>, region: string, threshold: int)
    requires region in regions
    ensures Compute(table, regions + [region], threshold) == Compute(table, regions, threshold)
  {
    CollectDependsOnlyOnKeySet(regions + [region], regions, RegionEntry(table, threshold));
  }

  /** The entry for a region is the one a request for that region alone produces. */
  lemma ComputeEntryAsAlone(table: seq<Record>, regions: seq<string>, region: string, threshold: int)
    requires region in regions && HasRecords(table, region)
    ensures region in Compute(table, regions, threshold)
    ensures Compute(table, regions, threshold)[region] == Compute(table, [region], threshold)[region]
  {
  }

  /** A request for one region that has records gets exactly that region's
      figures, and a request for one region without records gets nothing. */
  lemma {:induction false} ComputeSingle(table: seq<Record>, region: string, threshold: int)
    ensures HasRecords(table, region) ==>
      Compute(table, [region], threshold) == map[region := RegionStats(table, region, threshold).value]
    ensures !HasRecords(table, region) ==> Compute(table, [region], threshold) == map[]
  {
    CollectSingle(region, RegionEntry(table, threshold));
  }

  /** An empty request or an empty table gives an empty result. */
  lemma ComputeEmpty(table: seq<Record>, regions: seq<string>, threshold: int)
    requires regions == [] || table == []
    ensures Compute(table, regions, threshold) == map[]
  {
    var m := Compute(table, regions, threshold);
    assert forall k :: !HasRecords([], k);
    assert m.Keys == {};
  }

  /** Adding records only of regions that were not requested leaves the
      response unchanged. */
  lemma ComputeIgnoresOtherRegions(table: seq<Record>, extra: seq<Record>, regions: seq<string>, threshold: int)
    requires forall k :: k in regions ==> !HasRecords(extra, k)
    ensures Compute(table + extra, regions, threshold) == Compute(table, regions, threshold)
  {
    var e1, e2 := RegionEntry(table + extra, threshold), RegionEntry(table, threshold);
    forall k | k in regions
      ensures e1(k) == e2(k)
    {
      RegionStatsIgnoresOtherRegions(table, extra, k, threshold);
    }
    CollectSameEntries(regions, e1, e2);
  }

  /** The handler's loop: for each requested region in order, select its
      rows; skip the region when there are none, otherwise store its mean
      latency, 95th-percentile latency, mean uptime and breach count. The
      response holds exactly the requested regions that have records, each
      with its own figures. */
  method GetLatencyMetrics(table: seq<Record>, regions: seq<string>, threshold: int)
    returns (results: map<string, Stats>)
    ensures forall k :: k in results <==> k in regions && HasRecords(table, k)
    ensures forall k :: k in results ==> RegionStats(table, k, threshold) == Some(results[k])
    ensures results == Compute(table, regions, threshold)
  {
    ghost var entry := RegionEntry(table, threshold);
    results := map[];
    var i := 0;
    while i < |regions|
      invariant 0 <= i <= |regions|
      invariant results == Collect(regions[..i], entry)
    {
      var region := regions[i];
      CollectSnoc(regions[..i], region, entry);
      assert regions[..i + 1] == regions[..i] + [region];
      var rows := Filter(table, region);
      if rows != [] {
        var stats := Summarize(rows, threshold);
        assert entry(region) == Some(stats);
        results := results[region := stats];
      } else {
        assert entry(region) == None;
      }
      i := i + 1;
    }
    assert regions[..i] == regions;
    assert results == Compute(table, regions, threshold);
  }
}
