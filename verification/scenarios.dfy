/**
 Hand-computed requests against small tables, stating the exact response the
 endpoint gives for each.
 */
module Scenarios {
  import opened Measurements
  import opened Statistics
  import opened Aggregator

  function TwoRecordTable(): seq<Record>
  {
    [Record("us-east", 100.0, 99.9), Record("us-east", 200.0, 99.5)]
  }

  /** Latencies 100 and 200 ms sorted are 100, 200; rank 0.95 * (2 - 1) lies
      95% of the way from the first to the second, at 195. */
  lemma TwoRecordPercentile()
    ensures SortedPercentile([100.0, 200.0], P95) == 195.0
  {
    assert Sort([100.0, 200.0]) == [100.0, 200.0] by {
      assert Sort([200.0]) == [200.0];
      assert [100.0, 200.0][1..] == [200.0];
    }
    TwoRankPercentile();
  }

  /** In a sorted pair, the 0.95 quantile starts at rank 0 and moves towards rank 1. */
  lemma TwoRankPercentile()
    ensures Percentile([100.0, 200.0], P95) == 195.0
  {
    assert Rank(2, P95) == 0.95;
    assert LowerRank(2, 0.95) == 0;
    assert UpperRank(2, 0.95) == 1;
    assert Lerp(100.0, 200.0, 0.95) == 195.0;
  }

  lemma TwoRecordMeans()
    ensures Mean([100.0, 200.0]) == 150.0
    ensures Mean([99.9, 99.5]) == 99.7
  {
    assert [100.0, 200.0][1..] == [200.0];
    assert [99.9, 99.5][1..] == [99.5];
  }

  /** Of 100 and 200 ms, only 200 exceeds a threshold of 150. */
  lemma TwoRecordBreaches()
    ensures Breaches(TwoRecordTable(), 150) == 1
  {
    var rows := TwoRecordTable();
    assert rows[..1][..0] == [];
  }

  /** The four figures for the two-record table at threshold 150. */
  lemma TwoRecordSummary()
    ensures Summarize(TwoRecordTable(), 150) == Stats(150.0, 195.0, 99.7, 1)
  {
    var rows := TwoRecordTable();
    assert Latencies(rows) == [100.0, 200.0];
    assert Uptimes(rows) == [99.9, 99.5];
    TwoRecordPercentile();
    TwoRecordMeans();
    TwoRecordBreaches();
  }

  /** The two-record table's region has exactly these figures at threshold 150. */
  lemma TwoRecordRegionStats()
    ensures RegionStats(TwoRecordTable(), "us-east", 150) == Some(Stats(150.0, 195.0, 99.7, 1))
  {
    var table := TwoRecordTable();
    assert Filter(table, "us-east") == table by {
      assert table[1..][1..] == [];
    }
    TwoRecordSummary();
  }

  /** The response to a request for the region of the two-record table. */
  lemma TwoRecordRegion()
    ensures Compute(TwoRecordTable(), ["us-east"], 150) == map["us-east" := Stats(150.0, 195.0, 99.7, 1)]
  {
    TwoRecordRegionStats();
    ComputeSingle(TwoRecordTable(), "us-east", 150);
  }

  /** A region with no observations is left out of the response. */
  lemma UnknownRegion()
    ensures Compute(TwoRecordTable(), ["eu-west"], 150) == map[]
  {
    var m := Compute(TwoRecordTable(), ["eu-west"], 150);
    assert !HasRecords(TwoRecordTable(), "eu-west") by {
      var table := TwoRecordTable();
      forall i | 0 <= i < |table|
        ensures table[i].region != "eu-west"
      {
      }
    }
    assert m.Keys == {};
  }

  /** Naming a region twice gives one entry, the same as naming it once. */
  lemma DuplicateRegion()
    ensures Compute(TwoRecordTable(), ["us-east", "us-east"], 150) == map["us-east" := Stats(150.0, 195.0, 99.7, 1)]
  {
    TwoRecordRegion();
    assert ["us-east"] + ["us-east"] == ["us-east", "us-east"];
    ComputeDuplicate(TwoRecordTable(), ["us-east"], "us-east", 150);
  }

  /** A latency equal to the threshold is not a breach. */
  lemma ThresholdEqualIsNoBreach()
    ensures Compute([Record("ap-south", 50.0, 100.0)], ["ap-south"], 50)
      == map["ap-south" := Stats(50.0, 50.0, 100.0, 0)]
  {
    var x := Record("ap-south", 50.0, 100.0);
    RegionStatsSingleRecord(x, 50);
    ComputeSingle([x], "ap-south", 50);
  }


  /** Three out-of-order records of one region, whose mean is not the
      midpoint of their range. */
  function ThreeRecordTable(): seq<Record>
  {
    [Record("ap-south", 10.0, 96.0), Record("ap-south", 90.0, 99.0), Record("ap-south", 20.0, 99.0)]
  }

  /** The means of 10, 90, 20 and of 96, 99, 99 are 40 and 98, not the
      midpoints 50 and 97.5. */
  lemma ThreeRecordMeans()
    ensures Mean([10.0, 90.0, 20.0]) == 40.0
    ensures Mean([96.0, 99.0, 99.0]) == 98.0
  {
    assert [10.0, 90.0, 20.0][1..][1..] == [20.0];
    assert [96.0, 99.0, 99.0][1..][1..] == [99.0];
  }

  lemma ThreeRecordSort()
    ensures Sort([10.0, 90.0, 20.0]) == [10.0, 20.0, 90.0]
  {
    ThreeRecordSortTail();
    assert [10.0, 90.0, 20.0][1..] == [90.0, 20.0];
    assert Insert(10.0, [20.0, 90.0]) == [10.0, 20.0, 90.0];
  }

  /** The last two latencies, 90 and 20, sort to 20, 90. */
  lemma ThreeRecordSortTail()
    ensures Sort([90.0, 20.0]) == [20.0, 90.0]
  {
    assert [90.0, 20.0][1..] == [20.0];
    assert Sort([20.0]) == [20.0];
    assert [20.0][1..] == [];
    assert Insert(90.0, [20.0]) == [20.0, 90.0];
  }

  /** Position 0.95 * 2 = 1.9 lies 90% of the way from 20 to 90, at 83. */
  lemma ThreeRankPercentile()
    ensures Percentile([10.0, 20.0, 90.0], P95) == 83.0
  {
    assert Rank(3, P95) == 1.9;
    assert LowerRank(3, 1.9) == 1;
    assert UpperRank(3, 1.9) == 2;
    assert Lerp(20.0, 90.0, 0.9) == 83.0;
  }

  lemma ThreeRecordPercentile()
    ensures SortedPercentile([10.0, 90.0, 20.0], P95) == 83.0
  {
    ThreeRecordSort();
    ThreeRankPercentile();
  }

  /** Of 10, 90 and 20 ms at threshold 20, only 90 is a breach: 20 equals it. */
  lemma ThreeRecordBreaches()
    ensures Breaches(ThreeRecordTable(), 20) == 1
  {
    var rows := ThreeRecordTable();
    assert rows[..2][..1][..0] == [];
  }

  /** The four figures for the three-record table at threshold 20. */
  lemma ThreeRecordSummary()
    ensures Summarize(ThreeRecordTable(), 20) == Stats(40.0, 83.0, 98.0, 1)
  {
    var rows := ThreeRecordTable();
    assert Latencies(rows) == [10.0, 90.0, 20.0];
    assert Uptimes(rows) == [96.0, 99.0, 99.0];
    ThreeRecordMeans();
    ThreeRecordPercentile();
    ThreeRecordBreaches();
  }
}
