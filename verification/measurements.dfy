/**
 The measurement table the latency endpoint reads: one record per observation,
 several records per region. The table is loaded once and never changes, so it
 is modelled as an immutable sequence, and selecting a region's rows is a pure
 function over it.
 */
module Measurements {

  /** One observation: the region it was taken in, its latency in milliseconds
      and its uptime percentage. Numeric columns are exact reals. */
  datatype Record = Record(region: string, latencyMs: real, uptimePct: real)

  /** True iff at least one record of the table belongs to `region`. */
  predicate HasRecords(table: seq<Record>, region: string)
  {
    exists i :: 0 <= i < |table| && table[i].region == region
  }

  /** The rows of `table` whose region equals `region`, in table order
      (the boolean-mask selection of the handler). Every row it keeps is of
      that region, and it keeps none exactly when the table has none. */
  function Filter(table: seq<Record>, region: string): (rows: seq<Record>)
    ensures forall i :: 0 <= i < |rows| ==> rows[i].region == region
    ensures |rows| <= |table|
    ensures rows == [] <==> !HasRecords(table, region)
  {
    if table == [] then []
    else
      var rest := Filter(table[1..], region);
      assert HasRecords(table, region) <==> table[0].region == region || HasRecords(table[1..], region) by {
        if HasRecords(table[1..], region) {
          var i :| 0 <= i < |table[1..]| && table[1..][i].region == region;
          assert table[i + 1].region == region;
        }
        if HasRecords(table, region) && table[0].region != region {
          var i :| 0 <= i < |table| && table[i].region == region;
          assert table[1..][i - 1].region == region;
        }
      }
      if table[0].region == region then [table[0]] + rest else rest
  }

  /** As a multiset, a region's rows are exactly the table's records of that
      region, each as often as the table holds it, and nothing else. */
  lemma {:induction false} FilterContents(table: seq<Record>, region: string)
    ensures forall x :: multiset(Filter(table, region))[x] == if x.region == region then multiset(table)[x] else 0
  {
    if table != [] {
      FilterContents(table[1..], region);
      assert table == [table[0]] + table[1..];
    }
  }

  /** Selecting rows preserves table order: filtering a concatenation is the
      concatenation of the filtered parts, so a region's rows form a
      subsequence of the table. */
  lemma {:induction false} FilterAppend(a: seq<Record>, b: seq<Record>, region: string)
    ensures Filter(a + b, region) == Filter(a, region) + Filter(b, region)
  {
    if a == [] {
      assert a + b == b;
    } else {
      assert (a + b)[1..] == a[1..] + b;
      FilterAppend(a[1..], b, region);
    }
  }

  /** Appending records that hold nothing of `region` leaves its rows unchanged. */
  lemma {:induction false} FilterIgnoresOtherRecords(table: seq<Record>, extra: seq<Record>, region: string)
    requires !HasRecords(extra, region)
    ensures Filter(table + extra, region) == Filter(table, region)
  {
    FilterAppend(table, extra, region);
    assert Filter(table, region) + [] == Filter(table, region);
  }

  /** Filtering twice by the same region changes nothing. */
  lemma {:induction false} FilterIdempotent(table: seq<Record>, region: string)
    ensures Filter(Filter(table, region), region) == Filter(table, region)
  {
    if table != [] {
      FilterIdempotent(table[1..], region);
      if table[0].region == region {
        var rest := Filter(table[1..], region);
        assert ([table[0]] + rest)[1..] == rest;
      }
    }
  }

  /** The latency column of a sequence of rows. */
  function Latencies(rows: seq<Record>): (xs: seq<real>)
    ensures |xs| == |rows|
    ensures forall i :: 0 <= i < |rows| ==> xs[i] == rows[i].latencyMs
  {
    seq(|rows|, i requires 0 <= i < |rows| => rows[i].latencyMs)
  }

  /** The uptime column of a sequence of rows. */
  function Uptimes(rows: seq<Record>): (xs: seq<real>)
    ensures |xs| == |rows|
    ensures forall i :: 0 <= i < |rows| ==> xs[i] == rows[i].uptimePct
  {
    seq(|rows|, i requires 0 <= i < |rows| => rows[i].uptimePct)
  }
}
