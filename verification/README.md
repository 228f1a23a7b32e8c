# Latency metrics aggregator

A Dafny model of the one computation behind the `/api` endpoint of the
latency service. The service holds a table of network measurements, one
record per observation, each with a region, a latency in milliseconds and an
uptime percentage. It is asked for a list of regions and a latency threshold.
For every requested region that has at least one record, it reports:

- the mean latency;
- the 95th-percentile latency, by linear interpolation between the two
  closest ranks of the sorted latencies;
- the mean uptime;
- the number of records whose latency lies strictly above the threshold.

Regions with no records are left out of the response. A region that is
requested twice gives one entry.

The model has four modules:

- `Measurements` (`measurements.dfy`) holds the record type, the selection
  of one region's rows and the column projections.
- `Statistics` (`statistics.dfy`) holds the mean, an insertion sort and the
  interpolated quantile. It uses exact `real` arithmetic.
- `Aggregator` (`aggregator.dfy`) holds the per-region figures, the response
  as a pure fold over the requested regions, and the handler's loop as a
  method. The method is proved equal to the fold.
- `Scenarios` (`scenarios.dfy`) holds hand-computed requests and the exact
  responses they get.

Linear interpolation is often described as moving between the floor and
ceil ranks. The data-frame library's default quantile moves from the floor
rank towards the next rank, clipped to the last one, and the model follows
that: `Statistics.UpperRank` is the next-or-last rank.
`Statistics.InterpolateIsFloorCeil` proves that on exact reals both
descriptions give the same value.

## Model

| member | source | states |
|---|---|---|
| Measurements.Filter | api/index.py:35-39 | Every selected row belongs to the region, no more rows are selected than the table has, and the selection is empty exactly when the table has no record of the region |
| Measurements.FilterContents | api/index.py:35 | As a multiset, the selection is exactly the table's records of that region, each with its multiplicity in the table, and nothing else |
| Measurements.FilterAppend | api/index.py:35 | Selection preserves table order: selecting from a concatenation concatenates the selections |
| Measurements.FilterIgnoresOtherRecords | api/index.py:35 | Appending records of other regions to the table leaves a region's selected rows unchanged |
| Measurements.FilterIdempotent | api/index.py:35 | Selecting the same region again from a selection changes nothing |
| Measurements.Latencies | api/index.py:42-43 | The latency column has one value per row, in row order |
| Measurements.Uptimes | api/index.py:44 | The uptime column has one value per row, in row order |
| Statistics.Mean | api/index.py:42-44 | The mean is the arithmetic mean: taken once per value, it adds up to the column's total |
| Statistics.MeanWithinRange | api/index.py:42-44 | The mean of a non-empty column lies between the column's minimum and maximum |
| Statistics.SumAppend | api/index.py:42-44 | The total of a concatenation is the sum of the two totals |
| Statistics.MeanAppend | api/index.py:42-44 | Appending one value moves the mean to the count-weighted combination of the old mean and the new value |
| Statistics.MeanBetween | api/index.py:42-44 | Any bounds shared by all values of a column also bound its total divided by its length |
| Statistics.MeanOfConstant | api/index.py:42-44 | The mean of a column whose values are all equal is that value |
| Statistics.Sort | api/index.py:43 | The sorted column is ascending and a permutation of the input |
| Statistics.SortedEnds | api/index.py:43 | An ascending permutation starts at the input's minimum and ends at its maximum |
| Statistics.Rank | api/index.py:43 | The quantile's fractional position lies inside the column, and quantile 0 and 1 sit at the first and last positions |
| Statistics.RankMonotone | api/index.py:43 | A higher quantile sits at a position no earlier |
| Statistics.LowerRank | api/index.py:43 | The lower rank is a valid index, and the position lies in the unit interval starting at it |
| Statistics.UpperRank | api/index.py:43 | The upper rank is the lower rank plus one when that is still a valid index, and the lower rank (the last index) otherwise; it is never before the position |
| Statistics.Lerp | api/index.py:43 | Interpolation stays on the segment and meets its ends at fractions 0 and 1 |
| Statistics.LerpMonotone | api/index.py:43 | A larger fraction never gives a smaller point |
| Statistics.Interpolate | api/index.py:43 | The interpolated value lies between the values at the lower and upper ranks, and at a whole position it is the stored value |
| Statistics.InterpolateBetweenRanks | api/index.py:43 | At a fraction t past rank k, with a next rank present, the value is the weighted average (1 - t) * s[k] + t * s[k + 1] |
| Statistics.InterpolateIsFloorCeil | api/index.py:43 | Interpolating towards the next-or-last rank equals the floor/ceil reading of linear interpolation at every position |
| Statistics.InterpolateMonotone | api/index.py:43 | On a sorted column, a later position never gives a smaller value |
| Statistics.Percentile | api/index.py:43 | The quantile of a sorted column lies between its first and last value |
| Statistics.PercentileExtremes | api/index.py:43 | The 0-quantile is the first value and the 1-quantile the last |
| Statistics.PercentileMonotone | api/index.py:43 | A higher quantile is never smaller |
| Statistics.SortedPercentile | api/index.py:43 | The reported quantile lies between the column's minimum and maximum, and for a single value it is that value |
| Aggregator.Breaches | api/index.py:45 | The breach count never exceeds the number of rows |
| Aggregator.BreachesCountsRowsAbove | api/index.py:45 | The breach count equals the number of row positions whose latency lies strictly above the threshold |
| Aggregator.BreachesAntitone | api/index.py:45 | Raising the threshold never increases the breach count |
| Aggregator.Summarize | api/index.py:41-54 | Each average is its column's total divided by the number of rows; both latency figures lie within the region's latency range and the mean uptime within its uptime range; the breach count is at most the number of rows |
| Aggregator.RegionStats | api/index.py:35-54 | A region gets no figures exactly when the table has none of its records |
| Aggregator.RegionStatsLocal | api/index.py:35 | A region's figures depend only on the rows selected for it |
| Aggregator.RegionStatsIgnoresOtherRegions | api/index.py:35 | Adding records of other regions to the table leaves a region's figures unchanged |
| Aggregator.RegionStatsSingleRecord | api/index.py:42-45 | For one record, both latency figures are its latency, the mean uptime is its uptime, and it is a breach exactly when its latency exceeds the threshold |
| Aggregator.Collect | api/index.py:32-56 | The dictionary built by the loop holds a key exactly when the key was requested and its entry is present, and it holds that entry |
| Aggregator.CollectSnoc | api/index.py:33-54 | One more iteration writes the region's entry when it is present and leaves the dictionary unchanged otherwise |
| Aggregator.CollectDependsOnlyOnKeySet | api/index.py:33-49 | The order and repetition of the requested keys do not change the dictionary |
| Aggregator.CollectSameEntries | api/index.py:33-49 | Entry functions that agree on the requested keys give the same dictionary |
| Aggregator.CollectSingle | api/index.py:32-56 | A one-key request stores that key with its entry when the entry is present, and gives an empty dictionary otherwise |
| Aggregator.Compute | api/index.py:32-56 | The response's keys are exactly the requested regions that have at least one record, and each holds that region's figures |
| Aggregator.ComputeDependsOnlyOnRequestedSet | api/index.py:33-49 | Requests naming the same set of regions get the same response |
| Aggregator.ComputeDuplicate | api/index.py:33-49 | Requesting a region a second time leaves the response unchanged |
| Aggregator.ComputeEntryAsAlone | api/index.py:33-49 | A region's entry is the one a request for that region alone produces |
| Aggregator.ComputeSingle | api/index.py:32-56 | A request for one region with records gets exactly that region's figures; one for a region without records gets an empty response |
| Aggregator.ComputeEmpty | api/index.py:32-56 | An empty request or an empty table gets an empty response |
| Aggregator.ComputeIgnoresOtherRegions | api/index.py:35 | Adding records only of regions that were not requested leaves the response unchanged |
| Aggregator.GetLatencyMetrics | api/index.py:31-56 | The handler's loop returns exactly the requested regions that have records, each with its own figures, and its result equals the pure fold `Compute` |
| Scenarios.TwoRecordPercentile | api/index.py:43 | Latencies 100 and 200 have 95th percentile 195 |
| Scenarios.TwoRankPercentile | api/index.py:43 | On the sorted pair 100, 200, position 0.95 interpolates to 195 |
| Scenarios.TwoRecordMeans | api/index.py:42-44 | The means of 100 and 200, and of 99.9 and 99.5, are 150 and 99.7 |
| Scenarios.TwoRecordBreaches | api/index.py:45 | Of latencies 100 and 200, one exceeds 150 |
| Scenarios.TwoRecordSummary | api/index.py:41-54 | The two-record region's figures at threshold 150 are 150, 195, 99.7 and 1 |
| Scenarios.TwoRecordRegionStats | api/index.py:35-54 | The same figures, selected from the table by region |
| Scenarios.TwoRecordRegion | api/index.py:31-56 | The response to a request for "us-east" holds exactly that key with those figures |
| Scenarios.UnknownRegion | api/index.py:38-39 | A request for a region with no records gets an empty response |
| Scenarios.DuplicateRegion | api/index.py:33-49 | Naming "us-east" twice gets the same single entry as naming it once |
| Scenarios.ThresholdEqualIsNoBreach | api/index.py:45 | A latency equal to the threshold is not a breach |
| Scenarios.ThreeRecordMeans | api/index.py:42-44 | Latencies 10, 90, 20 have mean 40 and uptimes 96, 99, 99 have mean 98, not the midpoints of their ranges |
| Scenarios.ThreeRecordSort | api/index.py:43 | The out-of-order latencies 10, 90, 20 sort to 10, 20, 90 |
| Scenarios.ThreeRecordSortTail | api/index.py:43 | The latencies 90, 20 sort to 20, 90 |
| Scenarios.ThreeRankPercentile | api/index.py:43 | On the sorted column 10, 20, 90, position 1.9 interpolates to 83 |
| Scenarios.ThreeRecordPercentile | api/index.py:43 | Latencies 10, 90, 20 have 95th percentile 83 |
| Scenarios.ThreeRecordBreaches | api/index.py:45 | Of latencies 10, 90 and 20 at threshold 20, only 90 is a breach |
| Scenarios.ThreeRecordSummary | api/index.py:41-54 | The three-record region's figures at threshold 20 are 40, 83, 98 and 1 |

## Left out

- The web framework: the application object, the route, the async handler and the CORS middleware (api/index.py:10-18, 30-31). They carry no logic of the computation.
- Loading the table from the JSON file at start-up (api/index.py:22). The table is a parameter of every operation instead.
- Request validation by the request model (api/index.py:25-27). The model takes a well-typed list of regions and an integer threshold.
- Floating point: latencies, uptimes, means and the quantile are exact reals. Rounding of sums and divisions and the conversion of library numbers to plain floats (api/index.py:50-53) are not modelled.
- Missing values: the data-frame library skips NaN in mean and quantile. The model's records always carry both numbers.
- Statistics.Lerp: computes `a + t * (b - a)`. The numeric library picks between this and an equivalent formula from the other end for float accuracy. On exact reals the two agree.
- The vectorised boolean-mask selection and column sums are modelled as plain recursion over sequences with the same results.
- Aggregator.Breaches: the threshold is compared as an exact real. The source casts the integer threshold to a 64-bit float for the comparison (api/index.py:27, 45), which is exact while |threshold_ms| <= 2^53; a larger threshold is rounded by the source and not by the model.
- Key order: the handler's dictionary keeps its keys in the order each region was first written (api/index.py:49), and the JSON response shows that order; a repeated region overwrites its value in place. The model's response is a `map`, which has no order, so it states which keys are present and what they hold but not their order.
- Aggregator.ComputeEmpty: its empty-table half assumes the table keeps its region, latency and uptime fields when it has no rows. A data file holding an empty list loads (api/index.py:22) as a frame with no columns, and the column lookup at api/index.py:35 then fails for any non-empty request; the model does not represent a table without columns.
