# lbplot-rs order-book heatmap: a Dafny model

lbplot-rs is a browser app that streams one symbol's Binance depth updates and
one-second candles (klines). It folds the depth updates into a heatmap: price
bucket → time bucket → signed size. It then draws the heatmap as line segments
over a candlestick chart. This project models and proves two parts of that
program:

- the data provider (`web/src/data.rs`):
  - the session state;
  - the candle upsert;
  - the depth normalisation;
  - the flush that drains the update queue into the heatmap and evicts outlier
    price buckets;
  - `median`.
- the computational content of `redraw` (`web/src/chart.rs`). It maps the
  candles, the heatmap and the current time to the ordered list of primitives
  the chart draws:
  - the axes;
  - for each bucket, at most one line segment per entry inside the time
    window plus a trailing one, each with a width and an opacity;
  - one candle per kline.

Files and modules:

- `ordered.dfy` (`OrderedKeys`): the ascending enumeration of a finite key set,
  which is the iteration order of a `BTreeMap`.
- `stats.dfy` (`Stats`): sorting, `median`, and the median absolute deviation
  (MAD).
- `binning.dfy` (`Binning`): the heatmap, the reference rules for one update
  and for a whole flush, the eviction pass, and their properties.
- `data.dfy` (`DataProvider`): the `Data` session object as a class whose
  methods update its fields. The flush is the source's `while` loop over the
  queue plus the removal `for` loop. Each method is proved against the
  `Binning` functions.
- `chart.dfy` (`Chart`): the axis ranges, the size statistics, the two style
  rules, the per-bucket walk and the redraw.
  - The walk is a method with a loop, proved equal to a reference fold
    (`WalkOver`).
  - The redraw is a method that visits the buckets in an arbitrary
    enumeration (a ghost out-parameter). It is proved equal to the mesh,
    then the bucket segments in that enumeration, then the candles.

The source's records become datatypes:

- `Binning.OrderBookUpdate(ts, sq, px, sz)` is the `OrderBookUpdate` struct
  (web/src/data.rs:69-75): time, sequence number, price and signed size.
- `DataProvider.Kline(ts, op, hi, lo, cl, vb, vs, tc)` is the `Kline` struct
  (web/src/data.rs:77-87), with the same eight fields.
- `Binning.Heatmap` is the `HashMap<Decimal, BTreeMap<Time, f64>>` store, a
  map from integer price keys to series (`map<Time, real>`).
- `DataProvider.Data` is the `Data` session object, a class.

Numbers are Dafny `real` and `int`:

- Price keys are integers (the floor of the price, since the price step is 1.0).
- Times are natural-number milliseconds.
- Chart times are whole seconds (`t / 1000`).
- The current time is an input.

Two floating-point comparisons are restated over reals:

- The wall test `(mag - median) / mdev > 9` becomes `mag - median > 9 * mdev`.
- The eviction test `dev / mdev > 2` becomes `dev > 2 * mdev`.

For non-negative deviations these agree with IEEE semantics, including
`mdev = 0`: `x / 0` is infinite for `x > 0`, and `0 / 0` is NaN. On the
non-wall path, a zero deviation gives a threshold that is NaN or negative
infinity. `f64::max` turns either into the clamp's floor, so the model uses the
floor directly: interior alpha 0.03, trailing alpha 0.3.

A zero MAD might be expected to disable eviction. The code has no such guard,
and the model follows the code. `Binning.SpreadPositive` shows the
guard would never fire anyway: the outlier test runs only with more than 200
distinct integer price keys, and their MAD is then positive.

## Model

| member | source | states |
|---|---|---|
| OrderedKeys.Ascending | web/src/data.rs:292 | a `BTreeMap`'s keys, each once, in strictly increasing order |
| OrderedKeys.AscendingNat | web/src/chart.rs:172 | the same enumeration for time keys: same elements, same count, strictly increasing |
| OrderedKeys.AscendingNatBounds | web/src/chart.rs:106-109 | every key lies between the first and the last of the enumeration |
| Stats.Insert | web/src/data.rs:336 | inserting into a sorted sequence keeps it sorted and adds exactly that element |
| Stats.Sort | web/src/data.rs:335-336 | the sorted copy is ascending and a permutation of the input |
| Stats.SortedUnique | web/src/data.rs:336 | two ascending sequences with the same elements are equal, so the sorted copy is unique |
| Stats.Middle | web/src/data.rs:337-342 | the middle element, or the mean of the two middle ones, lies between two elements of the sequence |
| Stats.Median | web/src/data.rs:334-343 | for non-empty input, the median lies between the sample's minimum and maximum |
| Stats.MedianOfSorted | web/src/data.rs:337-342 | on sorted input the median is the middle element for odd length and the mean of the two middle elements for even length |
| Stats.MedianPermutation | web/src/data.rs:334-343 | the median is invariant under permutation of the sample |
| Stats.MedianExamples | web/src/data.rs:334-343 | median of [1,2,3,4] is 2.5; median of [1,2,3] is 2 |
| Stats.Deviations | web/src/data.rs:315 | one absolute deviation `abs(x - m)` per sample, in sample order |
| Stats.Mad | web/src/data.rs:315-316 | the median absolute deviation is never negative |
| Stats.DeviationsPermutation | web/src/data.rs:315 | samples with the same elements have deviations with the same elements |
| Stats.MadPermutation | web/src/data.rs:314-316 | the MAD is invariant under permutation of the sample |
| Stats.WithinMad | web/src/data.rs:315-316 | some sample deviates from the centre by at most the MAD |
| Stats.MadPositive | web/src/data.rs:314-316 | with three or more samples and at most one at the centre, the MAD is positive |
| Binning.IsRestatement | web/src/data.rs:292-295 | reference definition of the discard rule; described by `Binning.ApplyRestatement` and `Binning.RepeatedSizeCollapses` |
| Binning.Apply | web/src/data.rs:284-304 | reference definition of one update; described by `Binning.ApplyNewBucket`, `Binning.ApplyRestatement`, `Binning.ApplyOverwrite`, `Binning.ApplyRecords` and `Binning.ApplyWellFormed` |
| Binning.ApplyAll | web/src/data.rs:282-305 | reference definition of the drain, front to back; described by `Binning.ApplyAllConcat`, `Binning.ApplyAllSnoc` and `Binning.ApplyAllWellFormed`, and computed by `DataProvider.Data.Drain` |
| Binning.IsOutlier | web/src/data.rs:318-323 | reference definition of the outlier test `dev / mdev > 2` over reals; described by `Binning.EvictSelects` and `DataProvider.OutlierKeys` |
| Binning.Flush | web/src/data.rs:275-331 | reference definition of `process_updates`: drain, then evict; described by `Binning.FlushWellFormed` and computed by `DataProvider.Data.ProcessUpdates` |
| Binning.SeriesAt | web/src/data.rs:288-290 | reference definition of a bucket's series, empty when the price has no bucket yet (`entry(..).or_insert_with(BTreeMap::new)`); used by `Binning.Apply` and described by `Binning.ApplyNewBucket` and `Binning.ApplyRecords` |
| Binning.PriceBin | web/src/data.rs:284 | the price bucket is the floor: `p <= px < p + 1` |
| Binning.TimeBin | web/src/data.rs:285 | the time bucket is a multiple of 1000, at most `ts`, and within 1000 of it |
| Binning.LastKey | web/src/data.rs:292 | the last entry of a non-empty series is its greatest key |
| Binning.Prices | web/src/data.rs:309-313 | one price per bucket |
| Binning.Center | web/src/data.rs:314 | reference definition of the median bucket price `m`; described by `Binning.EvictSelects`, `Binning.LeastDeviating` and `Binning.SpreadPositive` |
| Binning.Spread | web/src/data.rs:315-316 | the MAD of the bucket prices is never negative |
| Binning.Inliers | web/src/data.rs:317-329 | keeps exactly the buckets that are not outliers, with their series unchanged |
| Binning.Evict | web/src/data.rs:307-330 | eviction only removes buckets and never changes a kept series; with at most 200 buckets it changes nothing |
| Binning.ApplyWellFormed | web/src/data.rs:288-304 | one update keeps every bucket non-empty and every time key a multiple of 1000 |
| Binning.ApplyAllWellFormed | web/src/data.rs:282-305 | the drain keeps the store well formed |
| Binning.FlushWellFormed | web/src/data.rs:275-331 | the whole flush keeps the store well formed |
| Binning.ApplyNewBucket | web/src/data.rs:288-304 | the first update at a price creates its bucket with exactly the entry `{time_bin: sz}` |
| Binning.ApplyRestatement | web/src/data.rs:292-295 | a non-zero size equal to the bucket's latest entry leaves the heatmap unchanged |
| Binning.ApplyOverwrite | web/src/data.rs:296-297 | a non-zero size in the latest time bucket overwrites only that entry; the key sets are unchanged and every other bucket keeps its series |
| Binning.ApplyRecords | web/src/data.rs:296-303 | any other update writes `bucket[time_bin] := sz` and changes no other entry or bucket |
| Binning.ZeroAlwaysRecorded | web/src/data.rs:293-303 | a zero size is always recorded at its time bucket |
| Binning.RepeatedSizeCollapses | web/src/data.rs:292-295 | two equal non-zero sizes at a new price leave a single entry |
| Binning.ZeroEndsRun | web/src/data.rs:292-303 | at a new price, a non-zero size followed by a zero in a later time bucket leaves both entries |
| Binning.ApplyAllConcat | web/src/data.rs:282 | draining `a + b` equals draining `a`, then `b` (FIFO order) |
| Binning.ApplyAllSnoc | web/src/data.rs:282 | an update pushed at the back is applied after all earlier ones |
| Binning.EvictSelects | web/src/data.rs:307-329 | above 200 buckets, eviction keeps exactly the buckets with `abs(p - m) <= 2*MAD` and keeps their series |
| Binning.ZeroDeviationAtMostOnce | web/src/data.rs:309-315 | distinct prices give at most one zero deviation |
| Binning.PricesAreKeys | web/src/data.rs:309-313 | the prices are the bucket keys, each once, in increasing order |
| Binning.SpreadPositive | web/src/data.rs:314-322 | with three or more buckets the MAD of the prices is positive |
| Binning.LeastDeviating | web/src/data.rs:314-322 | some bucket lies within one MAD of the median price |
| Binning.EvictKeepsSome | web/src/data.rs:307-330 | eviction never empties a non-empty heatmap |
| DataProvider.UpsertKline | web/src/data.rs:143-163 | the insert by open time replaces only that key and stores `vs = v - vb` |
| DataProvider.UpsertKlineTwice | web/src/data.rs:151-163 | of two candles with the same open time, the second one is stored |
| DataProvider.DepthUpdates | web/src/data.rs:213-236 | bids as given, then asks negated, all stamped `E` and `u`; as many entries as bids plus asks |
| DataProvider.OutlierKeys | web/src/data.rs:317-325 | the keys to remove are exactly the outlier keys |
| DataProvider.RemovedLeavesInliers | web/src/data.rs:317-329 | removing exactly the outlier keys leaves the inliers |
| DataProvider.Data.constructor | web/src/data.rs:31-43 | the default state: no symbol, empty stores, no connection, no timer |
| DataProvider.Data.Clear | web/src/data.rs:105-115 | empties klines, updates and heatmap and clears the timer handle |
| DataProvider.Data.Dial | web/src/data.rs:117-250 | an open connection first clears the stores; the new timer handle is recorded |
| DataProvider.Data.SetSymbol | web/src/data.rs:92-103 | the current symbol changes nothing; another symbol resets every store and dials |
| DataProvider.Data.OnKline | web/src/data.rs:140-163 | the candle store becomes the upsert of the event |
| DataProvider.Data.OnDepth | web/src/data.rs:186-237 | the queue grows by exactly the normalised depth entries, in order |
| DataProvider.Data.OnTimer | web/src/data.rs:255-262 | flushes only when the queue is non-empty |
| DataProvider.Data.ProcessUpdates | web/src/data.rs:275-331 | empties the queue and leaves the heatmap equal to the reference flush |
| DataProvider.Data.Drain | web/src/data.rs:282-305 | the `pop_front` loop empties the queue and applies every update in FIFO order |
| DataProvider.Data.RejectOutliers | web/src/data.rs:307-330 | the heatmap becomes `Evict` of the drained heatmap |
| DataProvider.Data.RemoveBuckets | web/src/data.rs:327-329 | removes exactly the given keys and leaves every other series untouched |
| Chart.Seconds | web/src/chart.rs:174 | reference definition of the chart second of a millisecond timestamp; described by `Chart.SecondsBounds` and `Chart.SecondsMonotone` |
| Chart.SecondsBounds | web/src/chart.rs:174 | the second `s` of a timestamp `t` satisfies `1000*s <= t < 1000*s + 1000` |
| Chart.SecondsMonotone | web/src/chart.rs:174 | a later timestamp never maps to an earlier second |
| Chart.LowestLow | web/src/chart.rs:111-115 | the minimum `lo`: attained by one candle and at most every candle's `lo` |
| Chart.HighestHigh | web/src/chart.rs:116-120 | the maximum `hi`: attained by one candle and at least every candle's `hi` |
| Chart.MinLow | web/src/chart.rs:111-115 | the lowest low over all candles |
| Chart.MaxHigh | web/src/chart.rs:116-120 | the highest high over all candles |
| Chart.MinKey | web/src/chart.rs:106-107 | the earliest open time is a key and at most every key |
| Chart.MaxKey | web/src/chart.rs:108-109 | the latest open time is a key and at least every key |
| Chart.AxisRanges | web/src/chart.rs:106-122 | time axis spans exactly the candles' seconds; price axis is `[lo - (hi-lo)/2, hi + (hi-lo)/2]` |
| Chart.AxesOfOneCandle | web/src/chart.rs:106-122 | one candle gives its one second and its range widened by half on each side |
| Chart.AxesCoverCandles | web/src/chart.rs:111-122 | when `lo <= hi` holds, the price axis contains every candle |
| Chart.SeriesSizes | web/src/chart.rs:155-157 | its elements are exactly `abs(v)` of the entries at the given times with every zero dropped (as a multiset); all positive; non-empty iff a non-zero exists |
| Chart.HeatSizes | web/src/chart.rs:153-158 | its elements are exactly the magnitudes `abs(v)` of the non-zero sizes of the listed buckets, each bucket's over all its entries |
| Chart.Sizes | web/src/chart.rs:153-158 | its elements are exactly the magnitudes `abs(v)` of the non-zero sizes of every bucket; positive; non-empty iff the heatmap has a non-zero size |
| Chart.BagOverPermutation | web/src/chart.rs:153-158 | the sizes of a list of buckets do not depend on the listing order |
| Chart.SizeStatsAnyOrder | web/src/chart.rs:153-162 | for every enumeration of the buckets the size sample has the same elements, median and MAD as `Sizes` |
| Chart.SizeStatsOf | web/src/chart.rs:153-162 | with a non-zero size, the median is positive and the MAD non-negative |
| Chart.InteriorStyle | web/src/chart.rs:184-193 | wall: width 8, alpha 1.0; otherwise width 4 with alpha in [0.03, 0.3]; 0.03 when the MAD is zero |
| Chart.TrailingStyle | web/src/chart.rs:219-227 | wall: width 8, alpha 1.0; otherwise width 4 with alpha in [1/30, 0.3]; 0.3 when the MAD is zero |
| Chart.NineDeviationsIsBaseline | web/src/chart.rs:185-193 | the wall test is strict: exactly nine deviations gives width 4 (interior alpha 0.3, trailing 1/30) |
| Chart.StyleMonotone | web/src/chart.rs:184-227 | for non-walls, interior alpha rises with magnitude and trailing alpha falls |
| Chart.IsWall | web/src/chart.rs:185-187 | reference definition of the wall test `(mag - median) / mdev > 9` over reals; described by `Chart.InteriorStyle`, `Chart.TrailingStyle` and `Chart.NineDeviationsIsBaseline` |
| Chart.InWindow | web/src/chart.rs:175-177 | reference definition of the time-window test, the negation of the `continue` condition; described by `Chart.WalkSkipsOutOfWindow` and `Chart.InWindowKeys` |
| Chart.InWindowKeys | web/src/chart.rs:175-177 | the entries whose second lies inside the time axis |
| Chart.WalkSkipsOutOfWindow | web/src/chart.rs:172-177 | skipped entries are invisible to the walk, `last_sz` included |
| Chart.WalkStep | web/src/chart.rs:173-212 | reference definition of one step of the inner loop; described by `Chart.StepAfterDraw` and `Chart.WalkSkipsOutOfWindow` |
| Chart.WalkOver | web/src/chart.rs:170-213 | reference definition of the inner loop as a fold; described by `Chart.WalkInvariant` and computed by `Chart.WalkEntries` |
| Chart.Close | web/src/chart.rs:215-240 | reference definition of the trailing segment; described by `Chart.CloseShape` and `Chart.BucketTrailing` |
| Chart.BucketLines | web/src/chart.rs:164-241 | reference definition of one bucket's segments; described by `Chart.BucketShape`, `Chart.BucketCount`, `Chart.BucketTrailing` and `Chart.BucketInRange`, and computed by `Chart.DrawBucket` |
| Chart.HeatLines | web/src/chart.rs:164-241 | reference definition of all heatmap segments for a bucket order; described by `Chart.HeatLinesInRange` and computed by `Chart.DrawHeatmap` |
| Chart.WalkInvariant | web/src/chart.rs:170-213 | at most one open point, at the bucket's price and not after the last entry; interior segments; segment count bounded |
| Chart.StepAfterDraw | web/src/chart.rs:181-212 | after an in-loop draw the open points are `[(t-1, price)]` for a non-zero size, else none; `last_sz` is the size |
| Chart.CloseShape | web/src/chart.rs:215-240 | two points per segment; a trailing filled segment iff points remained |
| Chart.BucketShape | web/src/chart.rs:164-241 | no segments outside the price range; every segment two points at the bucket's price; all but the last are interior |
| Chart.BucketCount | web/src/chart.rs:164-241 | at most one segment per in-window entry, and at least one when the price is strictly inside the price range and such an entry exists |
| Chart.BucketTrailing | web/src/chart.rs:215-240 | the trailing segment ends at `(now, price)` and is styled by `abs(last_sz)` |
| Chart.WalkEntries | web/src/chart.rs:170-213 | the inner loop computes exactly the reference walk `WalkOver` |
| Chart.DrawBucket | web/src/chart.rs:164-241 | one bucket's drawing equals `BucketLines` |
| Chart.BucketInRange | web/src/chart.rs:164-241 | every bucket segment is horizontal and strictly inside the price range |
| Chart.HeatLinesInRange | web/src/chart.rs:164-241 | the same holds for all heatmap segments |
| Chart.CandleOf | web/src/chart.rs:246-257 | reference definition of one candle at its open second; used by `Chart.CandlesAt` and `Chart.CandlesInTimeOrder` |
| Chart.CandlesAt | web/src/chart.rs:246-257 | one candle per key, in key order |
| Chart.Candles | web/src/chart.rs:246-257 | exactly one candle per stored kline, the i-th being the candle of the i-th open time in ascending order |
| Chart.CandlesInTimeOrder | web/src/chart.rs:246-257 | candles come in ascending time |
| Chart.DrawHeatmap | web/src/chart.rs:164-241 | the bucket loop visits every bucket exactly once, in some order, and emits their segments; every segment is a two-point line inside the price range |
| Chart.Redraw | web/src/chart.rs:82-262 | no candles: nothing drawn; otherwise mesh, then heatmap segments in a bucket enumeration, then candles |
| Chart.PlanShape | web/src/chart.rs:132-257 | the plan is the mesh first, then in-range two-point lines, then exactly the candles |

## Left out

- The WebSocket, the `serde_json` parsing and its `unwrap` panics, and the
  `set_interval` scheduling. They are I/O and browser timers. The handlers take
  already-parsed fields.
- `DataProvider.Data.Dial`: the connection is a boolean and the timer handle is
  a parameter. Closing the old socket is not modelled. The browser's
  `clear_timeout` call is outside the model; `Clear` only drops the handle.
- `Arc`/`RwLock`/`Mutex` sharing and the yew `Reducible`/`spawn_local`
  plumbing. This is concurrency and UI. A single `Data` object owns all state.
  `reduce` calls `set_symbol` on a clone, so the symbol and socket fields it
  sets never reach the reducer state. The model does not capture this.
- `Decimal` ↔ `f64` conversions, float rounding, `partial_cmp().unwrap()` NaN
  panics, the `is_finite` filter (reals are always finite), and the y-label
  formatter. These are floating-point details.
- The `Chart` component and hooks, the theme lookup, colours, the canvas, and
  the plotters calls. Each draw call becomes one abstract `Primitive`.
- Candle colouring, which plotters decides.
- `chrono::Utc::now()`, which is the parameter `now` in whole seconds.
  Sub-second precision and the `u64 → i64` cast of timestamps are left out.
- `histogram` (dead code), `web/src/tickers.rs` and `web/src/main.rs` (UI).
- `Binning.Prices`: the sample is collected in ascending key order, not hash
  order. `Stats.MedianPermutation` and `Stats.MadPermutation` show the
  statistics do not depend on the order.
- `Chart.Sizes`: the same substitution, ascending bucket order for the size
  sample. `Chart.SizeStatsAnyOrder` shows that every bucket order gives the
  same sample elements, median and MAD.
- `Chart.Redraw`: the hash map's bucket order is an arbitrary enumeration
  chosen by the loop and returned as ghost. Properties that hold for every
  enumeration are stated per bucket.
- `Chart.Redraw` requires a non-zero heatmap size whenever there is a candle,
  because `median` of an empty sample panics (web/src/data.rs:339). Reading
  the code, not executing it, suggests the program can reach that state: after
  `set_symbol` empties the stores, a kline is stored at once
  (web/src/data.rs:151), while depth levels wait in the queue until the next
  300 ms flush (web/src/data.rs:255-262). A redraw in that gap would call
  `median(&[])` (web/src/chart.rs:160). The model does not cover that panic.
- `DataProvider.Data.RejectOutliers`: the removal loop lives in the helper
  method `RemoveBuckets`.
- `Chart.DrawBucket`: the walk's loop lives in the helper method
  `WalkEntries`.
