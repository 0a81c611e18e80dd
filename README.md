# MAP-21 performance measures: a Dafny model

This project models the metric pipelines of the MAP-21 scripts. These scripts compute
the federal highway performance measures of 23 CFR Part 490 for the Portland metro
region, starting from NPMRDS and INRIX probe travel times. Each script becomes one module:

- **LOTTR**, the Level of Travel Time Reliability (`lottr_calc.py`, module `LottrCalc`).
  - For each TMC (a road segment) the script takes four windows: three weekday windows (6–9, 10–15, 16–19) and one weekend window (6–19).
  - In each window it divides the 80th-percentile travel time by the median.
  - A segment is flagged reliable when every such ratio is strictly below 1.5.
  - Each segment's person-volume weighted length `ttr` comes from its AADT mode splits.
  - The reliable share of `ttr` is computed separately for the interstate and the non-interstate network.
- **TTTR**, the Truck Travel Time Reliability, and the freight reliability index (`lottr_truck.py`, module `LottrTruck`).
  - A missing or zero truck travel time is replaced by the all-vehicle time.
  - In each window the script divides the 95th-percentile travel time by the median. The weekday windows are 6–9, 10–15, 16–19 and overnight; the weekend windows are 6–19 and overnight.
  - The per-window tables are stacked, and each TMC keeps its largest ratio.
  - The index is the length-weighted mean of that ratio over the interstate segments.
- **PHED**, the Peak Hour Excessive Delay, in three versions.
  - `phed_calc_pd0.23.4.py` (module `PhedCalcPd`) is the reference formula chain:
    - threshold speed, then threshold travel time, then residual delay, then excessive delay in hours;
    - peak-hour volume, then per-TMC vehicle delay, then person delay through vehicle occupancy;
    - finally delay per capita.
  - `phed_plus_plus.py` (module `PhedPlusPlus`) holds the same steps as the methods of the class `Phed`, which owns one mutable table.
  - `phed_calc.py` (module `PhedCalc`) is the spreadsheet-style version. It rounds intermediate values and counts 10 persons per bus.
- **The INRIX May filters**:
  - `inrix_may_filter.py` (module `InrixMayFilter`) gives the hourly mean travel time.
  - `inrix_may_filter_chunk.py` (module `InrixMayFilterChunk`) gives the hourly minimum, filtering the input in chunks.
  - `inrix_may_filter_pctile.py` (module `InrixMayFilterPctile`) gives the hourly mean and 5th/95th percentiles, joined to the segment lengths.
  - Each builds one wide row per TMC through 24 left merges, one per hour of the day.

The scripts share some building blocks, which sit in their own modules:

- `Frames`: probe records with a decomposed timestamp, boolean-mask filters, the distinct TMC list, groupby reductions, wide rows and left merges.
- `Stats`: sum, min, max, mean, and numpy's default linear percentile.
- `Rounding`: round half to even, to whole units or to a number of decimals.
- `Reductions`: the percentile-ratio table.
- `Hourly`: the May days and the per-hour column names.

How the model represents the data:

- A missing value (NaN) is an absent cell of a row, or `None`.
- Arithmetic is on exact reals.
- A function that assigns columns into the caller's DataFrame is a method on a `Frames.Frame` object. Its `rows` it replaces by a row-wise function of the old rows.
- The loops that reassign a table through successive merges or concatenations are methods with loop invariants.

## Model

| member | source | states |
|---|---|---|
| Frames.Where | inrix_may_filter.py:44-49 | a boolean mask keeps exactly the rows that satisfy it, and never more rows than the input |
| Frames.WhereConcat | inrix_may_filter_chunk.py:56-60 | filtering a concatenation equals concatenating the filtered parts, order included |
| Frames.WhereIdempotent | inrix_may_filter.py:44-49 | applying the same mask twice keeps what applying it once keeps |
| Frames.WhereNone | lottr_truck.py:25 | a mask no row satisfies selects an empty table |
| Frames.WherePartition | lottr_calc.py:24-30 | a mask and its negation split a table: the two parts together hold every row exactly once |
| Frames.WhereWhere | phed_calc_pd0.23.4.py:188-190 | two masks applied in turn keep what their conjunction keeps, in the same order |
| Frames.Isin | lottr_calc.py:147-150 | `dt.<field>.isin(values)` keeps exactly the records whose timestamp field lies in the value set |
| Frames.IsinConcat | lottr_truck.py:213-214 | an `isin` filter distributes over concatenation |
| Frames.IsinPartition | lottr_calc.py:221-222 | two disjoint value sets that cover a field split the records exactly |
| Frames.DropNa | inrix_may_filter.py:49 | `dropna()` keeps exactly the records whose travel time is present |
| Frames.DropNaConcat | inrix_may_filter_chunk.py:60-65 | dropping missing values commutes with concatenation |
| Frames.Distinct | lottr_calc.py:123-125 | `drop_duplicates` lists each TMC once, and lists exactly the TMCs that occur |
| Frames.TimesOf | lottr_calc.py:104-107 | a TMC's group holds exactly the present travel times of its records, and no more values than there are records |
| Frames.TimesOfOne | lottr_calc.py:104-107 | one record adds its travel time to its own TMC's group when the time is present, and adds nothing otherwise |
| Frames.TimesOfConcat | lottr_calc.py:104-107 | the group of a concatenation is the first part's group followed by the second's, so with TimesOfOne every record adds its time once and in record order |
| Frames.Lookup | inrix_may_filter.py:58 | the merge partner of a TMC exists exactly when the right table has a row for it, and it carries that TMC |
| Frames.LookupUnique | inrix_may_filter.py:58 | with one row per TMC on the right, the partner found is that TMC's only row |
| Frames.JoinRow | inrix_may_filter.py:58 | a left-merged row keeps its TMC; without a partner it is unchanged, and otherwise each cell comes from the partner where the partner has it and from the row where it does not |
| Frames.LeftJoin | inrix_may_filter.py:55-58 | a left merge against a table with one row per TMC keeps every left row, in order, with the same TMC |
| Frames.SumColumnConcat | lottr_truck.py:27-31 | a column sum over a concatenation is the sum of the parts' sums |
| Frames.SumColumnNonNegative | lottr_calc.py:25-27 | a column without negative values sums to at least zero |
| Frames.WhereSumBetween | lottr_calc.py:25-27 | over a non-negative column, the rows a mask keeps sum to between zero and the whole column's sum |
| Frames.GroupMax | phed_calc_pd0.23.4.py:55-59 | the `max` aggregation of a TMC is present exactly when some row of the TMC has a value; it is at least every such value and equal to one of them |
| Frames.GroupSumOfRows | phed_calc_pd0.23.4.py:55-59 | the `sum` aggregation of a TMC (GroupSum) is the column sum over that TMC's rows |
| Frames.SumColumnIsSum | lottr_truck.py:27 | `Series.sum()` (SumColumn) is the sum of the column's present values, so a missing cell adds nothing |
| Frames.GroupSumNonNegative | phed_calc_pd0.23.4.py:55-59 | over a non-negative column every group sum is at least zero |
| Frames.GroupSumsConserve | phed_calc_pd0.23.4.py:55-59 | when every TMC is listed once, the group sums add up to the sum of the whole column |
| Frames.Put | phed_calc_pd0.23.4.py:132-133 | `df[c] = v` sets cell c to v, where a NaN leaves it missing, and leaves every other cell alone |
| Frames.Frame.constructor | phed_plus_plus.py:13-15 | a frame holds the given rows |
| Frames.HourText | inrix_may_filter.py:20-21 | `'{}'.format(hour)` writes an hour of the day as one or two decimal digits |
| Frames.HourColumnInjective | inrix_may_filter.py:20-21 | `'hour_{h}_<suffix>'` names differ whenever the hours or the suffixes differ, so no merge overwrites an earlier hour's column |
| Stats.SumConcat | lottr_truck.py:27-31 | a sum over a concatenation is the sum of the parts' sums |
| Stats.Max | lottr_truck.py:68-69 | `max` is an element of the group that no element exceeds |
| Stats.Min | inrix_may_filter_chunk.py:20 | `min` is an element of the group that exceeds no element |
| Stats.Mean | inrix_may_filter.py:18-19 | the `mean` aggregation of a group lies between its minimum and its maximum |
| Stats.MeanOfConstant | inrix_may_filter.py:18-19 | a group whose values are all c has mean c |
| Stats.MeanOfHalves | inrix_may_filter.py:18-19 | pooling two groups of the same size gives the average of their two means |
| Stats.Insert | lottr_calc.py:104-105 | inserting into a sorted sequence keeps it sorted and adds exactly that element |
| Stats.Sort | lottr_calc.py:104-105 | the order numpy reads a group in is sorted and a permutation of the group |
| Stats.PercentileMonotone | lottr_calc.py:104-105 | a higher percentile is never below a lower one, so the median is at most the 80th and 95th percentiles and the 5th at most the 95th |
| Stats.PercentileBetween | inrix_may_filter_pctile.py:21-22 | when all values lie within bounds, every percentile lies within the same bounds |
| Stats.Percentile | inrix_may_filter_pctile.py:21-22 | `np.percentile` with linear interpolation lies between the group's minimum and maximum |
| Stats.PercentileRatio | lottr_calc.py:109 | the window ratio p_hi/p50 is defined exactly when the median is not 0, and is then the quotient of the two percentiles |
| Stats.PercentileOfConstant | lottr_calc.py:104-109 | a group whose values are all equal has that value at every percentile |
| Stats.PercentileOfThree | lottr_calc.py:104-105 | on three sorted values the linear percentile gives the middle value as median, and 60% of the way from the middle value to the largest as the 80th percentile |
| Stats.SortOfSorted | lottr_calc.py:104-105 | a group already in order is read in its own order |
| Stats.RatioAtLeastOne | lottr_calc.py:104-109 | for positive travel times a p_hi/p50 ratio with hi ≥ 50 is defined and at least 1 |
| Stats.RatioOfConstant | lottr_calc.py:104-109 | equal positive travel times give a ratio of exactly 1 |
| Rounding.RoundHalfEven | lottr_calc.py:70 | `.round()` gives an integer within 0.5 of the value, and a tie goes to the even integer |
| Rounding.RoundTo | phed_calc.py:39 | `.round(k)`, scaled by 10^k, is a whole number within 0.5 of the scaled value; on a tie that whole number is even; it is non-negative for a non-negative value |
| Rounding.RoundToHundredths | phed_calc.py:22 | `.round(2)` is a whole number of hundredths within half a hundredth of the value |
| Rounding.RoundToThousandths | phed_calc.py:39 | `.round(3)` is a whole number of thousandths within half a thousandth of the value |
| Rounding.Round | phed_calc.py:23 | `.round()` is a whole number within 0.5 of the value; on a tie it is the even one; it is non-negative for a non-negative value |
| Reductions.GroupRatio | lottr_calc.py:104-109 | a TMC's percentile ratio is present only when the TMC has records and all of them carry a travel time |
| Reductions.GroupRatioAtLeastOne | lottr_calc.py:104-109 | for positive travel times a TMC's ratio is present and at least 1 |
| Reductions.GroupRatioOfConstant | lottr_calc.py:104-109 | a TMC whose travel times are all the same positive value has ratio exactly 1 |
| Reductions.RatioRow | lottr_calc.py:107-108 | a groupby row carries its TMC, the TMC's ratio under the ratio column, and only the percentile and ratio columns |
| Reductions.RatioTable | lottr_calc.py:101-109 | the percentile-ratio table has one row per distinct TMC of the window, and each row's ratio is that TMC's ratio |
| Reductions.IsInterstate | lottr_calc.py:24-30 | `interstate == 1` holds only for a row whose flag is present and equal to 1, so a missing flag falls in the non-interstate network |
| Reductions.DirAadt | lottr_calc.py:70 | the directional AADT is a whole number within 0.5 of `aadt`/`faciltype`, and on a tie the even one |
| LottrCalc.CalcLottr | lottr_calc.py:101-109 | `calc_lottr` gives one row per distinct TMC; `'{days}_{time_period}'` holds the TMC's 80th/50th percentile ratio, and no column beyond the two percentiles and the ratio appears |
| LottrCalc.JoinedRatio | lottr_calc.py:130 | merging a TMC row with a window table gives it the TMC's window ratio, missing when the TMC has no record in the window |
| LottrCalc.JoinedOther | lottr_calc.py:154-155 | a merge with a window table leaves every cell outside that table's columns unchanged |
| LottrCalc.AggTravelTimeSatSun | lottr_calc.py:123-131 | one row per distinct weekend TMC, whose `SATSUN_6_19` is its ratio over hours 6–19 |
| LottrCalc.MfColumnsDistinct | lottr_calc.py:147-155 | the three weekday ratio columns differ from one another and from the percentile columns |
| LottrCalc.AggTravelTimesMf | lottr_calc.py:143-155 | after the three merges every distinct weekday TMC has exactly one row; `MF_6_9`, `MF_10_15` and `MF_16_19` hold its ratio in each window, missing where it has no record |
| LottrCalc.WindowsDisjoint | lottr_calc.py:127-128 | the weekday windows are pairwise disjoint, and together they make up the weekend window 6–19 |
| LottrCalc.SplitWeek | lottr_calc.py:221-222 | weekdays 0–4 and weekend days 5–6 split the records exactly, and no weekday record is a weekend record |
| LottrCalc.ReliableFlag | lottr_calc.py:84-89 | the flag is 1 exactly when all four window ratios are present and below 1.5, and 0 exactly when one is not |
| LottrCalc.BoundaryIsUnreliable | lottr_calc.py:84-89 | a ratio of exactly 1.5, or a missing ratio, makes the segment unreliable |
| LottrCalc.CheckReliableRow | lottr_calc.py:84-89 | `check_reliable` writes the flag into `reliable` and changes no other cell |
| LottrCalc.CheckReliable | lottr_calc.py:84-90 | the caller's frame gets `reliable` on every row |
| LottrCalc.AadtSplitsRow | lottr_calc.py:70-74 | `AADT_splits` changes only `dir_aadt`, `aadt_auto`, `pct_auto` and `pct_bus` |
| LottrCalc.AadtSharesSum | lottr_calc.py:70-74 | `dir_aadt` is the rounded AADT per direction, and `pct_auto + pct_bus` = 1 − `aadt_combi`/`dir_aadt` |
| LottrCalc.SplitsCells | lottr_calc.py:70-74 | given its inputs, `AADT_splits` writes the rounded directional AADT, the auto remainder share and the bus share |
| LottrCalc.AutoShareNegative | lottr_calc.py:71-73 | truck AADT above the directional AADT drives `pct_auto` below zero |
| LottrCalc.AadtSplits | lottr_calc.py:70-75 | the caller's frame gets the split columns on every row |
| LottrCalc.CalcTtrRow | lottr_calc.py:47-58 | `calc_ttr` changes only `VOLa`, `VOLb` and `ttr` |
| LottrCalc.TtrWeighting | lottr_calc.py:50-58 | `ttr` = miles·(nhs_pct/100)·365·dir_aadt·(1.4·pct_auto + 12.6·pct_bus) |
| LottrCalc.TtrFromAadt | lottr_calc.py:47-58 | after the splits, `ttr` is length × NHS share × 365 × (1.4 × autos + 12.6 × buses), with autos being the directional AADT less single-unit and combination trucks |
| LottrCalc.CalcTtr | lottr_calc.py:47-59 | the caller's frame gets `VOLa`, `VOLb` and `ttr` on every row |
| LottrCalc.NetworksPartition | lottr_calc.py:24-30 | the interstate rows and the non-interstate rows split the table exactly |
| LottrCalc.ReliableShareBetween | lottr_calc.py:25-27 | with no negative `ttr`, a network's reliable share lies in [0, 1] |
| LottrCalc.PctReliabilityBetween | lottr_calc.py:16-35 | with no negative `ttr`, both shares `calc_pct_reliability` returns lie in [0, 1] |
| LottrCalc.ReliableShare | lottr_calc.py:25-27 | a network's share is defined exactly when its `ttr` sum is not 0, and is then the reliable segments' `ttr` sum divided by the network's |
| LottrCalc.CalcPctReliability | lottr_calc.py:16-35 | each share is defined exactly when its network's `ttr` sum is not 0, and times that sum it gives the `ttr` sum of the network's reliable segments |
| LottrTruck.Substitute | lottr_truck.py:206-208 | a missing or zero truck time becomes the all-vehicle time, and any other truck time is kept |
| LottrTruck.SubstitutedPositive | lottr_truck.py:206-208 | non-negative truck times and positive all-vehicle times give a positive time on every row |
| LottrTruck.HourSixCountedTwice | lottr_truck.py:105-116 | hour 6 lies in both the 6–9 window and the overnight window, both on weekdays and on weekends, and it is the only hour shared by 6–9 and overnight |
| LottrTruck.Windows | lottr_truck.py:105-126 | weekdays have four windows and weekends two, all of hours of the day, the overnight window last |
| LottrTruck.WindowsCoverDay | lottr_truck.py:105-126 | every hour of the day lies in some window, on weekdays and at weekends |
| LottrTruck.CalcLottr | lottr_truck.py:82-89 | one row per distinct TMC of the window, whose `tttr` is its 95th/50th percentile ratio |
| LottrTruck.StackMembership | lottr_truck.py:128-131 | a row is in the stacked table exactly when it is a row of one window's table |
| LottrTruck.StackTmcs | lottr_truck.py:128-131 | every stacked row belongs to a TMC that has records |
| LottrTruck.MaxTttr | lottr_truck.py:218-220 | the combined table has at most one row per TMC |
| LottrTruck.MaxTttrTmcs | lottr_truck.py:218-220 | every TMC of the combined table has weekday or weekend records |
| LottrTruck.AggTravelTimes | lottr_truck.py:101-133 | the concatenation loop returns the window tables stacked in window order |
| LottrTruck.MaxRow | lottr_truck.py:68-69 | a TMC's `tttr` maximum is present exactly when one of its stacked rows has one; it is at least each of them and equal to one |
| LottrTruck.GetMaxTtr | lottr_truck.py:63-71 | `get_max_ttr` gives one row per distinct TMC of the stack, holding its maximum `tttr` |
| LottrTruck.MaxDominatesWindows | lottr_truck.py:213-220 | a TMC's final `tttr` is at least its ratio in every weekday and every weekend window |
| LottrTruck.WindowRatioStacked | lottr_truck.py:219 | every window ratio of a TMC is a row of the combined stack |
| LottrTruck.AadtSplitsRow | lottr_truck.py:57-58 | `AADT_splits` changes only `dir_aadt` and `pct_truck` |
| LottrTruck.AadtSplits | lottr_truck.py:50-60 | the caller's frame gets `dir_aadt` and `pct_truck` on every row |
| LottrTruck.CalcTtrRow | lottr_truck.py:43-45 | `calc_ttr` changes only `VOLt` and `ttr` |
| LottrTruck.CalcTtr | lottr_truck.py:37-47 | the caller's frame gets `VOLt` and `ttr` on every row |
| LottrTruck.TruckTtrFromAadt | lottr_truck.py:43-58 | `ttr` = miles·pct_truck·dir_aadt·365 = miles·aadt_combi·365, so the rounding of `dir_aadt` cancels |
| LottrTruck.CalcFreightReliability | lottr_truck.py:25-34 | the table is returned unchanged |
| LottrTruck.WeightedBetween | lottr_truck.py:27-31 | when every `tttr` lies in [lo, hi] and lengths are non-negative, Σ miles·tttr lies between lo·Σ miles and hi·Σ miles |
| LottrTruck.FreightIndexBetween | lottr_truck.py:25-32 | the freight index lies between the smallest and the largest interstate `tttr` |
| LottrTruck.FreightIndexOfConstant | lottr_truck.py:25-32 | when every interstate `tttr` is k, the index is k |
| LottrTruck.FreightIndex | lottr_truck.py:25-32 | the index is defined exactly when the interstate length is not 0, and is then the weighted sum over the interstate length |
| LottrTruck.WeightedSumIsColumnSum | lottr_truck.py:29-30 | the weighted sum is the NaN-skipping sum of the `weighted_ttr = miles * tttr` column |
| LottrTruck.NonInterstateIgnored | lottr_truck.py:25 | adding non-interstate segments leaves the index unchanged |
| PhedCalcPd.PeakPeriod | phed_calc_pd0.23.4.py:188-190 | exactly the records of weekdays 0–4 in hours 6–10 and 15–19 are kept; `Phed.load_metro_data` applies the same filter (`phed_plus_plus.py` lines 53-57) |
| PhedCalcPd.PeakPeriodIsOneMask | phed_calc_pd0.23.4.py:188-190 | the two filters together are one mask, and the records keep their order |
| PhedCalcPd.ThresholdSpeedRow | phed_calc_pd0.23.4.py:132-133 | `posted_mult` = 0.6·limit; `TS` is at least 20 and at least 0.6·limit, and is one of the two; a missing limit gives 20 |
| PhedCalcPd.ThirtyMphGivesFloor | phed_calc_pd0.23.4.py:133 | a 30 mph limit gives `TS` = 20 |
| PhedCalcPd.SegmentDelayRow | phed_calc_pd0.23.4.py:103 | `SD`·`TS` = miles·3600, with `SD` present exactly when miles and a nonzero `TS` are |
| PhedCalcPd.SegmentDelayAtMostFloorTime | phed_calc_pd0.23.4.py:103-133 | after the threshold speed, a segment's threshold time is between 0 and its time at 20 mph (180 s per mile) |
| PhedCalcPd.RsdRow | phed_calc_pd0.23.4.py:92-93 | `RSD` is never negative; when positive it is the travel time minus `SD`, and it is 0 exactly when the travel time is at most `SD` |
| PhedCalcPd.ExcessiveDelayRow | phed_calc_pd0.23.4.py:80-82 | `ED` is never negative; `ED`·3600 = `RSD` for a non-negative `RSD`, and a missing `RSD` gives 0 |
| PhedCalcPd.SplitsGiven | phed_calc_pd0.23.4.py:117-121 | the split columns are the only ones changed; `dir_aadt` is the value given, `aadt_auto` is it less single-unit and combination trucks, and each share is its class's AADT over `dir_aadt`, missing when `dir_aadt` is missing or zero |
| PhedCalcPd.SharesSumToOne | phed_calc_pd0.23.4.py:117-121 | for a nonzero directional AADT the auto, bus and truck shares sum to 1 |
| PhedCalcPd.AadtSplitsRow | phed_calc_pd0.23.4.py:116-121 | here `dir_aadt` is `aadt/faciltype` unrounded; `aadt_auto` = `dir_aadt` − (`aadt_singl` + `aadt_combi`), and `pct_auto`, `pct_bus`, `pct_truck` are `aadt_auto`, `aadt_singl`, `aadt_combi` over `dir_aadt`; only the split columns change |
| PhedCalcPd.DirAadtUnrounded | phed_calc_pd0.23.4.py:116 | `dir_aadt` is present exactly when `aadt` and a nonzero `faciltype` are, and then `dir_aadt`·faciltype = aadt exactly |
| PhedCalcPd.AadtSharesSumToOne | phed_calc_pd0.23.4.py:116-121 | with nonzero AADT the three shares sum to exactly 1 |
| PhedCalcPd.PeakHrRow | phed_calc_pd0.23.4.py:70-71 | `PK_HR` is present exactly when `dir_aadt` and the peaking factor are, and then equals their product; no other cell changes |
| PhedCalcPd.TedSegRow | phed_calc_pd0.23.4.py:54 | `TED_seg` is present exactly when `ED` and `PK_HR` are, and then equals `ED`·`PK_HR`; no other cell changes |
| PhedCalcPd.TedGroupRow | phed_calc_pd0.23.4.py:55-59 | a TMC's grouped row holds Σ`TED_seg` and the max of each pct column, and no other column |
| PhedCalcPd.GroupTed | phed_calc_pd0.23.4.py:55-59 | the groupby gives one row per distinct TMC, holding that TMC's grouped row |
| PhedCalcPd.GroupTedConservesDelay | phed_calc_pd0.23.4.py:54-59 | the grouped `TED_seg` column sums to the ungrouped one |
| PhedCalcPd.GroupTedNonNegative | phed_calc_pd0.23.4.py:54-59 | non-negative row delays give non-negative per-TMC delays |
| PhedCalcPd.SharePassesThrough | phed_calc_pd0.23.4.py:56-58 | a share that is constant over a TMC's rows passes through `max` unchanged |
| PhedCalcPd.OccupancyBetween | phed_calc_pd0.23.4.py:36-43 | a mix of shares summing to 1 carries between 1 and 12.6 persons per vehicle |
| PhedCalcPd.TedSummationRow | phed_calc_pd0.23.4.py:36-44 | `TED` = `TED_seg`·(1.4·pct_auto + 12.6·pct_bus + pct_truck), present exactly when its inputs are |
| PhedCalcPd.TedBetween | phed_calc_pd0.23.4.py:36-44 | for non-negative delay and shares forming a mix, `TED` lies between `TED_seg` and 12.6·`TED_seg` |
| PhedCalcPd.PerCapitaTed | phed_calc_pd0.23.4.py:24-26 | per-capita delay times 1577456 is the total, and it is non-negative for a non-negative total |
| PhedCalcPd.PhedResult | phed_calc_pd0.23.4.py:247 | the reported figure is the summed `TED` over the population rounded to hundredths: a whole number of hundredths within half a hundredth of it, an even number of hundredths on a tie, and non-negative when no `TED` is negative |
| PhedCalcPd.NoDelayWithinThreshold | phed_calc_pd0.23.4.py:80-93 | a trip no slower than the threshold time gives `ED` = 0 |
| PhedCalcPd.DelayBeyondThreshold | phed_calc_pd0.23.4.py:80-93 | a trip slower than the threshold time gives `ED`·3600 = travel time − `SD` |
| PhedCalcPd.ThresholdSpeed | phed_calc_pd0.23.4.py:125-134 | the caller's frame gets `posted_mult` and `TS` on every row |
| PhedCalcPd.AadtSplits | phed_calc_pd0.23.4.py:107-122 | every row of the caller's frame gets `dir_aadt` = `aadt/faciltype`, `aadt_auto` and the three class shares over `dir_aadt` |
| PhedCalcPd.SegmentDelay | phed_calc_pd0.23.4.py:97-104 | the caller's frame gets `SD` on every row |
| PhedCalcPd.Rsd | phed_calc_pd0.23.4.py:86-94 | the caller's frame gets `RSD` on every row |
| PhedCalcPd.ExcessiveDelay | phed_calc_pd0.23.4.py:75-83 | the caller's frame gets `ED` on every row |
| PhedCalcPd.PeakHr | phed_calc_pd0.23.4.py:63-72 | the caller's frame gets `PK_HR` on every row |
| PhedCalcPd.TotalExcessiveDelay | phed_calc_pd0.23.4.py:48-60 | the caller's frame gets `TED_seg`, and a new grouped frame is returned |
| PhedCalcPd.TedSummation | phed_calc_pd0.23.4.py:29-45 | the caller's frame gets the occupancies and `TED` on every row |
| PhedCalcPd.CalculatePhed | phed_calc_pd0.23.4.py:236-247 | `main`'s calls in order: the frame receives every formula column up to `TED_seg`, and the result is the per-capita delay of the grouped, person-weighted table |
| PhedPlusPlus.AadtSplitsRow | phed_plus_plus.py:179-184 | here `dir_aadt` is `aadt/faciltype` rounded half to even (whole, within 0.5, even on a tie), present exactly when its inputs are; `aadt_auto` and the three shares are as in `phed_calc_pd0.23.4.py`, over the rounded `dir_aadt`; only the split columns change |
| PhedPlusPlus.AadtSharesSumToOne | phed_plus_plus.py:179-184 | for a nonzero rounded `dir_aadt` the three shares sum to 1 |
| PhedPlusPlus.ExcessiveDelayRow | phed_plus_plus.py:146-148 | `ED` is `RSD`/3600 rounded half to even to thousandths (whole thousandths, within half a thousandth, even on a tie) for a non-negative `RSD`, and 0 for a missing or negative one |
| PhedPlusPlus.ShortDelayRoundsAway | phed_plus_plus.py:146-148 | a residual delay below 1.8 s rounds to `ED` = 0 |
| PhedPlusPlus.Phed.constructor | phed_plus_plus.py:13-15 | a new calculator holds an empty table |
| PhedPlusPlus.Phed.ThresholdSpeed | phed_plus_plus.py:187-197 | needs `SPEED_LIMIT`; adds `posted_mult` and `TS` and transforms every row |
| PhedPlusPlus.Phed.AadtSplits | phed_plus_plus.py:170-185 | needs the AADT inputs; every row gets the rounded `dir_aadt`, `aadt_auto` and the three class shares over it |
| PhedPlusPlus.Phed.SegmentDelay | phed_plus_plus.py:161-168 | needs `miles` and `TS`; adds `SD` |
| PhedPlusPlus.Phed.Rsd | phed_plus_plus.py:151-159 | needs the travel time and `SD`; adds `RSD` |
| PhedPlusPlus.Phed.ExcessiveDelay | phed_plus_plus.py:141-149 | needs `RSD`; every row gets `ED` = `RSD`/3600 rounded half to even to thousandths, or 0 when `RSD` is missing or negative |
| PhedPlusPlus.Phed.PeakHr | phed_plus_plus.py:131-139 | needs `dir_aadt` and the peaking factor; adds `PK_HR` |
| PhedPlusPlus.Phed.TotalExcessiveDelay | phed_plus_plus.py:116-129 | replaces the table by its TMC groupby, leaving only `TED_seg` and the pct columns |
| PhedPlusPlus.Phed.TedSummation | phed_plus_plus.py:99-114 | needs the grouped columns; adds the occupancies and `TED` |
| PhedPlusPlus.Run | phed_plus_plus.py:214-225 | in `main`'s order every method finds the columns it reads; the table ends grouped by TMC with `TED`, and the result is its per-capita delay |
| PhedCalc.PeakPeriod | phed_calc.py:85-86 | exactly the records of weekdays 0–4 in hours 6–9 and 16–19 are kept |
| PhedCalc.AadtSplitsRow | phed_calc.py:56-59 | `TOTAL_AADT` is the sum of the three directional volumes, and each share is its class's volume over `TOTAL_AADT`; no other cell changes |
| PhedCalc.SharesFormMix | phed_calc.py:56-59 | for non-negative volumes with some traffic, each share lies in [0, 1] and the three sum to 1 |
| PhedCalc.SegmentDelayRow | phed_calc.py:51 | `SD` is the travel time rounded half to even to whole seconds: whole, within 0.5, even on a tie; present exactly when the travel time is |
| PhedCalc.RsdRow | phed_calc.py:45-46 | `RSD` is never negative; when positive it is `SD` − `2017_EDT`, and it is 0 exactly when `SD` ≤ `2017_EDT` |
| PhedCalc.PeakHrRow | phed_calc.py:34 | `PK_HR` is `DirAADT_AUTO`/4 rounded half to even: whole, within 0.5, even on a tie |
| PhedCalc.TedSegRow | phed_calc.py:22-23 | `TED_seg` is present exactly when `ED` and `PK_HR` are, and is then `ED`·`PK_HR` rounded to hundredths and then to a whole number, which lies within 0.505 of the product |
| PhedCalc.DoubleRoundingBound | phed_calc.py:22-23 | rounding to hundredths and then to units is whole, and within 0.505 of the value |
| PhedCalc.DoubleRounding | phed_calc.py:22-23 | the double rounding is not plain rounding: 1.496 gives 2, where one rounding gives 1 |
| PhedCalc.WholeGroupSum | phed_calc.py:26-30 | a whole-valued column has whole group sums |
| PhedCalc.GroupedDelayWhole | phed_calc.py:22-30 | every TMC's summed `TED_seg` is a whole number |
| PhedCalc.TedSummationRow | phed_calc.py:11-18 | `AVOc`, `AVOb`, `AVOt` are the shares times 1.4, 10 and 1; `TED` is `TED_seg`·(1.4·pa + 10·pb + pt) rounded half to even to thousandths (whole thousandths, within half a thousandth, even on a tie) |
| PhedCalc.AadtSplits | phed_calc.py:54-60 | every row of the caller's frame gets `TOTAL_AADT`, the sum of the directional volumes, and each class's share of it |
| PhedCalc.SegmentDelay | phed_calc.py:49-52 | every row of the caller's frame gets `SD`, the travel time rounded half to even to whole seconds |
| PhedCalc.Rsd | phed_calc.py:43-47 | the caller's frame gets `RSD` on every row |
| PhedCalc.ExcessiveDelay | phed_calc.py:37-41 | every row of the caller's frame gets `ED` = `RSD`/3600 rounded half to even to thousandths, or 0 when `RSD` is missing or negative; the same formula as in `phed_plus_plus.py` |
| PhedCalc.PeakHr | phed_calc.py:33-35 | every row of the caller's frame gets `PK_HR`, `DirAADT_AUTO`/4 rounded half to even |
| PhedCalc.TotalExcessiveDelay | phed_calc.py:21-31 | the caller's frame gets the rounded `TED_seg`, and a new grouped frame is returned |
| PhedCalc.TedSummation | phed_calc.py:9-19 | every row of the caller's frame gets the occupancies 1.4·pa, 10·pb, pt and `TED`, `TED_seg` times their sum rounded half to even to thousandths |
| Hourly.MayDaysMidweek | inrix_may_filter.py:46-48 | the kept days are exactly the Tuesdays, Wednesdays and Thursdays of May 2017 up to the 28th, so Memorial Day week is excluded |
| Hourly.HourSlice | inrix_may_filter.py:17 | the hour filter keeps exactly the records of that hour |
| Hourly.HourSliceIgnoresOtherHours | inrix_may_filter.py:17 | records of other hours never affect an hour's slice |
| Hourly.HourColumns | inrix_may_filter.py:55-58 | the names of the hours below n contain an hour's name exactly when that hour is below n |
| Hourly.HourColumnsApart | inrix_may_filter_pctile.py:19-25 | per-hour names with different suffixes never coincide |
| Hourly.JoinHour | inrix_may_filter.py:58 | an hour merge leaves every other column unchanged, fills the new column from the TMC's match (missing without one), and adds no other column |
| InrixMayFilter.HourMean | inrix_may_filter.py:18-19 | the hourly mean is present exactly when the TMC has a time in that hour, and lies between the group's minimum and maximum |
| InrixMayFilter.TtByHour | inrix_may_filter.py:15-22 | one row per distinct TMC with a record in the hour, carrying only `hour_{h}_tt_seconds`, which holds its mean |
| InrixMayFilter.JoinedMean | inrix_may_filter.py:58 | a merge gives a row its TMC's hourly mean, missing without data, and changes no other column |
| InrixMayFilter.MayRecords | inrix_may_filter.py:44-49 | exactly the May records on the kept days with a present travel time remain |
| InrixMayFilter.MeanByHour | inrix_may_filter.py:51-58 | one row per distinct TMC, in first-appearance order, whose 24 hour columns hold its hourly means (missing where there is no data) and no other column |
| InrixMayFilterChunk.HourMin | inrix_may_filter_chunk.py:20 | the hourly minimum is present exactly when the TMC has a time in that hour |
| InrixMayFilterChunk.HourMinIsLeast | inrix_may_filter_chunk.py:17-24 | the minimum is one of the TMC's hour-h times, and no such time is below it |
| InrixMayFilterChunk.TtByHour | inrix_may_filter_chunk.py:17-24 | one row per distinct TMC with a record in the hour, carrying only its minimum under `hour_{h}_tt_seconds` |
| InrixMayFilterChunk.JoinedMin | inrix_may_filter_chunk.py:98 | a merge gives a row its TMC's hourly minimum and changes no other column |
| InrixMayFilterChunk.MonthChunks | inrix_may_filter_chunk.py:56 | there is one filtered chunk per chunk, and it holds exactly the chunk's records that fall in May |
| InrixMayFilterChunk.DayChunks | inrix_may_filter_chunk.py:57-58 | there is one filtered chunk per chunk, and it holds exactly the chunk's records that fall on a kept day |
| InrixMayFilterChunk.Concat | inrix_may_filter_chunk.py:60 | the concatenation holds exactly the rows of the chunks |
| InrixMayFilterChunk.ChunkedFilter | inrix_may_filter_chunk.py:56-60 | filtering chunk by chunk and concatenating gives the same rows, in the same order, as filtering the whole file |
| InrixMayFilterChunk.MayRecords | inrix_may_filter_chunk.py:56-65 | the aggregated records are the filtered concatenation with missing values dropped |
| InrixMayFilterChunk.MayRecordsMembers | inrix_may_filter_chunk.py:56-65 | a record is kept exactly when it is in some chunk, in May, on a kept day, with a present travel time |
| InrixMayFilterChunk.MinByHour | inrix_may_filter_chunk.py:56-98 | one row per distinct kept TMC whose 24 hour columns hold its hourly minima and no other column |
| InrixMayFilterChunk.HourTable | inrix_may_filter_chunk.py:75-98 | the 24 left merges keep one row per TMC and fill each hour with that TMC's minimum |
| InrixMayFilterPctile.HourPct | inrix_may_filter_pctile.py:21-22 | an hourly percentile is present exactly when the TMC has a time in that hour, and lies between the group's minimum and maximum |
| InrixMayFilterPctile.LowBelowHigh | inrix_may_filter_pctile.py:21-22 | the 5th percentile never exceeds the 95th |
| InrixMayFilterPctile.TtByHour | inrix_may_filter_pctile.py:17-26 | one row per distinct TMC with a record in the hour, holding only its mean under `hour_{h}_mean_tt_seconds` and its 5th and 95th percentiles |
| InrixMayFilterPctile.StatsRow | inrix_may_filter_pctile.py:19-25 | a TMC's hourly row holds its mean and its 5th and 95th percentiles, and only the three hour columns |
| InrixMayFilterPctile.JoinedStats | inrix_may_filter_pctile.py:70 | a merge fills the hour's three columns with the TMC's statistics |
| InrixMayFilterPctile.DayRecords | inrix_may_filter_pctile.py:43-45 | exactly the records on the kept days, in any month, with a present travel time remain |
| InrixMayFilterPctile.Matches | inrix_may_filter_pctile.py:61-62 | a TMC row has inner-merge partners exactly when the metadata lists its TMC |
| InrixMayFilterPctile.InnerJoin | inrix_may_filter_pctile.py:61-63 | the inner merge keeps only TMCs present on both sides, and keeps every left TMC that the metadata lists |
| InrixMayFilterPctile.SpineJoinColumns | inrix_may_filter_pctile.py:54-63 | joining the TMC list with the metadata adds at most `miles`, and the duplicate `tmc` column is gone |
| InrixMayFilterPctile.HourNamesFresh | inrix_may_filter_pctile.py:65-70 | an hour's three columns are new to the table when its merge comes |
| InrixMayFilterPctile.PctileByHour | inrix_may_filter_pctile.py:43-70 | the rows are those of the metadata join, each keeping its `miles`; every hour's three columns hold the TMC's statistics over the kept records |
| InrixMayFilterPctile.WidenRow | inrix_may_filter_pctile.py:70 | one hour merge keeps `miles` and the earlier hours' cells, and fills the hour's columns |
| InrixMayFilterPctile.HourTable | inrix_may_filter_pctile.py:65-70 | the 24 left merges keep every row, its TMC and its `miles`, and fill each hour's columns with the TMC's statistics |

## Left out

- File reading is not modelled: `read_csv` of the quarterly extracts, chunked reading, the `to_csv`/`to_hdf` output, prints and run timing. `csv_to_hd5.py` is entirely I/O.
- Quarterly files are read and concatenated into one table (`lottr_calc.py` line 182, `lottr_truck.py` lines 159 and 176, `phed_calc_pd0.23.4.py` line 160, `phed_plus_plus.py` line 33). The INRIX May scripts read one extract, and `phed_calc.py` reads one test extract (line 82). The model starts from the concatenated table.
- Datetime parsing is not modelled. Records carry an already-decomposed weekday, hour, month and day.
- The joins that load the data are modelled as the loaded table: the urban-TMC, peaking-factor, metadata and HERE speed-limit merges of the PHED scripts, `Phed.load_metro_data`, and the metro-network and interstate merges of the reliability scripts. Their `key_0` columns and suffixes are pandas plumbing. The `Phed` class takes its table after `load_metro_data` (`phed_plus_plus.py` lines 17-97), so its rows are already limited to weekdays 0–4 and hours 6–10 and 15–19 (lines 53-57); that filter is `PhedCalcPd.PeakPeriod`, applied before the class is built.
- In `lottr_calc.py`, `main` merges the weekday and weekend tables on `tmc_code` (line 227) before `check_reliable`. That merge is an inner join: a TMC with weekday rows but no weekend rows, or the reverse, is dropped and never reaches `check_reliable` or `calc_pct_reliability`. It is not a separate operation of the model: `CheckReliable` takes rows that already carry all four window ratios, so its input holds only TMCs present on both sides. The hour filter at lines 195-196 is an instance of `Frames.Isin`.
- The all-vehicle merge of `lottr_truck.py` (lines 180-186) is modelled as records that already pair the truck and all-vehicle times.
- Floating point is not modelled. Values are exact reals, and `.round(k)` is round half to even on exact decimals.
- A zero divisor makes a cell missing, where pandas yields `inf` or NaN. The model never carries `inf` forward.
- Groupby results come in order of first appearance, where pandas sorts them by key. Row membership and values are the same either way.
- `dropna()` is modelled on the travel time only. `inrix_may_filter.py` (lines 36-38) and `inrix_may_filter_pctile.py` (lines 35-37) read every column of the extract. Their `dropna()` (line 49 and line 45) therefore also drops a record that lacks another field, such as speed. The model's records carry no such field and keep that record. `inrix_may_filter_chunk.py` reads only the TMC, the timestamp and the travel time (lines 40-45), so there the model matches.
- In `inrix_may_filter_pctile.py`, `main` copies the travel time into `hour_{h}_5th_pct` and `hour_{h}_95th_pct` before aggregating. The model aggregates the travel time directly, since each copy equals it.
- The code in `phed_calc.py` main that sits inside string literals (lines 64-80, the quarterly loading loop, and lines 88-114) and the commented-out metadata merge of `inrix_may_filter_chunk.py` (lines 79-93) are not modelled.
- `phed_calc_pd0.23.4.py` line 244 narrows the table to `tmc_code` and `TED` before summing. The model sums `TED` on the full grouped table, which gives the same sum.
- LottrCalc.AadtSplitsRow, LottrCalc.CalcTtrRow, LottrTruck.AadtSplitsRow and LottrTruck.CalcTtrRow: their own contracts state only which cells change. The formulas they write are stated by LottrCalc.SplitsCells, LottrCalc.TtrWeighting and LottrTruck.TruckTtrFromAadt.
- LottrTruck.CalcFreightReliability: the returned index is stated by the lemmas FreightIndexBetween, FreightIndexOfConstant and NonInterstateIgnored, not by its own contract.
- Frames.Distinct: its contract states that each key appears once and that the key set is unchanged. It does not state the order of first appearance, which the function keeps.
- The in-place writer methods (`CheckReliable`, `AadtSplits`, `CalcTtr`, the PHED steps and the `Phed` methods) state their new table through the row functions they apply. The properties live on those row functions.
