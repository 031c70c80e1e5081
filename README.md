# Grain distribution dashboard: the metrics engine in Dafny

This project models the computations behind the grain-distribution dashboard (`app.py`).
The dashboard loads six tables from a workbook:
- the settings;
- central-godown (CG) to local-godown (LG) dispatches;
- LG to fair-price-shop (FPS) vehicle trips;
- stock snapshots;
- the LG registry;
- the FPS registry.

From these tables it derives the figures its tabs display. The model covers:

- **Settings and the lead-time loop** (`LeadTime`, on the settings of `Records`). `Records.MaxTrips` is vehicles × trips per vehicle per day (MAX_TRIPS) and `Records.DailyCap` is MAX_TRIPS × truck capacity (DAILY_CAP); both are plain definitions. The loop computes the pre-dispatch offset X. It then builds the slider window `[1 - X, DAYS]`. The loop is a method. It is proved to return the *least* non-negative lead under which every day's cumulative CG to LG need fits in the capacity of `d + X` days.
- **Aggregation views** (`Aggregates`, on the generic group-by folds of `Folds`):
  - daily totals, which lose no tonnage and whose lookups give group sums;
  - distinct vehicles per day;
  - the FPS stock joined to the registry, with its at-risk flag;
  - the total plan.
- **The LG stock timeline** (`StockTimeline`). This is the pivot plus forward fill. Each filled cell is proved to be that godown's latest snapshot at or before the row's day. Forward fill is proved idempotent.
- **The FPS report** (`FpsReport`, using the string model of `Text`). It groups per shop, left-merges with the names and sorts by total, descending. Rows are proved to be exactly the aggregates of shops served on days 1..hi. The sort is proved to be a permutation. The vehicle list is proved to split back into the distinct vehicles, as many as the trip count. The totals are proved to add up to `lg_sel`.
- **The per-shop projection** (`ShopProjection`). The loop is a method whose result is tied row by row to a specification of stock-now, next receipt and days-to-receipt. The days-to-receipt column uses the corrected reading of `app.py:182` (see "## Findings"). It differs from the code as written only when the next receipt falls on day 0.
- **The KPIs** (`Kpis`):
  - windowed sums;
  - daily averages;
  - fleet utilisation;
  - LG and FPS stock on hand;
  - capacity filled;
  - stock-out and at-risk counts;
  - plan completion and days remaining.

  Most KPIs are proved against a reading of the raw tables: the windowed sums, the averages, `avg_trips`, LG and FPS stock on hand, `lg_caps`, the stock-out and at-risk counts, and the plan figures. `pct_fleet`, `pct_lg_filled` and `pct_plan` are stated as the arithmetic the code performs, with bounds proved about them.

Tons are exact `real`s, days are `int`s and identifiers are `string`s.

Where pandas raises, the model returns a `None`/`Failure` value. This covers:
- `max([])` on an empty horizon;
- a zero `DAILY_CAP` in the lead-time loop (see `LeadTime.SliderWindow` under "## Left out" for the one case in which the code does not raise);
- a pivot over a duplicated (day, LG) pair;
- `float()` of several matches;
- `.loc` on a missing key.

## Where the code departs from its evident intent

The model follows `app.py` as written in each of these cases:

- `lg_sel` (`app.py:109`) filters days `1..hi` and ignores the slider's lower bound, while the line above it, `cg_sel` (`app.py:108`), uses `lo..hi`. `Kpis.LgSelIgnoresLowerBound` states the difference.
- FPS stock on hand (`app.py:228`) and the shop projection (`app.py:178`) read snapshots dated exactly `end_day`, so a shop without a snapshot that day reads zero. LG stock on hand (`app.py:227`) reads the forward-filled timeline of `app.py:71-75` and so gets the latest value at or before `end_day`. It fails when `end_day` is not a row of the timeline.
- `days_rem` (`app.py:236`) is guarded only against a zero `DAILY_CAP`. A negative remainder or a negative capacity passes straight into `math.ceil`.
- `sel_days` (`app.py:221`) counts from `max(lo, 1)`, so the averages of `app.py:222` divide a `cg_sel` that includes pre-dispatch days by a day count that leaves them out.

## Model

| member | source | states |
|---|---|---|
| `LeadTime.Advance` | app.py:47-48 | a day's advance is non-negative, lets that day's cumulative need fit in the capacity of d + advance days, and when positive is the least such value |
| `LeadTime.CumNeedIsWindowSum` | app.py:41-46 | the running `cum_need` after day d is the CG to LG tonnage of the records dated 1..d |
| `LeadTime.NoDispatchNoNeed` | app.py:45 | `daily_total_cg.get(d, 0)` adds nothing on a day without dispatches |
| `LeadTime.Max` | app.py:49 | `max(adv)` is an element of the list and bounds every element |
| `LeadTime.MaxAdvanceFeasible` | app.py:44-49 | a lead at least every day's advance covers every day of the horizon |
| `LeadTime.BelowAdvanceInfeasible` | app.py:44-49 | a lead below some day's advance leaves that day uncovered |
| `LeadTime.MaxAdvanceIsLeastLead` | app.py:49 | the largest advance is the least feasible lead |
| `LeadTime.ComputeLead` | app.py:41-49 | the loop's X is the least non-negative lead under which the cumulative need of every day 1..DAYS fits in DAILY_CAP × (d + X) |
| `LeadTime.SliderWindow` | app.py:34-51 | MAX_DAY = DAYS and MIN_DAY = 1 − X with X the least feasible lead; the window always contains day 1; an empty horizon and a zero DAILY_CAP are the two failures |
| `Records.Ceil` | app.py:48 | `math.ceil`: the least integer at or above its argument |
| `Folds.SortedDays` | app.py:54-61 | the group-by index: strictly ascending and holding exactly the days present |
| `Folds.IncreasingUnique` | app.py:54-61 | two ascending day indexes with the same days are equal, so any group-by index over the same days is the same list |
| `Folds.GroupedTotal` | app.py:54-61 | when every record's key has a row, the rows a filter keeps total exactly the records it keeps |
| `Folds.SelectSplit` | app.py:233-235 | a filter and its complement split the total |
| `Folds.SelectAtMostTotal` | app.py:233-234 | with no negative tonnage a filtered total lies between zero and the total |
| `Folds.WindowGrow` | app.py:108-109 | widening a day window by its last day adds that day's group sum |
| `Folds.GetKeyed` | app.py:45 | `series.get(k, default)` on unique keys returns that key's row |
| `Folds.GetMissing` | app.py:45 | `series.get(k, default)` on a missing key returns the default |
| `Aggregates.DailyTotals` | app.py:54-61 | one row per day with records, days ascending, each holding that day's group sum |
| `Aggregates.DailyTotalsWindow` | app.py:54-61 | any day window of the daily totals sums to that window of the raw records |
| `Aggregates.DailyTotalsLossFree` | app.py:54-61 | the daily totals add up to every record's tonnage |
| `Aggregates.DailyTotalsGet` | app.py:41-45 | `.get(d, 0)` on the daily totals is day d's record sum, zero without records |
| `Aggregates.TotalPlan` | app.py:85 | `total_plan` is every LG to FPS ton |
| `Aggregates.VehiclesOn` | app.py:64-66 | the vehicles of day d are exactly the vehicle ids of that day's records |
| `Aggregates.TripsUsedAtMostRecords` | app.py:64-66 | a day never counts more vehicles than it has records |
| `Aggregates.RepeatVehicleCountsOnce` | app.py:64-66 | one more record raises a day's count by one exactly when its vehicle is new that day |
| `Aggregates.VehicleUsage` | app.py:64-68 | one row per day with records, days ascending, with `nunique` vehicles (at least one, at most the day's records) and MAX_TRIPS beside it |
| `Aggregates.MergeOne` | app.py:78-81 | one snapshot's inner-merge rows are exactly its pairings with registry entries of the same id |
| `Aggregates.FpsStock` | app.py:78-82 | every row comes from an FPS snapshot joined to a registry entry of its shop, every such pair yields a row, and `At_Risk` holds exactly when stock ≤ threshold |
| `StockTimeline.LgSnapshots` | app.py:72 | exactly the LG snapshots are kept, each as many times as it occurs, and nothing else |
| `StockTimeline.UniqueCellsIffDistinct` | app.py:73 | the LG snapshots have one snapshot per (LG, day) exactly when no two input snapshots are LG snapshots of the same godown and day |
| `StockTimeline.LevelAt` | app.py:73 | a pivot cell is empty exactly when no snapshot has that (LG, day), otherwise it holds such a snapshot's level |
| `StockTimeline.LevelAtUnique` | app.py:73 | with one snapshot per (LG, day) the cell holds that snapshot's level |
| `StockTimeline.FFillPrefix` | app.py:74 | forward fill never reads a later row |
| `StockTimeline.FFillStep` | app.py:74 | a filled cell is its own value if present, otherwise the filled cell above |
| `StockTimeline.FFillLatest` | app.py:74 | a filled cell holds the nearest value at or above it |
| `StockTimeline.FFillBeforeFirst` | app.py:74 | cells above a column's first value stay empty |
| `StockTimeline.FFillIdempotent` | app.py:74 | filling twice equals filling once |
| `StockTimeline.LgStock` | app.py:71-75 | fails exactly when two input snapshots are LG snapshots of the same godown and day; otherwise the days are ascending and are exactly the LG snapshot days, the columns are exactly the LG ids, and every column has one cell per day (cell contents: the two lemmas below) |
| `StockTimeline.LgStockIsLatestSnapshot` | app.py:71-75 | every cell is its LG's latest snapshot at or before the row's day |
| `StockTimeline.LgStockBeforeFirstSnapshot` | app.py:71-75 | rows before an LG's first snapshot are empty for it |
| `FpsReport.InWindow` | app.py:147 | the windowed records are exactly the records dated 1..hi |
| `FpsReport.VehiclesOf` | app.py:152-153 | a shop's vehicle column holds exactly its records' vehicle ids |
| `FpsReport.Groups` | app.py:148-155 | one group per shop with a record, ids ascending, each the aggregate of that shop's records |
| `FpsReport.MergeGroup` | app.py:156 | a left merge gives a group one row per registry entry of its shop, the k-th carrying the k-th registered name, or a single row without a name when the shop is unregistered; every row carries the group's aggregates |
| `FpsReport.MergeGroupNames` | app.py:156 | a merged row's name is registered for the shop, or absent exactly when the shop is unregistered |
| `FpsReport.UniqueNames` | app.py:156 | a keyed registry holds at most one name per shop |
| `FpsReport.MergeGroupUnique` | app.py:156 | with a keyed registry a group yields exactly one row |
| `FpsReport.LeftMergeUnique` | app.py:156 | with a keyed registry the left merge keeps one row per group, in order |
| `FpsReport.LeftMergeFrom` | app.py:156 | every merged row comes from one group |
| `FpsReport.LeftMergeHas` | app.py:156 | every row of a group's merge is in the left merge |
| `FpsReport.InsertDescending` | app.py:157 | inserting into a descending list keeps it descending |
| `FpsReport.SortDesc` | app.py:157 | the sort is descending by total and a permutation of its input |
| `FpsReport.Report` | app.py:147-158 | the report is descending by total and a permutation of the left-merged groups of the windowed records |
| `FpsReport.ReportRows` | app.py:147-158 | every row is a shop with a record dated 1..hi, its total is that shop's tonnage over 1..hi, and its name fits the registry |
| `FpsReport.ReportCovers` | app.py:147-158 | every shop with a record dated 1..hi has a row |
| `FpsReport.GroupVehicles` | app.py:152-153 | the vehicle list splits back into the distinct vehicles, ascending, as many as the trip count |
| `FpsReport.ReportVehicles` | app.py:147-158 | each row's vehicle list splits into the shop's distinct vehicles over 1..hi, ascending, as many as its trip count |
| `FpsReport.WindowVehicles` | app.py:147-153 | the sorted distinct vehicles of the window are the shop's vehicles over 1..hi |
| `FpsReport.GroupsTons` | app.py:149-151 | the groups lose no tonnage |
| `FpsReport.SortDescTons` | app.py:157 | sorting keeps the total tonnage |
| `FpsReport.WindowTotal` | app.py:147 | the windowed records total what days 1..hi of the log total |
| `FpsReport.ReportTotal` | app.py:147-158 | with a keyed registry the report's totals add up to the LG to FPS tons of days 1..hi |
| `Text.LessIrreflexive` | app.py:153 | Python's `<` on str is irreflexive |
| `Text.LessTransitive` | app.py:153 | Python's `<` on str is transitive |
| `Text.LessTotal` | app.py:153 | Python's `<` on str is total on distinct strings |
| `Text.InsertAscending` | app.py:153 | inserting into an ascending list keeps it ascending |
| `Text.SortedUnique` | app.py:153 | `sorted(set(vs))` is strictly ascending and holds exactly the elements of vs |
| `Text.AscendingUnique` | app.py:153 | an ascending list is determined by its elements, so any sort of the set gives the same list |
| `Text.AscendingCard` | app.py:152-153 | `nunique` equals the length of the sorted distinct list |
| `Text.SplitJoin` | app.py:153 | splitting the joined list on the separator gives the list back when no piece contains it |
| `ShopProjection.EndDay` | app.py:175 | `end_day` is the smaller of the slider's upper bound and DAYS |
| `ShopProjection.StockMatches` | app.py:178 | one level per joined row of the shop dated `end_day` (as many as there are such rows), each a level of such a row, and every such row's level present |
| `ShopProjection.StockNow` | app.py:178-179 | fails (the shop's id) exactly when more than one row matches; otherwise its value equals the level of every matching row, and is 0.0 when none matches |
| `ShopProjection.StockMatchesAppend` | app.py:178 | the matches of concatenated rows concatenate |
| `ShopProjection.StockMatchesAtMostOne` | app.py:78-82 | with a keyed registry and one FPS snapshot per (shop, day), a shop has at most one joined row per day |
| `ShopProjection.MatchHasSnapshot` | app.py:178 | a matched row comes from an FPS snapshot of that shop and day |
| `ShopProjection.StockOnDay` | app.py:178-179 | under those uniqueness conditions the stock read is the snapshot's level |
| `ShopProjection.StockAbsent` | app.py:178-179 | a shop without a snapshot that day, or not registered, reads 0.0 |
| `ShopProjection.NextReceipt` | app.py:180-181 | none exactly when no record of the shop is dated after `end_day`, otherwise the least such day |
| `ShopProjection.DaysToReceipt` | app.py:182 | corrected: none exactly without a next receipt, otherwise next = end + days |
| `ShopProjection.DaysToReceiptAsWritten` | app.py:182 | as written: none also when the next receipt falls on day 0 |
| `ShopProjection.AsWrittenAgrees` | app.py:182 | the two agree whenever `end_day` ≥ 0 |
| `ShopProjection.AsWrittenDropsDayZero` | app.py:182 | a concrete input on which the code as written loses a receipt |
| `ShopProjection.DaysToReceiptPositive` | app.py:180-182 | the days to a next receipt are positive |
| `Records.NamesOf` | app.py:185 | the name lookup finds a name exactly when some registry row carries the id and that name |
| `Records.NamesOfCount` | app.py:185 | the lookup returns one name per registry row carrying the id, repeats included |
| `ShopProjection.ProjectShops` | app.py:175-189 | succeeds exactly when every registered shop's stock lookup succeeds; then one row per registry entry in order, each the shop's stock, next receipt and (corrected) days to it; otherwise fails with the first failing shop's id |
| `Kpis.CgSel` | app.py:108 | `cg_sel` is the CG to LG tonnage of days lo..hi |
| `Kpis.LgSel` | app.py:109 | `lg_sel` is the LG to FPS tonnage of days 1..hi |
| `Kpis.LgSelIgnoresLowerBound` | app.py:108-109 | the lo..hi window of LG to FPS tonnage is `lg_sel` plus the days lo..0 that `lg_sel` leaves out |
| `Kpis.WindowSplit` | app.py:108-109 | a window lo..hi around day 1 splits into 1..hi and lo..0 |
| `Kpis.ReportAddsUpToLgSel` | app.py:109 | with a keyed registry the FPS report's totals add up to `lg_sel` |
| `Kpis.SelDays` | app.py:221 | `sel_days` is positive exactly when the window reaches a day ≥ 1, and then counts its days from max(lo, 1) |
| `Kpis.AvgDaily` | app.py:222-223 | the average times `sel_days` is the total, and zero when `sel_days` ≤ 0 |
| `Kpis.WindowTrips` | app.py:224 | one trip count per usage row dated 1..hi, and the counts are exactly those of such rows |
| `Kpis.WindowDays` | app.py:224 | the days of the usage table within 1..hi: ascending, and exactly the days 1..hi with an LG to FPS record |
| `Kpis.Mean` | app.py:224 | undefined exactly on an empty column, otherwise mean × count = sum |
| `Kpis.MeanBounds` | app.py:224 | the mean of values in [lo, hi] lies in [lo, hi] |
| `Kpis.AvgTripsMeaning` | app.py:224 | `avg_trips` is defined exactly when a record falls in days 1..hi, and is then at least one vehicle a day |
| `Kpis.AvgTripsValue` | app.py:224 | the windowed `Trips_Used` column is, day by ascending day over 1..hi, the number of distinct vehicles of that day's records, and `avg_trips` is its mean |
| `Kpis.PctFleet` | app.py:225 | zero when MAX_TRIPS is zero; otherwise undefined exactly when the average is, and pct × MAX_TRIPS = avg × 100 |
| `Kpis.PctFleetAtMostFull` | app.py:224-225 | when no day uses more than MAX_TRIPS vehicles, utilisation is at most 100 |
| `Kpis.LgOnHand` | app.py:227 | fails exactly when `end_day` is not a row or a selected LG is not a column |
| `Kpis.Latest` | app.py:227 | none exactly when all of the LG's snapshots are later, otherwise its latest snapshot at or before the day |
| `Kpis.CellIsLatest` | app.py:227 | a cell of the timeline reads as its LG's latest tons at the row's day |
| `Kpis.RowSumIsLatest` | app.py:227 | a row's sum over the selected LGs is the sum of their latest tons |
| `Kpis.LgOnHandIsLatestStock` | app.py:227 | `lg_onhand` is the sum over selected LGs of each one's latest snapshot at or before `end_day`, zero before its first |
| `Kpis.CapacityIsRegistryRows` | app.py:229 | with distinct selected LGs, summing each selected LG's registered capacity equals summing the capacity of every registry row whose id is selected |
| `Kpis.LgCapsIsSelectedRows` | app.py:229 | with distinct selected LGs, `lg_caps` is defined exactly when every selected LG has a registry row, and is then the capacity of the registry rows whose id is selected |
| `Kpis.PctLgFilled` | app.py:230 | undefined exactly when a lookup failed; zero on zero capacity; otherwise pct × caps = onHand × 100 |
| `Kpis.PctLgFilledBounds` | app.py:230 | stock within capacity fills between 0 and 100 percent |
| `Kpis.FpsOnHandAppend` | app.py:228 | on-hand stock over concatenated rows adds up |
| `Kpis.MergeOneOnHand` | app.py:78-81 | one snapshot contributes its level once per registry row of its shop, on `end_day` only |
| `Kpis.FpsOnHandIsShopStock` | app.py:228 | `fps_onhand` adds each FPS snapshot dated `end_day` once for every registry row of its shop |
| `Kpis.SnapshotAddsKeyed` | app.py:228 | with a keyed registry, an `end_day` snapshot of a registered shop adds its level once and an unregistered one adds nothing |
| `Kpis.RiskShopsMeaning` | app.py:232 | a shop counts as at risk exactly when it is registered and one of its `end_day` snapshots is at or below its threshold |
| `Kpis.ZeroShopsMeaning` | app.py:231 | a shop counts as out of stock exactly when it is registered and one of its `end_day` snapshots reads zero |
| `Kpis.ZeroWithinRisk` | app.py:231-232 | with non-negative thresholds every empty shop is at risk, so `fps_zero` ≤ `fps_risk` |
| `Kpis.DispatchedCum` | app.py:233 | `dispatched_cum` is the LG to FPS tonnage dated up to `end_day` |
| `Kpis.PctPlan` | app.py:234 | zero for an empty plan, otherwise pct × plan = dispatched × 100 |
| `Kpis.PctPlanBounds` | app.py:233-234 | with no negative tonnage plan completion lies between 0 and 100 |
| `Kpis.Remaining` | app.py:235 | `remaining_t` is exactly the tonnage dated after `end_day` |
| `Kpis.DaysRemaining` | app.py:236 | none exactly when DAILY_CAP is zero; with positive capacity the least whole number of days whose capacity covers the remainder |
| `Kpis.NothingRemainsAfterLastDay` | app.py:235-236 | past the last dispatch day nothing remains and zero days remain |

## Left out

- Streamlit layout, widgets, plots, Excel and PDF exports, number formatting and workbook loading are I/O and are not modelled. The workbook's tables are parameters.
- Floating point: tons are exact reals, so rounding in `sum`, `/` and `math.ceil` is not modelled.
- The at-risk list of the FPS At-Risk tab (`app.py:166`) is a display filter and is not modelled. The at-risk flag it reads is modelled in `Aggregates.FpsStock`.
- The LG checkboxes (`app.py:101-105`) are UI. The selected LGs are a parameter of the KPIs.
- `StockTimeline.LgStock`: the column order of the pivot is not modelled. Columns are a `map` from LG id.
- `FpsReport.SortDesc`: the order of rows with equal totals is not modelled. pandas' default sort is not stable; the model states only "descending and a permutation".
- `Text.Less`: vehicle ids are modelled as strings. A numeric `Vehicle_ID` column would be sorted as numbers by `sorted(set(vs))`, before `str` is applied.
- `LeadTime.SliderWindow` returns `ZeroCapacity` whenever DAILY_CAP is 0. The code raises there in all but one case: when day 1 has records (so `cum_need` is already a numpy value) and the cumulative need stays 0 over the whole horizon, numpy divides 0 by 0 into `nan`, `nan > 0` is false, and X comes out 0. With a positive need numpy gives `inf` and `math.ceil` raises; with no record on day 1 Python's own division raises.
- `LeadTime.SliderWindow` requires a non-negative DAILY_CAP. With a negative capacity the loop's division flips every inequality, and no least lead exists to state.
- `ShopProjection.ProjectShops`: its rows report the corrected days-to-receipt (`ShopProjection.DaysToReceipt`), not the code as written. The two agree whenever `end_day` ≥ 0 (`ShopProjection.AsWrittenAgrees`). They differ only when the next receipt is on day 0 (`ShopProjection.AsWrittenDropsDayZero`).
- `ShopProjection.ProjectShops` takes `fps_stock` as a parameter rather than rebuilding it. `Aggregates.FpsStock` builds it.
- `FpsReport.ReportTotal` and `ShopProjection.StockOnDay` require a registry keyed by shop id. With repeated ids the merge repeats rows, and both lemmas would then be false as stated. `Kpis.FpsOnHandIsShopStock` covers the repeated case for stock on hand.
- `Kpis.LgOnHand` requires a rectangular table, which every table built by `StockTimeline.LgStock` is (`Kpis.TableRectangular`).
- `StockTimeline.LgStockIsLatestSnapshot`: this and the other timeline lemmas are stated on `Table` of the LG snapshots, which `LgStock` returns when it succeeds.
- `Kpis.FpsOnHandIsShopStock`: a shop listed twice in the registry contributes its level twice, as the inner merge does. The lemma states this count; it does not state that each shop counts once.
- `Kpis.WindowTrips`: on an arbitrary usage table only the count and the values of the windowed column are stated, not their order. On the dashboard's own table `Kpis.AvgTripsValue` pins the column entry by entry.

## Findings

| source | as written | input that shows it | evidently intended | confidence | as-written member | corrected member |
|---|---|---|---|---|---|---|
| app.py:182 | `days_to = (next_day - end_day) if next_day else None` tests the day's truth value, so a next receipt on day 0 reads as "no receipt" | `dispatch_lg = [(day 0, LG1, FPS1, V1, 5 t)]`, slider upper bound −1 (reachable once X ≥ 2): `next_day = 0`, `days_to = None` instead of 1 | `None` only when there is no next receipt (`next_day is None`) | not executed | `ShopProjection.DaysToReceiptAsWritten`, `ShopProjection.AsWrittenDropsDayZero` | `ShopProjection.DaysToReceipt` |
