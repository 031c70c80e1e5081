/** The base views the dashboard derives once per load (app.py lines 54-85): daily dispatch
    totals, distinct vehicles per day, FPS stock joined to the registry with the at-risk
    flag, and the total plan volume. */
module Aggregates {
  import opened Records
  import opened Folds

  function CgEntries(cg: seq<CgDispatch>): (es: seq<Entry<int>>)
    ensures |es| == |cg|
    ensures forall i :: 0 <= i < |cg| ==> es[i] == Entry(cg[i].day, cg[i].tons)
  {
    seq(|cg|, i requires 0 <= i < |cg| => Entry(cg[i].day, cg[i].tons))
  }

  function LgEntries(lg: seq<LgDispatch>): (es: seq<Entry<int>>)
    ensures |es| == |lg|
    ensures forall i :: 0 <= i < |lg| ==> es[i] == Entry(lg[i].day, lg[i].tons)
  {
    seq(|lg|, i requires 0 <= i < |lg| => Entry(lg[i].day, lg[i].tons))
  }

  /** `groupby(day)[tons].sum().reset_index()`: one row per day that has a record, in
      ascending day order, holding that day's total. */
  function DailyTotals(es: seq<Entry<int>>): (rows: seq<Entry<int>>)
    ensures Increasing(Keys(rows))
    ensures forall d :: d in Keys(rows) <==> d in Keys(es)
    ensures forall i :: 0 <= i < |rows| ==> rows[i].tons == SumOn(es, rows[i].key)
  {
    var days := SortedDays(Keys(es));
    var rows := GroupRows(days, es);
    assert Keys(rows) == days;
    rows
  }

  /** Any day window of the daily totals sums to the same tonnage as that window of the raw
      records: the group-by partitions the records. */
  lemma DailyTotalsWindow(es: seq<Entry<int>>, p: int -> bool)
    ensures Total(Select(DailyTotals(es), p)) == Total(Select(es, p))
  {
    var days := SortedDays(Keys(es));
    IncreasingNoDup(days);
    forall i | 0 <= i < |es| ensures es[i].key in days {
      assert es[i].key == Keys(es)[i];
    }
    GroupedTotal(days, es, p);
  }

  /** The daily totals lose nothing: they add up to every record's tonnage. */
  lemma DailyTotalsLossFree(es: seq<Entry<int>>)
    ensures Total(DailyTotals(es)) == Total(es)
  {
    DailyTotalsWindow(es, Always());
    SelectAlways(es);
    SelectAlways(DailyTotals(es));
  }

  /** `series.get(d, 0)` on the daily totals is that day's group sum, zero for a day without
      records. */
  lemma DailyTotalsGet(es: seq<Entry<int>>, d: int)
    ensures Get(DailyTotals(es), d, 0.0) == SumOn(es, d)
  {
    var rows := DailyTotals(es);
    IncreasingNoDup(Keys(rows));
    if d in Keys(rows) {
      var i :| 0 <= i < |rows| && Keys(rows)[i] == d;
      GetKeyed(rows, d, 0.0, i);
    } else {
      forall i | 0 <= i < |es| ensures es[i].key != d {
        assert es[i].key == Keys(es)[i];
      }
      SumOnAbsent(es, d);
      forall i | 0 <= i < |rows| ensures rows[i].key != d {
        assert rows[i].key == Keys(rows)[i];
      }
      GetMissing(rows, d, 0.0);
    }
  }

  /** `day_totals_cg` */
  function DayTotalsCg(cg: seq<CgDispatch>): seq<Entry<int>> {
    DailyTotals(CgEntries(cg))
  }

  /** `day_totals_lg` */
  function DayTotalsLg(lg: seq<LgDispatch>): seq<Entry<int>> {
    DailyTotals(LgEntries(lg))
  }

  /** `total_plan`: the sum of the LG to FPS daily totals, which is every LG to FPS ton. */
  function TotalPlan(lg: seq<LgDispatch>): (r: real)
    ensures r == Total(LgEntries(lg))
  {
    DailyTotalsLossFree(LgEntries(lg));
    Total(DayTotalsLg(lg))
  }

  // ---------------------------------------------------------------- vehicle utilisation

  /** The distinct vehicle ids among the LG to FPS records of day d. */
  function VehiclesOn(lg: seq<LgDispatch>, d: int): (vs: set<string>)
    ensures forall v :: v in vs <==> exists i :: 0 <= i < |lg| && lg[i].day == d && lg[i].vehicleId == v
  {
    if lg == [] then {}
    else
      var n := |lg|;
      VehiclesOn(lg[..n - 1], d) + (if lg[n - 1].day == d then {lg[n - 1].vehicleId} else {})
  }

  /** Number of LG to FPS records of day d. */
  function CountOn(lg: seq<LgDispatch>, d: int): nat {
    if lg == [] then 0
    else CountOn(lg[..|lg| - 1], d) + (if lg[|lg| - 1].day == d then 1 else 0)
  }

  /** A day never uses more vehicles than it has trip records. */
  lemma {:induction false} TripsUsedAtMostRecords(lg: seq<LgDispatch>, d: int)
    ensures |VehiclesOn(lg, d)| <= CountOn(lg, d)
  {
    if lg != [] {
      TripsUsedAtMostRecords(lg[..|lg| - 1], d);
    }
  }

  /** One more record raises the day's vehicle count by one exactly when its vehicle is new
      that day: a vehicle making several trips counts once. */
  lemma {:induction false} RepeatVehicleCountsOnce(lg: seq<LgDispatch>, x: LgDispatch)
    ensures |VehiclesOn(lg + [x], x.day)|
         == |VehiclesOn(lg, x.day)| + (if x.vehicleId in VehiclesOn(lg, x.day) then 0 else 1)
  {
    var before := VehiclesOn(lg, x.day);
    assert (lg + [x])[..|lg|] == lg;
    assert VehiclesOn(lg + [x], x.day) == before + {x.vehicleId};
    if x.vehicleId in before {
      assert before + {x.vehicleId} == before;
    } else {
      assert |before + {x.vehicleId}| == |before| + 1;
    }
  }

  /** A row of `veh_usage`. */
  datatype UsageRow = UsageRow(day: int, tripsUsed: nat, maxTrips: int)

  function UsageDays(rows: seq<UsageRow>): (ds: seq<int>)
    ensures |ds| == |rows| && forall i :: 0 <= i < |rows| ==> ds[i] == rows[i].day
  {
    seq(|rows|, i requires 0 <= i < |rows| => rows[i].day)
  }

  /** `veh_usage`: per day with LG to FPS records, in ascending order, the number of distinct
      vehicles used (`nunique`) beside the configured MAX_TRIPS. */
  function VehicleUsage(lg: seq<LgDispatch>, maxTrips: int): (rows: seq<UsageRow>)
    ensures Increasing(UsageDays(rows))
    ensures forall d :: d in UsageDays(rows) <==> exists i :: 0 <= i < |lg| && lg[i].day == d
    ensures forall i :: 0 <= i < |rows| ==>
      rows[i].tripsUsed == |VehiclesOn(lg, rows[i].day)| && rows[i].maxTrips == maxTrips
    ensures forall i :: 0 <= i < |rows| ==> 1 <= rows[i].tripsUsed <= CountOn(lg, rows[i].day)
  {
    var days := SortedDays(Keys(LgEntries(lg)));
    var rows := seq(|days|, i requires 0 <= i < |days| => UsageRow(days[i], |VehiclesOn(lg, days[i])|, maxTrips));
    assert UsageDays(rows) == days;
    assert forall i :: 0 <= i < |lg| ==> Keys(LgEntries(lg))[i] == lg[i].day;
    forall i | 0 <= i < |rows| ensures 1 <= rows[i].tripsUsed <= CountOn(lg, rows[i].day) {
      TripsUsedAtMostRecords(lg, days[i]);
      assert days[i] in Keys(LgEntries(lg));
      var k :| 0 <= k < |lg| && Keys(LgEntries(lg))[k] == days[i];
      assert lg[k].vehicleId in VehiclesOn(lg, days[i]);
    }
    rows
  }

  // ---------------------------------------------------------------- FPS stock and at-risk flag

  /** A row of `fps_stock` after the merge with the registry and the `At_Risk` column. */
  datatype FpsStockRow = FpsStockRow(day: int, fpsId: string, level: real, threshold: real, atRisk: bool)

  function JoinedRow(s: Snapshot, f: Fps): FpsStockRow {
    FpsStockRow(s.day, s.entityId, s.level, f.threshold, s.level <= f.threshold)
  }

  /** The rows one FPS snapshot contributes to the inner merge: one per registry entry with
      its id, in registry order. */
  function MergeOne(s: Snapshot, registry: seq<Fps>): (rows: seq<FpsStockRow>)
    ensures forall r :: r in rows <==> exists j :: 0 <= j < |registry| && registry[j].id == s.entityId && r == JoinedRow(s, registry[j])
  {
    if registry == [] then []
    else
      var rest := MergeOne(s, registry[1..]);
      assert forall j :: 1 <= j < |registry| ==> registry[j] == registry[1..][j - 1];
      (if registry[0].id == s.entityId then [JoinedRow(s, registry[0])] else []) + rest
  }

  predicate Joins(s: Snapshot, f: Fps) {
    s.entityType == FPS && s.entityId == f.id
  }

  /** `fps_stock`: FPS snapshots inner-merged with the registry on the shop id, each row
      flagged at risk exactly when its stock is at or below the reorder threshold. Every row
      comes from an FPS snapshot of a registered shop, and every such pair yields a row. */
  function FpsStock(snaps: seq<Snapshot>, registry: seq<Fps>): (rows: seq<FpsStockRow>)
    ensures forall r :: r in rows ==> (r.atRisk <==> r.level <= r.threshold)
    ensures forall r :: r in rows ==>
      exists i, j :: 0 <= i < |snaps| && 0 <= j < |registry| && Joins(snaps[i], registry[j]) && r == JoinedRow(snaps[i], registry[j])
    ensures forall i, j :: 0 <= i < |snaps| && 0 <= j < |registry| && Joins(snaps[i], registry[j]) ==>
      JoinedRow(snaps[i], registry[j]) in rows
  {
    if snaps == [] then []
    else
      var n := |snaps|;
      var front := FpsStock(snaps[..n - 1], registry);
      var s := snaps[n - 1];
      var more := if s.entityType == FPS then MergeOne(s, registry) else [];
      assert forall i :: 0 <= i < n - 1 ==> snaps[..n - 1][i] == snaps[i];
      front + more
  }
}
