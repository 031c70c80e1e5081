/** The key performance indicators (app.py lines 108-109 and 221-236): windowed dispatch
    sums, daily averages, fleet utilisation, stock on hand, capacity filled, stock-outs,
    shops at risk, plan completion and days remaining, each with the divide-by-zero guard
    the dashboard applies. */
module Kpis {
  import opened Records
  import opened Folds
  import opened Aggregates
  import opened StockTimeline
  import FpsReport
  import ShopProjection

  // ---------------------------------------------------------------- windowed sums

  /** `cg_sel`: the CG to LG daily totals of the slider window lo..hi. */
  function CgSel(cg: seq<CgDispatch>, lo: int, hi: int): (r: real)
    ensures r == Total(Select(CgEntries(cg), Between(lo, hi)))
  {
    DailyTotalsWindow(CgEntries(cg), Between(lo, hi));
    Total(Select(DayTotalsCg(cg), Between(lo, hi)))
  }

  /** `lg_sel`: the LG to FPS daily totals of days 1..hi; the slider's lower bound is not
      used. */
  function LgSel(lg: seq<LgDispatch>, hi: int): (r: real)
    ensures r == Total(Select(LgEntries(lg), Between(1, hi)))
  {
    DailyTotalsWindow(LgEntries(lg), Between(1, hi));
    Total(Select(DayTotalsLg(lg), Between(1, hi)))
  }

  /** Pre-dispatch days before day 1 count towards `cg_sel` but never towards `lg_sel`:
      moving the slider's lower bound changes only the former. */
  lemma LgSelIgnoresLowerBound(lg: seq<LgDispatch>, hi: int, lo: int)
    requires lo <= 1 <= hi
    ensures LgSel(lg, hi) == Total(Select(LgEntries(lg), Between(1, hi)))
    ensures Total(Select(LgEntries(lg), Between(lo, hi)))
         == LgSel(lg, hi) + Total(Select(LgEntries(lg), Between(lo, 0)))
  {
    WindowSplit(LgEntries(lg), lo, hi);
  }

  lemma {:induction false} WindowSplit(es: seq<Entry<int>>, lo: int, hi: int)
    requires lo <= 1 <= hi
    ensures Total(Select(es, Between(lo, hi))) == Total(Select(es, Between(1, hi))) + Total(Select(es, Between(lo, 0)))
  {
    if es != [] {
      WindowSplit(es[..|es| - 1], lo, hi);
      SelectStep(es, Between(lo, hi));
      SelectStep(es, Between(1, hi));
      SelectStep(es, Between(lo, 0));
    }
  }

  /** The FPS report's totals add up to `lg_sel` when the registry is keyed by shop id. */
  lemma ReportAddsUpToLgSel(lg: seq<LgDispatch>, registry: seq<Fps>, hi: int)
    requires UniqueFpsIds(registry)
    ensures FpsReport.ReportTons(FpsReport.Report(lg, registry, hi)) == LgSel(lg, hi)
  {
    FpsReport.ReportTotal(lg, registry, hi);
  }

  // ---------------------------------------------------------------- daily averages

  /** `sel_days`: the number of days of the window lo..hi from day 1 on; pre-dispatch days
      are not counted. */
  function SelDays(lo: int, hi: int): (n: int)
    ensures n > 0 <==> 1 <= hi && lo <= hi
    ensures n > 0 && lo >= 1 ==> n == hi - lo + 1
    ensures n > 0 && lo < 1 ==> n == hi
  {
    hi - (if lo >= 1 then lo else 1) + 1
  }

  /** `avg_daily_cg` and `avg_daily_lg`: a tonnage spread over sel_days, zero when the
      window has no day from 1 on. */
  function AvgDaily(total: real, selDays: int): (r: real)
    ensures selDays <= 0 ==> r == 0.0
    ensures selDays > 0 ==> r * selDays as real == total
  {
    if selDays > 0 then total / selDays as real else 0.0
  }

  // ---------------------------------------------------------------- plan progress

  /** `dispatched_cum`: the LG to FPS daily totals up to end_day. */
  function DispatchedCum(lg: seq<LgDispatch>, end: int): (r: real)
    ensures r == Total(Select(LgEntries(lg), AtMost(end)))
  {
    DailyTotalsWindow(LgEntries(lg), AtMost(end));
    Total(Select(DayTotalsLg(lg), AtMost(end)))
  }

  /** `pct_plan`: the share of the plan dispatched by end_day, zero for an empty plan. */
  function PctPlan(dispatched: real, total: real): (r: real)
    ensures total == 0.0 ==> r == 0.0
    ensures total != 0.0 ==> r * total == dispatched * 100.0
  {
    if total != 0.0 then dispatched / total * 100.0 else 0.0
  }

  /** With no negative tonnage the plan is between 0 and 100 percent complete. */
  lemma PctPlanBounds(lg: seq<LgDispatch>, end: int)
    requires forall i :: 0 <= i < |lg| ==> lg[i].tons >= 0.0
    ensures 0.0 <= PctPlan(DispatchedCum(lg, end), TotalPlan(lg)) <= 100.0
  {
    var es := LgEntries(lg);
    assert NonNegative(es);
    SelectAtMostTotal(es, AtMost(end));
    var d, t := DispatchedCum(lg, end), TotalPlan(lg);
    if t != 0.0 {
      assert 0.0 <= d <= t;
      DivBounds(d, t);
    }
  }

  lemma DivBounds(d: real, t: real)
    requires 0.0 <= d <= t && t != 0.0
    ensures 0.0 <= d / t * 100.0 <= 100.0
  {
    var q := d / t;
    assert q * t == d;
    assert q > 1.0 ==> q * t > t;
    assert q < 0.0 ==> q * t < 0.0;
  }

  /** `remaining_t`: what the plan still has to dispatch after end_day is exactly the
      tonnage dated after end_day. */
  function Remaining(lg: seq<LgDispatch>, end: int): (r: real)
    ensures r == Total(Select(LgEntries(lg), Not(AtMost(end))))
  {
    SelectSplit(LgEntries(lg), AtMost(end));
    TotalPlan(lg) - DispatchedCum(lg, end)
  }

  /** `days_rem`: the whole days of full fleet capacity that cover the remaining tonnage,
      none without capacity. A negative DAILY_CAP is not guarded against and is divided by
      as written. */
  function DaysRemaining(remaining: real, dailyCap: real): (r: Option<int>)
    ensures r.None? <==> dailyCap == 0.0
    ensures dailyCap > 0.0 ==>
      (r.Some? && remaining <= dailyCap * r.value as real && dailyCap * (r.value - 1) as real < remaining)
  {
    if dailyCap == 0.0 then None
    else
      CeilCovers(remaining, dailyCap);
      Some(Ceil(remaining / dailyCap))
  }

  lemma CeilCovers(remaining: real, dailyCap: real)
    requires dailyCap != 0.0
    ensures dailyCap > 0.0 ==>
      && remaining <= dailyCap * Ceil(remaining / dailyCap) as real
      && dailyCap * (Ceil(remaining / dailyCap) - 1) as real < remaining
  {
    if dailyCap > 0.0 {
      var q := remaining / dailyCap;
      var c := Ceil(q);
      assert dailyCap * q == remaining;
      ScaleCeil(dailyCap, q, c);
      assert dailyCap * (c - 1) as real < dailyCap * q;
      assert dailyCap * (c - 1) as real < remaining;
      assert c == Ceil(remaining / dailyCap);
    }
  }

  lemma ScaleCeil(cap: real, q: real, c: int)
    requires cap > 0.0 && c as real - 1.0 < q <= c as real
    ensures cap * (c - 1) as real < cap * q <= cap * c as real
  {
    assert cap * (c as real - q) >= 0.0;
    assert cap * (q - (c as real - 1.0)) > 0.0;
  }

  /** Nothing is left to dispatch after the last LG to FPS day, and with a positive capacity
      no day then remains. */
  lemma NothingRemainsAfterLastDay(lg: seq<LgDispatch>, end: int, dailyCap: real)
    requires forall i :: 0 <= i < |lg| ==> lg[i].day <= end
    requires dailyCap > 0.0
    ensures Remaining(lg, end) == 0.0
    ensures DaysRemaining(Remaining(lg, end), dailyCap) == Some(0)
  {
    SelectNothing(LgEntries(lg), Not(AtMost(end)));
  }

  // ---------------------------------------------------------------- fleet utilisation

  /** The positions of the usage rows dated 1..hi. */
  function WindowRows(rows: seq<UsageRow>, hi: int): set<int> {
    set i | 0 <= i < |rows| && 1 <= rows[i].day <= hi
  }

  lemma WindowRowsSnoc(rows: seq<UsageRow>, hi: int)
    requires rows != []
    ensures var n := |rows|;
      && WindowRows(rows, hi) == WindowRows(rows[..n - 1], hi) + (if 1 <= rows[n - 1].day <= hi then {n - 1} else {})
      && n - 1 !in WindowRows(rows[..n - 1], hi)
  {
  }

  /** `veh_usage.query("Day>=1 & Day<=hi")["Trips_Used"]`: one count per usage row dated
      1..hi. */
  function WindowTrips(rows: seq<UsageRow>, hi: int): (ts: seq<nat>)
    ensures |ts| == |WindowRows(rows, hi)|
    ensures forall t :: t in ts <==> exists i :: 0 <= i < |rows| && 1 <= rows[i].day <= hi && rows[i].tripsUsed == t
  {
    if rows == [] then []
    else
      var n := |rows|;
      var front := WindowTrips(rows[..n - 1], hi);
      assert forall i :: 0 <= i < n - 1 ==> rows[..n - 1][i] == rows[i];
      WindowRowsSnoc(rows, hi);
      if 1 <= rows[n - 1].day <= hi then
        CardAddNew(WindowRows(rows[..n - 1], hi), n - 1);
        front + [rows[n - 1].tripsUsed]
      else
        front
  }

  function SumNat(xs: seq<nat>): nat {
    if xs == [] then 0 else SumNat(xs[..|xs| - 1]) + xs[|xs| - 1]
  }

  /** Every element is at least lo, so the sum is at least |xs| * lo. */
  lemma {:induction false} SumNatAbove(xs: seq<nat>, lo: real)
    requires forall k :: 0 <= k < |xs| ==> lo <= xs[k] as real
    ensures |xs| as real * lo <= SumNat(xs) as real
  {
    if xs != [] {
      var n, front := |xs|, xs[..|xs| - 1];
      assert forall k :: 0 <= k < n - 1 ==> front[k] == xs[k];
      SumNatAbove(front, lo);
      assert SumNat(xs) as real == SumNat(front) as real + xs[n - 1] as real;
      ScaleStep(n as real, (n - 1) as real, lo);
    }
  }

  /** Every element is at most hi, so the sum is at most |xs| * hi. */
  lemma {:induction false} SumNatBelow(xs: seq<nat>, hi: real)
    requires forall k :: 0 <= k < |xs| ==> xs[k] as real <= hi
    ensures SumNat(xs) as real <= |xs| as real * hi
  {
    if xs != [] {
      var n, front := |xs|, xs[..|xs| - 1];
      assert forall k :: 0 <= k < n - 1 ==> front[k] == xs[k];
      SumNatBelow(front, hi);
      assert SumNat(xs) as real == SumNat(front) as real + xs[n - 1] as real;
      ScaleStep(n as real, (n - 1) as real, hi);
    }
  }

  lemma ScaleStep(n: real, m: real, c: real)
    requires n == m + 1.0
    ensures n * c == m * c + c
  {
  }

  /** pandas `mean`; an empty column gives NaN, here None. */
  function Mean(xs: seq<nat>): (r: Option<real>)
    ensures r.None? <==> xs == []
    ensures r.Some? ==> r.value * |xs| as real == SumNat(xs) as real
  {
    if xs == [] then None else Some(SumNat(xs) as real / |xs| as real)
  }

  /** The mean of values between lo and hi lies between lo and hi. */
  lemma MeanBounds(xs: seq<nat>, lo: int, hi: int)
    requires xs != []
    requires forall k :: 0 <= k < |xs| ==> lo <= xs[k] <= hi
    ensures lo as real <= Mean(xs).value <= hi as real
  {
    var sum, n := SumNat(xs) as real, |xs| as real;
    SumNatAbove(xs, lo as real);
    SumNatBelow(xs, hi as real);
    DivBetween(sum, n, lo as real, hi as real);
    assert Mean(xs) == Some(sum / n);
  }

  lemma DivBetween(s: real, n: real, lo: real, hi: real)
    requires n > 0.0 && n * lo <= s <= n * hi
    ensures lo <= s / n <= hi
  {
    var m := s / n;
    assert n * m == s;
    assert m < lo ==> n * m < n * lo;
    assert m > hi ==> n * m > n * hi;
  }

  /** `avg_trips`: the mean number of vehicles per day over the days 1..hi of the usage
      table, None (NaN) when no such day has dispatches. */
  function AvgTrips(usage: seq<UsageRow>, hi: int): Option<real> {
    Mean(WindowTrips(usage, hi))
  }

  /** On the dashboard's own usage table the average is defined exactly when some LG to FPS
      record falls in days 1..hi, and a defined average is at least one vehicle a day. */
  lemma AvgTripsMeaning(lg: seq<LgDispatch>, maxTrips: int, hi: int)
    ensures AvgTrips(VehicleUsage(lg, maxTrips), hi).None? <==>
      forall i :: 0 <= i < |lg| ==> !(1 <= lg[i].day <= hi)
    ensures AvgTrips(VehicleUsage(lg, maxTrips), hi).Some? ==> AvgTrips(VehicleUsage(lg, maxTrips), hi).value >= 1.0
  {
    var rows := VehicleUsage(lg, maxTrips);
    var ts := WindowTrips(rows, hi);
    if k :| 0 <= k < |lg| && 1 <= lg[k].day <= hi {
      UsageRowOf(lg, maxTrips, hi, k);
    }
    if ts != [] {
      WindowHasRecord(lg, maxTrips, hi);
      forall j | 0 <= j < |ts| ensures ts[j] >= 1 {
        assert ts[j] in ts;
      }
      MeanAtLeastOne(ts);
    }
  }

  /** A record dated 1..hi puts its day's vehicle count in the window. */
  lemma UsageRowOf(lg: seq<LgDispatch>, maxTrips: int, hi: int, k: nat)
    requires k < |lg| && 1 <= lg[k].day <= hi
    ensures WindowTrips(VehicleUsage(lg, maxTrips), hi) != []
  {
    var rows := VehicleUsage(lg, maxTrips);
    assert lg[k].day in UsageDays(rows);
    var i :| 0 <= i < |rows| && UsageDays(rows)[i] == lg[k].day;
    assert rows[i].tripsUsed in WindowTrips(rows, hi);
  }

  /** A non-empty window comes from a record dated 1..hi. */
  lemma WindowHasRecord(lg: seq<LgDispatch>, maxTrips: int, hi: int)
    requires WindowTrips(VehicleUsage(lg, maxTrips), hi) != []
    ensures exists k :: 0 <= k < |lg| && 1 <= lg[k].day <= hi
  {
    var rows := VehicleUsage(lg, maxTrips);
    var ts := WindowTrips(rows, hi);
    assert ts[0] in ts;
    var i :| 0 <= i < |rows| && 1 <= rows[i].day <= hi && rows[i].tripsUsed == ts[0];
    assert rows[i].day in UsageDays(rows);
    var k :| 0 <= k < |lg| && lg[k].day == rows[i].day;
  }

  /** The days of ds within 1..hi, in their order. */
  function DaysWithin(ds: seq<int>, hi: int): (r: seq<int>)
    ensures forall d :: d in r <==> d in ds && 1 <= d <= hi
    ensures Increasing(ds) ==> Increasing(r)
  {
    if ds == [] then []
    else
      var n := |ds|;
      var front := DaysWithin(ds[..n - 1], hi);
      assert forall d :: d in ds <==> d in ds[..n - 1] || d == ds[n - 1] by {
        assert ds == ds[..n - 1] + [ds[n - 1]];
      }
      if 1 <= ds[n - 1] <= hi then
        assert Increasing(ds) ==> forall k :: 0 <= k < |front| ==> front[k] < ds[n - 1] by {
          if Increasing(ds) {
            forall k | 0 <= k < |front| ensures front[k] < ds[n - 1] {
              assert front[k] in front;
            }
          }
        }
        front + [ds[n - 1]]
      else front
  }

  /** The distinct days 1..hi that have an LG to FPS record, ascending. */
  function WindowDays(lg: seq<LgDispatch>, hi: int): (ds: seq<int>)
    ensures Increasing(ds)
    ensures forall d :: d in ds <==> 1 <= d <= hi && exists i :: 0 <= i < |lg| && lg[i].day == d
  {
    assert forall d :: d in Keys(LgEntries(lg)) <==> exists i :: 0 <= i < |lg| && lg[i].day == d by {
      forall d ensures d in Keys(LgEntries(lg)) ==> exists i :: 0 <= i < |lg| && lg[i].day == d {
        if d in Keys(LgEntries(lg)) {
          var i :| 0 <= i < |lg| && Keys(LgEntries(lg))[i] == d;
        }
      }
      assert forall i :: 0 <= i < |lg| ==> Keys(LgEntries(lg))[i] == lg[i].day;
    }
    DaysWithin(SortedDays(Keys(LgEntries(lg))), hi)
  }

  /** The number of distinct vehicles of each day of ds. */
  function DayCounts(lg: seq<LgDispatch>, ds: seq<int>): (ts: seq<nat>)
    ensures |ts| == |ds| && forall i :: 0 <= i < |ds| ==> ts[i] == |VehiclesOn(lg, ds[i])|
  {
    seq(|ds|, i requires 0 <= i < |ds| => |VehiclesOn(lg, ds[i])|)
  }

  lemma DaysWithinSnoc(ds: seq<int>, d: int, hi: int)
    ensures DaysWithin(ds + [d], hi) == DaysWithin(ds, hi) + (if 1 <= d <= hi then [d] else [])
  {
    assert (ds + [d])[..|ds|] == ds;
  }

  lemma WindowTripsSnoc(rows: seq<UsageRow>, x: UsageRow, hi: int)
    ensures WindowTrips(rows + [x], hi) == WindowTrips(rows, hi) + (if 1 <= x.day <= hi then [x.tripsUsed] else [])
  {
    assert (rows + [x])[..|rows|] == rows;
  }

  lemma UsageDaysSnoc(rows: seq<UsageRow>, x: UsageRow)
    ensures UsageDays(rows + [x]) == UsageDays(rows) + [x.day]
  {
  }

  /** On rows that carry each day's vehicle count, the windowed column is the counts of the
      row days within 1..hi. */
  lemma {:induction false} WindowTripsOf(rows: seq<UsageRow>, lg: seq<LgDispatch>, hi: int)
    requires forall i :: 0 <= i < |rows| ==> rows[i].tripsUsed == |VehiclesOn(lg, rows[i].day)|
    ensures WindowTrips(rows, hi) == DayCounts(lg, DaysWithin(UsageDays(rows), hi))
  {
    if rows != [] {
      var front, x := rows[..|rows| - 1], rows[|rows| - 1];
      assert rows == front + [x];
      assert forall i :: 0 <= i < |front| ==> front[i] == rows[i];
      WindowTripsOf(front, lg, hi);
      WindowTripsSnoc(front, x, hi);
      UsageDaysSnoc(front, x);
      DaysWithinSnoc(UsageDays(front), x.day, hi);
      var ds := DaysWithin(UsageDays(front), hi);
      DayCountsSnoc(lg, ds, x.day);
      assert x.tripsUsed == |VehiclesOn(lg, x.day)|;
    }
  }

  lemma DayCountsSnoc(lg: seq<LgDispatch>, ds: seq<int>, d: int)
    ensures DayCounts(lg, ds + [d]) == DayCounts(lg, ds) + [|VehiclesOn(lg, d)|]
  {
  }

  /** `avg_trips` on the dashboard's usage table is the mean, over the distinct days 1..hi
      that have a record, of each day's number of distinct vehicles. */
  lemma AvgTripsValue(lg: seq<LgDispatch>, maxTrips: int, hi: int)
    ensures WindowTrips(VehicleUsage(lg, maxTrips), hi) == DayCounts(lg, WindowDays(lg, hi))
    ensures AvgTrips(VehicleUsage(lg, maxTrips), hi) == Mean(DayCounts(lg, WindowDays(lg, hi)))
  {
    var rows := VehicleUsage(lg, maxTrips);
    WindowTripsOf(rows, lg, hi);
    var a, b := DaysWithin(UsageDays(rows), hi), WindowDays(lg, hi);
    forall d ensures d in a <==> d in b {
      assert d in a <==> d in UsageDays(rows) && 1 <= d <= hi;
    }
    IncreasingUnique(a, b);
  }

  /** Counts of at least one average at least one. */
  lemma MeanAtLeastOne(ts: seq<nat>)
    requires ts != [] && forall j :: 0 <= j < |ts| ==> ts[j] >= 1
    ensures Mean(ts).value >= 1.0
  {
    forall j | 0 <= j < |ts| ensures 1 <= ts[j] <= SumNat(ts) {
      SumNatAtLeast(ts, j);
    }
    MeanBounds(ts, 1, SumNat(ts));
  }

  lemma {:induction false} SumNatAtLeast(xs: seq<nat>, j: nat)
    requires j < |xs|
    ensures xs[j] <= SumNat(xs)
  {
    if j < |xs| - 1 {
      SumNatAtLeast(xs[..|xs| - 1], j);
    }
  }

  /** `pct_fleet`: the average vehicles a day as a share of MAX_TRIPS, zero when MAX_TRIPS is
      zero; NaN (None) when the average is. */
  function PctFleet(avgTrips: Option<real>, maxTrips: int): (r: Option<real>)
    ensures maxTrips == 0 ==> r == Some(0.0)
    ensures maxTrips != 0 ==> (r.None? <==> avgTrips.None?)
    ensures maxTrips != 0 && r.Some? ==> r.value * maxTrips as real == avgTrips.value * 100.0
  {
    if maxTrips == 0 then Some(0.0)
    else if avgTrips.None? then None
    else Some(avgTrips.value / maxTrips as real * 100.0)
  }

  /** When no day uses more vehicles than MAX_TRIPS, utilisation is at most 100 percent. */
  lemma PctFleetAtMostFull(usage: seq<UsageRow>, hi: int, maxTrips: int)
    requires maxTrips > 0
    requires forall i :: 0 <= i < |usage| ==> usage[i].tripsUsed <= maxTrips
    requires AvgTrips(usage, hi).Some?
    ensures PctFleet(AvgTrips(usage, hi), maxTrips).value <= 100.0
  {
    var ts := WindowTrips(usage, hi);
    forall j | 0 <= j < |ts| ensures 0 <= ts[j] <= maxTrips {
      assert ts[j] in ts;
    }
    MeanBounds(ts, 0, maxTrips);
    var a := AvgTrips(usage, hi).value;
    var p := PctFleet(AvgTrips(usage, hi), maxTrips).value;
    assert p * maxTrips as real == a * 100.0;
    assert a * 100.0 <= maxTrips as real * 100.0;
    assert p > 100.0 ==> p * maxTrips as real > 100.0 * maxTrips as real;
  }

  // ---------------------------------------------------------------- LG stock on hand

  /** Every column of the table has one cell per row. */
  predicate Rectangular(t: Timeline) {
    forall id :: id in t.columns ==> |t.columns[id]| == |t.days|
  }

  /** The row of day in the table's index. */
  function RowOf(days: seq<int>, day: int): (i: nat)
    requires day in days
    ensures i < |days| && days[i] == day
  {
    if days[0] == day then 0 else 1 + RowOf(days[1..], day)
  }

  /** A cell as `sum` reads it: an empty (NaN) cell adds nothing. */
  function CellTons(c: Option<real>): real {
    if c.Some? then c.value else 0.0
  }

  /** The cells of the selected LGs in row i, summed. */
  function RowSum(t: Timeline, i: nat, selected: seq<string>): real
    requires Rectangular(t) && i < |t.days|
    requires forall k :: 0 <= k < |selected| ==> selected[k] in t.columns
  {
    if selected == [] then 0.0
    else
      var n := |selected|;
      RowSum(t, i, selected[..n - 1]) + CellTons(t.columns[selected[n - 1]][i])
  }

  /** `lg_stock.loc[end_day, selected_lgs].sum()`: the selected LGs' cells on end_day; a
      KeyError (None) when end_day is not a row of the table or an LG is not a column. */
  function LgOnHand(t: Timeline, end: int, selected: seq<string>): (r: Option<real>)
    requires Rectangular(t)
    ensures r.None? <==> end !in t.days || exists k :: 0 <= k < |selected| && selected[k] !in t.columns
  {
    if end !in t.days || exists k :: 0 <= k < |selected| && selected[k] !in t.columns then None
    else Some(RowSum(t, RowOf(t.days, end), selected))
  }

  /** The latest snapshot of LG id dated at or before day. */
  function Latest(ls: seq<Snapshot>, id: string, day: int): (r: Option<Snapshot>)
    ensures r.None? <==> forall s :: s in ls && s.entityId == id ==> s.day > day
    ensures r.Some? ==> LatestAtOrBefore(ls, id, day, r.value)
  {
    if ls == [] then None
    else
      var n := |ls|;
      var x := ls[n - 1];
      var front := Latest(ls[..n - 1], id, day);
      assert ls == ls[..n - 1] + [x];
      if x.entityId == id && x.day <= day && (front.None? || front.value.day < x.day) then Some(x)
      else front
  }

  /** The tons LG id held at day by its latest snapshot, zero before its first one. */
  function LatestTons(ls: seq<Snapshot>, id: string, day: int): real {
    var s := Latest(ls, id, day);
    if s.Some? then s.value.level else 0.0
  }

  function LatestSum(ls: seq<Snapshot>, day: int, selected: seq<string>): real {
    if selected == [] then 0.0
    else
      var n := |selected|;
      LatestSum(ls, day, selected[..n - 1]) + LatestTons(ls, selected[n - 1], day)
  }

  lemma TableRectangular(ls: seq<Snapshot>)
    ensures Rectangular(Table(ls))
  {
  }

  lemma CellIsLatest(ls: seq<Snapshot>, id: string, i: nat)
    requires UniqueCells(ls)
    requires id in Table(ls).columns && i < |Table(ls).days|
    ensures CellTons(Table(ls).columns[id][i]) == LatestTons(ls, id, Table(ls).days[i])
  {
    var day := Table(ls).days[i];
    var s := Latest(ls, id, day);
    if s.Some? {
      LgStockIsLatestSnapshot(ls, id, i, s.value);
    } else {
      LgStockBeforeFirstSnapshot(ls, id, i);
    }
  }

  lemma {:induction false} RowSumIsLatest(ls: seq<Snapshot>, i: nat, selected: seq<string>)
    requires UniqueCells(ls) && Rectangular(Table(ls)) && i < |Table(ls).days|
    requires forall k :: 0 <= k < |selected| ==> selected[k] in Table(ls).columns
    ensures RowSum(Table(ls), i, selected) == LatestSum(ls, Table(ls).days[i], selected)
  {
    if selected != [] {
      var n := |selected|;
      RowSumIsLatest(ls, i, selected[..n - 1]);
      CellIsLatest(ls, selected[n - 1], i);
    }
  }

  /** LG stock on hand is the sum, over the selected LGs, of each one's latest snapshot at
      or before end_day (zero for an LG not yet reported): what the forward fill promises. */
  lemma LgOnHandIsLatestStock(snaps: seq<Snapshot>, end: int, selected: seq<string>)
    requires LgStock(snaps).Some?
    requires end in LgStock(snaps).value.days
    requires forall k :: 0 <= k < |selected| ==> selected[k] in LgStock(snaps).value.columns
    ensures Rectangular(LgStock(snaps).value)
    ensures LgOnHand(LgStock(snaps).value, end, selected) == Some(LatestSum(LgSnapshots(snaps), end, selected))
  {
    var ls := LgSnapshots(snaps);
    TableRectangular(ls);
    RowSumIsLatest(ls, RowOf(Table(ls).days, end), selected);
  }

  // ---------------------------------------------------------------- LG capacity filled

  /** The capacities the registry lists under id (every row, if the id repeats). */
  function CapacityOf(lgs: seq<Lg>, id: string): real {
    if lgs == [] then 0.0
    else CapacityOf(lgs[..|lgs| - 1], id) + (if lgs[|lgs| - 1].id == id then lgs[|lgs| - 1].capacity else 0.0)
  }

  function CapacitySum(lgs: seq<Lg>, selected: seq<string>): real {
    if selected == [] then 0.0
    else CapacitySum(lgs, selected[..|selected| - 1]) + CapacityOf(lgs, selected[|selected| - 1])
  }

  predicate Unregistered(lgs: seq<Lg>, id: string) {
    forall j :: 0 <= j < |lgs| ==> lgs[j].id != id
  }

  /** `lgs.set_index("LG_ID").loc[selected_lgs, "Storage_Capacity_tons"].sum()`; a KeyError
      (None) when a selected LG is missing from the registry. */
  function LgCaps(lgs: seq<Lg>, selected: seq<string>): (r: Option<real>)
    ensures r.None? <==> exists k :: 0 <= k < |selected| && Unregistered(lgs, selected[k])
    ensures r.Some? ==> r.value == CapacitySum(lgs, selected)
  {
    if exists k :: 0 <= k < |selected| && Unregistered(lgs, selected[k]) then None
    else Some(CapacitySum(lgs, selected))
  }

  /** The capacity of the registry rows whose LG is selected, read row by row through the
      registry. */
  function RegistryCapacity(lgs: seq<Lg>, selected: seq<string>): real {
    if lgs == [] then 0.0
    else
      var x := lgs[|lgs| - 1];
      RegistryCapacity(lgs[..|lgs| - 1], selected) + (if x.id in selected then x.capacity else 0.0)
  }

  /** c once for every occurrence of id in selected. */
  function PerHit(selected: seq<string>, id: string, c: real): real {
    if selected == [] then 0.0
    else PerHit(selected[..|selected| - 1], id, c) + (if selected[|selected| - 1] == id then c else 0.0)
  }

  lemma {:induction false} PerHitOnce(selected: seq<string>, id: string, c: real)
    requires NoDup(selected)
    ensures PerHit(selected, id, c) == if id in selected then c else 0.0
  {
    if selected != [] {
      var front := selected[..|selected| - 1];
      assert NoDup(front);
      PerHitOnce(front, id, c);
      assert selected == front + [selected[|selected| - 1]];
    }
  }

  /** One more registry row adds its capacity once per selection of its LG. */
  lemma {:induction false} CapacitySumSnoc(lgs: seq<Lg>, x: Lg, selected: seq<string>)
    ensures CapacitySum(lgs + [x], selected) == CapacitySum(lgs, selected) + PerHit(selected, x.id, x.capacity)
  {
    assert (lgs + [x])[..|lgs|] == lgs;
    if selected != [] {
      CapacitySumSnoc(lgs, x, selected[..|selected| - 1]);
    }
  }

  /** `lg_caps` read through the registry: when every selected LG is registered and none is
      selected twice (the checkboxes list each column once), the KPI is the capacity of the
      registry rows whose LG is selected. */
  lemma {:induction false} LgCapsIsSelectedRows(lgs: seq<Lg>, selected: seq<string>)
    requires NoDup(selected)
    ensures LgCaps(lgs, selected).Some? <==> forall id :: id in selected ==> exists l :: l in lgs && l.id == id
    ensures LgCaps(lgs, selected).Some? ==> LgCaps(lgs, selected).value == RegistryCapacity(lgs, selected)
  {
    CapacityIsRegistryRows(lgs, selected);
    if k :| 0 <= k < |selected| && Unregistered(lgs, selected[k]) {
      assert selected[k] in selected;
    }
    forall id | id in selected && (forall l :: l in lgs ==> l.id != id)
      ensures exists k :: 0 <= k < |selected| && Unregistered(lgs, selected[k])
    {
      var k :| 0 <= k < |selected| && selected[k] == id;
      assert forall j :: 0 <= j < |lgs| ==> lgs[j] in lgs;
    }
  }

  lemma {:induction false} CapacityIsRegistryRows(lgs: seq<Lg>, selected: seq<string>)
    requires NoDup(selected)
    ensures CapacitySum(lgs, selected) == RegistryCapacity(lgs, selected)
  {
    if lgs == [] {
      CapacitySumEmpty(selected);
    } else {
      var front, x := lgs[..|lgs| - 1], lgs[|lgs| - 1];
      assert lgs == front + [x];
      CapacityIsRegistryRows(front, selected);
      CapacitySumSnoc(front, x, selected);
      PerHitOnce(selected, x.id, x.capacity);
    }
  }

  lemma {:induction false} CapacitySumEmpty(selected: seq<string>)
    ensures CapacitySum([], selected) == 0.0
  {
    if selected != [] {
      CapacitySumEmpty(selected[..|selected| - 1]);
    }
  }

  /** `pct_lg_filled`: stock on hand as a share of the selected capacity, zero when that
      capacity is zero; None when either lookup raised. */
  function PctLgFilled(onHand: Option<real>, caps: Option<real>): (r: Option<real>)
    ensures r.None? <==> onHand.None? || caps.None?
    ensures r.Some? && caps.value == 0.0 ==> r.value == 0.0
    ensures r.Some? && caps.value != 0.0 ==> r.value * caps.value == onHand.value * 100.0
  {
    if onHand.None? || caps.None? then None
    else if caps.value != 0.0 then Some(onHand.value / caps.value * 100.0)
    else Some(0.0)
  }

  /** Stock within capacity fills between 0 and 100 percent of it. */
  lemma PctLgFilledBounds(onHand: real, caps: real)
    requires 0.0 <= onHand <= caps
    ensures 0.0 <= PctLgFilled(Some(onHand), Some(caps)).value <= 100.0
  {
    if caps != 0.0 {
      DivBounds(onHand, caps);
    }
  }

  // ---------------------------------------------------------------- FPS stock KPIs

  /** `fps_onhand`: the stock of every joined FPS row dated end_day. */
  function FpsOnHand(rows: seq<FpsStockRow>, end: int): real {
    if rows == [] then 0.0
    else
      var n := |rows|;
      FpsOnHand(rows[..n - 1], end) + (if rows[n - 1].day == end then rows[n - 1].level else 0.0)
  }

  lemma {:induction false} FpsOnHandAppend(a: seq<FpsStockRow>, b: seq<FpsStockRow>, end: int)
    ensures FpsOnHand(a + b, end) == FpsOnHand(a, end) + FpsOnHand(b, end)
    decreases |b|
  {
    if b == [] {
      assert a + b == a;
    } else {
      var n := |b|;
      assert (a + b)[..|a + b| - 1] == a + b[..n - 1];
      FpsOnHandAppend(a, b[..n - 1], end);
    }
  }

  /** Rows that all repeat one day and level add that level once per row. */
  lemma {:induction false} UniformOnHand(rows: seq<FpsStockRow>, day: int, level: real, end: int)
    requires forall k :: 0 <= k < |rows| ==> rows[k].day == day && rows[k].level == level
    ensures FpsOnHand(rows, end) == |rows| as real * (if day == end then level else 0.0)
  {
    if rows != [] {
      var v := if day == end then level else 0.0;
      UniformOnHand(rows[..|rows| - 1], day, level, end);
      assert |rows| as real * v == (|rows| - 1) as real * v + v;
    }
  }

  lemma {:induction false} MergeOneLength(s: Snapshot, registry: seq<Fps>)
    ensures |MergeOne(s, registry)| == RegistryCount(registry, s.entityId)
  {
    if registry != [] {
      MergeOneLength(s, registry[1..]);
    }
  }

  lemma MergeOneOnHand(s: Snapshot, registry: seq<Fps>, end: int)
    ensures FpsOnHand(MergeOne(s, registry), end)
         == RegistryCount(registry, s.entityId) as real * (if s.day == end then s.level else 0.0)
  {
    var rows := MergeOne(s, registry);
    MergeOneRows(s, registry);
    MergeOneLength(s, registry);
    UniformOnHand(rows, s.day, s.level, end);
  }

  lemma MergeOneRows(s: Snapshot, registry: seq<Fps>)
    ensures forall k :: 0 <= k < |MergeOne(s, registry)| ==>
      MergeOne(s, registry)[k].day == s.day && MergeOne(s, registry)[k].level == s.level
  {
    var rows := MergeOne(s, registry);
    forall k | 0 <= k < |rows| ensures rows[k].day == s.day && rows[k].level == s.level {
      assert rows[k] in rows;
    }
  }

  /** The FPS stock reported on end_day, read from the snapshots: each FPS snapshot dated
      end_day counts once for every registry row of its shop. */
  function ShopStockOn(snaps: seq<Snapshot>, registry: seq<Fps>, end: int): real {
    if snaps == [] then 0.0
    else
      var n := |snaps|;
      ShopStockOn(snaps[..n - 1], registry, end) + SnapshotAdds(snaps[n - 1], registry, end)
  }

  /** What one snapshot adds to FPS stock on hand through the merge. */
  function SnapshotAdds(s: Snapshot, registry: seq<Fps>, end: int): real {
    if s.entityType == FPS && s.day == end then RegistryCount(registry, s.entityId) as real * s.level else 0.0
  }

  lemma SnapshotOnHand(s: Snapshot, registry: seq<Fps>, end: int)
    ensures FpsOnHand(if s.entityType == FPS then MergeOne(s, registry) else [], end) == SnapshotAdds(s, registry, end)
  {
    if s.entityType == FPS {
      MergeOneOnHand(s, registry, end);
    }
  }

  /** FPS stock on hand adds up the FPS snapshots of end_day through the inner merge: a shop
      missing from the registry adds nothing, a registered one its snapshot's level. */
  lemma {:induction false} FpsOnHandIsShopStock(snaps: seq<Snapshot>, registry: seq<Fps>, end: int)
    ensures FpsOnHand(FpsStock(snaps, registry), end) == ShopStockOn(snaps, registry, end)
  {
    if snaps != [] {
      var n := |snaps|;
      ShopProjection.FpsStockStep(snaps, registry);
      FpsOnHandIsShopStock(snaps[..n - 1], registry, end);
      FpsOnHandAppend(FpsStock(snaps[..n - 1], registry), ShopProjection.LastJoined(snaps, registry), end);
      SnapshotOnHand(snaps[n - 1], registry, end);
    }
  }

  /** With a keyed registry a registered shop counts exactly once. */
  lemma {:induction false} RegistryCountUnique(registry: seq<Fps>, j: nat)
    requires UniqueFpsIds(registry) && j < |registry|
    ensures RegistryCount(registry, registry[j].id) == 1
  {
    if j == 0 {
      RegistryCountAbsent(registry[1..], registry[0].id);
    } else {
      assert UniqueFpsIds(registry[1..]);
      RegistryCountUnique(registry[1..], j - 1);
    }
  }

  lemma {:induction false} RegistryCountAbsent(registry: seq<Fps>, id: string)
    requires forall j :: 0 <= j < |registry| ==> registry[j].id != id
    ensures RegistryCount(registry, id) == 0
  {
    if registry != [] {
      RegistryCountAbsent(registry[1..], id);
    }
  }

  /** With a keyed registry an end_day snapshot of a registered shop adds its level once,
      and one of an unregistered shop adds nothing. */
  lemma SnapshotAddsKeyed(s: Snapshot, registry: seq<Fps>, end: int)
    requires UniqueFpsIds(registry)
    ensures SnapshotAdds(s, registry, end)
         == if s.entityType == FPS && s.day == end && exists j :: 0 <= j < |registry| && registry[j].id == s.entityId
            then s.level else 0.0
  {
    if j :| 0 <= j < |registry| && registry[j].id == s.entityId {
      RegistryCountUnique(registry, j);
    } else {
      RegistryCountAbsent(registry, s.entityId);
    }
  }

  /** The shops with a joined row dated end_day whose stock is exactly zero. */
  function ZeroShops(rows: seq<FpsStockRow>, end: int): set<string> {
    set r | r in rows && r.day == end && r.level == 0.0 :: r.fpsId
  }

  /** The shops with a joined row dated end_day flagged at risk. */
  function RiskShops(rows: seq<FpsStockRow>, end: int): set<string> {
    set r | r in rows && r.day == end && r.atRisk :: r.fpsId
  }

  /** `fps_zero`: the number of distinct shops out of stock on end_day. */
  function FpsZero(rows: seq<FpsStockRow>, end: int): nat {
    |ZeroShops(rows, end)|
  }

  /** `fps_risk`: the number of distinct shops at risk on end_day. */
  function FpsRisk(rows: seq<FpsStockRow>, end: int): nat {
    |RiskShops(rows, end)|
  }

  /** A shop counts as at risk on end_day exactly when it is registered and one of its
      end_day snapshots is at or below a registered threshold of it. */
  lemma RiskShopsMeaning(snaps: seq<Snapshot>, registry: seq<Fps>, end: int, id: string)
    ensures id in RiskShops(FpsStock(snaps, registry), end) <==>
      exists i, j :: 0 <= i < |snaps| && 0 <= j < |registry| && Joins(snaps[i], registry[j])
        && snaps[i].entityId == id && snaps[i].day == end && snaps[i].level <= registry[j].threshold
  {
    var rows := FpsStock(snaps, registry);
    if id in RiskShops(rows, end) {
      var r :| r in rows && r.day == end && r.atRisk && r.fpsId == id;
      var i, j :| 0 <= i < |snaps| && 0 <= j < |registry| && Joins(snaps[i], registry[j]) && r == JoinedRow(snaps[i], registry[j]);
    }
    if i, j :|
      && 0 <= i < |snaps| && 0 <= j < |registry| && Joins(snaps[i], registry[j])
      && snaps[i].entityId == id && snaps[i].day == end && snaps[i].level <= registry[j].threshold
    {
      assert JoinedRow(snaps[i], registry[j]) in rows;
    }
  }

  /** A shop counts as out of stock on end_day exactly when it is registered and one of its
      end_day snapshots reads zero. */
  lemma ZeroShopsMeaning(snaps: seq<Snapshot>, registry: seq<Fps>, end: int, id: string)
    ensures id in ZeroShops(FpsStock(snaps, registry), end) <==>
      exists i, j :: 0 <= i < |snaps| && 0 <= j < |registry| && Joins(snaps[i], registry[j])
        && snaps[i].entityId == id && snaps[i].day == end && snaps[i].level == 0.0
  {
    var rows := FpsStock(snaps, registry);
    if id in ZeroShops(rows, end) {
      var r :| r in rows && r.day == end && r.level == 0.0 && r.fpsId == id;
      var i, j :| 0 <= i < |snaps| && 0 <= j < |registry| && Joins(snaps[i], registry[j]) && r == JoinedRow(snaps[i], registry[j]);
    }
    if i, j :|
      && 0 <= i < |snaps| && 0 <= j < |registry| && Joins(snaps[i], registry[j])
      && snaps[i].entityId == id && snaps[i].day == end && snaps[i].level == 0.0
    {
      assert JoinedRow(snaps[i], registry[j]) in rows;
    }
  }

  /** With non-negative reorder thresholds every empty shop is also at risk, so the
      stock-out count never exceeds the at-risk count. */
  lemma ZeroWithinRisk(snaps: seq<Snapshot>, registry: seq<Fps>, end: int)
    requires forall j :: 0 <= j < |registry| ==> registry[j].threshold >= 0.0
    ensures ZeroShops(FpsStock(snaps, registry), end) <= RiskShops(FpsStock(snaps, registry), end)
    ensures FpsZero(FpsStock(snaps, registry), end) <= FpsRisk(FpsStock(snaps, registry), end)
  {
    var rows := FpsStock(snaps, registry);
    forall id | id in ZeroShops(rows, end) ensures id in RiskShops(rows, end) {
      var r :| r in rows && r.day == end && r.level == 0.0 && r.fpsId == id;
      var i, j :| 0 <= i < |snaps| && 0 <= j < |registry| && Joins(snaps[i], registry[j]) && r == JoinedRow(snaps[i], registry[j]);
      assert r.threshold >= 0.0;
    }
    SubsetCard(ZeroShops(rows, end), RiskShops(rows, end));
  }

  lemma SubsetCard(a: set<string>, b: set<string>)
    requires a <= b
    ensures |a| <= |b|
  {
    if a != {} {
      var x :| x in a;
      SubsetCard(a - {x}, b - {x});
    }
  }
}
