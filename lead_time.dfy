/** The pre-dispatch offset X and the slider window [1 - X, DAYS] (app.py lines 34-51):
    X is the least number of days the dispatch plan must start early so that the
    cumulative central-to-local demand never exceeds what the fleet can have moved. */
module LeadTime {
  import opened Records
  import opened Folds
  import opened Aggregates

  /** `need` on day d: `daily_total_cg.get(d, 0)`. */
  function DayNeed(cg: seq<CgDispatch>, d: int): real {
    Get(DayTotalsCg(cg), d, 0.0)
  }

  /** `cum_need` after day d: the needs of days 1..d. */
  function CumNeed(cg: seq<CgDispatch>, d: int): real
    decreases d
  {
    if d < 1 then 0.0 else CumNeed(cg, d - 1) + DayNeed(cg, d)
  }

  /** A day's need is the tonnage of that day's records. */
  lemma DayNeedIsDaySum(cg: seq<CgDispatch>, d: int)
    ensures DayNeed(cg, d) == SumOn(CgEntries(cg), d)
  {
    DailyTotalsGet(CgEntries(cg), d);
  }

  /** A day without any dispatch record contributes nothing to the cumulative need. */
  lemma NoDispatchNoNeed(cg: seq<CgDispatch>, d: int)
    requires d >= 1
    requires forall i :: 0 <= i < |cg| ==> cg[i].day != d
    ensures DayNeed(cg, d) == 0.0
    ensures CumNeed(cg, d) == CumNeed(cg, d - 1)
  {
    DayNeedIsDaySum(cg, d);
    SumOnAbsent(CgEntries(cg), d);
  }

  /** The cumulative need through day d is the tonnage of the records dated 1..d: records
      dated before day 1 or after d are never counted. */
  lemma {:induction false} CumNeedIsWindowSum(cg: seq<CgDispatch>, d: int)
    requires d >= 0
    ensures CumNeed(cg, d) == Total(Select(CgEntries(cg), Between(1, d)))
  {
    var es := CgEntries(cg);
    if d == 0 {
      SelectNothing(es, Between(1, 0));
    } else {
      CumNeedIsWindowSum(cg, d - 1);
      DayNeedIsDaySum(cg, d);
      WindowGrow(es, 1, d);
    }
  }

  lemma MulAtMost(c: real, x: real, y: real)
    requires c >= 0.0 && x <= y
    ensures c * x <= c * y
  {
    assert c * y - c * x == c * (y - x);
  }

  /** A whole number of capacities a with a - 1 < m / c <= a covers m, and a - 1 does not. */
  lemma CeilScale(c: real, q: real, m: real, a: int)
    requires c > 0.0 && c * q == m && (a - 1) as real < q <= a as real
    ensures c * (a - 1) as real < m <= c * a as real
  {
    var below := q - (a - 1) as real;
    var above := a as real - q;
    assert c * below > 0.0;
    assert c * above >= 0.0;
    assert m - c * (a - 1) as real == c * below;
    assert c * a as real - m == c * above;
  }

  /** The ceiling of the overflow past cap * d, in units of cap and floored at zero, is
      the least non-negative lead whose capacity covers need. */
  lemma CeilingLead(need: real, cap: real, d: int, a: int)
    requires cap > 0.0
    requires a == var over := (need - cap * d as real) / cap; if over > 0.0 then Ceil(over) else 0
    ensures need <= cap * (d + a) as real
    ensures a > 0 ==> need > cap * (d + a - 1) as real
  {
    var m := need - cap * d as real;
    var over := m / cap;
    assert cap * over == m;
    assert cap * (d + a) as real == cap * d as real + cap * a as real;
    assert cap * (d + a - 1) as real == cap * d as real + cap * (a - 1) as real;
    if over > 0.0 {
      CeilScale(cap, over, m, a);
    } else {
      MulAtMost(cap, over, 0.0);
    }
  }

  /** `adv[d - 1]`: the ceiling of the overflow past DAILY_CAP * d in units of DAILY_CAP,
      floored at zero. It is the least non-negative lead that lets day d's cumulative need
      fit in the capacity of d + lead days. */
  function Advance(cg: seq<CgDispatch>, cap: real, d: int): (a: int)
    requires cap > 0.0
    ensures a >= 0
    ensures CumNeed(cg, d) <= cap * (d + a) as real
    ensures a > 0 ==> CumNeed(cg, d) > cap * (d + a - 1) as real
  {
    var over := (CumNeed(cg, d) - cap * d as real) / cap;
    var a := if over > 0.0 then Ceil(over) else 0;
    CeilingLead(CumNeed(cg, d), cap, d, a);
    a
  }

  /** With lead x every day's cumulative need fits in the capacity of d + x days. */
  predicate Feasible(cg: seq<CgDispatch>, cap: real, days: int, x: int) {
    forall d :: 1 <= d <= days ==> CumNeed(cg, d) <= cap * (d + x) as real
  }

  /** x is the least non-negative feasible lead. */
  predicate LeastLead(cg: seq<CgDispatch>, cap: real, days: int, x: int) {
    && x >= 0
    && Feasible(cg, cap, days, x)
    && forall y :: 0 <= y < x ==> !Feasible(cg, cap, days, y)
  }

  /** Python's `max` of a non-empty list. */
  function Max(s: seq<int>): (m: int)
    requires |s| > 0
    ensures m in s
    ensures forall k :: 0 <= k < |s| ==> s[k] <= m
  {
    if |s| == 1 then s[0]
    else
      var m := Max(s[..|s| - 1]);
      assert forall k :: 0 <= k < |s| - 1 ==> s[..|s| - 1][k] == s[k];
      if s[|s| - 1] > m then s[|s| - 1] else m
  }

  /** With every day's advance at most x, lead x covers every day. */
  lemma MaxAdvanceFeasible(cg: seq<CgDispatch>, cap: real, days: int, x: int)
    requires cap > 0.0
    requires forall d :: 1 <= d <= days ==> Advance(cg, cap, d) <= x
    ensures Feasible(cg, cap, days, x)
  {
    forall d | 1 <= d <= days ensures CumNeed(cg, d) <= cap * (d + x) as real {
      CoverDay(cg, cap, d, x);
    }
  }

  /** A lead at least day d's advance covers day d. */
  lemma CoverDay(cg: seq<CgDispatch>, cap: real, d: int, x: int)
    requires cap > 0.0 && Advance(cg, cap, d) <= x
    ensures CumNeed(cg, d) <= cap * (d + x) as real
  {
    CoverLead(CumNeed(cg, d), cap, d, Advance(cg, cap, d), x);
  }

  /** A lead of x days covers whatever a lead of a <= x days covers. */
  lemma CoverLead(need: real, cap: real, d: int, a: int, x: int)
    requires cap > 0.0 && need <= cap * (d + a) as real && a <= x
    ensures need <= cap * (d + x) as real
  {
    MulAtMost(cap, (d + a) as real, (d + x) as real);
  }

  /** A lead below day top's advance leaves day top uncovered. */
  lemma BelowAdvanceInfeasible(cg: seq<CgDispatch>, cap: real, days: int, top: int, y: int)
    requires cap > 0.0
    requires 1 <= top <= days && 0 <= y < Advance(cg, cap, top)
    ensures !Feasible(cg, cap, days, y)
  {
    UncoveredBelow(CumNeed(cg, top), cap, top, Advance(cg, cap, top), y);
  }

  /** A lead below a, when a - 1 days short of it already fall short, falls short too. */
  lemma UncoveredBelow(need: real, cap: real, d: int, a: int, y: int)
    requires cap > 0.0 && 0 <= y < a && need > cap * (d + a - 1) as real
    ensures need > cap * (d + y) as real
  {
    MulAtMost(cap, (d + y) as real, (d + a - 1) as real);
  }

  /** The largest per-day advance is the least feasible lead. */
  lemma MaxAdvanceIsLeastLead(cg: seq<CgDispatch>, cap: real, days: int, x: int, top: int)
    requires cap > 0.0
    requires 1 <= top <= days && x == Advance(cg, cap, top)
    requires forall d :: 1 <= d <= days ==> Advance(cg, cap, d) <= x
    ensures LeastLead(cg, cap, days, x)
  {
    MaxAdvanceFeasible(cg, cap, days, x);
    forall y | 0 <= y < x ensures !Feasible(cg, cap, days, y) {
      BelowAdvanceInfeasible(cg, cap, days, top, y);
    }
  }

  /** The loop of app.py lines 42-49: accumulate the need day by day, record each day's
      advance, and take the maximum. */
  method ComputeLead(cg: seq<CgDispatch>, days: int, cap: real) returns (x: int)
    requires days >= 1 && cap > 0.0
    ensures LeastLead(cg, cap, days, x)
  {
    var daily := DayTotalsCg(cg);
    var cum := 0.0;
    var adv: seq<int> := [];
    var d := 1;
    while d <= days
      invariant 1 <= d <= days + 1
      invariant cum == CumNeed(cg, d - 1)
      invariant |adv| == d - 1
      invariant forall k :: 0 <= k < |adv| ==> adv[k] == Advance(cg, cap, k + 1)
    {
      var need := Get(daily, d, 0.0);
      cum := cum + need;
      var over := (cum - cap * d as real) / cap;
      assert cum == CumNeed(cg, d);
      adv := adv + [if over > 0.0 then Ceil(over) else 0];
      assert adv[d - 1] == Advance(cg, cap, d);
      d := d + 1;
    }
    x := Max(adv);
    var k :| 0 <= k < |adv| && adv[k] == x;
    forall e | 1 <= e <= days ensures Advance(cg, cap, e) <= x {
      assert adv[e - 1] == Advance(cg, cap, e);
    }
    MaxAdvanceIsLeastLead(cg, cap, days, x, k + 1);
  }

  /** The selectable day range `[MIN_DAY, MAX_DAY]`. */
  datatype Window = Window(minDay: int, maxDay: int)

  /** How the computation fails: `max([])` on an empty horizon, division by a zero
      DAILY_CAP. */
  datatype LeadError = EmptyHorizon | ZeroCapacity

  /** MIN_DAY = 1 - X and MAX_DAY = DAYS. The window always contains day 1, so it is never
      empty. */
  method SliderWindow(s: Settings, cg: seq<CgDispatch>) returns (r: Result<Window, LeadError>)
    requires DailyCap(s) >= 0.0
    ensures s.distributionDays < 1 <==> r == Failure(EmptyHorizon)
    ensures s.distributionDays >= 1 && DailyCap(s) == 0.0 <==> r == Failure(ZeroCapacity)
    ensures r.Success? ==>
      && r.value.maxDay == s.distributionDays
      && r.value.minDay <= 1 <= r.value.maxDay
      && LeastLead(cg, DailyCap(s), s.distributionDays, 1 - r.value.minDay)
  {
    if s.distributionDays < 1 {
      return Failure(EmptyHorizon);
    }
    if DailyCap(s) == 0.0 {
      return Failure(ZeroCapacity);
    }
    var x := ComputeLead(cg, s.distributionDays, DailyCap(s));
    return Success(Window(1 - x, s.distributionDays));
  }
}
