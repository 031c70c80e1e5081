/** The "FPS Stock & Upcoming Receipts" table (app.py lines 175-189): one row per
    registered fair-price shop, in registry order, with its stock on the window's last day,
    its next scheduled receipt after that day and the number of days until it. */
module ShopProjection {
  import opened Records
  import opened Folds
  import opened Aggregates

  /** `end_day = min(hi, DAYS)`. */
  function EndDay(hi: int, days: int): (e: int)
    ensures e <= hi && e <= days && (e == hi || e == days)
  {
    if hi <= days then hi else days
  }

  // ---------------------------------------------------------------- stock on end_day

  /** The positions of the joined rows of shop id dated day. */
  function MatchRows(rows: seq<FpsStockRow>, id: string, day: int): set<int> {
    set i | 0 <= i < |rows| && rows[i].fpsId == id && rows[i].day == day
  }

  lemma MatchRowsSnoc(rows: seq<FpsStockRow>, id: string, day: int)
    requires rows != []
    ensures var n := |rows|;
      && MatchRows(rows, id, day)
         == MatchRows(rows[..n - 1], id, day) + (if rows[n - 1].fpsId == id && rows[n - 1].day == day then {n - 1} else {})
      && n - 1 !in MatchRows(rows[..n - 1], id, day)
  {
  }

  /** One more row adds one matching position exactly when it matches. */
  lemma MatchRowsCardSnoc(rows: seq<FpsStockRow>, id: string, day: int)
    requires rows != []
    ensures var n := |rows|;
      |MatchRows(rows, id, day)|
      == |MatchRows(rows[..n - 1], id, day)| + (if rows[n - 1].fpsId == id && rows[n - 1].day == day then 1 else 0)
  {
    var n := |rows|;
    MatchRowsSnoc(rows, id, day);
    if rows[n - 1].fpsId == id && rows[n - 1].day == day {
      CardAddNew(MatchRows(rows[..n - 1], id, day), n - 1);
    }
  }

  /** `fps_stock.query("FPS_ID==id & Day==day")["Stock_Level_tons"]`: the levels of the
      joined rows of shop id dated exactly day, one per such row. */
  function StockMatches(rows: seq<FpsStockRow>, id: string, day: int): (vs: seq<real>)
    ensures |vs| == |MatchRows(rows, id, day)|
    ensures forall v :: v in vs ==> exists i :: 0 <= i < |rows| && rows[i].fpsId == id && rows[i].day == day && rows[i].level == v
    ensures forall i :: 0 <= i < |rows| && rows[i].fpsId == id && rows[i].day == day ==> rows[i].level in vs
    ensures vs == [] <==> forall i :: 0 <= i < |rows| ==> !(rows[i].fpsId == id && rows[i].day == day)
  {
    if rows == [] then []
    else
      var n := |rows|;
      var front := StockMatches(rows[..n - 1], id, day);
      assert forall i :: 0 <= i < n - 1 ==> rows[..n - 1][i] == rows[i];
      MatchRowsCardSnoc(rows, id, day);
      if rows[n - 1].fpsId == id && rows[n - 1].day == day then
        front + [rows[n - 1].level]
      else
        front
  }

  /** `float(stock) if not stock.empty else 0.0`: no match reads as zero, one match is its
      level, and several make `float` raise, reported with the shop's id. */
  function StockNow(rows: seq<FpsStockRow>, id: string, day: int): (r: Result<real, string>)
    ensures r.Failure? <==> |MatchRows(rows, id, day)| > 1
    ensures r.Failure? <==> |StockMatches(rows, id, day)| > 1
    ensures r.Failure? ==> r.error == id
    ensures r.Success? ==>
      forall i :: 0 <= i < |rows| && rows[i].fpsId == id && rows[i].day == day ==> r.value == rows[i].level
    ensures r.Success? && r.value != 0.0 ==>
      exists i :: 0 <= i < |rows| && rows[i].fpsId == id && rows[i].day == day && rows[i].level == r.value
    ensures (forall i :: 0 <= i < |rows| ==> !(rows[i].fpsId == id && rows[i].day == day)) ==> r == Success(0.0)
  {
    var vs := StockMatches(rows, id, day);
    if vs == [] then Success(0.0)
    else if |vs| == 1 then
      assert vs == [vs[0]];
      Success(vs[0])
    else Failure(id)
  }

  /** At most one FPS snapshot per (shop, day). */
  predicate UniqueFpsCells(snaps: seq<Snapshot>) {
    forall i, j :: 0 <= i < j < |snaps| && snaps[i].entityType == FPS && snaps[j].entityType == FPS ==>
      !(snaps[i].entityId == snaps[j].entityId && snaps[i].day == snaps[j].day)
  }

  lemma StockMatchesSnoc(rows: seq<FpsStockRow>, x: FpsStockRow, id: string, day: int)
    ensures StockMatches(rows + [x], id, day)
         == StockMatches(rows, id, day) + (if x.fpsId == id && x.day == day then [x.level] else [])
  {
    assert (rows + [x])[..|rows|] == rows;
  }

  lemma {:induction false} StockMatchesAppend(a: seq<FpsStockRow>, b: seq<FpsStockRow>, id: string, day: int)
    ensures StockMatches(a + b, id, day) == StockMatches(a, id, day) + StockMatches(b, id, day)
  {
    if b == [] {
      assert a + b == a;
    } else {
      var front, x := b[..|b| - 1], b[|b| - 1];
      assert a + b == (a + front) + [x];
      assert b == front + [x];
      var last := if x.fpsId == id && x.day == day then [x.level] else [];
      StockMatchesAppend(a, front, id, day);
      StockMatchesSnoc(a + front, x, id, day);
      StockMatchesSnoc(front, x, id, day);
      var sa, sf := StockMatches(a, id, day), StockMatches(front, id, day);
      assert (sa + sf) + last == sa + (sf + last);
    }
  }

  lemma {:induction false} StockMatchesLength(rows: seq<FpsStockRow>, id: string, day: int)
    ensures |StockMatches(rows, id, day)| <= |rows|
  {
    if rows != [] {
      StockMatchesLength(rows[..|rows| - 1], id, day);
    }
  }

  lemma {:induction false} MergeOneAtMostOne(s: Snapshot, registry: seq<Fps>)
    requires UniqueFpsIds(registry)
    ensures |MergeOne(s, registry)| <= 1
  {
    if registry != [] {
      assert UniqueFpsIds(registry[1..]);
      MergeOneAtMostOne(s, registry[1..]);
      if MergeOne(s, registry[1..]) != [] {
        var r := MergeOne(s, registry[1..])[0];
        assert r in MergeOne(s, registry[1..]);
        var j :| 0 <= j < |registry[1..]| && registry[1..][j].id == s.entityId && r == JoinedRow(s, registry[1..][j]);
        assert registry[j + 1].id == s.entityId;
        assert registry[0].id != s.entityId;
      }
    }
  }

  lemma MergeOneNoMatch(s: Snapshot, registry: seq<Fps>, id: string, day: int)
    requires !(s.entityId == id && s.day == day)
    ensures StockMatches(MergeOne(s, registry), id, day) == []
  {
    var more := MergeOne(s, registry);
    forall k | 0 <= k < |more| ensures !(more[k].fpsId == id && more[k].day == day) {
      assert more[k] in more;
    }
  }

  /** A joined row of shop id on a day comes from an FPS snapshot of that shop and day. */
  lemma MatchHasSnapshot(snaps: seq<Snapshot>, registry: seq<Fps>, id: string, day: int)
    requires StockMatches(FpsStock(snaps, registry), id, day) != []
    ensures exists a :: 0 <= a < |snaps| && snaps[a].entityType == FPS && snaps[a].entityId == id && snaps[a].day == day
  {
    var rows := FpsStock(snaps, registry);
    var i :| 0 <= i < |rows| && rows[i].fpsId == id && rows[i].day == day;
    assert rows[i] in rows;
    var a, b :| 0 <= a < |snaps| && 0 <= b < |registry| && Joins(snaps[a], registry[b])
                && rows[i] == JoinedRow(snaps[a], registry[b]);
  }

  /** The rows the last snapshot adds to the join. */
  function LastJoined(snaps: seq<Snapshot>, registry: seq<Fps>): seq<FpsStockRow>
    requires snaps != []
  {
    var s := snaps[|snaps| - 1];
    if s.entityType == FPS then MergeOne(s, registry) else []
  }

  lemma FpsStockStep(snaps: seq<Snapshot>, registry: seq<Fps>)
    requires snaps != []
    ensures FpsStock(snaps, registry) == FpsStock(snaps[..|snaps| - 1], registry) + LastJoined(snaps, registry)
  {
  }

  /** Once an earlier FPS snapshot of shop id is dated day, the last snapshot adds no row
      of that shop and day. */
  lemma LastAddsNoDuplicate(snaps: seq<Snapshot>, registry: seq<Fps>, id: string, day: int, a: nat)
    requires UniqueFpsCells(snaps)
    requires a < |snaps| - 1
    requires snaps[a].entityType == FPS && snaps[a].entityId == id && snaps[a].day == day
    ensures StockMatches(LastJoined(snaps, registry), id, day) == []
  {
    var s := snaps[|snaps| - 1];
    if s.entityType == FPS {
      MergeOneNoMatch(s, registry, id, day);
    }
  }

  lemma AtMostOneStep(early: seq<FpsStockRow>, late: seq<FpsStockRow>, id: string, day: int)
    requires |StockMatches(early, id, day)| <= 1 && |late| <= 1
    requires StockMatches(early, id, day) != [] ==> StockMatches(late, id, day) == []
    ensures |StockMatches(early + late, id, day)| <= 1
  {
    StockMatchesAppend(early, late, id, day);
    StockMatchesLength(late, id, day);
  }

  /** With a registry keyed by shop id and one FPS snapshot per (shop, day), a shop has at
      most one joined row per day. */
  lemma {:induction false} StockMatchesAtMostOne(snaps: seq<Snapshot>, registry: seq<Fps>, id: string, day: int)
    requires UniqueFpsIds(registry) && UniqueFpsCells(snaps)
    ensures |StockMatches(FpsStock(snaps, registry), id, day)| <= 1
  {
    if snaps != [] {
      var front := snaps[..|snaps| - 1];
      assert UniqueFpsCells(front);
      StockMatchesAtMostOne(front, registry, id, day);
      FpsStockStep(snaps, registry);
      MergeOneAtMostOne(snaps[|snaps| - 1], registry);
      if StockMatches(FpsStock(front, registry), id, day) != [] {
        MatchHasSnapshot(front, registry, id, day);
        var a :| 0 <= a < |front| && front[a].entityType == FPS && front[a].entityId == id && front[a].day == day;
        assert snaps[a] == front[a];
        LastAddsNoDuplicate(snaps, registry, id, day, a);
      }
      AtMostOneStep(FpsStock(front, registry), LastJoined(snaps, registry), id, day);
    }
  }

  lemma SingleMatch(vs: seq<real>, v: real)
    requires |vs| <= 1 && v in vs
    ensures vs == [v]
  {
  }

  lemma LevelMatches(snaps: seq<Snapshot>, registry: seq<Fps>, s: Snapshot, j: nat)
    requires s in snaps && j < |registry| && Joins(s, registry[j])
    ensures s.level in StockMatches(FpsStock(snaps, registry), s.entityId, s.day)
  {
    var rows := FpsStock(snaps, registry);
    var i :| 0 <= i < |snaps| && snaps[i] == s;
    assert JoinedRow(snaps[i], registry[j]) in rows;
    var k :| 0 <= k < |rows| && rows[k] == JoinedRow(s, registry[j]);
  }

  /** The stock read for a shop on a day is its snapshot's level there, when the shop is
      registered once and has a single snapshot that day. */
  lemma StockOnDay(snaps: seq<Snapshot>, registry: seq<Fps>, s: Snapshot, j: nat)
    requires UniqueFpsIds(registry) && UniqueFpsCells(snaps)
    requires s in snaps && j < |registry| && Joins(s, registry[j])
    ensures StockNow(FpsStock(snaps, registry), s.entityId, s.day) == Success(s.level)
  {
    LevelMatches(snaps, registry, s, j);
    StockMatchesAtMostOne(snaps, registry, s.entityId, s.day);
    SingleMatch(StockMatches(FpsStock(snaps, registry), s.entityId, s.day), s.level);
  }

  /** A shop that has no FPS snapshot on the day, or is not registered, reads as 0.0. */
  lemma StockAbsent(snaps: seq<Snapshot>, registry: seq<Fps>, id: string, day: int)
    requires (forall s :: s in snaps && s.entityType == FPS && s.entityId == id ==> s.day != day)
          || (forall j :: 0 <= j < |registry| ==> registry[j].id != id)
    ensures StockNow(FpsStock(snaps, registry), id, day) == Success(0.0)
  {
    var rows := FpsStock(snaps, registry);
    forall k | 0 <= k < |rows| ensures !(rows[k].fpsId == id && rows[k].day == day) {
      assert rows[k] in rows;
      var a, b :| 0 <= a < |snaps| && 0 <= b < |registry| && Joins(snaps[a], registry[b])
                  && rows[k] == JoinedRow(snaps[a], registry[b]);
      assert snaps[a] in snaps;
    }
  }

  // ---------------------------------------------------------------- next receipt

  /** `dispatch_lg.query("FPS_ID==id & Day>end")["Day"].min()`, or None when there is no
      such record. */
  function NextReceipt(lg: seq<LgDispatch>, id: string, end: int): (r: Option<int>)
    ensures r.None? <==> forall i :: 0 <= i < |lg| ==> !(lg[i].fpsId == id && lg[i].day > end)
    ensures r.Some? ==> exists i :: 0 <= i < |lg| && lg[i].fpsId == id && lg[i].day == r.value
    ensures r.Some? ==> r.value > end
    ensures r.Some? ==> forall i :: 0 <= i < |lg| && lg[i].fpsId == id && lg[i].day > end ==> r.value <= lg[i].day
  {
    if lg == [] then None
    else
      var n := |lg|;
      var x := lg[n - 1];
      var front := NextReceipt(lg[..n - 1], id, end);
      assert forall i :: 0 <= i < n - 1 ==> lg[..n - 1][i] == lg[i];
      if !(x.fpsId == id && x.day > end) then front
      else if front.None? || x.day < front.value then Some(x.day)
      else front
  }

  /** `next_day - end_day`, or None without a next receipt. */
  function DaysToReceipt(next: Option<int>, end: int): (r: Option<int>)
    ensures r.None? <==> next.None?
    ensures r.Some? ==> next.value == end + r.value
  {
    if next.Some? then Some(next.value - end) else None
  }

  /** `(next_day - end_day) if next_day else None` as written: Python's truth test also
      rejects a next receipt on day 0. */
  function DaysToReceiptAsWritten(next: Option<int>, end: int): (r: Option<int>)
    ensures r.None? <==> next.None? || next.value == 0
    ensures r.Some? ==> next.value == end + r.value
  {
    if next.Some? && next.value != 0 then Some(next.value - end) else None
  }

  /** The two agree whenever the window ends on day 0 or later, since the next receipt then
      falls on a positive day. */
  lemma AsWrittenAgrees(lg: seq<LgDispatch>, id: string, end: int)
    requires end >= 0
    ensures DaysToReceiptAsWritten(NextReceipt(lg, id, end), end) == DaysToReceipt(NextReceipt(lg, id, end), end)
  {
  }

  /** A window ending before day 0 (possible once the lead X is at least 2) with a shop
      served on day 0: the written code loses that receipt. */
  lemma AsWrittenDropsDayZero()
    ensures var lg := [LgDispatch(0, "LG1", "FPS1", "V1", 5.0)];
      && NextReceipt(lg, "FPS1", -1) == Some(0)
      && DaysToReceiptAsWritten(NextReceipt(lg, "FPS1", -1), -1) == None
      && DaysToReceipt(NextReceipt(lg, "FPS1", -1), -1) == Some(1)
  {
    var lg := [LgDispatch(0, "LG1", "FPS1", "V1", 5.0)];
    assert lg[..0] == [];
  }

  /** The days to the next receipt are positive whenever there is one. */
  lemma DaysToReceiptPositive(lg: seq<LgDispatch>, id: string, end: int)
    requires NextReceipt(lg, id, end).Some?
    ensures DaysToReceipt(NextReceipt(lg, id, end), end).Some?
    ensures DaysToReceipt(NextReceipt(lg, id, end), end).value > 0
  {
  }

  // ---------------------------------------------------------------- the table

  /** A row of `fps_data`. The name is `fps.set_index("FPS_ID").loc[id, "FPS_Name"]`: the
      shop's name, or every name registered under its id when the id repeats. */
  datatype ShopRow = ShopRow(fpsId: string, names: seq<string>, stock: real, nextReceipt: Option<int>, daysToReceipt: Option<int>)

  /** The row of shop id, once its stock lookup has succeeded with stock. */
  function RowFor(registry: seq<Fps>, lg: seq<LgDispatch>, id: string, end: int, stock: real): ShopRow {
    var next := NextReceipt(lg, id, end);
    ShopRow(id, NamesOf(registry, id), stock, next, DaysToReceipt(next, end))
  }

  /** The stock lookups of the first n registry entries all succeed. */
  predicate LookupsSucceed(fpsStock: seq<FpsStockRow>, registry: seq<Fps>, end: int, n: int)
    requires 0 <= n <= |registry|
  {
    forall k :: 0 <= k < n ==> StockNow(fpsStock, registry[k].id, end).Success?
  }

  lemma LookupsSucceedStep(fpsStock: seq<FpsStockRow>, registry: seq<Fps>, end: int, n: int)
    requires 0 <= n < |registry|
    requires LookupsSucceed(fpsStock, registry, end, n)
    requires StockNow(fpsStock, registry[n].id, end).Success?
    ensures LookupsSucceed(fpsStock, registry, end, n + 1)
  {
  }

  /** The loop of app.py lines 177-189: one row per registry entry, in registry order,
      stopping at the first shop whose stock lookup is ambiguous. */
  method ProjectShops(fpsStock: seq<FpsStockRow>, registry: seq<Fps>, lg: seq<LgDispatch>, hi: int, days: int)
    returns (r: Result<seq<ShopRow>, string>)
    ensures r.Success? <==> forall i :: 0 <= i < |registry| ==> StockNow(fpsStock, registry[i].id, EndDay(hi, days)).Success?
    ensures r.Success? ==> |r.value| == |registry|
    ensures r.Success? ==> forall i :: 0 <= i < |registry| ==>
      r.value[i] == RowFor(registry, lg, registry[i].id, EndDay(hi, days),
                           StockNow(fpsStock, registry[i].id, EndDay(hi, days)).value)
    ensures r.Failure? ==>
      (exists i :: 0 <= i < |registry| && r.error == registry[i].id
         && StockNow(fpsStock, registry[i].id, EndDay(hi, days)).Failure?
         && forall k :: 0 <= k < i ==> StockNow(fpsStock, registry[k].id, EndDay(hi, days)).Success?)
  {
    var end := EndDay(hi, days);
    var out: seq<ShopRow> := [];
    var i := 0;
    while i < |registry|
      invariant 0 <= i <= |registry|
      invariant |out| == i
      invariant LookupsSucceed(fpsStock, registry, end, i)
      invariant forall k :: 0 <= k < i ==> out[k] == RowFor(registry, lg, registry[k].id, end, StockNow(fpsStock, registry[k].id, end).value)
    {
      var stock := StockNow(fpsStock, registry[i].id, end);
      if stock.Failure? {
        return Failure(registry[i].id);
      }
      LookupsSucceedStep(fpsStock, registry, end, i);
      out := out + [RowFor(registry, lg, registry[i].id, end, stock.value)];
      i := i + 1;
    }
    return Success(out);
  }
}
