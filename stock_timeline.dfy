/** `lg_stock` (app.py lines 71-75): the local-godown snapshots pivoted into a day x LG table
    and forward-filled down each LG's column, so that every cell holds that godown's most
    recent stock at or before the row's day. */
module StockTimeline {
  import opened Records
  import opened Folds

  /** `stock_levels[stock_levels.Entity_Type == "LG"]` */
  function LgSnapshots(snaps: seq<Snapshot>): (ls: seq<Snapshot>)
    ensures forall s :: s in ls <==> s in snaps && s.entityType == LG
    ensures forall s :: multiset(ls)[s] == if s.entityType == LG then multiset(snaps)[s] else 0
  {
    if snaps == [] then []
    else
      var n := |snaps|;
      assert snaps == snaps[..n - 1] + [snaps[n - 1]];
      LgSnapshots(snaps[..n - 1]) + (if snaps[n - 1].entityType == LG then [snaps[n - 1]] else [])
  }

  /** At most one snapshot per (LG, day): what `pivot` needs to build a cell per pair. */
  predicate UniqueCells(ls: seq<Snapshot>) {
    forall i, j :: 0 <= i < j < |ls| ==> !(ls[i].entityId == ls[j].entityId && ls[i].day == ls[j].day)
  }

  /** Two LG snapshots of the same godown on the same day: a pair `pivot` cannot place. */
  predicate SameLgCell(a: Snapshot, b: Snapshot) {
    a.entityType == LG && b.entityType == LG && a.entityId == b.entityId && a.day == b.day
  }

  /** No two LG rows of the input share a godown and a day. */
  predicate DistinctLgCells(snaps: seq<Snapshot>) {
    forall i, j :: 0 <= i < j < |snaps| ==> !SameLgCell(snaps[i], snaps[j])
  }

  /** No snapshot of ls is for x's godown and day. */
  predicate NoCellLike(ls: seq<Snapshot>, x: Snapshot) {
    forall k :: 0 <= k < |ls| ==> !(ls[k].entityId == x.entityId && ls[k].day == x.day)
  }

  /** No LG row of snaps shares x's cell. */
  predicate NoLgCellLike(snaps: seq<Snapshot>, x: Snapshot) {
    forall i :: 0 <= i < |snaps| ==> !SameLgCell(snaps[i], x)
  }

  lemma UniqueCellsSnoc(ls: seq<Snapshot>, x: Snapshot)
    ensures UniqueCells(ls + [x]) <==> UniqueCells(ls) && NoCellLike(ls, x)
  {
    var t := ls + [x];
    assert forall k :: 0 <= k < |ls| ==> t[k] == ls[k];
    assert t[|ls|] == x;
  }

  lemma DistinctLgCellsSnoc(snaps: seq<Snapshot>, x: Snapshot)
    ensures DistinctLgCells(snaps + [x]) <==> DistinctLgCells(snaps) && NoLgCellLike(snaps, x)
  {
    var t := snaps + [x];
    assert forall k :: 0 <= k < |snaps| ==> t[k] == snaps[k];
    assert t[|snaps|] == x;
  }

  /** For an LG snapshot x, no kept LG snapshot shares its cell exactly when no LG row of
      the input does. */
  lemma NoCellLikeLg(snaps: seq<Snapshot>, x: Snapshot)
    requires x.entityType == LG
    ensures NoCellLike(LgSnapshots(snaps), x) <==> NoLgCellLike(snaps, x)
  {
    var ls := LgSnapshots(snaps);
    if k :| 0 <= k < |ls| && ls[k].entityId == x.entityId && ls[k].day == x.day {
      assert ls[k] in ls;
      var i :| 0 <= i < |snaps| && snaps[i] == ls[k];
      assert SameLgCell(snaps[i], x);
    }
    if i :| 0 <= i < |snaps| && SameLgCell(snaps[i], x) {
      assert snaps[i] in ls;
      var k :| 0 <= k < |ls| && ls[k] == snaps[i];
      assert ls[k].entityId == x.entityId;
    }
  }

  lemma {:induction false} UniqueCellsIfDistinct(snaps: seq<Snapshot>)
    requires DistinctLgCells(snaps)
    ensures UniqueCells(LgSnapshots(snaps))
  {
    if snaps != [] {
      var n := |snaps|;
      var front, x := snaps[..n - 1], snaps[n - 1];
      assert snaps == front + [x];
      DistinctLgCellsSnoc(front, x);
      UniqueCellsIfDistinct(front);
      if x.entityType == LG {
        NoCellLikeLg(front, x);
        UniqueCellsSnoc(LgSnapshots(front), x);
        assert LgSnapshots(snaps) == LgSnapshots(front) + [x];
      } else {
        assert LgSnapshots(snaps) == LgSnapshots(front);
      }
    }
  }

  lemma {:induction false} DistinctIfUniqueCells(snaps: seq<Snapshot>)
    requires UniqueCells(LgSnapshots(snaps))
    ensures DistinctLgCells(snaps)
  {
    if snaps != [] {
      var n := |snaps|;
      var front, x := snaps[..n - 1], snaps[n - 1];
      assert snaps == front + [x];
      if x.entityType == LG {
        assert LgSnapshots(snaps) == LgSnapshots(front) + [x];
        UniqueCellsSnoc(LgSnapshots(front), x);
        NoCellLikeLg(front, x);
      } else {
        assert LgSnapshots(snaps) == LgSnapshots(front);
        assert NoLgCellLike(front, x);
      }
      DistinctIfUniqueCells(front);
      DistinctLgCellsSnoc(front, x);
    }
  }

  /** The LG snapshots have one per (LG, day) exactly when no two LG rows of the input share
      a godown and a day. */
  lemma UniqueCellsIffDistinct(snaps: seq<Snapshot>)
    ensures UniqueCells(LgSnapshots(snaps)) <==> DistinctLgCells(snaps)
  {
    if DistinctLgCells(snaps) {
      UniqueCellsIfDistinct(snaps);
    }
    if UniqueCells(LgSnapshots(snaps)) {
      DistinctIfUniqueCells(snaps);
    }
  }

  /** The pivot cell for (id, day): the snapshot's level, or empty (NaN) if there is none. */
  function LevelAt(ls: seq<Snapshot>, id: string, day: int): (r: Option<real>)
    ensures r.None? <==> forall i :: 0 <= i < |ls| ==> !(ls[i].entityId == id && ls[i].day == day)
    ensures r.Some? ==> exists i :: 0 <= i < |ls| && ls[i].entityId == id && ls[i].day == day && ls[i].level == r.value
  {
    if ls == [] then None
    else if ls[0].entityId == id && ls[0].day == day then Some(ls[0].level)
    else
      var r := LevelAt(ls[1..], id, day);
      assert forall i :: 1 <= i < |ls| ==> ls[i] == ls[1..][i - 1];
      r
  }

  lemma {:induction false} LevelAtUnique(ls: seq<Snapshot>, k: nat)
    requires UniqueCells(ls) && k < |ls|
    ensures LevelAt(ls, ls[k].entityId, ls[k].day) == Some(ls[k].level)
  {
    if k > 0 {
      assert UniqueCells(ls[1..]);
      LevelAtUnique(ls[1..], k - 1);
    }
  }

  // ---------------------------------------------------------------- forward fill

  /** `fillna(method="ffill")` on one column: an empty cell takes the value of the cell
      above it once that has been filled; cells above the first value stay empty. */
  function FFill(col: seq<Option<real>>): (r: seq<Option<real>>)
    ensures |r| == |col|
  {
    if col == [] then []
    else
      var n := |col|;
      var above := FFill(col[..n - 1]);
      above + [if col[n - 1].Some? || n == 1 then col[n - 1] else above[n - 2]]
  }

  /** Forward fill never reads below a cell: the first n filled cells depend only on the
      first n cells, that is, a day's value never comes from a later day. */
  lemma {:induction false} FFillPrefix(col: seq<Option<real>>, n: nat)
    requires n <= |col|
    ensures FFill(col[..n]) == FFill(col)[..n]
    decreases |col|
  {
    if n < |col| {
      var front := col[..|col| - 1];
      FFillPrefix(front, n);
      assert front[..n] == col[..n];
    } else {
      assert col[..n] == col;
    }
  }

  lemma FFillStep(col: seq<Option<real>>, i: nat)
    requires i < |col|
    ensures FFill(col)[i] == if col[i].Some? || i == 0 then col[i] else FFill(col)[i - 1]
  {
    FFillPrefix(col, i + 1);
    FFillPrefix(col, i);
    assert col[..i + 1][..i] == col[..i];
  }

  /** A filled cell holds the latest value at or above it. */
  lemma {:induction false} FFillLatest(col: seq<Option<real>>, j: nat, i: nat)
    requires j <= i < |col|
    requires col[j].Some?
    requires forall k :: j < k <= i ==> col[k].None?
    ensures FFill(col)[i] == col[j]
  {
    FFillStep(col, i);
    if i > j {
      FFillLatest(col, j, i - 1);
    }
  }

  /** Cells above the first value of a column stay empty. */
  lemma {:induction false} FFillBeforeFirst(col: seq<Option<real>>, i: nat)
    requires i < |col|
    requires forall k :: 0 <= k <= i ==> col[k].None?
    ensures FFill(col)[i].None?
  {
    FFillStep(col, i);
    if i > 0 {
      FFillBeforeFirst(col, i - 1);
    }
  }

  lemma {:induction false} FFillFixedAt(col: seq<Option<real>>, i: nat)
    requires i < |col|
    ensures FFill(FFill(col))[i] == FFill(col)[i]
  {
    FFillStep(col, i);
    FFillStep(FFill(col), i);
    if i > 0 {
      FFillFixedAt(col, i - 1);
    }
  }

  /** Filling twice gives the same column as filling once. */
  lemma FFillIdempotent(col: seq<Option<real>>)
    ensures FFill(FFill(col)) == FFill(col)
  {
    forall i | 0 <= i < |col| ensures FFill(FFill(col))[i] == FFill(col)[i] {
      FFillFixedAt(col, i);
    }
  }

  // ---------------------------------------------------------------- the table

  /** `lg_stock`: the row index (days with an LG snapshot, ascending) and one filled column
      per LG id. */
  datatype Timeline = Timeline(days: seq<int>, columns: map<string, seq<Option<real>>>)

  function SnapshotDays(ls: seq<Snapshot>): (ds: seq<int>)
    ensures |ds| == |ls| && forall i :: 0 <= i < |ls| ==> ds[i] == ls[i].day
  {
    seq(|ls|, i requires 0 <= i < |ls| => ls[i].day)
  }

  /** One pivoted column, before filling. */
  function Column(ls: seq<Snapshot>, id: string, days: seq<int>): (col: seq<Option<real>>)
    ensures |col| == |days| && forall i :: 0 <= i < |days| ==> col[i] == LevelAt(ls, id, days[i])
  {
    seq(|days|, i requires 0 <= i < |days| => LevelAt(ls, id, days[i]))
  }

  function LgIds(ls: seq<Snapshot>): set<string> {
    set s | s in ls :: s.entityId
  }

  /** The pivoted and filled table of a set of LG snapshots. */
  function Table(ls: seq<Snapshot>): (t: Timeline)
    ensures t.days == SortedDays(SnapshotDays(ls))
    ensures forall id :: id in t.columns <==> id in LgIds(ls)
    ensures forall id :: id in t.columns ==> t.columns[id] == FFill(Column(ls, id, t.days))
  {
    var days := SortedDays(SnapshotDays(ls));
    Timeline(days, map id | id in LgIds(ls) :: FFill(Column(ls, id, days)))
  }

  /** `pivot(index="Day", columns="Entity_ID").fillna(method="ffill")` on the LG snapshots;
      None where `pivot` raises on a duplicated (day, LG) pair. */
  function LgStock(snaps: seq<Snapshot>): (r: Option<Timeline>)
    ensures r.None? <==> exists i, j :: 0 <= i < j < |snaps| && SameLgCell(snaps[i], snaps[j])
    ensures r.Some? <==> UniqueCells(LgSnapshots(snaps))
    ensures r.Some? ==> r.value == Table(LgSnapshots(snaps))
    ensures r.Some? ==>
      && Increasing(r.value.days)
      && (forall d :: d in r.value.days <==> exists s :: s in snaps && s.entityType == LG && s.day == d)
      && (forall id :: id in r.value.columns <==> exists s :: s in snaps && s.entityType == LG && s.entityId == id)
      && (forall id :: id in r.value.columns ==> |r.value.columns[id]| == |r.value.days|)
  {
    var ls := LgSnapshots(snaps);
    UniqueCellsIffDistinct(snaps);
    if !UniqueCells(ls) then None
    else
      assert forall d :: d in SnapshotDays(ls) <==> exists s :: s in ls && s.day == d by {
        forall d ensures d in SnapshotDays(ls) ==> exists s :: s in ls && s.day == d {
          if d in SnapshotDays(ls) {
            var k :| 0 <= k < |ls| && SnapshotDays(ls)[k] == d;
            assert ls[k] in ls;
          }
        }
      }
      Some(Table(ls))
  }

  /** s is id's latest LG snapshot dated at or before day. */
  predicate LatestAtOrBefore(ls: seq<Snapshot>, id: string, day: int, s: Snapshot) {
    && s in ls && s.entityId == id && s.day <= day
    && forall t :: t in ls && t.entityId == id && t.day <= day ==> t.day <= s.day
  }

  /** A pivot cell is empty when the LG has no snapshot dated on that row's day. */
  lemma ColumnEmptyAt(ls: seq<Snapshot>, id: string, days: seq<int>, m: nat)
    requires m < |days|
    requires forall s :: s in ls && s.entityId == id ==> s.day != days[m]
    ensures Column(ls, id, days)[m].None?
  {
    forall q | 0 <= q < |ls| ensures !(ls[q].entityId == id && ls[q].day == days[m]) {
      assert ls[q] in ls;
    }
  }

  /** Between the row of an LG's latest snapshot and a later row i, the column is empty. */
  lemma ColumnGapEmpty(ls: seq<Snapshot>, id: string, days: seq<int>, j: nat, i: nat, latest: int)
    requires Increasing(days) && j <= i < |days| && days[j] == latest
    requires forall t :: t in ls && t.entityId == id && t.day <= days[i] ==> t.day <= latest
    ensures forall m :: j < m <= i ==> Column(ls, id, days)[m].None?
  {
    forall m | j < m <= i ensures Column(ls, id, days)[m].None? {
      assert days[j] < days[m];
      assert m < i ==> days[m] < days[i];
      forall t | t in ls && t.entityId == id ensures t.day != days[m] {
        if t.day <= days[i] {
          assert t.day <= latest;
        }
      }
      ColumnEmptyAt(ls, id, days, m);
    }
  }

  /** Each cell of the timeline is its LG's latest snapshot at or before the row's day. */
  lemma LgStockIsLatestSnapshot(ls: seq<Snapshot>, id: string, i: nat, s: Snapshot)
    requires UniqueCells(ls)
    requires id in Table(ls).columns && i < |Table(ls).days|
    requires LatestAtOrBefore(ls, id, Table(ls).days[i], s)
    ensures Table(ls).columns[id][i] == Some(s.level)
  {
    var days := SortedDays(SnapshotDays(ls));
    var col := Column(ls, id, days);
    var k :| 0 <= k < |ls| && ls[k] == s;
    assert SnapshotDays(ls)[k] == s.day;
    assert s.day in SnapshotDays(ls);
    assert s.day in days;
    var j :| 0 <= j < |days| && days[j] == s.day;
    assert days[j] <= days[i];
    assert j <= i;
    LevelAtUnique(ls, k);
    assert col[j] == Some(s.level);
    ColumnGapEmpty(ls, id, days, j, i, s.day);
    FFillLatest(col, j, i);
  }

  /** Rows dated before an LG's first snapshot have empty pivot cells. */
  lemma ColumnEmptyBefore(ls: seq<Snapshot>, id: string, days: seq<int>, i: nat)
    requires Increasing(days) && i < |days|
    requires forall s :: s in ls && s.entityId == id ==> s.day > days[i]
    ensures forall m :: 0 <= m <= i ==> Column(ls, id, days)[m].None?
  {
    forall m | 0 <= m <= i ensures Column(ls, id, days)[m].None? {
      assert days[m] <= days[i];
      ColumnEmptyAt(ls, id, days, m);
    }
  }

  /** Before an LG's first snapshot its cells stay empty. */
  lemma LgStockBeforeFirstSnapshot(ls: seq<Snapshot>, id: string, i: nat)
    requires id in Table(ls).columns && i < |Table(ls).days|
    requires forall s :: s in ls && s.entityId == id ==> s.day > Table(ls).days[i]
    ensures Table(ls).columns[id][i].None?
  {
    var days := SortedDays(SnapshotDays(ls));
    ColumnEmptyBefore(ls, id, days, i);
    FFillBeforeFirst(Column(ls, id, days), i);
  }
}
