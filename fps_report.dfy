/** The FPS-wise dispatch report (app.py lines 147-158): the LG to FPS records of days
    1..hi grouped per fair-price shop into total tons, number of distinct vehicles and the
    sorted vehicle list, left-merged with the shop names and sorted by total, largest first. */
module FpsReport {
  import opened Records
  import opened Folds
  import opened Text
  import opened Aggregates

  /** `dispatch_lg.query("Day>=1 & Day<=hi")`. */
  function InWindow(lg: seq<LgDispatch>, hi: int): (w: seq<LgDispatch>)
    ensures forall x :: x in w <==> x in lg && 1 <= x.day <= hi
  {
    if lg == [] then []
    else
      var n := |lg|;
      assert lg == lg[..n - 1] + [lg[n - 1]];
      InWindow(lg[..n - 1], hi) + (if 1 <= lg[n - 1].day <= hi then [lg[n - 1]] else [])
  }

  /** The records keyed by shop. */
  function FpsEntries(w: seq<LgDispatch>): (es: seq<Entry<string>>)
    ensures |es| == |w|
    ensures forall i :: 0 <= i < |w| ==> es[i] == Entry(w[i].fpsId, w[i].tons)
  {
    seq(|w|, i requires 0 <= i < |w| => Entry(w[i].fpsId, w[i].tons))
  }

  /** The vehicle ids of the records of shop id, with repetitions. */
  function VehiclesOf(w: seq<LgDispatch>, id: string): (vs: seq<string>)
    ensures forall v :: v in vs <==> exists i :: 0 <= i < |w| && w[i].fpsId == id && w[i].vehicleId == v
  {
    if w == [] then []
    else
      var n := |w|;
      var front := VehiclesOf(w[..n - 1], id);
      assert forall i :: 0 <= i < n - 1 ==> w[..n - 1][i] == w[i];
      front + (if w[n - 1].fpsId == id then [w[n - 1].vehicleId] else [])
  }

  /** One row of the grouped aggregation, before the merge. */
  datatype Group = Group(fpsId: string, total: real, trips: nat, vehicleIds: string)

  /** The aggregation of one shop: `sum` of tons, `nunique` of vehicles and
      `",".join(sorted(set(vs)))`. */
  function GroupOf(w: seq<LgDispatch>, id: string): Group {
    var vs := VehiclesOf(w, id);
    Group(id, SumOn(FpsEntries(w), id), |set v | v in vs|, Join(SortedUnique(vs), ','))
  }

  /** The shops that have a record in w. */
  function ShopIds(w: seq<LgDispatch>): set<string> {
    set x | x in w :: x.fpsId
  }

  function GroupIds(gs: seq<Group>): set<string> {
    set g | g in gs :: g.fpsId
  }

  /** The shop ids among the record keys are exactly the shops with a record. */
  lemma ShopKeys(w: seq<LgDispatch>)
    ensures forall id :: id in Keys(FpsEntries(w)) <==> id in ShopIds(w)
  {
    var keys := Keys(FpsEntries(w));
    forall id ensures id in keys <==> id in ShopIds(w) {
      if id in keys {
        var k :| 0 <= k < |w| && keys[k] == id;
        assert w[k] in w;
      }
      if id in ShopIds(w) {
        var x :| x in w && x.fpsId == id;
        var k :| 0 <= k < |w| && w[k] == x;
        assert keys[k] == id;
      }
    }
  }

  /** Groups laid out along a key list carry exactly those keys, in that order. */
  lemma GroupsAlong(ks: seq<string>, gs: seq<Group>)
    requires |gs| == |ks| && forall i :: 0 <= i < |ks| ==> gs[i].fpsId == ks[i]
    ensures forall id :: id in GroupIds(gs) <==> id in ks
  {
    forall id ensures id in GroupIds(gs) <==> id in ks {
      if id in ks {
        var i :| 0 <= i < |ks| && ks[i] == id;
        assert gs[i] in gs;
      }
      if id in GroupIds(gs) {
        var g :| g in gs && g.fpsId == id;
        var i :| 0 <= i < |gs| && gs[i] == g;
      }
    }
  }

  /** `groupby("FPS_ID").agg(...)`: one group per shop with a record, shop ids ascending,
      each aggregating that shop's records. */
  function Groups(w: seq<LgDispatch>): (gs: seq<Group>)
    ensures GroupIds(gs) == ShopIds(w)
    ensures forall i, j :: 0 <= i < j < |gs| ==> Less(gs[i].fpsId, gs[j].fpsId)
    ensures forall i :: 0 <= i < |gs| ==> gs[i] == GroupOf(w, gs[i].fpsId)
  {
    var ks := SortedUnique(Keys(FpsEntries(w)));
    var gs := seq(|ks|, i requires 0 <= i < |ks| => GroupOf(w, ks[i]));
    ShopKeys(w);
    GroupsAlong(ks, gs);
    gs
  }

  // ---------------------------------------------------------------- left merge with the names

  /** A report row: a group with the shop's name, absent (NaN) when the registry has no
      entry for the shop. */
  datatype ReportRow = ReportRow(fpsId: string, total: real, trips: nat, vehicleIds: string, name: Option<string>)

  /** The name a shop gets from a registry with unique ids: its first registered name. */
  function NameIn(registry: seq<Fps>, id: string): Option<string> {
    var ns := NamesOf(registry, id);
    if ns == [] then None else Some(ns[0])
  }

  function Named(g: Group, name: Option<string>): ReportRow {
    ReportRow(g.fpsId, g.total, g.trips, g.vehicleIds, name)
  }

  /** The report row r carries group g's aggregates. */
  predicate RowOf(r: ReportRow, g: Group) {
    r.fpsId == g.fpsId && r.total == g.total && r.trips == g.trips && r.vehicleIds == g.vehicleIds
  }

  /** name is what the left merge can attach to shop id: none exactly when the registry
      does not list the shop, otherwise a name registered for it. */
  predicate NameFits(name: Option<string>, registry: seq<Fps>, id: string) {
    && (name.None? <==> forall j :: 0 <= j < |registry| ==> registry[j].id != id)
    && (name.Some? ==> exists j :: 0 <= j < |registry| && registry[j].id == id && registry[j].name == name.value)
  }

  /** The rows one group contributes to `merge(how="left")`: one per matching registry
      entry, or one without a name if there is none. */
  function MergeGroup(g: Group, registry: seq<Fps>): (rows: seq<ReportRow>)
    ensures |rows| >= 1
    ensures |rows| == if NamesOf(registry, g.fpsId) == [] then 1 else |NamesOf(registry, g.fpsId)|
    ensures forall k :: 0 <= k < |rows| ==>
      rows[k] == Named(g, if NamesOf(registry, g.fpsId) == [] then None else Some(NamesOf(registry, g.fpsId)[k]))
    ensures forall r :: r in rows ==> RowOf(r, g)
    ensures Named(g, NameIn(registry, g.fpsId)) in rows
  {
    var ns := NamesOf(registry, g.fpsId);
    if ns == [] then [Named(g, None)]
    else
      var rows := seq(|ns|, i requires 0 <= i < |ns| => Named(g, Some(ns[i])));
      assert rows[0] in rows;
      rows
  }

  /** Every merged row carries a name the registry gives the shop, or none exactly when
      the registry does not list it. */
  lemma MergeGroupNames(g: Group, registry: seq<Fps>, r: ReportRow)
    requires r in MergeGroup(g, registry)
    ensures NameFits(r.name, registry, g.fpsId)
  {
    var ns := NamesOf(registry, g.fpsId);
    if ns == [] {
      assert forall j :: 0 <= j < |registry| && registry[j].id == g.fpsId ==> registry[j].name in ns;
    } else {
      var rows := seq(|ns|, i requires 0 <= i < |ns| => Named(g, Some(ns[i])));
      assert MergeGroup(g, registry) == rows;
      var i :| 0 <= i < |rows| && rows[i] == r;
      assert ns[i] in ns;
      assert ns[0] in ns;
    }
  }

  function LeftMerge(gs: seq<Group>, registry: seq<Fps>): seq<ReportRow> {
    if gs == [] then []
    else LeftMerge(gs[..|gs| - 1], registry) + MergeGroup(gs[|gs| - 1], registry)
  }

  lemma {:induction false} UniqueNames(registry: seq<Fps>, id: string)
    requires UniqueFpsIds(registry)
    ensures |NamesOf(registry, id)| <= 1
  {
    if registry != [] {
      var m := |registry|;
      var front := registry[..m - 1];
      assert UniqueFpsIds(front);
      UniqueNames(front, id);
      if NamesOf(front, id) != [] {
        var n := NamesOf(front, id)[0];
        assert n in NamesOf(front, id);
        var j :| 0 <= j < m - 1 && front[j].id == id && front[j].name == n;
        assert registry[j].id == id;
        assert registry[m - 1].id != id;
      }
    }
  }

  /** Each group with its registered name. */
  function NamedGroups(gs: seq<Group>, registry: seq<Fps>): (rows: seq<ReportRow>)
    ensures |rows| == |gs|
    ensures forall i :: 0 <= i < |gs| ==> rows[i] == Named(gs[i], NameIn(registry, gs[i].fpsId))
  {
    seq(|gs|, i requires 0 <= i < |gs| => Named(gs[i], NameIn(registry, gs[i].fpsId)))
  }

  lemma MergeGroupUnique(g: Group, registry: seq<Fps>)
    requires UniqueFpsIds(registry)
    ensures MergeGroup(g, registry) == [Named(g, NameIn(registry, g.fpsId))]
  {
    UniqueNames(registry, g.fpsId);
  }

  lemma NamedGroupsSnoc(gs: seq<Group>, registry: seq<Fps>)
    requires gs != []
    ensures NamedGroups(gs, registry)
         == NamedGroups(gs[..|gs| - 1], registry) + [Named(gs[|gs| - 1], NameIn(registry, gs[|gs| - 1].fpsId))]
  {
  }

  /** With unique registry ids the left merge keeps one row per group, in order, each
      carrying the shop's registered name or none. */
  lemma {:induction false} LeftMergeUnique(gs: seq<Group>, registry: seq<Fps>)
    requires UniqueFpsIds(registry)
    ensures LeftMerge(gs, registry) == NamedGroups(gs, registry)
  {
    if gs != [] {
      var n := |gs|;
      var front, g := gs[..n - 1], gs[n - 1];
      LeftMergeUnique(front, registry);
      MergeGroupUnique(g, registry);
      NamedGroupsSnoc(gs, registry);
    }
  }

  // ---------------------------------------------------------------- sort by total, descending

  predicate Descending(rows: seq<ReportRow>) {
    forall i, j :: 0 <= i < j < |rows| ==> rows[i].total >= rows[j].total
  }

  function InsertDesc(x: ReportRow, rows: seq<ReportRow>): (r: seq<ReportRow>)
    ensures multiset(r) == multiset(rows) + multiset{x}
  {
    if rows == [] || x.total >= rows[0].total then [x] + rows
    else
      assert rows == [rows[0]] + rows[1..];
      [rows[0]] + InsertDesc(x, rows[1..])
  }

  lemma {:induction false} InsertDescending(x: ReportRow, rows: seq<ReportRow>)
    requires Descending(rows)
    ensures Descending(InsertDesc(x, rows))
  {
    if rows != [] && x.total < rows[0].total {
      InsertDescending(x, rows[1..]);
      var t := InsertDesc(x, rows[1..]);
      forall j | 0 <= j < |t| ensures rows[0].total >= t[j].total {
        assert t[j] in multiset(t);
        if t[j] != x {
          assert t[j] in multiset(rows[1..]);
          var k :| 0 <= k < |rows[1..]| && rows[1..][k] == t[j];
          assert rows[k + 1] == t[j];
        }
      }
    }
  }

  /** `sort_values("Total_Dispatched_tons", ascending=False)`: largest total first. */
  function SortDesc(rows: seq<ReportRow>): (r: seq<ReportRow>)
    ensures Descending(r)
    ensures multiset(r) == multiset(rows)
  {
    if rows == [] then []
    else
      var rest := SortDesc(rows[1..]);
      InsertDescending(rows[0], rest);
      assert rows == [rows[0]] + rows[1..];
      InsertDesc(rows[0], rest)
  }

  /** The FPS report for the slider's upper bound hi: every row of the left-merged groups,
      reordered so that the totals descend. */
  function Report(lg: seq<LgDispatch>, registry: seq<Fps>, hi: int): (r: seq<ReportRow>)
    ensures Descending(r)
    ensures multiset(r) == multiset(LeftMerge(Groups(InWindow(lg, hi)), registry))
  {
    SortDesc(LeftMerge(Groups(InWindow(lg, hi)), registry))
  }

  // ---------------------------------------------------------------- what the report states

  /** Every row of the left merge comes from the merge of one group. */
  lemma {:induction false} LeftMergeFrom(gs: seq<Group>, registry: seq<Fps>, r: ReportRow)
    requires r in LeftMerge(gs, registry)
    ensures exists i :: 0 <= i < |gs| && r in MergeGroup(gs[i], registry)
  {
    var n := |gs|;
    var front := gs[..n - 1];
    assert LeftMerge(gs, registry) == LeftMerge(front, registry) + MergeGroup(gs[n - 1], registry);
    if r in LeftMerge(front, registry) {
      LeftMergeFrom(front, registry, r);
      var i :| 0 <= i < |front| && r in MergeGroup(front[i], registry);
      assert front[i] == gs[i];
    }
  }

  /** Every row the merge of a group yields is in the left merge. */
  lemma {:induction false} LeftMergeHas(gs: seq<Group>, registry: seq<Fps>, i: nat, r: ReportRow)
    requires i < |gs| && r in MergeGroup(gs[i], registry)
    ensures r in LeftMerge(gs, registry)
  {
    if i < |gs| - 1 {
      assert gs[..|gs| - 1][i] == gs[i];
      LeftMergeHas(gs[..|gs| - 1], registry, i, r);
    }
    InConcat(LeftMerge(gs[..|gs| - 1], registry), MergeGroup(gs[|gs| - 1], registry), r);
  }

  /** The tons of shop id's records dated 1..hi, in one pass over the log. */
  function ShopTons(lg: seq<LgDispatch>, id: string, hi: int): real {
    if lg == [] then 0.0
    else
      var x := lg[|lg| - 1];
      ShopTons(lg[..|lg| - 1], id, hi) + (if x.fpsId == id && 1 <= x.day <= hi then x.tons else 0.0)
  }

  lemma {:induction false} WindowShopTons(lg: seq<LgDispatch>, id: string, hi: int)
    ensures SumOn(FpsEntries(InWindow(lg, hi)), id) == ShopTons(lg, id, hi)
  {
    if lg != [] {
      var n := |lg|;
      var x := lg[n - 1];
      WindowShopTons(lg[..n - 1], id, hi);
      var w := InWindow(lg[..n - 1], hi);
      if 1 <= x.day <= hi {
        assert InWindow(lg, hi) == w + [x];
        assert FpsEntries(w + [x]) == FpsEntries(w) + [Entry(x.fpsId, x.tons)];
        SumOnSnoc(FpsEntries(w), Entry(x.fpsId, x.tons), id);
      } else {
        assert InWindow(lg, hi) == w;
      }
    }
  }

  /** Every report row comes from one group of the windowed records. */
  lemma ReportRowGroup(lg: seq<LgDispatch>, registry: seq<Fps>, hi: int, r: ReportRow)
    requires r in Report(lg, registry, hi)
    ensures exists g :: g in Groups(InWindow(lg, hi)) && r in MergeGroup(g, registry)
  {
    var gs := Groups(InWindow(lg, hi));
    assert r in multiset(Report(lg, registry, hi));
    assert r in LeftMerge(gs, registry);
    LeftMergeFrom(gs, registry, r);
    var i :| 0 <= i < |gs| && r in MergeGroup(gs[i], registry);
    assert gs[i] in gs;
  }

  /** Every report row is the aggregate of a shop that has a record dated 1..hi: its total
      is that shop's tonnage over days 1..hi, and its name is the registry's, or none when
      the registry does not list the shop. */
  lemma ReportRows(lg: seq<LgDispatch>, registry: seq<Fps>, hi: int, r: ReportRow)
    requires r in Report(lg, registry, hi)
    ensures exists x :: x in lg && 1 <= x.day <= hi && x.fpsId == r.fpsId
    ensures r.total == ShopTons(lg, r.fpsId, hi)
    ensures NameFits(r.name, registry, r.fpsId)
  {
    var w := InWindow(lg, hi);
    ReportRowGroup(lg, registry, hi, r);
    var g :| g in Groups(w) && r in MergeGroup(g, registry);
    assert r.fpsId in GroupIds(Groups(w));
    assert r.fpsId in ShopIds(w);
    var x :| x in w && x.fpsId == r.fpsId;
    assert x in lg && 1 <= x.day <= hi;
    var i :| 0 <= i < |Groups(w)| && Groups(w)[i] == g;
    assert g == GroupOf(w, g.fpsId);
    WindowShopTons(lg, r.fpsId, hi);
    MergeGroupNames(g, registry, r);
  }

  /** Every shop with a record dated 1..hi has a row in the report. */
  lemma ReportCovers(lg: seq<LgDispatch>, registry: seq<Fps>, hi: int, x: LgDispatch)
    requires x in lg && 1 <= x.day <= hi
    ensures exists r :: r in Report(lg, registry, hi) && r.fpsId == x.fpsId
  {
    var gs := Groups(InWindow(lg, hi));
    var i := GroupOfShop(lg, hi, x);
    var r := Named(gs[i], NameIn(registry, gs[i].fpsId));
    LeftMergeHas(gs, registry, i, r);
    InReport(lg, registry, hi, r);
  }

  /** The index of the group of a windowed record's shop. */
  lemma GroupOfShop(lg: seq<LgDispatch>, hi: int, x: LgDispatch) returns (i: nat)
    requires x in lg && 1 <= x.day <= hi
    ensures i < |Groups(InWindow(lg, hi))| && Groups(InWindow(lg, hi))[i].fpsId == x.fpsId
  {
    var w := InWindow(lg, hi);
    assert x in w;
    assert x.fpsId in ShopIds(w);
    i := GroupIndex(Groups(w), x.fpsId);
  }

  lemma GroupIndex(gs: seq<Group>, id: string) returns (i: nat)
    requires id in GroupIds(gs)
    ensures i < |gs| && gs[i].fpsId == id
  {
    var g :| g in gs && g.fpsId == id;
    i :| 0 <= i < |gs| && gs[i] == g;
  }

  lemma InReport(lg: seq<LgDispatch>, registry: seq<Fps>, hi: int, r: ReportRow)
    requires r in LeftMerge(Groups(InWindow(lg, hi)), registry)
    ensures r in Report(lg, registry, hi)
  {
    assert r in multiset(Report(lg, registry, hi));
  }

  /** The vehicle ids of shop id's records dated 1..hi. */
  function ShopVehicles(lg: seq<LgDispatch>, id: string, hi: int): set<string> {
    set x | x in lg && x.fpsId == id && 1 <= x.day <= hi :: x.vehicleId
  }

  /** A group's vehicle list splits back into the distinct vehicles, ascending, and there
      are as many of them as the trip count, provided no vehicle id holds a comma. */
  lemma GroupVehicles(w: seq<LgDispatch>, id: string)
    requires id in ShopIds(w)
    requires forall x :: x in w ==> ',' !in x.vehicleId
    ensures Split(GroupOf(w, id).vehicleIds, ',') == SortedUnique(VehiclesOf(w, id))
    ensures |SortedUnique(VehiclesOf(w, id))| == GroupOf(w, id).trips
  {
    var vs := VehiclesOf(w, id);
    var sorted := SortedUnique(vs);
    var x :| x in w && x.fpsId == id;
    var k :| 0 <= k < |w| && w[k] == x;
    assert x.vehicleId in vs;
    assert x.vehicleId in sorted;
    forall i | 0 <= i < |sorted| ensures ',' !in sorted[i] {
      assert sorted[i] in vs;
      var j :| 0 <= j < |w| && w[j].fpsId == id && w[j].vehicleId == sorted[i];
      assert w[j] in w;
    }
    SplitJoin(sorted, ',');
    AscendingCard(sorted);
    assert (set v | v in sorted) == (set v | v in vs);
  }

  /** The report's vehicle column: each row's list splits into the shop's distinct vehicle
      ids over days 1..hi, in ascending order and as many as its trip count. */
  lemma ReportVehicles(lg: seq<LgDispatch>, registry: seq<Fps>, hi: int, r: ReportRow)
    requires r in Report(lg, registry, hi)
    requires forall x :: x in lg ==> ',' !in x.vehicleId
    ensures Ascending(Split(r.vehicleIds, ','))
    ensures forall v :: v in Split(r.vehicleIds, ',') <==> v in ShopVehicles(lg, r.fpsId, hi)
    ensures |Split(r.vehicleIds, ',')| == r.trips
  {
    var w := InWindow(lg, hi);
    ReportRowGroup(lg, registry, hi, r);
    var g :| g in Groups(w) && r in MergeGroup(g, registry);
    assert r.fpsId in GroupIds(Groups(w));
    var i :| 0 <= i < |Groups(w)| && Groups(w)[i] == g;
    assert g == GroupOf(w, g.fpsId);
    GroupVehicles(w, r.fpsId);
    WindowVehicles(lg, r.fpsId, hi);
  }

  lemma WindowVehicles(lg: seq<LgDispatch>, id: string, hi: int)
    ensures forall v :: v in SortedUnique(VehiclesOf(InWindow(lg, hi), id)) <==> v in ShopVehicles(lg, id, hi)
  {
    var w := InWindow(lg, hi);
    forall v ensures v in VehiclesOf(w, id) <==> v in ShopVehicles(lg, id, hi) {
      if v in VehiclesOf(w, id) {
        var j :| 0 <= j < |w| && w[j].fpsId == id && w[j].vehicleId == v;
        assert w[j] in w;
      }
      if v in ShopVehicles(lg, id, hi) {
        var x :| x in lg && x.fpsId == id && 1 <= x.day <= hi && x.vehicleId == v;
        assert x in w;
        var j :| 0 <= j < |w| && w[j] == x;
      }
    }
  }

  // ---------------------------------------------------------------- the report adds up to lg_sel

  function ReportTons(rows: seq<ReportRow>): real {
    if rows == [] then 0.0 else rows[0].total + ReportTons(rows[1..])
  }

  function GroupTons(gs: seq<Group>): real {
    if gs == [] then 0.0 else gs[0].total + GroupTons(gs[1..])
  }

  lemma {:induction false} InsertDescTons(x: ReportRow, rows: seq<ReportRow>)
    ensures ReportTons(InsertDesc(x, rows)) == x.total + ReportTons(rows)
  {
    if rows != [] && x.total < rows[0].total {
      InsertDescTons(x, rows[1..]);
      assert ([rows[0]] + InsertDesc(x, rows[1..]))[1..] == InsertDesc(x, rows[1..]);
    } else {
      assert ([x] + rows)[1..] == rows;
    }
  }

  lemma {:induction false} SortDescTons(rows: seq<ReportRow>)
    ensures ReportTons(SortDesc(rows)) == ReportTons(rows)
  {
    if rows != [] {
      SortDescTons(rows[1..]);
      InsertDescTons(rows[0], SortDesc(rows[1..]));
    }
  }

  lemma {:induction false} NamedGroupsTons(gs: seq<Group>, registry: seq<Fps>)
    ensures ReportTons(NamedGroups(gs, registry)) == GroupTons(gs)
  {
    if gs != [] {
      NamedGroupsTons(gs[1..], registry);
      assert NamedGroups(gs, registry)[1..] == NamedGroups(gs[1..], registry);
    }
  }

  lemma {:induction false} GroupTonsRows(gs: seq<Group>, ks: seq<string>, es: seq<Entry<string>>)
    requires |gs| == |ks|
    requires forall i :: 0 <= i < |gs| ==> gs[i].total == SumOn(es, ks[i])
    ensures GroupTons(gs) == Total(GroupRows(ks, es))
  {
    if gs != [] {
      GroupTonsRows(gs[1..], ks[1..], es);
      var rows := GroupRows(ks, es);
      assert rows == [rows[0]] + GroupRows(ks[1..], es);
      TotalCons(rows[0], GroupRows(ks[1..], es));
    }
  }

  lemma AscendingNoDup(ks: seq<string>)
    requires Ascending(ks)
    ensures NoDup(ks)
  {
    forall i, j | 0 <= i < j < |ks| ensures ks[i] != ks[j] {
      LessIrreflexive(ks[i]);
    }
  }

  /** The groups lose no tonnage of the records they are built from. */
  lemma GroupsTons(w: seq<LgDispatch>)
    ensures GroupTons(Groups(w)) == Total(FpsEntries(w))
  {
    var es := FpsEntries(w);
    var ks := SortedUnique(Keys(es));
    var gs := Groups(w);
    assert |gs| == |ks| && forall i :: 0 <= i < |gs| ==> gs[i].total == SumOn(es, ks[i]);
    GroupTonsRows(gs, ks, es);
    AscendingNoDup(ks);
    forall i | 0 <= i < |es| ensures es[i].key in ks {
      assert es[i].key == Keys(es)[i];
    }
    GroupedTotal(ks, es, Always());
    SelectAlways(es);
    SelectAlways(GroupRows(ks, es));
  }

  lemma InWindowStep(lg: seq<LgDispatch>, hi: int)
    requires lg != []
    ensures InWindow(lg, hi)
         == InWindow(lg[..|lg| - 1], hi) + (if 1 <= lg[|lg| - 1].day <= hi then [lg[|lg| - 1]] else [])
  {
  }

  lemma FpsEntriesSnoc(w: seq<LgDispatch>, x: LgDispatch)
    ensures Total(FpsEntries(w + [x])) == Total(FpsEntries(w)) + x.tons
  {
    assert FpsEntries(w + [x]) == FpsEntries(w) + [Entry(x.fpsId, x.tons)];
    TotalSnoc(FpsEntries(w), Entry(x.fpsId, x.tons));
  }

  lemma LgEntriesSnoc(lg: seq<LgDispatch>)
    requires lg != []
    ensures LgEntries(lg) == LgEntries(lg[..|lg| - 1]) + [Entry(lg[|lg| - 1].day, lg[|lg| - 1].tons)]
  {
  }

  /** The tons a record adds to days 1..hi. */
  function WindowAdds(x: LgDispatch, hi: int): real {
    if 1 <= x.day <= hi then x.tons else 0.0
  }

  lemma WindowTonsStep(lg: seq<LgDispatch>, hi: int)
    requires lg != []
    ensures Total(FpsEntries(InWindow(lg, hi)))
         == Total(FpsEntries(InWindow(lg[..|lg| - 1], hi))) + WindowAdds(lg[|lg| - 1], hi)
  {
    var x := lg[|lg| - 1];
    var w := InWindow(lg[..|lg| - 1], hi);
    InWindowStep(lg, hi);
    if 1 <= x.day <= hi {
      FpsEntriesSnoc(w, x);
    } else {
      assert InWindow(lg, hi) == w;
    }
  }

  lemma SelectedTonsStep(lg: seq<LgDispatch>, hi: int)
    requires lg != []
    ensures Total(Select(LgEntries(lg), Between(1, hi)))
         == Total(Select(LgEntries(lg[..|lg| - 1]), Between(1, hi))) + WindowAdds(lg[|lg| - 1], hi)
  {
    var x := lg[|lg| - 1];
    LgEntriesSnoc(lg);
    SelectSnocTotal(LgEntries(lg[..|lg| - 1]), Entry(x.day, x.tons), Between(1, hi));
    assert Between(1, hi)(x.day) <==> 1 <= x.day <= hi;
  }

  lemma {:induction false} WindowTotal(lg: seq<LgDispatch>, hi: int)
    ensures Total(FpsEntries(InWindow(lg, hi))) == Total(Select(LgEntries(lg), Between(1, hi)))
  {
    if lg != [] {
      WindowTotal(lg[..|lg| - 1], hi);
      WindowTonsStep(lg, hi);
      SelectedTonsStep(lg, hi);
    } else {
      assert FpsEntries(InWindow(lg, hi)) == [];
      assert LgEntries(lg) == [];
    }
  }

  /** With a registry keyed by shop id, the report's totals add up to the LG to FPS tonnage
      of days 1..hi, the `lg_sel` KPI: the report neither drops nor repeats a ton. */
  lemma ReportTotal(lg: seq<LgDispatch>, registry: seq<Fps>, hi: int)
    requires UniqueFpsIds(registry)
    ensures ReportTons(Report(lg, registry, hi)) == Total(Select(LgEntries(lg), Between(1, hi)))
  {
    var w := InWindow(lg, hi);
    SortDescTons(LeftMerge(Groups(w), registry));
    LeftMergeUnique(Groups(w), registry);
    NamedGroupsTons(Groups(w), registry);
    GroupsTons(w);
    WindowTotal(lg, hi);
  }
}
