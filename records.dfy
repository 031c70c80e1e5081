/** The six tables the dashboard loads from its workbook, as typed records.
    Tons are exact reals, days are integers and every identifier is a string. */
module Records {

  datatype Option<+T> = None | Some(value: T)

  datatype Result<+T, +E> = Success(value: T) | Failure(error: E)

  /** The Settings sheet: the four parameters the dashboard reads from it. */
  datatype Settings = Settings(
    distributionDays: int,
    vehicleCapacity: real,
    vehiclesTotal: int,
    maxTripsPerVehicle: int)

  /** MAX_TRIPS: vehicle-trips the whole fleet can make in one day. */
  function MaxTrips(s: Settings): int {
    s.vehiclesTotal * s.maxTripsPerVehicle
  }

  /** DAILY_CAP: tons the whole fleet can move in one day. */
  function DailyCap(s: Settings): real {
    MaxTrips(s) as real * s.vehicleCapacity
  }

  /** One row of the central-godown to local-godown dispatch log. */
  datatype CgDispatch = CgDispatch(day: int, lgId: string, tons: real)

  /** One vehicle-trip leg from a local godown to a fair-price shop. */
  datatype LgDispatch = LgDispatch(day: int, lgId: string, fpsId: string, vehicleId: string, tons: real)

  datatype EntityType = LG | FPS

  /** One stock-level snapshot of a local godown or a fair-price shop. */
  datatype Snapshot = Snapshot(entityType: EntityType, entityId: string, day: int, level: real)

  /** Python's `math.ceil` on an exact real. */
  function Ceil(r: real): (c: int)
    ensures c as real - 1.0 < r <= c as real
  {
    -((-r).Floor)
  }

  /** A row of the local-godown registry. */
  datatype Lg = Lg(id: string, capacity: real)

  /** A row of the fair-price-shop registry. */
  datatype Fps = Fps(id: string, name: string, threshold: real)

  /** A registry whose identifiers are its primary key. */
  predicate UniqueFpsIds(registry: seq<Fps>) {
    forall i, j :: 0 <= i < j < |registry| ==> registry[i].id != registry[j].id
  }

  /** How many registry rows carry shop id. */
  function RegistryCount(registry: seq<Fps>, id: string): nat {
    if registry == [] then 0
    else (if registry[0].id == id then 1 else 0) + RegistryCount(registry[1..], id)
  }

  /** Counting from the back: the last row adds one exactly when it carries id. */
  lemma {:induction false} RegistryCountSnoc(registry: seq<Fps>, x: Fps, id: string)
    ensures RegistryCount(registry + [x], id) == RegistryCount(registry, id) + (if x.id == id then 1 else 0)
  {
    if registry != [] {
      assert (registry + [x])[1..] == registry[1..] + [x];
      RegistryCountSnoc(registry[1..], x, id);
    }
  }

  /** The names registered under id, in registry order: what `set_index("FPS_ID").loc[id,
      "FPS_Name"]` and the left merge on FPS_ID find for a shop. */
  function NamesOf(registry: seq<Fps>, id: string): (ns: seq<string>)
    ensures forall n :: n in ns <==> exists j :: 0 <= j < |registry| && registry[j].id == id && registry[j].name == n
  {
    if registry == [] then []
    else
      var m := |registry|;
      var front := NamesOf(registry[..m - 1], id);
      assert forall j :: 0 <= j < m - 1 ==> registry[..m - 1][j] == registry[j];
      front + (if registry[m - 1].id == id then [registry[m - 1].name] else [])
  }

  /** The lookup returns one name per registry row carrying id, repeats included. */
  lemma {:induction false} NamesOfCount(registry: seq<Fps>, id: string)
    ensures |NamesOf(registry, id)| == RegistryCount(registry, id)
  {
    if registry != [] {
      var m := |registry|;
      NamesOfCount(registry[..m - 1], id);
      assert registry == registry[..m - 1] + [registry[m - 1]];
      RegistryCountSnoc(registry[..m - 1], registry[m - 1], id);
    }
  }
}
