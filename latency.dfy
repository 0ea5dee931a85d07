/** The `POST /api/latency` handler of `api/latency.py`: exact, case-sensitive
    region matching, an all-zero entry for a region without rows, the strict
    breach count, and a result keyed by region. Its averages and percentile
    come from numpy and are left abstract. */
module LatencyApi {
  import opened PyValues
  import Stats
  import App

  /** The exceptions the handler can raise on the data it is given. */
  datatype Error = KeyError(key: string) | TypeError

  datatype Result<T> = Success(value: T) | Failure(error: Error)

  /** One value of the response map. */
  datatype Entry = Entry(avgLatency: real, p95Latency: real, avgUptime: real, breaches: nat)

  /** `np.mean`, `np.percentile(values, q)` and `round(x, 2)`, left abstract. */
  datatype NumPy = NumPy(mean: seq<real> -> real, percentile: (seq<real>, real) -> real, round2: real -> real)

  /** The entry written for a requested region that has no rows. */
  const ZeroEntry := Entry(0.0, 0.0, 0.0, 0)

  /** `item["region"] == region`, for an item that has the key: only a string
      equal to the region compares equal to it. */
  predicate Matches(item: Record, region: string)
  {
    "region" in item && item["region"] == Str(region)
  }

  /** `[item for item in telemetry_data if item["region"] == region]`: reading
      `item["region"]` raises `KeyError` on any item without the key. */
  function RegionRows(data: seq<Record>, region: string): (r: Result<seq<Record>>)
    ensures r.Failure? <==> exists i :: 0 <= i < |data| && "region" !in data[i]
    ensures r.Failure? ==> r.error == KeyError("region")
    ensures r.Success? ==> |r.value| <= |data|
  {
    if |data| == 0 then Success([])
    else if "region" !in data[0] then Failure(KeyError("region"))
    else match RegionRows(data[1..], region)
      case Failure(e) => Failure(e)
      case Success(rest) =>
        Success(if data[0]["region"] == Str(region) then [data[0]] + rest else rest)
  }

  /** When the dataset can be filtered, the rows are exactly the items whose
      region equals the requested one, character for character. */
  lemma {:induction false} RegionRowsExact(data: seq<Record>, region: string)
    requires RegionRows(data, region).Success?
    ensures forall item :: multiset(RegionRows(data, region).value)[item] ==
                           if Matches(item, region) then multiset(data)[item] else 0
  {
    if |data| > 0 {
      RegionRowsExact(data[1..], region);
      assert data == [data[0]] + data[1..];
    }
  }

  /** `[item[key] for item in rows]`. */
  function Column(rows: seq<Record>, key: string): (r: Result<seq<Value>>)
    ensures r.Failure? <==> exists i :: 0 <= i < |rows| && key !in rows[i]
    ensures r.Failure? ==> r.error == KeyError(key)
    ensures r.Success? ==> |r.value| == |rows| && forall i :: 0 <= i < |rows| ==> r.value[i] == rows[i][key]
  {
    if |rows| == 0 then Success([])
    else if key !in rows[0] then Failure(KeyError(key))
    else match Column(rows[1..], key)
      case Failure(e) => Failure(e)
      case Success(rest) => Success([rows[0][key]] + rest)
  }

  /** The number a value stands for in numpy arithmetic and in `>`: an `int`,
      a `float` or a `bool`. */
  function AsNumber(v: Value): Option<real>
  {
    match v
    case Num(x) => Some(x)
    case Bool(b) => Some(if b then 1.0 else 0.0)
    case _ => None
  }

  /** The values as numbers; any other value makes `np.mean` or the `>`
      comparison raise `TypeError`. */
  function Numbers(vs: seq<Value>): (r: Result<seq<real>>)
    ensures r.Failure? <==> exists i :: 0 <= i < |vs| && AsNumber(vs[i]).None?
    ensures r.Failure? ==> r.error == TypeError
    ensures r.Success? ==> |r.value| == |vs| && forall i :: 0 <= i < |vs| ==> AsNumber(vs[i]) == Some(r.value[i])
  {
    if |vs| == 0 then Success([])
    else match AsNumber(vs[0])
      case None => Failure(TypeError)
      case Some(x) =>
        match Numbers(vs[1..])
        case Failure(e) => Failure(e)
        case Success(rest) => Success([x] + rest)
  }

  /** What one iteration of the loop writes for `region`, or the exception it
      raises. */
  function RegionEntry(np: NumPy, data: seq<Record>, region: string, threshold: int): (r: Result<Entry>)
  {
    match RegionRows(data, region)
    case Failure(e) => Failure(e)
    case Success(rows) =>
      if |rows| == 0 then Success(ZeroEntry)
      else match Column(rows, "latency_ms")
        case Failure(e) => Failure(e)
        case Success(lv) =>
          match Column(rows, "uptime_pct")
          case Failure(e) => Failure(e)
          case Success(uv) =>
            match Numbers(lv)
            case Failure(e) => Failure(e)
            case Success(lats) =>
              match Numbers(uv)
              case Failure(e) => Failure(e)
              case Success(ups) =>
                Success(Entry(np.round2(np.mean(lats)), np.round2(np.percentile(lats, 95.0)),
                              np.round2(np.mean(ups)), Stats.Breaches(lats, threshold as real)))
  }

  /** `get_latency_metrics`: fills `metrics` region by region, stopping at the
      first exception. On success the keys are exactly the requested regions
      (a repeated region is one key) and each holds that region's entry. */
  method GetLatencyMetrics(np: NumPy, data: seq<Record>, regions: seq<string>, threshold: int)
    returns (out: Result<map<string, Entry>>)
    ensures out.Success? <==> forall i :: 0 <= i < |regions| ==> RegionEntry(np, data, regions[i], threshold).Success?
    ensures out.Success? ==> out.value.Keys == set i | 0 <= i < |regions| :: regions[i]
    ensures out.Success? ==> forall i :: 0 <= i < |regions| ==>
      out.value[regions[i]] == RegionEntry(np, data, regions[i], threshold).value
    ensures out.Failure? ==>
      exists i :: (0 <= i < |regions| && RegionEntry(np, data, regions[i], threshold).Failure?
                   && out.error == RegionEntry(np, data, regions[i], threshold).error
                   && forall j :: 0 <= j < i ==> RegionEntry(np, data, regions[j], threshold).Success?)
  {
    var metrics: map<string, Entry> := map[];
    for i := 0 to |regions|
      invariant metrics.Keys == set j | 0 <= j < i :: regions[j]
      invariant forall j :: 0 <= j < i ==> RegionEntry(np, data, regions[j], threshold).Success?
      invariant forall j :: 0 <= j < i ==> metrics[regions[j]] == RegionEntry(np, data, regions[j], threshold).value
    {
      var region := regions[i];
      var regionData := RegionRows(data, region);
      if regionData.Failure? {
        assert RegionEntry(np, data, region, threshold) == Failure(regionData.error);
        return Failure(regionData.error);
      }
      var rows := regionData.value;

      if |rows| == 0 {
        assert RegionEntry(np, data, region, threshold) == Success(ZeroEntry);
        metrics := metrics[region := ZeroEntry];
        continue;
      }

      var latencyValues := Column(rows, "latency_ms");
      if latencyValues.Failure? {
        assert RegionEntry(np, data, region, threshold) == Failure(latencyValues.error);
        return Failure(latencyValues.error);
      }
      var uptimeValues := Column(rows, "uptime_pct");
      if uptimeValues.Failure? {
        assert RegionEntry(np, data, region, threshold) == Failure(uptimeValues.error);
        return Failure(uptimeValues.error);
      }
      var latencies := Numbers(latencyValues.value);
      if latencies.Failure? {
        assert RegionEntry(np, data, region, threshold) == Failure(latencies.error);
        return Failure(latencies.error);
      }
      var uptimes := Numbers(uptimeValues.value);
      if uptimes.Failure? {
        assert RegionEntry(np, data, region, threshold) == Failure(uptimes.error);
        return Failure(uptimes.error);
      }

      var avgLatency := np.mean(latencies.value);
      var p95Latency := np.percentile(latencies.value, 95.0);
      var avgUptime := np.mean(uptimes.value);
      var breaches := Stats.Breaches(latencies.value, threshold as real);

      var entry := Entry(np.round2(avgLatency), np.round2(p95Latency), np.round2(avgUptime), breaches);
      assert RegionEntry(np, data, region, threshold) == Success(entry);
      metrics := metrics[region := entry];
    }
    return Success(metrics);
  }

  /** A requested region that no item matches gets the all-zero entry. */
  lemma EmptyRegionIsZero(np: NumPy, data: seq<Record>, region: string, threshold: int)
    requires forall i :: 0 <= i < |data| ==> "region" in data[i] && !Matches(data[i], region)
    ensures RegionEntry(np, data, region, threshold) == Success(ZeroEntry)
  {
    RegionRowsExact(data, region);
  }

  /** The breach count is the number of matched latencies strictly above the
      threshold, so it never exceeds the number of matched rows. */
  lemma BreachesBounded(np: NumPy, data: seq<Record>, region: string, threshold: int)
    requires RegionEntry(np, data, region, threshold).Success?
    ensures RegionEntry(np, data, region, threshold).value.breaches <= |RegionRows(data, region).value|
  {
  }

  /** A matched row without `latency_ms` is a `KeyError`, not a skipped record. */
  lemma MissingLatencyIsKeyError(np: NumPy, data: seq<Record>, region: string, threshold: int, k: nat)
    requires forall i :: 0 <= i < |data| ==> "region" in data[i]
    requires k < |data| && Matches(data[k], region) && "latency_ms" !in data[k]
    ensures RegionEntry(np, data, region, threshold) == Failure(KeyError("latency_ms"))
  {
    RegionRowsExact(data, region);
    var rows := RegionRows(data, region).value;
    assert data[k] in multiset(data);
    assert data[k] in multiset(rows);
    var j :| 0 <= j < |rows| && rows[j] == data[k];
  }

  /** A matched row without `uptime_pct`, when every matched row has
      `latency_ms`, is a `KeyError` too. */
  lemma MissingUptimeIsKeyError(np: NumPy, data: seq<Record>, region: string, threshold: int, k: nat)
    requires forall i :: 0 <= i < |data| ==> "region" in data[i]
    requires forall i :: 0 <= i < |data| && Matches(data[i], region) ==> "latency_ms" in data[i]
    requires k < |data| && Matches(data[k], region) && "uptime_pct" !in data[k]
    ensures RegionEntry(np, data, region, threshold) == Failure(KeyError("uptime_pct"))
  {
    RegionRowsExact(data, region);
    var rows := RegionRows(data, region).value;
    assert data[k] in multiset(data);
    assert data[k] in multiset(rows);
    var j :| 0 <= j < |rows| && rows[j] == data[k];
    forall r | 0 <= r < |rows|
      ensures "latency_ms" in rows[r]
    {
      assert rows[r] in multiset(rows);
      assert rows[r] in multiset(data);
      var i :| 0 <= i < |data| && data[i] == rows[r];
    }
  }

  /** An item without a `region` key fails every request that names at least
      one region, whether or not the item would have matched. */
  lemma MissingRegionIsKeyError(np: NumPy, data: seq<Record>, region: string, threshold: int, k: nat)
    requires k < |data| && "region" !in data[k]
    ensures RegionEntry(np, data, region, threshold) == Failure(KeyError("region"))
  {
  }

  /** Unlike `api/app.py`, matching is case-sensitive: a record tagged
      `us-east` is not a row of `US-EAST`, which gets the all-zero entry, while
      the other handler counts it. */
  lemma CaseSensitiveUnlikeApp(np: NumPy, rt: Runtime)
    ensures var data := [map["region" := Str("us-east"), "latency_ms" := Num(100.0), "uptime_pct" := Num(99.0)]];
      && RegionEntry(np, data, "US-EAST", 150) == Success(ZeroEntry)
      && |App.Rows(rt, data, "US-EAST")| == 1
  {
    var data := [map["region" := Str("us-east"), "latency_ms" := Num(100.0), "uptime_pct" := Num(99.0)]];
    assert data[1..] == [];
    assert "us-east" != "US-EAST" by {
      assert "us-east"[0] != "US-EAST"[0];
    }
    assert RegionRows(data, "US-EAST") == Success([]);
    assert App.RegionOf(rt, data[0]) == "us-east";
    assert Lower("US-EAST") == "us-east";
    assert App.InRegion(rt, data[0], "US-EAST");
  }
}
