/** The `POST /api/latency` handler of `api/app.py`: field extraction with
    ordered aliases, a case-insensitive region filter, and one result per
    requested region, in request order. The telemetry dataset is an immutable
    sequence passed in by the caller. */
module App {
  import opened PyValues
  import opened Stats

  /** The keys tried, in priority order, for a record's latency and uptime. */
  const LatencyAliases: seq<string> := ["latency_ms", "ms", "latency"]
  const UptimeAliases: seq<string> := ["uptime", "up", "is_up"]

  /** The index of the first alias that is a key of the record, if any. */
  function FirstPresent(row: Record, aliases: seq<string>): (r: Option<nat>)
    ensures r.Some? ==> r.value < |aliases| && aliases[r.value] in row
    ensures r.Some? ==> forall j :: 0 <= j < r.value ==> aliases[j] !in row
    ensures r.None? <==> forall j :: 0 <= j < |aliases| ==> aliases[j] !in row
  {
    if |aliases| == 0 then None
    else if aliases[0] in row then Some(0)
    else match FirstPresent(row, aliases[1..])
      case None => None
      case Some(i) => Some(i + 1)
  }

  /** What `get_latency(row)` returns: `float(...)` of the value under the
      first alias present, `None` when that fails or when no alias is present. */
  function Latency(rt: Runtime, row: Record): (r: Option<real>)
  {
    match FirstPresent(row, LatencyAliases)
    case None => None
    case Some(i) => Float(rt, row[LatencyAliases[i]])
  }

  /** What `get_uptime(row)` returns: a `bool` under the first alias present
      is `1.0` or `0.0`, any other value goes through `float(...)`. */
  function Uptime(rt: Runtime, row: Record): (r: Option<real>)
  {
    match FirstPresent(row, UptimeAliases)
    case None => None
    case Some(i) =>
      var v := row[UptimeAliases[i]];
      if v.Bool? then Some(if v.b then 1.0 else 0.0) else Float(rt, v)
  }

  /** `get_latency`: scans the aliases and returns at the first one present. */
  method GetLatency(rt: Runtime, row: Record) returns (r: Option<real>)
    ensures r == Latency(rt, row)
  {
    for i := 0 to |LatencyAliases|
      invariant forall j :: 0 <= j < i ==> LatencyAliases[j] !in row
    {
      var k := LatencyAliases[i];
      if k in row {
        return Float(rt, row[k]);
      }
    }
    return None;
  }

  /** `get_uptime`: scans the aliases and returns at the first one present. */
  method GetUptime(rt: Runtime, row: Record) returns (r: Option<real>)
    ensures r == Uptime(rt, row)
  {
    for i := 0 to |UptimeAliases|
      invariant forall j :: 0 <= j < i ==> UptimeAliases[j] !in row
    {
      var k := UptimeAliases[i];
      if k in row {
        var v := row[k];
        if v.Bool? {
          return Some(if v.b then 1.0 else 0.0);
        }
        return Float(rt, v);
      }
    }
    return None;
  }

  /** Two records that hold the same values under every alias. */
  predicate AgreeOn(row: Record, other: Record, aliases: seq<string>)
  {
    forall k :: k in aliases ==> (k in row <==> k in other) && (k in row ==> row[k] == other[k])
  }

  lemma {:induction false} FirstPresentAgree(row: Record, other: Record, aliases: seq<string>)
    requires AgreeOn(row, other, aliases)
    ensures FirstPresent(row, aliases) == FirstPresent(other, aliases)
  {
    if |aliases| > 0 {
      assert aliases[0] in aliases;
      assert forall k :: k in aliases[1..] ==> k in aliases;
      FirstPresentAgree(row, other, aliases[1..]);
    }
  }

  /** The first alias present decides the latency. */
  lemma LatencyFirstAliasDecides(rt: Runtime, row: Record, i: nat)
    requires i < |LatencyAliases| && LatencyAliases[i] in row
    requires forall j :: 0 <= j < i ==> LatencyAliases[j] !in row
    ensures Latency(rt, row) == Float(rt, row[LatencyAliases[i]])
  {
  }

  /** No fallback: when `latency_ms` is present but does not parse, the latency
      is `None`, whatever `ms` or `latency` hold. */
  lemma LatencyNoFallback(rt: Runtime, row: Record)
    requires "latency_ms" in row && Float(rt, row["latency_ms"]) == None
    ensures Latency(rt, row) == None
  {
  }

  /** A record without any latency alias has no latency. */
  lemma LatencyAbsent(rt: Runtime, row: Record)
    requires forall k :: k in LatencyAliases ==> k !in row
    ensures Latency(rt, row) == None
  {
  }

  /** Keys other than the aliases never affect the latency. */
  lemma LatencyIgnoresOtherKeys(rt: Runtime, row: Record, other: Record)
    requires AgreeOn(row, other, LatencyAliases)
    ensures Latency(rt, row) == Latency(rt, other)
  {
    FirstPresentAgree(row, other, LatencyAliases);
  }

  /** A boolean under the first uptime alias present is `1.0` or `0.0`. */
  lemma UptimeBoolean(rt: Runtime, row: Record, i: nat)
    requires i < |UptimeAliases| && UptimeAliases[i] in row && row[UptimeAliases[i]].Bool?
    requires forall j :: 0 <= j < i ==> UptimeAliases[j] !in row
    ensures Uptime(rt, row) == Some(if row[UptimeAliases[i]].b then 1.0 else 0.0)
  {
  }

  /** Any other value under the first uptime alias present is parsed, with no
      fallback to the later aliases. */
  lemma UptimeFirstAliasDecides(rt: Runtime, row: Record, i: nat)
    requires i < |UptimeAliases| && UptimeAliases[i] in row && !row[UptimeAliases[i]].Bool?
    requires forall j :: 0 <= j < i ==> UptimeAliases[j] !in row
    ensures Uptime(rt, row) == Float(rt, row[UptimeAliases[i]])
  {
  }

  /** A record without any uptime alias has no uptime. */
  lemma UptimeAbsent(rt: Runtime, row: Record)
    requires forall k :: k in UptimeAliases ==> k !in row
    ensures Uptime(rt, row) == None
  {
  }

  /** Keys other than the aliases never affect the uptime. */
  lemma UptimeIgnoresOtherKeys(rt: Runtime, row: Record, other: Record)
    requires AgreeOn(row, other, UptimeAliases)
    ensures Uptime(rt, row) == Uptime(rt, other)
  {
    FirstPresentAgree(row, other, UptimeAliases);
  }

  // ---------------------------------------------------------------------
  // Region filter and per-field value lists

  /** `str(r.get("region", ""))`. */
  function RegionOf(rt: Runtime, row: Record): string
  {
    if "region" in row then Text(rt, row["region"]) else ""
  }

  predicate InRegion(rt: Runtime, row: Record, region: string)
  {
    SameIgnoringCase(RegionOf(rt, row), region)
  }

  /** `[r for r in DATA if str(r.get("region", "")).lower() == region.lower()]`. */
  function Rows(rt: Runtime, data: seq<Record>, region: string): (rows: seq<Record>)
    ensures |rows| <= |data|
  {
    if |data| == 0 then []
    else
      var rest := Rows(rt, data[1..], region);
      if InRegion(rt, data[0], region) then [data[0]] + rest else rest
  }

  /** The rows for a region are exactly the records whose region equals it
      ignoring case: each occurs as often as in the dataset, and no other
      record occurs. */
  lemma {:induction false} RowsExact(rt: Runtime, data: seq<Record>, region: string)
    ensures forall row :: multiset(Rows(rt, data, region))[row] == if InRegion(rt, row, region) then multiset(data)[row] else 0
  {
    if |data| > 0 {
      RowsExact(rt, data[1..], region);
      assert data == [data[0]] + data[1..];
    }
  }

  /** `[x for x in (get_latency(r) for r in rows) if x is not None]`. */
  function Latencies(rt: Runtime, rows: seq<Record>): (lats: seq<real>)
    ensures |lats| <= |rows|
  {
    if |rows| == 0 then []
    else
      var rest := Latencies(rt, rows[1..]);
      match Latency(rt, rows[0])
      case Some(x) => [x] + rest
      case None => rest
  }

  /** The latencies are exactly the values extracted from the rows that have one. */
  lemma {:induction false} LatenciesExact(rt: Runtime, rows: seq<Record>)
    ensures forall x :: x in Latencies(rt, rows) ==> exists row :: row in rows && Latency(rt, row) == Some(x)
    ensures forall row :: row in rows && Latency(rt, row).Some? ==> Latency(rt, row).value in Latencies(rt, rows)
  {
    if |rows| > 0 {
      LatenciesExact(rt, rows[1..]);
      assert forall row :: row in rows ==> row == rows[0] || row in rows[1..];
      assert rows[0] in rows;
      assert forall row :: row in rows[1..] ==> row in rows;
    }
  }

  /** `[x for x in (get_uptime(r) for r in rows) if x is not None]`. */
  function Uptimes(rt: Runtime, rows: seq<Record>): (ups: seq<real>)
    ensures |ups| <= |rows|
  {
    if |rows| == 0 then []
    else
      var rest := Uptimes(rt, rows[1..]);
      match Uptime(rt, rows[0])
      case Some(x) => [x] + rest
      case None => rest
  }

  /** The uptimes are exactly the values extracted from the rows that have one. */
  lemma {:induction false} UptimesExact(rt: Runtime, rows: seq<Record>)
    ensures forall x :: x in Uptimes(rt, rows) ==> exists row :: row in rows && Uptime(rt, row) == Some(x)
    ensures forall row :: row in rows && Uptime(rt, row).Some? ==> Uptime(rt, row).value in Uptimes(rt, rows)
  {
    if |rows| > 0 {
      UptimesExact(rt, rows[1..]);
      assert forall row :: row in rows ==> row == rows[0] || row in rows[1..];
      assert rows[0] in rows;
      assert forall row :: row in rows[1..] ==> row in rows;
    }
  }

  /** Filtering distributes over concatenation: the rows of `a + b` are the
      rows of `a` followed by the rows of `b`, in dataset order. */
  lemma {:induction false} RowsAppend(rt: Runtime, a: seq<Record>, b: seq<Record>, region: string)
    ensures Rows(rt, a + b, region) == Rows(rt, a, region) + Rows(rt, b, region)
  {
    if |a| == 0 {
      assert a + b == b;
    } else {
      var ab := a + b;
      assert ab[0] == a[0] && ab[1..] == a[1..] + b;
      RowsAppend(rt, a[1..], b, region);
      var p, q := Rows(rt, a[1..], region), Rows(rt, b, region);
      if InRegion(rt, a[0], region) {
        assert Rows(rt, ab, region) == [a[0]] + (p + q);
        assert [a[0]] + (p + q) == ([a[0]] + p) + q;
      } else {
        assert Rows(rt, ab, region) == p + q;
      }
    }
  }

  /** A single record is a row exactly when it is in the region. */
  lemma RowsOfOne(rt: Runtime, row: Record, region: string)
    ensures InRegion(rt, row, region) ==> Rows(rt, [row], region) == [row]
    ensures !InRegion(rt, row, region) ==> Rows(rt, [row], region) == []
  {
  }

  /** Extraction distributes over concatenation, so every row contributes its
      latency once, as often as it occurs and in row order. */
  lemma {:induction false} LatenciesAppend(rt: Runtime, a: seq<Record>, b: seq<Record>)
    ensures Latencies(rt, a + b) == Latencies(rt, a) + Latencies(rt, b)
  {
    if |a| == 0 {
      assert a + b == b;
    } else {
      var ab := a + b;
      assert ab[0] == a[0] && ab[1..] == a[1..] + b;
      LatenciesAppend(rt, a[1..], b);
      var p, q := Latencies(rt, a[1..]), Latencies(rt, b);
      match Latency(rt, a[0])
      case Some(x) =>
        assert Latencies(rt, ab) == [x] + (p + q);
        assert [x] + (p + q) == ([x] + p) + q;
      case None =>
        assert Latencies(rt, ab) == p + q;
    }
  }

  /** A single row contributes its latency when it has one, and nothing otherwise. */
  lemma LatenciesOfOne(rt: Runtime, row: Record)
    ensures Latency(rt, row).Some? ==> Latencies(rt, [row]) == [Latency(rt, row).value]
    ensures Latency(rt, row).None? ==> Latencies(rt, [row]) == []
  {
  }

  /** Extraction of uptimes distributes over concatenation. */
  lemma {:induction false} UptimesAppend(rt: Runtime, a: seq<Record>, b: seq<Record>)
    ensures Uptimes(rt, a + b) == Uptimes(rt, a) + Uptimes(rt, b)
  {
    if |a| == 0 {
      assert a + b == b;
    } else {
      var ab := a + b;
      assert ab[0] == a[0] && ab[1..] == a[1..] + b;
      UptimesAppend(rt, a[1..], b);
      var p, q := Uptimes(rt, a[1..]), Uptimes(rt, b);
      match Uptime(rt, a[0])
      case Some(x) =>
        assert Uptimes(rt, ab) == [x] + (p + q);
        assert [x] + (p + q) == ([x] + p) + q;
      case None =>
        assert Uptimes(rt, ab) == p + q;
    }
  }

  /** A single row contributes its uptime when it has one, and nothing otherwise. */
  lemma UptimesOfOne(rt: Runtime, row: Record)
    ensures Uptime(rt, row).Some? ==> Uptimes(rt, [row]) == [Uptime(rt, row).value]
    ensures Uptime(rt, row).None? ==> Uptimes(rt, [row]) == []
  {
  }

  // ---------------------------------------------------------------------
  // Per-region results

  /** One element of the response's `regions` list. */
  datatype RegionResult = RegionResult(region: string, avgLatency: real, p95Latency: real, avgUptime: real, breaches: nat)

  /** The result the loop body computes for one requested region. */
  function Report(rt: Runtime, data: seq<Record>, region: string, threshold: real): (r: RegionResult)
  {
    var rows := Rows(rt, data, region);
    var lats := Latencies(rt, rows);
    var ups := Uptimes(rt, rows);
    RegionResult(region, Mean(lats), P95(lats), Mean(ups), Breaches(lats, threshold))
  }

  /** The body of `latency_metrics` from the dataset on: one result per
      requested region, in request order, with repeated regions repeated. */
  method LatencyMetrics(rt: Runtime, data: seq<Record>, regions: seq<string>, threshold: real)
    returns (results: seq<RegionResult>)
    ensures |results| == |regions|
    ensures forall i :: 0 <= i < |regions| ==> results[i] == Report(rt, data, regions[i], threshold)
  {
    results := [];
    for i := 0 to |regions|
      invariant |results| == i
      invariant forall j :: 0 <= j < i ==> results[j] == Report(rt, data, regions[j], threshold)
    {
      var region := regions[i];
      var rows := Rows(rt, data, region);
      var latencies := Latencies(rt, rows);
      var uptimes := Uptimes(rt, rows);

      var avgLatency := Mean(latencies);
      var p95Latency := P95(latencies);
      var avgUptime := Mean(uptimes);
      var breaches := Breaches(latencies, threshold);

      var result := RegionResult(region, avgLatency, p95Latency, avgUptime, breaches);
      assert result == Report(rt, data, region, threshold);
      ghost var done := results;
      results := results + [result];
      forall j | 0 <= j <= i
        ensures results[j] == Report(rt, data, regions[j], threshold)
      {
        if j < i {
          assert results[j] == done[j];
        } else {
          assert results[j] == result;
        }
      }
    }
  }

  /** Region matching only looks at the lower-cased name. */
  lemma {:induction false} RowsIgnoreCase(rt: Runtime, data: seq<Record>, a: string, b: string)
    requires SameIgnoringCase(a, b)
    ensures Rows(rt, data, a) == Rows(rt, data, b)
  {
    if |data| > 0 {
      RowsIgnoreCase(rt, data[1..], a, b);
    }
  }

  /** Querying a region and any case variant of it gives identical statistics;
      only the echoed region name differs. */
  lemma ReportIgnoresCase(rt: Runtime, data: seq<Record>, a: string, b: string, threshold: real)
    requires SameIgnoringCase(a, b)
    ensures Report(rt, data, a, threshold).(region := b) == Report(rt, data, b, threshold)
  {
    RowsIgnoreCase(rt, data, a, b);
  }

  /** In particular, `"US-EAST"` and `"us-east"` give the same statistics. */
  lemma ReportUpperCase(rt: Runtime, data: seq<Record>, region: string, threshold: real)
    ensures Report(rt, data, Upper(region), threshold).(region := region) == Report(rt, data, region, threshold)
  {
    UpperIsCaseVariant(region);
    ReportIgnoresCase(rt, data, Upper(region), region, threshold);
  }

  /** The breach count is the number of extracted latencies strictly above the
      threshold, and is bounded by the number of latencies, which is bounded by
      the number of matching rows. */
  lemma ReportBreaches(rt: Runtime, data: seq<Record>, region: string, threshold: real)
    ensures var lats := Latencies(rt, Rows(rt, data, region));
      && Report(rt, data, region, threshold).breaches == |lats| - CountWhere(lats, AtMost(threshold))
      && Report(rt, data, region, threshold).breaches <= |lats| <= |Rows(rt, data, region)| <= |data|
  {
    BreachesStrict(Latencies(rt, Rows(rt, data, region)), threshold);
  }

  /** With no extracted latency, the latency statistics are zero; with no
      extracted uptime, the uptime average is zero. In particular a region with
      no matching record yields an all-zero result rather than an error. */
  lemma ReportDefaults(rt: Runtime, data: seq<Record>, region: string, threshold: real)
    ensures |Latencies(rt, Rows(rt, data, region))| == 0 ==>
      var r := Report(rt, data, region, threshold);
      r.avgLatency == 0.0 && r.p95Latency == 0.0 && r.breaches == 0
    ensures |Uptimes(rt, Rows(rt, data, region))| == 0 ==> Report(rt, data, region, threshold).avgUptime == 0.0
    ensures |Rows(rt, data, region)| == 0 ==>
      Report(rt, data, region, threshold) == RegionResult(region, 0.0, 0.0, 0.0, 0)
  {
  }

  /** Both latency statistics lie between the smallest and the largest
      extracted latency, and the 95th percentile is one of them. */
  lemma ReportLatencyBounds(rt: Runtime, data: seq<Record>, region: string, threshold: real)
    requires |Latencies(rt, Rows(rt, data, region))| > 0
    ensures var lats := Latencies(rt, Rows(rt, data, region));
      var r := Report(rt, data, region, threshold);
      && Min(lats) <= r.avgLatency <= Max(lats)
      && Min(lats) <= r.p95Latency <= Max(lats)
      && r.p95Latency in lats
  {
    MeanBetweenMinAndMax(Latencies(rt, Rows(rt, data, region)));
  }

  /** Partial-record tolerance: a record of the region without a latency,
      wherever it sits in the dataset, leaves the latency statistics as they
      are without it, and still contributes its uptime in its place. */
  lemma PartialRecord(rt: Runtime, a: seq<Record>, row: Record, b: seq<Record>, region: string, threshold: real)
    requires InRegion(rt, row, region)
    requires Latency(rt, row) == None && Uptime(rt, row).Some?
    ensures var present, absent := Report(rt, a + [row] + b, region, threshold), Report(rt, a + b, region, threshold);
      && present.avgLatency == absent.avgLatency
      && present.p95Latency == absent.p95Latency
      && present.breaches == absent.breaches
    ensures Uptimes(rt, Rows(rt, a + [row] + b, region))
      == Uptimes(rt, Rows(rt, a, region)) + [Uptime(rt, row).value] + Uptimes(rt, Rows(rt, b, region))
  {
    var ra, rb := Rows(rt, a, region), Rows(rt, b, region);
    RowsAppend(rt, a + [row], b, region);
    RowsAppend(rt, a, [row], region);
    RowsAppend(rt, a, b, region);
    RowsOfOne(rt, row, region);
    var rows := ra + [row] + rb;
    assert Rows(rt, a + [row] + b, region) == rows;
    assert Rows(rt, a + b, region) == ra + rb;
    LatenciesAppend(rt, ra + [row], rb);
    LatenciesAppend(rt, ra, [row]);
    LatenciesAppend(rt, ra, rb);
    LatenciesOfOne(rt, row);
    assert Latencies(rt, ra + [row]) == Latencies(rt, ra);
    assert Latencies(rt, rows) == Latencies(rt, ra + rb);
    UptimesAppend(rt, ra + [row], rb);
    UptimesAppend(rt, ra, [row]);
    UptimesOfOne(rt, row);
  }

  /** The worked example: two `us-east` records with latencies 100 and 300 and
      uptimes 1 and 0, and one `eu-west` record. */
  const ExampleData: seq<Record> := [
    map["region" := Str("us-east"), "latency_ms" := Num(100.0), "uptime" := Num(1.0)],
    map["region" := Str("us-east"), "latency_ms" := Num(300.0), "uptime" := Num(0.0)],
    map["region" := Str("eu-west"), "latency_ms" := Num(50.0), "uptime" := Num(1.0)]]

  lemma ExampleRows(rt: Runtime)
    ensures Rows(rt, ExampleData, "us-east") == ExampleData[..2]
    ensures Rows(rt, ExampleData, "ap-south") == []
  {
    var data := ExampleData;
    var r1, r2, r3 := data[0], data[1], data[2];
    assert RegionOf(rt, r1) == "us-east" && RegionOf(rt, r2) == "us-east" && RegionOf(rt, r3) == "eu-west";
    assert Lower("eu-west")[0] == 'e' && Lower("us-east")[0] == 'u' && Lower("ap-south")[0] == 'a';
    assert data[1..] == [r2, r3] && [r2, r3][1..] == [r3] && [r3][1..] == [];
    assert Rows(rt, [r3], "us-east") == [];
    assert Rows(rt, [r2, r3], "us-east") == [r2];
    assert Rows(rt, [r3], "ap-south") == [];
    assert Rows(rt, [r2, r3], "ap-south") == [];
  }

  lemma ExampleValues(rt: Runtime)
    ensures Latencies(rt, ExampleData[..2]) == [100.0, 300.0]
    ensures Uptimes(rt, ExampleData[..2]) == [1.0, 0.0]
  {
    var r1, r2 := ExampleData[0], ExampleData[1];
    assert ExampleData[..2] == [r1, r2] && [r1, r2][1..] == [r2];
    assert FirstPresent(r1, LatencyAliases) == Some(0);
    assert FirstPresent(r2, LatencyAliases) == Some(0);
    assert FirstPresent(r1, UptimeAliases) == Some(0);
    assert FirstPresent(r2, UptimeAliases) == Some(0);
  }

  lemma ExampleStatistics()
    ensures Mean([100.0, 300.0]) == 200.0 && P95([100.0, 300.0]) == 300.0
    ensures Mean([1.0, 0.0]) == 0.5
    ensures Breaches([100.0, 300.0], 150.0) == 1
  {
    assert [100.0, 300.0][1..] == [300.0];
    assert [1.0, 0.0][1..] == [0.0];
    assert SortAscending([100.0, 300.0]) == [100.0, 300.0];
    P95IndexTies();
  }

  /** Threshold 150: `us-east` averages 200, has 95th percentile 300 (index
      `round(0.95 * 1) == 1`), uptime 0.5 and one breach; `ap-south` matches
      nothing and gets the all-zero result. */
  lemma ReportExample(rt: Runtime)
    ensures Report(rt, ExampleData, "us-east", 150.0) == RegionResult("us-east", 200.0, 300.0, 0.5, 1)
    ensures Report(rt, ExampleData, "ap-south", 150.0) == RegionResult("ap-south", 0.0, 0.0, 0.0, 0)
  {
    ExampleRows(rt);
    ExampleValues(rt);
    ExampleStatistics();
  }
}
