# Per-region telemetry aggregator

A Dafny model of the latency endpoint `POST /api/latency`. The endpoint takes
a list of regions and a latency threshold. For each region it computes the
mean latency, a nearest-rank 95th percentile, the mean uptime and a count of
threshold breaches over a fixed, read-only set of telemetry records. The
repository has two versions of the handler, and both are modelled:

- `api/app.py` (module `App`, file `app.dfy`). It reads the latency and uptime
  of a record through ordered key aliases. The first alias present decides,
  and a value that does not parse gives "no value", never a fallback to a
  later alias. It matches regions ignoring case and treats a missing `region`
  as `""`. It returns one result per requested region, in request order.
- `api/latency.py` (module `LatencyApi`, file `latency.dfy`). It matches
  regions exactly. A region without rows gets an all-zero entry. A missing
  key raises `KeyError`, modelled as a `Failure` result. The response is a map
  keyed by region.

Shared parts:

- `values.dfy` (module `PyValues`): the JSON values of a record, and the
  Python builtins `float(...)`, `str(...)` and `str.lower()`.
- `stats.dfy` (module `Stats`): sum, mean, `sorted`, Python's `round` (ties to
  even), the p95 index and value, and the strict breach count.

The dataset is a parameter: an immutable `seq<Record>`, where a record is a
`map<string, Value>`. No operation can modify it. Numbers are exact reals.
What stays abstract arrives as function-valued fields of two datatypes passed
in by the caller:

- `PyValues.Runtime`: the string grammar of `float(...)` and the way
  `str(...)` renders a number.
- `LatencyApi.NumPy`: `np.mean`, `np.percentile` and `round(x, 2)`.

The p95 index is `round(0.95 * (n - 1))`, modelled exactly on integers as the
round-half-to-even of `19 * (n - 1) / 20`. So `n - 1 = 30` gives index 28,
not 29. The double `0.95` is `8556839292003942 / 2^53`, below 19/20 by less
than `4.5e-17`. Write `m` for `n - 1`. The exact quotient `19m/20` has a
fractional part that is a multiple of `0.05`. An exact tie `k + 0.5` is a
double, and the product lies within half an ulp of it, so it rounds back to
the tie. For `m < 2^48` the product is at most `0.0125` below `19m/20`, and
rounding it to a double moves it by at most `2^-6`. Together that is less
than the `0.05` distance from any other quotient to a tie. So below 2^48
elements the integer model picks the same index as the code. Larger lists
are listed under "Left out".

Three behaviours of the code worth knowing:

- `get_uptime` does not try `uptime_pct`. Only `latency.py` reads that key.
- `get_latency` turns a boolean into `1.0`/`0.0`, because `float(True)` is `1.0`.
  It is not "no value".
- `latency.py` matches regions case-sensitively. It reads `item["region"]` of
  every record, so one record without a `region` key fails every request
  that names a region.

## Model

| member | source | states |
|---|---|---|
| `App.FirstPresent` | api/app.py:24-25 | the index of the first alias that is a key of the record: it is present and every earlier alias is absent; `None` exactly when no alias is present |
| `App.GetLatency` | api/app.py:23-30 | the alias loop with early return computes the latency `Latency` gives (`float` of the value under the first alias present, else `None`) |
| `App.GetUptime` | api/app.py:32-42 | the alias loop with early return computes the uptime `Uptime` gives (boolean to 1.0/0.0, otherwise `float`, else `None`) |
| `App.LatencyFirstAliasDecides` | api/app.py:24-27 | if alias `i` is present and no earlier one is, the latency is `float` of the value under alias `i` |
| `App.LatencyNoFallback` | api/app.py:26-29 | a present but unparseable `latency_ms` gives `None`, whatever `ms` or `latency` hold |
| `App.LatencyAbsent` | api/app.py:30 | no latency alias present gives `None` |
| `App.FirstPresentAgree` | api/app.py:24-25 | records that agree on the aliases select the same alias |
| `App.LatencyIgnoresOtherKeys` | api/app.py:23-30 | keys other than the latency aliases never change the latency |
| `App.UptimeBoolean` | api/app.py:33-37 | a boolean under the first uptime alias present gives 1.0 or 0.0 |
| `App.UptimeFirstAliasDecides` | api/app.py:33-41 | any other value under the first uptime alias present is parsed, with no fallback to later aliases |
| `App.UptimeAbsent` | api/app.py:42 | no uptime alias present gives `None` |
| `App.UptimeIgnoresOtherKeys` | api/app.py:32-42 | keys other than the uptime aliases never change the uptime |
| `App.Rows` | api/app.py:59 | the filtered rows are never more than the dataset |
| `App.RowsExact` | api/app.py:59 | each record occurs among the rows as often as in the dataset when its `region` (missing read as `""`) equals the request ignoring case, and not at all otherwise |
| `App.RowsIgnoreCase` | api/app.py:59 | two case variants of a region select the same rows |
| `App.RowsAppend` | api/app.py:59 | the rows of `a + b` are the rows of `a` followed by those of `b` |
| `App.RowsOfOne` | api/app.py:59 | one record is a row exactly when it is in the region |
| `App.Latencies` | api/app.py:60 | at most one latency per row |
| `App.LatenciesExact` | api/app.py:60 | every latency comes from a row, and every row with a latency contributes it |
| `App.LatenciesAppend` | api/app.py:60 | the latencies of `a + b` are those of `a` followed by those of `b`: each row contributes once, in order, repeats kept |
| `App.LatenciesOfOne` | api/app.py:60 | one row contributes its latency when it has one, and nothing otherwise |
| `App.Uptimes` | api/app.py:61 | at most one uptime per row |
| `App.UptimesExact` | api/app.py:61 | every uptime comes from a row, and every row with an uptime contributes it |
| `App.UptimesAppend` | api/app.py:61 | the uptimes of `a + b` are those of `a` followed by those of `b` |
| `App.UptimesOfOne` | api/app.py:61 | one row contributes its uptime when it has one, and nothing otherwise |
| `App.PartialRecord` | api/app.py:59-66 | a record of the region without a latency, at any position in the dataset, leaves the average latency, the p95 and the breach count as they are without it, and its uptime appears among the uptimes between those of the records before and after it |
| `App.ReportIgnoresCase` | api/app.py:59-74 | a region and any case variant of it give identical statistics; only the echoed name differs |
| `App.ReportUpperCase` | api/app.py:59 | the upper-case spelling of a region gives the same statistics as the region |
| `App.ReportBreaches` | api/app.py:60-66 | breaches = number of latencies minus those at most the threshold (strict `>`), and breaches <= latencies <= rows <= dataset |
| `App.ReportDefaults` | api/app.py:63-66 | no latencies gives avg, p95 and breaches 0; no uptimes gives avg uptime 0; no rows gives the all-zero result |
| `App.ReportLatencyBounds` | api/app.py:63-64 | with latencies, the average and the p95 lie between their minimum and maximum, and the p95 is one of them |
| `App.ReportExample` | api/app.py:57-74 | latencies 100 and 300 with uptimes 1 and 0, threshold 150: avg 200, p95 300, uptime 0.5, one breach; an unmatched region gives zeros |
| `App.LatencyMetrics` | api/app.py:57-77 | one result per requested region, in request order, each the region's report with the region echoed; repeated regions are repeated |
| `Stats.MeanBetweenMinAndMax` | api/app.py:63 | the mean of a non-empty list lies between its minimum and maximum |
| `Stats.BreachesStrict` | api/app.py:66 | every value is a breach or at most the threshold, so appending a value equal to the threshold adds no breach |
| `Stats.BreachesPermutation` | api/app.py:66 | the breach count does not depend on the order of the latencies |
| `Stats.CountWherePermutation` | api/app.py:66 | a generator count depends only on the multiset of values |
| `Stats.Insert` | api/app.py:47 | insertion adds exactly the element: the result holds the input's elements plus `x`, one longer |
| `Stats.InsertSorted` | api/app.py:47 | inserting into an ascending list keeps it ascending |
| `Stats.SortAscending` | api/app.py:47 | `sorted(values)` is ascending and a permutation of the input |
| `Stats.SortedUnique` | api/app.py:47 | two ascending lists with the same elements are equal |
| `Stats.RoundHalfEven` | api/app.py:48 | Python's `round` of `num/den`: within one half of the quotient, and even on a tie |
| `Stats.P95IndexInRange` | api/app.py:48 | for non-empty input the rounded index already lies in `[0, n-1]`, so the clamp never changes it |
| `Stats.P95IndexTies` | api/app.py:48 | banker's rounding at the ties: n = 11 gives 10, n = 31 gives 28; n = 2 gives 1 and n = 1 gives 0 |
| `Stats.P95` | api/app.py:44-49 | 0.0 for an empty list, otherwise an element of the input |
| `Stats.SortedOrderStatistic` | api/app.py:47-49 | in an ascending list at most `k` values lie below element `k` and more than `k` at or below it |
| `Stats.P95IsOrderStatistic` | api/app.py:44-49 | the p95 is the order statistic of rank `k` for the nearest-rank index `k`: at most `k` inputs below it, more than `k` at or below it |
| `Stats.P95Permutation` | api/app.py:44-49 | permuting the input does not change the p95 |
| `Stats.P95BetweenMinAndMax` | api/app.py:44-49 | the p95 lies between the minimum and the maximum of the input |
| `LatencyApi.RegionRows` | api/latency.py:35 | `KeyError("region")` exactly when some record lacks `region`; otherwise at most as many rows as records |
| `LatencyApi.RegionRowsExact` | api/latency.py:35 | the rows are exactly the records whose `region` is the string equal to the request, each as often as in the dataset (case-sensitive) |
| `LatencyApi.Column` | api/latency.py:46-47 | `KeyError(key)` exactly when some row lacks the key; otherwise the values under the key, row by row |
| `LatencyApi.Numbers` | api/latency.py:46-52 | `TypeError` exactly when some value is not an int, float or bool; otherwise their numeric values, in order |
| `LatencyApi.EmptyRegionIsZero` | api/latency.py:37-44 | a requested region that no record matches gets the all-zero entry |
| `LatencyApi.BreachesBounded` | api/latency.py:52 | the breach count never exceeds the number of matched rows |
| `LatencyApi.MissingLatencyIsKeyError` | api/latency.py:46 | a matched row without `latency_ms` is a `KeyError`, not a skipped record |
| `LatencyApi.MissingUptimeIsKeyError` | api/latency.py:47 | a matched row without `uptime_pct` is a `KeyError` once every matched row has `latency_ms` |
| `LatencyApi.MissingRegionIsKeyError` | api/latency.py:35 | a record without `region` fails the region's computation with `KeyError`, matched or not |
| `LatencyApi.CaseSensitiveUnlikeApp` | api/latency.py:35 | a `us-east` record is not a row of `US-EAST` here, which gets the zero entry, while `api/app.py` counts it |
| `LatencyApi.GetLatencyMetrics` | api/latency.py:32-61 | success exactly when every region's computation succeeds; then the keys are the set of requested regions (repeats collapse) and each holds its region's entry; otherwise the error of the first failing region |

## Left out

- FastAPI app construction and the CORS middleware (api/app.py:8-16, api/latency.py:8-17) are framework plumbing.
- Loading the dataset file is file I/O (api/app.py:18-21, api/latency.py:19-24). That includes the `FileNotFoundError` fallback to an empty list in `latency.py`. The dataset is a parameter instead.
- Request decoding is async I/O and library validation: `await request.json()`, `body["regions"]`, `float(body["threshold_ms"])` and the pydantic model (api/app.py:53-55, api/latency.py:26-28). The regions and the threshold are typed inputs: a real threshold for `app.py`, an integer one for `latency.py`.
- JSON serialisation of the response (api/app.py:77, api/latency.py:61) is library behaviour.
- Stats.P95Index: computes the index on exact rationals. Above 2^48 elements the argument above no longer applies, and the double product can round onto a tie, which changes the index. For `n - 1 = 430000000000009` Python gives 408500000000008 and the model gives 408500000000009.
- IEEE doubles are not modelled: sums, divisions and comparisons are exact real arithmetic. NaN and infinities cannot occur, and `sorted` is a total order.
- `float(s)` on a string and `str(x)` on a number are abstract fields of `PyValues.Runtime`, because their grammars are library behaviour. `str` of a number therefore cannot tell `1` from `1.0`.
- `str.lower()` is modelled on ASCII letters only. Unicode case mapping, including mappings that change the length, is left out.
- `np.mean`, `np.percentile` (linear interpolation) and `round(x, 2)` are abstract fields of `LatencyApi.NumPy`, because they are foreign numpy calls and float rounding.
- LatencyApi.GetLatencyMetrics: its averages and percentile are stated only as `round2(mean(...))` and `round2(percentile(..., 95))` of the abstract numpy functions.
- LatencyApi.Numbers: every value that is not an int, float or bool is modelled as `TypeError`, whatever numpy would do with it. numpy averages a nested list of equal-length lists, and it raises `ValueError` for a ragged one.
