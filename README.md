# docker-prometheus-exporter: the metric logic of monitor.py

monitor.py polls the Docker daemon for containers that carry a marker label.
For each one it publishes the container's raw statistics as Prometheus gauges.
This project models, in Dafny, the parts of that file that are logic rather
than plumbing:

- **Label configuration** (monitor.py:14-15). `EXPOSE_LABELS` is split on commas and empty pieces are dropped.
  The base label keys are `name`, then `label_<l>` for each exposed label `l`.
  This lives in module `Config`.
- **Container label values** (monitor.py:28-34). `get_container_metric_labels` builds a dict that maps `name` to
  the container name and each `label_<l>` to the container's label `l`.
  The loop is a method proved against a function.
  This lives in module `Containers`.
- **The metric cache** (monitor.py:16-26). The first `get_metric` call for a name creates the gauge and fixes its
  label keys. Later calls return the cached gauge. `log_metric` sets one labelled series.
  This is class `Registry.MetricRegistry`. Its fields are the cache `metrics` and a store of the
  current reading of each series, keyed by (metric name, label values). Module `Registry` also holds
  the pure transition `Log` on a `Store` value.
- **One pass of the main loop** (monitor.py:41-54). A stats snapshot becomes a sequence of `log_metric`
  calls (`Stats.Publications`). Methods `Monitor.PublishContainer` and `Monitor.RunCycle` fold that sequence
  through the registry. The theorems in `Monitor` say what a scrape then reads.

`Base` holds the Python exceptions the code can raise, and `Result`/`Outcome` to carry them.
A `Dict` is an ordered list of key/value pairs, because Python dicts keep insertion order.

Where this model and the design description of the system disagree, it follows monitor.py:

- A container that lacks an exposed label raises `KeyError`. The design says a missing label gives an empty value.
- Label keys are not sanitised.
- There are no worker threads, no CPU-rate derivation, no block-I/O aggregation and no zeroing on stop.
  monitor.py publishes raw cumulative counters in one loop.

The theorems of `Registry` and `Monitor` take the exposed labels `expose` as a parameter. They describe the
program with line 14 corrected to `strip` (see "## Findings"). As written, line 14 raises at start-up unless
nothing is exposed, so only `expose == []` can be reached (`Config.TrimRaisesOnAnyLabel`).

The gauge's label check follows `prometheus_client`: `Gauge.labels(**kw)` rejects the call unless the sorted
keyword names equal the sorted label keys. `Registry.LabelCheck` states this as "the label keys are distinct and
their set equals the keyword set", and `Registry.LabelCheckSorted` proves that this is the same as equal
multisets, which is what comparing sorted lists means. A consequence is proved in
`Monitor.DuplicateExposedLabelsReject`: with line 14 using `strip` and a label exposed twice
(`EXPOSE_LABELS=app,app`), a container carrying that label fails its first `log_metric` with `ValueError`.
A container without the label raises `KeyError` at monitor.py:33 before any `log_metric`.

## Model

| member | source | states |
|---|---|---|
| `Config.Split` | monitor.py:14 | `str.split(',')`: one more piece than there are separators, and no piece contains the separator |
| `Config.SplitJoin` | monitor.py:14 | joining the pieces with the separator gives the original string back |
| `Config.JoinSplit` | monitor.py:14 | splitting a join of separator-free pieces gives the pieces back |
| `Config.SplitAround` | monitor.py:14 | the pieces of `a,b` are the pieces of `a` followed by the pieces of `b` |
| `Config.SplitNoSeparator` | monitor.py:14 | a string without a comma is one piece |
| `Config.LeadingSpaces` | monitor.py:14 | the count of leading characters removed: all of them are whitespace, and the next one is not |
| `Config.TrailingSpaces` | monitor.py:14 | the count of trailing characters removed: all of them are whitespace, and the one before is not |
| `Config.Strip` | monitor.py:14 | `str.strip()`: the result is no longer than the input and neither starts nor ends with whitespace |
| `Config.StripMiddle` | monitor.py:14 | the stripped string is a contiguous slice of the input, and everything removed before and after it is whitespace |
| `Config.StripUnchanged` | monitor.py:14 | a string without whitespace is unchanged |
| `Config.StripAllSpace` | monitor.py:14 | a string of whitespace only strips to the empty string |
| `Config.Kept` | monitor.py:14 | the comprehension keeps at most one label per piece |
| `Config.ExposeFromCons` | monitor.py:14 | the comprehension handles the pieces one at a time, in order |
| `Config.ExposeFrom` | monitor.py:14 | the comprehension keeps at most as many labels as there are pieces |
| `Config.ExposeFromAppend` | monitor.py:14 | the comprehension distributes over concatenation, so order is kept |
| `Config.ExposeLabelsEmpty` | monitor.py:14-15 | an empty `EXPOSE_LABELS` exposes nothing, so `labels == ['name']` |
| `Config.ExposeLabelsSingle` | monitor.py:14 | a non-empty comma-free setting exposes exactly its stripped self |
| `Config.ExposeLabelsConcat` | monitor.py:14 | the labels of `a,b` are those of `a` then those of `b`; empty pieces add nothing |
| `Config.ExposeFromPieces` | monitor.py:14 | every exposed label is the strip of some non-empty piece |
| `Config.ExposeFromCount` | monitor.py:14 | the comprehension keeps exactly one label per non-empty piece |
| `Config.ExposeFromKeepsEach` | monitor.py:14 | each non-empty piece is kept stripped, at the position after the labels of the non-empty pieces before it |
| `Config.ExposeLabelsExample` | monitor.py:14 | `,app, tier,,` exposes `["app", "tier"]` |
| `Config.SplitExample` | monitor.py:14 | `,app, tier,,` splits into `["", "app", " tier", "", ""]` |
| `Config.ExposePiecesExample` | monitor.py:14 | the pieces `["", "app", " tier", "", ""]` keep `["app", "tier"]` |
| `Config.StripAppExample` | monitor.py:14 | `"app".strip() == "app"` |
| `Config.StripTierExample` | monitor.py:14 | `" tier".strip() == "tier"` |
| `Config.ExposeFromAsWrittenFails` | monitor.py:14 | as written, the comprehension raises `AttributeError` exactly when it would keep a piece |
| `Config.TrimRaisesOnAnyLabel` | monitor.py:14 | as written, line 14 succeeds if and only if no label is exposed |
| `Config.TrimCounterexample` | monitor.py:14 | as written, `EXPOSE_LABELS=app` raises `AttributeError`; the intended code exposes `["app"]` |
| `Config.Labels` | monitor.py:15 | `labels[0] == 'name'`, `len(labels) == 1 + len(expose_labels)`, `labels[i+1] == 'label_' + expose_labels[i]` |
| `Config.LabelsNoDuplicates` | monitor.py:15 | the base label keys are distinct if and only if the exposed labels are |
| `Config.LabelsAvoidInterfaceKey` | monitor.py:15 | no base key is `network_interface`, and `name` is not one of the `label_` keys |
| `Config.PrefixInjective` | monitor.py:15 | `'label_' + a == 'label_' + b` only when `a == b` |
| `Containers.GetContainerMetricLabels` | monitor.py:28-34 | the loop that grows `base` returns exactly `ContainerMetricLabels`, including the `KeyError` |
| `Containers.AddExposedLabelsSucceeds` | monitor.py:32-33 | with every label present, the loop adds one `label_<l>` key per label, with the container's value, and keeps the other keys |
| `Containers.AddExposedLabelsFails` | monitor.py:32-33 | with a label missing, the loop raises `KeyError` for the first missing one |
| `Containers.LabelKeySet` | monitor.py:15 | the set of base keys is `name` plus one `label_<l>` per exposed label |
| `Containers.NameNotExposed` | monitor.py:29-33 | a `label_` key never overwrites the `name` entry |
| `Containers.ContainerMetricLabelsPresent` | monitor.py:28-34 | when the container carries every exposed label, the dict's keys are exactly `labels`, with `name` and each `label_<l>` mapped to the container's values |
| `Containers.ContainerMetricLabelsSpec` | monitor.py:28-34 | succeeds if and only if the container carries every exposed label; then its keys are exactly `labels`, `name` maps to the container name and `label_<l>` to label `l`; otherwise `KeyError` for the first missing label |
| `Registry.WithMetric` | monitor.py:18-23 | the cache gains exactly the key `name`; existing entries never change; on a miss the new gauge is `prefix + name` with keys `labels + extra keys` |
| `Registry.CacheHit` | monitor.py:18-20 | a hit leaves the cache unchanged, whatever the extra labels |
| `Registry.FirstCallFixesSchema` | monitor.py:18-23 | a second call for a name, with any extra labels, changes nothing |
| `Registry.FirstClash` | monitor.py:26 | `f(**labels, **extra)` raises for a key of `extra` that `labels` has; none is reported exactly when the keys are disjoint |
| `Registry.LabelCheck` | monitor.py:26 | `.labels(...)` passes if and only if there is no shared key, the gauge's label keys are distinct and they equal the merged keyword set |
| `Registry.DistinctKeysIffMultiset` | monitor.py:26 | a key list is distinct with a given key set if and only if its multiset equals that set |
| `Registry.DistinctKeysMultiset` | monitor.py:26 | distinct keys with a given key set have that set as their multiset |
| `Registry.MultisetDistinctKeys` | monitor.py:26 | keys whose multiset is a set are distinct and have that key set |
| `Registry.LabelCheckSorted` | monitor.py:26 | `.labels(...)` passes if and only if no keyword is passed twice and the gauge's sorted label keys equal the sorted keyword names (equal multisets) |
| `Registry.Log` | monitor.py:25-26 | the gauge is fetched or created first; on success the series reads the new value; every other series is unchanged; on failure no value changes |
| `Registry.MetricRegistry.constructor` | monitor.py:12-16 | the registry starts with the given prefix and exposed labels, an empty cache and no readings |
| `Registry.MetricRegistry.GetMetric` | monitor.py:18-23 | the result is the cached gauge; on a hit the cache is unchanged; on a miss exactly one gauge is added |
| `Registry.MetricRegistry.LogMetric` | monitor.py:25-26 | the new state is `Log` of the old one: last write wins, and other series are untouched |
| `Stats.InterfacePublicationsMembership` | monitor.py:53-54 | one `net_<counter>` publication per counter of the interface, in order, labelled with the interface |
| `Stats.NetPublicationsMembership` | monitor.py:52-54 | the network publications are exactly one per (interface, counter) pair, and their number is the number of pairs |
| `Stats.NetPublicationsDistinct` | monitor.py:52-54 | with distinct dict keys, no two network publications have the same metric and extra labels |
| `Stats.DistinctConcat` | monitor.py:45-54 | joining two duplicate-free publication lists with disjoint tags gives a duplicate-free list |
| `Stats.HeadlineDistinct` | monitor.py:45-51 | the seven headline calls use seven different metric names |
| `Stats.NetPublicationsExtra` | monitor.py:52-54 | every network call is for a `net_` metric and passes only `network_interface` as an extra label |
| `Stats.PublicationsDistinct` | monitor.py:45-54 | with distinct dict keys, no two calls for one snapshot have the same metric and extra labels |
| `Stats.PublicationsShape` | monitor.py:45-54 | the seven headline readings come first, each copied unchanged with `cpu_usage_system` from kernel-mode time, then one per (interface, counter) pair; no two share a series tag |
| `Monitor.PublishAllUntouched` | monitor.py:25-26 | a series that no publication writes keeps its reading, whether the run passes or raises |
| `Monitor.PublishAllLastWriteWins` | monitor.py:25-26 | after a passing run, a series reads the value of the last publication that wrote it |
| `Monitor.ConformingKeysDistinct` | monitor.py:15-22 | with distinct exposed labels, every gauge the main loop creates has distinct label keys |
| `Monitor.ConformingKeywords` | monitor.py:22-26 | the keywords of a main-loop call are exactly the label keys its gauge is created with |
| `Monitor.LogConforming` | monitor.py:22-26 | a call with the main loop's extra labels passes the label check and keeps every gauge in the shape the first call gave it |
| `Monitor.PublishAllConforming` | monitor.py:45-54 | publishing conforming calls never raises and preserves the gauge shapes |
| `Monitor.PublicationsConform` | monitor.py:45-54 | headline calls pass no extra label; `net_` calls pass exactly `network_interface` |
| `Monitor.SeriesDetermineTag` | monitor.py:54 | two calls of one container write the same series only if they have the same metric and extra labels |
| `Monitor.DistinctSeries` | monitor.py:45-54 | distinct (metric, extra labels) means distinct series |
| `Monitor.PublishAllReadsEach` | monitor.py:45-54 | when series are distinct, each one reads the value its call wrote |
| `Monitor.HeadlineReads` | monitor.py:45-51 | the seven headline series read the snapshot's values |
| `Monitor.NetReads` | monitor.py:52-54 | `net_<counter>` with `network_interface=<dev>` reads that interface's counter |
| `Monitor.NetReadsOne` | monitor.py:54 | a network call's series reads its value under the container's labels plus its interface |
| `Monitor.PublishSnapshot` | monitor.py:43-54 | publishing a snapshot never raises, keeps the gauge shapes, and afterwards a scrape reads every value of the snapshot |
| `Monitor.PublishTargetSpec` | monitor.py:43-54 | one container passes if and only if it carries every exposed label; on success its snapshot is readable; on failure it is `KeyError` and nothing changed |
| `Monitor.CycleSpec` | monitor.py:41-57 | a pass raises if and only if some container lacks an exposed label, and then with `KeyError`; the gauge shapes are preserved |
| `Monitor.PublishTargetKeepsReads` | monitor.py:43-54 | publishing a container never changes a series labelled with another container's name |
| `Monitor.CycleKeepsReads` | monitor.py:41-57 | a pass over containers with other names leaves a series' reading alone |
| `Monitor.SnapshotSurvivesCycle` | monitor.py:41-57 | a readable snapshot stays readable through a pass over containers with other names |
| `Monitor.CycleReads` | monitor.py:41-57 | after a pass that raises nothing, over containers with distinct names, every container's snapshot is readable under its own labels |
| `Monitor.DuplicateLabelsRejectHeadline` | monitor.py:15-26 | with a label exposed twice, a headline `log_metric` raises `ValueError` and sets nothing |
| `Monitor.DuplicateExposedLabelsReject` | monitor.py:15-26 | with a label exposed twice, the first `log_metric` for a container carrying it raises `ValueError` and nothing is set |
| `Monitor.PublishContainer` | monitor.py:42-54 | the registry's new state and the outcome are `PublishTarget` of the old state |
| `Monitor.RunCycle` | monitor.py:41-57 | the registry's new state and the outcome are `Cycle` of the old state, stopping at the first exception |

## Left out

- Docker calls: `docker.from_env`, `containers.list(filters=...)` and `container.stats` (monitor.py:9, 39, 42) are I/O against the daemon. The container list and the snapshots are inputs, and so the marker-label filter (monitor.py:11) is not modelled.
- `prometheus_client.start_http_server` (monitor.py:10) and the exposition format are a network endpoint. The model's store of readings stands for what a scrape sees.
- The internals of `prometheus_client.Gauge` are not modelled beyond the label-name comparison of `Gauge.labels`. That leaves out metric- and label-name validation, reserved names, duplicate registration in the default registry, conversion of label values with `str`, and float storage. Readings are integers.
- `Monitor.CycleSpec`, `Monitor.PublishTargetSpec`: they do not model the label-name validation of the `Gauge` constructor (monitor.py:22). Label names outside `[a-zA-Z_][a-zA-Z0-9_]*` are rejected there. Exposing a dotted Docker label such as `com.docker.compose.service` therefore makes the first `get_metric` raise `ValueError` and cache nothing. The model says a pass raises only when a container lacks a label.
- Environment reads (`MONITOR_LABEL`, `STATS_PREFIX`, `EXPOSE_LABELS`, `REFRESH_INTERVAL`), `logging`, `sleep` and the endless `while True` (monitor.py:7, 11-14, 37, 57, 59) are configuration, I/O and timing. The prefix and the exposed labels are parameters, and `RunCycle` models one pass.
- A stats dict without one of the fields read on lines 45-54 (for example no `networks` key) raises `KeyError` in the source. `Stats.Snapshot` always carries every field, so that error path is not modelled.

## Findings

| source | as written | input that shows it | evidently intended | confidence | as-written member | corrected member |
|---|---|---|---|---|---|---|
| monitor.py:14 | each kept piece is passed through `l.trim()`, but Python `str` has no `trim`, so line 14 raises `AttributeError` at start-up whenever any label is exposed (`Config.TrimCounterexample`) | `EXPOSE_LABELS=app` | `l.strip()`: `app` exposes `["app"]`, and `,app, tier,,` exposes `["app", "tier"]` | high; not executed | `Config.ExposeLabelsAsWritten` | `Config.ExposeLabels` |
