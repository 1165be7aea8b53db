/** One pass of the main loop of monitor.py (lines 39-57): for each monitored
    container, build its label values and make the `log_metric` calls of its stats
    snapshot. The container list and the snapshots are inputs; the Docker calls,
    the sleep and the endless repetition are not modelled. */
module Monitor {
  import opened Base
  import opened Config
  import opened Containers
  import opened Registry
  import opened Stats

  /** The extra label keys the main loop passes with a metric: `network_interface`
      for the `net_` counters, none for the headline readings. */
  function ExtraKeysFor(metric: string): seq<string>
  {
    if IsNetMetric(metric) then [InterfaceLabel] else []
  }

  /** Every cached gauge has the shape the main loop's first call for its name
      gives it: registered under the prefixed name, with the base label keys
      followed by the extra keys of that metric. */
  predicate SchemaOK(metrics: map<string, Gauge>, prefix: string, base: seq<string>)
  {
    forall n :: n in metrics ==> metrics[n] == Gauge(prefix + n, n, base + ExtraKeysFor(n))
  }

  /** A publication passes the extra labels the main loop always passes for its metric. */
  predicate Conforms(p: Publication)
  {
    DictKeys(p.extra) == ExtraKeysFor(p.metric)
  }

  /** `log_metric` applied to the publications in order, from the store `st`,
      with the container's label values `lv`; the first call that raises ends the run. */
  function PublishAll(st: Store, prefix: string, base: seq<string>, lv: map<string, string>,
                      pubs: seq<Publication>): (Store, Outcome)
    decreases |pubs|
  {
    if pubs == [] then (st, Pass)
    else
      var r := Log(st, prefix, base, pubs[0].metric, lv, pubs[0].value, pubs[0].extra);
      if r.1.Fail? then r else PublishAll(r.0, prefix, base, lv, pubs[1..])
  }

  /** The series a publication writes for a container with label values `lv`. */
  function PubSeries(lv: map<string, string>, p: Publication): Series
  {
    SeriesOf(p.metric, lv, p.extra)
  }

  /** A series no publication writes keeps its reading, whether the run passes or raises. */
  lemma {:induction false} PublishAllUntouched(st: Store, prefix: string, base: seq<string>, lv: map<string, string>,
                                               pubs: seq<Publication>, s: Series)
    requires forall j :: 0 <= j < |pubs| ==> PubSeries(lv, pubs[j]) != s
    ensures var v := PublishAll(st, prefix, base, lv, pubs).0.values;
      (s in v <==> s in st.values) && (s in st.values ==> v[s] == st.values[s])
    decreases |pubs|
  {
    if pubs != [] {
      var r := Log(st, prefix, base, pubs[0].metric, lv, pubs[0].value, pubs[0].extra);
      assert PubSeries(lv, pubs[0]) != s;
      if r.1.Pass? {
        PublishAllUntouched(r.0, prefix, base, lv, pubs[1..], s);
      }
    }
  }

  /** Last write wins: when the run passes, a series reads the value of the last
      publication that wrote it. */
  lemma {:induction false} PublishAllLastWriteWins(st: Store, prefix: string, base: seq<string>,
                                                   lv: map<string, string>, pubs: seq<Publication>, i: nat)
    requires PublishAll(st, prefix, base, lv, pubs).1.Pass?
    requires i < |pubs|
    requires forall j :: i < j < |pubs| ==> PubSeries(lv, pubs[j]) != PubSeries(lv, pubs[i])
    ensures var v := PublishAll(st, prefix, base, lv, pubs).0.values;
      PubSeries(lv, pubs[i]) in v && v[PubSeries(lv, pubs[i])] == pubs[i].value
    decreases |pubs|
  {
    var r := Log(st, prefix, base, pubs[0].metric, lv, pubs[0].value, pubs[0].extra);
    if i == 0 {
      forall j | 0 <= j < |pubs[1..]| ensures PubSeries(lv, pubs[1..][j]) != PubSeries(lv, pubs[0]) {
        assert pubs[1..][j] == pubs[j + 1];
      }
      PublishAllUntouched(r.0, prefix, base, lv, pubs[1..], PubSeries(lv, pubs[0]));
    } else {
      forall j | i - 1 < j < |pubs[1..]| ensures PubSeries(lv, pubs[1..][j]) != PubSeries(lv, pubs[1..][i - 1]) {
        assert pubs[1..][j] == pubs[j + 1];
      }
      PublishAllLastWriteWins(r.0, prefix, base, lv, pubs[1..], i - 1);
    }
  }

  /** The base label keys and the label values of a container, as the main loop
      builds them: distinct keys, `network_interface` not among them, and one
      value per key. */
  predicate LabelsFit(expose: seq<string>, lv: map<string, string>)
  {
    NoDuplicates(expose) && lv.Keys == KeySet(Labels(expose))
  }

  /** The label keys a conforming publication's gauge is created with are distinct. */
  lemma ConformingKeysDistinct(expose: seq<string>, metric: string)
    requires NoDuplicates(expose)
    ensures NoDuplicates(Labels(expose) + ExtraKeysFor(metric))
  {
    var base := Labels(expose);
    var keys := base + ExtraKeysFor(metric);
    LabelsNoDuplicates(expose);
    LabelsAvoidInterfaceKey(expose);
    if IsNetMetric(metric) {
      forall i, j | 0 <= i < j < |keys| ensures keys[i] != keys[j] {
        if j < |base| {
          assert keys[i] == base[i] && keys[j] == base[j];
        } else {
          assert keys[j] == InterfaceLabel && keys[i] == base[i];
        }
      }
    } else {
      assert keys == base;
    }
  }

  /** The keywords of a conforming call are exactly its gauge's label keys. */
  lemma ConformingKeywords(expose: seq<string>, lv: map<string, string>, p: Publication)
    requires LabelsFit(expose, lv)
    requires Conforms(p)
    ensures KeySet(Labels(expose) + ExtraKeysFor(p.metric)) == (lv + DictToMap(p.extra)).Keys
  {
    var extraKeys := ExtraKeysFor(p.metric);
    assert forall i :: 0 <= i < |p.extra| ==> p.extra[i].0 == DictKeys(p.extra)[i];
    assert DictToMap(p.extra).Keys == KeySet(extraKeys);
    assert KeySet(Labels(expose) + extraKeys) == KeySet(Labels(expose)) + KeySet(extraKeys);
  }

  /** A conforming publication on a store whose gauges have the main loop's shape
      passes the label check, and the shape is kept. */
  lemma LogConforming(st: Store, prefix: string, expose: seq<string>, lv: map<string, string>, p: Publication)
    requires SchemaOK(st.metrics, prefix, Labels(expose))
    requires LabelsFit(expose, lv)
    requires Conforms(p)
    ensures var r := Log(st, prefix, Labels(expose), p.metric, lv, p.value, p.extra);
      r.1 == Pass && SchemaOK(r.0.metrics, prefix, Labels(expose))
  {
    var base := Labels(expose);
    var keys := base + ExtraKeysFor(p.metric);
    LabelsAvoidInterfaceKey(expose);
    ConformingKeysDistinct(expose, p.metric);
    ConformingKeywords(expose, lv, p);
    var r := Log(st, prefix, base, p.metric, lv, p.value, p.extra);
    assert r.0.metrics[p.metric] == Gauge(prefix + p.metric, p.metric, keys);
    assert forall i :: 0 <= i < |p.extra| ==> p.extra[i].0 !in lv by {
      forall i | 0 <= i < |p.extra| ensures p.extra[i].0 !in lv {
        assert p.extra[i].0 == DictKeys(p.extra)[i];
        assert DictKeys(p.extra)[i] == InterfaceLabel;
      }
    }
  }

  lemma {:induction false} PublishAllConforming(st: Store, prefix: string, expose: seq<string>,
                                                lv: map<string, string>, pubs: seq<Publication>)
    requires SchemaOK(st.metrics, prefix, Labels(expose))
    requires LabelsFit(expose, lv)
    requires forall p :: p in pubs ==> Conforms(p)
    ensures var r := PublishAll(st, prefix, Labels(expose), lv, pubs);
      r.1 == Pass && SchemaOK(r.0.metrics, prefix, Labels(expose))
    decreases |pubs|
  {
    if pubs != [] {
      LogConforming(st, prefix, expose, lv, pubs[0]);
      var r := Log(st, prefix, Labels(expose), pubs[0].metric, lv, pubs[0].value, pubs[0].extra);
      assert forall p :: p in pubs[1..] ==> p in pubs;
      PublishAllConforming(r.0, prefix, expose, lv, pubs[1..]);
    }
  }

  lemma PublicationsConform(s: Snapshot)
    ensures forall p :: p in Publications(s) ==> Conforms(p)
  {
    var head := Headline(s);
    var net := NetPublications(s.networks);
    forall p | p in head ensures Conforms(p) {
      assert p.extra == [] && p.metric[0] != NetPrefix[0];
      assert DictKeys(p.extra) == [];
    }
    NetPublicationsExtra(s.networks);
    forall p | p in net ensures Conforms(p) {
      assert IsNetMetric(p.metric);
      assert DictKeys(p.extra) == [InterfaceLabel];
    }
    assert forall p :: p in head + net ==> p in head || p in net;
  }

  /** Two publications of one snapshot write the same series only if they are the
      same call (same metric, same extra labels). */
  lemma SeriesDetermineTag(lv: map<string, string>, p: Publication, q: Publication)
    requires InterfaceLabel !in lv
    requires Conforms(p) && Conforms(q)
    requires PubSeries(lv, p) == PubSeries(lv, q)
    ensures Tag(p) == Tag(q)
  {
    if ExtraKeysFor(p.metric) != [] {
      var mp := lv + DictToMap(p.extra);
      var mq := lv + DictToMap(q.extra);
      assert mp[InterfaceLabel] == p.extra[0].1;
      assert mq[InterfaceLabel] == q.extra[0].1;
      assert p.extra == [(InterfaceLabel, p.extra[0].1)];
      assert q.extra == [(InterfaceLabel, q.extra[0].1)];
    }
  }

  /** The readings a scrape sees after a container's snapshot is published: each
      headline metric its snapshot value, and each `net_<counter>` of each
      interface its counter value. */
  predicate ReadsSnapshot(values: map<Series, int>, lv: map<string, string>, s: Snapshot)
  {
    && Reads(values, ("pids", lv), s.pids)
    && Reads(values, ("cpu_usage_total", lv), s.totalUsage)
    && Reads(values, ("cpu_usage_system", lv), s.kernelUsage)
    && Reads(values, ("cpu_usage_user", lv), s.userUsage)
    && Reads(values, ("memory_usage", lv), s.memoryUsage)
    && Reads(values, ("memory_usage_max", lv), s.memoryMaxUsage)
    && Reads(values, ("memory_limit", lv), s.memoryLimit)
    && forall i, j :: 0 <= i < |s.networks| && 0 <= j < |s.networks[i].1| ==>
         Reads(values, (NetPrefix + s.networks[i].1[j].0, lv[InterfaceLabel := s.networks[i].0]), s.networks[i].1[j].1)
  }

  predicate Reads(values: map<Series, int>, series: Series, value: int)
  {
    series in values && values[series] == value
  }

  /** When no two publications write the same series, a passing run leaves each
      series reading the value its publication wrote. */
  lemma PublishAllReadsEach(st: Store, prefix: string, base: seq<string>, lv: map<string, string>,
                            pubs: seq<Publication>)
    requires PublishAll(st, prefix, base, lv, pubs).1.Pass?
    requires forall a, b :: 0 <= a < b < |pubs| ==> PubSeries(lv, pubs[a]) != PubSeries(lv, pubs[b])
    ensures var v := PublishAll(st, prefix, base, lv, pubs).0.values;
      forall k :: 0 <= k < |pubs| ==> Reads(v, PubSeries(lv, pubs[k]), pubs[k].value)
  {
    forall k | 0 <= k < |pubs|
      ensures Reads(PublishAll(st, prefix, base, lv, pubs).0.values, PubSeries(lv, pubs[k]), pubs[k].value)
    {
      PublishAllLastWriteWins(st, prefix, base, lv, pubs, k);
    }
  }

  /** Publications with distinct (metric, extra labels) write distinct series. */
  lemma DistinctSeries(lv: map<string, string>, pubs: seq<Publication>)
    requires InterfaceLabel !in lv
    requires forall p :: p in pubs ==> Conforms(p)
    requires DistinctTags(pubs)
    ensures forall a, b :: 0 <= a < b < |pubs| ==> PubSeries(lv, pubs[a]) != PubSeries(lv, pubs[b])
  {
    forall a, b | 0 <= a < b < |pubs| ensures PubSeries(lv, pubs[a]) != PubSeries(lv, pubs[b]) {
      if PubSeries(lv, pubs[a]) == PubSeries(lv, pubs[b]) {
        SeriesDetermineTag(lv, pubs[a], pubs[b]);
      }
    }
  }

  lemma HeadlineReads(v: map<Series, int>, lv: map<string, string>, s: Snapshot)
    requires forall k :: 0 <= k < |Publications(s)| ==> Reads(v, PubSeries(lv, Publications(s)[k]), Publications(s)[k].value)
    ensures Reads(v, ("pids", lv), s.pids)
    ensures Reads(v, ("cpu_usage_total", lv), s.totalUsage)
    ensures Reads(v, ("cpu_usage_system", lv), s.kernelUsage)
    ensures Reads(v, ("cpu_usage_user", lv), s.userUsage)
    ensures Reads(v, ("memory_usage", lv), s.memoryUsage)
    ensures Reads(v, ("memory_usage_max", lv), s.memoryMaxUsage)
    ensures Reads(v, ("memory_limit", lv), s.memoryLimit)
  {
    var pubs := Publications(s);
    assert pubs[..7] == Headline(s);
    assert lv + DictToMap([]) == lv;
    assert Reads(v, PubSeries(lv, pubs[0]), pubs[0].value);
    assert Reads(v, PubSeries(lv, pubs[1]), pubs[1].value);
    assert Reads(v, PubSeries(lv, pubs[2]), pubs[2].value);
    assert Reads(v, PubSeries(lv, pubs[3]), pubs[3].value);
    assert Reads(v, PubSeries(lv, pubs[4]), pubs[4].value);
    assert Reads(v, PubSeries(lv, pubs[5]), pubs[5].value);
    assert Reads(v, PubSeries(lv, pubs[6]), pubs[6].value);
  }

  lemma NetReads(v: map<Series, int>, lv: map<string, string>, s: Snapshot)
    requires forall k :: 0 <= k < |Publications(s)| ==> Reads(v, PubSeries(lv, Publications(s)[k]), Publications(s)[k].value)
    ensures forall i, j :: 0 <= i < |s.networks| && 0 <= j < |s.networks[i].1| ==>
              Reads(v, (NetPrefix + s.networks[i].1[j].0, lv[InterfaceLabel := s.networks[i].0]), s.networks[i].1[j].1)
  {
    NetPublicationsMembership(s.networks);
    forall i, j | 0 <= i < |s.networks| && 0 <= j < |s.networks[i].1|
      ensures Reads(v, (NetPrefix + s.networks[i].1[j].0, lv[InterfaceLabel := s.networks[i].0]), s.networks[i].1[j].1)
    {
      NetReadsOne(v, lv, s, InterfacePublication(s.networks[i].0, s.networks[i].1[j]));
    }
  }

  /** One network publication of the snapshot is readable under its interface label. */
  lemma NetReadsOne(v: map<Series, int>, lv: map<string, string>, s: Snapshot, p: Publication)
    requires forall k :: 0 <= k < |Publications(s)| ==> Reads(v, PubSeries(lv, Publications(s)[k]), Publications(s)[k].value)
    requires p in NetPublications(s.networks)
    requires |p.extra| == 1
    ensures Reads(v, (p.metric, lv[p.extra[0].0 := p.extra[0].1]), p.value)
  {
    var pubs := Publications(s);
    assert pubs[7..] == NetPublications(s.networks);
    var m :| 0 <= m < |pubs[7..]| && pubs[7..][m] == p;
    assert pubs[7 + m] == p;
    assert lv + DictToMap(p.extra) == lv[p.extra[0].0 := p.extra[0].1];
  }


  /** Publishing one container's snapshot never raises while the gauges have the
      main loop's shape, keeps that shape, and leaves every value of the snapshot
      readable under the container's labels. */
  lemma PublishSnapshot(st: Store, prefix: string, expose: seq<string>, lv: map<string, string>, s: Snapshot)
    requires SchemaOK(st.metrics, prefix, Labels(expose))
    requires LabelsFit(expose, lv)
    requires WellFormed(s)
    ensures var r := PublishAll(st, prefix, Labels(expose), lv, Publications(s));
      && r.1 == Pass
      && SchemaOK(r.0.metrics, prefix, Labels(expose))
      && ReadsSnapshot(r.0.values, lv, s)
  {
    var pubs := Publications(s);
    var base := Labels(expose);
    PublicationsConform(s);
    PublicationsDistinct(s);
    PublishAllConforming(st, prefix, expose, lv, pubs);
    LabelsAvoidInterfaceKey(expose);
    DistinctSeries(lv, pubs);
    PublishAllReadsEach(st, prefix, base, lv, pubs);
    var v := PublishAll(st, prefix, base, lv, pubs).0.values;
    HeadlineReads(v, lv, s);
    NetReads(v, lv, s);
  }

  /** monitor.py:43-54 for one container, on the store `st`: a container lacking
      an exposed label raises `KeyError` before anything is published. */
  function PublishTarget(st: Store, prefix: string, expose: seq<string>, c: Container, s: Snapshot): (Store, Outcome)
  {
    match ContainerMetricLabels(c, expose)
    case Failure(e) => (st, Fail(e))
    case Success(lv) => PublishAll(st, prefix, Labels(expose), lv, Publications(s))
  }

  /** One pass of the `for container in containers` loop (monitor.py:41-57); the
      first exception ends the pass, and with it the program. */
  function Cycle(st: Store, prefix: string, expose: seq<string>, targets: seq<(Container, Snapshot)>): (Store, Outcome)
    decreases |targets|
  {
    if targets == [] then (st, Pass)
    else
      var r := PublishTarget(st, prefix, expose, targets[0].0, targets[0].1);
      if r.1.Fail? then r else Cycle(r.0, prefix, expose, targets[1..])
  }

  /** Every exposed label is present on the container. */
  predicate CarriesExposed(c: Container, expose: seq<string>)
  {
    forall i :: 0 <= i < |expose| ==> expose[i] in c.labels
  }

  /** A container carrying every exposed label is published completely and
      readably; one lacking a label raises `KeyError` and changes nothing. */
  lemma PublishTargetSpec(st: Store, prefix: string, expose: seq<string>, c: Container, s: Snapshot)
    requires SchemaOK(st.metrics, prefix, Labels(expose))
    requires NoDuplicates(expose)
    requires WellFormed(s)
    ensures var r := PublishTarget(st, prefix, expose, c, s);
      && SchemaOK(r.0.metrics, prefix, Labels(expose))
      && (r.1.Pass? <==> CarriesExposed(c, expose))
      && (r.1.Pass? ==> ReadsSnapshot(r.0.values, ContainerMetricLabels(c, expose).value, s))
      && (r.1.Fail? ==> r.0 == st && r.1.error.KeyError?)
  {
    ContainerMetricLabelsSpec(c, expose);
    var lr := ContainerMetricLabels(c, expose);
    if lr.Success? {
      LabelKeySet(expose);
      PublishSnapshot(st, prefix, expose, lr.value, s);
    }
  }

  /** A pass of the main loop raises exactly when some container lacks an
      exposed label, and then it raises `KeyError`; either way the gauges keep
      the main loop's shape. */
  lemma {:induction false} CycleSpec(st: Store, prefix: string, expose: seq<string>, targets: seq<(Container, Snapshot)>)
    requires SchemaOK(st.metrics, prefix, Labels(expose))
    requires NoDuplicates(expose)
    requires forall i :: 0 <= i < |targets| ==> WellFormed(targets[i].1)
    ensures var r := Cycle(st, prefix, expose, targets);
      && SchemaOK(r.0.metrics, prefix, Labels(expose))
      && (r.1.Pass? <==> forall i :: 0 <= i < |targets| ==> CarriesExposed(targets[i].0, expose))
      && (r.1.Fail? ==> r.1.error.KeyError?)
    decreases |targets|
  {
    if targets != [] {
      PublishTargetSpec(st, prefix, expose, targets[0].0, targets[0].1);
      var r := PublishTarget(st, prefix, expose, targets[0].0, targets[0].1);
      if r.1.Pass? {
        var rest := targets[1..];
        assert forall i :: 0 <= i < |rest| ==> rest[i] == targets[i + 1];
        CycleSpec(r.0, prefix, expose, rest);
      }
    }
  }

  /** Publishing a container leaves alone every series that carries another
      container's name. */
  lemma PublishTargetKeepsReads(st: Store, prefix: string, expose: seq<string>, c: Container, s: Snapshot,
                                series: Series, value: int)
    requires NameLabel in series.1 && series.1[NameLabel] != c.name
    requires Reads(st.values, series, value)
    ensures Reads(PublishTarget(st, prefix, expose, c, s).0.values, series, value)
  {
    ContainerMetricLabelsSpec(c, expose);
    var lr := ContainerMetricLabels(c, expose);
    if lr.Success? {
      var lv := lr.value;
      var pubs := Publications(s);
      PublicationsConform(s);
      assert InterfaceLabel != NameLabel by { assert |InterfaceLabel| != |NameLabel|; }
      forall j | 0 <= j < |pubs| ensures PubSeries(lv, pubs[j]) != series {
        var extra := pubs[j].extra;
        assert pubs[j] in pubs;
        assert forall i :: 0 <= i < |extra| ==> extra[i].0 == DictKeys(extra)[i];
        assert NameLabel !in DictToMap(extra);
        assert (lv + DictToMap(extra))[NameLabel] == c.name;
      }
      PublishAllUntouched(st, prefix, Labels(expose), lv, pubs, series);
    }
  }

  /** A pass over containers with other names leaves a series' reading alone. */
  lemma {:induction false} CycleKeepsReads(st: Store, prefix: string, expose: seq<string>,
                                           targets: seq<(Container, Snapshot)>, series: Series, value: int)
    requires NameLabel in series.1
    requires forall k :: 0 <= k < |targets| ==> targets[k].0.name != series.1[NameLabel]
    requires Reads(st.values, series, value)
    ensures Reads(Cycle(st, prefix, expose, targets).0.values, series, value)
    decreases |targets|
  {
    if targets != [] {
      PublishTargetKeepsReads(st, prefix, expose, targets[0].0, targets[0].1, series, value);
      var r := PublishTarget(st, prefix, expose, targets[0].0, targets[0].1);
      if r.1.Pass? {
        var rest := targets[1..];
        assert forall k :: 0 <= k < |rest| ==> rest[k] == targets[k + 1];
        CycleKeepsReads(r.0, prefix, expose, rest, series, value);
      }
    }
  }

  /** A snapshot readable under a container's labels stays readable through a
      pass over containers with other names. */
  lemma SnapshotSurvivesCycle(st: Store, prefix: string, expose: seq<string>,
                              targets: seq<(Container, Snapshot)>, lv: map<string, string>, s: Snapshot)
    requires NameLabel in lv
    requires forall k :: 0 <= k < |targets| ==> targets[k].0.name != lv[NameLabel]
    requires ReadsSnapshot(st.values, lv, s)
    ensures ReadsSnapshot(Cycle(st, prefix, expose, targets).0.values, lv, s)
  {
    CycleKeepsReads(st, prefix, expose, targets, ("pids", lv), s.pids);
    CycleKeepsReads(st, prefix, expose, targets, ("cpu_usage_total", lv), s.totalUsage);
    CycleKeepsReads(st, prefix, expose, targets, ("cpu_usage_system", lv), s.kernelUsage);
    CycleKeepsReads(st, prefix, expose, targets, ("cpu_usage_user", lv), s.userUsage);
    CycleKeepsReads(st, prefix, expose, targets, ("memory_usage", lv), s.memoryUsage);
    CycleKeepsReads(st, prefix, expose, targets, ("memory_usage_max", lv), s.memoryMaxUsage);
    CycleKeepsReads(st, prefix, expose, targets, ("memory_limit", lv), s.memoryLimit);
    assert InterfaceLabel != NameLabel by { assert |InterfaceLabel| != |NameLabel|; }
    forall i, j | 0 <= i < |s.networks| && 0 <= j < |s.networks[i].1|
      ensures Reads(Cycle(st, prefix, expose, targets).0.values,
                    (NetPrefix + s.networks[i].1[j].0, lv[InterfaceLabel := s.networks[i].0]), s.networks[i].1[j].1)
    {
      CycleKeepsReads(st, prefix, expose, targets,
                      (NetPrefix + s.networks[i].1[j].0, lv[InterfaceLabel := s.networks[i].0]), s.networks[i].1[j].1);
    }
  }

  /** After a pass of the main loop that raises nothing, over containers with
      distinct names, a scrape reads every container's snapshot under that
      container's labels: a later container never overwrites an earlier one. */
  lemma {:induction false} CycleReads(st: Store, prefix: string, expose: seq<string>, targets: seq<(Container, Snapshot)>)
    requires SchemaOK(st.metrics, prefix, Labels(expose))
    requires NoDuplicates(expose)
    requires forall i :: 0 <= i < |targets| ==> WellFormed(targets[i].1)
    requires forall a, b :: 0 <= a < b < |targets| ==> targets[a].0.name != targets[b].0.name
    requires Cycle(st, prefix, expose, targets).1.Pass?
    ensures forall k :: 0 <= k < |targets| ==>
              && ContainerMetricLabels(targets[k].0, expose).Success?
              && ReadsSnapshot(Cycle(st, prefix, expose, targets).0.values,
                               ContainerMetricLabels(targets[k].0, expose).value, targets[k].1)
    decreases |targets|
  {
    if targets != [] {
      var c := targets[0].0;
      PublishTargetSpec(st, prefix, expose, c, targets[0].1);
      ContainerMetricLabelsSpec(c, expose);
      var r := PublishTarget(st, prefix, expose, c, targets[0].1);
      var rest := targets[1..];
      assert forall k :: 0 <= k < |rest| ==> rest[k] == targets[k + 1];
      assert Cycle(st, prefix, expose, targets) == Cycle(r.0, prefix, expose, rest);
      CycleReads(r.0, prefix, expose, rest);
      var lv := ContainerMetricLabels(c, expose).value;
      SnapshotSurvivesCycle(r.0, prefix, expose, rest, lv, targets[0].1);
      forall k | 0 <= k < |targets|
        ensures && ContainerMetricLabels(targets[k].0, expose).Success?
                && ReadsSnapshot(Cycle(st, prefix, expose, targets).0.values,
                                 ContainerMetricLabels(targets[k].0, expose).value, targets[k].1)
      {
        if k > 0 {
          assert targets[k] == rest[k - 1];
        }
      }
    }
  }

  /** With a label exposed twice, a headline call (no extra labels) is refused
      by the gauge's label check and sets nothing. */
  lemma DuplicateLabelsRejectHeadline(st: Store, prefix: string, expose: seq<string>,
                                      lv: map<string, string>, p: Publication)
    requires SchemaOK(st.metrics, prefix, Labels(expose))
    requires !NoDuplicates(expose)
    requires p.extra == [] && !IsNetMetric(p.metric)
    ensures var r := Log(st, prefix, Labels(expose), p.metric, lv, p.value, p.extra);
      r.1 == Fail(IncorrectLabelNames) && r.0.values == st.values
  {
    var base := Labels(expose);
    LabelsNoDuplicates(expose);
    var r := Log(st, prefix, base, p.metric, lv, p.value, p.extra);
    assert DictKeys(p.extra) == [];
    assert r.0.metrics[p.metric].labelKeys == base by {
      assert base + [] == base;
    }
  }

  /** Duplicated exposed labels (`EXPOSE_LABELS=app,app`) give a gauge repeated
      label keys, which `Gauge.labels` never accepts: the first `log_metric` of a
      container carrying the label raises `ValueError` and nothing is set. */
  lemma DuplicateExposedLabelsReject(st: Store, prefix: string, expose: seq<string>, c: Container, s: Snapshot)
    requires SchemaOK(st.metrics, prefix, Labels(expose))
    requires !NoDuplicates(expose)
    requires CarriesExposed(c, expose)
    ensures var r := PublishTarget(st, prefix, expose, c, s);
      r.1 == Fail(IncorrectLabelNames) && r.0.values == st.values
  {
    ContainerMetricLabelsPresent(c, expose);
    var lv := ContainerMetricLabels(c, expose).value;
    var pubs := Publications(s);
    var p := pubs[0];
    assert p == Publication("pids", [], s.pids);
    assert !IsNetMetric(p.metric) by { assert p.metric[0] != NetPrefix[0]; }
    DuplicateLabelsRejectHeadline(st, prefix, expose, lv, p);
  }


  /** monitor.py:43-54 for one container, on the registry. */
  method PublishContainer(reg: MetricRegistry, c: Container, s: Snapshot) returns (o: Outcome)
    modifies reg
    ensures (reg.Current(), o) == PublishTarget(old(reg.Current()), reg.prefix, reg.expose, c, s)
  {
    var lr := GetContainerMetricLabels(c, reg.expose);
    if lr.Failure? {
      return Fail(lr.error);
    }
    var lv := lr.value;
    var pubs := Publications(s);
    ghost var st0 := reg.Current();
    var i := 0;
    while i < |pubs|
      invariant 0 <= i <= |pubs|
      invariant PublishAll(reg.Current(), reg.prefix, Labels(reg.expose), lv, pubs[i..])
                == PublishAll(st0, reg.prefix, Labels(reg.expose), lv, pubs)
    {
      var p := pubs[i];
      o := reg.LogMetric(p.metric, lv, p.value, p.extra);
      if o.Fail? {
        return;
      }
      assert pubs[i..][1..] == pubs[i + 1..];
      i := i + 1;
    }
    return Pass;
  }

  /** One pass of the main loop over the monitored containers and their snapshots. */
  method RunCycle(reg: MetricRegistry, targets: seq<(Container, Snapshot)>) returns (o: Outcome)
    modifies reg
    ensures (reg.Current(), o) == Cycle(old(reg.Current()), reg.prefix, reg.expose, targets)
  {
    ghost var st0 := reg.Current();
    var i := 0;
    while i < |targets|
      invariant 0 <= i <= |targets|
      invariant Cycle(reg.Current(), reg.prefix, reg.expose, targets[i..])
                == Cycle(st0, reg.prefix, reg.expose, targets)
    {
      o := PublishContainer(reg, targets[i].0, targets[i].1);
      if o.Fail? {
        return;
      }
      assert targets[i..][1..] == targets[i + 1..];
      i := i + 1;
    }
    return Pass;
  }
}
