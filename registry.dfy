/** The metric cache of monitor.py:16-26: `metrics` maps a metric name to the
    gauge created for it by the first `get_metric` call, and `log_metric` sets the
    reading of one labelled series of that gauge. The gauges' own storage is
    replaced by one store of current readings keyed by (metric name, label values). */
module Registry {
  import opened Base
  import opened Config

  /** What a `prometheus_client.Gauge` is created with: its registered name, its
      help text and its label keys, in order. */
  datatype Gauge = Gauge(fullName: string, documentation: string, labelKeys: seq<string>)

  /** One time series: a metric name and a value for each of its label keys. */
  type Series = (string, map<string, string>)

  /** The exporter's mutable state as a value: the gauge cache and the current
      reading of every series that has been set. */
  datatype Store = Store(metrics: map<string, Gauge>, values: map<Series, int>)

  /** The cache after `get_metric(name, extra_labels)` (monitor.py:18-23), where
      `extraKeys` is `list(extra_labels.keys())` and `base` the global `labels`. */
  function WithMetric(metrics: map<string, Gauge>, prefix: string, base: seq<string>,
                      name: string, extraKeys: seq<string>): (r: map<string, Gauge>)
    ensures r.Keys == metrics.Keys + {name}
    ensures forall n :: n in metrics ==> r[n] == metrics[n]
    ensures name !in metrics ==> r[name] == Gauge(prefix + name, name, base + extraKeys)
  {
    if name in metrics then metrics else metrics[name := Gauge(prefix + name, name, base + extraKeys)]
  }

  /** A cache hit returns the cached gauge and leaves the cache as it was, whatever
      extra labels the call passes. */
  lemma CacheHit(metrics: map<string, Gauge>, prefix: string, base: seq<string>, name: string, extraKeys: seq<string>)
    requires name in metrics
    ensures WithMetric(metrics, prefix, base, name, extraKeys) == metrics
  {
  }

  /** The first call for a name fixes its gauge: a second call, with any extra
      labels, changes nothing. */
  lemma FirstCallFixesSchema(metrics: map<string, Gauge>, prefix: string, base: seq<string>,
                             name: string, first: seq<string>, later: seq<string>)
    ensures var m := WithMetric(metrics, prefix, base, name, first);
      WithMetric(m, prefix, base, name, later) == m
  {
  }

  /** The first key of `extra` that `lv` already has: calling `f(**lv, **extra)`
      raises `TypeError` for it. */
  function FirstClash(lv: map<string, string>, extra: Dict): (k: Option<string>)
    ensures k.None? <==> forall i :: 0 <= i < |extra| ==> extra[i].0 !in lv
    ensures k.Some? ==> k.value in lv && exists i :: 0 <= i < |extra| && extra[i].0 == k.value
  {
    if extra == [] then None
    else if extra[0].0 in lv then Some(extra[0].0)
    else FirstClash(lv, extra[1..])
  }

  /** `g.labels(**lv, **extra)`: the keyword merge raises `TypeError` on a key in
      both dicts, and the gauge raises `ValueError` unless the sorted keyword names
      equal its sorted label keys, that is, unless its label keys are distinct and
      are exactly the keywords. */
  function LabelCheck(g: Gauge, lv: map<string, string>, extra: Dict): (o: Outcome)
    ensures o.Pass? <==>
              && (forall i :: 0 <= i < |extra| ==> extra[i].0 !in lv)
              && NoDuplicates(g.labelKeys)
              && KeySet(g.labelKeys) == (lv + DictToMap(extra)).Keys
    ensures o.Fail? ==> o.error.DuplicateKeyword? || o.error == IncorrectLabelNames
  {
    match FirstClash(lv, extra)
    case Some(k) => Fail(DuplicateKeyword(k))
    case None =>
      if NoDuplicates(g.labelKeys) && KeySet(g.labelKeys) == (lv + DictToMap(extra)).Keys then Pass
      else Fail(IncorrectLabelNames)
  }

  /** Comparing sorted lists compares multisets: a list of keys sorts to the
      sorted keyword names exactly when its multiset is the keyword set, which
      holds exactly when its keys are distinct and are the keywords. */
  lemma DistinctKeysIffMultiset(keys: seq<string>, names: set<string>)
    ensures (NoDuplicates(keys) && KeySet(keys) == names) <==> multiset(keys) == multiset(names)
  {
    if NoDuplicates(keys) && KeySet(keys) == names {
      DistinctKeysMultiset(keys, names);
    }
    if multiset(keys) == multiset(names) {
      MultisetDistinctKeys(keys, names);
    }
  }

  lemma {:induction false} DistinctKeysMultiset(keys: seq<string>, names: set<string>)
    requires NoDuplicates(keys) && KeySet(keys) == names
    ensures multiset(keys) == multiset(names)
    decreases |keys|
  {
    if keys != [] {
      var a := keys[0];
      var rest := keys[1..];
      assert keys == [a] + rest;
      NoDuplicatesCons(a, rest);
      assert KeySet(keys) == {a} + KeySet(rest);
      DistinctKeysMultiset(rest, names - {a});
      SetMultisetRemove(names, a);
    }
  }

  lemma {:induction false} MultisetDistinctKeys(keys: seq<string>, names: set<string>)
    requires multiset(keys) == multiset(names)
    ensures NoDuplicates(keys) && KeySet(keys) == names
    decreases |keys|
  {
    if keys != [] {
      var a := keys[0];
      var rest := keys[1..];
      assert keys == [a] + rest;
      assert multiset(keys) == multiset{a} + multiset(rest);
      assert a in names by { assert multiset(keys)[a] > 0; }
      SetMultisetRemove(names, a);
      assert multiset(rest) == multiset(keys) - multiset{a};
      MultisetDistinctKeys(rest, names - {a});
      assert a !in rest by {
        assert multiset(names)[a] == 1;
        assert multiset(keys)[a] == 1 + multiset(rest)[a];
      }
      NoDuplicatesCons(a, rest);
      assert KeySet(keys) == {a} + KeySet(rest);
    }
  }

  lemma SetMultisetRemove(names: set<string>, a: string)
    requires a in names
    ensures multiset(names) == multiset{a} + multiset(names - {a})
  {
    assert names == {a} + (names - {a});
  }

  lemma NoDuplicatesCons(a: string, rest: seq<string>)
    ensures NoDuplicates([a] + rest) <==> a !in rest && NoDuplicates(rest)
  {
    var s := [a] + rest;
    if a !in rest && NoDuplicates(rest) {
      forall i, j | 0 <= i < j < |s| ensures s[i] != s[j] {
        assert s[j] == rest[j - 1];
        if i > 0 { assert s[i] == rest[i - 1]; }
      }
    }
    if NoDuplicates(s) {
      assert forall i, j :: 0 <= i < j < |rest| ==> rest[i] == s[i + 1] && rest[j] == s[j + 1];
      forall j | 0 <= j < |rest| ensures rest[j] != a {
        assert rest[j] == s[j + 1] && s[0] == a;
      }
    }
  }

  /** `LabelCheck` against its reference: the call passes exactly when no key is
      passed twice and the gauge's sorted label keys equal the sorted keyword
      names, that is, their multisets are equal. */
  lemma LabelCheckSorted(g: Gauge, lv: map<string, string>, extra: Dict)
    ensures LabelCheck(g, lv, extra).Pass? <==>
              FirstClash(lv, extra).None? && multiset(g.labelKeys) == multiset((lv + DictToMap(extra)).Keys)
  {
    DistinctKeysIffMultiset(g.labelKeys, (lv + DictToMap(extra)).Keys);
  }

  /** The series `log_metric(name, lv, value, extra)` writes to. */
  function SeriesOf(name: string, lv: map<string, string>, extra: Dict): Series
  {
    (name, lv + DictToMap(extra))
  }

  /** `log_metric(name, lv, value, extra)` (monitor.py:25-26) on the store `st`:
      the gauge is fetched or created first, then the labels are checked, then the
      series is set. The write overwrites: afterwards that series reads `value` and
      every other series reads what it read before. */
  function Log(st: Store, prefix: string, base: seq<string>, name: string,
               lv: map<string, string>, value: int, extra: Dict): (res: (Store, Outcome))
    ensures res.0.metrics == WithMetric(st.metrics, prefix, base, name, DictKeys(extra))
    ensures res.1 == LabelCheck(res.0.metrics[name], lv, extra)
    ensures res.1.Pass? ==> SeriesOf(name, lv, extra) in res.0.values
                            && res.0.values[SeriesOf(name, lv, extra)] == value
    ensures res.1.Fail? ==> res.0.values == st.values
    ensures forall s :: s != SeriesOf(name, lv, extra) ==>
              (s in res.0.values <==> s in st.values) && (s in st.values ==> res.0.values[s] == st.values[s])
  {
    var metrics := WithMetric(st.metrics, prefix, base, name, DictKeys(extra));
    var o := LabelCheck(metrics[name], lv, extra);
    var values := if o.Pass? then st.values[SeriesOf(name, lv, extra) := value] else st.values;
    (Store(metrics, values), o)
  }

  /** The module-level state of monitor.py that `get_metric` and `log_metric` use:
      the configuration they read (`prometheus_prefix`, `expose_labels`, from
      which `labels` is built) and the cache `metrics` with the gauges' readings. */
  class MetricRegistry {
    const prefix: string
    const expose: seq<string>
    var metrics: map<string, Gauge>
    var values: map<Series, int>

    constructor (prefix: string, expose: seq<string>)
      ensures this.prefix == prefix && this.expose == expose
      ensures metrics == map[] && values == map[]
    {
      this.prefix := prefix;
      this.expose := expose;
      metrics := map[];
      values := map[];
    }

    function Current(): Store
      reads this
    {
      Store(metrics, values)
    }

    /** `get_metric(name, extra_labels)` (monitor.py:18-23). */
    method GetMetric(name: string, extra: Dict) returns (g: Gauge)
      modifies this
      ensures metrics == WithMetric(old(metrics), prefix, Labels(expose), name, DictKeys(extra))
      ensures values == old(values)
      ensures name in metrics && g == metrics[name]
      ensures name in old(metrics) ==> metrics == old(metrics) && g == old(metrics)[name]
      ensures name !in old(metrics) ==>
                g == Gauge(prefix + name, name, Labels(expose) + DictKeys(extra))
                && metrics == old(metrics)[name := g]
    {
      if name in metrics {
        return metrics[name];
      }
      g := Gauge(prefix + name, name, Labels(expose) + DictKeys(extra));
      metrics := metrics[name := g];
    }

    /** `log_metric(name, labels, value, extra_labels)` (monitor.py:25-26). */
    method LogMetric(name: string, labelValues: map<string, string>, value: int, extra: Dict) returns (o: Outcome)
      modifies this
      ensures (Current(), o) == Log(old(Current()), prefix, Labels(expose), name, labelValues, value, extra)
      ensures o.Pass? ==> values == old(values)[SeriesOf(name, labelValues, extra) := value]
      ensures o.Fail? ==> values == old(values)
    {
      var g := GetMetric(name, extra);
      o := LabelCheck(g, labelValues, extra);
      if o.Pass? {
        values := values[SeriesOf(name, labelValues, extra) := value];
      }
    }
  }
}
