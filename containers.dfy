/** `get_container_metric_labels` (monitor.py:28-34): the label values one
    container contributes to every metric published for it. */
module Containers {
  import opened Base
  import opened Config

  /** A running container as the Docker client reports it: its id, its name and
      the labels attached to it. */
  datatype Container = Container(id: string, name: string, labels: map<string, string>)

  /** The label keys the exposed labels contribute: `label_<l>` for each `l`. */
  function ExposedKeys(expose: seq<string>): set<string>
  {
    set i | 0 <= i < |expose| :: LabelPrefix + expose[i]
  }

  /** The loop of monitor.py:32-33, started on the dict `base` and run over the
      exposed labels still to do. Reading a label the container lacks raises
      `KeyError`, which abandons the dict. */
  function AddExposedLabels(c: Container, base: map<string, string>, rest: seq<string>): Result<map<string, string>>
    decreases |rest|
  {
    if rest == [] then Success(base)
    else if rest[0] in c.labels then
      AddExposedLabels(c, base[LabelPrefix + rest[0] := c.labels[rest[0]]], rest[1..])
    else Failure(KeyError(rest[0]))
  }

  /** The value of `get_container_metric_labels(c)` when `expose_labels == expose`. */
  function ContainerMetricLabels(c: Container, expose: seq<string>): Result<map<string, string>>
  {
    AddExposedLabels(c, map[NameLabel := c.name], expose)
  }

  /** monitor.py:28-34 as the source runs it: a dict grown one exposed label at a time. */
  method GetContainerMetricLabels(c: Container, expose: seq<string>) returns (r: Result<map<string, string>>)
    ensures r == ContainerMetricLabels(c, expose)
  {
    var base := map[NameLabel := c.name];
    var i := 0;
    while i < |expose|
      invariant 0 <= i <= |expose|
      invariant AddExposedLabels(c, base, expose[i..]) == ContainerMetricLabels(c, expose)
    {
      var exposed := expose[i];
      if exposed !in c.labels {
        return Failure(KeyError(exposed));
      }
      base := base[LabelPrefix + exposed := c.labels[exposed]];
      assert expose[i..][1..] == expose[i + 1..];
      i := i + 1;
    }
    return Success(base);
  }

  lemma {:induction false} AddExposedLabelsSucceeds(c: Container, base: map<string, string>, rest: seq<string>)
    requires forall i :: 0 <= i < |rest| ==> rest[i] in c.labels
    ensures var r := AddExposedLabels(c, base, rest);
      && r.Success?
      && r.value.Keys == base.Keys + ExposedKeys(rest)
      && (forall k :: k in base && k !in ExposedKeys(rest) ==> r.value[k] == base[k])
      && (forall i :: 0 <= i < |rest| ==> r.value[LabelPrefix + rest[i]] == c.labels[rest[i]])
    decreases |rest|
  {
    if rest != [] {
      var key := LabelPrefix + rest[0];
      var base' := base[key := c.labels[rest[0]]];
      var tail := rest[1..];
      AddExposedLabelsSucceeds(c, base', tail);
      var r := AddExposedLabels(c, base', tail);
      assert ExposedKeys(rest) == {key} + ExposedKeys(tail) by {
        forall k | k in ExposedKeys(rest) ensures k in {key} + ExposedKeys(tail) {
          var i :| 0 <= i < |rest| && k == LabelPrefix + rest[i];
          if i > 0 { assert k == LabelPrefix + tail[i - 1]; }
        }
        forall k | k in ExposedKeys(tail) ensures k in ExposedKeys(rest) {
          var i :| 0 <= i < |tail| && k == LabelPrefix + tail[i];
          assert k == LabelPrefix + rest[i + 1];
        }
      }
      forall i | 0 <= i < |rest| ensures r.value[LabelPrefix + rest[i]] == c.labels[rest[i]] {
        if i > 0 {
          assert rest[i] == tail[i - 1];
        } else if key in ExposedKeys(tail) {
          var j :| 0 <= j < |tail| && key == LabelPrefix + tail[j];
          PrefixInjective(LabelPrefix, rest[0], tail[j]);
        }
      }
    }
  }

  lemma {:induction false} AddExposedLabelsFails(c: Container, base: map<string, string>, rest: seq<string>)
    requires exists i :: 0 <= i < |rest| && rest[i] !in c.labels
    ensures var r := AddExposedLabels(c, base, rest);
      && r.Failure?
      && exists i :: 0 <= i < |rest| && rest[i] !in c.labels && r.error == KeyError(rest[i])
                     && forall j :: 0 <= j < i ==> rest[j] in c.labels
    decreases |rest|
  {
    if rest[0] in c.labels {
      var tail := rest[1..];
      var i :| 0 <= i < |rest| && rest[i] !in c.labels;
      assert tail[i - 1] == rest[i];
      AddExposedLabelsFails(c, base[LabelPrefix + rest[0] := c.labels[rest[0]]], tail);
      var r := AddExposedLabels(c, base[LabelPrefix + rest[0] := c.labels[rest[0]]], tail);
      var k :| 0 <= k < |tail| && tail[k] !in c.labels && r.error == KeyError(tail[k])
               && forall j :: 0 <= j < k ==> tail[j] in c.labels;
      assert rest[k + 1] == tail[k];
      forall j | 0 <= j < k + 1 ensures rest[j] in c.labels {
        if j > 0 { assert rest[j] == tail[j - 1]; }
      }
    }
  }

  /** The set of base label keys (`labels`) is `name` plus one `label_<l>` per exposed label. */
  lemma LabelKeySet(expose: seq<string>)
    ensures KeySet(Labels(expose)) == {NameLabel} + ExposedKeys(expose)
  {
    var keys := Labels(expose);
    forall k | k in keys ensures k in {NameLabel} + ExposedKeys(expose) {
      var i :| 0 <= i < |keys| && keys[i] == k;
      if i > 0 { assert k == LabelPrefix + expose[i - 1]; }
    }
    forall k | k in ExposedKeys(expose) ensures k in keys {
      var i :| 0 <= i < |expose| && k == LabelPrefix + expose[i];
      assert keys[i + 1] == k;
    }
  }

  /** `name` is never one of the keys the exposed labels contribute. */
  lemma NameNotExposed(expose: seq<string>)
    ensures NameLabel !in ExposedKeys(expose)
  {
    LabelsAvoidInterfaceKey(expose);
    forall k | k in ExposedKeys(expose) ensures k != NameLabel {
      var i :| 0 <= i < |expose| && k == LabelPrefix + expose[i];
      assert Labels(expose)[i + 1] == k;
    }
  }

  /** The success case of `ContainerMetricLabelsSpec`. */
  lemma ContainerMetricLabelsPresent(c: Container, expose: seq<string>)
    requires forall i :: 0 <= i < |expose| ==> expose[i] in c.labels
    ensures var r := ContainerMetricLabels(c, expose);
      && r.Success?
      && r.value.Keys == KeySet(Labels(expose))
      && r.value[NameLabel] == c.name
      && forall i :: 0 <= i < |expose| ==> r.value[LabelPrefix + expose[i]] == c.labels[expose[i]]
  {
    AddExposedLabelsSucceeds(c, map[NameLabel := c.name], expose);
    LabelKeySet(expose);
    NameNotExposed(expose);
  }

  /** What `get_container_metric_labels` promises: it succeeds exactly when the
      container carries every exposed label, and then its keys are exactly the
      base label keys, `name` maps to the container's name and `label_<l>` to the
      container's label `l`; otherwise it raises `KeyError` for the first exposed
      label the container lacks. */
  lemma ContainerMetricLabelsSpec(c: Container, expose: seq<string>)
    ensures var r := ContainerMetricLabels(c, expose);
      && (r.Success? <==> forall i :: 0 <= i < |expose| ==> expose[i] in c.labels)
      && (r.Success? ==>
            && r.value.Keys == KeySet(Labels(expose))
            && r.value[NameLabel] == c.name
            && forall i :: 0 <= i < |expose| ==> r.value[LabelPrefix + expose[i]] == c.labels[expose[i]])
      && (r.Failure? ==>
            exists i :: 0 <= i < |expose| && expose[i] !in c.labels && r.error == KeyError(expose[i])
                        && forall j :: 0 <= j < i ==> expose[j] in c.labels)
  {
    if forall i :: 0 <= i < |expose| ==> expose[i] in c.labels {
      ContainerMetricLabelsPresent(c, expose);
    } else {
      AddExposedLabelsFails(c, map[NameLabel := c.name], expose);
    }
  }
}
