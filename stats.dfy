/** The per-container body of the main loop (monitor.py:45-54) as data: the
    stats snapshot of one container and the `log_metric` calls it gives rise to,
    in the order the source makes them. */
module Stats {
  import opened Base
  import Config

  /** `stats['networks']`: for each interface, in dict order, its counters
      (counter name and value), in dict order. */
  type Networks = seq<(string, seq<(string, int)>)>

  /** The fields of the Docker stats dict that monitor.py reads. */
  datatype Snapshot = Snapshot(
    pids: int,            // pids_stats.current
    totalUsage: int,      // cpu_stats.cpu_usage.total_usage
    kernelUsage: int,     // cpu_stats.cpu_usage.usage_in_kernelmode
    userUsage: int,       // cpu_stats.cpu_usage.usage_in_usermode
    memoryUsage: int,     // memory_stats.usage
    memoryMaxUsage: int,  // memory_stats.max_usage
    memoryLimit: int,     // memory_stats.limit
    networks: Networks)   // networks

  /** One `log_metric(metric, metric_labels, value, extra)` call. */
  datatype Publication = Publication(metric: string, extra: Dict, value: int)

  const InterfaceLabel: string := "network_interface"
  const NetPrefix: string := "net_"

  /** A metric name of the form `net_<counter>`. */
  predicate IsNetMetric(metric: string)
  {
    |metric| >= |NetPrefix| && metric[..|NetPrefix|] == NetPrefix
  }

  /** Lines 45-51: the seven headline readings, each copied unchanged. */
  function Headline(s: Snapshot): seq<Publication>
  {
    [ Publication("pids", [], s.pids),
      Publication("cpu_usage_total", [], s.totalUsage),
      Publication("cpu_usage_system", [], s.kernelUsage),
      Publication("cpu_usage_user", [], s.userUsage),
      Publication("memory_usage", [], s.memoryUsage),
      Publication("memory_usage_max", [], s.memoryMaxUsage),
      Publication("memory_limit", [], s.memoryLimit) ]
  }

  /** Line 54 for one interface `dev` and one of its counters. */
  function InterfacePublication(dev: string, counter: (string, int)): Publication
  {
    Publication(NetPrefix + counter.0, [(InterfaceLabel, dev)], counter.1)
  }

  /** The inner loop of lines 53-54 for one interface. */
  function InterfacePublications(dev: string, counters: seq<(string, int)>): seq<Publication>
  {
    if counters == [] then []
    else [InterfacePublication(dev, counters[0])] + InterfacePublications(dev, counters[1..])
  }

  /** Both loops of lines 52-54. */
  function NetPublications(nets: Networks): seq<Publication>
  {
    if nets == [] then []
    else InterfacePublications(nets[0].0, nets[0].1) + NetPublications(nets[1..])
  }

  /** Every `log_metric` call lines 45-54 make for one snapshot, in order. */
  function Publications(s: Snapshot): seq<Publication>
  {
    Headline(s) + NetPublications(s.networks)
  }

  /** The number of (interface, counter) pairs. */
  function CounterCount(nets: Networks): nat
  {
    if nets == [] then 0 else |nets[0].1| + CounterCount(nets[1..])
  }

  /** What a Python dict guarantees of `stats['networks']`: interface names are
      distinct, and so are the counter names of each interface. */
  predicate WellFormed(s: Snapshot)
  {
    && (forall i, j :: 0 <= i < j < |s.networks| ==> s.networks[i].0 != s.networks[j].0)
    && (forall i, j, k :: 0 <= i < |s.networks| && 0 <= j < k < |s.networks[i].1| ==>
          s.networks[i].1[j].0 != s.networks[i].1[k].0)
  }

  /** What identifies the series a publication writes, for a fixed container. */
  function Tag(p: Publication): (string, Dict)
  {
    (p.metric, p.extra)
  }

  predicate DistinctTags(pubs: seq<Publication>)
  {
    forall a, b :: 0 <= a < b < |pubs| ==> Tag(pubs[a]) != Tag(pubs[b])
  }

  lemma {:induction false} InterfacePublicationsMembership(dev: string, counters: seq<(string, int)>)
    ensures |InterfacePublications(dev, counters)| == |counters|
    ensures forall j :: 0 <= j < |counters| ==>
              InterfacePublications(dev, counters)[j] == InterfacePublication(dev, counters[j])
    decreases |counters|
  {
    if counters != [] {
      InterfacePublicationsMembership(dev, counters[1..]);
    }
  }

  /** The network publications are exactly one `net_<counter>` publication per
      (interface, counter) pair, labelled with that interface. */
  lemma {:induction false} NetPublicationsMembership(nets: Networks)
    ensures |NetPublications(nets)| == CounterCount(nets)
    ensures forall p :: p in NetPublications(nets) <==>
              exists i, j :: 0 <= i < |nets| && 0 <= j < |nets[i].1| && p == InterfacePublication(nets[i].0, nets[i].1[j])
    decreases |nets|
  {
    if nets != [] {
      var head := InterfacePublications(nets[0].0, nets[0].1);
      var rest := nets[1..];
      InterfacePublicationsMembership(nets[0].0, nets[0].1);
      NetPublicationsMembership(rest);
      forall p ensures p in NetPublications(nets) <==>
          exists i, j :: 0 <= i < |nets| && 0 <= j < |nets[i].1| && p == InterfacePublication(nets[i].0, nets[i].1[j])
      {
        if p in NetPublications(nets) {
          if p in head {
            var j :| 0 <= j < |head| && head[j] == p;
            assert p == InterfacePublication(nets[0].0, nets[0].1[j]);
          } else {
            assert p in NetPublications(rest);
            var i, j :| 0 <= i < |rest| && 0 <= j < |rest[i].1| && p == InterfacePublication(rest[i].0, rest[i].1[j]);
            assert rest[i] == nets[i + 1];
          }
        }
        if exists i, j :: 0 <= i < |nets| && 0 <= j < |nets[i].1| && p == InterfacePublication(nets[i].0, nets[i].1[j]) {
          var i, j :| 0 <= i < |nets| && 0 <= j < |nets[i].1| && p == InterfacePublication(nets[i].0, nets[i].1[j]);
          if i == 0 {
            assert head[j] == p;
          } else {
            assert rest[i - 1] == nets[i];
            assert p in NetPublications(rest);
          }
        }
      }
    }
  }

  lemma DistinctConcat(x: seq<Publication>, y: seq<Publication>)
    requires DistinctTags(x) && DistinctTags(y)
    requires forall p, q :: p in x && q in y ==> Tag(p) != Tag(q)
    ensures DistinctTags(x + y)
  {
    var xy := x + y;
    forall a, b | 0 <= a < b < |xy| ensures Tag(xy[a]) != Tag(xy[b]) {
      if b < |x| {
        assert xy[a] == x[a] && xy[b] == x[b];
      } else if a >= |x| {
        assert xy[a] == y[a - |x|] && xy[b] == y[b - |x|];
      } else {
        assert xy[a] in x && xy[b] in y;
      }
    }
  }

  lemma {:induction false} NetPublicationsDistinct(nets: Networks)
    requires forall i, j :: 0 <= i < j < |nets| ==> nets[i].0 != nets[j].0
    requires forall i, j, k :: 0 <= i < |nets| && 0 <= j < k < |nets[i].1| ==> nets[i].1[j].0 != nets[i].1[k].0
    ensures DistinctTags(NetPublications(nets))
    decreases |nets|
  {
    if nets != [] {
      var dev := nets[0].0;
      var head := InterfacePublications(dev, nets[0].1);
      var rest := nets[1..];
      InterfacePublicationsMembership(dev, nets[0].1);
      forall a, b | 0 <= a < b < |head| ensures Tag(head[a]) != Tag(head[b]) {
        if head[a].metric == head[b].metric {
          Config.PrefixInjective(NetPrefix, nets[0].1[a].0, nets[0].1[b].0);
        }
      }
      NetPublicationsDistinct(rest);
      NetPublicationsMembership(rest);
      forall p, q | p in head && q in NetPublications(rest) ensures Tag(p) != Tag(q) {
        var j :| 0 <= j < |head| && head[j] == p;
        var i, k :| 0 <= i < |rest| && 0 <= k < |rest[i].1| && q == InterfacePublication(rest[i].0, rest[i].1[k]);
        assert rest[i].0 == nets[i + 1].0;
        assert p.extra[0].1 == dev && q.extra[0].1 == rest[i].0;
      }
      DistinctConcat(head, NetPublications(rest));
    }
  }

  /** The seven headline readings write seven different metrics. */
  lemma HeadlineDistinct(s: Snapshot)
    ensures DistinctTags(Headline(s))
  {
    var head := Headline(s);
    forall a, b | 0 <= a < b < 7 ensures head[a].metric != head[b].metric {
      assert head[a].metric[..4] != head[b].metric[..4] || |head[a].metric| != |head[b].metric|
             || head[a].metric[|head[a].metric| - 2] != head[b].metric[|head[b].metric| - 2];
    }
  }

  /** Every network publication passes exactly one extra label, `network_interface`. */
  lemma NetPublicationsExtra(nets: Networks)
    ensures forall p :: p in NetPublications(nets) ==>
              |p.extra| == 1 && p.extra[0].0 == InterfaceLabel && IsNetMetric(p.metric)
  {
    NetPublicationsMembership(nets);
    forall p | p in NetPublications(nets)
      ensures |p.extra| == 1 && p.extra[0].0 == InterfaceLabel && IsNetMetric(p.metric)
    {
      var i, j :| 0 <= i < |nets| && 0 <= j < |nets[i].1| && p == InterfacePublication(nets[i].0, nets[i].1[j]);
    }
  }

  /** With distinct dict keys, no two publications of a snapshot write the same series. */
  lemma PublicationsDistinct(s: Snapshot)
    requires WellFormed(s)
    ensures DistinctTags(Publications(s))
  {
    var head := Headline(s);
    var net := NetPublications(s.networks);
    HeadlineDistinct(s);
    NetPublicationsDistinct(s.networks);
    NetPublicationsExtra(s.networks);
    forall p, q | p in head && q in net ensures Tag(p) != Tag(q) {
      assert p.extra == [];
    }
    DistinctConcat(head, net);
  }

  /** The publications of one snapshot: the seven headline readings first, each
      with no extra label and its value copied (`cpu_usage_system` from the
      kernel-mode time), then one per (interface, counter) pair; no two of them
      write the same series when the snapshot's dicts have distinct keys. */
  lemma PublicationsShape(s: Snapshot)
    ensures var pubs := Publications(s);
      && |pubs| == 7 + CounterCount(s.networks)
      && pubs[0] == Publication("pids", [], s.pids)
      && pubs[1] == Publication("cpu_usage_total", [], s.totalUsage)
      && pubs[2] == Publication("cpu_usage_system", [], s.kernelUsage)
      && pubs[3] == Publication("cpu_usage_user", [], s.userUsage)
      && pubs[4] == Publication("memory_usage", [], s.memoryUsage)
      && pubs[5] == Publication("memory_usage_max", [], s.memoryMaxUsage)
      && pubs[6] == Publication("memory_limit", [], s.memoryLimit)
      && (forall p :: p in pubs[7..] <==>
            exists i, j :: 0 <= i < |s.networks| && 0 <= j < |s.networks[i].1|
                           && p == InterfacePublication(s.networks[i].0, s.networks[i].1[j]))
      && (WellFormed(s) ==> DistinctTags(pubs))
  {
    var pubs := Publications(s);
    NetPublicationsMembership(s.networks);
    assert pubs[7..] == NetPublications(s.networks);
    if WellFormed(s) {
      PublicationsDistinct(s);
    }
  }
}
