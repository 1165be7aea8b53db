/** Values shared by every part of the exporter model: the Python exceptions the
    monitored code can raise, and the result wrappers that carry them. */
module Base {

  /** The exceptions raised by the modelled code. */
  datatype Error =
    | KeyError(key: string)              // `d[k]` on a dict without `k`
    | AttributeError(attribute: string)  // a method looked up on a `str` that lacks it
    | DuplicateKeyword(keyword: string)  // TypeError: `f(**a, **b)` with a key in both
    | IncorrectLabelNames                // ValueError from `Gauge.labels` on a label-name mismatch

  datatype Option<+T> = None | Some(value: T)

  datatype Result<+T> = Success(value: T) | Failure(error: Error)

  /** Completion of a statement that returns nothing: it either ran or raised. */
  datatype Outcome = Pass | Fail(error: Error)

  /** A Python dict of string keys and string values, in insertion order. */
  type Dict = seq<(string, string)>

  predicate NoDuplicates<T(==)>(s: seq<T>) {
    forall i, j :: 0 <= i < j < |s| ==> s[i] != s[j]
  }

  /** The elements of a list of keys, as a set. */
  function KeySet(keys: seq<string>): set<string>
  {
    set k | k in keys
  }

  /** The keys of an ordered dict, in order (`list(d.keys())`). */
  function DictKeys(d: Dict): (keys: seq<string>)
    ensures |keys| == |d|
    ensures forall i :: 0 <= i < |d| ==> keys[i] == d[i].0
  {
    seq(|d|, i requires 0 <= i < |d| => d[i].0)
  }

  /** The mapping an ordered dict denotes; a later entry for a key replaces an earlier one. */
  function DictToMap(d: Dict): (m: map<string, string>)
    ensures m.Keys == set i | 0 <= i < |d| :: d[i].0
    decreases |d|
  {
    if d == [] then map[]
    else
      var init := d[..|d| - 1];
      var m0 := DictToMap(init);
      assert forall i :: 0 <= i < |init| ==> init[i] == d[i];
      assert (set i | 0 <= i < |d| :: d[i].0) == (set i | 0 <= i < |init| :: init[i].0) + {d[|d| - 1].0};
      m0[d[|d| - 1].0 := d[|d| - 1].1]
  }
}
