/** The module-level configuration of monitor.py: the list of exposed container
    labels parsed from the `EXPOSE_LABELS` string, and the base label keys
    (`labels`) every gauge carries. */
module Config {
  import opened Base

  /** Number of occurrences of `c` in `s`. */
  function Occurrences(s: string, c: char): nat
  {
    if s == [] then 0 else (if s[0] == c then 1 else 0) + Occurrences(s[1..], c)
  }

  /** Python's `s.split(sep)` for a one-character separator: the maximal
      separator-free pieces, one more than there are separators, empty pieces kept. */
  function Split(s: string, sep: char): (pieces: seq<string>)
    ensures |pieces| == 1 + Occurrences(s, sep)
    ensures forall i :: 0 <= i < |pieces| ==> sep !in pieces[i]
    decreases |s|
  {
    if s == [] then [""]
    else
      var rest := Split(s[1..], sep);
      if s[0] == sep then [""] + rest
      else [[s[0]] + rest[0]] + rest[1..]
  }

  /** Python's `sep.join(pieces)`: the inverse of `Split`. */
  function Join(pieces: seq<string>, sep: char): string
  {
    if pieces == [] then ""
    else if |pieces| == 1 then pieces[0]
    else pieces[0] + [sep] + Join(pieces[1..], sep)
  }

  lemma {:induction false} SplitJoin(s: string, sep: char)
    ensures Join(Split(s, sep), sep) == s
    decreases |s|
  {
    if s != [] {
      var rest := Split(s[1..], sep);
      SplitJoin(s[1..], sep);
      if s[0] == sep {
        assert Split(s, sep) == [""] + rest;
        assert ([""] + rest)[1..] == rest;
      } else if |rest| == 1 {
        assert Split(s, sep) == [[s[0]] + rest[0]];
      } else {
        var pieces := Split(s, sep);
        assert pieces == [[s[0]] + rest[0]] + rest[1..];
        assert pieces[1..] == rest[1..];
        assert Join(rest, sep) == rest[0] + [sep] + Join(rest[1..], sep);
        assert s == [s[0]] + s[1..];
      }
    }
  }

  /** A string without the separator is a single piece. */
  lemma {:induction false} SplitNoSeparator(s: string, sep: char)
    requires sep !in s
    ensures Split(s, sep) == [s]
    decreases |s|
  {
    if s != [] {
      assert sep !in s[1..] by { assert forall k :: 0 <= k < |s[1..]| ==> s[1..][k] == s[k + 1]; }
      SplitNoSeparator(s[1..], sep);
      assert s == [s[0]] + s[1..];
    }
  }

  /** Splitting distributes over a separator: the pieces of `a`, then those of `b`. */
  lemma {:induction false} SplitAround(a: string, b: string, sep: char)
    ensures Split(a + [sep] + b, sep) == Split(a, sep) + Split(b, sep)
    decreases |a|
  {
    var s := a + [sep] + b;
    if a == [] {
      assert s[1..] == b;
      assert Split(s, sep) == [""] + Split(b, sep);
    } else {
      assert s[0] == a[0];
      assert s[1..] == a[1..] + [sep] + b;
      SplitAround(a[1..], b, sep);
      SplitStep(a, sep);
      SplitStep(s, sep);
    }
  }

  /** One step of `Split` on a non-empty string, stated through its tail. */
  lemma SplitStep(s: string, sep: char)
    requires s != []
    ensures s[0] == sep ==> Split(s, sep) == [""] + Split(s[1..], sep)
    ensures s[0] != sep ==> Split(s, sep) == [[s[0]] + Split(s[1..], sep)[0]] + Split(s[1..], sep)[1..]
  {
  }

  /** Joining separator-free pieces and splitting again gives the pieces back. */
  lemma {:induction false} JoinSplit(pieces: seq<string>, sep: char)
    requires pieces != []
    requires forall i :: 0 <= i < |pieces| ==> sep !in pieces[i]
    ensures Split(Join(pieces, sep), sep) == pieces
    decreases |pieces|
  {
    if |pieces| == 1 {
      SplitNoSeparator(pieces[0], sep);
    } else {
      JoinSplit(pieces[1..], sep);
      SplitAround(pieces[0], Join(pieces[1..], sep), sep);
      SplitNoSeparator(pieces[0], sep);
      assert pieces == [pieces[0]] + pieces[1..];
    }
  }

  /** The characters Python's `str.isspace` accepts, which `str.strip()` removes. */
  const Whitespace: set<char> := {
    ' ', '\t', '\n', '\r', '\U{000B}', '\U{000C}',
    '\U{001C}', '\U{001D}', '\U{001E}', '\U{001F}',
    '\U{0085}', '\U{00A0}', '\U{1680}',
    '\U{2000}', '\U{2001}', '\U{2002}', '\U{2003}', '\U{2004}', '\U{2005}',
    '\U{2006}', '\U{2007}', '\U{2008}', '\U{2009}', '\U{200A}',
    '\U{2028}', '\U{2029}', '\U{202F}', '\U{205F}', '\U{3000}' }

  predicate IsSpace(c: char)
  {
    c in Whitespace
  }

  /** How many whitespace characters `s` starts with. */
  function LeadingSpaces(s: string): (n: nat)
    ensures n <= |s|
    ensures forall k :: 0 <= k < n ==> IsSpace(s[k])
    ensures n < |s| ==> !IsSpace(s[n])
    decreases |s|
  {
    if s != [] && IsSpace(s[0]) then
      var n := 1 + LeadingSpaces(s[1..]);
      assert forall k :: 1 <= k < n ==> s[k] == s[1..][k - 1];
      n
    else 0
  }

  /** How many whitespace characters `s` ends with. */
  function TrailingSpaces(s: string): (n: nat)
    ensures n <= |s|
    ensures forall k :: |s| - n <= k < |s| ==> IsSpace(s[k])
    ensures n < |s| ==> !IsSpace(s[|s| - n - 1])
    decreases |s|
  {
    if s != [] && IsSpace(s[|s| - 1]) then
      var n := 1 + TrailingSpaces(s[..|s| - 1]);
      assert forall k :: |s| - n <= k < |s| - 1 ==> s[k] == s[..|s| - 1][k];
      n
    else 0
  }

  /** Python's `s.strip()`: `s` without its leading and trailing whitespace. */
  function Strip(s: string): (r: string)
    ensures |r| <= |s|
    ensures r != [] ==> !IsSpace(r[0]) && !IsSpace(r[|r| - 1])
  {
    var i := LeadingSpaces(s);
    var j := |s| - TrailingSpaces(s[i..]);
    assert i < j ==> s[i..][j - i - 1] == s[j - 1];
    s[i..j]
  }

  /** `Strip` keeps the middle of `s`: what it removes at either end is whitespace. */
  lemma StripMiddle(s: string)
    ensures var i := LeadingSpaces(s);
      && i + |Strip(s)| <= |s| && Strip(s) == s[i..i + |Strip(s)|]
      && (forall k :: 0 <= k < i ==> IsSpace(s[k]))
      && (forall k :: i + |Strip(s)| <= k < |s| ==> IsSpace(s[k]))
  {
    var i := LeadingSpaces(s);
    var t := s[i..];
    var n := TrailingSpaces(t);
    var r := Strip(s);
    assert r == s[i..|s| - n];
    assert |r| == |t| - n;
    forall k | i + |r| <= k < |s| ensures IsSpace(s[k]) {
      assert |t| - n <= k - i < |t|;
      assert s[k] == t[k - i];
    }
  }

  /** A string without whitespace is left as it is. */
  lemma StripUnchanged(s: string)
    requires forall k :: 0 <= k < |s| ==> !IsSpace(s[k])
    ensures Strip(s) == s
  {
    StripMiddle(s);
  }

  /** A string of whitespace only strips to nothing. */
  lemma StripAllSpace(s: string)
    requires forall k :: 0 <= k < |s| ==> IsSpace(s[k])
    ensures Strip(s) == []
  {
    StripMiddle(s);
  }

  /** The comprehension `[l.strip() for l in pieces if l != '']`: the empty test
      is made on the piece BEFORE it is stripped. */
  function ExposeFrom(pieces: seq<string>): (expose: seq<string>)
    ensures |expose| <= |pieces|
  {
    if pieces == [] then [] else Kept(pieces[0]) + ExposeFrom(pieces[1..])
  }

  /** What the comprehension keeps of one piece: nothing when it is empty,
      otherwise the piece stripped. */
  function Kept(piece: string): (kept: seq<string>)
    ensures |kept| <= 1
  {
    if piece == "" then [] else [Strip(piece)]
  }

  /** `expose_labels` (monitor.py:14), with the strip Python strings actually have.
      As written, line 14 calls `l.trim()`, which `str` does not have: see
      `ExposeLabelsAsWritten`. */
  function ExposeLabels(env: string): seq<string>
  {
    ExposeFrom(Split(env, ','))
  }

  /** The comprehension of monitor.py:14 as written: the first kept piece raises
      `AttributeError` because `str` has no `trim` method. */
  function ExposeFromAsWritten(pieces: seq<string>): Result<seq<string>>
  {
    if pieces == [] then Success([])
    else if pieces[0] == "" then ExposeFromAsWritten(pieces[1..])
    else Failure(AttributeError("trim"))
  }

  function ExposeLabelsAsWritten(env: string): Result<seq<string>>
  {
    ExposeFromAsWritten(Split(env, ','))
  }

  lemma {:induction false} ExposeFromAsWrittenFails(pieces: seq<string>)
    ensures ExposeFromAsWritten(pieces) ==
            if ExposeFrom(pieces) == [] then Success([]) else Failure(AttributeError("trim"))
  {
    if pieces != [] {
      ExposeFromAsWrittenFails(pieces[1..]);
    }
  }

  /** As written, line 14 succeeds exactly when no label is exposed; any
      non-empty piece of `EXPOSE_LABELS` raises `AttributeError`. */
  lemma TrimRaisesOnAnyLabel(env: string)
    ensures ExposeLabelsAsWritten(env).Success? <==> ExposeLabels(env) == []
    ensures ExposeLabelsAsWritten(env).Failure? ==> ExposeLabelsAsWritten(env).error == AttributeError("trim")
  {
    ExposeFromAsWrittenFails(Split(env, ','));
  }

  /** A concrete witness: exposing the label `app` crashes the program as written. */
  lemma TrimCounterexample()
    ensures ExposeLabelsAsWritten("app") == Failure(AttributeError("trim"))
    ensures ExposeLabels("app") == ["app"]
  {
    SplitNoSeparator("app", ',');
    StripAppExample();
    assert ExposeFrom(["app"]) == Kept("app") + ExposeFrom([]);
  }

  lemma {:induction false} ExposeFromAppend(a: seq<string>, b: seq<string>)
    ensures ExposeFrom(a + b) == ExposeFrom(a) + ExposeFrom(b)
    decreases |a|
  {
    if a == [] {
      assert a + b == b;
    } else {
      var ab := a + b;
      assert ab[0] == a[0] && ab[1..] == a[1..] + b;
      ExposeFromAppend(a[1..], b);
      calc {
        ExposeFrom(ab);
        Kept(a[0]) + ExposeFrom(a[1..] + b);
        Kept(a[0]) + (ExposeFrom(a[1..]) + ExposeFrom(b));
        (Kept(a[0]) + ExposeFrom(a[1..])) + ExposeFrom(b);
      }
    }
  }

  /** An unset or empty `EXPOSE_LABELS` exposes nothing, so the only base label is `name`. */
  lemma ExposeLabelsEmpty()
    ensures ExposeLabels("") == []
    ensures Labels(ExposeLabels("")) == ["name"]
  {
  }

  /** A comma-free setting exposes one label, itself stripped. */
  lemma ExposeLabelsSingle(env: string)
    requires env != "" && ',' !in env
    ensures ExposeLabels(env) == [Strip(env)]
  {
    SplitNoSeparator(env, ',');
  }

  /** The labels of `a,b` are those of `a` followed by those of `b`: order is kept,
      and empty pieces contribute nothing. */
  lemma ExposeLabelsConcat(a: string, b: string)
    ensures ExposeLabels(a + "," + b) == ExposeLabels(a) + ExposeLabels(b)
  {
    SplitAround(a, b, ',');
    ExposeFromAppend(Split(a, ','), Split(b, ','));
  }

  /** Every exposed label comes from a non-empty comma-free piece of the setting. */
  lemma {:induction false} ExposeFromPieces(pieces: seq<string>, i: nat)
    requires i < |ExposeFrom(pieces)|
    ensures exists k :: 0 <= k < |pieces| && pieces[k] != "" && ExposeFrom(pieces)[i] == Strip(pieces[k])
    decreases |pieces|
  {
    var tail := pieces[1..];
    var head := Kept(pieces[0]);
    assert ExposeFrom(pieces) == head + ExposeFrom(tail);
    if i < |head| {
      assert ExposeFrom(pieces)[i] == Strip(pieces[0]);
    } else {
      ExposeFromPieces(tail, i - |head|);
      var k :| 0 <= k < |tail| && tail[k] != "" && ExposeFrom(tail)[i - |head|] == Strip(tail[k]);
      assert pieces[k + 1] == tail[k];
      assert ExposeFrom(pieces)[i] == ExposeFrom(tail)[i - |head|];
    }
  }

  /** The number of non-empty pieces. */
  function NonEmptyCount(pieces: seq<string>): nat
  {
    if pieces == [] then 0 else (if pieces[0] == "" then 0 else 1) + NonEmptyCount(pieces[1..])
  }

  /** The converse of `ExposeFromPieces`: the comprehension keeps one label per
      non-empty piece, and the `k`-th piece, when non-empty, is kept stripped
      right after the labels of the non-empty pieces before it. */
  lemma {:induction false} ExposeFromKeepsEach(pieces: seq<string>, k: nat)
    requires k < |pieces| && pieces[k] != ""
    ensures |ExposeFrom(pieces)| == NonEmptyCount(pieces)
    ensures NonEmptyCount(pieces[..k]) < |ExposeFrom(pieces)|
    ensures ExposeFrom(pieces)[NonEmptyCount(pieces[..k])] == Strip(pieces[k])
    decreases |pieces|
  {
    var tail := pieces[1..];
    var head := Kept(pieces[0]);
    assert ExposeFrom(pieces) == head + ExposeFrom(tail);
    assert |head| == (if pieces[0] == "" then 0 else 1);
    if k == 0 {
      ExposeFromCount(tail);
      assert pieces[..0] == [];
    } else {
      ExposeFromKeepsEach(tail, k - 1);
      assert pieces[..k][1..] == tail[..k - 1];
      assert NonEmptyCount(pieces[..k]) == |head| + NonEmptyCount(tail[..k - 1]);
    }
  }

  /** The comprehension keeps exactly one label per non-empty piece. */
  lemma {:induction false} ExposeFromCount(pieces: seq<string>)
    ensures |ExposeFrom(pieces)| == NonEmptyCount(pieces)
    decreases |pieces|
  {
    if pieces != [] {
      ExposeFromCount(pieces[1..]);
    }
  }

  /** A worked example: `,app, tier,,` exposes `app` and `tier`, in that order. */
  lemma ExposeLabelsExample()
    ensures ExposeLabels(",app, tier,,") == ["app", "tier"]
  {
    SplitExample();
    ExposePiecesExample();
  }

  lemma SplitExample()
    ensures Split(",app, tier,,", ',') == ["", "app", " tier", "", ""]
  {
    var pieces := ["", "app", " tier", "", ""];
    forall i | 0 <= i < |pieces| ensures ',' !in pieces[i] {
    }
    JoinSplit(pieces, ',');
    assert Join(pieces, ',') == ",app, tier,,";
  }

  lemma ExposePiecesExample()
    ensures ExposeFrom(["", "app", " tier", "", ""]) == ["app", "tier"]
  {
    StripAppExample();
    StripTierExample();
    ExposeFromCons("", []);
    ExposeFromCons("", [""]);
    ExposeFromCons(" tier", ["", ""]);
    ExposeFromCons("app", [" tier", "", ""]);
    ExposeFromCons("", ["app", " tier", "", ""]);
  }

  /** One step of the comprehension. */
  lemma ExposeFromCons(piece: string, rest: seq<string>)
    ensures ExposeFrom([piece] + rest) == Kept(piece) + ExposeFrom(rest)
  {
    assert ([piece] + rest)[1..] == rest;
  }

  lemma StripAppExample()
    ensures Strip("app") == "app"
  {
    assert LeadingSpaces("app") == 0 by { assert !IsSpace("app"[0]); }
    assert TrailingSpaces("app") == 0 by { assert !IsSpace("app"[2]); }
    assert "app"[0..3] == "app";
  }

  lemma StripTierExample()
    ensures Strip(" tier") == "tier"
  {
    var s := " tier";
    var t := s[1..];
    assert |t| == 4 && t[0] == 't' && t[3] == 'r';
    assert !IsSpace(t[0]) && !IsSpace(t[|t| - 1]);
    assert LeadingSpaces(t) == 0;
    assert TrailingSpaces(t) == 0;
    assert IsSpace(s[0]);
    assert LeadingSpaces(s) == 1 + LeadingSpaces(t);
    assert t == "tier";
  }

  const NameLabel: string := "name"
  const LabelPrefix: string := "label_"

  /** `labels` (monitor.py:15): `name`, then `label_<l>` for each exposed label `l`. */
  function Labels(expose: seq<string>): (keys: seq<string>)
    ensures |keys| == 1 + |expose| && keys[0] == NameLabel
    ensures forall i :: 0 <= i < |expose| ==> keys[i + 1] == LabelPrefix + expose[i]
  {
    [NameLabel] + seq(|expose|, i requires 0 <= i < |expose| => LabelPrefix + expose[i])
  }

  lemma PrefixInjective(p: string, a: string, b: string)
    requires p + a == p + b
    ensures a == b
  {
    assert a == (p + a)[|p|..];
    assert b == (p + b)[|p|..];
  }

  /** The base label keys are distinct exactly when the exposed labels are. */
  lemma LabelsNoDuplicates(expose: seq<string>)
    ensures NoDuplicates(Labels(expose)) <==> NoDuplicates(expose)
  {
    var keys := Labels(expose);
    if NoDuplicates(expose) {
      forall i, j | 0 <= i < j < |keys| ensures keys[i] != keys[j] {
        if i == 0 {
          assert keys[j][..6] == LabelPrefix;
        } else if keys[i] == keys[j] {
          PrefixInjective(LabelPrefix, expose[i - 1], expose[j - 1]);
        }
      }
    }
    if NoDuplicates(keys) {
      forall i, j | 0 <= i < j < |expose| ensures expose[i] != expose[j] {
        assert keys[i + 1] != keys[j + 1];
      }
    }
  }

  /** No base label key is `network_interface`, the key of the extra label used
      for network counters, and `name` is never an exposed `label_` key. */
  lemma LabelsAvoidInterfaceKey(expose: seq<string>)
    ensures "network_interface" !in Labels(expose)
    ensures NameLabel !in Labels(expose)[1..]
  {
    var keys := Labels(expose);
    forall i | 0 <= i < |keys| ensures keys[i] != "network_interface" {
      if i == 0 {
        assert |keys[0]| == 4;
      } else {
        assert keys[i][0] == 'l';
      }
    }
    forall i | 1 <= i < |keys| ensures keys[i] != NameLabel {
      assert keys[i][..6] == LabelPrefix;
    }
  }
}
