/** Series names as the readers print them (`append_sample` in src/aggregate.rs and src/exporter.rs). */
module Series {
  import opened Bytes
  import opened SeqFacts
  import opened Labels
  import opened Ordering

  /** Sample name, label text and, if the process matters, a pid label worked into the text. */
  function SeriesText(sample: string, labels: string, pid: Option<string>): string {
    if pid.None? then sample + labels
    else sample + WithPid(labels, pid.value)
  }

  function WithPid(labels: string, pid: string): string {
    if labels != "" && labels[|labels| - 1] == '}' then
      var head := labels[..|labels| - 1];
      head + (if '{' in head then "," else "{") + Pair(Label("pid", pid)) + "}"
    else labels + "{" + Pair(Label("pid", pid)) + "}"
  }

  /** `append_sample`. */
  method AppendSample(before: string, sample: string, labels: string, pid: Option<string>) returns (out: string)
    ensures out == before + SeriesText(sample, labels, pid)
  {
    hide Escape;
    out := before + sample;
    if pid.None? {
      return out + labels;
    }
    var value := EscapeLabelValue(pid.value);
    if labels != "" && labels[|labels| - 1] == '}' {
      var head := labels[..|labels| - 1];
      out := out + head;
      if '{' in head {
        out := out + ",pid=\"";
      } else {
        out := out + "{pid=\"";
      }
      out := out + value;
      out := out + "\"}";
      return;
    }
    out := out + labels;
    out := out + "{pid=\"";
    out := out + value;
    out := out + "\"}";
  }

  // ----- reading a series name back -----

  predicate IsMetricStart(c: char) {
    IsNameStart(c) || c == ':'
  }

  predicate IsMetricChar(c: char) {
    IsNameChar(c) || c == ':'
  }

  /** `[a-zA-Z_:][a-zA-Z0-9_:]*` */
  predicate IsMetricName(s: string) {
    s != "" && IsMetricStart(s[0]) && forall c <- s :: IsMetricChar(c)
  }

  function MetricNameLength(s: string): (n: nat)
    ensures n <= |s|
  {
    if s != "" && IsMetricChar(s[0]) then 1 + MetricNameLength(s[1..]) else 0
  }

  function ParseSeries(s: string): Option<(string, seq<Label>)> {
    var n := MetricNameLength(s);
    if n == 0 || !IsMetricStart(s[0]) then None else
    var labels := ParseLabels(s[n..]);
    if labels.None? then None else Some((s[..n], labels.value))
  }

  lemma {:induction false} MetricNameEnds(name: string, rest: string)
    requires (forall c <- name :: IsMetricChar(c)) && (rest != "" ==> !IsMetricChar(rest[0]))
    ensures MetricNameLength(name + rest) == |name|
  {
    if name == "" {
      assert name + rest == rest;
    } else {
      ConsConcat(name, rest);
      MetricNameEnds(name[1..], rest);
    }
  }

  lemma SeriesOfBlock(sample: string, labels: seq<Label>)
    requires IsMetricName(sample) && ValidNames(labels)
    ensures ParseSeries(sample + Block(labels)) == Some((sample, labels))
  {
    hide Pairs, ParseLabels;
    MetricNameEnds(sample, Block(labels));
    BlockParses(labels);
    var s := sample + Block(labels);
    assert s[..|sample|] == sample && s[|sample|..] == Block(labels);
  }

  function PidLabels(pid: Option<string>): seq<Label> {
    if pid.None? then [] else [Label("pid", pid.value)]
  }

  lemma Braces(pairs: string)
    ensures var b := "{" + pairs + "}";
            b != "" && b[|b| - 1] == '}' && b[..|b| - 1] == "{" + pairs && '{' in "{" + pairs
  {
    assert ("{" + pairs)[0] == '{';
  }

  lemma PidInBraces(pairs: string, pid: string)
    ensures WithPid("{" + pairs + "}", pid) == "{" + (pairs + "," + Pair(Label("pid", pid))) + "}"
  {
    hide Pair;
    Braces(pairs);
    var p := Pair(Label("pid", pid));
    Assoc("{", pairs, ",");
    Assoc("{", pairs + ",", p);
  }

  /** Working the pid into the text of some labels gives the text of the labels with the pid behind them. */
  lemma PidInBlock(sample: string, labels: seq<Label>, pid: Option<string>)
    ensures SeriesText(sample, Block(labels), pid) == sample + Block(labels + PidLabels(pid))
  {
    hide Pair, Pairs;
    if pid.None? {
      assert labels + [] == labels;
    } else {
      hide WithPid;
      PairsSnoc(labels, Label("pid", pid.value));
      if labels == [] {
        PidAlone(pid.value);
      } else {
        PidInBraces(Pairs(labels), pid.value);
      }
    }
  }

  lemma PidAlone(pid: string)
    ensures WithPid("", pid) == "{" + Pair(Label("pid", pid)) + "}"
  {
    hide Pair;
    assert "" + "{" == "{";
  }

  lemma PidName()
    ensures IsLabelName("pid")
  {
  }

  /** For every output of `encode_labels` and every pid the series reads back as the sample name with
      the original labels, then the pid. */
  lemma SeriesReadsBack(sample: string, labels: seq<Label>, pid: Option<string>)
    requires IsMetricName(sample) && ValidNames(labels)
    ensures ParseSeries(SeriesText(sample, Encoded(labels), pid)) == Some((sample, Sorted(labels) + PidLabels(pid)))
  {
    hide Block, ParseSeries, IsLabelName, IsMetricName;
    SortedMembers(labels);
    PidName();
    PidInBlock(sample, Sorted(labels), pid);
    SeriesOfBlock(sample, Sorted(labels) + PidLabels(pid));
  }

  /** Two keys print the same series exactly if they agree in the sample and in the labels as printed,
      the pid behind the sorted labels. */
  lemma SameSeries(s: string, a: seq<Label>, p: Option<string>, t: string, b: seq<Label>, q: Option<string>)
    requires IsMetricName(s) && IsMetricName(t) && ValidNames(a) && ValidNames(b)
    ensures SeriesText(s, Encoded(a), p) == SeriesText(t, Encoded(b), q) <==>
              s == t && Sorted(a) + PidLabels(p) == Sorted(b) + PidLabels(q)
  {
    hide SeriesText, ParseSeries, Sorted, Block, IsMetricName, ValidNames;
    SeriesReadsBack(s, a, p);
    SeriesReadsBack(t, b, q);
    PidInBlock(s, Sorted(a), p);
    PidInBlock(t, Sorted(b), q);
  }

  /** The labels end, as printed, in one called "pid". */
  predicate EndsInPid(labels: seq<Label>) {
    labels != [] && labels[|labels| - 1].name == "pid"
  }

  /** A key that cannot be mistaken: it has a pid, or its sorted labels do not end in one called "pid". */
  predicate Unmistakable(labels: seq<Label>, pid: Option<string>) {
    pid.Some? || !EndsInPid(Sorted(labels))
  }

  /** Different unmistakable keys never print the same series. */
  lemma SeriesDistinct(s: string, a: seq<Label>, p: Option<string>, t: string, b: seq<Label>, q: Option<string>)
    requires IsMetricName(s) && IsMetricName(t) && ValidNames(a) && ValidNames(b)
    requires Unmistakable(a, p) && Unmistakable(b, q)
    ensures SeriesText(s, Encoded(a), p) == SeriesText(t, Encoded(b), q) <==>
              s == t && Encoded(a) == Encoded(b) && p == q
  {
    hide SeriesText, Sorted, Block, IsMetricName, ValidNames;
    SameSeries(s, a, p, t, b, q);
    if SeriesText(s, Encoded(a), p) == SeriesText(t, Encoded(b), q) {
      PidLast(Sorted(a), p);
      PidLast(Sorted(b), q);
      assert Sorted(a) == (Sorted(a) + PidLabels(p))[..|Sorted(a)|];
      assert Sorted(b) == (Sorted(b) + PidLabels(q))[..|Sorted(b)|];
    }
  }

  lemma PidLast(a: seq<Label>, p: Option<string>)
    requires p.Some? || !EndsInPid(a)
    ensures var x := a + PidLabels(p);
            && (p.Some? <==> EndsInPid(x))
            && (p.Some? ==> x[|x| - 1].value == p.value && |x| == |a| + 1)
            && (p.None? ==> |x| == |a|)
  {
  }

  /** The condition is exact: a key without a pid shares its series with some key with a pid if and only
      if it can be mistaken. */
  lemma MistakableIff(sample: string, labels: seq<Label>)
    requires IsMetricName(sample) && ValidNames(labels)
    ensures !Unmistakable(labels, None) <==>
              exists other: seq<Label>, pid: string ::
                ValidNames(other) && SeriesText(sample, Encoded(labels), None) == SeriesText(sample, Encoded(other), Some(pid))
  {
    hide SeriesText, Encoded, IsMetricName, ValidNames;
    if !Unmistakable(labels, None) {
      var other, pid := Partner(sample, labels);
    } else {
      forall other: seq<Label>, pid: string | ValidNames(other)
        ensures SeriesText(sample, Encoded(labels), None) != SeriesText(sample, Encoded(other), Some(pid))
      {
        SeriesDistinct(sample, labels, None, sample, other, Some(pid));
      }
    }
  }

  lemma Partner(sample: string, labels: seq<Label>) returns (other: seq<Label>, pid: string)
    requires IsMetricName(sample) && ValidNames(labels) && EndsInPid(Sorted(labels))
    ensures ValidNames(other) && SeriesText(sample, Encoded(labels), None) == SeriesText(sample, Encoded(other), Some(pid))
  {
    hide SeriesText, Encoded, IsMetricName, IsLabelName, NameLe, Insert;
    var sorted := Sorted(labels);
    var n := |sorted| - 1;
    other, pid := sorted[..n], sorted[n].value;
    SortedMembers(labels);
    assert ValidNames(other);
    NameOrder();
    SortSorted(NameLe, labels);
    SortFixed(NameLe, other);
    assert sorted == other + [Label("pid", pid)];
    assert sorted + PidLabels(None) == sorted;
    SameSeries(sample, labels, None, sample, other, Some(pid));
  }

  /** For instance the one label pid="7" without a pid, and no label with pid 7. */
  lemma PidLabelCollides(sample: string, pid: string)
    ensures SeriesText(sample, Encoded([Label("pid", pid)]), None) == SeriesText(sample, Encoded([]), Some(pid))
  {
    var l := [Label("pid", pid)];
    assert l[1..] == [];
    assert Sorted(l) == l && Sorted([]) == [];
    PidInBlock(sample, [], Some(pid));
    assert [] + PidLabels(Some(pid)) == l;
  }

  // ----- label text that callers wrote themselves -----

  lemma {:induction false} ValueIsLocal(s: string, other: string)
    requires ParseValue(s).Some?
    ensures var (v, rest) := ParseValue(s).value;
            && 0 < |s| - |rest|
            && s[|s| - |rest|..] == rest && s[|s| - |rest| - 1] == '"'
            && ParseValue(s[..|s| - |rest|] + other) == Some((v, other))
  {
    var (v, rest) := ParseValue(s).value;
    if s[0] == '"' {
      assert (s[..1] + other)[1..] == other;
    } else {
      var k := if s[0] == '\\' then 2 else 1;
      ValueIsLocal(s[k..], other);
      var n := |s| - |rest|;
      assert s[k..][..n - k] == s[..n][k..];
      assert (s[..n] + other)[k..] == s[k..][..n - k] + other;
    }
  }

  lemma {:induction false} NameIsLocal(s: string, n: nat, other: string)
    requires NameLength(s) < n <= |s|
    ensures NameLength(s[..n] + other) == NameLength(s)
  {
    if s != "" && IsNameChar(s[0]) {
      NameIsLocal(s[1..], n - 1, other);
      assert (s[..n] + other)[1..] == s[1..][..n - 1] + other;
    }
  }

  /** What a pair reads as does not depend on what follows it. */
  lemma PairIsLocal(s: string, other: string)
    requires ParsePair(s).Some?
    ensures var (l, rest) := ParsePair(s).value;
            && 0 < |s| - |rest|
            && s[|s| - |rest|..] == rest && s[|s| - |rest| - 1] == '"'
            && ParsePair(s[..|s| - |rest|] + other) == Some((l, other))
  {
    hide ParseValue, NameLength;
    var (l, rest) := ParsePair(s).value;
    var k, n := NameLength(s), |s| - |rest|;
    ValueIsLocal(s[k + 2..], other);
    NameIsLocal(s, n, other);
    var t := s[..n] + other;
    assert t[k..][..2] == s[k..][..2] == "=\"";
    assert t[k + 2..] == s[k + 2..][..n - k - 2] + other;
    assert t[..k] == s[..k];
  }

  /** The text of a block ends in a comma and a brace. */
  predicate TrailingComma(s: string) {
    |s| >= 2 && s[|s| - 2] == ',' && s[|s| - 1] == '}'
  }

  /** More pairs put in front of the closing brace. */
  function Reopened(s: string, more: string): string
    requires s != ""
  {
    s[..|s| - 1] + "," + more + "}"
  }

  lemma {:induction false} PidAppended(s: string, p: Label)
    requires IsLabelName(p.name) && ParsePairs(s).Some? && ParsePairs(s).value.1 == ""
    ensures s != ""
    ensures ParsePairs(Reopened(s, Pair(p))) == if TrailingComma(s) then None else Some((ParsePairs(s).value.0 + [p], ""))
    decreases |s|
  {
    hide ParsePair, Pair, IsLabelName;
    var (l, rest) := ParsePair(s).value;
    var used := s[..|s| - |rest|];
    PairIsLocal(s, "");
    if rest == "}" {
      LastPair(s, l, p);
    } else if rest == ",}" {
      CommaPair(s, l, p);
    } else {
      PidAppended(rest[1..], p);
      assert rest == "," + rest[1..];
      MorePairs(s, l, rest[1..], p);
    }
  }

  lemma OnePair(p: Label)
    requires IsLabelName(p.name)
    ensures ParsePairs(Pair(p) + "}") == Some(([p], "")) && Pair(p) != "" && Pair(p)[0] != '}' && Pair(p)[0] != ','
  {
    PairParses(p, "}");
    assert "}" + "" == "}";
    PairsEnd(Pair(p) + "}", p, "");
  }

  lemma LastPair(s: string, l: Label, p: Label)
    requires IsLabelName(p.name) && ParsePair(s) == Some((l, "}"))
    ensures s != "" && !TrailingComma(s) && ParsePairs(Reopened(s, Pair(p))) == Some(([l] + [p], ""))
  {
    hide ParsePair, ParsePairs, Pair, IsLabelName;
    PairIsLocal(s, "," + (Pair(p) + "}"));
    OnePair(p);
    var used := s[..|s| - 1];
    assert Reopened(s, Pair(p)) == used + ("," + (Pair(p) + "}"));
    PairsStep(Reopened(s, Pair(p)), l, Pair(p) + "}", [p], "");
  }

  lemma CommaPair(s: string, l: Label, p: Label)
    requires IsLabelName(p.name) && ParsePair(s) == Some((l, ",}"))
    ensures s != "" && TrailingComma(s) && ParsePairs(Reopened(s, Pair(p))) == None
  {
    hide ParsePair, Pair, IsLabelName;
    var tail := "," + Pair(p) + "}";
    PairIsLocal(s, "," + tail);
    var used := s[..|s| - 2];
    assert s == used + ",}";
    assert s[..|s| - 1] == used + ",";
    assert Reopened(s, Pair(p)) == used + ("," + tail);
    assert ("," + tail)[1..] == tail;
    NoPairAtComma(tail);
  }

  lemma NoPairAtComma(s: string)
    requires s != "" && s[0] == ','
    ensures ParsePair(s) == None && ParsePairs(s) == None
  {
  }

  lemma MorePairs(s: string, l: Label, tail: string, p: Label)
    requires ParsePair(s) == Some((l, "," + tail)) && tail != "" && tail[0] != '}'
    requires ParsePairs(tail).Some? && ParsePairs(tail).value.1 == ""
    requires var more := ParsePairs(Reopened(tail, Pair(p)));
             more == if TrailingComma(tail) then None else Some((ParsePairs(tail).value.0 + [p], ""))
    ensures s != "" && ParsePairs(s) == Some(([l] + ParsePairs(tail).value.0, ""))
    ensures ParsePairs(Reopened(s, Pair(p))) == if TrailingComma(s) then None else Some((ParsePairs(s).value.0 + [p], ""))
  {
    hide ParsePair, ParsePairs, Pair, IsLabelName, Reopened;
    var next := Reopened(tail, Pair(p));
    PairIsLocal(s, "," + next);
    if |tail| == 1 {
      NoPairsInOne(tail);
    }
    var used := s[..|s| - 1 - |tail|];
    assert s == used + ("," + tail);
    ReopenedBehind(used, tail, Pair(p));
    PairsStep(s, l, tail, ParsePairs(tail).value.0, "");
    if TrailingComma(tail) {
      NoPairsBehind(Reopened(s, Pair(p)), l, next);
    } else {
      PairsStep(Reopened(s, Pair(p)), l, next, ParsePairs(tail).value.0 + [p], "");
      Assoc([l], ParsePairs(tail).value.0, [p]);
    }
  }

  lemma ReopenedBehind(used: string, tail: string, more: string)
    requires |tail| > 1
    ensures Reopened(used + ("," + tail), more) == used + ("," + Reopened(tail, more))
    ensures Reopened(tail, more) != "" && Reopened(tail, more)[0] == tail[0]
    ensures TrailingComma(used + ("," + tail)) <==> TrailingComma(tail)
  {
    var s := used + ("," + tail);
    assert s[..|s| - 1] == used + ("," + tail[..|tail| - 1]);
  }

  lemma NoPairsBehind(s: string, l: Label, tail: string)
    requires ParsePair(s) == Some((l, "," + tail)) && tail != "" && tail[0] != '}' && ParsePairs(tail) == None
    ensures ParsePairs(s) == None
  {
    hide ParsePair;
    assert ("," + tail)[1..] == tail;
  }

  lemma NoPairsInOne(s: string)
    requires |s| == 1
    ensures ParsePairs(s) == None
  {
    assert ParsePair(s) == None;
  }

  /** A pid worked into any readable label text reads back as the labels with the pid behind them,
      if and only if the text has no comma in front of its closing brace. */
  lemma PidInAnyText(labels: string, pid: string)
    requires ParseLabels(labels).Some?
    ensures ParseLabels(WithPid(labels, pid)) == Some(ParseLabels(labels).value + [Label("pid", pid)]) <==> !TrailingComma(labels)
    ensures TrailingComma(labels) ==> ParseLabels(WithPid(labels, pid)) == None
  {
    hide ParsePairs, Pair, IsLabelName;
    var p := Label("pid", pid);
    PidName();
    if labels == "" {
      OnePair(p);
      assert ("{" + Pair(p) + "}")[1..] == Pair(p) + "}";
      assert "" + "{" + Pair(p) + "}" == "{" + Pair(p) + "}";
      assert [] + [p] == [p];
    } else {
      var s := labels[1..];
      PidAppended(s, p);
      ClosingBrace(s);
      assert labels[..|labels| - 1][0] == '{';
      assert WithPid(labels, pid)[1..] == Reopened(s, Pair(p));
      NoPairsInOneChar(s);
    }
  }

  /** For every label there is a readable text with a comma in front of its brace, such as `{a="b",}`,
      into which no pid can be worked. */
  lemma TrailingCommaHere(l: Label, pid: string)
    requires IsLabelName(l.name)
    ensures var labels := "{" + Pair(l) + ",}";
            && ParseLabels(labels) == Some([l])
            && TrailingComma(labels) && ParseLabels(WithPid(labels, pid)) == None
  {
    hide WithPid, Pair, ParsePair, IsLabelName, ParseValue;
    var s, labels := Pair(l) + ",}", "{" + Pair(l) + ",}";
    PairParses(l, ",}");
    assert ",}"[2..] == "";
    assert labels[1..] == s;
    PidInAnyText(labels, pid);
  }

  lemma NoPairsInOneChar(s: string)
    requires ParsePairs(s).Some?
    ensures |s| > 1
  {
    if |s| == 1 {
      NoPairsInOne(s);
    }
  }

  lemma {:induction false} ClosingBrace(s: string)
    requires ParsePairs(s).Some? && ParsePairs(s).value.1 == ""
    ensures s != "" && s[|s| - 1] == '}'
    decreases |s|
  {
    hide ParsePair;
    PairIsLocal(s, "");
    var (l, rest) := ParsePair(s).value;
    if rest != "}" && rest != ",}" {
      ClosingBrace(rest[1..]);
    }
  }
}
