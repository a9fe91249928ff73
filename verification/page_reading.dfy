/** Reading a printed page back, by the grammar of the Prometheus text exposition format 0.0.4 ("Text
    format details"): line by line, each a comment or a sample. */
module PageReading {
  import opened Bytes
  import opened SeqFacts
  import opened FileName
  import opened Merge
  import opened Labels
  import opened Series
  import opened Rendering

  /** What a line says; the value of a sample is left as text. */
  datatype Reading =
    | HelpOn(family: string)
    | TypeOf(family: string, name: string)
    | Measured(sample: string, labels: seq<Label>, value: string)

  /** Where `c` stands last, or the length if it does not. */
  function LastPlace(s: string, c: char): (i: nat)
    ensures i <= |s|
  {
    if s == "" then 0
    else if s[|s| - 1] == c then |s| - 1
    else
      var i := LastPlace(s[..|s| - 1], c);
      if i == |s| - 1 then |s| else i
  }

  function ReadComment(rest: string): Option<(string, string)> {
    var n := MetricNameLength(rest);
    if n == 0 || n == |rest| || rest[n] != ' ' then None else Some((rest[..n], rest[n + 1..]))
  }

  function ReadLine(line: string): Option<Reading> {
    if "# HELP " <= line then
      var c := ReadComment(line[7..]);
      if c.None? then None else Some(HelpOn(c.value.0))
    else if "# TYPE " <= line then
      var c := ReadComment(line[7..]);
      if c.None? then None else Some(TypeOf(c.value.0, c.value.1))
    else
      var n := LastPlace(line, ' ');
      if n == |line| then None else
      var series := ParseSeries(line[..n]);
      if series.None? then None else Some(Measured(series.value.0, series.value.1, line[n + 1..]))
  }

  function ReadLines(lines: seq<string>): Option<seq<Reading>> {
    if lines == [] then Some([]) else
    var first, rest := ReadLine(lines[0]), ReadLines(lines[1..]);
    if first.None? || rest.None? then None else Some([first.value] + rest.value)
  }

  /** Every line of a page ends in a newline. */
  function ReadPage(text: string): Option<seq<Reading>> {
    var lines := Split(text, '\n');
    if lines[|lines| - 1] != "" then None else ReadLines(lines[..|lines| - 1])
  }

  // ----- what a page should say -----

  /** Names and labels as the format has them, which is what the registry lets through. */
  ghost predicate WellNamed(r: Row) {
    && IsMetricName(Family(r)) && IsMetricName(r.key.metric.sample)
    && exists labels: seq<Label> :: ValidNames(labels) && r.key.metric.labels == Encoded(labels)
  }

  /** A number is printed without white space. */
  predicate ShowsNumber(show: real -> string, v: real) {
    '\n' !in show(v) && ' ' !in show(v)
  }

  function LabelsOf(r: Row): seq<Label> {
    var labels := ParseLabels(r.key.metric.labels);
    (if labels.Some? then labels.value else []) + PidLabels(r.key.pid)
  }

  function Said(l: Line, show: real -> string): Reading {
    match l
    case Help(family) => HelpOn(family)
    case Type(family, t) =>
      TypeOf(family, if t == Counter then "counter" else if t == Gauge then "gauge" else if t == Histogram then "histogram" else "summary")
    case SampleLine(r) => Measured(r.key.metric.sample, LabelsOf(r), show(r.meta.value))
  }

  function AllSaid(lines: seq<Line>, show: real -> string): (r: seq<Reading>)
    ensures |r| == |lines|
  {
    seq(|lines|, i requires 0 <= i < |lines| => Said(lines[i], show))
  }

  ghost predicate ProperLine(l: Line, show: real -> string) {
    if l.SampleLine? then WellNamed(l.row) && ShowsNumber(show, l.row.meta.value) else IsMetricName(l.family)
  }

  // ----- one line -----

  lemma {:induction false} LastPlaceIs(a: string, c: char, b: string)
    requires c !in b
    ensures LastPlace(a + [c] + b, c) == |a|
  {
    var s := a + [c] + b;
    if b != "" {
      assert s[..|s| - 1] == a + [c] + b[..|b| - 1];
      assert b[|b| - 1] in b;
      LastPlaceIs(a, c, b[..|b| - 1]);
    }
  }

  lemma NameHasNo(name: string, c: char)
    requires IsMetricName(name) && !IsMetricChar(c)
    ensures c !in name
  {
  }

  lemma {:induction false} EscapedHasNoNewline(value: string)
    ensures '\n' !in Escape(value)
  {
    if value != "" {
      EscapedHasNoNewline(value[1..]);
    }
  }

  lemma PairHasNoNewline(l: Label)
    requires IsLabelName(l.name)
    ensures '\n' !in Pair(l)
  {
    EscapedHasNoNewline(l.value);
  }

  lemma {:induction false} PairsHaveNoNewline(labels: seq<Label>)
    requires ValidNames(labels)
    ensures '\n' !in Pairs(labels)
  {
    hide Pair, IsLabelName;
    if labels != [] {
      PairHasNoNewline(labels[0]);
      PairsHaveNoNewline(labels[1..]);
    }
  }

  lemma CommentReads(family: string, more: string)
    requires IsMetricName(family)
    ensures ReadComment(family + " " + more) == Some((family, more))
  {
    MetricNameEnds(family, " " + more);
    Assoc(family, " ", more);
  }

  lemma HelpReads(family: string)
    requires IsMetricName(family)
    ensures var line := "# HELP " + family + " Multiprocess metric";
            ReadLine(line) == Some(HelpOn(family)) && '\n' !in line
  {
    hide MetricNameLength, ReadComment;
    var line := "# HELP " + family + " Multiprocess metric";
    NameHasNo(family, '\n');
    CommentReads(family, "Multiprocess metric");
    assert " " + "Multiprocess metric" == " Multiprocess metric";
    Assoc(family, " ", "Multiprocess metric");
    Assoc("# HELP ", family, " Multiprocess metric");
    assert line[..7] == "# HELP " && line[7..] == family + " Multiprocess metric";
  }

  lemma TypeReads(family: string, t: string)
    requires IsMetricName(family) && '\n' !in t
    ensures var line := "# TYPE " + family + " " + t;
            ReadLine(line) == Some(TypeOf(family, t)) && '\n' !in line
  {
    hide MetricNameLength, ReadComment;
    var line := "# TYPE " + family + " " + t;
    NameHasNo(family, '\n');
    CommentReads(family, t);
    assert line == "# TYPE " + (family + " " + t);
    assert line[..7] == "# TYPE " && line[7..] == family + " " + t;
    assert line[2] == 'T' && "# HELP "[2] == 'H';
  }

  lemma SampleReads(r: Row, show: real -> string)
    requires WellNamed(r) && ShowsNumber(show, r.meta.value)
    ensures var line := SeriesText(r.key.metric.sample, r.key.metric.labels, r.key.pid) + " " + show(r.meta.value);
            ReadLine(line) == Some(Said(SampleLine(r), show)) && '\n' !in line
  {
    hide SeriesText, ParseSeries, ParseLabels, Encoded, IsMetricName;
    var sample, pid, value := r.key.metric.sample, r.key.pid, show(r.meta.value);
    var labels :| ValidNames(labels) && r.key.metric.labels == Encoded(labels);
    var series := SeriesText(sample, r.key.metric.labels, pid);
    var line := series + " " + value;
    SeriesReadsBack(sample, labels, pid);
    EncodedParses(labels);
    SeriesShape(sample, labels, pid);
    LastPlaceIs(series, ' ', value);
    assert line[..|series|] == series && line[|series| + 1..] == value;
  }

  /** A series is one line and does not begin like a comment. */
  lemma SeriesShape(sample: string, labels: seq<Label>, pid: Option<string>)
    requires IsMetricName(sample) && ValidNames(labels)
    ensures var s := SeriesText(sample, Encoded(labels), pid); '\n' !in s && s != "" && s[0] != '#'
  {
    hide SeriesText, Sorted, IsLabelName, Pair, Pairs;
    PidInBlock(sample, Sorted(labels), pid);
    SortedMembers(labels);
    PidName();
    PairsHaveNoNewline(Sorted(labels) + PidLabels(pid));
    NameHasNo(sample, '\n');
  }

  /** A line's text, without its newline, reads as what it should say. */
  lemma LineReads(l: Line, show: real -> string) returns (body: string)
    requires ProperLine(l, show)
    ensures LineText(l, show) == body + "\n" && '\n' !in body && ReadLine(body) == Some(Said(l, show))
  {
    hide SeriesText, WellNamed, IsMetricName, ReadLine;
    match l
    case Help(family) =>
      body := "# HELP " + family + " Multiprocess metric";
      EndOfLine("# HELP " + family, " Multiprocess metric");
      HelpReads(family);
    case Type(family, t) =>
      body := "# TYPE " + family + " " + TypeName(t);
      TypeReads(family, TypeName(t));
    case SampleLine(r) =>
      body := SeriesText(r.key.metric.sample, r.key.metric.labels, r.key.pid) + " " + show(r.meta.value);
      SampleReads(r, show);
  }

  // ----- whole pages -----

  lemma {:induction false} LinesRead(lines: seq<Line>, show: real -> string)
    requires forall l <- lines :: ProperLine(l, show)
    ensures ReadPage(Text(lines, show)) == Some(AllSaid(lines, show))
  {
    hide ProperLine, LineText, ReadLine, Said;
    if lines == [] {
      assert Split("", '\n') == [""];
    } else {
      hide Text, Split;
      var l, rest := lines[0], lines[1..];
      var body := LineReads(l, show);
      LinesRead(rest, show);
      HeadTail(lines);
      TextConcat([l], rest, show);
      OneLine(l, show);
      var tail := Text(rest, show);
      assert (body + "\n") + tail == body + "\n" + tail;
      SplitAtSep(body, '\n', tail);
      var parts := Split(tail, '\n');
      FirstLineRead(body, parts);
      assert AllSaid(lines, show) == [Said(l, show)] + AllSaid(rest, show);
    }
  }

  lemma OneLine(l: Line, show: real -> string)
    ensures Text([l], show) == LineText(l, show)
  {
    hide LineText;
    assert [l][..0] == [];
  }

  lemma FirstLineRead(body: string, parts: seq<string>)
    requires parts != []
    ensures var all := [body] + parts;
            && all[|all| - 1] == parts[|parts| - 1]
            && all[..|all| - 1] == [body] + parts[..|parts| - 1]
            && ReadLines([body] + parts[..|parts| - 1])
               == var first, rest := ReadLine(body), ReadLines(parts[..|parts| - 1]);
                  if first.None? || rest.None? then None else Some([first.value] + rest.value)
  {
    hide ReadLine;
    var some := parts[..|parts| - 1];
    assert ([body] + some)[1..] == some;
  }

  lemma {:induction false} LinesProper(rows: seq<Row>, show: real -> string)
    requires forall r <- rows :: WellNamed(r) && ShowsNumber(show, r.meta.value)
    ensures forall l <- Lines(rows) :: ProperLine(l, show)
  {
    hide IsMetricName, ShowsNumber;
    if rows != [] {
      var n := |rows| - 1;
      assert rows == rows[..n] + [rows[n]];
      LinesProper(rows[..n], show);
    }
  }

  /** The page of a merged map whose names and labels are proper reads back as its rows: a HELP and a TYPE
      line where a family begins, and every sample with its labels, its pid and its value. */
  lemma PageReadsBack(rows: seq<Row>, show: real -> string)
    requires forall r <- rows :: WellNamed(r) && ShowsNumber(show, r.meta.value)
    ensures ReadPage(Text(Lines(rows), show)) == Some(AllSaid(Lines(rows), show))
  {
    hide WellNamed, ShowsNumber, ProperLine;
    LinesProper(rows, show);
    LinesRead(Lines(rows), show);
  }
}
