/** Printing the merged map (`render` in src/aggregate.rs and src/exporter.rs). */
module Rendering {
  import opened Bytes
  import opened SeqFacts
  import opened Merge
  import opened Ordering
  import opened Series

  // ----- the order of keys -----

  function ComparePids(a: Option<string>, b: Option<string>): Cmp {
    if a.None? then (if b.None? then Equal else Less)
    else if b.None? then Greater
    else CompareStrings(a.value, b.value)
  }

  /** `compare_keys`. */
  function CompareKeys(a: EntryKey, b: EntryKey): Cmp {
    match CompareStrings(a.metric.family, b.metric.family)
    case Equal => (
      match CompareStrings(a.metric.sample, b.metric.sample)
      case Equal => (
        match CompareStrings(a.metric.labels, b.metric.labels)
        case Equal => ComparePids(a.pid, b.pid)
        case c => c
      )
      case c => c
    )
    case c => c
  }

  /** The order identifies keys: equal means the same family, sample, labels and pid. */
  lemma KeysEqual(a: EntryKey, b: EntryKey)
    ensures CompareKeys(a, b) == Equal <==> a == b
  {
    CompareEqual(a.metric.family, b.metric.family);
    CompareEqual(a.metric.sample, b.metric.sample);
    CompareEqual(a.metric.labels, b.metric.labels);
    if a.pid.Some? && b.pid.Some? {
      CompareEqual(a.pid.value, b.pid.value);
    }
  }

  lemma FlipStrings(a: string, b: string)
    ensures CompareStrings(a, b) == Less <==> CompareStrings(b, a) == Greater
    ensures CompareStrings(a, b) == Greater <==> CompareStrings(b, a) == Less
  {
    CompareFlips(a, b);
    CompareFlips(b, a);
  }

  lemma KeysFlip(a: EntryKey, b: EntryKey)
    ensures CompareKeys(a, b) == Less <==> CompareKeys(b, a) == Greater
  {
    FlipStrings(a.metric.family, b.metric.family);
    FlipStrings(a.metric.sample, b.metric.sample);
    FlipStrings(a.metric.labels, b.metric.labels);
    if a.pid.Some? && b.pid.Some? {
      FlipStrings(a.pid.value, b.pid.value);
    }
  }

  /** Comparing three strings: not greater twice is not greater, and equal only if equal twice. */
  predicate Chain(a: string, b: string, c: string) {
    var ab, bc, ac := CompareStrings(a, b), CompareStrings(b, c), CompareStrings(a, c);
    ab != Greater && bc != Greater ==> ac != Greater && (ac == Equal <==> ab == Equal && bc == Equal)
  }

  lemma ChainHolds(a: string, b: string, c: string)
    ensures Chain(a, b, c)
  {
    if CompareStrings(a, b) != Greater && CompareStrings(b, c) != Greater {
      CompareTransitive(a, b, c);
      CompareEqual(a, b);
      CompareEqual(b, c);
      CompareEqual(a, c);
    }
  }

  lemma KeysTransitive(a: EntryKey, b: EntryKey, c: EntryKey)
    requires CompareKeys(a, b) != Greater && CompareKeys(b, c) != Greater
    ensures CompareKeys(a, c) != Greater
  {
    hide CompareStrings;
    ChainHolds(a.metric.family, b.metric.family, c.metric.family);
    ChainHolds(a.metric.sample, b.metric.sample, c.metric.sample);
    ChainHolds(a.metric.labels, b.metric.labels, c.metric.labels);
    if a.pid.Some? && b.pid.Some? && c.pid.Some? {
      ChainHolds(a.pid.value, b.pid.value, c.pid.value);
    }
  }

  predicate PidBefore(a: Option<string>, b: Option<string>) {
    b.Some? && (a.None? || Before(a.value, b.value))
  }

  /** Dictionary order by family, then sample, then labels, then pid, a key without a pid first. */
  predicate KeyBefore(a: EntryKey, b: EntryKey) {
    || Before(a.metric.family, b.metric.family)
    || (a.metric.family == b.metric.family
        && (|| Before(a.metric.sample, b.metric.sample)
            || (a.metric.sample == b.metric.sample
                && (|| Before(a.metric.labels, b.metric.labels)
                    || (a.metric.labels == b.metric.labels && PidBefore(a.pid, b.pid))))))
  }

  lemma KeysOrdered(a: EntryKey, b: EntryKey)
    ensures CompareKeys(a, b) == Less <==> KeyBefore(a, b)
  {
    hide Before, CompareStrings;
    CompareMeaning(a.metric.family, b.metric.family);
    CompareMeaning(a.metric.sample, b.metric.sample);
    CompareMeaning(a.metric.labels, b.metric.labels);
    if a.pid.Some? && b.pid.Some? {
      CompareMeaning(a.pid.value, b.pid.value);
    }
  }

  datatype Row = Row(key: EntryKey, meta: EntryMeta)

  predicate RowLe(a: Row, b: Row) {
    CompareKeys(a.key, b.key) != Greater
  }

  lemma RowOrder()
    ensures TotalOn(RowLe)
  {
    hide CompareKeys;
    forall a: Row, b: Row
      ensures RowLe(a, b) || RowLe(b, a)
    {
      KeysFlip(a.key, b.key);
    }
    forall a: Row, b: Row, c: Row | RowLe(a, b) && RowLe(b, c)
      ensures RowLe(a, c)
    {
      KeysTransitive(a.key, b.key, c.key);
    }
  }

  // ----- lines -----

  datatype Line = Help(family: string) | Type(family: string, metricType: MetricType) | SampleLine(row: Row)

  function Family(r: Row): string {
    r.key.metric.family
  }

  function Header(r: Row): seq<Line> {
    [Help(Family(r)), Type(Family(r), r.meta.metricType)]
  }

  /** A header is printed where the family changes. */
  function Lines(rows: seq<Row>): seq<Line> {
    if rows == [] then [] else
    var n := |rows| - 1;
    Lines(rows[..n])
    + (if n > 0 && Family(rows[n - 1]) == Family(rows[n]) then [] else Header(rows[n]))
    + [SampleLine(rows[n])]
  }

  function TypeName(t: MetricType): string {
    match t
    case Counter => "counter"
    case Gauge => "gauge"
    case Histogram => "histogram"
    case Summary => "summary"
  }

  function LineText(l: Line, show: real -> string): string {
    match l
    case Help(family) => "# HELP " + family + " Multiprocess metric\n"
    case Type(family, t) => "# TYPE " + family + " " + TypeName(t) + "\n"
    case SampleLine(row) => SeriesText(row.key.metric.sample, row.key.metric.labels, row.key.pid) + " " + show(row.meta.value) + "\n"
  }

  function Text(lines: seq<Line>, show: real -> string): string {
    if lines == [] then "" else Text(lines[..|lines| - 1], show) + LineText(lines[|lines| - 1], show)
  }

  lemma {:induction false} TextConcat(a: seq<Line>, b: seq<Line>, show: real -> string)
    ensures Text(a + b, show) == Text(a, show) + Text(b, show)
  {
    hide LineText;
    if b == [] {
      assert a + b == a;
    } else {
      var n := |b| - 1;
      TextConcat(a, b[..n], show);
      Assoc(a, b[..n], [b[n]]);
      assert b == b[..n] + [b[n]];
      assert (a + b)[..|a| + n] == a + b[..n];
      Assoc(Text(a, show), Text(b[..n], show), LineText(b[n], show));
    }
  }

  /** `rows` lists the merged map, in any order. */
  ghost predicate Enumerates(rows: seq<Row>, merged: Merged) {
    NoDuplicates(rows) && forall r :: r in rows <==> r.key in merged && merged[r.key] == r.meta
  }

  lemma EnumerationsSortAlike(a: seq<Row>, b: seq<Row>, merged: Merged)
    requires Enumerates(a, merged) && Enumerates(b, merged)
    ensures Sort(RowLe, a) == Sort(RowLe, b)
  {
    hide CompareKeys, NoDuplicates;
    SameMembersSameMultiset(a, b);
    RowOrder();
    forall x, y | x in a && y in a && RowLe(x, y) && RowLe(y, x)
      ensures x == y
    {
      KeysFlip(x.key, y.key);
      KeysFlip(y.key, x.key);
      KeysEqual(x.key, y.key);
    }
    SortCanonical(RowLe, a, b);
  }

  /** The map's entries in whatever order it yields them. */
  method Collect(merged: Merged) returns (rows: seq<Row>)
    ensures Enumerates(rows, merged)
  {
    rows := [];
    var todo := merged.Keys;
    while todo != {}
      invariant todo <= merged.Keys && NoDuplicates(rows)
      invariant forall r :: r in rows <==> r.key in merged.Keys - todo && merged[r.key] == r.meta
      decreases |todo|
    {
      var k :| k in todo;
      todo := todo - {k};
      rows := rows + [Row(k, merged[k])];
    }
  }

  lemma HeaderText(r: Row, show: real -> string)
    ensures Text(Header(r), show) == LineText(Header(r)[0], show) + LineText(Header(r)[1], show)
  {
    hide LineText;
    var h := Header(r);
    assert h[..1] == [h[0]] && h[..1][..0] == [];
    assert Text(h[..1], show) == "" + LineText(h[0], show) == LineText(h[0], show);
  }

  /** One more row in the text. */
  lemma RowText(rows: seq<Row>, n: nat, show: real -> string)
    requires n < |rows|
    ensures Text(Lines(rows[..n + 1]), show)
         == Text(Lines(rows[..n]), show)
          + (if n > 0 && Family(rows[n - 1]) == Family(rows[n]) then "" else
             LineText(Help(Family(rows[n])), show) + LineText(Type(Family(rows[n]), rows[n].meta.metricType), show))
          + LineText(SampleLine(rows[n]), show)
  {
    hide LineText;
    Snoc(rows, n);
    var front, header := Lines(rows[..n]), if n > 0 && Family(rows[n - 1]) == Family(rows[n]) then [] else Header(rows[n]);
    assert rows[..n + 1][..n] == rows[..n];
    TextConcat(front + header, [SampleLine(rows[n])], show);
    TextConcat(front, header, show);
    HeaderText(rows[n], show);
    assert Text([SampleLine(rows[n])], show) == "" + LineText(SampleLine(rows[n]), show) == LineText(SampleLine(rows[n]), show);
    if header == [] {
      assert Text(front, show) + "" == Text(front, show);
    }
  }

  // ----- lines of text -----

  /** The text has this line. */
  predicate HasLine(text: string, line: string) {
    exists i | 0 <= i <= |text| :: line + "\n" <= text[i..] && (i == 0 || text[i - 1] == '\n')
  }

  predicate WholeLines(text: string) {
    text == "" || text[|text| - 1] == '\n'
  }

  lemma HasLineMore(a: string, b: string, line: string)
    requires HasLine(a, line)
    ensures HasLine(a + b, line)
  {
    var i :| 0 <= i <= |a| && line + "\n" <= a[i..] && (i == 0 || a[i - 1] == '\n');
    assert (a + b)[i..] == a[i..] + b;
  }

  lemma HasLastLine(a: string, line: string)
    requires WholeLines(a)
    ensures HasLine(a + (line + "\n"), line)
  {
    assert (a + (line + "\n"))[|a|..] == line + "\n";
  }

  lemma WholeLinesMore(a: string, line: string)
    ensures WholeLines(a + (line + "\n"))
  {
  }

  predicate HasSample(text: string, r: Row, show: real -> string) {
    HasLine(text, SeriesText(r.key.metric.sample, r.key.metric.labels, r.key.pid) + " " + show(r.meta.value))
  }

  predicate HasHelp(text: string, r: Row) {
    HasLine(text, "# HELP " + Family(r) + " Multiprocess metric")
  }

  /** The HELP line of the row's family and its TYPE line, by the literal type. */
  predicate HasHeader(text: string, r: Row) {
    var f, t := Family(r), r.meta.metricType;
    && HasHelp(text, r)
    && (t == Counter ==> HasLine(text, "# TYPE " + f + " counter"))
    && (t == Gauge ==> HasLine(text, "# TYPE " + f + " gauge"))
    && (t == Histogram ==> HasLine(text, "# TYPE " + f + " histogram"))
    && (t == Summary ==> HasLine(text, "# TYPE " + f + " summary"))
  }

  lemma HeaderPrinted(before: string, r: Row, show: real -> string)
    requires WholeLines(before)
    ensures var more := before + (LineText(Help(Family(r)), show) + LineText(Type(Family(r), r.meta.metricType), show));
            WholeLines(more) && HasHeader(more, r)
  {
    hide HasLine, WholeLines, SeriesText;
    var f := Family(r);
    var help, line := "# HELP " + f + " Multiprocess metric", "# TYPE " + f + " " + TypeName(r.meta.metricType);
    assert LineText(Help(f), show) == help + "\n" by { EndOfLine("# HELP " + f, " Multiprocess metric"); }
    assert LineText(Type(f, r.meta.metricType), show) == line + "\n";
    Assoc(before, help + "\n", line + "\n");
    HasLastLine(before, help);
    WholeLinesMore(before, help);
    HasLineMore(before + (help + "\n"), line + "\n", help);
    HasLastLine(before + (help + "\n"), line);
    WholeLinesMore(before + (help + "\n"), line);
    TypeLine(f);
  }

  lemma EndOfLine(a: string, b: string)
    ensures a + (b + "\n") == a + b + "\n"
  {
  }

  lemma TypeLine(f: string)
    ensures "# TYPE " + f + " " + "counter" == "# TYPE " + f + " counter"
    ensures "# TYPE " + f + " " + "gauge" == "# TYPE " + f + " gauge"
    ensures "# TYPE " + f + " " + "histogram" == "# TYPE " + f + " histogram"
    ensures "# TYPE " + f + " " + "summary" == "# TYPE " + f + " summary"
  {
    Assoc("# TYPE " + f, " ", "counter");
    Assoc("# TYPE " + f, " ", "gauge");
    Assoc("# TYPE " + f, " ", "histogram");
    Assoc("# TYPE " + f, " ", "summary");
    assert " " + "counter" == " counter" && " " + "gauge" == " gauge";
    assert " " + "histogram" == " histogram" && " " + "summary" == " summary";
  }

  lemma RowTextStays(a: string, b: string, r: Row, show: real -> string)
    ensures HasSample(a, r, show) ==> HasSample(a + b, r, show)
    ensures HasHelp(a, r) ==> HasHelp(a + b, r)
    ensures HasHeader(a, r) ==> HasHeader(a + b, r)
  {
    hide HasLine, SeriesText;
    forall line: string | HasLine(a, line)
      ensures HasLine(a + b, line)
    {
      HasLineMore(a, b, line);
    }
  }

  lemma SamplePrinted(before: string, r: Row, show: real -> string)
    requires WholeLines(before)
    ensures var more := before + LineText(SampleLine(r), show); WholeLines(more) && HasSample(more, r, show)
  {
    hide HasLine, WholeLines, SeriesText;
    var line := SeriesText(r.key.metric.sample, r.key.metric.labels, r.key.pid) + " " + show(r.meta.value);
    HasLastLine(before, line);
    WholeLinesMore(before, line);
  }

  /** A header stands where a family begins. */
  predicate Begins(rows: seq<Row>, i: nat)
    requires i < |rows|
  {
    i == 0 || Family(rows[i - 1]) != Family(rows[i])
  }

  /** What the text of some rows has: every sample, the HELP line of its family, and a header where a
      family begins. */
  ghost predicate Shown(text: string, rows: seq<Row>, show: real -> string) {
    && WholeLines(text)
    && (forall i | 0 <= i < |rows| :: HasSample(text, rows[i], show) && HasHelp(text, rows[i]))
    && (forall i | 0 <= i < |rows| && Begins(rows, i) :: HasHeader(text, rows[i]))
  }

  lemma {:induction false} RowsShown(rows: seq<Row>, n: nat, show: real -> string)
    requires n <= |rows|
    ensures Shown(Text(Lines(rows[..n]), show), rows[..n], show)
  {
    if n == 0 {
      NothingPrinted(rows, show);
    } else {
      hide Shown, Lines, Text, LineText, HasLine;
      RowsShown(rows, n - 1, show);
      RowText(rows, n - 1, show);
      ShownMore(Text(Lines(rows[..n - 1]), show), rows, n - 1, show);
    }
  }

  lemma ShownMore(before: string, rows: seq<Row>, n: nat, show: real -> string)
    requires n < |rows| && Shown(before, rows[..n], show)
    ensures var r := rows[n];
            var header := LineText(Help(Family(r)), show) + LineText(Type(Family(r), r.meta.metricType), show);
            var more := if n > 0 && Family(rows[n - 1]) == Family(r) then "" else header;
            Shown(before + more + LineText(SampleLine(r), show), rows[..n + 1], show)
  {
    hide HasSample, HasHelp, HasHeader, WholeLines, LineText;
    var r := rows[n];
    var header := LineText(Help(Family(r)), show) + LineText(Type(Family(r), r.meta.metricType), show);
    var last := LineText(SampleLine(r), show);
    var more := if n > 0 && Family(rows[n - 1]) == Family(r) then "" else header;
    var text := before + more + last;
    Assoc(before, more, last);
    assert before + "" == before;
    HeaderPrinted(before, r, show);
    SamplePrinted(before + more, r, show);
    RowTextStays(before + more, last, r, show);
    forall i | 0 <= i < n
      ensures HasSample(text, rows[i], show) && HasHelp(text, rows[i])
      ensures Begins(rows[..n + 1], i) ==> HasHeader(text, rows[i])
    {
      assert rows[..n][i] == rows[i] && (Begins(rows[..n + 1], i) ==> Begins(rows[..n], i));
      RowTextStays(before, more + last, rows[i], show);
    }
    if n > 0 && Family(rows[n - 1]) == Family(r) {
      SameHelp(text, rows[n - 1], r);
    } else {
      HelpOf(text, r);
    }
  }

  lemma SameHelp(text: string, a: Row, b: Row)
    requires HasHelp(text, a) && Family(a) == Family(b)
    ensures HasHelp(text, b)
  {
  }

  lemma HelpOf(text: string, r: Row)
    requires HasHeader(text, r)
    ensures HasHelp(text, r)
  {
  }

  /** No other key of its family stands in front of this one. */
  predicate FirstOfFamily(merged: Merged, k: EntryKey) {
    forall other <- merged :: other.metric.family == k.metric.family && other != k ==> KeyBefore(k, other)
  }

  /** The text has the line of every sample, the HELP line of every family, and its TYPE line by the type
      of its first key. */
  ghost predicate ShowsAll(text: string, merged: Merged, show: real -> string) {
    && (forall k <- merged :: HasSample(text, Row(k, merged[k]), show) && HasHelp(text, Row(k, merged[k])))
    && (forall k <- merged :: FirstOfFamily(merged, k) ==> HasHeader(text, Row(k, merged[k])))
  }

  lemma KeyBeforeOneWay(a: EntryKey, b: EntryKey)
    ensures !(KeyBefore(a, b) && KeyBefore(b, a))
  {
    hide KeyBefore, CompareKeys;
    KeysOrdered(a, b);
    KeysOrdered(b, a);
    KeysFlip(a, b);
  }

  lemma PageShows(rows: seq<Row>, merged: Merged, show: real -> string)
    requires Enumerates(rows, merged) && RowsAscend(rows)
    ensures ShowsAll(Text(Lines(rows), show), merged, show)
  {
    hide HasSample, HasHelp, HasHeader, Lines, Text, KeyBefore, NoDuplicates;
    var text := Text(Lines(rows), show);
    RowsShown(rows, |rows|, show);
    assert rows[..|rows|] == rows;
    forall k | k in merged
      ensures HasSample(text, Row(k, merged[k]), show) && HasHelp(text, Row(k, merged[k]))
      ensures FirstOfFamily(merged, k) ==> HasHeader(text, Row(k, merged[k]))
    {
      assert Row(k, merged[k]) in rows;
      var i :| 0 <= i < |rows| && rows[i] == Row(k, merged[k]);
      if FirstOfFamily(merged, k) && !Begins(rows, i) {
        var other := rows[i - 1];
        assert other in rows;
        KeyBeforeOneWay(k, other.key);
      }
    }
  }

  /** `render`: the text depends on the merged map alone, not on the order in which it is iterated. */
  method Render(merged: Merged, show: real -> string) returns (out: string)
    ensures forall rows | Enumerates(rows, merged) :: out == Text(Lines(Sort(RowLe, rows)), show)
    ensures ShowsAll(out, merged, show)
  {
    hide Enumerates, CompareKeys, Lines, Text, SeriesText, RowLe, ShowsAll, RowsAscend;
    var collected := Collect(merged);
    var rows := Sort(RowLe, collected);
    SortedEnumerates(collected, merged);
    PageShows(rows, merged, show);
    out := PrintRows(rows, show);
    forall other | Enumerates(other, merged)
      ensures out == Text(Lines(Sort(RowLe, other)), show)
    {
      EnumerationsSortAlike(collected, other, merged);
    }
  }

  lemma NothingPrinted(rows: seq<Row>, show: real -> string)
    ensures Text(Lines(rows[..0]), show) == ""
  {
  }

  /** The printing loop. */
  method PrintRows(rows: seq<Row>, show: real -> string) returns (out: string)
    ensures out == Text(Lines(rows), show)
  {
    hide Lines, Text, SeriesText;
    out := "";
    var previousFamily: Option<string> := None;
    NothingPrinted(rows, show);
    for n := 0 to |rows|
      invariant out == Text(Lines(rows[..n]), show)
      invariant previousFamily == if n == 0 then None else Some(Family(rows[n - 1]))
    {
      var row := rows[n];
      RowText(rows, n, show);
      if previousFamily != Some(Family(row)) {
        out := PrintHeader(out, row, show);
        previousFamily := Some(Family(row));
      }
      out := PrintSample(out, row, show);
    }
    assert rows[..|rows|] == rows;
  }

  lemma Push3(b: string, x: string, y: string, z: string)
    ensures ((b + x) + y) + z == b + ((x + y) + z)
  {
    Assoc(b, x, y);
    Assoc(b, x + y, z);
  }

  method PrintHeader(before: string, row: Row, show: real -> string) returns (out: string)
    ensures out == before + (LineText(Help(Family(row)), show) + LineText(Type(Family(row), row.meta.metricType), show))
  {
    hide SeriesText;
    var family := Family(row);
    out := before + "# HELP ";
    out := out + family;
    out := out + " Multiprocess metric\n";
    Push3(before, "# HELP ", family, " Multiprocess metric\n");
    ghost var help := LineText(Help(family), show);
    assert out == before + help;
    out := out + "# TYPE ";
    out := out + family;
    out := out + " ";
    Push3(before + help, "# TYPE ", family, " ");
    out := out + TypeName(row.meta.metricType);
    out := out + "\n";
    Push3(before + help, "# TYPE " + family + " ", TypeName(row.meta.metricType), "\n");
    Assoc(before, help, LineText(Type(family, row.meta.metricType), show));
  }

  method PrintSample(before: string, row: Row, show: real -> string) returns (out: string)
    ensures out == before + LineText(SampleLine(row), show)
  {
    hide SeriesText;
    out := AppendSample(before, row.key.metric.sample, row.key.metric.labels, row.key.pid);
    out := out + " ";
    out := out + show(row.meta.value);
    out := out + "\n";
  }

  /** The exporter's own gauge behind the merged metrics. */
  method RenderWithErrors(merged: Merged, fileErrors: nat, show: real -> string, decimal: nat -> string) returns (out: string)
    ensures forall rows | Enumerates(rows, merged) ::
              out == Text(Lines(Sort(RowLe, rows)), show)
                     + "# HELP prometheus_mmap_exporter_file_errors Number of metric files skipped during this scrape\n"
                     + "# TYPE prometheus_mmap_exporter_file_errors gauge\n"
                     + "prometheus_mmap_exporter_file_errors " + decimal(fileErrors) + "\n"
    ensures ShowsAll(out, merged, show)
  {
    hide Enumerates, CompareKeys, Lines, Text, SeriesText, RowLe, ShowsAll;
    out := Render(merged, show);
    ghost var page := out;
    out := out + "# HELP prometheus_mmap_exporter_file_errors Number of metric files skipped during this scrape\n";
    out := out + "# TYPE prometheus_mmap_exporter_file_errors gauge\n";
    out := out + "prometheus_mmap_exporter_file_errors ";
    out := out + decimal(fileErrors);
    out := out + "\n";
    StillShows(page, out, merged, show);
  }

  lemma StillShows(page: string, text: string, merged: Merged, show: real -> string)
    requires ShowsAll(page, merged, show) && page <= text
    ensures ShowsAll(text, merged, show)
  {
    hide HasSample, HasHelp, HasHeader, FirstOfFamily;
    assert text == page + text[|page|..];
    forall k | k in merged
      ensures HasSample(text, Row(k, merged[k]), show) && HasHelp(text, Row(k, merged[k]))
      ensures FirstOfFamily(merged, k) ==> HasHeader(text, Row(k, merged[k]))
    {
      RowTextStays(page, text[|page|..], Row(k, merged[k]), show);
    }
  }

  // ----- families -----

  function LineFamily(l: Line): string {
    if l.SampleLine? then Family(l.row) else l.family
  }

  predicate HasFamily(rows: seq<Row>, f: string) {
    exists r <- rows :: Family(r) == f
  }

  /** Rows between two of one family belong to that family. */
  predicate FamiliesTogether(rows: seq<Row>) {
    forall i, j, k | 0 <= i < j < k < |rows| && Family(rows[i]) == Family(rows[k]) :: Family(rows[j]) == Family(rows[i])
  }

  lemma SortedTogether(rows: seq<Row>)
    requires SortedBy(RowLe, rows)
    ensures FamiliesTogether(rows)
  {
    hide CompareStrings;
    forall i, j, k | 0 <= i < j < k < |rows| && Family(rows[i]) == Family(rows[k])
      ensures Family(rows[j]) == Family(rows[i])
    {
      var a, b, c := Family(rows[i]), Family(rows[j]), Family(rows[k]);
      assert RowLe(rows[i], rows[j]) && RowLe(rows[j], rows[k]);
      ChainHolds(a, b, c);
      CompareEqual(a, c);
      CompareEqual(a, b);
    }
  }

  function Headers(lines: seq<Line>, f: string): nat {
    if lines == [] then 0 else
    Headers(lines[..|lines| - 1], f) + if lines[|lines| - 1] == Help(f) then 1 else 0
  }

  function TypeLines(lines: seq<Line>, f: string): nat {
    if lines == [] then 0 else
    var last := lines[|lines| - 1];
    TypeLines(lines[..|lines| - 1], f) + if last.Type? && last.family == f then 1 else 0
  }

  lemma {:induction false} CountsConcat(a: seq<Line>, b: seq<Line>, f: string)
    ensures Headers(a + b, f) == Headers(a, f) + Headers(b, f)
    ensures TypeLines(a + b, f) == TypeLines(a, f) + TypeLines(b, f)
  {
    if b == [] {
      assert a + b == a;
    } else {
      var n := |b| - 1;
      CountsConcat(a, b[..n], f);
      assert (a + b)[..|a| + n] == a + b[..n];
    }
  }

  lemma CountsOne(l: Line, f: string)
    ensures Headers([l], f) == if l == Help(f) then 1 else 0
    ensures TypeLines([l], f) == if l.Type? && l.family == f then 1 else 0
  {
    assert [l][..0] == [];
  }

  lemma HeaderCounts(r: Row, f: string)
    ensures Headers(Header(r), f) == TypeLines(Header(r), f) == if Family(r) == f then 1 else 0
  {
    hide Headers, TypeLines;
    var h := Header(r);
    assert h == [h[0]] + [h[1]];
    CountsConcat([h[0]], [h[1]], f);
    CountsOne(h[0], f);
    CountsOne(h[1], f);
  }

  lemma RowCounts(front: seq<Line>, header: seq<Line>, r: Row, f: string)
    requires header == [] || header == Header(r)
    ensures var more, h := front + header + [SampleLine(r)], if header != [] && Family(r) == f then 1 else 0;
            && Headers(more, f) == Headers(front, f) + h
            && TypeLines(more, f) == TypeLines(front, f) + h
  {
    hide Headers, TypeLines;
    CountsConcat(front + header, [SampleLine(r)], f);
    CountsConcat(front, header, f);
    CountsOne(SampleLine(r), f);
    if header == [] {
      CountsNone(f);
    } else {
      HeaderCounts(r, f);
    }
  }

  lemma CountsNone(f: string)
    ensures Headers([], f) == TypeLines([], f) == 0
  {
  }

  lemma LinesLast(rows: seq<Row>)
    requires rows != []
    ensures var n := |rows| - 1;
            Lines(rows) == Lines(rows[..n])
                           + (if n > 0 && Family(rows[n - 1]) == Family(rows[n]) then [] else Header(rows[n]))
                           + [SampleLine(rows[n])]
  {
  }

  /** Of every family that has rows there is exactly one HELP and one TYPE line, of others none. */
  lemma {:induction false} OneHeaderPerFamily(rows: seq<Row>, f: string)
    requires FamiliesTogether(rows)
    ensures Headers(Lines(rows), f) == TypeLines(Lines(rows), f) == if HasFamily(rows, f) then 1 else 0
  {
    if rows == [] {
      assert Lines(rows) == [];
    } else {
      hide FamiliesTogether, Headers, TypeLines, HasFamily, Lines, Header;
      LinesLast(rows);
      var n := |rows| - 1;
      var front, last := rows[..n], rows[n];
      TogetherFront(rows);
      OneHeaderPerFamily(front, f);
      FamilySnoc(front, last, f);
      assert rows == front + [last];
      var header := if n > 0 && Family(rows[n - 1]) == Family(last) then [] else Header(last);
      RowCounts(Lines(front), header, last, f);
      if n > 0 && Family(rows[n - 1]) == Family(last) {
        OldFamily(front);
      } else {
        HeaderLines(last);
        NewFamily(rows);
      }
    }
  }

  lemma HeaderLines(r: Row)
    ensures Header(r) != []
  {
  }

  lemma OldFamily(front: seq<Row>)
    requires front != []
    ensures HasFamily(front, Family(front[|front| - 1]))
  {
    assert front[|front| - 1] in front;
  }

  lemma TogetherFront(rows: seq<Row>)
    requires rows != [] && FamiliesTogether(rows)
    ensures FamiliesTogether(rows[..|rows| - 1])
  {
  }

  lemma FamilySnoc(front: seq<Row>, last: Row, f: string)
    ensures HasFamily(front + [last], f) <==> HasFamily(front, f) || Family(last) == f
  {
    assert last in front + [last];
    assert forall r <- front :: r in front + [last];
  }

  lemma NewFamily(rows: seq<Row>)
    requires rows != [] && FamiliesTogether(rows)
    requires var n := |rows| - 1; n == 0 || Family(rows[n - 1]) != Family(rows[n])
    ensures !HasFamily(rows[..|rows| - 1], Family(rows[|rows| - 1]))
  {
  }

  /** Line `i` stands under its header: HELP, TYPE, and nothing but samples of the family down to it. */
  predicate UnderHeader(lines: seq<Line>, i: nat)
    requires i < |lines|
  {
    exists h | 0 <= h && h + 2 <= i :: HeaderAt(lines, h, i)
  }

  predicate HeaderAt(lines: seq<Line>, h: nat, i: nat)
    requires h + 2 <= i < |lines|
  {
    var f := LineFamily(lines[i]);
    && lines[h] == Help(f) && lines[h + 1].Type? && lines[h + 1].family == f
    && forall j | h + 2 <= j <= i :: lines[j].SampleLine? && LineFamily(lines[j]) == f
  }

  predicate AllUnderHeaders(lines: seq<Line>) {
    forall i | 0 <= i < |lines| && lines[i].SampleLine? :: UnderHeader(lines, i)
  }

  lemma HeaderStays(lines: seq<Line>, more: seq<Line>, i: nat)
    requires i < |lines| && UnderHeader(lines, i)
    ensures UnderHeader(lines + more, i)
  {
    var h :| 0 <= h && h + 2 <= i && HeaderAt(lines, h, i);
    assert HeaderAt(lines + more, h, i);
  }

  /** Every sample is printed in the group of its family. */
  lemma {:induction false} SamplesUnderHeaders(rows: seq<Row>)
    ensures AllUnderHeaders(Lines(rows))
    ensures rows != [] ==> Lines(rows) != [] && Lines(rows)[|Lines(rows)| - 1] == SampleLine(rows[|rows| - 1])
  {
    if rows != [] {
      var n := |rows| - 1;
      SamplesUnderHeaders(rows[..n]);
      if n > 0 && Family(rows[n - 1]) == Family(rows[n]) {
        SampleJoins(Lines(rows[..n]), rows[n - 1], rows[n]);
        assert Lines(rows[..n]) + [] == Lines(rows[..n]);
      } else {
        SampleStarts(Lines(rows[..n]), rows[n]);
      }
    }
  }

  lemma SampleStarts(lines: seq<Line>, r: Row)
    requires AllUnderHeaders(lines)
    ensures AllUnderHeaders(lines + Header(r) + [SampleLine(r)])
  {
    hide UnderHeader;
    var all := lines + Header(r) + [SampleLine(r)];
    assert all == lines + (Header(r) + [SampleLine(r)]);
    forall i | 0 <= i < |all| && all[i].SampleLine?
      ensures UnderHeader(all, i)
    {
      if i < |lines| {
        HeaderStays(lines, Header(r) + [SampleLine(r)], i);
      } else {
        assert i == |lines| + 2 && HeaderAt(all, |lines|, i);
        IsUnder(all, |lines|, i);
      }
    }
  }

  lemma IsUnder(lines: seq<Line>, h: nat, i: nat)
    requires h + 2 <= i < |lines| && HeaderAt(lines, h, i)
    ensures UnderHeader(lines, i)
  {
  }

  lemma SampleJoins(lines: seq<Line>, before: Row, r: Row)
    requires AllUnderHeaders(lines) && lines != [] && lines[|lines| - 1] == SampleLine(before) && Family(before) == Family(r)
    ensures AllUnderHeaders(lines + [SampleLine(r)])
  {
    hide UnderHeader;
    var all, n := lines + [SampleLine(r)], |lines|;
    forall i | 0 <= i < |all| && all[i].SampleLine?
      ensures UnderHeader(all, i)
    {
      if i < n {
        HeaderStays(lines, [SampleLine(r)], i);
      } else {
        assert UnderHeader(lines, n - 1);
        Joins(lines, r);
      }
    }
  }

  lemma Joins(lines: seq<Line>, r: Row)
    requires lines != [] && UnderHeader(lines, |lines| - 1) && LineFamily(lines[|lines| - 1]) == Family(r)
    ensures UnderHeader(lines + [SampleLine(r)], |lines|)
  {
    var n := |lines|;
    var h :| 0 <= h && h + 2 <= n - 1 && HeaderAt(lines, h, n - 1);
    assert HeaderAt(lines + [SampleLine(r)], h, n);
  }

  // ----- samples -----

  /** The rows whose samples the lines print, in the order of the lines. */
  function Printed(lines: seq<Line>): seq<Row> {
    if lines == [] then [] else
    var last := lines[|lines| - 1];
    Printed(lines[..|lines| - 1]) + if last.SampleLine? then [last.row] else []
  }

  lemma PrintedMore(lines: seq<Line>, l: Line)
    ensures Printed(lines + [l]) == Printed(lines) + if l.SampleLine? then [l.row] else []
  {
    assert (lines + [l])[..|lines|] == lines;
  }

  lemma PrintedRow(front: seq<Line>, r: Row)
    ensures Printed(front + [] + [SampleLine(r)]) == Printed(front) + [r]
    ensures Printed(front + Header(r) + [SampleLine(r)]) == Printed(front) + [r]
  {
    hide Printed;
    assert front + [] == front;
    PrintedMore(front, SampleLine(r));
    PrintedMore(front, Help(Family(r)));
    PrintedMore(front + [Help(Family(r))], Type(Family(r), r.meta.metricType));
    assert front + [Help(Family(r))] + [Type(Family(r), r.meta.metricType)] == front + Header(r);
    PrintedMore(front + Header(r), SampleLine(r));
  }

  /** Every row is printed, once and in its place. */
  lemma {:induction false} RowsPrinted(rows: seq<Row>)
    ensures Printed(Lines(rows)) == rows
  {
    if rows != [] {
      hide Lines, Printed, Header;
      var n := |rows| - 1;
      LinesLast(rows);
      RowsPrinted(rows[..n]);
      PrintedRow(Lines(rows[..n]), rows[n]);
    }
  }

  /** In the text of a merged map every entry is printed exactly once, in the order of keys, and every
      family forms one contiguous group of samples behind exactly one HELP and TYPE pair. */
  lemma Grouped(rows: seq<Row>, merged: Merged, f: string)
    requires Enumerates(rows, merged)
    ensures var lines := Lines(Sort(RowLe, rows));
            && Enumerates(Printed(lines), merged) && RowsAscend(Printed(lines))
            && AllUnderHeaders(lines)
            && Headers(lines, f) == TypeLines(lines, f)
               == if exists k <- merged :: k.metric.family == f then 1 else 0
  {
    hide Enumerates, RowLe, Lines, Printed, Headers, TypeLines, AllUnderHeaders, FamiliesTogether, HasFamily;
    var sorted := Sort(RowLe, rows);
    SortedEnumerates(rows, merged);
    RowsPrinted(sorted);
    SortedTogether(sorted);
    OneHeaderPerFamily(sorted, f);
    SamplesUnderHeaders(sorted);
    FamiliesOf(sorted, merged, f);
  }

  lemma SortedEnumerates(rows: seq<Row>, merged: Merged)
    requires Enumerates(rows, merged)
    ensures Enumerates(Sort(RowLe, rows), merged) && SortedBy(RowLe, Sort(RowLe, rows)) && RowsAscend(Sort(RowLe, rows))
  {
    hide RowLe, NoDuplicates, RowsAscend;
    RowOrder();
    SortSorted(RowLe, rows);
    SortMultiset(RowLe, rows);
    SameMultisetSameMembers(rows, Sort(RowLe, rows));
    SameMultisetNoDuplicates(rows, Sort(RowLe, rows));
    SortedAscend(Sort(RowLe, rows), merged);
  }

  /** Rows stand in dictionary order of their keys. */
  predicate RowsAscend(rows: seq<Row>) {
    forall i, j | 0 <= i < j < |rows| :: KeyBefore(rows[i].key, rows[j].key)
  }

  lemma SortedAscend(rows: seq<Row>, merged: Merged)
    requires Enumerates(rows, merged) && SortedBy(RowLe, rows)
    ensures RowsAscend(rows)
  {
    hide KeyBefore, CompareKeys;
    forall i, j | 0 <= i < j < |rows|
      ensures KeyBefore(rows[i].key, rows[j].key)
    {
      assert RowLe(rows[i], rows[j]) && rows[i] in rows && rows[j] in rows;
      KeysEqual(rows[i].key, rows[j].key);
      KeysOrdered(rows[i].key, rows[j].key);
    }
  }

  lemma FamiliesOf(rows: seq<Row>, merged: Merged, f: string)
    requires Enumerates(rows, merged)
    ensures HasFamily(rows, f) <==> exists k <- merged :: k.metric.family == f
  {
    if k :| k in merged && k.metric.family == f {
      assert Row(k, merged[k]) in rows;
    }
  }
}
