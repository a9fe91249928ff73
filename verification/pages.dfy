/** The two pages a directory can be printed as: by the exporter and by the aggregator. */
module Pages {
  import opened Bytes
  import opened RawEntries
  import opened MetricLog
  import opened LogScan
  import opened Merge
  import opened Aggregate
  import opened Scrape
  import opened Exporter
  import opened Agreement
  import opened Ordering
  import opened Rendering

  /** Under which key a file's metric is reported: with its pid for `all` and `liveall` gauges only. */
  function ReportedKey(f: FileParams, metric: StoredMetricKey): EntryKey {
    EntryKey(metric, if f.metricType == Gauge && (f.mode == All || f.mode == Liveall) then Some(f.pid) else None)
  }

  /** The page has a line with what the samples `cs` of this metric come to. */
  ghost predicate Reported(text: string, f: FileParams, metric: StoredMetricKey, cs: seq<Contribution>, show: real -> string) {
    exists v: EntryMeta ::
      && v.metricType == f.metricType && v.mode == f.mode
      && Summarises(cs, ReportedKey(f, metric), v)
      && HasSample(text, Row(ReportedKey(f, metric), v), show)
  }

  lemma ContributesKey(f: FileParams, s: Sample, val: Bits -> real)
    ensures var c := Contribute(f, s, val);
            c.key == ReportedKey(f, s.key) && c.meta == EntryMeta(f.mode, f.metricType, val(s.value))
  {
  }

  /** What a file has published is among what is merged. */
  lemma {:induction false} RecordMerged(w: World, order: seq<FileParams>, i: nat, r: Rec, val: Bits -> real)
    requires i < |order| && r in PublishedAt(w, order[i].path)
    ensures Contribute(order[i], Sample(r.key, r.value), val) in PublishedIn(w, order, val)
    decreases |order|
  {
    hide Contribute, PublishedAt;
    var n := |order| - 1;
    if i < n {
      RecordMerged(w, order[..n], i, r, val);
    } else {
      var log := PublishedAt(w, order[i].path);
      var j :| 0 <= j < |log| && log[j] == r;
      assert SamplesOf(w, order[i], val)[j] == Contribute(order[i], Sample(r.key, r.value), val);
    }
  }

  /** So a page of everything published reports every published record. */
  lemma RecordReported(text: string, w: World, order: seq<FileParams>, f: FileParams, r: Rec, val: Bits -> real, show: real -> string)
    requires AllCommute(PublishedIn(w, order, val)) && ShowsAll(text, MergeAll(PublishedIn(w, order, val)), show)
    requires f in order && r in PublishedAt(w, f.path)
    ensures Reported(text, f, r.key, PublishedIn(w, order, val), show)
  {
    hide AllCommute, PublishedIn, PublishedAt, MergeAll, Summarises, HasSample, HasHelp, HasHeader, FirstOfFamily, ReportedKey, Contribute;
    var i :| 0 <= i < |order| && order[i] == f;
    RecordMerged(w, order, i, r, val);
    var cs, c := PublishedIn(w, order, val), Contribute(f, Sample(r.key, r.value), val);
    ContributesKey(f, Sample(r.key, r.value), val);
    MergedMeaning(cs, c.key);
    assert Mentions(cs, c.key);
    var v := MergeAll(cs)[c.key];
    assert SameKind(cs, c.key, v);
  }

  lemma AllReported(text: string, w: World, order: seq<FileParams>, val: Bits -> real, show: real -> string)
    requires AllCommute(PublishedIn(w, order, val)) && ShowsAll(text, MergeAll(PublishedIn(w, order, val)), show)
    ensures forall f <- order, r <- PublishedAt(w, f.path) :: Reported(text, f, r.key, PublishedIn(w, order, val), show)
  {
    hide AllCommute, PublishedIn, PublishedAt, MergeAll, ShowsAll, Reported;
    forall f, r | f in order && r in PublishedAt(w, f.path)
      ensures Reported(text, f, r.key, PublishedIn(w, order, val), show)
    {
      RecordReported(text, w, order, f, r, val, show);
    }
  }

  /** One merged map on both pages. */
  method PrintBoth(merged: Merged, show: real -> string, decimal: nat -> string) returns (scraped: string, aggregated: string)
    ensures ShowsAll(aggregated, merged, show)
    ensures scraped == aggregated
              + "# HELP prometheus_mmap_exporter_file_errors Number of metric files skipped during this scrape\n"
              + "# TYPE prometheus_mmap_exporter_file_errors gauge\n"
              + "prometheus_mmap_exporter_file_errors " + decimal(0) + "\n"
  {
    hide Enumerates, Lines, Text, Sort, RowLe, ShowsAll;
    var rows := Collect(merged);
    scraped := RenderWithErrors(merged, 0, show, decimal);
    aggregated := Render(merged, show);
  }

  /** On a quiescent directory, after any history of it, the exporter prints what the aggregator prints,
      and behind it that no file was skipped. */
  method BothPages(exporter: CachedDirExporter, dir: Dir, order: seq<FileParams>, val: Bits -> real,
                   show: real -> string, decimal: nat -> string,
                   ghost worlds: seq<World>, ghost events: seq<Event>, ghost pageSize: nat)
    returns (scraped: string, aggregated: string)
    requires 0 < pageSize <= U32_MAX && History(worlds, events, pageSize)
    requires var w := worlds[|worlds| - 1];
             exporter.Valid() && exporter.View() == w.cache && Shows(dir, w)
    requires dir.listing.Some? && DistinctNames(dir.listing.value) && DiscoveryErrors(dir.listing.value) == 0
    requires forall params <- Discovered(dir.listing.value) :: params.path in dir.nodes
    requires multiset(order) == multiset(Discovered(dir.listing.value))
    requires OneKindPerKey(worlds[|worlds| - 1], order) && OneFilePerPid(worlds[|worlds| - 1], order)
    modifies exporter, exporter.files.Values
    ensures exporter.Valid()
    ensures scraped == aggregated
              + "# HELP prometheus_mmap_exporter_file_errors Number of metric files skipped during this scrape\n"
              + "# TYPE prometheus_mmap_exporter_file_errors gauge\n"
              + "prometheus_mmap_exporter_file_errors " + decimal(0) + "\n"
    ensures var w := worlds[|worlds| - 1];
            forall f <- order, r <- PublishedAt(w, f.path) :: Reported(aggregated, f, r.key, PublishedIn(w, order, val), show)
  {
    hide WorldInv, Shows, OneKindPerKey, OneFilePerPid, AllCommute, PublishedIn, Discovered, Possible, Happen, MergeAll, ShowsAll,
      PublishedAt, Reported, DistinctNames, DiscoveryErrors;
    HistoryKeepsInv(worlds, events, pageSize, |worlds| - 1);
    KeysCommute(worlds[|worlds| - 1], order, val);
    var a, b := BothReaders(exporter, dir, order, val, worlds, events, pageSize);
    scraped, aggregated := PrintBoth(b.value, show, decimal);
    AllReported(aggregated, worlds[|worlds| - 1], order, val, show);
  }
}
