/** The from-scratch aggregator of src/aggregate.rs: read every file, scan it from the start, merge. */
module Aggregate {
  import opened Bytes
  import opened SeqFacts
  import opened RawEntries
  import opened MetricLog
  import opened LogScan
  import opened Merge

  datatype FileParams = FileParams(path: string, metricType: MetricType, mode: MultiprocessMode, pid: string)

  /** A discovered file; `content` is absent when it cannot be read. */
  datatype Source = Source(params: FileParams, content: Option<seq<byte>>)

  /** The 8 bytes at an offset of a file. */
  function ValueIn(b: seq<byte>, offset: nat): Bits {
    if offset + 8 <= |b| then b[offset..offset + 8] else ZERO
  }

  function ReadSamples(b: seq<byte>, items: seq<Item>): (s: seq<Sample>)
    ensures |s| == |items|
  {
    seq(|items|, i requires 0 <= i < |items| => Sample(items[i].key, ValueIn(b, items[i].valueOffset)))
  }

  /** The samples one file's bytes hold for the aggregator; a scan that stops early keeps what it has. */
  function FileSamples(b: seq<byte>): Result<seq<Sample>> {
    if |b| < HEADER_SIZE || U32At(b, 4) != FILE_FORMAT_VERSION then Ok([])
    else if UsedWord(b) > |b| then Err(InvalidUsed(UsedWord(b), |b|))
    else Ok(ReadSamples(b, ScanFrom(b, HEADER_SIZE, UsedWord(b)).items))
  }

  function EntryKeyOf(params: FileParams, metric: StoredMetricKey): EntryKey {
    EntryKey(metric, if IsPidSignificant(params.metricType, params.mode) then Some(params.pid) else None)
  }

  function Contribute(params: FileParams, s: Sample, val: Bits -> real): Contribution {
    Contribution(EntryKeyOf(params, s.key), EntryMeta(params.mode, params.metricType, val(s.value)))
  }

  function Contributions(params: FileParams, samples: seq<Sample>, val: Bits -> real): (cs: seq<Contribution>)
    ensures |cs| == |samples|
  {
    seq(|samples|, i requires 0 <= i < |samples| => Contribute(params, samples[i], val))
  }

  /** Everything that a list of files contributes, in their order; the first bad file spoils it all. */
  function AllContributions(files: seq<Source>, val: Bits -> real): Result<seq<Contribution>> {
    if files == [] then Ok([]) else
    var front, file := AllContributions(files[..|files| - 1], val), files[|files| - 1];
    if front.Err? then front
    else if file.content.None? then Err(Io)
    else
      var samples := FileSamples(file.content.value);
      if samples.Err? then Err(samples.error)
      else Ok(front.value + Contributions(file.params, samples.value, val))
  }

  lemma {:induction false} BadPrefix(files: seq<Source>, n: nat, val: Bits -> real)
    requires n <= |files| && AllContributions(files[..n], val).Err?
    ensures AllContributions(files, val).Err?
    decreases |files|
  {
    if n == |files| {
      assert files[..n] == files;
    } else {
      assert files[..|files| - 1][..n] == files[..n];
      BadPrefix(files[..|files| - 1], n, val);
    }
  }

  lemma ContributionsSnoc(params: FileParams, samples: seq<Sample>, s: Sample, val: Bits -> real)
    ensures Contributions(params, samples + [s], val) == Contributions(params, samples, val) + [Contribute(params, s, val)]
  {
  }

  lemma ReadSamplesSnoc(b: seq<byte>, items: seq<Item>, item: Item)
    ensures ReadSamples(b, items + [item]) == ReadSamples(b, items) + [Sample(item.key, ValueIn(b, item.valueOffset))]
  {
  }

  /** The value an entry carries is the one at its offset in the file. */
  lemma EntryValueInFile(b: seq<byte>, pos: nat, used: nat)
    requires pos <= used <= |b| && FromSlice(b[pos..used]).Ok?
    ensures var e := FromSlice(b[pos..used]).value;
            e.Value() == ValueIn(b, pos + e.ValueOffset())
  {
    hide FromSlice;
    FromSliceMeaning(b[pos..used]);
    var e := FromSlice(b[pos..used]).value;
    SliceOfSlice(b, pos, used, e.ValueOffset(), e.ValueOffset() + 8);
  }

  /** The parse and merge loop over one file. */
  method MergeFile(params: FileParams, b: seq<byte>, merged: Merged, val: Bits -> real) returns (r: Result<Merged>)
    ensures r.Ok? <==> FileSamples(b).Ok?
    ensures r.Err? ==> r.error == FileSamples(b).error
    ensures r.Ok? ==> r.value == MergeInto(merged, Contributions(params, FileSamples(b).value, val))
  {
    hide ScanFrom, FromSlice, TextKey, MergeOne, Contribute, ValueIn, U32At, RawEntry.Valid;
    if |b| < HEADER_SIZE { return Ok(merged); }
    if U32At(b, 4) != FILE_FORMAT_VERSION { return Ok(merged); }
    var used := U32At(b, 0);
    used := if used == 0 then HEADER_SIZE else used;
    if used > |b| { return Err(InvalidUsed(used, |b|)); }

    var result := merged;
    var pos := HEADER_SIZE;
    ghost var all := ScanFrom(b, HEADER_SIZE, used).items;
    ghost var done: seq<Item> := [];
    ghost var stopped := false;
    while pos + 12 <= used
      invariant used <= |b|
      invariant all == done + ScanFrom(b, pos, used).items
      invariant result == MergeInto(merged, Contributions(params, ReadSamples(b, done), val))
      decreases used - pos
    {
      ScanTurn(b, pos, used);
      var entry := FromSlice(b[pos..used]);
      if entry.Err? {
        stopped := true;
        break;
      }
      var e := entry.value;
      var key := TextKey(e);
      if key.None? {
        stopped := true;
        break;
      }
      EntryValueInFile(b, pos, used);
      var incoming := Contribute(params, Sample(key.value, e.Value()), val);
      result := MergeOne(result, incoming);

      ghost var item := Item(key.value, pos + e.ValueOffset());
      ReadSamplesSnoc(b, done, item);
      ContributionsSnoc(params, ReadSamples(b, done), Sample(key.value, e.Value()), val);
      MergeSnoc(merged, Contributions(params, ReadSamples(b, done), val), incoming);
      Assoc(done, [item], ScanFrom(b, pos + e.TotalLen(), used).items);
      done := done + [item];
      pos := pos + e.TotalLen();
    }
    if !stopped {
      ScanDone(b, pos, used);
    }
    assert done + [] == done;
    r := Ok(result);
  }

  /** `aggregate_to_prometheus_text` up to rendering: all files or an error. */
  method AggregateFiles(files: seq<Source>, val: Bits -> real) returns (r: Result<Merged>)
    ensures r.Ok? <==> AllContributions(files, val).Ok?
    ensures r.Ok? ==> r.value == MergeAll(AllContributions(files, val).value)
  {
    hide FileSamples, Contributions;
    var merged: Merged := map[];
    for i := 0 to |files|
      invariant AllContributions(files[..i], val).Ok?
      invariant merged == MergeAll(AllContributions(files[..i], val).value)
    {
      var file := files[i];
      Snoc(files, i);
      if file.content.None? {
        BadPrefix(files, i + 1, val);
        return Err(Io);
      }
      var next := MergeFile(file.params, file.content.value, merged, val);
      if next.Err? {
        BadPrefix(files, i + 1, val);
        return next;
      }
      MergeConcat(map[], AllContributions(files[..i], val).value,
                  Contributions(file.params, FileSamples(file.content.value).value, val));
      merged := next.value;
    }
    assert files[..|files|] == files;
    r := Ok(merged);
  }

  // ----- store-written files -----

  function LogSamples(log: seq<Rec>): (s: seq<Sample>)
    ensures |s| == |log|
  {
    seq(|log|, i requires 0 <= i < |log| => Sample(log[i].key, log[i].value))
  }

  /** From a well-formed file the aggregator takes exactly the published log. */
  lemma WellFormedSamples(b: seq<byte>, log: seq<Rec>)
    requires WellFormed(b, log)
    ensures FileSamples(b) == Ok(LogSamples(log))
  {
    hide WellFormed, End, ScanFrom, ValueAt;
    HeaderOf(b, log);
    EmptyEnd();
    assert log[..0] == [];
    ScanWellFormed(b, log, 0);
    assert Items(log)[0..] == Items(log);
    forall i | 0 <= i < |log|
      ensures ReadSamples(b, Items(log))[i] == LogSamples(log)[i]
    {
      ItemAt(log, i);
      ValueBytes(b, log, i);
    }
    assert ReadSamples(b, Items(log)) == LogSamples(log);
  }

  lemma HeaderOf(b: seq<byte>, log: seq<Rec>)
    requires WellFormed(b, log)
    ensures |b| >= HEADER_SIZE && U32At(b, 4) == FILE_FORMAT_VERSION && UsedWord(b) == End(log) <= |b|
  {
  }

  lemma EmptyEnd()
    ensures End([]) == HEADER_SIZE
  {
  }
}
