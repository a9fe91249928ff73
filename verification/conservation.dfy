/** Nothing that workers count is lost or counted twice on the way to the merged map. */
module Conservation {
  import opened Bytes
  import opened SeqFacts
  import opened RawEntries
  import opened MetricLog
  import opened LogContents
  import opened LogScan
  import opened Growth
  import opened MmapFile
  import opened StoreRuns
  import opened Merge
  import opened Aggregate

  /** A worker with its own file of counters (or histograms, or summaries): the calls it made and the
      published log they left. */
  datatype Worker = Worker(params: FileParams, calls: seq<Call>, bytes: seq<byte>, log: seq<Rec>)

  /** The worker only increments (and restarts), and its file is the result. */
  predicate Done(w: Worker, kind: MetricType, add: (Bits, Bits) -> Bits) {
    && w.params.metricType == kind && kind != Gauge && w.params.mode == All
    && OnlyIncrements(w.calls)
    && WellFormed(w.bytes, w.log)
    && Contents(w.log) == Replay(map[], w.calls, add)
  }

  /** Every addition the worker performed is exact, and zero is zero. */
  predicate Exact(calls: seq<Call>, add: (Bits, Bits) -> Bits, val: Bits -> real) {
    && val(ZERO) == 0.0
    && forall i | 0 <= i < |calls| && calls[i].op.Increment? && calls[i].answer.Ok? ::
         var now := Read(Replay(map[], calls[..i], add), calls[i].op.key);
         val(add(now, calls[i].op.amount)) == val(now) + val(calls[i].op.amount)
  }

  /** The amounts of all successful increments of one key. */
  function Total(calls: seq<Call>, key: StoredMetricKey, val: Bits -> real): real {
    if calls == [] then 0.0 else
    var call := calls[|calls| - 1];
    Total(calls[..|calls| - 1], key, val)
    + if call.op.Increment? && call.answer.Ok? && call.op.key == key then val(call.op.amount) else 0.0
  }

  predicate Incremented(calls: seq<Call>, key: StoredMetricKey) {
    exists call <- calls :: call.op.Increment? && call.answer.Ok? && call.op.key == key
  }

  predicate OnlyIncrements(calls: seq<Call>) {
    forall call <- calls :: call.op.Increment? || call.op.Reopen?
  }

  lemma ExactFront(calls: seq<Call>, add: (Bits, Bits) -> Bits, val: Bits -> real)
    requires calls != [] && Exact(calls, add, val)
    ensures Exact(calls[..|calls| - 1], add, val)
    ensures val(ZERO) == 0.0
    ensures var call, m := calls[|calls| - 1], Replay(map[], calls[..|calls| - 1], add);
            call.op.Increment? && call.answer.Ok? ==>
              val(Expected(m, call.op, add)) == val(Read(m, call.op.key)) + val(call.op.amount)
  {
    hide Replay;
    var front := calls[..|calls| - 1];
    forall i | 0 <= i < |front| && front[i].op.Increment? && front[i].answer.Ok?
      ensures var now := Read(Replay(map[], front[..i], add), front[i].op.key);
              val(add(now, front[i].op.amount)) == val(now) + val(front[i].op.amount)
    {
      assert front[..i] == calls[..i] && front[i] == calls[i];
    }
  }

  lemma LastCall(calls: seq<Call>)
    requires calls != [] && OnlyIncrements(calls)
    ensures var call := calls[|calls| - 1]; OnlyIncrements(calls[..|calls| - 1]) && (call.op.Increment? || call.op.Reopen?)
  {
    assert calls[|calls| - 1] in calls;
  }

  lemma IncrementedMore(front: seq<Call>, call: Call, key: StoredMetricKey)
    ensures Incremented(front + [call], key) <==>
              Incremented(front, key) || (call.op.Increment? && call.answer.Ok? && call.op.key == key)
  {
    assert call in front + [call];
    assert forall c <- front :: c in front + [call];
  }

  lemma TotalMore(front: seq<Call>, call: Call, key: StoredMetricKey, val: Bits -> real)
    ensures Total(front + [call], key, val) == Total(front, key, val)
              + if call.op.Increment? && call.answer.Ok? && call.op.key == key then val(call.op.amount) else 0.0
  {
    assert (front + [call])[..|front|] == front;
  }

  /** A store has exactly the keys that were incremented. */
  lemma {:induction false} StoreKeys(calls: seq<Call>, key: StoredMetricKey, add: (Bits, Bits) -> Bits)
    requires OnlyIncrements(calls)
    ensures key in Replay(map[], calls, add) <==> Incremented(calls, key)
  {
    if calls == [] {
      assert !Incremented(calls, key);
    } else {
      hide Incremented, Replay, OnlyIncrements;
      var n := |calls| - 1;
      var front, call := calls[..n], calls[n];
      LastCall(calls);
      StoreKeys(front, key, add);
      assert calls == front + [call];
      IncrementedMore(front, call, key);
      ReplayLast(map[], front, call, add);
    }
  }

  /** Inside one store: a key holds the sum of what was added to it. */
  lemma {:induction false} StoreConserves(calls: seq<Call>, key: StoredMetricKey, add: (Bits, Bits) -> Bits, val: Bits -> real)
    requires OnlyIncrements(calls) && Exact(calls, add, val)
    ensures val(Read(Replay(map[], calls, add), key)) == Total(calls, key, val)
  {
    hide Replay, Total, OnlyIncrements;
    if calls == [] {
      NothingTotal(key, add, val);
    } else {
      hide Exact;
      var n := |calls| - 1;
      var front, call := calls[..n], calls[n];
      ExactFront(calls, add, val);
      LastCall(calls);
      StoreConserves(front, key, add, val);
      assert calls == front + [call];
      ReplayLast(map[], front, call, add);
      TotalMore(front, call, key, val);
    }
  }

  lemma NothingTotal(key: StoredMetricKey, add: (Bits, Bits) -> Bits, val: Bits -> real)
    ensures Replay(map[], [], add) == map[] && Total([], key, val) == 0.0
  {
  }

  /** In one file: the samples of a key sum to its stored value, as there is at most one. */
  lemma {:induction false} FileConserves(params: FileParams, log: seq<Rec>, key: StoredMetricKey, val: Bits -> real)
    requires DistinctKeys(log) && val(ZERO) == 0.0 && !IsPidSignificant(params.metricType, params.mode)
    ensures var cs := Contributions(params, LogSamples(log), val);
            && SumFor(cs, EntryKey(key, None)) == val(Read(Contents(log), key))
            && (Mentions(cs, EntryKey(key, None)) <==> key in Contents(log))
  {
    if log == [] {
      assert Contributions(params, LogSamples(log), val) == [];
    } else {
      hide SumFor, Mentions, Contents, Contributions, LogSamples, DistinctKeys;
      var n := |log| - 1;
      var front, r := log[..n], log[n];
      LastRecord(log);
      FileConserves(params, front, key, val);
      ContentsAppend(front, r);
      SamplesMore(params, front, r, val);
      MentionsSnoc(Contributions(params, LogSamples(front), val), Contribute(params, Sample(r.key, r.value), val), EntryKey(key, None));
    }
  }

  lemma LastRecord(log: seq<Rec>)
    requires log != [] && DistinctKeys(log)
    ensures var n := |log| - 1;
            DistinctKeys(log[..n]) && log == log[..n] + [log[n]] && log[n].key !in Contents(log[..n])
  {
    hide Contents;
    ContentsKeys(log[..|log| - 1], log[|log| - 1].key);
  }

  lemma SamplesMore(params: FileParams, front: seq<Rec>, r: Rec, val: Bits -> real)
    ensures Contributions(params, LogSamples(front + [r]), val)
         == Contributions(params, LogSamples(front), val) + [Contribute(params, Sample(r.key, r.value), val)]
  {
    assert LogSamples(front + [r]) == LogSamples(front) + [Sample(r.key, r.value)];
    ContributionsSnoc(params, LogSamples(front), Sample(r.key, r.value), val);
  }

  function Files(workers: seq<Worker>): (files: seq<Source>)
    ensures |files| == |workers|
  {
    seq(|workers|, i requires 0 <= i < |workers| => Source(workers[i].params, Some(workers[i].bytes)))
  }

  function GrandTotal(workers: seq<Worker>, key: StoredMetricKey, val: Bits -> real): real {
    if workers == [] then 0.0
    else GrandTotal(workers[..|workers| - 1], key, val) + Total(workers[|workers| - 1].calls, key, val)
  }

  predicate AllDone(workers: seq<Worker>, kind: MetricType, add: (Bits, Bits) -> Bits, val: Bits -> real) {
    forall w <- workers :: Done(w, kind, add) && Exact(w.calls, add, val)
  }

  predicate OfKind(cs: seq<Contribution>, kind: MetricType) {
    kind != Gauge && forall c <- cs :: c.meta.metricType == kind && c.meta.mode == All
  }

  lemma {:induction false} SumConcat(a: seq<Contribution>, b: seq<Contribution>, k: EntryKey)
    ensures SumFor(a + b, k) == SumFor(a, k) + SumFor(b, k)
    ensures Mentions(a + b, k) <==> Mentions(a, k) || Mentions(b, k)
  {
    if b == [] {
      assert a + b == a;
    } else {
      var n := |b| - 1;
      SumConcat(a, b[..n], k);
      Assoc(a, b[..n], [b[n]]);
      assert b == b[..n] + [b[n]];
      MentionsSnoc(a + b[..n], b[n], k);
      MentionsSnoc(b[..n], b[n], k);
    }
  }

  lemma WorkerContributes(w: Worker, kind: MetricType, key: StoredMetricKey, add: (Bits, Bits) -> Bits, val: Bits -> real)
    requires Done(w, kind, add) && Exact(w.calls, add, val)
    ensures FileSamples(w.bytes).Ok?
    ensures var cs := Contributions(w.params, FileSamples(w.bytes).value, val);
            && SumFor(cs, EntryKey(key, None)) == Total(w.calls, key, val)
            && (Mentions(cs, EntryKey(key, None)) <==> Incremented(w.calls, key))
            && OfKind(cs, kind)
  {
    hide WellFormed, FileSamples, SumFor, Mentions, Replay, Total, Incremented, Contents;
    WellFormedSamples(w.bytes, w.log);
    LogOf(w);
    FileConserves(w.params, w.log, key, val);
    StoreConserves(w.calls, key, add, val);
    StoreKeys(w.calls, key, add);
  }

  lemma LogOf(w: Worker)
    requires WellFormed(w.bytes, w.log)
    ensures DistinctKeys(w.log)
  {
  }

  lemma {:induction false} WorkersContribute(workers: seq<Worker>, kind: MetricType, key: StoredMetricKey,
                                             add: (Bits, Bits) -> Bits, val: Bits -> real)
    requires kind != Gauge && AllDone(workers, kind, add, val)
    ensures AllContributions(Files(workers), val).Ok?
    ensures var cs := AllContributions(Files(workers), val).value;
            && SumFor(cs, EntryKey(key, None)) == GrandTotal(workers, key, val)
            && (Mentions(cs, EntryKey(key, None)) <==> exists w <- workers :: Incremented(w.calls, key))
            && OfKind(cs, kind)
  {
    hide FileSamples, AllDone, Done, Exact, Incremented, SumFor, Mentions, OfKind, Contributions, AllContributions, Files;
    if workers == [] {
      NoWorkers(workers, kind, key, val);
    } else {
      var n := |workers| - 1;
      var front, w := workers[..n], workers[n];
      LastWorker(workers, kind, key, add, val);
      WorkersContribute(front, kind, key, add, val);
      WorkerContributes(w, kind, key, add, val);
      var a, b := AllContributions(Files(front), val).value, Contributions(w.params, FileSamples(w.bytes).value, val);
      SumConcat(a, b, EntryKey(key, None));
      PlainConcat(a, b, kind);
    }
  }

  lemma NoWorkers(workers: seq<Worker>, kind: MetricType, key: StoredMetricKey, val: Bits -> real)
    requires workers == [] && kind != Gauge
    ensures AllContributions(Files(workers), val) == Ok([])
    ensures SumFor([], EntryKey(key, None)) == GrandTotal(workers, key, val)
    ensures !Mentions([], EntryKey(key, None)) && OfKind([], kind)
  {
  }

  lemma LastWorker(workers: seq<Worker>, kind: MetricType, key: StoredMetricKey, add: (Bits, Bits) -> Bits, val: Bits -> real)
    requires workers != [] && AllDone(workers, kind, add, val)
    ensures var n := |workers| - 1;
            && AllDone(workers[..n], kind, add, val) && Done(workers[n], kind, add) && Exact(workers[n].calls, add, val)
            && ((exists w <- workers :: Incremented(w.calls, key)) <==>
                  (exists w <- workers[..n] :: Incremented(w.calls, key)) || Incremented(workers[n].calls, key))
            && var front, last := AllContributions(Files(workers[..n]), val), FileSamples(workers[n].bytes);
               front.Ok? && last.Ok? ==>
                 AllContributions(Files(workers), val) == Ok(front.value + Contributions(workers[n].params, last.value, val))
  {
    hide FileSamples, Done, Exact, Incremented, Contributions;
    var n := |workers| - 1;
    assert workers == workers[..n] + [workers[n]];
    assert Files(workers)[..n] == Files(workers[..n]);
  }

  lemma PlainConcat(a: seq<Contribution>, b: seq<Contribution>, kind: MetricType)
    requires OfKind(a, kind) && OfKind(b, kind)
    ensures OfKind(a + b, kind)
  {
  }

  /** End to end: for any number of workers and any runs, a key appears in the merged map exactly if
      some increment of it succeeded, and its value is the sum of all amounts of successful increments. */
  lemma Conserved(workers: seq<Worker>, kind: MetricType, key: StoredMetricKey, add: (Bits, Bits) -> Bits, val: Bits -> real)
    requires kind != Gauge && AllDone(workers, kind, add, val)
    ensures AllContributions(Files(workers), val).Ok?
    ensures var merged, k := MergeAll(AllContributions(Files(workers), val).value), EntryKey(key, None);
            && (k in merged <==> exists w <- workers :: Incremented(w.calls, key))
            && (k in merged ==> merged[k].metricType == kind && merged[k].value == GrandTotal(workers, key, val))
            && (k !in merged ==> GrandTotal(workers, key, val) == 0.0)
  {
    hide AllDone, Incremented, SumFor, GrandTotal, AllContributions, MergeAll;
    WorkersContribute(workers, kind, key, add, val);
    var cs, k := AllContributions(Files(workers), val).value, EntryKey(key, None);
    CountersCommute(cs, kind);
    MergedMeaning(cs, k);
  }

  lemma CountersCommute(cs: seq<Contribution>, kind: MetricType)
    requires OfKind(cs, kind)
    ensures AllCommute(cs)
  {
  }

  // ----- making a worker -----

  /** A store in a new file. */
  method NewStore(pageSize: nat) returns (store: MmapMetricStore)
    requires 0 < pageSize <= U32_MAX
    ensures fresh(store) && fresh(store.mmap) && store.Valid() && store.pageSize == pageSize
    ensures store.Model() == map[] && store.log == []
  {
    NothingPublished(pageSize);
    var created, r := MmapMetricStore.Open([], pageSize, true, []);
    store := created;
  }

  lemma NothingPublished(pageSize: nat)
    requires 0 < pageSize <= U32_MAX
    ensures WellFormed(Prepared([], pageSize), []) && Contents([]) == map[]
  {
    hide WellFormed, EmptyImage;
    var b := Prepared([], pageSize);
    EmptyImageFormat(|b|);
    assert U32At([] + Zeros(PageAligned(HEADER_SIZE, pageSize).value), 4) == 0;
  }

  /** Whatever increments and restarts a worker performs on a new file, it ends as a worker in the sense
      of the law above. */
  method RunWorker(params: FileParams, kind: MetricType, pageSize: nat, ops: seq<Op>, add: (Bits, Bits) -> Bits)
    returns (store: MmapMetricStore, ghost w: Worker)
    requires 0 < pageSize <= U32_MAX && params.metricType == kind && kind != Gauge && params.mode == All
    requires forall op <- ops :: op.Increment? || op.Reopen?
    ensures fresh(store) && store.Valid() && store.mmap[..] == w.bytes
    ensures Done(w, kind, add) && w.params == params && Ops(w.calls) == ops
  {
    hide WellFormed, Contents, IndexOf, Replay, BehavesAsMap;
    var first := NewStore(pageSize);
    var last, calls, sizes := StoreRuns.Run(first, ops, add);
    store := last;
    w := Worker(params, calls, store.mmap[..], store.log);
    forall call | call in calls
      ensures call.op.Increment? || call.op.Reopen?
    {
      var i :| 0 <= i < |calls| && calls[i] == call;
      assert Ops(calls)[i] in ops;
    }
  }
}
