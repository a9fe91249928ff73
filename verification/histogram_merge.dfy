/** The histogram through the store and the merge: several histograms in one file, many workers. */
module HistogramMerge {
  import opened Bytes
  import opened SeqFacts
  import opened RawEntries
  import opened MetricLog
  import opened LogContents
  import opened Labels
  import opened MmapFile
  import opened StoreRuns
  import opened Merge
  import opened Aggregate
  import opened Conservation
  import opened HistogramMetric

  // ----- calls and increments -----

  lemma {:induction false} TotalOfSuccesses(calls: seq<Call>, key: StoredMetricKey, val: Bits -> real)
    ensures Total(calls, key, val) == SumSteps(Successes(calls), key, val)
  {
    hide SumSteps, Total, Successes;
    if calls == [] {
      NoSuccesses(key, val);
    } else {
      var n := |calls| - 1;
      var front, call := calls[..n], calls[n];
      TotalOfSuccesses(front, key, val);
      assert calls == front + [call];
      TotalMore(front, call, key, val);
      SuccessesMore(front, call, key, val);
    }
  }

  lemma NoSuccesses(key: StoredMetricKey, val: Bits -> real)
    ensures Total([], key, val) == SumSteps(Successes([]), key, val)
  {
  }

  lemma SuccessesMore(front: seq<Call>, call: Call, key: StoredMetricKey, val: Bits -> real)
    ensures SumSteps(Successes(front + [call]), key, val)
         == SumSteps(Successes(front), key, val)
          + if call.op.Increment? && call.answer.Ok? && call.op.key == key then val(call.op.amount) else 0.0
  {
    hide SumSteps, Successes;
    var more := if call.op.Increment? && call.answer.Ok? then [Step(call.op.key, call.op.amount)] else [];
    SuccessesSnoc(front, call);
    StepsConcat(Successes(front), more, key, val);
    SumOfOne(more, key, val);
  }

  // ----- several histograms in one file -----

  /** The increments that belong to one metric family. */
  function OfFamily(steps: seq<Step>, family: string): seq<Step> {
    if steps == [] then [] else
    var last := steps[|steps| - 1];
    OfFamily(steps[..|steps| - 1], family) + if last.key.family == family then [last] else []
  }

  /** The other families in a file do not matter to a key. */
  lemma {:induction false} OwnFamily(steps: seq<Step>, key: StoredMetricKey, val: Bits -> real)
    ensures SumSteps(OfFamily(steps, key.family), key, val) == SumSteps(steps, key, val)
  {
    if steps != [] {
      hide SumSteps;
      var n := |steps| - 1;
      var own := if steps[n].key.family == key.family then [steps[n]] else [];
      OwnFamily(steps[..n], key, val);
      StepsConcat(OfFamily(steps[..n], key.family), own, key, val);
      SumOfOne(own, key, val);
      assert steps == steps[..n] + [steps[n]];
      StepsConcat(steps[..n], [steps[n]], key, val);
      SumOfOne([steps[n]], key, val);
    }
  }

  lemma {:induction false} OfFamilyConcat(a: seq<Step>, b: seq<Step>, family: string)
    ensures OfFamily(a + b, family) == OfFamily(a, family) + OfFamily(b, family)
  {
    if b == [] {
      assert a + b == a;
    } else {
      var n := |b| - 1;
      OfFamilyConcat(a, b[..n], family);
      assert (a + b)[..|a| + n] == a + b[..n];
    }
  }

  lemma {:induction false} OneFamily(steps: seq<Step>, own: string, family: string)
    requires forall i | 0 <= i < |steps| :: steps[i].key.family == own
    ensures OfFamily(steps, family) == if own == family then steps else []
  {
    if steps != [] {
      OneFamily(steps[..|steps| - 1], own, family);
    }
  }

  /** One `observe` of some histogram, complete or cut off; nothing was done if its labels did not match. */
  datatype Job = Job(h: Config, a: Attempt)

  predicate ProperJob(job: Job, val: Bits -> real, format: Format) {
    && job.a.done <= |ObserveSteps(job.h, job.a.o, val, format)|
    && (job.a.done > 0 ==> WellLabelled(job.h, job.a.o.labels))
  }

  predicate ProperJobs(jobs: seq<Job>, val: Bits -> real, format: Format) {
    forall i | 0 <= i < |jobs| :: ProperJob(jobs[i], val, format)
  }

  function JobSteps(jobs: seq<Job>, val: Bits -> real, format: Format): seq<Step>
    requires ProperJobs(jobs, val, format)
  {
    if jobs == [] then [] else
    var last := jobs[|jobs| - 1];
    JobSteps(jobs[..|jobs| - 1], val, format) + ObserveSteps(last.h, last.a.o, val, format)[..last.a.done]
  }

  /** The run of one of the histograms. */
  function RunOf(h: Config, jobs: seq<Job>): seq<Attempt> {
    if jobs == [] then [] else
    var last := jobs[|jobs| - 1];
    RunOf(h, jobs[..|jobs| - 1]) + if last.h == h && last.a.done > 0 then [last.a] else []
  }

  /** No other histogram of the worker has the same family. */
  predicate OneConfig(h: Config, jobs: seq<Job>) {
    forall i | 0 <= i < |jobs| :: jobs[i].h.family == h.family ==> jobs[i].h == h
  }

  lemma StepFamily(h: Config, o: Observation, val: Bits -> real, format: Format, n: nat, family: string)
    requires n <= |ObserveSteps(h, o, val, format)|
    ensures OfFamily(ObserveSteps(h, o, val, format)[..n], family)
         == if h.family == family then ObserveSteps(h, o, val, format)[..n] else []
  {
    hide AllHits, Encoded;
    OneFamily(ObserveSteps(h, o, val, format)[..n], h.family, family);
  }

  /** Among the increments of all histograms in a file, those of one family are its own run. */
  lemma {:induction false} FamilyRun(h: Config, jobs: seq<Job>, val: Bits -> real, format: Format)
    requires ProperJobs(jobs, val, format) && OneConfig(h, jobs)
    ensures AllProper(h, RunOf(h, jobs), val, format)
    ensures OfFamily(JobSteps(jobs, val, format), h.family) == RunSteps(h, RunOf(h, jobs), val, format)
  {
    if jobs == [] {
      NoSteps(h, val, format);
    } else {
      hide ObserveSteps, OfFamily, AllProper, WellLabelled, RunSteps;
      var n := |jobs| - 1;
      var front, last := jobs[..n], jobs[n];
      FamilyRun(h, front, val, format);
      var part := ObserveSteps(last.h, last.a.o, val, format)[..last.a.done];
      OfFamilyConcat(JobSteps(front, val, format), part, h.family);
      StepFamily(last.h, last.a.o, val, format, last.a.done, h.family);
      if last.h == h && last.a.done > 0 {
        RunMore(h, RunOf(h, front), last.a, val, format);
      } else {
        assert last.h.family == h.family ==> part == [];
        assert RunOf(h, front) + [] == RunOf(h, front);
        assert OfFamily(JobSteps(front, val, format), h.family) + [] == OfFamily(JobSteps(front, val, format), h.family);
      }
    }
  }

  lemma {:induction false} ReplayConcat(m: Model, a: seq<Call>, b: seq<Call>, add: (Bits, Bits) -> Bits)
    ensures Replay(m, a + b, add) == Replay(Replay(m, a, add), b, add)
  {
    if b == [] {
      assert a + b == a;
    } else {
      var n := |b| - 1;
      ReplayConcat(m, a, b[..n], add);
      assert a + b == (a + b[..n]) + [b[n]];
      ReplayLast(m, a + b[..n], b[n], add);
    }
  }

  lemma {:induction false} SuccessesConcat(a: seq<Call>, b: seq<Call>)
    ensures Successes(a + b) == Successes(a) + Successes(b)
  {
    if b == [] {
      assert a + b == a;
    } else {
      var n := |b| - 1;
      SuccessesConcat(a, b[..n]);
      assert (a + b)[..|a| + n] == a + b[..n];
    }
  }

  /** `calls` on an empty store are exactly these jobs. */
  ghost predicate Work(calls: seq<Call>, jobs: seq<Job>, now: Model, add: (Bits, Bits) -> Bits, val: Bits -> real, format: Format) {
    && ProperJobs(jobs, val, format) && OnlyIncrements(calls)
    && Successes(calls) == JobSteps(jobs, val, format) && now == Replay(map[], calls, add)
  }

  lemma NoWork(add: (Bits, Bits) -> Bits, val: Bits -> real, format: Format)
    ensures Work([], [], map[], add, val, format)
  {
  }

  lemma MoreWork(calls: seq<Call>, jobs: seq<Job>, now: Model, job: Job, more: seq<Call>, next: Model,
                 add: (Bits, Bits) -> Bits, val: Bits -> real, format: Format)
    requires Work(calls, jobs, now, add, val, format) && ProperJob(job, val, format)
    requires Made(more, now, next, ObserveSteps(job.h, job.a.o, val, format), job.a.done, add)
    ensures Work(calls + more, jobs + [job], next, add, val, format)
  {
    hide Replay, Successes, ObserveSteps, ProperJob;
    ReplayConcat(map[], calls, more, add);
    SuccessesConcat(calls, more);
    assert (jobs + [job])[..|jobs|] == jobs;
  }

  /** A worker that serves requests for any histograms, all in one new file; a request that fails is
      cut off and the next one served. */
  method Serve(params: FileParams, pageSize: nat, requests: seq<(Config, Observation)>, add: (Bits, Bits) -> Bits,
               val: Bits -> real, format: Format, io: nat -> nat -> Io)
    returns (store: MmapMetricStore, ghost jobs: seq<Job>, ghost w: Worker)
    requires 0 < pageSize <= U32_MAX && params.metricType == Histogram && params.mode == All
    requires forall i | 0 <= i < |requests| :: NoDuplicates(Names(requests[i].1.labels))
    ensures fresh(store) && store.Valid() && store.mmap[..] == w.bytes
    ensures Done(w, Histogram, add) && w.params == params
    ensures |jobs| == |requests| && forall i | 0 <= i < |jobs| :: jobs[i].h == requests[i].0 && jobs[i].a.o == requests[i].1
    ensures forall h | OneConfig(h, jobs) ::
              && AllProper(h, RunOf(h, jobs), val, format)
              && OfFamily(Successes(w.calls), h.family) == RunSteps(h, RunOf(h, jobs), val, format)
  {
    hide WellFormed, IndexOf, Contents, Replay, ObserveSteps, Made, Work, LabelsMatch, Names, AllProper, RunSteps, OneConfig, NoDuplicates;
    store := NewStore(pageSize);
    ghost var calls: seq<Call> := [];
    jobs := [];
    NoWork(add, val, format);
    for i := 0 to |requests|
      invariant fresh(store) && fresh(store.mmap) && store.Valid()
      invariant |jobs| == i && forall k | 0 <= k < i :: jobs[k].h == requests[k].0 && jobs[k].a.o == requests[k].1
      invariant Work(calls, jobs, store.Model(), add, val, format)
    {
      var (h, o) := requests[i];
      ghost var before := store.Model();
      var ok;
      ghost var more, done;
      ok, more, done := Observe(store, h, o, add, val, format, io(i));
      DoneWithin(more, before, store.Model(), h, o, done, add, val, format);
      MoreWork(calls, jobs, before, Job(h, Attempt(o, done)), more, store.Model(), add, val, format);
      calls, jobs := calls + more, jobs + [Job(h, Attempt(o, done))];
    }
    w := Worker(params, calls, store.mmap[..], store.log);
    WorkIsDone(w, jobs, store.Model(), add, val, format);
  }

  lemma DoneWithin(calls: seq<Call>, m: Model, now: Model, h: Config, o: Observation, done: nat,
                   add: (Bits, Bits) -> Bits, val: Bits -> real, format: Format)
    requires Made(calls, m, now, ObserveSteps(h, o, val, format), done, add) && NoDuplicates(Names(o.labels))
    requires !LabelsMatch(h, o.labels) ==> done == 0
    ensures ProperJob(Job(h, Attempt(o, done)), val, format)
  {
    hide ObserveSteps;
  }

  lemma WorkIsDone(w: Worker, jobs: seq<Job>, now: Model, add: (Bits, Bits) -> Bits, val: Bits -> real, format: Format)
    requires Work(w.calls, jobs, now, add, val, format) && WellFormed(w.bytes, w.log) && Contents(w.log) == now
    requires w.params.metricType == Histogram && w.params.mode == All
    ensures Done(w, Histogram, add)
    ensures forall h | OneConfig(h, jobs) ::
              && AllProper(h, RunOf(h, jobs), val, format)
              && OfFamily(Successes(w.calls), h.family) == RunSteps(h, RunOf(h, jobs), val, format)
  {
    hide WellFormed, Contents, Replay, ProperJobs, OneConfig, AllProper, RunSteps, OfFamily, Successes, JobSteps;
    forall h | OneConfig(h, jobs)
      ensures AllProper(h, RunOf(h, jobs), val, format)
      ensures OfFamily(Successes(w.calls), h.family) == RunSteps(h, RunOf(h, jobs), val, format)
    {
      FamilyRun(h, jobs, val, format);
    }
  }

  // ----- merging -----

  /** Each worker has served one run of observations of this histogram; its file may hold others. */
  predicate Served(h: Config, workers: seq<Worker>, runs: seq<seq<Attempt>>, val: Bits -> real, format: Format) {
    && |workers| == |runs|
    && forall i | 0 <= i < |runs| ::
         AllProper(h, runs[i], val, format) && OfFamily(Successes(workers[i].calls), h.family) == RunSteps(h, runs[i], val, format)
  }

  function Joined(runs: seq<seq<Attempt>>): seq<Attempt> {
    if runs == [] then [] else Joined(runs[..|runs| - 1]) + runs[|runs| - 1]
  }

  lemma RunMore(h: Config, run: seq<Attempt>, last: Attempt, val: Bits -> real, format: Format)
    requires AllProper(h, run, val, format) && Proper(h, last, val, format)
    ensures AllProper(h, run + [last], val, format)
    ensures RunSteps(h, run + [last], val, format) == RunSteps(h, run, val, format) + ObserveSteps(h, last.o, val, format)[..last.done]
  {
  }

  lemma NoSteps(h: Config, val: Bits -> real, format: Format)
    ensures AllProper(h, [], val, format) && RunSteps(h, [], val, format) == []
  {
  }

  lemma FrontIsProper(h: Config, b: seq<Attempt>, val: Bits -> real, format: Format)
    requires b != [] && AllProper(h, b, val, format)
    ensures AllProper(h, b[..|b| - 1], val, format) && Proper(h, b[|b| - 1], val, format)
  {
  }

  lemma {:induction false} RunsConcat(h: Config, a: seq<Attempt>, b: seq<Attempt>, val: Bits -> real, format: Format)
    requires AllProper(h, a, val, format) && AllProper(h, b, val, format)
    ensures AllProper(h, a + b, val, format)
    ensures RunSteps(h, a + b, val, format) == RunSteps(h, a, val, format) + RunSteps(h, b, val, format)
  {
    hide AllProper, ObserveSteps, WellLabelled, RunSteps;
    if b == [] {
      NoSteps(h, val, format);
      assert a + b == a;
    } else {
      var n := |b| - 1;
      var front, last := b[..n], b[n];
      FrontIsProper(h, b, val, format);
      RunsConcat(h, a, front, val, format);
      assert b == front + [last];
      Assoc(a, front, [last]);
      RunMore(h, a + front, last, val, format);
      RunMore(h, front, last, val, format);
      Assoc(RunSteps(h, a, val, format), RunSteps(h, front, val, format), ObserveSteps(h, last.o, val, format)[..last.done]);
    }
  }

  lemma {:induction false} GrandTotalIsAfter(h: Config, workers: seq<Worker>, runs: seq<seq<Attempt>>, key: StoredMetricKey,
                                             val: Bits -> real, format: Format)
    requires Served(h, workers, runs, val, format) && key.family == h.family
    ensures AllProper(h, Joined(runs), val, format)
    ensures GrandTotal(workers, key, val) == After(h, Joined(runs), key, val, format)
  {
    hide AllProper, SumSteps, Total, Successes, RunSteps, OfFamily;
    if runs == [] {
      NothingAfter(h, val, format);
    } else {
      var n := |runs| - 1;
      GrandTotalIsAfter(h, workers[..n], runs[..n], key, val, format);
      RunsConcat(h, Joined(runs[..n]), runs[n], val, format);
      StepsConcat(RunSteps(h, Joined(runs[..n]), val, format), RunSteps(h, runs[n], val, format), key, val);
      TotalOfSuccesses(workers[n].calls, key, val);
      OwnFamily(Successes(workers[n].calls), key, val);
    }
  }

  /** A merged value; a series that no file has is zero. */
  function MergedValue(merged: Merged, key: StoredMetricKey): real {
    if EntryKey(key, None) in merged then merged[EntryKey(key, None)].value else 0.0
  }

  lemma MergedIsAfter(h: Config, workers: seq<Worker>, runs: seq<seq<Attempt>>, key: StoredMetricKey,
                      add: (Bits, Bits) -> Bits, val: Bits -> real, format: Format)
    requires AllDone(workers, Histogram, add, val) && Served(h, workers, runs, val, format) && key.family == h.family
    ensures AllProper(h, Joined(runs), val, format) && AllContributions(Files(workers), val).Ok?
    ensures MergedValue(MergeAll(AllContributions(Files(workers), val).value), key) == After(h, Joined(runs), key, val, format)
  {
    hide AllDone, Served, AllProper, After, AllContributions, MergeAll, GrandTotal, Incremented;
    GrandTotalIsAfter(h, workers, runs, key, val, format);
    Conserved(workers, Histogram, key, add, val);
  }

  /** Scraping the files of any number of workers between two calls of `observe`: every merged bucket
      counts all observations at or below its bound, buckets grow with the bound, and `+Inf` and the
      count both count everything. */
  lemma MergedHistogram(h: Config, workers: seq<Worker>, runs: seq<seq<Attempt>>, labels: seq<Label>, i: nat, j: nat,
                        add: (Bits, Bits) -> Bits, val: Bits -> real, format: Format)
    requires AllDone(workers, Histogram, add, val) && Served(h, workers, runs, val, format)
    requires Setting(h, labels, val, format) && i <= j < |h.buckets|
    requires AllComplete(h, Joined(runs), val, format)
    ensures AllContributions(Files(workers), val).Ok?
    ensures var merged, run := MergeAll(AllContributions(Files(workers), val).value), Joined(runs);
            var bi, bj := BucketKey(h, labels, format(h.buckets[i])), BucketKey(h, labels, format(h.buckets[j]));
            && MergedValue(merged, bj) == CountUpTo(run, labels, Some(h.buckets[j]), val) as real
            && MergedValue(merged, bi) <= MergedValue(merged, bj) <= MergedValue(merged, CountKey(h, labels))
            && MergedValue(merged, BucketKey(h, labels, "+Inf")) == MergedValue(merged, CountKey(h, labels))
            && MergedValue(merged, CountKey(h, labels)) == CountUpTo(run, labels, None, val) as real
            && MergedValue(merged, SumKey(h, labels)) == SumOf(run, labels, val)
  {
    hide AllDone, Served, AllProper, AllComplete, After, AllContributions, MergeAll, Encoded, MergedValue, CountUpTo,
      FormatTells, WellLabelled;
    var run := Joined(runs);
    MergedIsAfter(h, workers, runs, BucketKey(h, labels, format(h.buckets[i])), add, val, format);
    MergedIsAfter(h, workers, runs, BucketKey(h, labels, format(h.buckets[j])), add, val, format);
    MergedIsAfter(h, workers, runs, BucketKey(h, labels, "+Inf"), add, val, format);
    MergedIsAfter(h, workers, runs, CountKey(h, labels), add, val, format);
    MergedIsAfter(h, workers, runs, SumKey(h, labels), add, val, format);
    BucketsCount(h, run, labels, i, val, format);
    BucketsCount(h, run, labels, j, val, format);
    WiderBoundCountsMore(run, labels, h.buckets[i], h.buckets[j], val);
  }

  /** Scraping them at any other moment: still no merged bucket exceeds the merged count, and `+Inf`
      equals it if and only if no observation had been cut off behind its count. */
  lemma MergedAtEveryMoment(h: Config, workers: seq<Worker>, runs: seq<seq<Attempt>>, labels: seq<Label>, le: string,
                            add: (Bits, Bits) -> Bits, val: Bits -> real, format: Format)
    requires AllDone(workers, Histogram, add, val) && Served(h, workers, runs, val, format)
    requires Setting(h, labels, val, format)
    ensures AllContributions(Files(workers), val).Ok?
    ensures var merged := MergeAll(AllContributions(Files(workers), val).value);
            && MergedValue(merged, BucketKey(h, labels, le)) <= MergedValue(merged, CountKey(h, labels))
            && (MergedValue(merged, BucketKey(h, labels, "+Inf")) == MergedValue(merged, CountKey(h, labels))
                <==> CutOff(h, Joined(runs), labels, val, format) == 0)
  {
    hide AllDone, Served, AllProper, After, AllContributions, MergeAll, Encoded, MergedValue, FormatTells, WellLabelled;
    MergedIsAfter(h, workers, runs, BucketKey(h, labels, le), add, val, format);
    MergedIsAfter(h, workers, runs, BucketKey(h, labels, "+Inf"), add, val, format);
    MergedIsAfter(h, workers, runs, CountKey(h, labels), add, val, format);
    AtEveryMoment(h, Joined(runs), labels, le, val, format);
  }

  /** At any moment one merged bucket is at most a later one if and only if no more observations were cut
      off between the two than have values between them and had reached the later one. */
  lemma MergedCumulativeIff(h: Config, workers: seq<Worker>, runs: seq<seq<Attempt>>, labels: seq<Label>, i: nat, j: nat,
                            add: (Bits, Bits) -> Bits, val: Bits -> real, format: Format)
    requires AllDone(workers, Histogram, add, val) && Served(h, workers, runs, val, format)
    requires Setting(h, labels, val, format) && i < j < |h.buckets|
    ensures AllContributions(Files(workers), val).Ok?
    ensures var merged, run := MergeAll(AllContributions(Files(workers), val).value), Joined(runs);
            MergedValue(merged, BucketKey(h, labels, format(h.buckets[i]))) <= MergedValue(merged, BucketKey(h, labels, format(h.buckets[j])))
            <==> CountCutBetween(h, run, labels, i, j, val, format) <= CountOnlyUpper(h, run, labels, i, j, val, format)
  {
    hide AllDone, Served, AllProper, After, AllContributions, MergeAll, Encoded, MergedValue, FormatTells, WellLabelled,
      CountCutBetween, CountOnlyUpper;
    MergedIsAfter(h, workers, runs, BucketKey(h, labels, format(h.buckets[i])), add, val, format);
    MergedIsAfter(h, workers, runs, BucketKey(h, labels, format(h.buckets[j])), add, val, format);
    BucketsApart(h, Joined(runs), labels, i, j, val, format);
  }
}
