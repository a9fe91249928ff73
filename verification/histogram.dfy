/** The cumulative histogram of examples/lib.php on top of the metric store. */
module HistogramMetric {
  import opened Bytes
  import opened SeqFacts
  import opened RawEntries
  import opened MetricLog
  import opened LogContents
  import opened Ordering
  import opened Labels
  import opened Series
  import opened MmapFile
  import opened StoreRuns
  import opened Conservation

  // ----- bucket bounds -----

  /** A bound as the caller passes it. */
  datatype Bound = Number(value: real) | NotFinite | NotNumeric

  predicate RealLe(a: real, b: real) {
    a <= b
  }

  predicate Increasing(s: seq<real>) {
    forall i, j | 0 <= i < j < |s| :: s[i] < s[j]
  }

  /** `normalizeBuckets`: succeeds exactly on one or more finite numbers without repetition, and then
      has these numbers in increasing order. */
  method NormalizeBuckets(buckets: seq<Bound>) returns (r: Result<seq<real>>)
    ensures r.Ok? <==> buckets != [] && (forall b <- buckets :: b.Number?) && NoDuplicates(buckets)
    ensures r.Ok? ==> Increasing(r.value) && |r.value| == |buckets|
    ensures r.Ok? ==> forall x :: x in r.value <==> Number(x) in buckets
  {
    if buckets == [] { return Err(Io); }
    var normalized: seq<real> := [];
    for i := 0 to |buckets|
      invariant |normalized| == i
      invariant forall j | 0 <= j < i :: buckets[j] == Number(normalized[j])
    {
      assert buckets[i] in buckets;
      if buckets[i].NotNumeric? { return Err(Io); }
      if buckets[i].NotFinite? { return Err(Io); }
      normalized := normalized + [buckets[i].value];
    }
    var sorted := Sort(RealLe, normalized);
    SortSorted(RealLe, normalized);
    SortMultiset(RealLe, normalized);
    SameMultisetSameMembers(normalized, sorted);
    for i := 1 to |sorted|
      invariant forall j, k | 0 <= j < k < i :: sorted[j] < sorted[k]
    {
      if sorted[i - 1] >= sorted[i] {
        Repeated(normalized, sorted, i);
        assert !NoDuplicates(normalized);
        return Err(Io);
      }
    }
    SameMultisetNoDuplicates(sorted, normalized);
    r := Ok(sorted);
  }

  lemma Repeated(s: seq<real>, sorted: seq<real>, i: nat)
    requires multiset(s) == multiset(sorted) && 0 < i < |sorted| && sorted[i - 1] == sorted[i]
    ensures !NoDuplicates(s)
  {
    if NoDuplicates(s) {
      SameMultisetNoDuplicates(s, sorted);
    }
  }

  // ----- observing -----

  datatype Config = Config(family: string, labelNames: seq<string>, buckets: seq<real>) {
    /** What the constructor has checked. */
    predicate Valid() {
      && Increasing(buckets)
      && forall n <- labelNames :: IsLabelName(n) && n != "le"
    }
  }

  /** The float 1.0 as the store keeps it. */
  const ONE: Bits := [0, 0, 0, 0, 0, 0, 0xF0, 0x3F]

  function PowerOfTwo(e: int): real
    decreases if e < 0 then -e else e
  {
    if e == 0 then 1.0 else if e > 0 then 2.0 * PowerOfTwo(e - 1) else PowerOfTwo(e + 1) / 2.0
  }

  /** The number that eight bytes hold as a zero or a normal binary64 of IEEE 754 (section 3.4), least byte
      first. */
  function Double(b: Bits): real {
    var b0: int, b1: int, b2: int, b3: int, b4: int, b5: int, b6: int, b7: int := b[0], b[1], b[2], b[3], b[4], b[5], b[6], b[7];
    var exponent := b7 % 128 * 16 + b6 / 16;
    var fraction := b0 + 256 * (b1 + 256 * (b2 + 256 * (b3 + 256 * (b4 + 256 * (b5 + 256 * (b6 % 16))))));
    if exponent == 0 && fraction == 0 then 0.0 else
    (if b7 >= 128 then -1.0 else 1.0) * (1.0 + fraction as real / 4503599627370496.0) * PowerOfTwo(exponent - 1023)
  }

  lemma OneIsOne()
    ensures Double(ONE) == 1.0 && Double(ZERO) == 0.0
  {
    assert PowerOfTwo(0) == 1.0;
  }

  /** Bucket bounds as text; the code uses "%.15g". */
  type Format = real -> string

  function SumKey(h: Config, labels: seq<Label>): StoredMetricKey {
    StoredMetricKey(h.family, h.family + "_sum", Encoded(labels))
  }

  function CountKey(h: Config, labels: seq<Label>): StoredMetricKey {
    StoredMetricKey(h.family, h.family + "_count", Encoded(labels))
  }

  function BucketKey(h: Config, labels: seq<Label>, le: string): StoredMetricKey {
    StoredMetricKey(h.family, h.family + "_bucket", Encoded(labels + [Label("le", le)]))
  }

  /** A key as a page prints it. */
  function PrintedSeries(k: StoredMetricKey): string {
    SeriesText(k.sample, k.labels, None)
  }

  /** The series of a histogram, by their literal names, and how each reads back: sums under `_sum`, counts
      under `_count`, buckets under `_bucket` with the bound as the label `le`. */
  lemma SeriesNames(h: Config, labels: seq<Label>, le: string)
    requires IsMetricName(h.family) && ValidNames(labels)
    ensures SumKey(h, labels).family == CountKey(h, labels).family == BucketKey(h, labels, le).family == h.family
    ensures PrintedSeries(SumKey(h, labels)) == h.family + "_sum" + Encoded(labels)
    ensures PrintedSeries(CountKey(h, labels)) == h.family + "_count" + Encoded(labels)
    ensures PrintedSeries(BucketKey(h, labels, le)) == h.family + "_bucket" + Encoded(labels + [Label("le", le)])
    ensures ParseSeries(PrintedSeries(SumKey(h, labels))) == Some((h.family + "_sum", Sorted(labels)))
    ensures ParseSeries(PrintedSeries(CountKey(h, labels))) == Some((h.family + "_count", Sorted(labels)))
    ensures ParseSeries(PrintedSeries(BucketKey(h, labels, le))) == Some((h.family + "_bucket", Sorted(labels + [Label("le", le)])))
  {
    hide Encoded, Sorted, ParseSeries, IsLabelName;
    LeName();
    ReadsBack(h.family + "_sum", labels);
    ReadsBack(h.family + "_count", labels);
    ReadsBack(h.family + "_bucket", labels + [Label("le", le)]);
  }

  lemma ReadsBack(sample: string, labels: seq<Label>)
    requires IsMetricName(sample) && ValidNames(labels)
    ensures ParseSeries(SeriesText(sample, Encoded(labels), None)) == Some((sample, Sorted(labels)))
  {
    hide Encoded, Sorted, ParseSeries, IsMetricName, ValidNames;
    SeriesReadsBack(sample, labels, None);
    assert Sorted(labels) + [] == Sorted(labels);
  }

  /** A successful increment. */
  datatype Step = Step(key: StoredMetricKey, amount: Bits)

  datatype Observation = Observation(labels: seq<Label>, value: Bits)

  /** The bounds, as text, of those of the first `k` buckets that hold the value. */
  function Hits(h: Config, o: Observation, k: nat, val: Bits -> real, format: Format): seq<string>
    requires k <= |h.buckets|
  {
    if k == 0 then [] else
    Hits(h, o, k - 1, val, format) + if val(o.value) <= h.buckets[k - 1] then [format(h.buckets[k - 1])] else []
  }

  function BucketSteps(h: Config, labels: seq<Label>, les: seq<string>): (s: seq<Step>)
    ensures |s| == |les|
  {
    seq(|les|, i requires 0 <= i < |les| => Step(BucketKey(h, labels, les[i]), ONE))
  }

  function AllHits(h: Config, o: Observation, val: Bits -> real, format: Format): seq<string> {
    Hits(h, o, |h.buckets|, val, format) + ["+Inf"]
  }

  /** All increments of one `observe`: sum, count, the buckets that hold the value, `+Inf`. */
  function ObserveSteps(h: Config, o: Observation, val: Bits -> real, format: Format): seq<Step> {
    [Step(SumKey(h, o.labels), o.value), Step(CountKey(h, o.labels), ONE)]
    + BucketSteps(h, o.labels, AllHits(h, o, val, format))
  }

  function Names(labels: seq<Label>): (names: seq<string>)
    ensures |names| == |labels|
  {
    seq(|labels|, i requires 0 <= i < |labels| => labels[i].name)
  }

  /** The labels passed must be exactly those declared. */
  predicate LabelsMatch(h: Config, labels: seq<Label>) {
    multiset(Names(labels)) == multiset(h.labelNames)
  }

  /** The successful increments among the calls of a worker. */
  function Successes(calls: seq<Call>): seq<Step> {
    if calls == [] then [] else
    var call := calls[|calls| - 1];
    Successes(calls[..|calls| - 1])
    + if call.op.Increment? && call.answer.Ok? then [Step(call.op.key, call.op.amount)] else []
  }

  lemma SuccessesSnoc(calls: seq<Call>, call: Call)
    ensures Successes(calls + [call])
         == Successes(calls) + if call.op.Increment? && call.answer.Ok? then [Step(call.op.key, call.op.amount)] else []
    ensures OnlyIncrements(calls) && call.op.Increment? ==> OnlyIncrements(calls + [call])
  {
    assert (calls + [call])[..|calls|] == calls;
  }

  /** `calls` on a store that began as `m` have made exactly the first `k` increments of `all`. */
  ghost predicate Made(calls: seq<Call>, m: Model, now: Model, all: seq<Step>, k: nat, add: (Bits, Bits) -> Bits) {
    k <= |all| && OnlyIncrements(calls) && Successes(calls) == all[..k] && now == Replay(m, calls, add)
  }

  lemma MadeMore(calls: seq<Call>, m: Model, now: Model, all: seq<Step>, k: nat, add: (Bits, Bits) -> Bits, call: Call)
    requires Made(calls, m, now, all, k, add) && k < |all|
    requires call.op.Increment? && Step(call.op.key, call.op.amount) == all[k]
    ensures var next := if call.answer.Ok? then now[all[k].key := add(Read(now, all[k].key), all[k].amount)] else now;
            Made(calls + [call], m, next, all, if call.answer.Ok? then k + 1 else k, add)
  {
    hide Replay, Successes, OnlyIncrements;
    SuccessesSnoc(calls, call);
    ReplayLast(m, calls, call, add);
    Snoc(all, k);
    assert all[..k] + [] == all[..k];
  }

  /** Increment number `k` of `all`; a failure is an exception that ends `observe`. */
  method Bump(store: MmapMetricStore, s: Step, add: (Bits, Bits) -> Bits, io: Io,
              ghost calls: seq<Call>, ghost m: Model, ghost all: seq<Step>, ghost k: nat)
    returns (ok: bool, ghost more: seq<Call>)
    requires store.Valid() && Made(calls, m, store.Model(), all, k, add) && k < |all| && all[k] == s
    modifies store, store.mmap
    ensures store.Valid() && (store.mmap == old(store.mmap) || fresh(store.mmap))
    ensures Made(more, m, store.Model(), all, if ok then k + 1 else k, add)
  {
    hide WellFormed, IndexOf, Contents, Made, Resized, RoomFor;
    var r := store.Increment(s.key, s.amount, add, io);
    MadeMore(calls, m, old(store.Model()), all, k, add, Call(Increment(s.key, s.amount, io), r));
    ok, more := r.Ok?, calls + [Call(Increment(s.key, s.amount, io), r)];
  }

  /** The bucket loop of `observe`. */
  method BumpBuckets(store: MmapMetricStore, h: Config, o: Observation, add: (Bits, Bits) -> Bits, val: Bits -> real,
                     format: Format, io: nat -> Io, ghost before: seq<Call>, ghost m: Model)
    returns (ok: bool, ghost calls: seq<Call>, ghost done: nat)
    requires store.Valid() && Made(before, m, store.Model(), ObserveSteps(h, o, val, format), 2, add)
    modifies store, store.mmap
    ensures store.Valid() && (store.mmap == old(store.mmap) || fresh(store.mmap))
    ensures done < |ObserveSteps(h, o, val, format)| && (ok ==> done == |ObserveSteps(h, o, val, format)| - 1)
    ensures Made(calls, m, store.Model(), ObserveSteps(h, o, val, format), done, add)
  {
    hide WellFormed, IndexOf, Contents, Hits, ObserveSteps, BucketKey, Made;
    ghost var all := ObserveSteps(h, o, val, format);
    ok, calls, done := true, before, 2;
    StepsAt(h, o, val, format, 0);
    for i := 0 to |h.buckets|
      invariant store.Valid() && (store.mmap == old(store.mmap) || fresh(store.mmap))
      invariant ok && done == 2 + |Hits(h, o, i, val, format)| && done < |all|
      invariant Made(calls, m, store.Model(), all, done, add)
    {
      StepsAt(h, o, val, format, i);
      if val(o.value) <= h.buckets[i] {
        ok, calls := Bump(store, Step(BucketKey(h, o.labels, format(h.buckets[i])), ONE), add, io(2 + i), calls, m, all, done);
        if !ok { return false, calls, done; }
        done := done + 1;
      }
    }
  }

  /** `observe`: it completes, or stops at the first increment that fails; `done` increments were made. */
  method Observe(store: MmapMetricStore, h: Config, o: Observation, add: (Bits, Bits) -> Bits, val: Bits -> real,
                 format: Format, io: nat -> Io)
    returns (ok: bool, ghost calls: seq<Call>, ghost done: nat)
    requires store.Valid()
    modifies store, store.mmap
    ensures store.Valid() && (store.mmap == old(store.mmap) || fresh(store.mmap))
    ensures Made(calls, old(store.Model()), store.Model(), ObserveSteps(h, o, val, format), done, add)
    ensures ok <==> LabelsMatch(h, o.labels) && done == |ObserveSteps(h, o, val, format)|
    ensures !LabelsMatch(h, o.labels) ==> done == 0
  {
    hide WellFormed, IndexOf, Contents, Hits, ObserveSteps, SumKey, CountKey, BucketKey, LabelsMatch, Made;
    ghost var all, m := ObserveSteps(h, o, val, format), store.Model();
    calls, done := [], 0;
    NothingMade(m, all, add);
    StepsAt(h, o, val, format, 0);
    if !LabelsMatch(h, o.labels) { return false, calls, 0; }
    ok, calls := Bump(store, Step(SumKey(h, o.labels), o.value), add, io(0), calls, m, all, 0);
    if !ok { return false, calls, 0; }
    ok, calls := Bump(store, Step(CountKey(h, o.labels), ONE), add, io(1), calls, m, all, 1);
    if !ok { return false, calls, 1; }
    ok, calls, done := BumpBuckets(store, h, o, add, val, format, io, calls, m);
    if !ok { return; }
    ok, calls := Bump(store, Step(BucketKey(h, o.labels, "+Inf"), ONE), add, io(2 + |h.buckets|), calls, m, all, done);
    done := if ok then done + 1 else done;
  }

  lemma NothingMade(m: Model, all: seq<Step>, add: (Bits, Bits) -> Bits)
    ensures Made([], m, m, all, 0, add)
  {
  }

  lemma {:induction false} HitsGrow(h: Config, o: Observation, i: nat, k: nat, val: Bits -> real, format: Format)
    requires i <= k <= |h.buckets|
    ensures Hits(h, o, i, val, format) <= Hits(h, o, k, val, format)
    decreases k
  {
    if i < k {
      HitsGrow(h, o, i, k - 1, val, format);
    }
  }

  /** Where the increments of one `observe` stand. */
  lemma StepsAt(h: Config, o: Observation, val: Bits -> real, format: Format, i: nat)
    requires i <= |h.buckets|
    ensures var all := ObserveSteps(h, o, val, format);
            && all[0] == Step(SumKey(h, o.labels), o.value) && all[1] == Step(CountKey(h, o.labels), ONE)
            && all[|all| - 1] == Step(BucketKey(h, o.labels, "+Inf"), ONE)
            && |all| == 3 + |Hits(h, o, |h.buckets|, val, format)|
            && Hits(h, o, 0, val, format) == []
            && (i < |h.buckets| ==>
                  var at := 2 + |Hits(h, o, i, val, format)|;
                  if val(o.value) <= h.buckets[i] then
                    && at + 1 < |all| && all[at] == Step(BucketKey(h, o.labels, format(h.buckets[i])), ONE)
                    && |Hits(h, o, i + 1, val, format)| == at - 1
                  else |Hits(h, o, i + 1, val, format)| == at - 2)
  {
    hide Encoded;
    if i < |h.buckets| {
      HitsGrow(h, o, i + 1, |h.buckets|, val, format);
    }
  }

  // ----- which increment has which key -----

  /** Labels as a PHP array holds them, matching the declaration. */
  predicate WellLabelled(h: Config, labels: seq<Label>) {
    LabelsMatch(h, labels) && NoDuplicates(Names(labels))
  }

  /** Bounds are told apart by their text, also from the last bucket. */
  predicate FormatTells(h: Config, format: Format) {
    && (forall i | 0 <= i < |h.buckets| :: format(h.buckets[i]) != "+Inf")
    && (forall i, j | 0 <= i < j < |h.buckets| :: format(h.buckets[i]) != format(h.buckets[j]))
  }

  predicate SameLabels(a: seq<Label>, b: seq<Label>) {
    multiset(a) == multiset(b)
  }

  lemma LabelFacts(h: Config, labels: seq<Label>)
    requires h.Valid() && WellLabelled(h, labels)
    ensures forall l <- labels :: IsLabelName(l.name) && l.name != "le"
    ensures OneValuePerName(labels)
  {
    hide IsLabelName;
    SameMultisetSameMembers(Names(labels), h.labelNames);
    forall l | l in labels
      ensures IsLabelName(l.name) && l.name != "le"
    {
      var i :| 0 <= i < |labels| && labels[i] == l;
      assert Names(labels)[i] in Names(labels);
    }
    forall a, b | a in labels && b in labels && a.name == b.name
      ensures a == b
    {
      var i :| 0 <= i < |labels| && labels[i] == a;
      var j :| 0 <= j < |labels| && labels[j] == b;
      assert Names(labels)[i] == Names(labels)[j];
    }
  }

  lemma LeName()
    ensures IsLabelName("le")
  {
  }

  lemma WithLe(a: seq<Label>, x: string, b: seq<Label>, y: string)
    requires (forall l <- a :: l.name != "le") && (forall l <- b :: l.name != "le")
    ensures multiset(a + [Label("le", x)]) == multiset(b + [Label("le", y)]) <==> multiset(a) == multiset(b) && x == y
  {
    var lx, ly := Label("le", x), Label("le", y);
    MultisetConcat(a, [lx]);
    MultisetConcat(b, [ly]);
    if multiset(a + [lx]) == multiset(b + [ly]) {
      SameMultisetSameMembers(a + [lx], b + [ly]);
      assert lx in a + [lx];
      assert lx == ly;
      assert multiset(a) == multiset(a + [lx]) - multiset{lx};
      assert multiset(b) == multiset(b + [ly]) - multiset{lx};
    }
  }

  /** Two keys of one histogram are the same exactly for the same kind, labels and bound. */
  lemma KeyIdentity(h: Config, a: seq<Label>, x: string, b: seq<Label>, y: string)
    requires h.Valid() && WellLabelled(h, a) && WellLabelled(h, b)
    ensures BucketKey(h, a, x) == BucketKey(h, b, y) <==> SameLabels(a, b) && x == y
    ensures CountKey(h, a) == CountKey(h, b) <==> SameLabels(a, b)
    ensures SumKey(h, a) == SumKey(h, b) <==> SameLabels(a, b)
  {
    hide Encoded, IsLabelName;
    LabelFacts(h, a);
    LabelFacts(h, b);
    LeName();
    WithLe(a, x, b, y);
    TextIsIdentity(a, b);
    TextIsIdentity(a + [Label("le", x)], b + [Label("le", y)]);
  }

  lemma KindsDiffer(h: Config, a: seq<Label>, b: seq<Label>, le: string)
    ensures SumKey(h, a) != CountKey(h, b) && SumKey(h, a) != BucketKey(h, b, le) && CountKey(h, a) != BucketKey(h, b, le)
  {
    hide Encoded;
    assert |h.family + "_sum"| == |h.family| + 4 && |h.family + "_count"| == |h.family| + 6 && |h.family + "_bucket"| == |h.family| + 7;
  }

  /** A bucket is hit exactly if it holds the value, and no text stands twice. */
  lemma {:induction false} HitsMeaning(h: Config, o: Observation, k: nat, val: Bits -> real, format: Format)
    requires FormatTells(h, format) && k <= |h.buckets|
    ensures forall j | 0 <= j < |h.buckets| ::
              format(h.buckets[j]) in Hits(h, o, k, val, format) <==> j < k && val(o.value) <= h.buckets[j]
    ensures "+Inf" !in Hits(h, o, k, val, format)
    ensures NoDuplicates(Hits(h, o, k, val, format))
  {
    if k > 0 {
      HitsMeaning(h, o, k - 1, val, format);
    }
  }

  // ----- sums over steps -----

  function SumSteps(steps: seq<Step>, key: StoredMetricKey, val: Bits -> real): real {
    if steps == [] then 0.0 else
    var last := steps[|steps| - 1];
    SumSteps(steps[..|steps| - 1], key, val) + if last.key == key then val(last.amount) else 0.0
  }

  lemma {:induction false} StepsConcat(a: seq<Step>, b: seq<Step>, key: StoredMetricKey, val: Bits -> real)
    ensures SumSteps(a + b, key, val) == SumSteps(a, key, val) + SumSteps(b, key, val)
  {
    if b == [] {
      assert a + b == a;
    } else {
      var n := |b| - 1;
      StepsConcat(a, b[..n], key, val);
      assert (a + b)[..|a| + n] == a + b[..n];
    }
  }

  lemma SumOfOne(steps: seq<Step>, key: StoredMetricKey, val: Bits -> real)
    requires |steps| <= 1
    ensures SumSteps(steps, key, val) == if steps != [] && steps[0].key == key then val(steps[0].amount) else 0.0
  {
  }

  /** If a key stands at one place at most, the sum is what stands there. */
  lemma {:induction false} SumAtOnePlace(steps: seq<Step>, key: StoredMetricKey, at: int, n: nat, val: Bits -> real)
    requires n <= |steps| && forall i | 0 <= i < |steps| :: steps[i].key == key <==> i == at
    ensures SumSteps(steps[..n], key, val) == if 0 <= at < n then val(steps[at].amount) else 0.0
  {
    if n > 0 {
      SumAtOnePlace(steps, key, at, n - 1, val);
      Snoc(steps, n - 1);
    }
  }

  /** A valid histogram, labels of it, and a one that counts as one. */
  predicate Base(h: Config, labels: seq<Label>, val: Bits -> real) {
    h.Valid() && WellLabelled(h, labels) && val(ONE) == 1.0
  }

  /** The setting of most laws below: bounds are also told apart by their text. */
  predicate Setting(h: Config, labels: seq<Label>, val: Bits -> real, format: Format) {
    Base(h, labels, val) && FormatTells(h, format)
  }

  lemma CountPlace(h: Config, o: Observation, labels: seq<Label>, val: Bits -> real, format: Format, n: nat)
    requires Base(h, labels, val) && WellLabelled(h, o.labels) && n <= |ObserveSteps(h, o, val, format)|
    ensures var front := ObserveSteps(h, o, val, format)[..n];
            && SumSteps(front, CountKey(h, labels), val) == (if SameLabels(o.labels, labels) && n >= 2 then 1.0 else 0.0)
            && SumSteps(front, SumKey(h, labels), val) == (if SameLabels(o.labels, labels) && n >= 1 then val(o.value) else 0.0)
  {
    hide AllHits, SumKey, CountKey, BucketKey, Increasing, FormatTells, SameLabels;
    var all, same := ObserveSteps(h, o, val, format), SameLabels(o.labels, labels);
    KeyIdentity(h, o.labels, "", labels, "");
    forall i | 0 <= i < |all|
      ensures all[i].key == CountKey(h, labels) <==> i == if same then 1 else -1
      ensures all[i].key == SumKey(h, labels) <==> i == if same then 0 else -1
    {
      KindsDiffer(h, labels, o.labels, if i >= 2 then AllHits(h, o, val, format)[i - 2] else "");
      KindsDiffer(h, o.labels, labels, "");
    }
    SumAtOnePlace(all, CountKey(h, labels), if same then 1 else -1, n, val);
    SumAtOnePlace(all, SumKey(h, labels), if same then 0 else -1, n, val);
  }

  /** A bucket is incremented at most once per observation, where its text stands among the hits. */
  lemma BucketPlace(h: Config, o: Observation, labels: seq<Label>, val: Bits -> real, format: Format, le: string, n: nat)
    returns (at: int)
    requires Setting(h, labels, val, format) && WellLabelled(h, o.labels) && n <= |ObserveSteps(h, o, val, format)|
    ensures var les := AllHits(h, o, val, format);
            if SameLabels(o.labels, labels) && le in les then 2 <= at < 2 + |les| && les[at - 2] == le else at == -1
    ensures SumSteps(ObserveSteps(h, o, val, format)[..n], BucketKey(h, labels, le), val) == if 2 <= at < n then 1.0 else 0.0
  {
    hide Hits, SumKey, CountKey, BucketKey, Increasing, FormatTells, SameLabels;
    var all, les := ObserveSteps(h, o, val, format), AllHits(h, o, val, format);
    HitsMeaning(h, o, |h.buckets|, val, format);
    assert NoDuplicates(les);
    at := -1;
    if SameLabels(o.labels, labels) && le in les {
      var p :| 0 <= p < |les| && les[p] == le;
      at := p + 2;
    }
    forall i | 0 <= i < |all|
      ensures all[i].key == BucketKey(h, labels, le) <==> i == at
    {
      if i >= 2 {
        KeyIdentity(h, o.labels, les[i - 2], labels, le);
      } else {
        KindsDiffer(h, o.labels, labels, le);
      }
    }
    SumAtOnePlace(all, BucketKey(h, labels, le), at, n, val);
  }

  // ----- runs -----

  /** An `observe` that was cut off, or not, after `done` increments. */
  datatype Attempt = Attempt(o: Observation, done: nat)

  predicate Proper(h: Config, a: Attempt, val: Bits -> real, format: Format) {
    a.done <= |ObserveSteps(h, a.o, val, format)| && WellLabelled(h, a.o.labels)
  }

  predicate Complete(h: Config, a: Attempt, val: Bits -> real, format: Format) {
    a.done == |ObserveSteps(h, a.o, val, format)|
  }

  predicate AllProper(h: Config, run: seq<Attempt>, val: Bits -> real, format: Format) {
    forall a <- run :: Proper(h, a, val, format)
  }

  predicate AllComplete(h: Config, run: seq<Attempt>, val: Bits -> real, format: Format) {
    forall a <- run :: Complete(h, a, val, format)
  }

  function RunSteps(h: Config, run: seq<Attempt>, val: Bits -> real, format: Format): seq<Step>
    requires AllProper(h, run, val, format)
  {
    if run == [] then [] else
    var last := run[|run| - 1];
    assert last in run;
    RunSteps(h, run[..|run| - 1], val, format) + ObserveSteps(h, last.o, val, format)[..last.done]
  }

  /** Observations with the given labels, and at or below the bound if there is one. */
  function CountUpTo(run: seq<Attempt>, labels: seq<Label>, bound: Option<real>, val: Bits -> real): nat {
    if run == [] then 0 else
    var last := run[|run| - 1];
    CountUpTo(run[..|run| - 1], labels, bound, val)
    + if SameLabels(last.o.labels, labels) && (bound.None? || val(last.o.value) <= bound.value) then 1 else 0
  }

  function SumOf(run: seq<Attempt>, labels: seq<Label>, val: Bits -> real): real {
    if run == [] then 0.0 else
    var last := run[|run| - 1];
    SumOf(run[..|run| - 1], labels, val) + if SameLabels(last.o.labels, labels) then val(last.o.value) else 0.0
  }

  /** Observations that were counted but did not get as far as `+Inf`. */
  function CutOff(h: Config, run: seq<Attempt>, labels: seq<Label>, val: Bits -> real, format: Format): nat {
    if run == [] then 0 else
    var last := run[|run| - 1];
    CutOff(h, run[..|run| - 1], labels, val, format)
    + if SameLabels(last.o.labels, labels) && 2 <= last.done < |ObserveSteps(h, last.o, val, format)| then 1 else 0
  }

  /** The value a run leaves under a key. */
  function After(h: Config, run: seq<Attempt>, key: StoredMetricKey, val: Bits -> real, format: Format): real
    requires AllProper(h, run, val, format)
  {
    SumSteps(RunSteps(h, run, val, format), key, val)
  }

  lemma AfterMore(h: Config, run: seq<Attempt>, key: StoredMetricKey, val: Bits -> real, format: Format)
    requires run != [] && AllProper(h, run, val, format)
    ensures var n := |run| - 1;
            && AllProper(h, run[..n], val, format) && Proper(h, run[n], val, format)
            && After(h, run, key, val, format)
               == After(h, run[..n], key, val, format) + SumSteps(ObserveSteps(h, run[n].o, val, format)[..run[n].done], key, val)
  {
    hide ObserveSteps, SumSteps;
    var n := |run| - 1;
    assert run[n] in run;
    assert forall a <- run[..n] :: a in run;
    StepsConcat(RunSteps(h, run[..n], val, format), ObserveSteps(h, run[n].o, val, format)[..run[n].done], key, val);
  }

  /** After complete observations each bucket counts the values at or below its bound, `+Inf` and the
      count count all of them, and the sum is their sum. */
  lemma {:induction false} BucketsCount(h: Config, run: seq<Attempt>, labels: seq<Label>, j: nat, val: Bits -> real, format: Format)
    requires Setting(h, labels, val, format) && j < |h.buckets|
    requires AllProper(h, run, val, format) && AllComplete(h, run, val, format)
    ensures After(h, run, BucketKey(h, labels, format(h.buckets[j])), val, format) == CountUpTo(run, labels, Some(h.buckets[j]), val) as real
    ensures After(h, run, BucketKey(h, labels, "+Inf"), val, format) == CountUpTo(run, labels, None, val) as real
    ensures After(h, run, CountKey(h, labels), val, format) == CountUpTo(run, labels, None, val) as real
    ensures After(h, run, SumKey(h, labels), val, format) == SumOf(run, labels, val)
  {
    hide BucketKey, CountKey, SumKey, FormatTells, SameLabels, Increasing, WellLabelled, ObserveSteps, Setting, After;
    if run == [] {
      NothingAfter(h, val, format);
    } else {
      var n := |run| - 1;
      var front, last := run[..n], run[n];
      assert last in run;
      AfterMore(h, run, BucketKey(h, labels, format(h.buckets[j])), val, format);
      AfterMore(h, run, BucketKey(h, labels, "+Inf"), val, format);
      AfterMore(h, run, CountKey(h, labels), val, format);
      AfterMore(h, run, SumKey(h, labels), val, format);
      BucketsCount(h, front, labels, j, val, format);
      WholeObservation(h, last.o, labels, j, val, format);
      assert ObserveSteps(h, last.o, val, format)[..last.done] == ObserveSteps(h, last.o, val, format);
    }
  }

  lemma NothingAfter(h: Config, val: Bits -> real, format: Format)
    ensures AllProper(h, [], val, format)
    ensures forall key :: After(h, [], key, val, format) == 0.0
  {
  }

  lemma WholeObservation(h: Config, o: Observation, labels: seq<Label>, j: nat, val: Bits -> real, format: Format)
    requires Setting(h, labels, val, format) && WellLabelled(h, o.labels) && j < |h.buckets|
    ensures var all, same := ObserveSteps(h, o, val, format), SameLabels(o.labels, labels);
            && SumSteps(all, BucketKey(h, labels, format(h.buckets[j])), val) == (if same && val(o.value) <= h.buckets[j] then 1.0 else 0.0)
            && SumSteps(all, BucketKey(h, labels, "+Inf"), val) == (if same then 1.0 else 0.0)
            && SumSteps(all, CountKey(h, labels), val) == (if same then 1.0 else 0.0)
            && SumSteps(all, SumKey(h, labels), val) == (if same then val(o.value) else 0.0)
  {
    hide BucketKey, CountKey, SumKey, SameLabels, Increasing, WellLabelled, SumSteps, Hits;
    var all := ObserveSteps(h, o, val, format);
    assert all[..|all|] == all;
    HitsMeaning(h, o, |h.buckets|, val, format);
    var bucket := BucketPlace(h, o, labels, val, format, format(h.buckets[j]), |all|);
    var inf := BucketPlace(h, o, labels, val, format, "+Inf", |all|);
    CountPlace(h, o, labels, val, format, |all|);
  }

  lemma PartOfObservation(h: Config, o: Observation, labels: seq<Label>, le: string, n: nat, val: Bits -> real, format: Format)
    requires Setting(h, labels, val, format) && WellLabelled(h, o.labels) && n <= |ObserveSteps(h, o, val, format)|
    ensures var part := ObserveSteps(h, o, val, format)[..n];
            && 0.0 <= SumSteps(part, BucketKey(h, labels, le), val) <= SumSteps(part, CountKey(h, labels), val)
            && SumSteps(part, CountKey(h, labels), val) - SumSteps(part, BucketKey(h, labels, "+Inf"), val)
               == if SameLabels(o.labels, labels) && 2 <= n < |ObserveSteps(h, o, val, format)| then 1.0 else 0.0
  {
    hide BucketKey, CountKey, SumKey, SameLabels, Increasing, WellLabelled, SumSteps, Hits;
    HitsMeaning(h, o, |h.buckets|, val, format);
    var bucket := BucketPlace(h, o, labels, val, format, le, n);
    var inf := BucketPlace(h, o, labels, val, format, "+Inf", n);
    CountPlace(h, o, labels, val, format, n);
  }

  /** At every moment, also when observations are cut off anywhere, no bucket exceeds the count, and
      `+Inf` lags behind the count by exactly the observations that were cut off after counting. */
  lemma {:induction false} AtEveryMoment(h: Config, run: seq<Attempt>, labels: seq<Label>, le: string, val: Bits -> real, format: Format)
    requires Setting(h, labels, val, format) && AllProper(h, run, val, format)
    ensures 0.0 <= After(h, run, BucketKey(h, labels, le), val, format) <= After(h, run, CountKey(h, labels), val, format)
    ensures After(h, run, CountKey(h, labels), val, format) - After(h, run, BucketKey(h, labels, "+Inf"), val, format)
            == CutOff(h, run, labels, val, format) as real
  {
    hide BucketKey, CountKey, SumKey, FormatTells, SameLabels, Increasing, WellLabelled, ObserveSteps, Setting, After;
    if run == [] {
      NothingAfter(h, val, format);
    } else {
      var n := |run| - 1;
      var front, last := run[..n], run[n];
      AfterMore(h, run, BucketKey(h, labels, le), val, format);
      AfterMore(h, run, BucketKey(h, labels, "+Inf"), val, format);
      AfterMore(h, run, CountKey(h, labels), val, format);
      AtEveryMoment(h, front, labels, le, val, format);
      PartOfObservation(h, last.o, labels, le, last.done, val, format);
    }
  }

  lemma {:induction false} WiderBoundCountsMore(run: seq<Attempt>, labels: seq<Label>, a: real, b: real, val: Bits -> real)
    requires a <= b
    ensures CountUpTo(run, labels, Some(a), val) <= CountUpTo(run, labels, Some(b), val) <= CountUpTo(run, labels, None, val)
  {
    if run != [] {
      WiderBoundCountsMore(run[..|run| - 1], labels, a, b, val);
    }
  }

  // ----- when buckets are cumulative -----

  /** A bucket that holds the value has been incremented once as many increments are done as precede it. */
  lemma BucketReached(h: Config, o: Observation, labels: seq<Label>, j: nat, n: nat, val: Bits -> real, format: Format)
    requires Setting(h, labels, val, format) && WellLabelled(h, o.labels) && j < |h.buckets| && n <= |ObserveSteps(h, o, val, format)|
    ensures SumSteps(ObserveSteps(h, o, val, format)[..n], BucketKey(h, labels, format(h.buckets[j])), val)
         == if SameLabels(o.labels, labels) && val(o.value) <= h.buckets[j] && 2 + |Hits(h, o, j, val, format)| < n then 1.0 else 0.0
  {
    hide BucketKey, CountKey, SumKey, SameLabels, WellLabelled, SumSteps, ObserveSteps, FormatTells, Increasing;
    var at := BucketPlace(h, o, labels, val, format, format(h.buckets[j]), n);
    BucketStands(h, o, j, val, format);
  }

  lemma BucketStands(h: Config, o: Observation, j: nat, val: Bits -> real, format: Format)
    requires FormatTells(h, format) && j < |h.buckets|
    ensures var les, at := AllHits(h, o, val, format), |Hits(h, o, j, val, format)|;
            && (format(h.buckets[j]) in les <==> val(o.value) <= h.buckets[j])
            && forall i | 0 <= i < |les| && les[i] == format(h.buckets[j]) :: i == at
  {
    var n := |h.buckets|;
    HitsMeaning(h, o, n, val, format);
    HitsGrow(h, o, j + 1, n, val, format);
    var hits, les, le, at := Hits(h, o, n, val, format), AllHits(h, o, val, format), format(h.buckets[j]), |Hits(h, o, j, val, format)|;
    forall i | 0 <= i < |les| && les[i] == le
      ensures i == at
    {
      assert le != "+Inf" && i < |hits| && hits[i] == le;
      assert le in hits;
      assert hits[at] == le;
    }
  }

  /** The attempt has incremented the lower of two buckets and was cut off before the upper one. */
  predicate CutBetween(h: Config, a: Attempt, labels: seq<Label>, i: nat, j: nat, val: Bits -> real, format: Format)
    requires i < |h.buckets| && j < |h.buckets|
  {
    && SameLabels(a.o.labels, labels) && val(a.o.value) <= h.buckets[i]
    && 2 + |Hits(h, a.o, i, val, format)| < a.done <= 2 + |Hits(h, a.o, j, val, format)|
  }

  /** The value lies above the lower bucket and in the upper one, which was incremented. */
  predicate OnlyUpper(h: Config, a: Attempt, labels: seq<Label>, i: nat, j: nat, val: Bits -> real, format: Format)
    requires i < |h.buckets| && j < |h.buckets|
  {
    && SameLabels(a.o.labels, labels) && h.buckets[i] < val(a.o.value) <= h.buckets[j]
    && 2 + |Hits(h, a.o, j, val, format)| < a.done
  }

  function CountCutBetween(h: Config, run: seq<Attempt>, labels: seq<Label>, i: nat, j: nat, val: Bits -> real, format: Format): nat
    requires i < |h.buckets| && j < |h.buckets|
  {
    if run == [] then 0 else
    CountCutBetween(h, run[..|run| - 1], labels, i, j, val, format)
    + if CutBetween(h, run[|run| - 1], labels, i, j, val, format) then 1 else 0
  }

  function CountOnlyUpper(h: Config, run: seq<Attempt>, labels: seq<Label>, i: nat, j: nat, val: Bits -> real, format: Format): nat
    requires i < |h.buckets| && j < |h.buckets|
  {
    if run == [] then 0 else
    CountOnlyUpper(h, run[..|run| - 1], labels, i, j, val, format)
    + if OnlyUpper(h, run[|run| - 1], labels, i, j, val, format) then 1 else 0
  }

  lemma AttemptApart(h: Config, a: Attempt, labels: seq<Label>, i: nat, j: nat, val: Bits -> real, format: Format)
    requires Setting(h, labels, val, format) && Proper(h, a, val, format) && i < j < |h.buckets|
    ensures var part := ObserveSteps(h, a.o, val, format)[..a.done];
            SumSteps(part, BucketKey(h, labels, format(h.buckets[j])), val) - SumSteps(part, BucketKey(h, labels, format(h.buckets[i])), val)
            == (if OnlyUpper(h, a, labels, i, j, val, format) then 1.0 else 0.0) - (if CutBetween(h, a, labels, i, j, val, format) then 1.0 else 0.0)
  {
    hide BucketKey, CountKey, SumKey, SameLabels, WellLabelled, SumSteps, FormatTells, ObserveSteps, Hits;
    BucketReached(h, a.o, labels, i, a.done, val, format);
    BucketReached(h, a.o, labels, j, a.done, val, format);
    HitsGrow(h, a.o, i, j, val, format);
    assert h.buckets[i] < h.buckets[j];
  }

  /** At every moment two buckets differ by the values between them that have reached the upper one, less
      the observations cut off between the two. */
  lemma {:induction false} BucketsApart(h: Config, run: seq<Attempt>, labels: seq<Label>, i: nat, j: nat, val: Bits -> real, format: Format)
    requires Setting(h, labels, val, format) && AllProper(h, run, val, format) && i < j < |h.buckets|
    ensures After(h, run, BucketKey(h, labels, format(h.buckets[j])), val, format)
            - After(h, run, BucketKey(h, labels, format(h.buckets[i])), val, format)
         == CountOnlyUpper(h, run, labels, i, j, val, format) as real - CountCutBetween(h, run, labels, i, j, val, format) as real
  {
    hide BucketKey, Setting, SumSteps, ObserveSteps, After, Proper, OnlyUpper, CutBetween;
    if run == [] {
      NothingAfter(h, val, format);
    } else {
      AfterMore(h, run, BucketKey(h, labels, format(h.buckets[i])), val, format);
      AfterMore(h, run, BucketKey(h, labels, format(h.buckets[j])), val, format);
      BucketsApart(h, run[..|run| - 1], labels, i, j, val, format);
      AttemptApart(h, run[|run| - 1], labels, i, j, val, format);
    }
  }

  /** A scrape between two increments can see a bucket that is larger than the next one. */
  lemma NotYetCumulative(h: Config, o: Observation, val: Bits -> real, format: Format)
    requires |h.buckets| >= 2 && Setting(h, o.labels, val, format) && val(o.value) <= h.buckets[0]
    ensures var run := [Attempt(o, 3)];
            && AllProper(h, run, val, format)
            && After(h, run, BucketKey(h, o.labels, format(h.buckets[0])), val, format) == 1.0
            && After(h, run, BucketKey(h, o.labels, format(h.buckets[1])), val, format) == 0.0
  {
    hide BucketKey, WellLabelled, SumSteps, ObserveSteps, FormatTells, Increasing, After;
    StepsAt(h, o, val, format, 0);
    BucketReached(h, o, o.labels, 0, 3, val, format);
    BucketReached(h, o, o.labels, 1, 3, val, format);
    OneAttempt(h, o, 3, BucketKey(h, o.labels, format(h.buckets[0])), val, format);
    OneAttempt(h, o, 3, BucketKey(h, o.labels, format(h.buckets[1])), val, format);
  }

  /** An observation that was cut off behind the count is missing in `+Inf`. */
  lemma InfLags(h: Config, o: Observation, val: Bits -> real, format: Format)
    requires Setting(h, o.labels, val, format)
    ensures var run := [Attempt(o, 2)];
            && AllProper(h, run, val, format)
            && After(h, run, CountKey(h, o.labels), val, format) == 1.0
            && After(h, run, BucketKey(h, o.labels, "+Inf"), val, format) == 0.0
  {
    hide BucketKey, CountKey, SumKey, WellLabelled, SumSteps, ObserveSteps, FormatTells, Increasing, After;
    StepsAt(h, o, val, format, 0);
    CountPlace(h, o, o.labels, val, format, 2);
    PartOfObservation(h, o, o.labels, "+Inf", 2, val, format);
    OneAttempt(h, o, 2, CountKey(h, o.labels), val, format);
    OneAttempt(h, o, 2, BucketKey(h, o.labels, "+Inf"), val, format);
  }

  lemma OneAttempt(h: Config, o: Observation, n: nat, key: StoredMetricKey, val: Bits -> real, format: Format)
    requires WellLabelled(h, o.labels) && n <= |ObserveSteps(h, o, val, format)|
    ensures AllProper(h, [Attempt(o, n)], val, format)
    ensures After(h, [Attempt(o, n)], key, val, format) == SumSteps(ObserveSteps(h, o, val, format)[..n], key, val)
  {
    hide SumSteps, ObserveSteps, WellLabelled, After;
    var run := [Attempt(o, n)];
    NothingAfter(h, val, format);
    assert run[..0] == [];
    assert AllProper(h, run, val, format);
    AfterMore(h, run, key, val, format);
  }

  // ----- what the format must tell -----

  /** Whatever has the text `le`, an observation does not increment it beyond the count. */
  predicate WithinCount(h: Config, o: Observation, le: string, val: Bits -> real, format: Format) {
    SumSteps(ObserveSteps(h, o, val, format), BucketKey(h, o.labels, le), val)
    <= SumSteps(ObserveSteps(h, o, val, format), CountKey(h, o.labels), val)
  }

  ghost predicate NoBucketExceeds(h: Config, val: Bits -> real, format: Format) {
    forall o: Observation, le: string | WellLabelled(h, o.labels) :: WithinCount(h, o, le, val, format)
  }

  function Places(steps: seq<Step>, key: StoredMetricKey): nat {
    if steps == [] then 0
    else Places(steps[..|steps| - 1], key) + if steps[|steps| - 1].key == key then 1 else 0
  }

  lemma {:induction false} SumIsPlaces(steps: seq<Step>, key: StoredMetricKey, val: Bits -> real)
    requires val(ONE) == 1.0 && forall i | 0 <= i < |steps| && steps[i].key == key :: steps[i].amount == ONE
    ensures SumSteps(steps, key, val) == Places(steps, key) as real
  {
    if steps != [] {
      SumIsPlaces(steps[..|steps| - 1], key, val);
    }
  }

  lemma {:induction false} TwoPlaces(steps: seq<Step>, key: StoredMetricKey, i: nat, j: nat)
    requires i < j < |steps| && steps[i].key == key && steps[j].key == key
    ensures Places(steps, key) >= 2
  {
    var n := |steps| - 1;
    if j < n {
      TwoPlaces(steps[..n], key, i, j);
    } else {
      OnePlace(steps[..n], key, i);
    }
  }

  lemma {:induction false} OnePlace(steps: seq<Step>, key: StoredMetricKey, i: nat)
    requires i < |steps| && steps[i].key == key
    ensures Places(steps, key) >= 1
  {
    if i < |steps| - 1 {
      OnePlace(steps[..|steps| - 1], key, i);
    }
  }

  lemma {:induction false} AllHit(h: Config, o: Observation, k: nat, val: Bits -> real, format: Format)
    requires k <= |h.buckets| && forall i | 0 <= i < k :: val(o.value) <= h.buckets[i]
    ensures var hits := Hits(h, o, k, val, format); |hits| == k && forall i | 0 <= i < k :: hits[i] == format(h.buckets[i])
  {
    if k > 0 {
      AllHit(h, o, k - 1, val, format);
    }
  }

  /** Two increments of an observation with one text make their bucket exceed the count. */
  lemma SameTextCountsTwice(h: Config, o: Observation, i: nat, j: nat, val: Bits -> real, format: Format)
    requires Base(h, o.labels, val)
    requires var les := AllHits(h, o, val, format); i < j < |les| && les[i] == les[j]
    ensures !WithinCount(h, o, AllHits(h, o, val, format)[i], val, format)
  {
    hide AllHits, SumKey, CountKey, BucketKey, SumSteps, WellLabelled;
    var all, les := ObserveSteps(h, o, val, format), AllHits(h, o, val, format);
    var key := BucketKey(h, o.labels, les[i]);
    KindsDiffer(h, o.labels, o.labels, les[i]);
    assert all[i + 2].key == key && all[j + 2].key == key;
    SumIsPlaces(all, key, val);
    TwoPlaces(all, key, i + 2, j + 2);
    assert all[..|all|] == all;
    CountPlace(h, o, o.labels, val, format, |all|);
  }

  /** The condition on the format is exact: no bucket ever exceeds the count if and only if the bounds
      are told apart by their text, also from "+Inf".  `v` is a value in all buckets. */
  lemma FormatTellsIff(h: Config, labels: seq<Label>, v: Bits, val: Bits -> real, format: Format)
    requires Base(h, labels, val) && forall k | 0 <= k < |h.buckets| :: val(v) <= h.buckets[k]
    ensures FormatTells(h, format) <==> NoBucketExceeds(h, val, format)
  {
    hide WithinCount, WellLabelled, FormatTells;
    if FormatTells(h, format) {
      forall o: Observation, le: string | WellLabelled(h, o.labels)
        ensures WithinCount(h, o, le, val, format)
      {
        WithinCountHolds(h, o, le, val, format);
      }
    } else {
      var o := Observation(labels, v);
      var i, j := TextTwice(h, o, val, format);
      SameTextCountsTwice(h, o, i, j, val, format);
    }
  }

  lemma WithinCountHolds(h: Config, o: Observation, le: string, val: Bits -> real, format: Format)
    requires Setting(h, o.labels, val, format)
    ensures WithinCount(h, o, le, val, format)
  {
    hide SumSteps, BucketKey, CountKey, ObserveSteps, WellLabelled, FormatTells;
    var all := ObserveSteps(h, o, val, format);
    assert all[..|all|] == all;
    PartOfObservation(h, o, o.labels, le, |all|, val, format);
  }

  lemma TextTwice(h: Config, o: Observation, val: Bits -> real, format: Format) returns (i: nat, j: nat)
    requires !FormatTells(h, format) && forall k | 0 <= k < |h.buckets| :: val(o.value) <= h.buckets[k]
    ensures var les := AllHits(h, o, val, format); i < j < |les| && les[i] == les[j]
  {
    var n := |h.buckets|;
    AllHit(h, o, n, val, format);
    if p :| 0 <= p < n && format(h.buckets[p]) == "+Inf" {
      i, j := p, n;
    } else {
      i, j :| 0 <= i < j < n && format(h.buckets[i]) == format(h.buckets[j]);
    }
  }
}
