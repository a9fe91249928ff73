/** Merging samples of many files into one map (`merge_meta` and the entry API around it, in
    src/aggregate.rs and src/exporter.rs).

    Values are reals here: the order in which files are visited is not fixed, and only exact addition
    makes that harmless. */
module Merge {
  import opened Bytes
  import opened SeqFacts
  import opened MetricLog

  datatype MetricType = Counter | Gauge | Histogram | Summary

  datatype MultiprocessMode = Min | Max | Livesum | All | Liveall

  datatype EntryKey = EntryKey(metric: StoredMetricKey, pid: Option<string>)

  datatype EntryMeta = EntryMeta(mode: MultiprocessMode, metricType: MetricType, value: real)

  datatype Contribution = Contribution(key: EntryKey, meta: EntryMeta)

  type Merged = map<EntryKey, EntryMeta>

  /** An `all` or `liveall` gauge: it is kept per process, and a later sample replaces an earlier one. */
  predicate IsPidSignificant(metricType: MetricType, mode: MultiprocessMode) {
    metricType == Gauge && !(mode.Min? || mode.Max? || mode.Livesum?)
  }

  function MergeMeta(current: EntryMeta, incoming: EntryMeta): EntryMeta {
    if incoming.metricType == Gauge then
      match incoming.mode
      case Min => current.(value := if incoming.value < current.value then incoming.value else current.value)
      case Max => current.(value := if incoming.value > current.value then incoming.value else current.value)
      case Livesum => current.(value := current.value + incoming.value)
      case All => current.(value := incoming.value)
      case Liveall => current.(value := incoming.value)
    else current.(value := current.value + incoming.value)
  }

  /** `entry(key).and_modify(merge_meta).or_insert(incoming)`. */
  function MergeOne(m: Merged, c: Contribution): Merged {
    if c.key in m then m[c.key := MergeMeta(m[c.key], c.meta)] else m[c.key := c.meta]
  }

  function MergeInto(m: Merged, cs: seq<Contribution>): Merged {
    if cs == [] then m else MergeOne(MergeInto(m, cs[..|cs| - 1]), cs[|cs| - 1])
  }

  function MergeAll(cs: seq<Contribution>): Merged {
    MergeInto(map[], cs)
  }

  lemma MergeSnoc(m: Merged, cs: seq<Contribution>, c: Contribution)
    ensures MergeInto(m, cs + [c]) == MergeOne(MergeInto(m, cs), c)
  {
    assert (cs + [c])[..|cs|] == cs;
  }

  lemma {:induction false} MergeConcat(m: Merged, a: seq<Contribution>, b: seq<Contribution>)
    ensures MergeInto(m, a + b) == MergeInto(MergeInto(m, a), b)
  {
    if b == [] {
      assert a + b == a;
    } else {
      var n := |b| - 1;
      MergeConcat(m, a, b[..n]);
      assert a + b == (a + b[..n]) + [b[n]];
      MergeSnoc(m, a + b[..n], b[n]);
    }
  }

  // ----- order independence -----

  /** Two samples that may be merged in either order: different keys, or the same type and mode and, if
      the last one wins, the same value. */
  predicate Commutes(a: Contribution, b: Contribution) {
    a.key == b.key ==>
      && a.meta.mode == b.meta.mode
      && a.meta.metricType == b.meta.metricType
      && (IsPidSignificant(a.meta.metricType, a.meta.mode) ==> a.meta.value == b.meta.value)
  }

  predicate AllCommute(cs: seq<Contribution>) {
    forall a <- cs, b <- cs :: Commutes(a, b)
  }

  lemma SwapTwo(m: Merged, a: Contribution, b: Contribution)
    requires Commutes(a, b)
    ensures MergeOne(MergeOne(m, a), b) == MergeOne(MergeOne(m, b), a)
  {
    if a.key != b.key {
      assert MergeOne(MergeOne(m, a), b) == MergeOne(MergeOne(m, b), a);
    }
  }

  lemma {:induction false} MoveToEnd(m: Merged, c: Contribution, b: seq<Contribution>)
    requires forall x <- b :: Commutes(c, x)
    ensures MergeInto(MergeOne(m, c), b) == MergeOne(MergeInto(m, b), c)
  {
    if b != [] {
      var n := |b| - 1;
      MoveToEnd(m, c, b[..n]);
      SwapTwo(MergeInto(m, b[..n]), c, b[n]);
    }
  }

  /** If every two samples commute, every order of visiting them gives the same map. */
  lemma {:induction false} OrderIndependent(cs: seq<Contribution>, ds: seq<Contribution>)
    requires multiset(cs) == multiset(ds) && AllCommute(ds)
    ensures MergeAll(cs) == MergeAll(ds)
  {
    hide Commutes, MergeOne;
    SameMultisetSameMembers(cs, ds);
    if cs != [] {
      var n := |cs| - 1;
      var c := cs[n];
      assert c in ds;
      var i :| 0 <= i < |ds| && ds[i] == c;
      RemoveAtMultiset(ds, i);
      RemoveAtMultiset(cs, n);
      assert cs[..n] + cs[n + 1..] == cs[..n];
      OrderIndependent(cs[..n], RemoveAt(ds, i));
      MergeRemoved(ds, i);
    }
  }

  /** Taking one sample out and merging it last changes nothing. */
  lemma MergeRemoved(ds: seq<Contribution>, i: nat)
    requires i < |ds| && AllCommute(ds)
    ensures MergeAll(ds) == MergeOne(MergeAll(RemoveAt(ds, i)), ds[i])
  {
    hide Commutes, MergeOne;
    Cut(ds, i);
    MergeConcat(map[], ds[..i + 1], ds[i + 1..]);
    MergeSnoc(map[], ds[..i], ds[i]);
    MoveToEnd(MergeInto(map[], ds[..i]), ds[i], ds[i + 1..]);
    MergeConcat(map[], ds[..i], ds[i + 1..]);
  }

  /** A key that is in the map stays, with its type and mode. */
  lemma {:induction false} KeepsMeta(m: Merged, cs: seq<Contribution>, k: EntryKey)
    requires k in m
    ensures var r := MergeInto(m, cs); k in r && r[k].mode == m[k].mode && r[k].metricType == m[k].metricType
  {
    if cs != [] {
      KeepsMeta(m, cs[..|cs| - 1], k);
    }
  }

  /** Samples of other keys do not touch a key. */
  lemma {:induction false} Untouched(m: Merged, cs: seq<Contribution>, k: EntryKey)
    requires !Mentions(cs, k)
    ensures var r := MergeInto(m, cs); (k in r <==> k in m) && (k in m ==> r[k] == m[k])
  {
    if cs != [] {
      var n := |cs| - 1;
      assert cs == cs[..n] + [cs[n]];
      MentionsSnoc(cs[..n], cs[n], k);
      Untouched(m, cs[..n], k);
    }
  }

  /** The first sample of a key fixes the type and mode reported for it. */
  lemma FirstFixesMeta(c: Contribution, rest: seq<Contribution>)
    ensures var merged := MergeAll([c] + rest);
            c.key in merged && merged[c.key].mode == c.meta.mode && merged[c.key].metricType == c.meta.metricType
  {
    MergeConcat(map[], [c], rest);
    MergeSnoc(map[], [], c);
    assert [] + [c] == [c];
    KeepsMeta(MergeAll([c]), rest, c.key);
  }

  /** What some samples make of a key that only the `i`-th of them has: a new key gets its type and mode,
      and a value that is replaced becomes its value. */
  lemma OnlySample(m: Merged, cs: seq<Contribution>, i: nat)
    requires i < |cs| && forall j | 0 <= j < |cs| && j != i :: cs[j].key != cs[i].key
    ensures var r, c := MergeInto(m, cs), cs[i];
            && c.key in r
            && (c.key !in m ==> r[c.key] == c.meta)
            && (c.key in m ==> r[c.key] == MergeMeta(m[c.key], c.meta))
  {
    hide MergeMeta;
    var c := cs[i];
    Cut(cs, i);
    MergeConcat(m, cs[..i + 1], cs[i + 1..]);
    MergeSnoc(m, cs[..i], c);
    Untouched(m, cs[..i], c.key);
    Untouched(MergeInto(m, cs[..i + 1]), cs[i + 1..], c.key);
  }

  // ----- what the merged values are -----

  predicate Sums(m: EntryMeta) {
    m.metricType != Gauge || m.mode == Livesum
  }

  function SumFor(cs: seq<Contribution>, k: EntryKey): real {
    if cs == [] then 0.0
    else SumFor(cs[..|cs| - 1], k) + if cs[|cs| - 1].key == k then cs[|cs| - 1].meta.value else 0.0
  }

  predicate Mentions(cs: seq<Contribution>, k: EntryKey) {
    exists c <- cs :: c.key == k
  }

  /** The merged value `v` of key `k`: the sum, the least, the greatest, or the one value there is. */
  predicate Summarises(cs: seq<Contribution>, k: EntryKey, v: EntryMeta) {
    && (Sums(v) ==> v.value == SumFor(cs, k))
    && (v.metricType == Gauge && v.mode == Min ==>
          && (forall c <- cs :: c.key == k ==> v.value <= c.meta.value)
          && exists c <- cs :: c.key == k && c.meta.value == v.value)
    && (v.metricType == Gauge && v.mode == Max ==>
          && (forall c <- cs :: c.key == k ==> v.value >= c.meta.value)
          && exists c <- cs :: c.key == k && c.meta.value == v.value)
    && (IsPidSignificant(v.metricType, v.mode) ==> forall c <- cs :: c.key == k ==> c.meta.value == v.value)
  }

  /** Every sample of key `k` has the reported type and mode. */
  predicate SameKind(cs: seq<Contribution>, k: EntryKey, v: EntryMeta) {
    forall c <- cs :: c.key == k ==> c.meta.mode == v.mode && c.meta.metricType == v.metricType
  }

  /** The merged map has exactly the keys of the samples, and each value summarises its samples. */
  lemma {:induction false} MergedMeaning(cs: seq<Contribution>, k: EntryKey)
    requires AllCommute(cs)
    ensures k in MergeAll(cs) <==> Mentions(cs, k)
    ensures !Mentions(cs, k) ==> SumFor(cs, k) == 0.0
    ensures k in MergeAll(cs) ==> Summarises(cs, k, MergeAll(cs)[k]) && SameKind(cs, k, MergeAll(cs)[k])
  {
    if cs != [] {
      hide Summarises, MergeMeta;
      var n := |cs| - 1;
      var front, c := cs[..n], cs[n];
      assert cs == front + [c];
      assert forall x <- front :: x in cs;
      MergedMeaning(front, k);
      MentionsSnoc(front, c, k);
      if c.key != k {
        if Mentions(front, k) {
          SameMeaning(front, c, k, MergeAll(front)[k]);
        }
      } else if Mentions(front, k) {
        StepMeaning(front, c, MergeAll(front)[k]);
      } else {
        FirstMeaning(front, c);
      }
    }
  }

  lemma MentionsSnoc(front: seq<Contribution>, c: Contribution, k: EntryKey)
    ensures Mentions(front + [c], k) <==> Mentions(front, k) || c.key == k
    ensures SumFor(front + [c], k) == SumFor(front, k) + if c.key == k then c.meta.value else 0.0
  {
    assert (front + [c])[..|front|] == front;
    assert c in front + [c];
    assert forall x <- front :: x in front + [c];
  }

  lemma SameMeaning(front: seq<Contribution>, c: Contribution, k: EntryKey, v: EntryMeta)
    requires c.key != k && Summarises(front, k, v) && SameKind(front, k, v)
    ensures Summarises(front + [c], k, v) && SameKind(front + [c], k, v)
  {
    MentionsSnoc(front, c, k);
    assert forall x <- front :: x in front + [c];
  }

  lemma FirstMeaning(front: seq<Contribution>, c: Contribution)
    requires !Mentions(front, c.key) && SumFor(front, c.key) == 0.0
    ensures Summarises(front + [c], c.key, c.meta) && SameKind(front + [c], c.key, c.meta)
  {
    MentionsSnoc(front, c, c.key);
    assert c in front + [c];
  }

  lemma StepMeaning(front: seq<Contribution>, c: Contribution, v: EntryMeta)
    requires AllCommute(front + [c]) && Mentions(front, c.key)
    requires Summarises(front, c.key, v) && SameKind(front, c.key, v)
    ensures Summarises(front + [c], c.key, MergeMeta(v, c.meta)) && SameKind(front + [c], c.key, MergeMeta(v, c.meta))
  {
    var cs := front + [c];
    MentionsSnoc(front, c, c.key);
    assert c in cs;
    var x :| x in front && x.key == c.key;
    assert x in cs && Commutes(x, c);
    forall y | y in front && y.key == c.key
      ensures y in cs && (IsPidSignificant(c.meta.metricType, c.meta.mode) ==> y.meta.value == c.meta.value)
    {
      assert y in cs && Commutes(y, c);
    }
    if c.meta.metricType == Gauge && (c.meta.mode == Min || c.meta.mode == Max) {
      var z :| z in front && z.key == c.key && z.meta.value == v.value;
      assert z in cs;
    }
  }
}
