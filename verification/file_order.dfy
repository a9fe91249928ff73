/** When the merged map depends on the order in which files are visited. */
module FileOrder {
  import opened Bytes
  import opened SeqFacts
  import opened RawEntries
  import opened MetricLog
  import opened WriterProtocol
  import opened MmapFile
  import opened LogScan
  import opened Utf8Text
  import opened Merge
  import opened Aggregate
  import opened FileName
  import opened Agreement

  /** Every order of the files gives the same merged map. */
  ghost predicate AnyOrder(w: World, found: seq<FileParams>, val: Bits -> real) {
    forall other | multiset(other) == multiset(found) ::
      MergeAll(PublishedIn(w, other, val)) == MergeAll(PublishedIn(w, found, val))
  }

  lemma {:induction false} PublishedConcat(w: World, a: seq<FileParams>, b: seq<FileParams>, val: Bits -> real)
    ensures PublishedIn(w, a + b, val) == PublishedIn(w, a, val) + PublishedIn(w, b, val)
  {
    if b == [] {
      assert a + b == a;
    } else {
      hide PublishedIn, SamplesOf;
      var n := |b| - 1;
      PublishedConcat(w, a, b[..n], val);
      assert b == b[..n] + [b[n]];
      Assoc(a, b[..n], [b[n]]);
      PublishedSnoc(w, a + b[..n], b[n], val);
      PublishedSnoc(w, b[..n], b[n], val);
      Assoc(PublishedIn(w, a, val), PublishedIn(w, b[..n], val), SamplesOf(w, b[n], val));
    }
  }

  lemma PublishedOne(w: World, f: FileParams, val: Bits -> real)
    ensures PublishedIn(w, [f], val) == SamplesOf(w, f, val)
  {
    hide Contributions, LogSamples, PublishedAt;
    assert [f][..0] == [];
    assert [] + SamplesOf(w, f, val) == SamplesOf(w, f, val);
  }

  /** A file holds a key once. */
  lemma OncePerFile(w: World, f: FileParams, val: Bits -> real, i: nat, j: nat)
    requires WorldInv(w) && i < |SamplesOf(w, f, val)| && j < |SamplesOf(w, f, val)|
    requires SamplesOf(w, f, val)[i].key == SamplesOf(w, f, val)[j].key
    ensures i == j
  {
    hide Inv;
    LogDistinct(w.inodes[w.names[f.path]]);
  }

  /** Of two files with a sample `a` and `b` of one key, the one visited first fixes type and mode. */
  lemma FirstFile(w: World, f: FileParams, rest: seq<FileParams>, val: Bits -> real, a: Contribution)
    requires WorldInv(w) && a in SamplesOf(w, f, val)
    ensures var merged := MergeAll(PublishedIn(w, [f] + rest, val));
            a.key in merged && merged[a.key].mode == a.meta.mode && merged[a.key].metricType == a.meta.metricType
  {
    hide SamplesOf, PublishedIn, WorldInv, MergeInto;
    var cs := SamplesOf(w, f, val);
    var i :| 0 <= i < |cs| && cs[i] == a;
    forall j | 0 <= j < |cs| && j != i
      ensures cs[j].key != cs[i].key
    {
      if cs[j].key == cs[i].key {
        OncePerFile(w, f, val, i, j);
      }
    }
    PublishedConcat(w, [f], rest, val);
    PublishedOne(w, f, val);
    MergeConcat(map[], cs, PublishedIn(w, rest, val));
    OnlySample(map[], cs, i);
    KeepsMeta(MergeAll(cs), PublishedIn(w, rest, val), a.key);
  }

  /** The value of an `all` or `liveall` gauge is that of the file visited last. */
  lemma LastFile(w: World, front: seq<FileParams>, f: FileParams, val: Bits -> real, a: Contribution)
    requires WorldInv(w) && a in SamplesOf(w, f, val) && IsPidSignificant(a.meta.metricType, a.meta.mode)
    ensures var merged := MergeAll(PublishedIn(w, front + [f], val));
            a.key in merged && merged[a.key].value == a.meta.value
  {
    hide SamplesOf, PublishedIn, WorldInv, MergeInto;
    var cs := SamplesOf(w, f, val);
    var i :| 0 <= i < |cs| && cs[i] == a;
    forall j | 0 <= j < |cs| && j != i
      ensures cs[j].key != cs[i].key
    {
      if cs[j].key == cs[i].key {
        OncePerFile(w, f, val, i, j);
      }
    }
    PublishedConcat(w, front, [f], val);
    PublishedOne(w, f, val);
    MergeConcat(map[], PublishedIn(w, front, val), cs);
    OnlySample(MergeAll(PublishedIn(w, front, val)), cs, i);
  }

  lemma {:induction false} SampleFile(w: World, order: seq<FileParams>, val: Bits -> real, c: Contribution) returns (f: FileParams)
    requires c in PublishedIn(w, order, val)
    ensures f in order && c in SamplesOf(w, f, val)
  {
    hide Contributions, LogSamples, PublishedAt;
    var n := |order| - 1;
    if c in SamplesOf(w, order[n], val) {
      f := order[n];
    } else {
      f := SampleFile(w, order[..n], val, c);
    }
  }

  /** If two samples do not commute, two orders of the files disagree. */
  lemma DisagreeingOrders(w: World, found: seq<FileParams>, val: Bits -> real, a: Contribution, b: Contribution)
    returns (one: seq<FileParams>, two: seq<FileParams>)
    requires WorldInv(w) && a in PublishedIn(w, found, val) && b in PublishedIn(w, found, val)
    requires !Commutes(a, b)
    ensures multiset(one) == multiset(two) == multiset(found)
    ensures MergeAll(PublishedIn(w, one, val)) != MergeAll(PublishedIn(w, two, val))
  {
    hide SamplesOf, PublishedIn, WorldInv, MergeAll;
    var f := SampleFile(w, found, val, a);
    var g := SampleFile(w, found, val, b);
    DifferentFiles(w, f, g, val, a, b);
    var rest := WithoutTwo(found, f, g);
    if a.meta.mode != b.meta.mode || a.meta.metricType != b.meta.metricType {
      one, two := [f] + ([g] + rest), [g] + ([f] + rest);
      TwoInFront(f, g, rest);
      TwoInFront(g, f, rest);
      FirstFile(w, f, [g] + rest, val, a);
      FirstFile(w, g, [f] + rest, val, b);
    } else {
      one, two := (rest + [g]) + [f], (rest + [f]) + [g];
      TwoBehind(rest, g, f);
      TwoBehind(rest, f, g);
      LastFile(w, rest + [g], f, val, a);
      LastFile(w, rest + [f], g, val, b);
    }
  }

  lemma DifferentFiles(w: World, f: FileParams, g: FileParams, val: Bits -> real, a: Contribution, b: Contribution)
    requires WorldInv(w) && a in SamplesOf(w, f, val) && b in SamplesOf(w, g, val) && !Commutes(a, b)
    ensures f != g
  {
    hide SamplesOf, WorldInv;
    if f == g {
      var cs := SamplesOf(w, f, val);
      var i :| 0 <= i < |cs| && cs[i] == a;
      var j :| 0 <= j < |cs| && cs[j] == b;
      OncePerFile(w, f, val, i, j);
    }
  }

  /** The exact condition: the merged map is the same for every order of the files if and only if all
      published samples commute. */
  lemma FileOrderIff(w: World, found: seq<FileParams>, val: Bits -> real)
    requires WorldInv(w)
    ensures AllCommute(PublishedIn(w, found, val)) <==> AnyOrder(w, found, val)
  {
    hide Commutes, MergeAll, PublishedIn, WorldInv;
    if AllCommute(PublishedIn(w, found, val)) {
      forall other | multiset(other) == multiset(found)
        ensures MergeAll(PublishedIn(w, other, val)) == MergeAll(PublishedIn(w, found, val))
      {
        PublishedPermuted(w, other, found, val);
        OrderIndependent(PublishedIn(w, other, val), PublishedIn(w, found, val));
      }
    } else {
      var cs := PublishedIn(w, found, val);
      var a, b :| a in cs && b in cs && !Commutes(a, b);
      var one, two := DisagreeingOrders(w, found, val, a, b);
    }
  }

  // ----- a directory in which the order matters -----

  const KEY: LogKey := StoredMetricKey("m", "m", "")

  lemma ShortKey()
    ensures Storable(KEY) && HEADER_SIZE + EntryLen(KEY) <= U32_MAX
  {
    assert Encode("m") == EncodeChar('m') + Encode("m"[1..]) && Encode("") == [];
  }

  /** A file in which a store has published `KEY` with one value. */
  function OneEntry(v: Bits): File {
    ShortKey();
    File(Published(EmptyImage(HEADER_SIZE + EntryLen(KEY)), [], Rec(KEY, v)), Idle, [Rec(KEY, v)])
  }

  lemma OneEntryInv(v: Bits)
    ensures Inv(OneEntry(v)) && OneEntry(v).log == [Rec(KEY, v)]
  {
    hide WellFormed, EntryLen, Published;
    ShortKey();
    EmptyEnd();
    EmptyImageFormat(HEADER_SIZE + EntryLen(KEY));
    PublishKeepsFormat(EmptyImage(HEADER_SIZE + EntryLen(KEY)), [], Rec(KEY, v));
    assert [] + [Rec(KEY, v)] == [Rec(KEY, v)];
  }

  /** One worker has stored `KEY` in its file of `min` gauges and in its file of `max` gauges. */
  function TwoModes(worker: string, low: Bits, high: Bits): World {
    World(map[GaugeStem(Min, worker) + ".db" := 0, GaugeStem(Max, worker) + ".db" := 1], [OneEntry(low), OneEntry(high)], map[])
  }

  /** In that directory the order of the two files decides what is reported: the mode of the file that
      comes last does. */
  lemma OrderMatters(worker: string, low: Bits, high: Bits, val: Bits -> real)
    requires val(low) < val(high)
    ensures var w := TwoModes(worker, low, high);
            var f, g := ParseFileParams(GaugeStem(Min, worker) + ".db"), ParseFileParams(GaugeStem(Max, worker) + ".db");
            && WorldInv(w) && f.Ok? && g.Ok?
            && var k := EntryKey(KEY, None);
               var one, two := MergeAll(PublishedIn(w, [f.value, g.value], val)), MergeAll(PublishedIn(w, [g.value, f.value], val));
               k in one && k in two && one[k].value == val(high) && two[k].value == val(low)
  {
    hide OneEntry, Inv, GaugeStem, ParseFileParams, PublishedIn, MergeInto, SamplesOf, ExtractNumericPid, WorkerPid;
    var w := TwoModes(worker, low, high);
    GaugeNameMeaning(Min, worker);
    GaugeNameMeaning(Max, worker);
    var f := FileParams(GaugeStem(Min, worker) + ".db", Gauge, Min, WorkerPid(worker));
    var g := FileParams(GaugeStem(Max, worker) + ".db", Gauge, Max, WorkerPid(worker));
    OneEntryInv(low);
    OneEntryInv(high);
    DifferentNames(worker);
    OneSample(w, f, low, val);
    OneSample(w, g, high, val);
    TwoSamples(w, f, g, val);
    TwoSamples(w, g, f, val);
    LastDecides(f.path, g.path, WorkerPid(worker), low, high, val);
  }

  lemma LastDecides(p: string, q: string, pid: string, low: Bits, high: Bits, val: Bits -> real)
    requires val(low) < val(high)
    ensures var a := Contribute(FileParams(p, Gauge, Min, pid), Sample(KEY, low), val);
            var b := Contribute(FileParams(q, Gauge, Max, pid), Sample(KEY, high), val);
            var one, two, k := MergeOne(MergeOne(map[], a), b), MergeOne(MergeOne(map[], b), a), EntryKey(KEY, None);
            k in one && k in two && one[k].value == val(high) && two[k].value == val(low)
  {
  }

  lemma DifferentNames(worker: string)
    ensures GaugeStem(Min, worker) + ".db" != GaugeStem(Max, worker) + ".db"
  {
    var a, b := GaugeStem(Min, worker) + ".db", GaugeStem(Max, worker) + ".db";
    assert a[7] == 'i' && b[7] == 'a';
  }

  lemma OneSample(w: World, f: FileParams, v: Bits, val: Bits -> real)
    requires PublishedAt(w, f.path) == [Rec(KEY, v)]
    ensures SamplesOf(w, f, val) == [Contribute(f, Sample(KEY, v), val)]
  {
  }

  lemma TwoSamples(w: World, f: FileParams, g: FileParams, val: Bits -> real)
    requires |SamplesOf(w, f, val)| == 1 && |SamplesOf(w, g, val)| == 1
    ensures MergeAll(PublishedIn(w, [f, g], val)) == MergeOne(MergeOne(map[], SamplesOf(w, f, val)[0]), SamplesOf(w, g, val)[0])
  {
    hide SamplesOf, PublishedIn, MergeOne;
    var a, b := SamplesOf(w, f, val), SamplesOf(w, g, val);
    assert [f, g] == [f] + [g];
    PublishedSnoc(w, [f], g, val);
    PublishedOne(w, f, val);
    assert a == [] + [a[0]] && a + b == a + [b[0]];
    MergeSnoc(map[], a, b[0]);
    MergeSnoc(map[], [], a[0]);
  }
}
