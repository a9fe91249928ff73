/** The parse loop that `rebuild_index`, the cached exporter and the aggregator all run, and its laws:
    parsing a well-formed file recovers the log, and parsing can be resumed. */
module LogScan {
  import opened Bytes
  import opened SeqFacts
  import opened Utf8Text
  import opened RawEntries
  import opened MetricLog

  /** A parsed entry: its key and the absolute offset of its value. */
  datatype Item = Item(key: StoredMetricKey, valueOffset: nat)

  /** A key with a value read from the file. */
  datatype Sample = Sample(key: StoredMetricKey, value: Bits)

  /** The `used` word, zero read as an empty log. */
  function UsedWord(b: seq<byte>): nat
    requires |b| >= HEADER_SIZE
  {
    if U32At(b, 0) == 0 then HEADER_SIZE else U32At(b, 0)
  }

  /** Why a scan stopped: no room for another length triple, an entry that does not fit, or text that
      is not UTF-8. */
  datatype Stop = Exhausted | BadEntry | BadText

  datatype Scan = Scan(items: seq<Item>, pos: nat, stop: Stop)

  /** The three text fields of an entry as strings, if all are UTF-8. */
  function TextKey(e: RawEntry): Option<StoredMetricKey>
    requires e.Valid()
  {
    var family, sample, labels := FromUtf8(e.FamilyBytes()), FromUtf8(e.SampleBytes()), FromUtf8(e.LabelsBytes());
    if family.None? || sample.None? || labels.None? then None
    else Some(StoredMetricKey(family.value, sample.value, labels.value))
  }

  /** One turn of the parse loop at `pos`. */
  datatype Turn = Stopped(stop: Stop) | Entry(key: StoredMetricKey, keyLen: nat, valueOffset: nat, totalLen: nat)

  function DecodeAt(b: seq<byte>, pos: nat, used: nat): (t: Turn)
    requires used <= |b|
    ensures t.Entry? ==> 12 <= t.keyLen <= t.valueOffset && t.valueOffset + 8 == t.totalLen && pos + t.totalLen <= used
  {
    if pos + 12 > used then Stopped(Exhausted) else
    var entry := FromSlice(b[pos..used]);
    if entry.Err? then Stopped(BadEntry) else
    var key, e := TextKey(entry.value), entry.value;
    if key.None? then Stopped(BadText)
    else Entry(key.value, 12 + e.familyLen + e.sampleLen + e.labelsLen, e.ValueOffset(), e.TotalLen())
  }

  function ScanFrom(b: seq<byte>, pos: nat, used: nat): (s: Scan)
    requires used <= |b|
    ensures pos <= s.pos && (pos <= used ==> s.pos <= used)
    decreases used - pos
  {
    match DecodeAt(b, pos, used)
    case Stopped(stop) => Scan([], pos, stop)
    case Entry(key, _, valueOffset, totalLen) =>
      var rest := ScanFrom(b, pos + totalLen, used);
      Scan([Item(key, pos + valueOffset)] + rest.items, rest.pos, rest.stop)
  }

  /** A turn of the parse loop as the readers run it, entry by entry. */
  lemma ScanTurn(b: seq<byte>, pos: nat, used: nat)
    requires pos + 12 <= used <= |b|
    ensures var entry := FromSlice(b[pos..used]);
            && (entry.Err? ==> ScanFrom(b, pos, used) == Scan([], pos, BadEntry))
            && (entry.Ok? ==>
                  var e := entry.value;
                  && CalcValueOffset(|e.FamilyBytes()|, |e.SampleBytes()|, |e.LabelsBytes()|) == Ok(e.ValueOffset())
                  && 24 <= e.TotalLen() == e.ValueOffset() + 8 && pos + e.TotalLen() <= used
                  && (TextKey(e).None? ==> ScanFrom(b, pos, used) == Scan([], pos, BadText))
                  && (TextKey(e).Some? ==>
                        var rest := ScanFrom(b, pos + e.TotalLen(), used);
                        ScanFrom(b, pos, used)
                        == Scan([Item(TextKey(e).value, pos + e.ValueOffset())] + rest.items, rest.pos, rest.stop)))
  {
    hide FromSlice, TextKey;
  }

  /** Where the loop ends by itself. */
  lemma ScanDone(b: seq<byte>, pos: nat, used: nat)
    requires used <= |b| && pos + 12 > used
    ensures ScanFrom(b, pos, used) == Scan([], pos, Exhausted)
  {
  }

  /** Every value a scan found lies behind the length bytes of its entry and in front of the point
      where the scan stopped. */
  lemma {:induction false} ItemsInBounds(b: seq<byte>, pos: nat, used: nat)
    requires used <= |b|
    ensures var s := ScanFrom(b, pos, used);
            && (s.items != [] ==> s.pos <= used)
            && forall item <- s.items :: pos + 12 <= item.valueOffset && item.valueOffset + 8 <= s.pos
    decreases used - pos
  {
    hide DecodeAt;
    var t := DecodeAt(b, pos, used);
    if t.Entry? {
      ItemsInBounds(b, pos + t.totalLen, used);
    }
  }

  /** Nothing more is found where a scan has stopped. */
  lemma {:induction false} ScanRests(b: seq<byte>, pos: nat, used: nat)
    requires used <= |b|
    ensures var s := ScanFrom(b, pos, used); ScanFrom(b, s.pos, used) == Scan([], s.pos, s.stop)
    decreases used - pos
  {
    hide DecodeAt;
    var t := DecodeAt(b, pos, used);
    if t.Entry? {
      ScanRests(b, pos + t.totalLen, used);
    }
  }

  // ----- resuming a scan -----

  /** The bytes a scan of `b` reads as keys, the lengths and text of every entry it accepts, are the
      same in `c`. */
  predicate SameKeyBytes(b: seq<byte>, c: seq<byte>, pos: nat, used: nat)
    requires used <= |b|
    decreases used - pos
  {
    var t := DecodeAt(b, pos, used);
    t.Entry? ==>
      && pos + t.keyLen <= |c|
      && b[pos..pos + t.keyLen] == c[pos..pos + t.keyLen]
      && SameKeyBytes(b, c, pos + t.totalLen, used)
  }

  lemma DecodeAgain(b: seq<byte>, c: seq<byte>, pos: nat, u: nat, v: nat)
    requires u <= |b| && u <= v <= |c|
    requires var t := DecodeAt(b, pos, u); t.Entry? && b[pos..pos + t.keyLen] == c[pos..pos + t.keyLen]
    ensures DecodeAt(c, pos, v) == DecodeAt(b, pos, u)
  {
    hide FromSlice, FromUtf8;
    var e := FromSlice(b[pos..u]).value;
    var n := 12 + e.familyLen + e.sampleLen + e.labelsLen;
    SliceOfSlice(b, pos, u, 0, n);
    SliceOfSlice(c, pos, v, 0, n);
    FromSliceMonotone(b[pos..u], c[pos..v]);
  }

  /** Scanning `b` up to `u` and then resuming in `c`, up to a later boundary, where the first scan
      stopped gives exactly the scan of `c` from the start.  This holds however the first scan
      stopped, so an entry that was incomplete is picked up later. */
  lemma {:induction false} ResumeScan(b: seq<byte>, c: seq<byte>, pos: nat, u: nat, v: nat)
    requires u <= |b| && u <= v <= |c|
    requires SameKeyBytes(b, c, pos, u)
    ensures var first := ScanFrom(b, pos, u);
            var rest := ScanFrom(c, first.pos, v);
            ScanFrom(c, pos, v) == Scan(first.items + rest.items, rest.pos, rest.stop)
    decreases u - pos
  {
    hide DecodeAt;
    var t := DecodeAt(b, pos, u);
    if t.Entry? {
      DecodeAgain(b, c, pos, u, v);
      ResumeScan(b, c, pos + t.totalLen, u, v);
      var tail := ScanFrom(b, pos + t.totalLen, u);
      Assoc([Item(t.key, pos + t.valueOffset)], tail.items, ScanFrom(c, tail.pos, v).items);
    }
  }

  // ----- well-formed files -----

  /** The items of a log: what every reader should find. */
  function Items(log: seq<Rec>): (items: seq<Item>)
    ensures |items| == |log|
  {
    seq(|log|, i requires 0 <= i < |log| => Item(log[i].key, ValueAt(log, i)))
  }

  lemma ItemsPrefix(log: seq<Rec>, more: seq<Rec>)
    requires |log| <= |more| && SameKeys(log, more[..|log|])
    ensures Items(more)[..|log|] == Items(log)
    ensures Start(more, |log|) == End(log)
  {
    hide LogBytes, EntryLen, ValueOffset;
    forall i | 0 <= i < |log|
      ensures Items(more)[i] == Items(log)[i]
    {
      assert more[..|log|][i].key == log[i].key;
      SameKeysSameEnd(log[..i], more[..i]);
    }
    SameKeysSameEnd(log, more[..|log|]);
  }

  /** Decoding the record at the front of some bytes. */
  lemma DecodeRecord(r: Rec, tail: seq<byte>)
    ensures var e := FromSlice(RecBytes(r) + tail);
            && e.Ok?
            && TextKey(e.value) == Some(r.key)
            && e.value.TotalLen() == EntryLen(r.key)
            && e.value.ValueOffset() == ValueOffset(r.key)
            && e.value.Value() == r.value
            && 12 + e.value.familyLen + e.value.sampleLen + e.value.labelsLen == |KeyBytes(r.key)|
  {
    hide FromSlice;
    RoundTrip(Encode(r.key.family), Encode(r.key.sample), Encode(r.key.labels), r.value, tail);
    FromUtf8Encode(r.key.family);
    FromUtf8Encode(r.key.sample);
    FromUtf8Encode(r.key.labels);
  }

  /** The bytes between two record boundaries start with the record at the first one. */
  lemma BetweenBoundaries(b: seq<byte>, log: seq<Rec>, i: nat, p: nat)
    requires WellFormed(b, log) && i < p <= |log|
    ensures Start(log, i + 1) <= Start(log, p) <= End(log) <= |b|
    ensures Start(log, i) + EntryLen(log[i].key) == Start(log, i + 1)
    ensures exists tail: seq<byte> :: b[Start(log, i)..Start(log, p)] == RecBytes(log[i]) + tail
  {
    hide RecBytes, LogBytes, EntryLen;
    StartMonotone(log, i, p);
    StartStep(log, i);
    RecordBytes(b, log, i);
    SplitRange(b, Start(log, i), Start(log, i + 1), Start(log, p));
    assert b[Start(log, i)..Start(log, p)] == RecBytes(log[i]) + b[Start(log, i + 1)..Start(log, p)];
  }

  /** Decoding at a record boundary `i`, when the announced `used` is any later boundary `p`. */
  lemma DecodeAtBoundary(b: seq<byte>, log: seq<Rec>, i: nat, p: nat)
    requires WellFormed(b, log) && i <= p <= |log|
    ensures Start(log, i) <= Start(log, p) <= End(log) <= |b|
    ensures i == p ==> DecodeAt(b, Start(log, i), Start(log, p)) == Stopped(Exhausted)
    ensures i < p ==>
              DecodeAt(b, Start(log, i), Start(log, p))
              == Entry(log[i].key, |KeyBytes(log[i].key)|, ValueOffset(log[i].key), EntryLen(log[i].key))
  {
    hide RecBytes, LogBytes, EntryLen, ValueOffset, FromSlice, TextKey;
    StartMonotone(log, i, p);
    if i < p {
      BetweenBoundaries(b, log, i, p);
      var tail :| b[Start(log, i)..Start(log, p)] == RecBytes(log[i]) + tail;
      DecodeRecord(log[i], tail);
    }
  }

  lemma DecodeAtStart(b: seq<byte>, log: seq<Rec>, i: nat)
    requires WellFormed(b, log) && i <= |log|
    ensures Start(log, i) <= End(log) <= |b|
    ensures i == |log| ==> DecodeAt(b, Start(log, i), End(log)) == Stopped(Exhausted)
    ensures i < |log| ==>
              DecodeAt(b, Start(log, i), End(log))
              == Entry(log[i].key, |KeyBytes(log[i].key)|, ValueOffset(log[i].key), EntryLen(log[i].key))
  {
    hide LogBytes, EntryLen, ValueOffset, DecodeAt, KeyBytes, WellFormed;
    assert log[..|log|] == log;
    DecodeAtBoundary(b, log, i, |log|);
  }

  lemma ItemsFrom(log: seq<Rec>, i: nat)
    requires i < |log|
    ensures Items(log)[i..] == [Item(log[i].key, ValueAt(log, i))] + Items(log)[i + 1..]
  {
    hide ValueAt;
  }

  /** From any record boundary, scanning a well-formed file yields the remaining items and ends
      exactly at `used`. */
  lemma {:induction false} ScanWellFormed(b: seq<byte>, log: seq<Rec>, i: nat)
    requires WellFormed(b, log) && i <= |log|
    ensures Start(log, i) <= End(log) <= |b|
    ensures ScanFrom(b, Start(log, i), End(log)) == Scan(Items(log)[i..], End(log), Exhausted)
    decreases |log| - i
  {
    hide End, EntryLen, ValueOffset, DecodeAt, WellFormed, Items;
    DecodeAtStart(b, log, i);
    if i == |log| {
      assert log[..i] == log;
    } else {
      StartStep(log, i);
      ScanWellFormed(b, log, i + 1);
      ItemsFrom(log, i);
    }
  }

  /** The log in a file is determined by its bytes. */
  lemma LogUnique(b: seq<byte>, log: seq<Rec>, other: seq<Rec>)
    requires WellFormed(b, log) && WellFormed(b, other)
    ensures log == other
  {
    hide LogBytes, EntryLen, ValueOffset, ScanFrom, ValueAt;
    assert log[..0] == [] && other[..0] == [];
    ScanWellFormed(b, log, 0);
    ScanWellFormed(b, other, 0);
    assert Items(log) == Items(log)[0..] == Items(other)[0..] == Items(other);
    forall i | 0 <= i < |log|
      ensures log[i] == other[i]
    {
      assert Items(log)[i] == Items(other)[i];
      ValueBytes(b, log, i);
      ValueBytes(b, other, i);
    }
  }

  // ----- caches of parsed entries -----

  /** A reader has parsed exactly the first entries of the published log. */
  predicate Parsed(entries: seq<Item>, parsedUsed: nat, log: seq<Rec>) {
    && |entries| <= |log|
    && entries == Items(log)[..|entries|]
    && parsedUsed == Start(log, |entries|)
  }

  lemma ParsedStays(entries: seq<Item>, parsedUsed: nat, log: seq<Rec>, more: seq<Rec>)
    requires Parsed(entries, parsedUsed, log) && KeysExtend(log, more)
    ensures Parsed(entries, parsedUsed, more)
  {
    hide End, ValueAt;
    var k := |entries|;
    ItemsPrefix(log, more);
    assert Items(more)[..k] == Items(more)[..|log|][..k];
    BoundaryStays(log, more, k);
  }

  lemma ParsedNothing(log: seq<Rec>)
    ensures Parsed([], HEADER_SIZE, log)
  {
    assert log[..0] == [] && End([]) == HEADER_SIZE;
  }

  lemma ParsedWithin(entries: seq<Item>, parsedUsed: nat, log: seq<Rec>)
    requires Parsed(entries, parsedUsed, log)
    ensures |entries| <= |log| && HEADER_SIZE <= parsedUsed <= End(log)
  {
    hide End, Items;
    StartMonotone(log, |entries|, |log|);
  }

  lemma ItemAt(log: seq<Rec>, j: nat)
    requires j < |log|
    ensures Items(log)[j] == Item(log[j].key, ValueAt(log, j))
  {
    hide ValueAt;
  }

  /** A cached entry of a well-formed file: its key, its place and its value. */
  lemma CachedValue(entries: seq<Item>, parsedUsed: nat, b: seq<byte>, log: seq<Rec>, j: nat)
    requires WellFormed(b, log) && Parsed(entries, parsedUsed, log) && j < |entries|
    ensures j < |log| && entries[j].key == log[j].key
    ensures entries[j].valueOffset % 8 == 0
    ensures entries[j].valueOffset + 8 <= parsedUsed <= End(log) <= |b|
    ensures b[entries[j].valueOffset..entries[j].valueOffset + 8] == log[j].value
  {
    hide WellFormed, End, Items, ValueOffset;
    ItemAt(log, j);
    assert entries[j] == Items(log)[j];
    ValueAtBounds(log, j);
    StartMonotone(log, j + 1, |entries|);
    ValueBytes(b, log, j);
    DecodeAtStart(b, log, 0);
  }
}
