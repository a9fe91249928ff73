/** The byte format of a metric file: header words, then a packed log of entries.

    `WellFormed` says that a file's bytes are the image of a log of records; the lemmas here say how
    the writer's byte writes change that log. */
module MetricLog {
  import opened Bytes
  import opened SeqFacts
  import opened Utf8Text
  import opened RawEntries

  const HEADER_SIZE: nat := 8
  const FILE_FORMAT_VERSION: nat := 2

  datatype StoredMetricKey = StoredMetricKey(family: string, sample: string, labels: string)

  predicate Storable(k: StoredMetricKey) {
    Fits(Encode(k.family), Encode(k.sample), Encode(k.labels))
  }

  type LogKey = k: StoredMetricKey | Storable(k) witness StoredMetricKey("", "", "")

  /** A published entry. */
  datatype Rec = Rec(key: LogKey, value: Bits)

  function KeyBytes(k: LogKey): seq<byte> {
    KeyPart(Encode(k.family), Encode(k.sample), Encode(k.labels))
  }

  function RecBytes(r: Rec): (b: seq<byte>)
    ensures |b| == EntryLen(r.key)
  {
    EntryBytes(Encode(r.key.family), Encode(r.key.sample), Encode(r.key.labels), r.value)
  }

  function EntryLen(k: LogKey): (n: nat)
    ensures n >= 24 && n % 8 == 0
  {
    CalcTotalLen(|Encode(k.family)|, |Encode(k.sample)|, |Encode(k.labels)|).value
  }

  function ValueOffset(k: LogKey): (n: nat)
    ensures n + 8 == EntryLen(k) && |KeyBytes(k)| <= n
  {
    CalcValueOffset(|Encode(k.family)|, |Encode(k.sample)|, |Encode(k.labels)|).value
  }

  function LogBytes(log: seq<Rec>): seq<byte> {
    if log == [] then [] else RecBytes(log[0]) + LogBytes(log[1..])
  }

  /** Where the log ends in its file: the value of the `used` header. */
  function End(log: seq<Rec>): (n: nat)
    ensures n >= HEADER_SIZE
  {
    HEADER_SIZE + |LogBytes(log)|
  }

  function Start(log: seq<Rec>, i: nat): nat
    requires i <= |log|
  {
    End(log[..i])
  }

  function ValueAt(log: seq<Rec>, i: nat): nat
    requires i < |log|
  {
    Start(log, i) + ValueOffset(log[i].key)
  }

  predicate DistinctKeys(log: seq<Rec>) {
    forall i, j | 0 <= i < j < |log| :: log[i].key != log[j].key
  }

  predicate HasKey(log: seq<Rec>, k: StoredMetricKey) {
    exists i | 0 <= i < |log| :: log[i].key == k
  }

  /** Header words and body of an initialised file; what lies past the body is free. */
  predicate Holds(b: seq<byte>, body: seq<byte>) {
    && HEADER_SIZE + |body| <= |b|
    && U32At(b, 0) == HEADER_SIZE + |body|
    && U32At(b, 4) == FILE_FORMAT_VERSION
    && b[HEADER_SIZE..HEADER_SIZE + |body|] == body
  }

  /** The file bytes `b` hold exactly the published log `log`. */
  predicate WellFormed(b: seq<byte>, log: seq<Rec>) {
    Holds(b, LogBytes(log)) && DistinctKeys(log)
  }

  // ----- shape of the log -----

  lemma {:induction false} LogBytesConcat(a: seq<Rec>, c: seq<Rec>)
    ensures LogBytes(a + c) == LogBytes(a) + LogBytes(c)
  {
    if a == [] {
      assert a + c == c;
    } else {
      ConsConcat(a, c);
      LogBytesConcat(a[1..], c);
      Assoc(RecBytes(a[0]), LogBytes(a[1..]), LogBytes(c));
    }
  }

  lemma LogBytesAppend(log: seq<Rec>, r: Rec)
    ensures LogBytes(log + [r]) == LogBytes(log) + RecBytes(r)
    ensures End(log + [r]) == End(log) + EntryLen(r.key)
  {
    LogBytesConcat(log, [r]);
    assert LogBytes([r]) == RecBytes(r) + LogBytes([r][1..]);
  }

  /** The log cut at record `i`. */
  lemma LogBytesCut(log: seq<Rec>, i: nat)
    requires i < |log|
    ensures LogBytes(log) == LogBytes(log[..i]) + RecBytes(log[i]) + LogBytes(log[i + 1..])
  {
    hide RecBytes, EntryLen, LogBytes;
    Cut(log, i);
    LogBytesConcat(log[..i + 1], log[i + 1..]);
    LogBytesAppend(log[..i], log[i]);
  }

  lemma StartStep(log: seq<Rec>, i: nat)
    requires i < |log|
    ensures HEADER_SIZE <= Start(log, i)
    ensures Start(log, i + 1) == Start(log, i) + EntryLen(log[i].key)
    ensures Start(log, i + 1) <= End(log)
  {
    hide RecBytes, EntryLen, LogBytes;
    Cut(log, i);
    LogBytesConcat(log[..i + 1], log[i + 1..]);
    LogBytesAppend(log[..i], log[i]);
  }

  /** Positions depend on the keys only. */
  predicate SameKeys(a: seq<Rec>, c: seq<Rec>) {
    |a| == |c| && forall i | 0 <= i < |a| :: a[i].key == c[i].key
  }

  lemma {:induction false} SameKeysSameEnd(a: seq<Rec>, c: seq<Rec>)
    requires SameKeys(a, c)
    ensures End(a) == End(c)
  {
    if a != [] {
      SameKeysSameEnd(a[1..], c[1..]);
    }
  }

  /** The published keys stay where they are; new ones come behind them. */
  predicate KeysExtend(log: seq<Rec>, more: seq<Rec>) {
    |log| <= |more| && SameKeys(log, more[..|log|])
  }

  lemma KeysExtendLen(log: seq<Rec>, more: seq<Rec>)
    requires KeysExtend(log, more)
    ensures |log| <= |more|
  {
  }

  lemma KeysExtendTrans(a: seq<Rec>, b: seq<Rec>, c: seq<Rec>)
    requires KeysExtend(a, b) && KeysExtend(b, c)
    ensures KeysExtend(a, c)
  {
    forall i | 0 <= i < |a|
      ensures a[i].key == c[..|a|][i].key
    {
      assert a[i].key == b[..|a|][i].key && b[i].key == c[..|b|][i].key;
    }
  }

  lemma BoundaryStays(log: seq<Rec>, more: seq<Rec>, k: nat)
    requires KeysExtend(log, more) && k <= |log|
    ensures Start(more, k) == Start(log, k)
  {
    forall i | 0 <= i < k
      ensures log[..k][i].key == more[..k][i].key
    {
      assert more[..|log|][i].key == log[i].key;
    }
    SameKeysSameEnd(log[..k], more[..k]);
  }

  lemma {:induction false} StartMonotone(log: seq<Rec>, i: nat, j: nat)
    requires i <= j <= |log|
    ensures Start(log, i) <= Start(log, j) <= End(log)
    ensures i < j ==> Start(log, i + 1) <= Start(log, j)
    decreases j - i
  {
    if i < j {
      StartStep(log, i);
      StartMonotone(log, i + 1, j);
    } else if j < |log| {
      StartStep(log, j);
    } else {
      assert log[..j] == log;
    }
  }

  lemma {:induction false} EndAligned(log: seq<Rec>)
    ensures End(log) % 8 == 0
  {
    if log != [] {
      EndAligned(log[1..]);
      SumOfEights(EntryLen(log[0].key), End(log[1..]));
    }
  }

  lemma SumOfEights(a: nat, b: nat)
    requires a % 8 == 0 && b % 8 == 0
    ensures (a + b) % 8 == 0
  {
  }

  /** Every value lies inside the published part of the file, at a multiple of eight. */
  lemma ValueAtBounds(log: seq<Rec>, i: nat)
    requires i < |log|
    ensures HEADER_SIZE <= Start(log, i)
    ensures Start(log, i) + |KeyBytes(log[i].key)| <= ValueAt(log, i)
    ensures ValueAt(log, i) + 8 == Start(log, i + 1) <= End(log)
    ensures ValueAt(log, i) % 8 == 0
  {
    hide EntryLen, ValueOffset, KeyBytes, LogBytes;
    StartStep(log, i);
    EndAligned(log[..i + 1]);
  }

  // ----- bodies -----

  lemma HoldsTail(b: seq<byte>, c: seq<byte>, body: seq<byte>)
    requires Holds(b, body) && HEADER_SIZE + |body| <= |c|
    requires b[..HEADER_SIZE + |body|] == c[..HEADER_SIZE + |body|]
    ensures Holds(c, body)
  {
    var n := HEADER_SIZE + |body|;
    PrefixSlice(b, c, n, 0, 4);
    PrefixSlice(b, c, n, 4, 8);
    PrefixSlice(b, c, n, 8, n);
    SameWord(b, c, 0);
    SameWord(b, c, 4);
  }

  lemma SameWord(b: seq<byte>, c: seq<byte>, i: nat)
    requires i + 4 <= |b| && i + 4 <= |c| && b[i..i + 4] == c[i..i + 4]
    ensures U32At(b, i) == U32At(c, i)
  {
    U32Local(b, i, b[i..i + 4]);
    U32Local(c, i, b[i..i + 4]);
  }

  lemma HoldsAppend(b: seq<byte>, body: seq<byte>, e: seq<byte>)
    requires Holds(b, body)
    requires var end := HEADER_SIZE + |body| + |e|; end <= |b| && end <= U32_MAX
    requires b[HEADER_SIZE + |body|..HEADER_SIZE + |body| + |e|] == e
    ensures Holds(Patch(b, 0, U32Bytes(HEADER_SIZE + |body| + |e|)), body + e)
  {
    var end := HEADER_SIZE + |body| + |e|;
    var w := U32Bytes(end);
    var c := Patch(b, 0, w);
    PatchSlices(b, 0, w);
    U32RoundTrip(end);
    U32Local(c, 0, w);
    SliceOfSlice(b, 4, |b|, 0, 4);
    SliceOfSlice(c, 4, |b|, 0, 4);
    SameWord(b, c, 4);
    SliceOfSlice(b, 4, |b|, 4, end - 4);
    SliceOfSlice(c, 4, |b|, 4, end - 4);
    SplitRange(b, HEADER_SIZE, HEADER_SIZE + |body|, end);
  }

  /** Patching inside a range patches what is cut out of it. */
  lemma PatchInside(b: seq<byte>, lo: nat, hi: nat, off: nat, v: seq<byte>)
    requires lo <= off && off + |v| <= hi <= |b|
    ensures Patch(b, off, v)[lo..hi] == Patch(b[lo..hi], off - lo, v)
  {
    hide Patch;
    PatchAt(b, off, v);
    PatchAt(b[lo..hi], off - lo, v);
  }

  lemma HoldsPatch(b: seq<byte>, body: seq<byte>, off: nat, v: seq<byte>)
    requires Holds(b, body)
    requires HEADER_SIZE <= off && off + |v| <= HEADER_SIZE + |body|
    ensures Holds(Patch(b, off, v), Patch(body, off - HEADER_SIZE, v))
  {
    hide Patch;
    var c := Patch(b, off, v);
    PatchInside(b, HEADER_SIZE, HEADER_SIZE + |body|, off, v);
    PatchSlices(b, off, v);
    PrefixSlice(b, c, off, 0, 4);
    PrefixSlice(b, c, off, 4, 8);
    SameWord(b, c, 0);
    SameWord(b, c, 4);
  }

  // ----- the published bytes -----

  lemma BodyPiece(b: seq<byte>, front: seq<byte>, e: seq<byte>, back: seq<byte>)
    requires Holds(b, front + e + back)
    ensures b[HEADER_SIZE + |front|..HEADER_SIZE + |front| + |e|] == e
    ensures b[HEADER_SIZE + |front|..HEADER_SIZE + |front| + |e| + |back|] == e + back
  {
    var body := front + e + back;
    Concat3(front, e, back);
    SliceOfSlice(b, HEADER_SIZE, HEADER_SIZE + |body|, |front|, |front| + |e|);
    SliceOfSlice(b, HEADER_SIZE, HEADER_SIZE + |body|, |front|, |body|);
  }

  /** The bytes of record `i` inside a well-formed file. */
  lemma RecordBytes(b: seq<byte>, log: seq<Rec>, i: nat)
    requires WellFormed(b, log) && i < |log|
    ensures HEADER_SIZE <= Start(log, i) < Start(log, i + 1) <= End(log)
    ensures b[Start(log, i)..Start(log, i + 1)] == RecBytes(log[i])
    ensures b[Start(log, i)..End(log)] == RecBytes(log[i]) + LogBytes(log[i + 1..])
  {
    hide RecBytes, EntryLen, LogBytes;
    StartStep(log, i);
    LogBytesCut(log, i);
    BodyPiece(b, LogBytes(log[..i]), RecBytes(log[i]), LogBytes(log[i + 1..]));
  }

  lemma ValueBytes(b: seq<byte>, log: seq<Rec>, i: nat)
    requires WellFormed(b, log) && i < |log|
    ensures ValueAt(log, i) + 8 <= End(log)
    ensures b[ValueAt(log, i)..ValueAt(log, i) + 8] == log[i].value
  {
    hide RecBytes, EntryLen, ValueOffset, LogBytes, KeyBytes;
    RecordBytes(b, log, i);
    ValueAtBounds(log, i);
    StartStep(log, i);
    RecValue(log[i]);
    SliceOfSlice(b, Start(log, i), Start(log, i + 1), ValueOffset(log[i].key), EntryLen(log[i].key));
  }

  lemma RecValue(r: Rec)
    ensures RecBytes(r)[ValueOffset(r.key)..EntryLen(r.key)] == r.value
  {
    ValuePart(Encode(r.key.family), Encode(r.key.sample), Encode(r.key.labels), r.value);
  }

  /** Only the published prefix matters. */
  lemma WellFormedTail(b: seq<byte>, c: seq<byte>, log: seq<Rec>)
    requires WellFormed(b, log) && End(log) <= |c|
    requires b[..End(log)] == c[..End(log)]
    ensures WellFormed(c, log)
  {
    HoldsTail(b, c, LogBytes(log));
  }

  /** An empty, initialised file. */
  lemma WellFormedEmpty(b: seq<byte>)
    requires |b| >= HEADER_SIZE && U32At(b, 0) == HEADER_SIZE && U32At(b, 4) == FILE_FORMAT_VERSION
    ensures WellFormed(b, [])
  {
  }

  /** Advancing `used` over a complete entry publishes it. */
  lemma PublishUsed(b: seq<byte>, log: seq<Rec>, r: Rec)
    requires WellFormed(b, log)
    requires var end := End(log) + EntryLen(r.key); end <= |b| && end <= U32_MAX
    requires b[End(log)..End(log) + EntryLen(r.key)] == RecBytes(r)
    requires !HasKey(log, r.key)
    ensures WellFormed(Patch(b, 0, U32Bytes(End(log) + EntryLen(r.key))), log + [r])
  {
    hide RecBytes, EntryLen, LogBytes;
    HoldsAppend(b, LogBytes(log), RecBytes(r));
    LogBytesAppend(log, r);
  }

  /** The whole publication: entry bytes behind the log, then the new `used` word. */
  function Published(b: seq<byte>, log: seq<Rec>, r: Rec): (c: seq<byte>)
    requires End(log) + EntryLen(r.key) <= |b| && End(log) + EntryLen(r.key) <= U32_MAX
    ensures |c| == |b|
  {
    Patch(Patch(b, End(log), RecBytes(r)), 0, U32Bytes(End(log) + EntryLen(r.key)))
  }

  lemma RecLayout(r: Rec)
    ensures RecBytes(r) == EntryBytes(Encode(r.key.family), Encode(r.key.sample), Encode(r.key.labels), r.value)
    ensures CalcTotalLen(|Encode(r.key.family)|, |Encode(r.key.sample)|, |Encode(r.key.labels)|) == Ok(EntryLen(r.key))
    ensures CalcValueOffset(|Encode(r.key.family)|, |Encode(r.key.sample)|, |Encode(r.key.labels)|) == Ok(ValueOffset(r.key))
  {
  }

  /** Bytes behind the published log can be written freely. */
  lemma WriteBehind(b: seq<byte>, log: seq<Rec>, w: seq<byte>)
    requires WellFormed(b, log) && End(log) + |w| <= |b|
    ensures WellFormed(Patch(b, End(log), w), log)
  {
    PatchSlices(b, End(log), w);
    WellFormedTail(b, Patch(b, End(log), w), log);
  }

  /** A file may grow: new bytes come behind the old ones. */
  lemma GrowKeepsFormat(b: seq<byte>, log: seq<Rec>, more: seq<byte>)
    requires WellFormed(b, log)
    ensures WellFormed(b + more, log)
  {
    assert (b + more)[..End(log)] == b[..End(log)];
    WellFormedTail(b, b + more, log);
  }

  lemma PublishKeepsFormat(b: seq<byte>, log: seq<Rec>, r: Rec)
    requires WellFormed(b, log)
    requires var end := End(log) + EntryLen(r.key); end <= |b| && end <= U32_MAX
    requires !HasKey(log, r.key)
    ensures WellFormed(Published(b, log, r), log + [r])
  {
    hide RecBytes, EntryLen, LogBytes, WellFormed;
    WriteBehind(b, log, RecBytes(r));
    PatchSlices(b, End(log), RecBytes(r));
    PublishUsed(Patch(b, End(log), RecBytes(r)), log, r);
  }

  /** Everything in front of the value is the same whatever the value. */
  lemma EntryPrefix(k: LogKey, v: Bits, w: Bits)
    ensures Patch(RecBytes(Rec(k, v)), ValueOffset(k), w) == RecBytes(Rec(k, w))
    ensures KeyBytes(k) <= RecBytes(Rec(k, v))
  {
    var key := KeyBytes(k);
    var pad := Spaces(PaddingLen(|Encode(k.family)|, |Encode(k.sample)|, |Encode(k.labels)|).value);
    Concat3(key, pad, v);
    var e := RecBytes(Rec(k, v));
    assert e == key + pad + v;
    assert |key + pad| == ValueOffset(k);
    assert e[..ValueOffset(k)] == key + pad;
    assert e[ValueOffset(k) + 8..] == [];
  }

  /** Replacing the middle of three pieces by patching inside it. */
  lemma PatchMiddle(front: seq<byte>, e: seq<byte>, back: seq<byte>, off: nat, v: seq<byte>)
    requires off + |v| <= |e|
    ensures Patch(front + e + back, |front| + off, v) == front + Patch(e, off, v) + back
  {
    var all := front + e + back;
    assert all[..|front| + off] == front + e[..off];
    assert all[|front| + off + |v|..] == e[off + |v|..] + back;
  }

  lemma {:induction false} OverwriteBytes(log: seq<Rec>, i: nat, v: Bits)
    requires i < |log|
    ensures HEADER_SIZE <= Start(log, i) && ValueAt(log, i) + 8 <= End(log)
    ensures LogBytes(log[i := Rec(log[i].key, v)]) == Patch(LogBytes(log), ValueAt(log, i) - HEADER_SIZE, v)
  {
    hide RecBytes, EntryLen, ValueOffset, LogBytes, KeyBytes;
    var k := log[i].key;
    var log' := log[i := Rec(k, v)];
    ValueAtBounds(log, i);
    LogBytesCut(log, i);
    LogBytesCut(log', i);
    assert log'[..i] == log[..i] && log'[i + 1..] == log[i + 1..];
    PatchMiddle(LogBytes(log[..i]), RecBytes(log[i]), LogBytes(log[i + 1..]), ValueOffset(k), v);
    EntryPrefix(k, log[i].value, v);
  }

  /** Overwriting one value in place. */
  lemma OverwriteKeepsFormat(b: seq<byte>, log: seq<Rec>, i: nat, v: Bits)
    requires WellFormed(b, log) && i < |log|
    ensures HEADER_SIZE <= ValueAt(log, i) && ValueAt(log, i) + 8 <= End(log) <= |b|
    ensures WellFormed(Patch(b, ValueAt(log, i), v), log[i := Rec(log[i].key, v)])
  {
    hide LogBytes, ValueOffset, EntryLen;
    OverwriteBytes(log, i, v);
    HoldsPatch(b, LogBytes(log), ValueAt(log, i), v);
  }
}
