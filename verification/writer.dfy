/** The writer of one metric file as a sequence of atomic steps: creation, initialisation, updates in
    place, growth, piecewise saving and publication of entries, and crashes at any point.

    `bytes` is what every process that maps the file sees; `log` is the published log, a ghost of the
    protocol that no step reads. */
module WriterProtocol {
  import opened Bytes
  import opened SeqFacts
  import opened RawEntries
  import opened MetricLog
  import opened LogScan
  import opened LogContents
  import opened Growth
  import opened MmapFile

  datatype Writer =
    | Closed
    | Opening
    | Mapped
    | Zeroing(done: nat)
    | UsedWritten
    | Idle
    | Saving(rec: Rec, saved: nat)

  datatype File = File(bytes: seq<byte>, writer: Writer, log: seq<Rec>)

  datatype Action =
    | OpenFile
    | Extend
    | KeepLength
    | StartInit
    | ZeroPiece(n: nat)
    | InitUsed
    | InitVersion
    | FinishOpen
    | Update(i: nat, v: Bits)
    | Begin(r: Rec)
    | SavePiece(n: nat)
    | Publish
    | Abandon
    | Crash

  /** A file no reader looks into: too short, or with another format version.  A short file is judged
      by the header it will have once it is extended with zeros. */
  predicate Blank(b: seq<byte>) {
    U32At(b + Zeros(HEADER_SIZE), 4) != FILE_FORMAT_VERSION
  }

  /** What holds of the bytes at every moment: nothing was ever published, or the published log is in place. */
  predicate Consistent(b: seq<byte>, log: seq<Rec>) {
    (log == [] && Blank(b)) || WellFormed(b, log)
  }

  /** Zero bytes added when the file must hold `needed` bytes. */
  function Room(b: seq<byte>, needed: nat, pageSize: nat): (c: seq<byte>)
    requires pageSize > 0 && |b| > 0 && Growable(|b|, needed, pageSize)
    ensures b <= c
  {
    if needed <= |b| || GrownLen(|b|, needed, pageSize) < |b| then b
    else b + Zeros(GrownLen(|b|, needed, pageSize) - |b|)
  }

  predicate Enabled(s: File, a: Action, pageSize: nat)
    requires 0 < pageSize <= U32_MAX
  {
    match a
    case OpenFile => s.writer == Closed
    case Extend => s.writer == Opening && |s.bytes| < HEADER_SIZE
    case KeepLength => s.writer == Opening && |s.bytes| >= HEADER_SIZE
    case StartInit => s.writer == Mapped && |s.bytes| >= HEADER_SIZE && U32At(s.bytes, 4) != FILE_FORMAT_VERSION
    // the 4-byte version word is cleared by one access
    case ZeroPiece(n) => s.writer.Zeroing? && 0 < n && s.writer.done + n <= |s.bytes|
                         && (s.writer.done + n <= 4 || s.writer.done + n >= HEADER_SIZE)
    case InitUsed => s.writer == Zeroing(|s.bytes|) && |s.bytes| >= HEADER_SIZE
    case InitVersion => s.writer == UsedWritten && |s.bytes| >= HEADER_SIZE
    case FinishOpen => s.writer == Mapped && |s.bytes| >= HEADER_SIZE && U32At(s.bytes, 4) == FILE_FORMAT_VERSION
                       && U32At(s.bytes, 0) != 0
                       && UsedOf(s.bytes).Ok? && ScanFrom(s.bytes, HEADER_SIZE, UsedOf(s.bytes).value).stop == Exhausted
    case Update(i, v) => s.writer == Idle && i < |s.log| && ValueAt(s.log, i) + 8 <= |s.bytes|
    case Begin(r) => s.writer == Idle && !HasKey(s.log, r.key) && |s.bytes| > 0
                     && Growable(|s.bytes|, End(s.log) + EntryLen(r.key), pageSize)
    case SavePiece(n) => s.writer.Saving? && 0 < n && s.writer.saved + n <= EntryLen(s.writer.rec.key)
                         && End(s.log) + s.writer.saved + n <= |s.bytes|
    case Publish => s.writer.Saving? && s.writer.saved == EntryLen(s.writer.rec.key) && |s.bytes| >= HEADER_SIZE
                    && End(s.log) + EntryLen(s.writer.rec.key) <= U32_MAX
    case Abandon => s.writer.Saving? && s.writer.saved == EntryLen(s.writer.rec.key)
                    && End(s.log) + EntryLen(s.writer.rec.key) > U32_MAX
    case Crash => true
  }

  function Apply(s: File, a: Action, pageSize: nat): File
    requires 0 < pageSize <= U32_MAX && Enabled(s, a, pageSize)
  {
    match a
    case OpenFile => s.(writer := Opening)
    case Extend => s.(bytes := s.bytes + Zeros(PageAligned(HEADER_SIZE, pageSize).value - |s.bytes|), writer := Mapped)
    case KeepLength => s.(writer := Mapped)
    case StartInit => s.(writer := Zeroing(0))
    case ZeroPiece(n) => s.(bytes := Patch(s.bytes, s.writer.done, Zeros(n)), writer := Zeroing(s.writer.done + n))
    case InitUsed => s.(bytes := Patch(s.bytes, 0, U32Bytes(HEADER_SIZE)), writer := UsedWritten)
    case InitVersion => s.(bytes := Patch(s.bytes, 4, U32Bytes(FILE_FORMAT_VERSION)), writer := Idle)
    case FinishOpen => s.(writer := Idle)
    case Update(i, v) => s.(bytes := Patch(s.bytes, ValueAt(s.log, i), v), log := s.log[i := Rec(s.log[i].key, v)])
    case Begin(r) => s.(bytes := Room(s.bytes, End(s.log) + EntryLen(r.key), pageSize), writer := Saving(r, 0))
    case SavePiece(n) =>
      var piece := RecBytes(s.writer.rec)[s.writer.saved..s.writer.saved + n];
      s.(bytes := Patch(s.bytes, End(s.log) + s.writer.saved, piece), writer := Saving(s.writer.rec, s.writer.saved + n))
    case Publish =>
      s.(bytes := Patch(s.bytes, 0, U32Bytes(End(s.log) + EntryLen(s.writer.rec.key))),
         writer := Idle, log := s.log + [s.writer.rec])
    case Abandon => s.(writer := Idle)
    case Crash => s.(writer := Closed)
  }

  /** A file before any store has opened it. */
  predicate Initial(s: File) {
    s.writer == Closed && s.log == [] && Blank(s.bytes)
  }

  predicate Inv(s: File) {
    && Consistent(s.bytes, s.log)
    && match s.writer
       case Closed => true
       case Opening => true
       case Mapped => |s.bytes| >= HEADER_SIZE
       case Zeroing(done) =>
         && s.log == [] && HEADER_SIZE <= |s.bytes| && U32At(s.bytes, 4) != FILE_FORMAT_VERSION
         && done <= |s.bytes| && (done <= 4 || done >= HEADER_SIZE)
       case UsedWritten => s.log == [] && HEADER_SIZE <= |s.bytes| && U32At(s.bytes, 0) == HEADER_SIZE
       case Idle => WellFormed(s.bytes, s.log)
       case Saving(rec, saved) =>
         && WellFormed(s.bytes, s.log) && !HasKey(s.log, rec.key)
         && saved <= EntryLen(rec.key)
         && End(s.log) + EntryLen(rec.key) <= |s.bytes|
         && s.bytes[End(s.log)..End(s.log) + saved] == RecBytes(rec)[..saved]
  }

  lemma BlankLong(b: seq<byte>)
    requires |b| >= HEADER_SIZE
    ensures Blank(b) <==> U32At(b, 4) != FILE_FORMAT_VERSION
  {
    assert (b + Zeros(HEADER_SIZE))[4..8] == b[4..8];
    SameWord(b, b + Zeros(HEADER_SIZE), 4);
  }

  /** Extending a short file with zeros does not make it readable. */
  lemma BlankExtend(b: seq<byte>, n: nat)
    requires Blank(b) && |b| + n >= HEADER_SIZE
    ensures Blank(b + Zeros(n))
  {
    var c, d := b + Zeros(HEADER_SIZE), (b + Zeros(n)) + Zeros(HEADER_SIZE);
    assert c[4..8] == d[4..8];
    SameWord(c, d, 4);
  }

  lemma ZeroPieceKeeps(b: seq<byte>, done: nat, n: nat)
    requires |b| >= HEADER_SIZE && U32At(b, 4) != FILE_FORMAT_VERSION
    requires done <= 4 || done >= HEADER_SIZE
    requires done + n <= |b| && (done + n <= 4 || done + n >= HEADER_SIZE)
    ensures U32At(Patch(b, done, Zeros(n)), 4) != FILE_FORMAT_VERSION
  {
    var c := Patch(b, done, Zeros(n));
    PatchAt(b, done, Zeros(n));
    if done <= 4 && done + n >= HEADER_SIZE {
      assert U32At(c, 4) == 0;
    } else {
      assert c[4..8] == b[4..8];
      SameWord(b, c, 4);
    }
  }

  lemma HeaderWrites(b: seq<byte>)
    requires |b| >= HEADER_SIZE
    ensures U32At(Patch(b, 0, U32Bytes(HEADER_SIZE)), 0) == HEADER_SIZE
    ensures U32At(Patch(b, 0, U32Bytes(HEADER_SIZE)), 4) == U32At(b, 4)
    ensures U32At(Patch(b, 4, U32Bytes(FILE_FORMAT_VERSION)), 4) == FILE_FORMAT_VERSION
    ensures U32At(Patch(b, 4, U32Bytes(FILE_FORMAT_VERSION)), 0) == U32At(b, 0)
  {
    var c := Patch(b, 0, U32Bytes(HEADER_SIZE));
    PatchSlices(b, 0, U32Bytes(HEADER_SIZE));
    U32Local(c, 0, U32Bytes(HEADER_SIZE));
    U32RoundTrip(HEADER_SIZE);
    assert c[4..8] == c[4..][..4] == b[4..][..4] == b[4..8];
    SameWord(b, c, 4);
    var d := Patch(b, 4, U32Bytes(FILE_FORMAT_VERSION));
    PatchSlices(b, 4, U32Bytes(FILE_FORMAT_VERSION));
    U32Local(d, 4, U32Bytes(FILE_FORMAT_VERSION));
    U32RoundTrip(FILE_FORMAT_VERSION);
    SameWord(b, d, 0);
  }

  lemma RoomFits(b: seq<byte>, needed: nat, pageSize: nat)
    requires pageSize > 0 && |b| > 0 && Growable(|b|, needed, pageSize)
    ensures |Room(b, needed, pageSize)| >= needed
  {
    if needed > |b| {
      DoubledBounds(|b|, needed);
    }
  }

  lemma SavePieceKeeps(b: seq<byte>, log: seq<Rec>, rec: Rec, saved: nat, n: nat)
    requires WellFormed(b, log)
    requires saved + n <= EntryLen(rec.key) && End(log) + EntryLen(rec.key) <= |b|
    requires b[End(log)..End(log) + saved] == RecBytes(rec)[..saved]
    ensures var c := Patch(b, End(log) + saved, RecBytes(rec)[saved..saved + n]);
            WellFormed(c, log) && c[End(log)..End(log) + saved + n] == RecBytes(rec)[..saved + n]
  {
    hide LogBytes, EntryLen, RecBytes;
    var end, e := End(log), RecBytes(rec);
    var c := Patch(b, end + saved, e[saved..saved + n]);
    PatchSlices(b, end + saved, e[saved..saved + n]);
    PrefixSlice(b, c, end + saved, 0, end);
    WellFormedTail(b, c, log);
    PrefixSlice(b, c, end + saved, end, end + saved);
    SplitRange(c, end, end + saved, end + saved + n);
    SplitRange(e, 0, saved, saved + n);
  }

  lemma BeginKeeps(b: seq<byte>, log: seq<Rec>, r: Rec, pageSize: nat)
    requires WellFormed(b, log) && 0 < pageSize && |b| > 0
    requires Growable(|b|, End(log) + EntryLen(r.key), pageSize)
    ensures var room := Room(b, End(log) + EntryLen(r.key), pageSize);
            && WellFormed(room, log)
            && End(log) + EntryLen(r.key) <= |room|
            && room[End(log)..End(log) + 0] == RecBytes(r)[..0]
  {
    hide WellFormed, End, EntryLen, RecBytes, Room, Growable;
    var room := Room(b, End(log) + EntryLen(r.key), pageSize);
    RoomFits(b, End(log) + EntryLen(r.key), pageSize);
    assert room == b + room[|b|..];
    GrowKeepsFormat(b, log, room[|b|..]);
    assert room[End(log)..End(log) + 0] == [] == RecBytes(r)[..0];
  }

  /** The steps of initialising a file. */
  lemma InitStep(s: File, a: Action, pageSize: nat)
    requires 0 < pageSize <= U32_MAX && Inv(s) && Enabled(s, a, pageSize)
    requires a.ZeroPiece? || a == InitUsed || a == InitVersion
    ensures Inv(Apply(s, a, pageSize))
  {
    hide WellFormed, End, EntryLen, RecBytes, U32At, ValueAt, Room, Growable, Patch, UsedOf, ScanFrom, Blank;
    if |s.bytes| >= HEADER_SIZE {
      BlankLong(s.bytes);
    }
    var t := Apply(s, a, pageSize);
    match a
    case ZeroPiece(n) =>
      ZeroPieceKeeps(s.bytes, s.writer.done, n);
      BlankLong(t.bytes);
    case InitUsed =>
      HeaderWrites(s.bytes);
      BlankLong(t.bytes);
    case InitVersion =>
      HeaderWrites(s.bytes);
      WellFormedEmpty(t.bytes);
  }

  /** Every step of the writer keeps the file consistent. */
  lemma InvStep(s: File, a: Action, pageSize: nat)
    requires 0 < pageSize <= U32_MAX && Inv(s) && Enabled(s, a, pageSize)
    ensures Inv(Apply(s, a, pageSize))
  {
    hide WellFormed, End, EntryLen, RecBytes, U32At, ValueAt, Room, Growable, Patch, UsedOf, ScanFrom;
    if |s.bytes| >= HEADER_SIZE {
      BlankLong(s.bytes);
    }
    match a
    case OpenFile =>
    case Extend =>
      if WellFormed(s.bytes, s.log) {
        EndInFile(s.bytes, s.log);
        assert false;
      }
      BlankExtend(s.bytes, PageAligned(HEADER_SIZE, pageSize).value - |s.bytes|);
    case KeepLength =>
    case StartInit =>
      if WellFormed(s.bytes, s.log) {
        VersionOf(s.bytes, s.log);
        assert false;
      }
    case ZeroPiece(_) => InitStep(s, a, pageSize);
    case InitUsed => InitStep(s, a, pageSize);
    case InitVersion => InitStep(s, a, pageSize);
    case FinishOpen =>
    case Update(i, v) =>
      OverwriteKeepsFormat(s.bytes, s.log, i, v);
    case Begin(r) =>
      BeginKeeps(s.bytes, s.log, r, pageSize);
    case SavePiece(n) =>
      SavePieceKeeps(s.bytes, s.log, s.writer.rec, s.writer.saved, n);
    case Publish =>
      PublishUsed(s.bytes, s.log, s.writer.rec);
    case Abandon =>
    case Crash =>
  }

  lemma VersionOf(b: seq<byte>, log: seq<Rec>)
    requires WellFormed(b, log)
    ensures |b| >= HEADER_SIZE && U32At(b, 4) == FILE_FORMAT_VERSION && U32At(b, 0) == End(log)
  {
  }

  // ----- what a step may change -----

  lemma StepMonotone(s: File, a: Action, pageSize: nat)
    requires 0 < pageSize <= U32_MAX && Inv(s) && Enabled(s, a, pageSize)
    ensures KeysExtend(s.log, Apply(s, a, pageSize).log)
    ensures |s.bytes| <= |Apply(s, a, pageSize).bytes|
  {
    hide WellFormed, End, EntryLen, RecBytes, U32At, ValueAt, Room, Growable, Patch, UsedOf, ScanFrom;
  }

  /** While keys extend, every published entry keeps its place and its key bytes. */
  lemma PublishedKeyBytesStay(b: seq<byte>, log: seq<Rec>, c: seq<byte>, more: seq<Rec>, i: nat)
    requires WellFormed(b, log) && WellFormed(c, more) && KeysExtend(log, more) && i < |log|
    ensures more[i].key == log[i].key
    ensures Start(more, i) == Start(log, i) && ValueAt(more, i) == ValueAt(log, i)
    ensures var lo, n := Start(log, i), |KeyBytes(log[i].key)|;
            lo + n <= ValueAt(log, i) && ValueAt(log, i) + 8 <= |b| && ValueAt(log, i) + 8 <= |c|
            && b[lo..lo + n] == c[lo..lo + n] == KeyBytes(log[i].key)
  {
    hide LogBytes, EntryLen, RecBytes, ValueOffset, KeyBytes;
    assert more[..|log|][i].key == log[i].key;
    SameKeysSameEnd(log[..i], more[..i]);
    var k := log[i].key;
    ValueAtBounds(log, i);
    ValueAtBounds(more, i);
    EndInFile(b, log);
    EndInFile(c, more);
    RecordBytes(b, log, i);
    RecordBytes(c, more, i);
    EntryPrefix(k, log[i].value, log[i].value);
    EntryPrefix(k, more[i].value, more[i].value);
    var lo, n := Start(log, i), |KeyBytes(k)|;
    assert RecBytes(log[i])[..n] == KeyBytes(k) == RecBytes(more[i])[..n];
    SliceOfSlice(b, lo, Start(log, i + 1), 0, n);
    SliceOfSlice(c, lo, Start(more, i + 1), 0, n);
  }

  /** So the writer always meets the condition under which a parse can be resumed. */
  lemma {:induction false} ResumeAllowed(b: seq<byte>, log: seq<Rec>, c: seq<byte>, more: seq<Rec>, i: nat)
    requires WellFormed(b, log) && WellFormed(c, more) && KeysExtend(log, more) && i <= |log|
    ensures End(log) <= |b| && SameKeyBytes(b, c, Start(log, i), End(log))
    decreases |log| - i
  {
    hide LogBytes, End, EntryLen, KeyBytes, ValueOffset, DecodeAt, WellFormed;
    DecodeAtStart(b, log, i);
    EndInFile(b, log);
    if i < |log| {
      PublishedKeyBytesStay(b, log, c, more, i);
      StartStep(log, i);
      ResumeAllowed(b, log, c, more, i + 1);
    }
  }

  // ----- crash and reopen -----

  /** Opening after a crash at any point finds, or creates, the image of the published log. */
  lemma ReopenImage(s: File, pageSize: nat)
    requires 0 < pageSize <= U32_MAX && Inv(s)
    ensures WellFormed(Prepared(s.bytes, pageSize), s.log)
  {
    hide WellFormed, End, U32At, EmptyImage;
    var b := s.bytes;
    if WellFormed(b, s.log) {
      VersionOf(b, s.log);
      EndInFile(b, s.log);
      assert End(s.log) >= HEADER_SIZE;
    } else {
      var long := if |b| < HEADER_SIZE then b + Zeros(PageAligned(HEADER_SIZE, pageSize).value - |b|) else b;
      if |b| < HEADER_SIZE {
        BlankExtend(b, PageAligned(HEADER_SIZE, pageSize).value - |b|);
      }
      BlankLong(long);
      EmptyImageFormat(|long|);
    }
  }

  /** `open` on the bytes a crash left behind succeeds and has exactly the published contents. */
  method Recover(s: File, pageSize: nat) returns (store: MmapMetricStore)
    requires 0 < pageSize <= U32_MAX && Inv(s)
    ensures fresh(store) && fresh(store.mmap) && store.Valid() && store.pageSize == pageSize
    ensures store.log == s.log && store.Model() == Contents(s.log)
  {
    ReopenImage(s, pageSize);
    var found, r := MmapMetricStore.Open(s.bytes, pageSize, true, s.log);
    store := found;
  }

  /** The steps of opening cannot get stuck. */
  lemma OpenProceeds(s: File, pageSize: nat)
    requires 0 < pageSize <= U32_MAX && Inv(s)
    ensures s.writer == Opening ==> Enabled(s, Extend, pageSize) || Enabled(s, KeepLength, pageSize)
    ensures s.writer == Mapped ==> Enabled(s, StartInit, pageSize) || Enabled(s, FinishOpen, pageSize)
  {
    hide WellFormed, End, U32At, UsedOf, ScanFrom, Items;
    if s.writer == Mapped {
      BlankLong(s.bytes);
      if WellFormed(s.bytes, s.log) {
        VersionOf(s.bytes, s.log);
        OpenWellFormed(s.bytes, s.log);
      }
    }
  }

  // ----- whole runs -----

  ghost predicate WriterRun(states: seq<File>, actions: seq<Action>, pageSize: nat)
    requires 0 < pageSize <= U32_MAX
  {
    && |states| == |actions| + 1
    && Initial(states[0])
    && forall i | 0 <= i < |actions| ::
         Enabled(states[i], actions[i], pageSize) && states[i + 1] == Apply(states[i], actions[i], pageSize)
  }

  lemma {:induction false} RunKeepsInv(states: seq<File>, actions: seq<Action>, pageSize: nat, i: nat)
    requires 0 < pageSize <= U32_MAX && WriterRun(states, actions, pageSize) && i < |states|
    ensures Inv(states[i])
  {
    hide Inv, Enabled, Apply;
    if i == 0 {
      assert Inv(states[0]) by { InitialInv(states[0]); }
    } else {
      RunKeepsInv(states, actions, pageSize, i - 1);
      InvStep(states[i - 1], actions[i - 1], pageSize);
    }
  }

  lemma InitialInv(s: File)
    requires Initial(s)
    ensures Inv(s)
  {
  }

  lemma {:induction false} RunMonotone(states: seq<File>, actions: seq<Action>, pageSize: nat, i: nat, j: nat)
    requires 0 < pageSize <= U32_MAX && WriterRun(states, actions, pageSize) && i <= j < |states|
    ensures KeysExtend(states[i].log, states[j].log) && |states[i].bytes| <= |states[j].bytes|
    decreases j - i
  {
    hide Inv, Enabled, Apply;
    if i < j {
      RunMonotone(states, actions, pageSize, i, j - 1);
      RunKeepsInv(states, actions, pageSize, j - 1);
      StepMonotone(states[j - 1], actions[j - 1], pageSize);
      KeysExtendTrans(states[i].log, states[j - 1].log, states[j].log);
    }
  }

  /** Over a whole life of a file, with crashes and reopenings at any moment: whatever was published at
      step `i` is still there at step `j`, under the same keys and in the same place, and a store that
      opens the file after step `j` has exactly the contents published by then. */
  lemma NothingPublishedIsLost(states: seq<File>, actions: seq<Action>, pageSize: nat, i: nat, j: nat)
    requires 0 < pageSize <= U32_MAX && WriterRun(states, actions, pageSize) && i <= j < |states|
    ensures KeysExtend(states[i].log, states[j].log)
    ensures WellFormed(Prepared(states[j].bytes, pageSize), states[j].log)
    ensures forall k | 0 <= k < |states[i].log| :: states[i].log[k].key in Contents(states[j].log)
  {
    RunMonotone(states, actions, pageSize, i, j);
    RunKeepsInv(states, actions, pageSize, j);
    ReopenImage(states[j], pageSize);
    var log, more := states[i].log, states[j].log;
    forall k | 0 <= k < |log|
      ensures log[k].key in Contents(more)
    {
      hide Contents, End, Inv;
      assert more[..|log|][k].key == log[k].key;
      EndInFile(Prepared(states[j].bytes, pageSize), more);
      ContentsAt(more, k);
    }
  }

  // ----- the store performs these steps -----

  /** The file while an entry is being saved: the room made for it and the bytes written so far. */
  function SavingImage(room: seq<byte>, log: seq<Rec>, rec: Rec, saved: nat): seq<byte>
    requires saved <= EntryLen(rec.key) && End(log) + EntryLen(rec.key) <= |room|
  {
    Patch(room, End(log), RecBytes(rec)[..saved])
  }

  lemma BeginImage(s: File, rec: Rec, pageSize: nat)
    requires 0 < pageSize <= U32_MAX && Inv(s) && Enabled(s, Begin(rec), pageSize)
    ensures var room := Room(s.bytes, End(s.log) + EntryLen(rec.key), pageSize);
            && End(s.log) + EntryLen(rec.key) <= |room|
            && Apply(s, Begin(rec), pageSize) == File(SavingImage(room, s.log, rec, 0), Saving(rec, 0), s.log)
  {
    hide End, EntryLen, RecBytes, WellFormed, Room, Growable;
    var room := Room(s.bytes, End(s.log) + EntryLen(rec.key), pageSize);
    RoomFits(s.bytes, End(s.log) + EntryLen(rec.key), pageSize);
    assert RecBytes(rec)[..0] == [] && room == room[..End(s.log)] + [] + room[End(s.log)..];
  }

  lemma PieceImage(room: seq<byte>, log: seq<Rec>, rec: Rec, saved: nat, n: nat, pageSize: nat)
    requires 0 < pageSize <= U32_MAX && 0 < n && saved + n <= EntryLen(rec.key)
    requires End(log) + EntryLen(rec.key) <= |room|
    ensures var s := File(SavingImage(room, log, rec, saved), Saving(rec, saved), log);
            && Enabled(s, SavePiece(n), pageSize)
            && Apply(s, SavePiece(n), pageSize)
               == File(SavingImage(room, log, rec, saved + n), Saving(rec, saved + n), log)
  {
    hide End, EntryLen, RecBytes, WellFormed;
    var e := RecBytes(rec);
    PatchJoin(room, End(log), e[..saved], e[saved..saved + n]);
    SplitRange(e, 0, saved, saved + n);
  }

  /** The file when a whole entry has been saved. */
  function Saved(room: seq<byte>, log: seq<Rec>, rec: Rec): File
    requires End(log) + EntryLen(rec.key) <= |room|
  {
    File(SavingImage(room, log, rec, EntryLen(rec.key)), Saving(rec, EntryLen(rec.key)), log)
  }

  /** `d` is the file `s` with one more record, as the store's `Append` leaves it. */
  predicate OneMoreRecord(s: File, d: File, rec: Rec, pageSize: nat) {
    d.writer == Idle && d.log == s.log + [rec] && Appended(s.bytes, s.log, d.bytes, rec, pageSize)
  }

  /** However the entry was cut into pieces, publishing it leaves the bytes that the store's `Append`
      produces in one call. */
  lemma PublishImage(s: File, rec: Rec, pageSize: nat)
    requires 0 < pageSize <= U32_MAX && Inv(s) && Enabled(s, Begin(rec), pageSize)
    requires End(s.log) + EntryLen(rec.key) <= U32_MAX
    ensures End(s.log) + EntryLen(rec.key) <= |Apply(s, Begin(rec), pageSize).bytes|
    ensures var t := Saved(Apply(s, Begin(rec), pageSize).bytes, s.log, rec);
            Enabled(t, Publish, pageSize) && OneMoreRecord(s, Apply(t, Publish, pageSize), rec, pageSize)
  {
    hide End, EntryLen, RecBytes, WellFormed, Patch, GrownLen, Growable, Appended, Inv;
    var needed := End(s.log) + EntryLen(rec.key);
    assert WellFormed(s.bytes, s.log) by { IdleWellFormed(s); }
    EndInFile(s.bytes, s.log);
    RoomFits(s.bytes, needed, pageSize);
    if needed > |s.bytes| {
      DoubledBounds(|s.bytes|, needed);
    }
    var room := Room(s.bytes, needed, pageSize);
    assert room == s.bytes + Zeros(|room| - |s.bytes|);
    assert RecBytes(rec)[..EntryLen(rec.key)] == RecBytes(rec);
    AppendedHolds(s.bytes, s.log, room, rec, pageSize);
  }

  /** `t` is reached from `s` by saving pieces of these lengths. */
  predicate PieceRun(s: File, pieces: seq<nat>, t: File, pageSize: nat)
    requires 0 < pageSize <= U32_MAX
    decreases |pieces|
  {
    if pieces == [] then t == s
    else Enabled(s, SavePiece(pieces[0]), pageSize) && PieceRun(Apply(s, SavePiece(pieces[0]), pageSize), pieces[1..], t, pageSize)
  }

  lemma {:induction false} PiecesImage(room: seq<byte>, log: seq<Rec>, rec: Rec, saved: nat, pieces: seq<nat>, t: File, pageSize: nat)
    returns (end: nat)
    requires 0 < pageSize <= U32_MAX && saved <= EntryLen(rec.key) && End(log) + EntryLen(rec.key) <= |room|
    requires PieceRun(File(SavingImage(room, log, rec, saved), Saving(rec, saved), log), pieces, t, pageSize)
    ensures saved <= end <= EntryLen(rec.key) && t == File(SavingImage(room, log, rec, end), Saving(rec, end), log)
    decreases |pieces|
  {
    hide End, EntryLen, SavingImage;
    if pieces == [] {
      end := saved;
    } else {
      var n := pieces[0];
      PieceImage(room, log, rec, saved, n, pageSize);
      end := PiecesImage(room, log, rec, saved + n, pieces[1..], t, pageSize);
    }
  }

  /** However an entry is cut into pieces, publishing it leaves what the store's `Append` leaves. */
  lemma HoweverCut(s: File, rec: Rec, pieces: seq<nat>, t: File, pageSize: nat)
    requires 0 < pageSize <= U32_MAX && Inv(s) && Enabled(s, Begin(rec), pageSize)
    requires PieceRun(Apply(s, Begin(rec), pageSize), pieces, t, pageSize) && Enabled(t, Publish, pageSize)
    ensures OneMoreRecord(s, Apply(t, Publish, pageSize), rec, pageSize)
  {
    hide End, EntryLen, SavingImage, Inv, PieceRun, OneMoreRecord, Room, Growable;
    BeginImage(s, rec, pageSize);
    var room := Apply(s, Begin(rec), pageSize).bytes;
    NothingSaved(room, s.log, rec);
    var end := PiecesImage(room, s.log, rec, 0, pieces, t, pageSize);
    PublishImage(s, rec, pageSize);
  }

  lemma NothingSaved(room: seq<byte>, log: seq<Rec>, rec: Rec)
    requires End(log) + EntryLen(rec.key) <= |room|
    ensures SavingImage(room, log, rec, 0) == room
  {
    hide End, EntryLen, RecBytes;
    assert RecBytes(rec)[..0] == [] && room == room[..End(log)] + [] + room[End(log)..];
  }

  lemma IdleWellFormed(s: File)
    requires Inv(s) && s.writer == Idle
    ensures WellFormed(s.bytes, s.log)
  {
  }
}
