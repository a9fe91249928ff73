/** The writer's steps against the store's methods: every step the store needs can be taken, and opening a
    file step by step leaves what the store's `Open` leaves. */
module WriterOpening {
  import opened Bytes
  import opened RawEntries
  import opened MetricLog
  import opened LogScan
  import opened Growth
  import opened MmapFile
  import opened WriterProtocol

  // ----- steps that can be taken -----

  /** A store that is open can update every record, in the bytes and in the log as `Overwrite` does, and can
      begin to save any new key for which the file can grow. */
  lemma IdleCanStep(s: File, i: nat, v: Bits, rec: Rec, pageSize: nat)
    requires 0 < pageSize <= U32_MAX && Inv(s) && s.writer == Idle
    ensures i < |s.log| ==>
              && ValueAt(s.log, i) + 8 <= |s.bytes| && Enabled(s, Update(i, v), pageSize)
              && Apply(s, Update(i, v), pageSize)
                 == File(Patch(s.bytes, ValueAt(s.log, i), v), Idle, s.log[i := Rec(s.log[i].key, v)])
    ensures !HasKey(s.log, rec.key) && Growable(|s.bytes|, End(s.log) + EntryLen(rec.key), pageSize) ==>
              Enabled(s, Begin(rec), pageSize)
  {
    hide WellFormed, End, EntryLen, ValueAt, Growable, HasKey;
    IdleWellFormed(s);
    EndInFile(s.bytes, s.log);
    if i < |s.log| {
      ValueBytes(s.bytes, s.log, i);
    }
  }

  /** A process can be killed at any moment, and that leaves bytes and log as they are. */
  lemma CrashAnywhere(s: File, pageSize: nat)
    requires 0 < pageSize <= U32_MAX
    ensures Enabled(s, Crash, pageSize) && Apply(s, Crash, pageSize) == File(s.bytes, Closed, s.log)
  {
    hide Growable, ScanFrom;
  }

  /** An entry can be saved and published, in one piece for instance, unless `used` would no longer fit. */
  lemma SavingProceeds(s: File, rec: Rec, pageSize: nat) returns (t: File)
    requires 0 < pageSize <= U32_MAX && Inv(s) && Enabled(s, Begin(rec), pageSize)
    ensures PieceRun(Apply(s, Begin(rec), pageSize), [EntryLen(rec.key)], t, pageSize)
    ensures if End(s.log) + EntryLen(rec.key) <= U32_MAX then Enabled(t, Publish, pageSize) else Enabled(t, Abandon, pageSize)
  {
    hide Inv, SavingImage, RecBytes, Room, Growable, End, EntryLen, PieceRun;
    BeginImage(s, rec, pageSize);
    var room := Room(s.bytes, End(s.log) + EntryLen(rec.key), pageSize);
    PieceImage(room, s.log, rec, 0, EntryLen(rec.key), pageSize);
    t := Saved(room, s.log, rec);
    LastPiece(Apply(s, Begin(rec), pageSize), EntryLen(rec.key), t, pageSize);
    Finishes(t, pageSize);
  }

  lemma Finishes(t: File, pageSize: nat)
    requires 0 < pageSize <= U32_MAX && t.writer.Saving? && t.writer.saved == EntryLen(t.writer.rec.key)
    requires |t.bytes| >= HEADER_SIZE
    ensures if End(t.log) + EntryLen(t.writer.rec.key) <= U32_MAX then Enabled(t, Publish, pageSize) else Enabled(t, Abandon, pageSize)
  {
  }

  lemma LastPiece(s: File, n: nat, t: File, pageSize: nat)
    requires 0 < pageSize <= U32_MAX && Enabled(s, SavePiece(n), pageSize) && t == Apply(s, SavePiece(n), pageSize)
    ensures PieceRun(s, [n], t, pageSize)
  {
    hide Enabled, Apply;
    assert [n][1..] == [];
  }

  // ----- opening -----

  /** The bytes when the file has been extended to hold a header. */
  function Lengthened(b: seq<byte>, pageSize: nat): (c: seq<byte>)
    requires 0 < pageSize <= U32_MAX
    ensures |c| >= HEADER_SIZE
  {
    if |b| < HEADER_SIZE then b + Zeros(PageAligned(HEADER_SIZE, pageSize).value - |b|) else b
  }

  /** Where the opening of a file with bytes `b` has come to. */
  predicate OpeningAt(s: File, b: seq<byte>, pageSize: nat)
    requires 0 < pageSize <= U32_MAX
  {
    var long := Lengthened(b, pageSize);
    match s.writer
    case Opening => s.bytes == b
    case Mapped => s.bytes == long
    case Zeroing(done) => U32At(long, 4) != FILE_FORMAT_VERSION && done <= |long| && s.bytes == Zeros(done) + long[done..]
    case UsedWritten => U32At(long, 4) != FILE_FORMAT_VERSION && s.bytes == Patch(Zeros(|long|), 0, U32Bytes(HEADER_SIZE))
    case Idle => s.bytes == Prepared(b, pageSize)
    case _ => false
  }

  lemma MoreZeros(long: seq<byte>, done: nat, n: nat)
    requires done + n <= |long|
    ensures Patch(Zeros(done) + long[done..], done, Zeros(n)) == Zeros(done + n) + long[done + n..]
  {
    var b := Zeros(done) + long[done..];
    assert b[..done] == Zeros(done) && b[done + n..] == long[done + n..];
    assert Zeros(done) + Zeros(n) == Zeros(done + n);
  }

  lemma OpeningStep(s: File, a: Action, b: seq<byte>, pageSize: nat)
    requires 0 < pageSize <= U32_MAX && OpeningAt(s, b, pageSize) && s.writer != Idle && a != Crash && Enabled(s, a, pageSize)
    ensures OpeningAt(Apply(s, a, pageSize), b, pageSize) && Apply(s, a, pageSize).log == s.log
  {
    hide U32At, ScanFrom, UsedOf, End, EntryLen, Patch, PageAligned;
    var long := Lengthened(b, pageSize);
    match a
    case StartInit => assert Zeros(0) + long[0..] == long;
    case ZeroPiece(n) => MoreZeros(long, s.writer.done, n);
    case InitUsed => assert Zeros(|long|) + long[|long|..] == Zeros(|long|);
    case _ =>
  }

  /** `t` is reached from `s` by steps of the opening writer. */
  predicate OpeningRun(s: File, actions: seq<Action>, t: File, pageSize: nat)
    requires 0 < pageSize <= U32_MAX
    decreases |actions|
  {
    if actions == [] then t == s
    else
      && s.writer != Idle && actions[0] != Crash && Enabled(s, actions[0], pageSize)
      && OpeningRun(Apply(s, actions[0], pageSize), actions[1..], t, pageSize)
  }

  lemma {:induction false} OpeningKeeps(s: File, actions: seq<Action>, t: File, b: seq<byte>, pageSize: nat)
    requires 0 < pageSize <= U32_MAX && OpeningAt(s, b, pageSize) && OpeningRun(s, actions, t, pageSize)
    ensures OpeningAt(t, b, pageSize) && t.log == s.log
    decreases |actions|
  {
    hide OpeningAt, Enabled, Apply;
    if actions != [] {
      OpeningStep(s, actions[0], b, pageSize);
      OpeningKeeps(Apply(s, actions[0], pageSize), actions[1..], t, b, pageSize);
    }
  }

  /** However the opening of a file is cut into steps, it leaves the bytes that the store's `Open` leaves,
      and publishes nothing. */
  lemma HoweverOpened(s: File, actions: seq<Action>, t: File, pageSize: nat)
    requires 0 < pageSize <= U32_MAX && s.writer == Closed
    requires OpeningRun(Apply(s, OpenFile, pageSize), actions, t, pageSize)
    ensures t.log == s.log
    ensures t.writer == Idle ==> t.bytes == Prepared(s.bytes, pageSize)
  {
    hide OpeningRun, Prepared;
    OpeningKeeps(Apply(s, OpenFile, pageSize), actions, t, s.bytes, pageSize);
  }

  /** And there is such a run, whatever a crash has left. */
  lemma OpeningEnds(s: File, pageSize: nat) returns (actions: seq<Action>, t: File)
    requires 0 < pageSize <= U32_MAX && Inv(s) && s.writer == Closed
    ensures OpeningRun(Apply(s, OpenFile, pageSize), actions, t, pageSize) && t.writer == Idle && Inv(t)
  {
    hide Inv, Enabled, Apply, OpeningRun;
    var o := Opened(s, pageSize);
    var a, m := ToMapped(o, pageSize);
    var rest;
    rest, t := ToIdle(m, pageSize);
    actions := [a] + rest;
    StepInFront(o, a, rest, t, pageSize);
  }

  lemma Opened(s: File, pageSize: nat) returns (o: File)
    requires 0 < pageSize <= U32_MAX && Inv(s) && s.writer == Closed
    ensures Enabled(s, OpenFile, pageSize) && o == Apply(s, OpenFile, pageSize) && o.writer == Opening && Inv(o)
  {
    hide Consistent;
    o := Apply(s, OpenFile, pageSize);
  }

  lemma StepInFront(s: File, a: Action, rest: seq<Action>, t: File, pageSize: nat)
    requires 0 < pageSize <= U32_MAX && s.writer != Idle && a != Crash && Enabled(s, a, pageSize)
    requires OpeningRun(Apply(s, a, pageSize), rest, t, pageSize)
    ensures OpeningRun(s, [a] + rest, t, pageSize)
  {
    hide Enabled, Apply;
    assert ([a] + rest)[1..] == rest;
  }

  lemma ToMapped(s: File, pageSize: nat) returns (a: Action, t: File)
    requires 0 < pageSize <= U32_MAX && Inv(s) && s.writer == Opening
    ensures Enabled(s, a, pageSize) && t == Apply(s, a, pageSize) && t.writer == Mapped && Inv(t)
    ensures a == Extend || a == KeepLength
  {
    hide Inv, Growable, ScanFrom;
    OpenProceeds(s, pageSize);
    a := if |s.bytes| < HEADER_SIZE then Extend else KeepLength;
    t := Apply(s, a, pageSize);
    InvStep(s, a, pageSize);
  }

  lemma StepTaken(s: File, a: Action, pageSize: nat) returns (t: File)
    requires 0 < pageSize <= U32_MAX && Inv(s) && s.writer != Idle && a != Crash && Enabled(s, a, pageSize)
    ensures t == Apply(s, a, pageSize) && Inv(t) && OpeningRun(s, [a], t, pageSize)
  {
    hide Inv, Apply, Enabled;
    t := Apply(s, a, pageSize);
    InvStep(s, a, pageSize);
    assert [a][1..] == [];
    StepInFront(s, a, [], t, pageSize);
    assert [a] + [] == [a];
  }

  lemma ToIdle(s: File, pageSize: nat) returns (actions: seq<Action>, t: File)
    requires 0 < pageSize <= U32_MAX && Inv(s) && s.writer == Mapped
    ensures OpeningRun(s, actions, t, pageSize) && t.writer == Idle && Inv(t)
  {
    hide Inv, OpeningRun, Growable, ScanFrom, UsedOf;
    OpenProceeds(s, pageSize);
    if Enabled(s, FinishOpen, pageSize) {
      t := StepTaken(s, FinishOpen, pageSize);
      actions := [FinishOpen];
    } else {
      var z := StepTaken(s, StartInit, pageSize);
      var y := StepTaken(z, ZeroPiece(|z.bytes|), pageSize);
      var u := StepTaken(y, InitUsed, pageSize);
      t := StepTaken(u, InitVersion, pageSize);
      StepInFront(y, InitUsed, [InitVersion], t, pageSize);
      StepInFront(z, ZeroPiece(|z.bytes|), [InitUsed] + [InitVersion], t, pageSize);
      actions := [StartInit] + ([ZeroPiece(|z.bytes|)] + ([InitUsed] + [InitVersion]));
      StepInFront(s, StartInit, [ZeroPiece(|z.bytes|)] + ([InitUsed] + [InitVersion]), t, pageSize);
    }
  }
}
