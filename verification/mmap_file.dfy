/** The writer's store of src/mmap_file.rs: a mapped, growable byte buffer holding a log of entries,
    and an in-memory index from key to value offset. */
module MmapFile {
  import opened Bytes
  import opened SeqFacts
  import opened Utf8Text
  import opened RawEntries
  import opened MetricLog
  import opened LogScan
  import opened LogContents
  import opened Growth

  /** What the operating system answers when a file has to grow. */
  datatype Io = AllOk | FlushFails | SetLenFails | RemapFails

  /** `used()`: the boundary a mapped file announces. */
  function UsedOf(b: seq<byte>): (r: Result<nat>)
    ensures r.Ok? && |b| >= HEADER_SIZE ==> r.value <= |b|
  {
    if |b| < HEADER_SIZE then Ok(HEADER_SIZE) else
    var used := U32At(b, 0);
    if used == 0 then Ok(HEADER_SIZE)
    else if used > |b| then Err(InvalidUsed(used, |b|))
    else Ok(used)
  }

  /** An initialised file without entries. */
  function EmptyImage(len: nat): (b: seq<byte>)
    requires len >= HEADER_SIZE
    ensures |b| == len
  {
    Patch(Patch(Zeros(len), 0, U32Bytes(HEADER_SIZE)), 4, U32Bytes(FILE_FORMAT_VERSION))
  }

  lemma EmptyImageFormat(len: nat)
    requires len >= HEADER_SIZE
    ensures WellFormed(EmptyImage(len), [])
  {
    var a := Patch(Zeros(len), 0, U32Bytes(HEADER_SIZE));
    var b := EmptyImage(len);
    PatchSlices(Zeros(len), 0, U32Bytes(HEADER_SIZE));
    PatchSlices(a, 4, U32Bytes(FILE_FORMAT_VERSION));
    U32Local(b, 4, U32Bytes(FILE_FORMAT_VERSION));
    assert b[0..4] == b[..4] == a[..4] == a[0..4];
    U32Local(b, 0, U32Bytes(HEADER_SIZE));
    U32RoundTrip(HEADER_SIZE);
    U32RoundTrip(FILE_FORMAT_VERSION);
    WellFormedEmpty(b);
  }

  /** The bytes a file has once `with_file` has opened it. */
  function Prepared(file: seq<byte>, pageSize: nat): (b: seq<byte>)
    requires 0 < pageSize <= U32_MAX
    ensures |b| >= HEADER_SIZE
  {
    var b := if |file| < HEADER_SIZE
             then file + Zeros(PageAligned(HEADER_SIZE, pageSize).value - |file|) else file;
    if U32At(b, 4) != FILE_FORMAT_VERSION then EmptyImage(|b|)
    else if U32At(b, 0) == 0 then Patch(b, 0, U32Bytes(HEADER_SIZE))
    else b
  }

  /** The file has a header of this version. */
  predicate OfThisVersion(file: seq<byte>) {
    |file| >= HEADER_SIZE && U32At(file, 4) == FILE_FORMAT_VERSION
  }

  /** What opening does to any bytes: it extends what is too short for a header, sets a `used` word of zero,
      and empties what is of another version.  Everything else stays as it is, whether it can be read or not. */
  lemma PreparedMeaning(file: seq<byte>, pageSize: nat)
    requires 0 < pageSize <= U32_MAX
    ensures var b := Prepared(file, pageSize);
            && (OfThisVersion(file) && U32At(file, 0) != 0 ==> b == file)
            && (OfThisVersion(file) && U32At(file, 0) == 0 ==> |b| == |file| && U32At(b, 0) == HEADER_SIZE && b[4..] == file[4..])
            && (|file| >= HEADER_SIZE && !OfThisVersion(file) ==>
                  |b| == |file| && U32At(b, 0) == HEADER_SIZE && U32At(b, 4) == FILE_FORMAT_VERSION
                  && b[HEADER_SIZE..] == Zeros(|file| - HEADER_SIZE))
            && (|file| < HEADER_SIZE ==>
                  exists n: nat :: n < pageSize + HEADER_SIZE && (|file| + n) % pageSize == 0 && |file| + n >= HEADER_SIZE
                    && b == Prepared(file + Zeros(n), pageSize))
  {
    hide U32At;
    if |file| < HEADER_SIZE {
      var n := PageAligned(HEADER_SIZE, pageSize).value - |file|;
      assert Prepared(file, pageSize) == Prepared(file + Zeros(n), pageSize);
    } else if !OfThisVersion(file) {
      EmptyImageBytes(|file|);
    } else if U32At(file, 0) == 0 {
      PatchSlices(file, 0, U32Bytes(HEADER_SIZE));
      U32RoundTrip(HEADER_SIZE);
      U32Local(Prepared(file, pageSize), 0, U32Bytes(HEADER_SIZE));
    }
  }

  lemma EmptyImageBytes(len: nat)
    requires len >= HEADER_SIZE
    ensures var b := EmptyImage(len);
            U32At(b, 0) == HEADER_SIZE && U32At(b, 4) == FILE_FORMAT_VERSION && b[HEADER_SIZE..] == Zeros(len - HEADER_SIZE)
  {
    hide U32At;
    EmptyImageFormat(len);
    EmptyHolds(EmptyImage(len));
  }

  lemma EmptyHolds(b: seq<byte>)
    requires WellFormed(b, [])
    ensures U32At(b, 0) == HEADER_SIZE && U32At(b, 4) == FILE_FORMAT_VERSION
  {
    hide U32At;
  }

  /** A boundary behind the end of a file of this version is an error, and nothing is written. */
  lemma OutOfReach(file: seq<byte>, pageSize: nat)
    requires 0 < pageSize <= U32_MAX
    ensures OfThisVersion(file) && U32At(file, 0) > |file| ==> Prepared(file, pageSize) == file && UsedOf(file).Err?
  {
    hide U32At;
  }

  /** Whether a new key can be published in a file of a given size. */
  predicate RoomFor(s: Size, key: StoredMetricKey, io: Io) {
    && Storable(key)
    && s.used + EntryLen(key) <= U32_MAX
    && (s.used + EntryLen(key) <= s.len || io == AllOk)
  }

  /** What an update does to the size: success is one publication, with an entry more for a new key;
      a failure publishes nothing, though it may leave the file longer. */
  predicate Resized(a: Size, b: Size, m: map<StoredMetricKey, Bits>, key: StoredMetricKey, ok: bool, pageSize: nat)
    requires pageSize > 0
  {
    if ok then
      && Publication(a, b, pageSize)
      && (key in m ==> b.used == a.used)
      && (key !in m ==> Storable(key) && b.used == a.used + EntryLen(key))
    else a.used == b.used && a.len <= b.len
  }

  class MmapMetricStore {
    var mmap: array<byte>
    var positions: map<StoredMetricKey, nat>
    const pageSize: nat
    ghost var log: seq<Rec>

    ghost predicate Valid()
      reads this, mmap
    {
      && 0 < pageSize <= U32_MAX
      && WellFormed(mmap[..], log)
      && positions == IndexOf(Items(log))
    }

    /** What the store means to its callers: a map in which an absent key reads as zero. */
    ghost function Model(): map<StoredMetricKey, Bits>
      reads this
    {
      Contents(log)
    }

    /** The length of the file and the published boundary in it. */
    ghost function Extent(): Size
      reads this
    {
      Size(mmap.Length, End(log))
    }

    constructor Map(file: seq<byte>, pageSize: nat)
      ensures fresh(mmap) && mmap[..] == file
      ensures this.pageSize == pageSize && positions == map[] && log == []
    {
      mmap := new byte[|file|](i requires 0 <= i < |file| => file[i]);
      this.pageSize := pageSize;
      positions := map[];
      log := [];
    }

    function Used(): Result<nat>
      reads this, mmap
    {
      UsedOf(mmap[..])
    }

    method WriteUsedHeader(used: nat) returns (r: Result<()>)
      requires mmap.Length >= HEADER_SIZE
      modifies mmap
      ensures r == if used <= U32_MAX then Ok(()) else Err(Overflow)
      ensures mmap[..] == if used <= U32_MAX then Patch(old(mmap[..]), 0, U32Bytes(used)) else old(mmap[..])
    {
      if used > U32_MAX { return Err(Overflow); }
      CopyInto(mmap, 0, U32Bytes(used));
      r := Ok(());
    }

    method InitializeEmptyFile()
      requires mmap.Length >= HEADER_SIZE
      modifies mmap
      ensures mmap[..] == EmptyImage(mmap.Length)
    {
      var i := 0;
      while i < mmap.Length
        invariant 0 <= i <= mmap.Length
        invariant forall k | 0 <= k < i :: mmap[k] == 0
      {
        mmap[i] := 0;
        i := i + 1;
      }
      assert mmap[..] == Zeros(mmap.Length);
      var r := WriteUsedHeader(HEADER_SIZE);
      CopyInto(mmap, 4, U32Bytes(FILE_FORMAT_VERSION));
    }

    /** `with_file`: the mapped file with a header in it. */
    static method Prepare(file: seq<byte>, pageSize: nat, setLenOk: bool) returns (store: MmapMetricStore?, r: Result<()>)
      requires 0 < pageSize <= U32_MAX
      ensures r.Ok? <==> (|file| < HEADER_SIZE ==> setLenOk)
      ensures r.Ok? ==> store != null && fresh(store) && fresh(store.mmap) && store.pageSize == pageSize
      ensures r.Ok? ==> store.mmap[..] == Prepared(file, pageSize)
    {
      var bytes := file;
      r := Ok(());
      if |file| < HEADER_SIZE {
        var size := PageAligned(HEADER_SIZE, pageSize);
        if !setLenOk { return null, Err(Error.Io); }
        bytes := file + Zeros(size.value - |file|);
      }
      store := new MmapMetricStore.Map(bytes, pageSize);
      if U32At(store.mmap[..], 4) != FILE_FORMAT_VERSION {
        store.InitializeEmptyFile();
      } else if U32At(store.mmap[..], 0) == 0 {
        var w := store.WriteUsedHeader(HEADER_SIZE);
      }
      assert store.mmap[..] == Prepared(file, pageSize);
    }

    /** `with_file` and `rebuild_index`.  Opening any file succeeds exactly when its announced
        boundary is inside it and the scan of its entries reaches that boundary; a file holding a
        log comes back with that log. */
    static method Open(file: seq<byte>, pageSize: nat, setLenOk: bool, ghost log: seq<Rec>)
      returns (store: MmapMetricStore?, r: Result<()>)
      requires 0 < pageSize <= U32_MAX
      ensures (|file| < HEADER_SIZE ==> setLenOk) <==> store != null
      ensures store != null ==> fresh(store) && fresh(store.mmap) && store.pageSize == pageSize
      ensures store != null ==> store.mmap[..] == Prepared(file, pageSize)
      ensures r.Ok? <==>
                && store != null
                && var b := Prepared(file, pageSize);
                   && UsedOf(b).Ok?
                   && ScanFrom(b, HEADER_SIZE, UsedOf(b).value).stop == Exhausted
      ensures r.Ok? ==>
                var b := Prepared(file, pageSize); store.positions == IndexOf(ScanFrom(b, HEADER_SIZE, UsedOf(b).value).items)
      ensures store != null && WellFormed(Prepared(file, pageSize), log) ==> r.Ok? && store.Valid() && store.log == log
      ensures OfThisVersion(file) && U32At(file, 0) > |file| ==> r.Err? && store != null && store.mmap[..] == file
    {
      hide Prepared, WellFormed, ScanFrom, IndexOf, UsedOf, U32At;
      OutOfReach(file, pageSize);
      store, r := Prepare(file, pageSize, setLenOk);
      if r.Err? { return null, r; }
      r := store.RebuildIndex();
      store.log := log;
      if WellFormed(store.mmap[..], log) {
        OpenWellFormed(store.mmap[..], log);
      }
    }

    method RebuildIndex() returns (r: Result<()>)
      requires mmap.Length >= HEADER_SIZE
      modifies this`positions
      ensures r.Ok? <==> UsedOf(mmap[..]).Ok? && ScanFrom(mmap[..], HEADER_SIZE, UsedOf(mmap[..]).value).stop == Exhausted
      ensures r.Ok? ==> positions == IndexOf(ScanFrom(mmap[..], HEADER_SIZE, UsedOf(mmap[..]).value).items)
    {
      hide ScanFrom, FromSlice, TextKey, IndexOf, CalcValueOffset;
      positions := map[];
      assert IndexOf([]) == map[] by { IndexOfNone(); }
      var u := Used();
      if u.Err? { return Err(u.error); }
      var used := u.value;
      var pos := HEADER_SIZE;
      ghost var b := mmap[..];
      ghost var all := ScanFrom(b, HEADER_SIZE, used);
      ghost var done: seq<Item> := [];
      while pos + 12 <= used
        invariant HEADER_SIZE <= pos
        invariant all == var rest := ScanFrom(b, pos, used); Scan(done + rest.items, rest.pos, rest.stop)
        invariant positions == IndexOf(done)
        decreases used - pos
      {
        ScanTurn(b, pos, used);
        assert b[pos..used] == mmap[pos..used];
        var entry := FromSlice(mmap[pos..used]);
        if entry.Err? { return Err(entry.error); }
        var e := entry.value;
        var valueOffset := pos + CalcValueOffset(|e.FamilyBytes()|, |e.SampleBytes()|, |e.LabelsBytes()|).value;
        var key := TextKey(e);
        if key.None? { return Err(Utf8); }
        CollectItem(done, Item(key.value, valueOffset));
        Assoc(done, [Item(key.value, valueOffset)], ScanFrom(b, pos + e.TotalLen(), used).items);
        done := done + [Item(key.value, valueOffset)];
        positions := positions[key.value := valueOffset];
        pos := pos + e.TotalLen();
      }
      ScanDone(b, pos, used);
      assert done + [] == done;
      r := Ok(());
    }

    method LoadValue(offset: nat) returns (r: Result<Bits>)
      ensures r.Ok? <==> offset + 8 <= mmap.Length
      ensures r.Ok? ==> r.value == mmap[offset..offset + 8]
    {
      if offset + 8 > mmap.Length { return Err(OutOfBounds(offset + 8, mmap.Length)); }
      r := Ok(mmap[offset..offset + 8]);
    }

    method SaveValue(offset: nat, value: Bits) returns (r: Result<()>)
      modifies mmap
      ensures r.Ok? <==> offset + 8 <= mmap.Length
      ensures r.Ok? ==> mmap[..] == Patch(old(mmap[..]), offset, value)
      ensures r.Err? ==> mmap[..] == old(mmap[..])
    {
      if offset + 8 > mmap.Length { return Err(OutOfBounds(offset + 8, mmap.Length)); }
      CopyInto(mmap, offset, value);
      r := Ok(());
    }

    /** A read never fails: the index only holds offsets whose value is published. */
    method Get(key: StoredMetricKey) returns (r: Result<Bits>)
      requires Valid()
      ensures r == Ok(if key in Model() then Model()[key] else ZERO)
    {
      UsedWellFormed(mmap[..], log);
      ContentsKeys(log, key);
      var used := Used().value;
      if key in positions {
        var offset := positions[key];
        LookupValue(mmap[..], log, key);
        var end: int := offset + 8;
        if end > used { return Err(OutOfBounds(end, used)); }
        r := LoadValue(offset);
        assert mmap[offset..offset + 8] == mmap[..][offset..offset + 8];
        return;
      }
      r := Ok(ZERO);
    }

    /** Grows the mapping by doubling until `needed` bytes fit.  On failure nothing changes. */
    method EnsureCapacity(needed: nat, io: Io) returns (r: Result<()>)
      requires 0 < pageSize <= U32_MAX && mmap.Length >= HEADER_SIZE
      modifies this`mmap
      ensures r.Ok? <==> needed <= old(mmap.Length) || (io == AllOk && Growable(old(mmap.Length), needed, pageSize))
      ensures r.Err? || needed <= old(mmap.Length) ==> mmap == old(mmap)
      ensures r.Ok? && needed > old(mmap.Length) ==>
                && fresh(mmap)
                && needed <= mmap.Length
                && old(mmap.Length) <= mmap.Length
                && mmap.Length == GrownLen(old(mmap.Length), needed, pageSize)
                && GrownTo(old(mmap.Length), needed, pageSize, mmap.Length)
                && mmap[..] == old(mmap[..]) + Zeros(mmap.Length - old(mmap.Length))
    {
      if mmap.Length >= needed { return Ok(()); }
      if io == FlushFails { return Err(Error.Io); }
      var newLen := if mmap.Length < HEADER_SIZE then HEADER_SIZE else mmap.Length;
      DoubledBounds(newLen, needed);
      while newLen < needed
        invariant 0 < newLen && Doubled(newLen, needed) == Doubled(mmap.Length, needed)
        decreases needed - newLen
      {
        var sum := CheckedAdd(newLen, newLen);
        if sum.Err? {
          DoubledAtLeast(2 * newLen, needed);
          return Err(Overflow);
        }
        newLen := sum.value;
      }
      var aligned := PageAligned(newLen, pageSize);
      if aligned.Err? { return Err(Overflow); }
      newLen := aligned.value;
      GrownExactly(mmap.Length, needed, pageSize);
      if io == SetLenFails { return Err(Error.Io); }
      if io == RemapFails { return Err(Error.Io); }
      var old_ := mmap;
      ghost var was := mmap[..];
      mmap := new byte[newLen](i requires 0 <= i < newLen reads old_ => if i < old_.Length then old_[i] else 0);
      assert mmap[..] == was + Zeros(newLen - |was|);
      r := Ok(());
    }

    /** `upsert` on a key that is already in the log: its value is overwritten in place. */
    method Overwrite(key: StoredMetricKey, f: Bits -> Bits) returns (r: Result<Bits>, ghost i: nat)
      requires Valid() && key in positions
      modifies mmap, this`log
      ensures Valid()
      ensures i < |old(log)| && old(log)[i].key == key && key in old(Model())
      ensures r == Ok(f(old(Model())[key])) && Model() == old(Model())[key := r.value]
      ensures log == old(log)[i := Rec(old(log)[i].key, r.value)]
      ensures ValueAt(old(log), i) + 8 <= mmap.Length
      ensures mmap[..] == Patch(old(mmap[..]), ValueAt(old(log), i), r.value)
    {
      hide WellFormed, IndexOf, Items, Contents, ValueAt, End;
      i := IndexedRecord(mmap[..], log, key);
      var offset := positions[key];
      var current := LoadValue(offset);
      assert mmap[offset..offset + 8] == mmap[..][offset..offset + 8];
      var newValue := f(current.value);
      OverwriteKeepsFormat(mmap[..], log, i, newValue);
      ContentsOverwrite(log, i, newValue);
      ItemsOverwrite(log, i, newValue);
      var saved := SaveValue(offset, newValue);
      log := log[i := Rec(log[i].key, newValue)];
      r := Ok(newValue);
    }

    /** `upsert` on a new key: make room, write the entry behind the log, then advance `used`. */
    method Append(key: StoredMetricKey, f: Bits -> Bits, io: Io) returns (r: Result<Bits>)
      requires Valid() && key !in positions
      modifies this, mmap
      ensures Valid()
      ensures mmap == old(mmap) || fresh(mmap)
      ensures key !in old(Model())
      ensures r.Ok? <==> RoomFor(old(Extent()), key, io)
      ensures r.Err? ==> log == old(log) && old(mmap.Length) <= mmap.Length
      ensures r.Ok? ==> r.value == f(ZERO) && log == old(log) + [Rec(key, r.value)]
      ensures r.Ok? ==> Model() == old(Model())[key := r.value]
      ensures r.Ok? ==> Appended(old(mmap[..]), old(log), mmap[..], Rec(key, r.value), pageSize)
    {
      hide WellFormed, IndexOf, Items, Contents, End, EntryLen, RecBytes, ValueOffset, CalcTotalLen, Appended;
      hide Published, GrownLen, Growable, Encode, Patch, Zeros, UsedOf;
      EndInFile(mmap[..], log);
      ContentsKeys(log, key);
      UsedWellFormed(mmap[..], log);
      var used := Used().value;
      var entryLen := CalcTotalLen(|Encode(key.family)|, |Encode(key.sample)|, |Encode(key.labels)|);
      if entryLen.Err? { return Err(entryLen.error); }
      var value := f(ZERO);
      ghost var rec := Rec(key, value);
      RecLayout(rec);
      var newUsed := used + entryLen.value;
      if newUsed > mmap.Length {
        RoomToGrow(mmap.Length, newUsed, pageSize);
      }
      var grown := EnsureCapacity(newUsed, io);
      if grown.Err? { return Err(grown.error); }

      ghost var was, room := old(mmap[..]), mmap[..];
      assert room == was + Zeros(|room| - |was|);
      GrowKeepsFormat(was, log, Zeros(|room| - |was|));
      var offset := PublishEntry(key, value, used, newUsed);
      if offset.Err? {
        WriteBehind(room, log, RecBytes(rec));
        return Err(offset.error);
      }
      PublishKeepsFormat(room, log, rec);
      ContentsAppend(log, rec);
      IndexAppend(log, rec);
      AppendedHolds(was, log, room, rec, pageSize);
      positions := positions[key := used + offset.value];
      log := log + [rec];
      r := Ok(value);
    }

    /** The two writes of a publication, in their order: the entry's bytes, then the `used` word. */
    method PublishEntry(key: LogKey, value: Bits, used: nat, newUsed: nat) returns (r: Result<nat>)
      requires used == End(log) && newUsed == used + EntryLen(key) <= mmap.Length && used >= HEADER_SIZE
      modifies mmap
      ensures r.Ok? <==> newUsed <= U32_MAX
      ensures r.Ok? ==> r.value == ValueOffset(key) && mmap[..] == Published(old(mmap[..]), log, Rec(key, value))
      ensures r.Err? ==> mmap[..] == Patch(old(mmap[..]), used, RecBytes(Rec(key, value)))
    {
      hide End, EntryLen, RecBytes, ValueOffset, CalcTotalLen, CalcValueOffset;
      RecLayout(Rec(key, value));
      r := Save(mmap, used, newUsed, Encode(key.family), Encode(key.sample), Encode(key.labels), value);
      var written := WriteUsedHeader(newUsed);
      if written.Err? { r := Err(written.error); }
    }

    /** Updates one key.  Success and failure are decided by the key, the room left and the operating
        system; a failed call leaves the published log, and so the abstract map, as it was. */
    method Upsert(key: StoredMetricKey, f: Bits -> Bits, io: Io) returns (r: Result<Bits>)
      requires Valid()
      modifies this, mmap
      ensures Valid()
      ensures mmap == old(mmap) || fresh(mmap)
      ensures r.Ok? <==> key in old(Model()) || RoomFor(old(Extent()), key, io)
      ensures r.Ok? ==> r.value == f(if key in old(Model()) then old(Model())[key] else ZERO)
      ensures r.Ok? ==> Model() == old(Model())[key := r.value]
      ensures r.Err? ==> Model() == old(Model()) && log == old(log)
      ensures Resized(old(Extent()), Extent(), old(Model()), key, r.Ok?, pageSize)
    {
      hide WellFormed, IndexOf, Items, Contents, End, EntryLen, Published, Publication, Patch, Appended;
      EndInFile(mmap[..], log);
      ContentsKeys(log, key);
      if key in positions {
        ghost var i;
        r, i := Overwrite(key, f);
        SameKeysSameEnd(old(log), log);
        PublicationSame(mmap.Length, End(log), pageSize);
      } else {
        r := Append(key, f, io);
        if r.Ok? {
          AppendedPublication(old(mmap[..]), old(log), mmap[..], Rec(key, r.value), pageSize);
        }
      }
    }

    method Set(key: StoredMetricKey, value: Bits, io: Io) returns (r: Result<Bits>)
      requires Valid()
      modifies this, mmap
      ensures Valid()
      ensures mmap == old(mmap) || fresh(mmap)
      ensures r.Ok? <==> key in old(Model()) || RoomFor(old(Extent()), key, io)
      ensures r.Ok? ==> r.value == value && Model() == old(Model())[key := value]
      ensures r.Err? ==> Model() == old(Model())
      ensures Resized(old(Extent()), Extent(), old(Model()), key, r.Ok?, pageSize)
    {
      r := Upsert(key, _ => value, io);
    }

    /** Addition is a parameter: the model does not fix how eight bytes are added. */
    method Increment(key: StoredMetricKey, amount: Bits, add: (Bits, Bits) -> Bits, io: Io) returns (r: Result<Bits>)
      requires Valid()
      modifies this, mmap
      ensures Valid()
      ensures mmap == old(mmap) || fresh(mmap)
      ensures r.Ok? <==> key in old(Model()) || RoomFor(old(Extent()), key, io)
      ensures r.Ok? ==> r.value == add(if key in old(Model()) then old(Model())[key] else ZERO, amount)
      ensures r.Ok? ==> Model() == old(Model())[key := r.value]
      ensures r.Err? ==> Model() == old(Model())
      ensures Resized(old(Extent()), Extent(), old(Model()), key, r.Ok?, pageSize)
    {
      r := Upsert(key, v => add(v, amount), io);
    }
  }

  /** The new bytes of a file of which `before` were the old ones, after `rec` was published. */
  predicate Appended(before: seq<byte>, log: seq<Rec>, after: seq<byte>, rec: Rec, pageSize: nat) {
    && pageSize > 0
    && var end := End(log) + EntryLen(rec.key);
       && end <= U32_MAX && end <= |after| && End(log) <= |before| <= |after|
       && Publication(Size(|before|, End(log)), Size(|after|, end), pageSize)
       && after == Published(before + Zeros(|after| - |before|), log, rec)
  }

  lemma AppendedHolds(before: seq<byte>, log: seq<Rec>, room: seq<byte>, rec: Rec, pageSize: nat)
    requires 0 < pageSize && WellFormed(before, log)
    requires var end := End(log) + EntryLen(rec.key);
             && end <= U32_MAX && end <= |room| && |before| <= |room|
             && room == before + Zeros(|room| - |before|)
             && if end <= |before| then |room| == |before|
                else Growable(|before|, end, pageSize) && |room| == GrownLen(|before|, end, pageSize)
    ensures Appended(before, log, Published(room, log, rec), rec, pageSize)
  {
    hide EntryLen, RecBytes, End, Published, Doubled, GrownLen, WellFormed, Zeros;
    EndInFile(before, log);
  }

  lemma AppendedPublication(before: seq<byte>, log: seq<Rec>, after: seq<byte>, rec: Rec, pageSize: nat)
    requires Appended(before, log, after, rec, pageSize)
    ensures End(log + [rec]) == End(log) + EntryLen(rec.key)
    ensures pageSize > 0 && Publication(Size(|before|, End(log)), Size(|after|, End(log + [rec])), pageSize)
  {
    hide EntryLen, RecBytes, LogBytes, Published;
    LogBytesAppend(log, rec);
  }

  lemma PublicationSame(len: nat, used: nat, pageSize: nat)
    requires 0 < pageSize && 0 < len && used <= len && used <= U32_MAX
    ensures Publication(Size(len, used), Size(len, used), pageSize)
  {
  }

  lemma EndInFile(b: seq<byte>, log: seq<Rec>)
    requires WellFormed(b, log)
    ensures End(log) <= |b| && End(log) <= U32_MAX && HEADER_SIZE <= |b|
    ensures DistinctKeys(log)
  {
  }

  lemma IndexOfNone()
    ensures IndexOf([]) == map[]
  {
  }

  lemma UsedWellFormed(b: seq<byte>, log: seq<Rec>)
    requires WellFormed(b, log)
    ensures UsedOf(b) == Ok(End(log))
  {
  }

  lemma OpenWellFormed(b: seq<byte>, log: seq<Rec>)
    requires WellFormed(b, log)
    ensures UsedOf(b) == Ok(End(log))
    ensures ScanFrom(b, HEADER_SIZE, End(log)) == Scan(Items(log), End(log), Exhausted)
  {
    UsedWellFormed(b, log);
    assert log[..0] == [] && Items(log)[0..] == Items(log);
    assert End([]) == HEADER_SIZE;
    hide End;
    ScanWellFormed(b, log, 0);
  }

  /** The record behind an indexed key. */
  lemma IndexedRecord(b: seq<byte>, log: seq<Rec>, key: StoredMetricKey) returns (i: nat)
    requires WellFormed(b, log) && key in IndexOf(Items(log))
    ensures i < |log| && log[i].key == key && IndexOf(Items(log))[key] == ValueAt(log, i)
    ensures key in Contents(log) && Contents(log)[key] == log[i].value
    ensures ValueAt(log, i) + 8 <= End(log) <= |b|
    ensures b[ValueAt(log, i)..ValueAt(log, i) + 8] == log[i].value
    ensures DistinctKeys(log)
  {
    hide LogBytes, IndexOf, Contents, ValueAt;
    ContentsKeys(log, key);
    i :| 0 <= i < |log| && log[i].key == key;
    ContentsAt(log, i);
    ValueBytes(b, log, i);
  }

  /** An indexed offset holds the value of its key. */
  lemma LookupValue(b: seq<byte>, log: seq<Rec>, key: StoredMetricKey)
    requires WellFormed(b, log) && key in IndexOf(Items(log))
    ensures key in Contents(log)
    ensures var offset := IndexOf(Items(log))[key];
            offset + 8 <= End(log) <= |b| && offset % 8 == 0 && b[offset..offset + 8] == Contents(log)[key]
  {
    hide LogBytes, IndexOf, Contents, ValueAt;
    var i := IndexedRecord(b, log, key);
    ValueAtBounds(log, i);
  }
}
