/** One metric file, its writer and a concurrently scraping exporter as interleaved atomic steps.

    The reader's steps follow `refresh`, `refresh_entries`, `current_used` and the value loop of
    `render`: each reads the mapped file at one moment.  Between any two of them the writer may take any
    number of steps.  A reader keeps its parsed entries from one scrape to the next. */
module ConcurrentScrape {
  import opened Bytes
  import opened SeqFacts
  import opened MetricLog
  import opened LogScan
  import opened MmapFile
  import opened WriterProtocol

  /** Where the reader is.  `Decode` carries the boundary it read and, as a ghost, how many entries
      were published at that moment. */
  datatype Pc =
    | Quiet
    | StatCached
    | StatMap
    | ReadVersion
    | ReadUsed
    | Decode(used: nat, published: nat)
    | EndPass
    | Reread
    | ReadValue(used: nat, next: nat, samples: seq<Sample>)
    | Contributed(samples: seq<Sample>)
    | Inactive
    | Errored

  /** The exporter's cached file.  `mapped` is false while there is no cache entry; `opening` marks the
      extra pass that `CachedFile::open` makes. */
  datatype Reader = Reader(pc: Pc, mapped: bool, opening: bool, mapLen: nat, parsedUsed: nat, entries: seq<Item>, active: bool)

  /** `history` is a ghost: the published log at every moment since the scrape began, oldest first. */
  datatype World = World(file: File, reader: Reader, history: seq<seq<Rec>>)

  /** The reader rests between two scrapes. */
  predicate AtRest(pc: Pc) {
    pc.Quiet? || pc.Contributed? || pc.Inactive? || pc.Errored?
  }

  /** A mapping never reaches past the file, and a boundary is used only after it was checked. */
  predicate InMap(r: Reader, b: seq<byte>) {
    r.mapLen <= |b| && (r.pc.Decode? ==> r.pc.used <= r.mapLen)
  }

  /** `refresh_map_if_needed`. */
  function Remap(r: Reader, len: nat): Reader {
    if len != r.mapLen then r.(mapLen := len, parsedUsed := HEADER_SIZE, entries := []) else r
  }

  function Forget(r: Reader): Reader {
    r.(active := false, entries := [], parsedUsed := HEADER_SIZE)
  }

  function StartScrape(r: Reader, b: seq<byte>): Reader
    requires AtRest(r.pc)
  {
    if r.mapped then r.(pc := StatCached, opening := false)
    else Reader(StatMap, true, true, |b|, HEADER_SIZE, [], false)
  }

  /** One step of a reader in the middle of a scrape, on the file's current bytes. */
  function ReaderStep(r: Reader, b: seq<byte>, published: nat): Reader
    requires !AtRest(r.pc) && InMap(r, b)
  {
    match r.pc
    case StatCached => Remap(r, |b|).(pc := StatMap)
    case StatMap =>
      var s := Remap(r, |b|);
      if s.mapLen < HEADER_SIZE then Forget(s).(pc := EndPass) else s.(pc := ReadVersion)
    case ReadVersion =>
      if r.mapLen < HEADER_SIZE || U32At(b, 4) != FILE_FORMAT_VERSION then Forget(r).(pc := EndPass)
      else r.(active := true, pc := ReadUsed)
    case ReadUsed =>
      if r.mapLen < HEADER_SIZE || UsedWord(b) > r.mapLen then r.(pc := Errored, mapped := false)
      else if UsedWord(b) < r.parsedUsed then
        r.(entries := [], parsedUsed := HEADER_SIZE, pc := Decode(UsedWord(b), published))
      else r.(pc := Decode(UsedWord(b), published))
    case Decode(used, _) =>
      (match DecodeAt(b, r.parsedUsed, used)
       case Entry(key, _, valueOffset, totalLen) =>
         r.(entries := r.entries + [Item(key, r.parsedUsed + valueOffset)], parsedUsed := r.parsedUsed + totalLen)
       case Stopped(stop) =>
         if stop == BadText then r.(pc := Errored, mapped := false) else r.(pc := EndPass))
    case EndPass =>
      if r.opening then r.(opening := false, pc := StatMap)
      else if r.active then r.(pc := Reread)
      else r.(pc := Inactive)
    case Reread =>
      if r.mapLen < HEADER_SIZE then r.(pc := ReadValue(HEADER_SIZE, 0, []))
      else if UsedWord(b) > r.mapLen then r.(pc := Errored, mapped := false)
      else r.(pc := ReadValue(UsedWord(b), 0, []))
    case ReadValue(used, next, samples) =>
      if next >= |r.entries| then r.(pc := Contributed(samples)) else
      var item := r.entries[next];
      if item.valueOffset + 8 > used then r.(pc := ReadValue(used, next + 1, samples))
      else if item.valueOffset + 8 > r.mapLen then r.(pc := Errored, mapped := false)
      else
        var value := b[item.valueOffset..item.valueOffset + 8];
        r.(pc := ReadValue(used, next + 1, samples + [Sample(item.key, value)]))
  }

  datatype Step = WriterStep(a: Action) | BeginScrape | ReaderGoes

  predicate Allowed(w: World, step: Step, pageSize: nat)
    requires 0 < pageSize <= U32_MAX
  {
    match step
    case WriterStep(a) => Enabled(w.file, a, pageSize)
    case BeginScrape => AtRest(w.reader.pc)
    case ReaderGoes => !AtRest(w.reader.pc) && InMap(w.reader, w.file.bytes)
  }

  function Next(w: World, step: Step, pageSize: nat): World
    requires 0 < pageSize <= U32_MAX && Allowed(w, step, pageSize)
  {
    match step
    case WriterStep(a) =>
      var file := Apply(w.file, a, pageSize);
      World(file, w.reader, w.history + [file.log])
    case BeginScrape => World(w.file, StartScrape(w.reader, w.file.bytes), [w.file.log])
    case ReaderGoes => w.(reader := ReaderStep(w.reader, w.file.bytes, |w.file.log|))
  }

  // ----- the invariant -----

  /** `s` is what entry `j` of the published log was at some moment of the scrape. */
  predicate WasCurrent(history: seq<seq<Rec>>, j: nat, s: Sample) {
    exists t | 0 <= t < |history| :: HadRecord(history[t], j, s)
  }

  predicate HadRecord(log: seq<Rec>, j: nat, s: Sample) {
    j < |log| && log[j].key == s.key && log[j].value == s.value
  }

  predicate AllCurrent(history: seq<seq<Rec>>, samples: seq<Sample>) {
    forall j | 0 <= j < |samples| :: WasCurrent(history, j, samples[j])
  }

  predicate HistoryOk(history: seq<seq<Rec>>, log: seq<Rec>) {
    && history != []
    && history[|history| - 1] == log
    && forall t | 0 <= t < |history| :: KeysExtend(history[t], log)
  }

  /** The reader is working on an initialised file that its mapping covers up to the header. */
  predicate Live(w: World) {
    && WellFormed(w.file.bytes, w.file.log)
    && w.reader.active
    && w.reader.mapLen >= HEADER_SIZE
  }

  /** What the reader knows at each point of a scrape. */
  predicate PcOk(w: World)
    requires w.history != []
  {
    var r, log, first := w.reader, w.file.log, |w.history[0]|;
    match r.pc
    case Quiet => true
    case StatCached => true
    case StatMap => true
    case ReadVersion => r.mapLen >= HEADER_SIZE
    case ReadUsed => Live(w)
    case Decode(used, published) =>
      && Live(w) && first <= published <= |log| && |r.entries| <= published
      && used == Start(log, published) && used <= r.mapLen
    case EndPass => if r.active then Live(w) && first <= |r.entries| else w.history[0] == []
    case Reread => Live(w) && first <= |r.entries|
    case ReadValue(used, next, samples) =>
      && Live(w) && first <= |r.entries|
      && r.parsedUsed <= used <= r.mapLen
      && next == |samples| <= |r.entries| && AllCurrent(w.history, samples)
    case Contributed(samples) =>
      first <= |samples| <= |log| && AllCurrent(w.history, samples)
    case Inactive => w.history[0] == []
    case Errored => WellFormed(w.file.bytes, log) && r.mapLen < End(log)
  }

  predicate WorldInv(w: World) {
    && Inv(w.file)
    && HistoryOk(w.history, w.file.log)
    && InMap(w.reader, w.file.bytes)
    && (w.reader.mapped ==> Parsed(w.reader.entries, w.reader.parsedUsed, w.file.log))
    && (!AtRest(w.reader.pc) ==> w.reader.mapped)
    && PcOk(w)
  }

  // ----- writer steps -----

  /** An initialised file stays initialised. */
  lemma LiveStays(s: File, a: Action, pageSize: nat)
    requires 0 < pageSize <= U32_MAX && Inv(s) && Enabled(s, a, pageSize)
    requires WellFormed(s.bytes, s.log)
    ensures WellFormed(Apply(s, a, pageSize).bytes, Apply(s, a, pageSize).log)
  {
    hide WellFormed, End, EntryLen, RecBytes, U32At, ValueAt, Room, Patch, UsedOf, ScanFrom, Blank;
    InvStep(s, a, pageSize);
    VersionOf(s.bytes, s.log);
  }

  lemma AllCurrentStays(history: seq<seq<Rec>>, more: seq<seq<Rec>>, samples: seq<Sample>)
    requires AllCurrent(history, samples) && history <= more
    ensures AllCurrent(more, samples)
  {
    forall j | 0 <= j < |samples|
      ensures WasCurrent(more, j, samples[j])
    {
      var t :| 0 <= t < |history| && HadRecord(history[t], j, samples[j]);
      assert more[t] == history[t];
    }
  }

  lemma HistoryGrows(history: seq<seq<Rec>>, log: seq<Rec>, more: seq<Rec>)
    requires HistoryOk(history, log) && KeysExtend(log, more)
    ensures HistoryOk(history + [more], more) && (history + [more])[0] == history[0]
  {
    var longer := history + [more];
    forall t | 0 <= t < |longer|
      ensures KeysExtend(longer[t], more)
    {
      if t < |history| {
        KeysExtendTrans(history[t], log, more);
      }
    }
  }

  lemma WriterKeepsInv(w: World, a: Action, pageSize: nat)
    requires 0 < pageSize <= U32_MAX && WorldInv(w) && Enabled(w.file, a, pageSize)
    ensures WorldInv(Next(w, WriterStep(a), pageSize))
  {
    hide WellFormed, Start, Inv, Enabled, Apply, AllCurrent, HistoryOk, KeysExtend, Items;
    var v := Next(w, WriterStep(a), pageSize);
    InvStep(w.file, a, pageSize);
    StepMonotone(w.file, a, pageSize);
    assert HistoryOk(w.history, w.file.log);
    HistoryGrows(w.history, w.file.log, v.file.log);
    if w.reader.mapped {
      ParsedStays(w.reader.entries, w.reader.parsedUsed, w.file.log, v.file.log);
    }
    if WellFormed(w.file.bytes, w.file.log) {
      LiveStays(w.file, a, pageSize);
    }
    KeysExtendLen(w.file.log, v.file.log);
    match w.reader.pc
    case Decode(used, published) => BoundaryStays(w.file.log, v.file.log, published);
    case ReadValue(used, next, samples) => AllCurrentStays(w.history, v.history, samples);
    case Contributed(samples) => AllCurrentStays(w.history, v.history, samples);
    case Errored => EndGrows(w.file.log, v.file.log);
    case _ =>
  }

  lemma EndGrows(log: seq<Rec>, more: seq<Rec>)
    requires KeysExtend(log, more)
    ensures End(log) <= End(more)
  {
    hide End;
    BoundaryStays(log, more, |log|);
    StartMonotone(more, |log|, |more|);
    assert log[..|log|] == log && more[..|more|] == more;
  }

  // ----- reader steps -----

  /** Seen from the reader: a readable header means an initialised file, anything else means that
      nothing was published. */
  lemma HeaderTells(s: File)
    requires Inv(s)
    ensures |s.bytes| >= HEADER_SIZE && U32At(s.bytes, 4) == FILE_FORMAT_VERSION ==>
              WellFormed(s.bytes, s.log) && UsedWord(s.bytes) == End(s.log) <= |s.bytes|
    ensures |s.bytes| < HEADER_SIZE || U32At(s.bytes, 4) != FILE_FORMAT_VERSION ==> s.log == []
  {
    hide End;
    if |s.bytes| >= HEADER_SIZE {
      BlankLong(s.bytes);
    }
    if WellFormed(s.bytes, s.log) {
      VersionOf(s.bytes, s.log);
      EndInFile(s.bytes, s.log);
    }
  }

  lemma HeaderOfFile(s: File)
    requires WellFormed(s.bytes, s.log)
    ensures |s.bytes| >= HEADER_SIZE && UsedWord(s.bytes) == End(s.log) <= |s.bytes|
  {
  }

  lemma ReadUsedKeepsInv(w: World)
    requires WorldInv(w) && w.reader.pc == ReadUsed
    ensures var v := w.(reader := ReaderStep(w.reader, w.file.bytes, |w.file.log|)); WorldInv(v)
  {
    hide WellFormed, End, Inv, AllCurrent, Items, U32At, UsedWord;
    var r, log := w.reader, w.file.log;
    VersionOf(w.file.bytes, log);
    HeaderTells(w.file);
    StartMonotone(log, |r.entries|, |log|);
    assert log[..|log|] == log;
    assert KeysExtend(w.history[0], log);
  }

  lemma DecodeKeepsInv(w: World)
    requires WorldInv(w) && w.reader.pc.Decode?
    ensures var v := w.(reader := ReaderStep(w.reader, w.file.bytes, |w.file.log|)); WorldInv(v)
  {
    hide WellFormed, End, Inv, AllCurrent, DecodeAt, KeyBytes, ValueOffset, EntryLen;
    var r, b, log := w.reader, w.file.bytes, w.file.log;
    var k, published := |r.entries|, r.pc.published;
    DecodeAtBoundary(b, log, k, published);
    if k < published {
      StartStep(log, k);
      Snoc(Items(log), k);
      assert Items(log)[k] == Item(log[k].key, ValueAt(log, k));
    }
  }

  lemma ReadValueKeepsInv(w: World)
    requires WorldInv(w) && w.reader.pc.ReadValue?
    ensures var v := w.(reader := ReaderStep(w.reader, w.file.bytes, |w.file.log|)); WorldInv(v)
  {
    hide WellFormed, Inv, End, Parsed, AllCurrent, WasCurrent;
    var r, log := w.reader, w.file.log;
    var j := r.pc.next;
    ParsedWithin(r.entries, r.parsedUsed, log);
    if j < |r.entries| {
      CachedValue(r.entries, r.parsedUsed, w.file.bytes, log, j);
      var s := Sample(log[j].key, log[j].value);
      LatestIsCurrent(w.history, log, j);
      AllCurrentAppend(w.history, r.pc.samples, s);
    }
  }

  lemma LatestIsCurrent(history: seq<seq<Rec>>, log: seq<Rec>, j: nat)
    requires HistoryOk(history, log) && j < |log|
    ensures WasCurrent(history, j, Sample(log[j].key, log[j].value))
  {
    assert HadRecord(history[|history| - 1], j, Sample(log[j].key, log[j].value));
  }

  lemma AllCurrentAppend(history: seq<seq<Rec>>, samples: seq<Sample>, s: Sample)
    requires AllCurrent(history, samples) && WasCurrent(history, |samples|, s)
    ensures AllCurrent(history, samples + [s])
  {
  }

  lemma ReaderKeepsInv(w: World, pageSize: nat)
    requires 0 < pageSize <= U32_MAX && WorldInv(w) && Allowed(w, ReaderGoes, pageSize)
    ensures WorldInv(Next(w, ReaderGoes, pageSize))
  {
    hide WellFormed, End, Inv, AllCurrent, Items, U32At, UsedWord, DecodeAt, Parsed;
    var r, v := w.reader, Next(w, ReaderGoes, pageSize);
    var log := w.file.log;
    HeaderTells(w.file);
    ParsedNothing(log);
    ParsedWithin(r.entries, r.parsedUsed, log);
    assert KeysExtend(w.history[0], log);
    match r.pc
    case ReadUsed => ReadUsedKeepsInv(w);
    case Decode(_, _) => DecodeKeepsInv(w);
    case ReadValue(_, _, _) => ReadValueKeepsInv(w);
    case Reread =>
      VersionOf(w.file.bytes, log);
      NoSamples(w.history);
    case _ =>
  }

  lemma NoSamples(history: seq<seq<Rec>>)
    ensures AllCurrent(history, [])
  {
  }

  lemma BeginKeepsInv(w: World, pageSize: nat)
    requires 0 < pageSize <= U32_MAX && WorldInv(w) && Allowed(w, BeginScrape, pageSize)
    ensures WorldInv(Next(w, BeginScrape, pageSize))
  {
    hide WellFormed, End, Inv, Items, Parsed;
    ParsedNothing(w.file.log);
    assert KeysExtend(w.history[|w.history| - 1], w.file.log);
  }

  // ----- whole runs -----

  ghost predicate Reachable(worlds: seq<World>, steps: seq<Step>, pageSize: nat)
    requires 0 < pageSize <= U32_MAX
  {
    && |worlds| == |steps| + 1
    && Initial(worlds[0].file)
    && worlds[0].reader == Reader(Quiet, false, false, 0, HEADER_SIZE, [], false)
    && worlds[0].history == [[]]
    && forall i | 0 <= i < |steps| ::
         Allowed(worlds[i], steps[i], pageSize) && worlds[i + 1] == Next(worlds[i], steps[i], pageSize)
  }

  lemma {:induction false} ReachableInv(worlds: seq<World>, steps: seq<Step>, pageSize: nat, i: nat)
    requires 0 < pageSize <= U32_MAX && Reachable(worlds, steps, pageSize) && i < |worlds|
    ensures WorldInv(worlds[i])
  {
    if i == 0 {
      hide WorldInv;
      FirstWorldInv(worlds[0]);
    } else {
      hide WorldInv, Allowed, Next;
      ReachableInv(worlds, steps, pageSize, i - 1);
      StepKeepsInv(worlds[i - 1], steps[i - 1], pageSize);
    }
  }

  lemma FirstWorldInv(w: World)
    requires Initial(w.file) && w.history == [[]]
    requires w.reader == Reader(Quiet, false, false, 0, HEADER_SIZE, [], false)
    ensures WorldInv(w)
  {
    hide Inv, Initial, Items, End;
    InitialInv(w.file);
    InitialLog(w.file);
  }

  lemma InitialLog(s: File)
    requires Initial(s)
    ensures s.log == []
  {
  }

  lemma StepKeepsInv(w: World, step: Step, pageSize: nat)
    requires 0 < pageSize <= U32_MAX && WorldInv(w) && Allowed(w, step, pageSize)
    ensures WorldInv(Next(w, step, pageSize))
  {
    match step
    case WriterStep(a) => hide WorldInv, Enabled; WriterKeepsInv(w, a, pageSize);
    case BeginScrape => BeginKeepsInv(w, pageSize);
    case ReaderGoes => ReaderKeepsInv(w, pageSize);
  }

  /** Safety of publication, over every interleaving of one writer with any number of scrapes.  A
      scrape ends in one of three ways.  It contributes: its keys are those of a prefix of the published
      log, at least everything that was published when it began, and each value is one that its entry
      had at some moment of the scrape.  It finds the file inactive: nothing had been published when it
      began.  Or it reports an error: the file had outgrown the mapping, and `used` lies behind its end. */
  lemma ScrapeOutcomes(worlds: seq<World>, steps: seq<Step>, pageSize: nat, i: nat)
    requires 0 < pageSize <= U32_MAX && Reachable(worlds, steps, pageSize) && i < |worlds|
    ensures var w := worlds[i];
            && w.history != []
            && (w.reader.pc.Contributed? ==>
                  var samples := w.reader.pc.samples;
                  && |w.history[0]| <= |samples| <= |w.file.log|
                  && (forall j | 0 <= j < |samples| :: samples[j].key == w.file.log[j].key)
                  && (forall j | 0 <= j < |samples| :: WasCurrent(w.history, j, samples[j])))
            && (w.reader.pc.Inactive? ==> w.history[0] == [])
            && (w.reader.pc.Errored? ==>
                  |w.file.bytes| >= HEADER_SIZE && w.reader.mapLen < UsedWord(w.file.bytes) == End(w.file.log) <= |w.file.bytes|)
  {
    hide Inv, Items, End, UsedWord, Reachable, Parsed, InMap, WellFormed, WasCurrent;
    ReachableInv(worlds, steps, pageSize, i);
    var w := worlds[i];
    if w.reader.pc.Errored? {
      HeaderOfFile(w.file);
    }
    if w.reader.pc.Contributed? {
      forall j | 0 <= j < |w.reader.pc.samples|
        ensures w.reader.pc.samples[j].key == w.file.log[j].key
      {
        CurrentKey(w.history, w.file.log, j, w.reader.pc.samples[j]);
      }
    }
  }

  lemma CurrentKey(history: seq<seq<Rec>>, log: seq<Rec>, j: nat, s: Sample)
    requires HistoryOk(history, log) && WasCurrent(history, j, s) && j < |log|
    ensures s.key == log[j].key
  {
    var t :| 0 <= t < |history| && HadRecord(history[t], j, s);
    assert KeysExtend(history[t], log);
    assert log[..|history[t]|][j].key == history[t][j].key;
  }

  /** No unpublished byte is ever decoded: when the reader decodes an entry, that entry is a record of
      the published log and lies in front of its end. */
  lemma OnlyPublishedBytesAreDecoded(worlds: seq<World>, steps: seq<Step>, pageSize: nat, i: nat)
    requires 0 < pageSize <= U32_MAX && Reachable(worlds, steps, pageSize) && i < |worlds|
    ensures var w := worlds[i];
            w.reader.pc.Decode? ==>
              && w.reader.pc.used <= End(w.file.log) <= |w.file.bytes|
              && var t := DecodeAt(w.file.bytes, w.reader.parsedUsed, w.reader.pc.used);
                 && t != Stopped(BadEntry) && t != Stopped(BadText)
                 && (t.Entry? ==>
                       && |w.reader.entries| < |w.file.log|
                       && t.key == w.file.log[|w.reader.entries|].key
                       && w.reader.parsedUsed + t.totalLen <= End(w.file.log))
  {
    hide WellFormed, Inv, End, Items, DecodeAt, KeyBytes, ValueOffset, EntryLen, Reachable, AllCurrent, HistoryOk;
    ReachableInv(worlds, steps, pageSize, i);
    var w := worlds[i];
    if w.reader.pc.Decode? {
      DecodeAtBoundary(w.file.bytes, w.file.log, |w.reader.entries|, w.reader.pc.published);
      if |w.reader.entries| < w.reader.pc.published {
        StartStep(w.file.log, |w.reader.entries|);
      }
    }
  }

  /** Every value is read whole: at an aligned offset inside the published part, where it is the
      published value of its entry. */
  lemma OnlyWholeValuesAreRead(worlds: seq<World>, steps: seq<Step>, pageSize: nat, i: nat)
    requires 0 < pageSize <= U32_MAX && Reachable(worlds, steps, pageSize) && i < |worlds|
    ensures var w := worlds[i];
            w.reader.pc.ReadValue? && w.reader.pc.next < |w.reader.entries| ==>
              var off := w.reader.entries[w.reader.pc.next].valueOffset;
              && off % 8 == 0 && off + 8 <= w.reader.pc.used && off + 8 <= End(w.file.log) <= |w.file.bytes|
              && w.reader.pc.next < |w.file.log|
              && w.file.bytes[off..off + 8] == w.file.log[w.reader.pc.next].value
  {
    hide WellFormed, Inv, End, Reachable, AllCurrent, HistoryOk;
    ReachableInv(worlds, steps, pageSize, i);
    var w := worlds[i];
    if w.reader.pc.ReadValue? && w.reader.pc.next < |w.reader.entries| {
      CachedValue(w.reader.entries, w.reader.parsedUsed, w.file.bytes, w.file.log, w.reader.pc.next);
    }
  }
}
