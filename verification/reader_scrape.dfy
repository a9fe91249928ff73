/** The reader's atomic steps and the scrape of one file as a whole: a scrape that no writer interferes
    with ends as `ScrapeFile` says. */
module QuietScrape {
  import opened Bytes
  import opened SeqFacts
  import opened MetricLog
  import opened LogScan
  import opened Aggregate
  import opened Scrape
  import opened WriterProtocol
  import opened ConcurrentScrape

  // ----- what the rest of a scrape comes to -----

  /** The reader's state as a cache entry. */
  function CacheOf(r: Reader, params: FileParams, id: nat): Cached {
    Cached(params, id, r.mapLen, r.parsedUsed, r.entries, r.active)
  }

  function CachedOf(r: Reader, params: FileParams, id: nat): Option<Cached> {
    if r.mapped then Some(CacheOf(r, params, id)) else None
  }

  /** How a scrape ended, and what it left cached. */
  function Ended(r: Reader, params: FileParams, id: nat): (Outcome, Option<Cached>)
    requires AtRest(r.pc)
  {
    (match r.pc case Contributed(samples) => Contributing(samples) case Errored => ErroredFile case _ => InactiveFile,
     CachedOf(r, params, id))
  }

  /** A scrape with an up-to-date cache entry. */
  function Taken(c: Cached, n: Node): (Outcome, Option<Cached>)
    requires c.active ==> |n.bytes| >= HEADER_SIZE
  {
    if !c.active then (InactiveFile, Some(c))
    else (Contributing(Visible(c.entries, UsedWord(n.bytes), n.bytes)), Some(c))
  }

  /** A scrape after `refresh_entries`, which ran for the first time when the file was being opened. */
  function AfterEntries(done: Result<Cached>, opening: bool, n: Node): (Outcome, Option<Cached>)
    requires done.Ok? && done.value.active ==> |n.bytes| >= HEADER_SIZE
  {
    if done.Err? then (ErroredFile, None)
    else if opening then Visit(done.value, n)
    else Taken(done.value, n)
  }

  /** What decoding from where the reader stands comes to. */
  function Decoded(c: Cached, b: seq<byte>, used: nat): Result<Cached>
    requires used <= |b|
  {
    var s := ScanFrom(b, c.parsedUsed, used);
    if s.stop == BadText then Err(Utf8) else Ok(c.(entries := c.entries + s.items, parsedUsed := s.pos))
  }

  /** The reader agrees with the unchanging bytes it reads. */
  predicate Settled(r: Reader, b: seq<byte>) {
    && InMap(r, b)
    && (r.mapped <==> !r.pc.Errored?)
    && r.parsedUsed >= HEADER_SIZE
    && (!AtRest(r.pc) && !r.pc.StatCached? && !r.pc.StatMap? ==>
          r.mapLen == |b| && (r.active && !r.pc.ReadVersion? ==> Readable(Node(0, b))))
    && match r.pc
       case StatCached => !r.opening
       case ReadVersion => |b| >= HEADER_SIZE
       case ReadUsed => r.active
       case Decode(used, _) => r.active && used == UsedWord(b) <= |b|
       case EndPass => r.active ==> UsedWord(b) <= |b|
       case Reread => r.active && UsedWord(b) <= |b| && !r.opening
       case ReadValue(used, next, _) => r.active && used == UsedWord(b) <= |b| && next <= |r.entries| && !r.opening
       case _ => true
  }

  /** How the scrape will end if nothing interferes. */
  function Outlook(r: Reader, params: FileParams, n: Node): (Outcome, Option<Cached>)
    requires Settled(r, n.bytes)
  {
    var c, b := CacheOf(r, params, n.id), n.bytes;
    match r.pc
    case StatCached => Visit(Remapped(c, n), n)
    case StatMap => AfterEntries(Refreshed(c, n), r.opening, n)
    case ReadVersion => AfterEntries(Refreshed(c, n), r.opening, n)
    case ReadUsed => AfterEntries(Refreshed(c, n), r.opening, n)
    case Decode(used, _) => AfterEntries(Decoded(c, b, used), r.opening, n)
    case EndPass => AfterEntries(Ok(c), r.opening, n)
    case Reread => Taken(c, n)
    case ReadValue(used, next, samples) => (Contributing(samples + Visible(r.entries[next..], used, b)), Some(c))
    case _ => Ended(r, params, n.id)
  }

  // ----- steps -----

  lemma {:induction false} VisibleConcat(a: seq<Item>, c: seq<Item>, used: nat, b: seq<byte>)
    ensures Visible(a + c, used, b) == Visible(a, used, b) + Visible(c, used, b)
  {
    if c == [] {
      assert a + c == a;
    } else {
      var n := |c| - 1;
      VisibleConcat(a, c[..n], used, b);
      assert (a + c)[..|a| + n] == a + c[..n];
    }
  }

  lemma VisibleNext(items: seq<Item>, i: nat, used: nat, b: seq<byte>)
    requires i < |items|
    ensures Visible(items[i..], used, b)
         == (if items[i].valueOffset + 8 > used then [] else [Sample(items[i].key, ValueIn(b, items[i].valueOffset))])
            + Visible(items[i + 1..], used, b)
  {
    Cut(items, i);
    assert items[i..] == [items[i]] + items[i + 1..];
    VisibleConcat([items[i]], items[i + 1..], used, b);
    assert [items[i]][..0] == [];
  }

  lemma DecodedStep(c: Cached, b: seq<byte>, used: nat)
    requires used <= |b|
    ensures match DecodeAt(b, c.parsedUsed, used)
            case Stopped(stop) => Decoded(c, b, used) == if stop == BadText then Err(Utf8) else Ok(c)
            case Entry(key, _, valueOffset, totalLen) =>
              Decoded(c, b, used)
              == Decoded(c.(entries := c.entries + [Item(key, c.parsedUsed + valueOffset)], parsedUsed := c.parsedUsed + totalLen), b, used)
  {
    hide DecodeAt;
    var t := DecodeAt(b, c.parsedUsed, used);
    if t.Entry? {
      var rest := ScanFrom(b, c.parsedUsed + t.totalLen, used);
      Assoc(c.entries, [Item(t.key, c.parsedUsed + t.valueOffset)], rest.items);
    } else {
      assert c.entries + [] == c.entries;
    }
  }

  lemma ValueStep(r: Reader, params: FileParams, n: Node)
    requires Settled(r, n.bytes) && r.pc.ReadValue?
    ensures var s := ReaderStep(r, n.bytes, 0);
            Settled(s, n.bytes) && Outlook(s, params, n) == Outlook(r, params, n)
  {
    hide Visible, UsedWord;
    var i, used, samples := r.pc.next, r.pc.used, r.pc.samples;
    if i < |r.entries| {
      VisibleNext(r.entries, i, used, n.bytes);
      var item := r.entries[i];
      if item.valueOffset + 8 <= used {
        Assoc(samples, [Sample(item.key, ValueIn(n.bytes, item.valueOffset))], Visible(r.entries[i + 1..], used, n.bytes));
      } else {
        assert [] + Visible(r.entries[i + 1..], used, n.bytes) == Visible(r.entries[i + 1..], used, n.bytes);
      }
    } else {
      NothingVisible(used, n.bytes);
      assert r.entries[i..] == [] && samples + [] == samples;
    }
  }

  lemma NothingVisible(used: nat, b: seq<byte>)
    ensures Visible([], used, b) == []
  {
  }

  lemma MapStep(r: Reader, params: FileParams, n: Node)
    requires Settled(r, n.bytes) && (r.pc.StatCached? || r.pc.StatMap? || r.pc.ReadVersion?)
    ensures var s := ReaderStep(r, n.bytes, 0);
            Settled(s, n.bytes) && Outlook(s, params, n) == Outlook(r, params, n)
  {
    hide ScanFrom, UsedWord, DecodeAt, Visible, Decoded;
  }

  lemma PassStep(r: Reader, params: FileParams, n: Node)
    requires Settled(r, n.bytes) && r.pc.EndPass?
    ensures var s := ReaderStep(r, n.bytes, 0);
            Settled(s, n.bytes) && Outlook(s, params, n) == Outlook(r, params, n)
  {
    hide Refreshed, UsedWord, DecodeAt, Visible, Decoded;
  }

  lemma UsedStep(r: Reader, params: FileParams, n: Node, published: nat)
    requires Settled(r, n.bytes) && r.pc.ReadUsed?
    ensures var s := ReaderStep(r, n.bytes, published);
            Settled(s, n.bytes) && Outlook(s, params, n) == Outlook(r, params, n)
  {
    hide ScanFrom, UsedWord, DecodeAt, Visit, Taken;
  }

  lemma DecodeStep(r: Reader, params: FileParams, n: Node)
    requires Settled(r, n.bytes) && r.pc.Decode?
    ensures var s := ReaderStep(r, n.bytes, 0);
            Settled(s, n.bytes) && Outlook(s, params, n) == Outlook(r, params, n)
  {
    hide ScanFrom, UsedWord, DecodeAt, Visible, Refreshed, Decoded;
    DecodedStep(CacheOf(r, params, n.id), n.bytes, r.pc.used);
  }

  lemma RereadStep(r: Reader, params: FileParams, n: Node)
    requires Settled(r, n.bytes) && r.pc.Reread?
    ensures var s := ReaderStep(r, n.bytes, 0);
            Settled(s, n.bytes) && Outlook(s, params, n) == Outlook(r, params, n)
  {
    hide UsedWord, Visible, Refreshed, Decoded;
    assert r.entries[0..] == r.entries;
    NothingBefore(Visible(r.entries, UsedWord(n.bytes), n.bytes));
  }

  lemma NothingBefore(s: seq<Sample>)
    ensures [] + s == s
  {
  }

  lemma OnlyUsedCounts(r: Reader, b: seq<byte>, published: nat)
    requires !AtRest(r.pc) && InMap(r, b) && !r.pc.ReadUsed?
    ensures ReaderStep(r, b, published) == ReaderStep(r, b, 0)
  {
    hide DecodeAt, UsedWord;
  }

  /** No step changes how the scrape will end. */
  lemma StepKeepsOutlook(r: Reader, params: FileParams, n: Node, published: nat)
    requires Settled(r, n.bytes) && !AtRest(r.pc)
    ensures var s := ReaderStep(r, n.bytes, published);
            Settled(s, n.bytes) && Outlook(s, params, n) == Outlook(r, params, n)
  {
    if r.pc.ReadUsed? {
      hide Settled, Outlook, ReaderStep;
      UsedStep(r, params, n, published);
    } else {
      OnlyUsedCounts(r, n.bytes, published);
      hide Outlook, ReaderStep, UsedWord;
      match r.pc
      case Decode(_, _) => DecodeStep(r, params, n);
      case ReadValue(_, _, _) => ValueStep(r, params, n);
      case Reread => RereadStep(r, params, n);
      case EndPass => PassStep(r, params, n);
      case _ => MapStep(r, params, n);
    }
  }

  // ----- whole scrapes -----

  function Rank(pc: Pc): nat {
    match pc
    case StatCached => 7
    case StatMap => 6
    case ReadVersion => 5
    case ReadUsed => 4
    case Decode(_, _) => 3
    case EndPass => 2
    case Reread => 1
    case _ => 0
  }

  /** What is left of a loop. */
  function Left(r: Reader): nat {
    match r.pc
    case Decode(used, _) => if r.parsedUsed < used then used - r.parsedUsed else 0
    case ReadValue(_, next, _) => if next < |r.entries| then 1 + |r.entries| - next else 1
    case _ => 0
  }

  /** A step goes down in the order of `Rested`. */
  predicate Lower(s: Reader, r: Reader) {
    || (r.opening && !s.opening)
    || (r.opening == s.opening && Rank(s.pc) < Rank(r.pc))
    || (r.opening == s.opening && Rank(s.pc) == Rank(r.pc) && Left(s) < Left(r))
  }

  lemma LoopGoesDown(r: Reader, b: seq<byte>, published: nat)
    requires InMap(r, b) && (r.pc.Decode? || r.pc.ReadValue?)
    ensures Lower(ReaderStep(r, b, published), r)
  {
    hide UsedWord, DecodeAt;
  }

  lemma StepGoesDown(r: Reader, b: seq<byte>, published: nat)
    requires !AtRest(r.pc) && InMap(r, b)
    ensures Lower(ReaderStep(r, b, published), r)
  {
    hide UsedWord, DecodeAt;
    if r.pc.Decode? || r.pc.ReadValue? {
      hide Lower, ReaderStep;
      LoopGoesDown(r, b, published);
    }
  }

  /** Where a reader comes to rest that nothing interferes with. */
  function Rested(r: Reader, params: FileParams, n: Node, published: nat): (e: Reader)
    requires Settled(r, n.bytes)
    ensures AtRest(e.pc) && Settled(e, n.bytes)
    ensures Outlook(e, params, n) == Outlook(r, params, n)
    decreases r.opening, Rank(r.pc), Left(r)
  {
    if AtRest(r.pc) then r else
    assert Settled(ReaderStep(r, n.bytes, published), n.bytes) by { StepKeepsOutlook(r, params, n, published); }
    assert Outlook(ReaderStep(r, n.bytes, published), params, n) == Outlook(r, params, n) by { StepKeepsOutlook(r, params, n, published); }
    StepGoesDown(r, n.bytes, published);
    Rested(ReaderStep(r, n.bytes, published), params, n, published)
  }

  /** A reader at rest with what it has cached. */
  predicate Ready(r: Reader, b: seq<byte>) {
    AtRest(r.pc) && (r.mapped ==> r.mapLen <= |b| && r.parsedUsed >= HEADER_SIZE)
  }

  lemma StartOutlook(r: Reader, params: FileParams, n: Node)
    requires Ready(r, n.bytes)
    ensures var s := StartScrape(r, n.bytes);
            && Settled(s, n.bytes)
            && Outlook(s, params, n) == ScrapeFile(CachedOf(r, params, n.id), params, Some(n))
  {
    hide Refreshed, UsedWord;
  }

  /** A scrape that nothing interferes with comes to rest, with the outcome and the cache entry that
      `ScrapeFile` gives for the same file and the same cache entry. */
  lemma AloneIsScrapeFile(r: Reader, params: FileParams, n: Node, published: nat)
    requires Ready(r, n.bytes)
    ensures Settled(StartScrape(r, n.bytes), n.bytes)
    ensures Ended(Rested(StartScrape(r, n.bytes), params, n, published), params, n.id)
         == ScrapeFile(CachedOf(r, params, n.id), params, Some(n))
  {
    hide Settled, StartScrape, Rested, ScrapeFile;
    StartOutlook(r, params, n);
    RestOutlook(Rested(StartScrape(r, n.bytes), params, n, published), params, n);
  }

  lemma RestOutlook(r: Reader, params: FileParams, n: Node)
    requires Settled(r, n.bytes) && AtRest(r.pc)
    ensures Outlook(r, params, n) == Ended(r, params, n.id)
  {
  }

  /** So does every scrape, in any reachable interleaving, during which the writer makes no step. */
  lemma {:induction false} UndisturbedRun(worlds: seq<World>, steps: seq<Step>, pageSize: nat, i: nat, j: nat, params: FileParams, id: nat)
    requires 0 < pageSize <= U32_MAX && Reachable(worlds, steps, pageSize)
    requires i < j < |worlds| && steps[i] == BeginScrape && forall k | i < k < j :: steps[k] == ReaderGoes
    ensures worlds[j].file == worlds[i].file
    ensures var n := Node(id, worlds[i].file.bytes);
            && Settled(worlds[j].reader, n.bytes)
            && Outlook(worlds[j].reader, params, n) == ScrapeFile(CachedOf(worlds[i].reader, params, id), params, Some(n))
            && (AtRest(worlds[j].reader.pc) ==>
                  Ended(worlds[j].reader, params, id) == ScrapeFile(CachedOf(worlds[i].reader, params, id), params, Some(n)))
    decreases j
  {
    hide Outlook, ScrapeFile, StartScrape, ReaderStep, Settled, CachedOf, Ended, WorldInv;
    var n := Node(id, worlds[i].file.bytes);
    assert Allowed(worlds[j - 1], steps[j - 1], pageSize) && worlds[j] == Next(worlds[j - 1], steps[j - 1], pageSize);
    if j == i + 1 {
      ReachableInv(worlds, steps, pageSize, i);
      RestIsReady(worlds[i]);
      StartOutlook(worlds[i].reader, params, n);
    } else {
      UndisturbedRun(worlds, steps, pageSize, i, j - 1, params, id);
      StepKeepsOutlook(worlds[j - 1].reader, params, n, |worlds[j - 1].file.log|);
    }
    if AtRest(worlds[j].reader.pc) {
      RestOutlook(worlds[j].reader, params, n);
    }
  }

  /** No interleaving leaves the reader stuck, and any step of the writer can come next. */
  lemma AnyoneCanStep(worlds: seq<World>, steps: seq<Step>, pageSize: nat, i: nat, a: Action)
    requires 0 < pageSize <= U32_MAX && Reachable(worlds, steps, pageSize) && i < |worlds|
    ensures Allowed(worlds[i], if AtRest(worlds[i].reader.pc) then BeginScrape else ReaderGoes, pageSize)
    ensures Enabled(worlds[i].file, a, pageSize) ==> Allowed(worlds[i], WriterStep(a), pageSize)
  {
    hide Reachable, InMap, Enabled;
    ReachableInv(worlds, steps, pageSize, i);
    StaysInMap(worlds[i]);
  }

  lemma StaysInMap(w: World)
    requires WorldInv(w)
    ensures InMap(w.reader, w.file.bytes)
  {
    hide InMap, Parsed;
  }

  lemma RestIsReady(w: World)
    requires WorldInv(w) && AtRest(w.reader.pc)
    ensures Ready(w.reader, w.file.bytes)
  {
    hide Parsed;
    if w.reader.mapped {
      ParsedWithin(w.reader.entries, w.reader.parsedUsed, w.file.log);
    }
  }
}
