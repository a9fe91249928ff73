/** The caching exporter against the from-scratch aggregator, over any life of a directory: files
    created, written, replaced, renamed and deleted, and any scrapes before. */
module Agreement {
  import opened Bytes
  import opened SeqFacts
  import opened RawEntries
  import opened MetricLog
  import opened LogScan
  import opened WriterProtocol
  import opened Merge
  import opened Aggregate
  import opened Scrape
  import opened Exporter

  /** `names` is the directory, `inodes` every file there ever was (an open file outlives its name, and
      an identity is not used twice), `cache` the state of the exporter. */
  datatype World = World(names: map<string, nat>, inodes: seq<File>, cache: map<string, Cached>)

  datatype Event =
    | Create(name: string, file: File)
    | Delete(name: string)
    | Rename(from: string, to: string)
    | Write(id: nat, action: Action)
    | Admit(params: FileParams, ok: bool)
    | VisitEntry(path: string)
    | Forget(path: string)
    | WholeScrape(dir: Dir, left: map<string, Cached>)

  function NodeOf(w: World, id: nat): Node
    requires id < |w.inodes|
  {
    Node(id, w.inodes[id].bytes)
  }

  /** What `dir` shows of the files is what is there; opening a file may fail. */
  predicate Shows(dir: Dir, w: World) {
    forall p <- dir.nodes :: p in w.names && w.names[p] < |w.inodes| && dir.nodes[p] == NodeOf(w, w.names[p])
  }

  ghost predicate Possible(w: World, e: Event, pageSize: nat)
    requires 0 < pageSize <= U32_MAX
  {
    match e
    case Create(name, file) => Initial(file)
    case Delete(name) => true
    case Rename(from, to) => from in w.names
    case Write(id, a) => id < |w.inodes| && Enabled(w.inodes[id], a, pageSize)
    case Admit(params, ok) => ok ==> params.path in w.names && w.names[params.path] < |w.inodes|
    case VisitEntry(path) => path in w.cache && w.cache[path].identity < |w.inodes|
    case Forget(path) => true
    case WholeScrape(dir, left) =>
      && dir.listing.Some? && DistinctNames(dir.listing.value) && Shows(dir, w)
      && AfterScrape(left, w.cache, dir, Discovered(dir.listing.value))
  }

  /** `Admit` and `VisitEntry` are the two moments at which a scrape looks at one file; between them
      anything may happen, also to the name.  `WholeScrape` is a scrape nothing interferes with. */
  function Happen(w: World, e: Event, pageSize: nat): World
    requires 0 < pageSize <= U32_MAX && Possible(w, e, pageSize)
  {
    match e
    case Create(name, file) => w.(names := w.names[name := |w.inodes|], inodes := w.inodes + [file])
    case Delete(name) => w.(names := w.names - {name})
    case Rename(from, to) => w.(names := (w.names - {from})[to := w.names[from]])
    case Write(id, a) => w.(inodes := w.inodes[id := Apply(w.inodes[id], a, pageSize)])
    case Admit(params, ok) =>
      var node := if ok then Some(NodeOf(w, w.names[params.path])) else None;
      var r := Admitted(Lookup(w.cache, params.path), params, node);
      w.(cache := WithEntry(w.cache, params.path, if r.Ok? then Some(r.value) else None))
    case VisitEntry(path) =>
      w.(cache := WithEntry(w.cache, path, Visit(w.cache[path], NodeOf(w, w.cache[path].identity)).1))
    case Forget(path) => w.(cache := w.cache - {path})
    case WholeScrape(dir, left) => w.(cache := left)
  }

  // ----- the invariant -----

  /** What the exporter remembers of a file is a prefix of what has been published in it. */
  predicate Remembers(c: Cached, inodes: seq<File>) {
    c.identity < |inodes| && Parsed(c.entries, c.parsedUsed, inodes[c.identity].log)
  }

  predicate WorldInv(w: World) {
    && (forall f <- w.inodes :: Inv(f))
    && (forall p <- w.names :: w.names[p] < |w.inodes|)
    && (forall p <- w.cache :: Remembers(w.cache[p], w.inodes))
  }

  /** A file that is not readable has published nothing. */
  lemma ReadableOrNothing(f: File, id: nat)
    requires Inv(f)
    ensures Readable(Node(id, f.bytes)) ==> WellFormed(f.bytes, f.log) && UsedWord(f.bytes) == End(f.log) <= |f.bytes|
    ensures !Readable(Node(id, f.bytes)) ==> f.log == []
  {
    hide WellFormed, End, UsedWord;
    if |f.bytes| >= HEADER_SIZE {
      BlankLong(f.bytes);
    }
    if WellFormed(f.bytes, f.log) {
      HeaderOf(f.bytes, f.log);
    }
  }

  /** Refreshing never fails on a file that stores write, and brings the cache exactly up to date,
      whatever prefix it had parsed before. */
  lemma RefreshIsExact(c: Cached, f: File, id: nat)
    requires Inv(f)
    requires c.identity == id ==> Parsed(c.entries, c.parsedUsed, f.log)
    ensures var n := Node(id, f.bytes);
            && Refreshed(c, n).Ok?
            && var r := Refreshed(c, n).value;
               && r.identity == id && r.params == c.params && r.mapLen == |f.bytes|
               && Parsed(r.entries, r.parsedUsed, f.log)
               && r.active == Readable(n)
               && r.entries == Items(f.log)
  {
    hide WellFormed, End, Items, UsedWord, ScanFrom, Inv, Parsed;
    var n := Node(id, f.bytes);
    ReadableOrNothing(f, id);
    ParsedNothing(f.log);
    if Readable(n) {
      var m := Remapped(c, n);
      assert Parsed(m.entries, m.parsedUsed, f.log);
      ParsedWithin(m.entries, m.parsedUsed, f.log);
      ResumedParse(m.entries, m.parsedUsed, f);
    } else {
      NoItems();
    }
  }

  lemma NoItems()
    ensures Items([]) == []
  {
  }

  lemma ResumedParse(entries: seq<Item>, parsedUsed: nat, f: File)
    requires WellFormed(f.bytes, f.log) && Parsed(entries, parsedUsed, f.log)
    ensures parsedUsed <= End(f.log) <= |f.bytes|
    ensures var s := ScanFrom(f.bytes, parsedUsed, End(f.log));
            entries + s.items == Items(f.log) && s.stop == Exhausted && s.pos == End(f.log)
    ensures Parsed(Items(f.log), End(f.log), f.log)
  {
    hide WellFormed, End, Items, ScanFrom;
    var k := |entries|;
    ScanWellFormed(f.bytes, f.log, k);
    SplitAt(Items(f.log), k);
    assert f.log[..|f.log|] == f.log && Items(f.log)[..|f.log|] == Items(f.log);
  }

  lemma AdmitRemembers(cached: Option<Cached>, params: FileParams, id: nat, inodes: seq<File>)
    requires id < |inodes| && Inv(inodes[id])
    requires cached.Some? ==> Remembers(cached.value, inodes)
    ensures var r := Admitted(cached, params, Some(Node(id, inodes[id].bytes)));
            r.Ok? && Remembers(r.value, inodes) && r.value.identity == id
  {
    hide Refreshed, Inv, Parsed;
    var f := inodes[id];
    ParsedNothing(f.log);
    RefreshIsExact(FreshCached(params, Node(id, f.bytes)), f, id);
  }

  lemma VisitRemembers(c: Cached, inodes: seq<File>)
    requires Remembers(c, inodes) && Inv(inodes[c.identity])
    ensures var left := Visit(c, Node(c.identity, inodes[c.identity].bytes)).1;
            left.Some? && Remembers(left.value, inodes)
  {
    hide Refreshed, Inv, Parsed, Visible;
    RefreshIsExact(c, inodes[c.identity], c.identity);
  }

  lemma ScrapeRemembers(cached: Option<Cached>, params: FileParams, node: Option<Node>, inodes: seq<File>)
    requires cached.Some? ==> Remembers(cached.value, inodes)
    requires node.Some? ==> node.value.id < |inodes| && Inv(inodes[node.value.id]) && node.value.bytes == inodes[node.value.id].bytes
    ensures var left := ScrapeFile(cached, params, node).1;
            (left.Some? <==> node.Some?) && (left.Some? ==> Remembers(left.value, inodes))
  {
    hide Visit, Inv, Remembers, Admitted;
    if node.Some? {
      AdmitRemembers(cached, params, node.value.id, inodes);
      VisitRemembers(Admitted(cached, params, node).value, inodes);
    } else {
      NothingToAdmit(cached, params);
    }
  }

  lemma NothingToAdmit(cached: Option<Cached>, params: FileParams)
    ensures Admitted(cached, params, None).Err?
  {
  }

  /** Published keys never change, so memories of a file stay good while it is written. */
  lemma WriteRemembers(c: Cached, inodes: seq<File>, id: nat, g: File)
    requires Remembers(c, inodes) && id < |inodes| && KeysExtend(inodes[id].log, g.log)
    ensures Remembers(c, inodes[id := g])
  {
    hide Parsed, KeysExtend;
    if c.identity == id {
      ParsedStays(c.entries, c.parsedUsed, inodes[id].log, g.log);
    }
  }

  lemma CacheAfterScrape(w: World, dir: Dir, left: map<string, Cached>, found: seq<FileParams>)
    requires WorldInv(w) && Shows(dir, w) && AfterScrape(left, w.cache, dir, found)
    ensures forall p <- left :: Remembers(left[p], w.inodes)
  {
    hide ScrapeFile, Inv, Remembers;
    forall p | p in left
      ensures Remembers(left[p], w.inodes)
    {
      assert IsFound(found, p);
      var params :| params in found && params.path == p;
      assert Lookup(left, params.path) == OutcomeOf(w.cache, dir, params).1;
      ScrapeRemembers(Lookup(w.cache, p), params, Lookup(dir.nodes, p), w.inodes);
    }
  }

  lemma HappenKeepsInv(w: World, e: Event, pageSize: nat)
    requires 0 < pageSize <= U32_MAX && WorldInv(w) && Possible(w, e, pageSize)
    ensures WorldInv(Happen(w, e, pageSize))
  {
    hide Inv, Enabled, Apply, Admitted, Visit, Parsed, AfterScrape, Initial, KeysExtend;
    match e
    case Create(name, file) => InitialInv(file);
    case Delete(name) =>
    case Rename(from, to) =>
    case Write(id, a) =>
      InvStep(w.inodes[id], a, pageSize);
      StepMonotone(w.inodes[id], a, pageSize);
      forall p | p in w.cache
        ensures Remembers(w.cache[p], Happen(w, e, pageSize).inodes)
      {
        WriteRemembers(w.cache[p], w.inodes, id, Apply(w.inodes[id], a, pageSize));
      }
    case Admit(params, ok) =>
      if ok {
        AdmitRemembers(Lookup(w.cache, params.path), params, w.names[params.path], w.inodes);
      } else {
        NothingToAdmit(Lookup(w.cache, params.path), params);
      }
    case VisitEntry(path) => VisitRemembers(w.cache[path], w.inodes);
    case Forget(path) =>
    case WholeScrape(dir, left) => CacheAfterScrape(w, dir, left, Discovered(dir.listing.value));
  }

  ghost predicate History(worlds: seq<World>, events: seq<Event>, pageSize: nat)
    requires 0 < pageSize <= U32_MAX
  {
    && |worlds| == |events| + 1
    && worlds[0] == World(map[], [], map[])
    && forall i | 0 <= i < |events| ::
         Possible(worlds[i], events[i], pageSize) && worlds[i + 1] == Happen(worlds[i], events[i], pageSize)
  }

  lemma {:induction false} HistoryKeepsInv(worlds: seq<World>, events: seq<Event>, pageSize: nat, i: nat)
    requires 0 < pageSize <= U32_MAX && History(worlds, events, pageSize) && i < |worlds|
    ensures WorldInv(worlds[i])
  {
    hide Possible, Happen;
    if i > 0 {
      HistoryKeepsInv(worlds, events, pageSize, i - 1);
      HappenKeepsInv(worlds[i - 1], events[i - 1], pageSize);
    }
  }

  // ----- both readers see what has been published -----

  /** The log published behind a path. */
  function PublishedAt(w: World, path: string): seq<Rec> {
    if path in w.names && w.names[path] < |w.inodes| then w.inodes[w.names[path]].log else []
  }

  function SamplesOf(w: World, f: FileParams, val: Bits -> real): seq<Contribution> {
    Contributions(f, LogSamples(PublishedAt(w, f.path)), val)
  }

  /** What should be reported: everything published in the files of the directory. */
  function PublishedIn(w: World, order: seq<FileParams>, val: Bits -> real): seq<Contribution> {
    if order == [] then [] else PublishedIn(w, order[..|order| - 1], val) + SamplesOf(w, order[|order| - 1], val)
  }

  lemma PublishedSnoc(w: World, order: seq<FileParams>, f: FileParams, val: Bits -> real)
    ensures PublishedIn(w, order + [f], val) == PublishedIn(w, order, val) + SamplesOf(w, f, val)
  {
    hide Contributions, LogSamples, PublishedAt;
    assert (order + [f])[..|order|] == order;
  }

  lemma LoggedValue(b: seq<byte>, log: seq<Rec>, i: nat)
    requires WellFormed(b, log) && i < |log|
    ensures var item := Items(log)[i];
            item.key == log[i].key && item.valueOffset + 8 <= End(log) && ValueIn(b, item.valueOffset) == log[i].value
  {
    hide WellFormed, End, Items, ValueAt;
    HeaderOf(b, log);
    ItemAt(log, i);
    ValueAtBounds(log, i);
    ValueBytes(b, log, i);
    StartMonotone(log, i + 1, |log|);
    assert log[..|log|] == log;
  }

  lemma {:induction false} VisibleLog(b: seq<byte>, log: seq<Rec>, k: nat)
    requires WellFormed(b, log) && k <= |log|
    ensures Visible(Items(log)[..k], End(log), b) == LogSamples(log)[..k]
  {
    if k > 0 {
      hide WellFormed, End, Items, ValueIn;
      VisibleLog(b, log, k - 1);
      LoggedValue(b, log, k - 1);
      assert Items(log)[..k][..k - 1] == Items(log)[..k - 1];
      Snoc(LogSamples(log), k - 1);
    }
  }

  lemma AggregatorSeesLog(f: File)
    requires Inv(f)
    ensures FileSamples(f.bytes) == Ok(LogSamples(f.log))
  {
    hide WellFormed, LogSamples, End, UsedWord;
    ReadableOrNothing(f, 0);
    if Readable(Node(0, f.bytes)) {
      WellFormedSamples(f.bytes, f.log);
    } else {
      assert LogSamples([]) == [];
    }
  }

  lemma VisitSeesLog(c: Cached, f: File, val: Bits -> real)
    requires Inv(f) && Parsed(c.entries, c.parsedUsed, f.log)
    ensures var o := Visit(c, Node(c.identity, f.bytes)).0;
            o != ErroredFile && OutcomeContributions(c.params, o, val) == Contributions(c.params, LogSamples(f.log), val)
  {
    hide Refreshed, Parsed, Inv, WellFormed, End, UsedWord, Visible;
    RefreshIsExact(c, f, c.identity);
    ReadableOrNothing(f, c.identity);
    if Readable(Node(c.identity, f.bytes)) {
      VisibleLog(f.bytes, f.log, |f.log|);
      assert Items(f.log)[..|f.log|] == Items(f.log);
      assert LogSamples(f.log)[..|f.log|] == LogSamples(f.log);
    }
  }

  /** Whatever earlier scrapes left in the cache, a scrape takes from a file exactly what has been
      published in it, and a file that can be opened is never an error. */
  lemma ExporterSeesLog(w: World, dir: Dir, params: FileParams, val: Bits -> real)
    requires WorldInv(w) && Shows(dir, w) && params.path in dir.nodes
    ensures OutcomeOf(w.cache, dir, params).0 != ErroredFile
    ensures ContributionOf(w.cache, dir, params, val) == SamplesOf(w, params, val)
  {
    hide Visit, Parsed, Inv, LogSamples, Contributions, OutcomeContributions, Refreshed;
    var id := w.names[params.path];
    var cached, node := Lookup(w.cache, params.path), Lookup(dir.nodes, params.path);
    AdmitRemembers(cached, params, id, w.inodes);
    AdmittedKeepsParams(cached, params, node);
    VisitSeesLog(Admitted(cached, params, node).value, w.inodes[id], val);
  }

  lemma {:induction false} ExporterPublishes(w: World, dir: Dir, order: seq<FileParams>, val: Bits -> real)
    requires WorldInv(w) && Shows(dir, w) && forall params <- order :: params.path in dir.nodes
    ensures ScrapeContributions(w.cache, dir, order, val) == PublishedIn(w, order, val)
  {
    if order != [] {
      hide ContributionOf, Contributions, LogSamples, WorldInv, Shows, PublishedAt;
      ExporterPublishes(w, dir, order[..|order| - 1], val);
      ExporterSeesLog(w, dir, order[|order| - 1], val);
    }
  }

  /** The files as the aggregator reads them. */
  function Sources(dir: Dir, order: seq<FileParams>): (s: seq<Source>)
    ensures |s| == |order|
  {
    seq(|order|, i requires 0 <= i < |order| =>
      Source(order[i], if order[i].path in dir.nodes then Some(dir.nodes[order[i].path].bytes) else None))
  }

  lemma {:induction false} AggregatorPublishes(w: World, dir: Dir, order: seq<FileParams>, val: Bits -> real)
    requires WorldInv(w) && Shows(dir, w) && forall params <- order :: params.path in dir.nodes
    ensures AllContributions(Sources(dir, order), val) == Ok(PublishedIn(w, order, val))
  {
    if order != [] {
      hide Contributions, LogSamples, FileSamples, Sources, WorldInv, Shows, PublishedAt;
      var n := |order| - 1;
      AggregatorPublishes(w, dir, order[..n], val);
      SourcesLast(w, dir, order);
    }
  }

  lemma SourcesLast(w: World, dir: Dir, order: seq<FileParams>)
    requires WorldInv(w) && Shows(dir, w) && order != [] && order[|order| - 1].path in dir.nodes
    ensures var n := |order| - 1;
            && Sources(dir, order)[..n] == Sources(dir, order[..n])
            && var last := Sources(dir, order)[n];
               && last.params == order[n] && last.content.Some?
               && FileSamples(last.content.value) == Ok(LogSamples(PublishedAt(w, order[n].path)))
  {
    hide LogSamples, FileSamples, Inv;
    AggregatorSeesLog(w.inodes[w.names[order[|order| - 1].path]]);
  }

  lemma {:induction false} PublishedRemove(w: World, order: seq<FileParams>, i: nat, val: Bits -> real)
    requires i < |order|
    ensures multiset(PublishedIn(w, order, val))
         == multiset(PublishedIn(w, RemoveAt(order, i), val)) + multiset(SamplesOf(w, order[i], val))
  {
    hide PublishedIn, SamplesOf;
    var n := |order| - 1;
    var front, last := order[..n], order[n];
    assert order == front + [last];
    PublishedSnoc(w, front, last, val);
    if i == n {
      assert RemoveAt(order, i) == front;
    } else {
      PublishedRemove(w, front, i, val);
      assert RemoveAt(order, i) == RemoveAt(front, i) + [last];
      PublishedSnoc(w, RemoveAt(front, i), last, val);
    }
  }

  /** The order in which files are visited permutes what they contribute. */
  lemma {:induction false} PublishedPermuted(w: World, order: seq<FileParams>, other: seq<FileParams>, val: Bits -> real)
    requires multiset(order) == multiset(other)
    ensures multiset(PublishedIn(w, order, val)) == multiset(PublishedIn(w, other, val))
  {
    hide Contributions, LogSamples, PublishedAt;
    SameMultisetSameMembers(order, other);
    if order != [] {
      hide PublishedIn;
      var n := |order| - 1;
      assert order[n] in other;
      var i :| 0 <= i < |other| && other[i] == order[n];
      RemoveAtMultiset(other, i);
      RemoveAtMultiset(order, n);
      assert RemoveAt(order, n) == order[..n];
      PublishedPermuted(w, order[..n], RemoveAt(other, i), val);
      PublishedRemove(w, other, i, val);
      PublishedRemove(w, order, n, val);
    }
  }

  /** In an undisturbed directory of stored files a scrape visits every discovered file and none is an error. */
  lemma NothingErrored(w: World, dir: Dir, found: seq<FileParams>, visited: seq<FileParams>, val: Bits -> real)
    requires WorldInv(w) && Shows(dir, w) && DistinctPaths(found) && forall params <- found :: params.path in dir.nodes
    requires Visits(w.cache, dir, found, visited)
    ensures multiset(visited) == multiset(found) && ErroredPaths(w.cache, dir, found) == {}
  {
    hide OutcomeOf, Shows, WorldInv;
    forall params | params in found
      ensures OutcomeOf(w.cache, dir, params).0 != ErroredFile
    {
      ExporterSeesLog(w, dir, params, val);
    }
    SameMembersSameMultiset(visited, found);
  }

  /** The two readers side by side, on a quiescent directory at any moment of any history: the scrape
      reports no error and both arrive at the same merged map. */
  method BothReaders(exporter: CachedDirExporter, dir: Dir, order: seq<FileParams>, val: Bits -> real,
                     ghost worlds: seq<World>, ghost events: seq<Event>, ghost pageSize: nat)
    returns (scraped: Result<(Merged, nat)>, aggregated: Result<Merged>)
    requires 0 < pageSize <= U32_MAX && History(worlds, events, pageSize)
    requires var w := worlds[|worlds| - 1];
             exporter.Valid() && exporter.View() == w.cache && Shows(dir, w)
    requires dir.listing.Some? && DistinctNames(dir.listing.value) && DiscoveryErrors(dir.listing.value) == 0
    requires forall params <- Discovered(dir.listing.value) :: params.path in dir.nodes
    requires multiset(order) == multiset(Discovered(dir.listing.value))
    requires AllCommute(PublishedIn(worlds[|worlds| - 1], order, val))
    modifies exporter, exporter.files.Values
    ensures exporter.Valid()
    ensures aggregated.Ok? && aggregated.value == MergeAll(PublishedIn(worlds[|worlds| - 1], order, val))
    ensures scraped == Ok((aggregated.value, 0))
  {
    hide Visits, AfterScrape, WorldInv, Shows, ErroredPaths, ScrapeContributions, PublishedIn, AllCommute, MergeAll, Possible, Happen,
      Discovered, AllContributions;
    ghost var w, found := worlds[|worlds| - 1], Discovered(dir.listing.value);
    HistoryKeepsInv(worlds, events, pageSize, |worlds| - 1);
    DiscoveredDistinct(dir.listing.value);
    SameMultisetSameMembers(order, found);
    ghost var visited;
    scraped, visited := exporter.Render(dir, val);
    NothingErrored(w, dir, found, visited, val);
    SameMultisetSameMembers(visited, found);
    ExporterPublishes(w, dir, visited, val);
    PublishedPermuted(w, visited, order, val);
    OrderIndependent(PublishedIn(w, visited, val), PublishedIn(w, order, val));
    AggregatorPublishes(w, dir, order, val);
    aggregated := AggregateFiles(Sources(dir, order), val);
  }

  /** A scrape by the object is an event of the history, so histories can be driven by the object. */
  method ScrapeOnce(exporter: CachedDirExporter, dir: Dir, val: Bits -> real,
                    ghost worlds: seq<World>, ghost events: seq<Event>, ghost pageSize: nat)
    returns (r: Result<(Merged, nat)>, ghost later: seq<World>, ghost more: seq<Event>)
    requires 0 < pageSize <= U32_MAX && History(worlds, events, pageSize)
    requires var w := worlds[|worlds| - 1];
             exporter.Valid() && exporter.View() == w.cache && Shows(dir, w)
    requires dir.listing.Some? ==> DistinctNames(dir.listing.value)
    modifies exporter, exporter.files.Values
    ensures exporter.Valid() && (r.Ok? <==> dir.listing.Some?)
    ensures r.Err? ==> later == worlds && more == events
    ensures r.Ok? ==>
              && more == events + [WholeScrape(dir, exporter.View())]
              && later == worlds + [worlds[|worlds| - 1].(cache := exporter.View())]
    ensures History(later, more, pageSize) && exporter.View() == later[|later| - 1].cache
  {
    hide AfterScrape, Shows, ErroredPaths, ScrapeContributions, MergeAll, Discovered, Visits, DiscoveryErrors, DistinctNames;
    ghost var visited;
    later, more := worlds, events;
    r, visited := exporter.Render(dir, val);
    if r.Ok? {
      ghost var e := WholeScrape(dir, exporter.View());
      OneMoreEvent(worlds, events, pageSize, e);
      later, more := worlds + [Happen(worlds[|worlds| - 1], e, pageSize)], events + [e];
    }
  }

  lemma OneMoreEvent(worlds: seq<World>, events: seq<Event>, pageSize: nat, e: Event)
    requires 0 < pageSize <= U32_MAX && History(worlds, events, pageSize) && Possible(worlds[|worlds| - 1], e, pageSize)
    ensures History(worlds + [Happen(worlds[|worlds| - 1], e, pageSize)], events + [e], pageSize)
  {
    hide Possible, Happen;
    var w := worlds + [Happen(worlds[|worlds| - 1], e, pageSize)];
    forall i | 0 <= i < |events + [e]|
      ensures Possible(w[i], (events + [e])[i], pageSize) && w[i + 1] == Happen(w[i], (events + [e])[i], pageSize)
    {
      if i < |events| {
        assert w[i] == worlds[i] && w[i + 1] == worlds[i + 1];
      }
    }
  }

  // ----- when samples commute -----

  /** Each key is stored under one type and mode only. */
  predicate OneKindPerKey(w: World, found: seq<FileParams>) {
    forall f <- found, g <- found, r <- PublishedAt(w, f.path), s <- PublishedAt(w, g.path) ::
      r.key == s.key ==> f.metricType == g.metricType && f.mode == g.mode
  }

  /** Of the files of one process, only one holds a given `all` or `liveall` gauge. */
  predicate OneFilePerPid(w: World, found: seq<FileParams>) {
    forall f <- found, g <- found, r <- PublishedAt(w, f.path), s <- PublishedAt(w, g.path) ::
      IsPidSignificant(f.metricType, f.mode) && IsPidSignificant(g.metricType, g.mode) && f.pid == g.pid && r.key == s.key
      ==> f.path == g.path
  }

  lemma {:induction false} PublishedFrom(w: World, order: seq<FileParams>, val: Bits -> real, c: Contribution)
    returns (f: FileParams, r: Rec)
    requires c in PublishedIn(w, order, val)
    ensures f in order && r in PublishedAt(w, f.path) && c == Contribute(f, Sample(r.key, r.value), val)
  {
    var n := |order| - 1;
    f := order[n];
    var log := PublishedAt(w, f.path);
    var cs := Contributions(f, LogSamples(log), val);
    if c in cs {
      var i :| 0 <= i < |cs| && cs[i] == c;
      r := log[i];
    } else {
      f, r := PublishedFrom(w, order[..n], val, c);
    }
  }

  /** The two conditions on keys make all samples commute. */
  lemma KeysCommute(w: World, found: seq<FileParams>, val: Bits -> real)
    requires WorldInv(w) && OneKindPerKey(w, found) && OneFilePerPid(w, found)
    ensures AllCommute(PublishedIn(w, found, val))
  {
    hide PublishedIn, WorldInv;
    var cs := PublishedIn(w, found, val);
    forall a, b | a in cs && b in cs
      ensures Commutes(a, b)
    {
      if a.key == b.key {
        var f, r := PublishedFrom(w, found, val, a);
        var g, s := PublishedFrom(w, found, val, b);
        if f.path == g.path {
          PublishedKeysDistinct(w, f.path, r, s);
        }
      }
    }
  }

  lemma PublishedKeysDistinct(w: World, path: string, r: Rec, s: Rec)
    requires WorldInv(w) && r in PublishedAt(w, path) && s in PublishedAt(w, path) && r.key == s.key
    ensures r == s
  {
    hide Inv;
    LogDistinct(w.inodes[w.names[path]]);
  }

  lemma LogDistinct(f: File)
    requires Inv(f)
    ensures DistinctKeys(f.log)
  {
    hide LogBytes, End;
  }

  // ----- where the readers part -----

  /** The cache entry is one of this file, and a scrape will go on from it. */
  predicate GoesOn(cached: Option<Cached>, n: Node)
    requires |n.bytes| >= HEADER_SIZE
  {
    cached.Some? && cached.value.identity == n.id && cached.value.mapLen == |n.bytes| && cached.value.parsedUsed <= UsedWord(n.bytes)
  }

  /** What a scrape goes on from is what a parse of the present bytes would have found so far. */
  predicate CachedParse(cached: Option<Cached>, n: Node) {
    Readable(n) && UsedWord(n.bytes) <= |n.bytes| && GoesOn(cached, n) ==>
      var c, used := cached.value, UsedWord(n.bytes);
      var rest := ScanFrom(n.bytes, c.parsedUsed, used);
      && c.parsedUsed >= HEADER_SIZE
      && ScanFrom(n.bytes, HEADER_SIZE, used) == Scan(c.entries + rest.items, rest.pos, rest.stop)
  }

  /** On arbitrary bytes the exporter takes from a file what the aggregator takes, or both report an error. */
  ghost predicate SameReading(cached: Option<Cached>, params: FileParams, n: Node) {
    match ScrapeFile(cached, params, Some(n)).0
    case Contributing(samples) => FileSamples(n.bytes) == Ok(samples)
    case InactiveFile => FileSamples(n.bytes) == Ok([])
    case ErroredFile => FileSamples(n.bytes).Err?
  }

  lemma {:induction false} VisibleAll(items: seq<Item>, used: nat, b: seq<byte>)
    requires forall item <- items :: item.valueOffset + 8 <= used
    ensures Visible(items, used, b) == ReadSamples(b, items)
  {
    if items != [] {
      var n := |items| - 1;
      VisibleAll(items[..n], used, b);
      assert ReadSamples(b, items) == ReadSamples(b, items[..n]) + [Sample(items[n].key, ValueIn(b, items[n].valueOffset))];
    }
  }

  /** The readers part exactly on a file whose scan meets an entry that is not text: the aggregator
      keeps the entries before it, the exporter drops the file.  That is so with nothing cached and with
      any part of the file cached. */
  lemma ReadersPart(cached: Option<Cached>, params: FileParams, n: Node)
    requires CachedParse(cached, n)
    ensures SameReading(cached, params, n) <==>
              !(Readable(n) && UsedWord(n.bytes) <= |n.bytes| && ScanFrom(n.bytes, HEADER_SIZE, UsedWord(n.bytes)).stop == BadText)
  {
    hide ScanFrom, UsedWord, Visible, ReadSamples;
    if Readable(n) && UsedWord(n.bytes) <= |n.bytes| {
      var b, used := n.bytes, UsedWord(n.bytes);
      var s := ScanFrom(b, HEADER_SIZE, used);
      ItemsInBounds(b, HEADER_SIZE, used);
      VisibleAll(s.items, used, b);
      ScanRests(b, HEADER_SIZE, used);
      assert [] + s.items == s.items && s.items + [] == s.items;
    }
  }

  /** What an earlier scrape left of a file is such a parse, as long as the key bytes it parsed are still
      there and `used` has not gone back. */
  lemma EarlierParse(before: seq<byte>, u: nat, n: Node, params: FileParams)
    requires u <= |before| && SameKeyBytes(before, n.bytes, HEADER_SIZE, u)
    requires Readable(n) && UsedWord(n.bytes) <= |n.bytes| ==> u <= UsedWord(n.bytes)
    ensures var s := ScanFrom(before, HEADER_SIZE, u);
            CachedParse(Some(Cached(params, n.id, |n.bytes|, s.pos, s.items, true)), n)
  {
    hide ScanFrom, UsedWord, SameKeyBytes;
    if Readable(n) && UsedWord(n.bytes) <= |n.bytes| {
      ResumeScan(before, n.bytes, HEADER_SIZE, u, UsedWord(n.bytes));
    }
  }

  /** One entry whose family is the byte 0xFF, and no sample or labels. */
  function NoText(): seq<byte> {
    [32, 0, 0, 0, 2, 0, 0, 0] + ([1, 0, 0, 0] + [0, 0, 0, 0] + [0, 0, 0, 0] + [0xFF] + [0x20, 0x20, 0x20] + ZERO)
  }

  /** A file of 32 bytes on which they part. */
  lemma ReadersPartHere(params: FileParams, id: nat)
    ensures !SameReading(None, params, Node(id, NoText()))
    ensures FileSamples(NoText()) == Ok([]) && ScrapeFile(None, params, Some(Node(id, NoText()))).0 == ErroredFile
  {
    hide ScanFrom, FromSlice;
    var b := NoText();
    NoTextStops();
    OutcomeCases(None, params, Some(Node(id, b)));
  }

  lemma NoTextStops()
    ensures var b := NoText();
            |b| == 32 && U32At(b, 4) == FILE_FORMAT_VERSION && UsedWord(b) == 32
            && ScanFrom(b, HEADER_SIZE, 32) == Scan([], HEADER_SIZE, BadText)
  {
    hide FromSlice, TextKey;
    var b := NoText();
    assert b[8..32] == [1, 0, 0, 0] + [0, 0, 0, 0] + [0, 0, 0, 0] + [0xFF] + [0x20, 0x20, 0x20] + ZERO;
    NoTextEntry(b[8..32]);
    ScanTurn(b, 8, 32);
  }

  lemma NoTextEntry(e: seq<byte>)
    requires e == [1, 0, 0, 0] + [0, 0, 0, 0] + [0, 0, 0, 0] + [0xFF] + [0x20, 0x20, 0x20] + ZERO
    ensures FromSlice(e).Ok? && TextKey(FromSlice(e).value).None?
  {
    assert U32At(e, 0) == 1 && U32At(e, 4) == 0 && U32At(e, 8) == 0;
    FromSliceMeaning(e);
    assert FromSlice(e).value.FamilyBytes() == e[12..13] == [0xFF];
  }
}
