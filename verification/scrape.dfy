/** What one scrape of the caching exporter does with each file, as functions on values.  The classes
    of module `Exporter` are proved against these. */
module Scrape {
  import opened Bytes
  import opened RawEntries
  import opened MetricLog
  import opened LogScan
  import opened Merge
  import opened Aggregate
  import opened FileName

  /** A file behind a path: its identity (device and inode) and its bytes. */
  datatype Node = Node(id: nat, bytes: seq<byte>)

  datatype Kind = Regular | Other | KindUnknown

  /** One answer of `read_dir`. */
  datatype DirEntry = Unreadable | Found(name: string, kind: Kind)

  /** A directory while a scrape runs.  A listed name without a node cannot be opened or examined;
      `listing` is absent when the directory itself cannot be read. */
  datatype Dir = Dir(listing: Option<seq<DirEntry>>, nodes: map<string, Node>)

  /** The state of a `CachedFile`. */
  datatype Cached = Cached(params: FileParams, identity: nat, mapLen: nat, parsedUsed: nat, entries: seq<Item>, active: bool)

  // ----- discovery -----

  /** What `discover_metric_files` does with one directory entry: nothing, an error, or a metric file. */
  datatype Finding = Skip | Broken | Metric(params: FileParams)

  function Inspect(e: DirEntry): Finding {
    match e
    case Unreadable => Broken
    case Found(name, kind) =>
      if !IsDb(name) then Skip
      else if kind == KindUnknown then Broken
      else if kind == Other then Skip
      else
        var params := ParseFileParams(name);
        if params.Err? then Broken else Metric(params.value)
  }

  function Discovered(listing: seq<DirEntry>): seq<FileParams> {
    if listing == [] then [] else
    var rest := Discovered(listing[..|listing| - 1]);
    match Inspect(listing[|listing| - 1])
    case Metric(params) => rest + [params]
    case _ => rest
  }

  /** Directory entries that cannot be read, file types that cannot be told, names that do not parse. */
  function DiscoveryErrors(listing: seq<DirEntry>): nat {
    if listing == [] then 0 else
    DiscoveryErrors(listing[..|listing| - 1]) + if Inspect(listing[|listing| - 1]) == Broken then 1 else 0
  }

  /** A name that ends in ".db", with something in front of it. */
  ghost predicate DbName(name: string) {
    exists stem: string :: stem != "" && name == stem + ".db"
  }

  lemma DbNameMeaning(name: string)
    ensures IsDb(name) <==> DbName(name)
  {
    if IsDb(name) {
      assert name == Stem(name) + ".db";
    }
  }

  /** The entry is a metric file: a regular file with such a name that can be understood. */
  ghost predicate IsMetricFile(e: DirEntry, params: FileParams) {
    e.Found? && e.kind == Regular && DbName(e.name) && IsDb(e.name) && ParseFileParams(e.name) == Ok(params)
  }

  /** The entry is an error: it cannot be read, or its name ends in ".db" and its type cannot be told, or
      it is a regular file whose name cannot be understood. */
  ghost predicate IsFailure(e: DirEntry) {
    || e == Unreadable
    || (e.Found? && DbName(e.name) && e.kind == KindUnknown)
    || (e.Found? && DbName(e.name) && e.kind == Regular && IsDb(e.name) && ParseFileParams(e.name).Err?)
  }

  ghost function Failures(listing: seq<DirEntry>): set<nat> {
    set i | 0 <= i < |listing| && IsFailure(listing[i])
  }

  lemma InspectMeaning(e: DirEntry)
    ensures IsFailure(e) <==> Inspect(e) == Broken
    ensures forall params :: IsMetricFile(e, params) <==> Inspect(e) == Metric(params)
  {
    hide ParseFileParams, IsDb, DbName;
    if e.Found? {
      DbNameMeaning(e.name);
    }
  }

  /** Discovery finds exactly the metric files, and counts exactly the other entries that should have
      been metric files. */
  lemma {:induction false} DiscoveredExactly(listing: seq<DirEntry>)
    ensures forall params :: params in Discovered(listing) <==> exists e <- listing :: IsMetricFile(e, params)
    ensures DiscoveryErrors(listing) == |Failures(listing)|
  {
    hide Inspect, IsMetricFile, IsFailure;
    if listing != [] {
      var n := |listing| - 1;
      var front, last := listing[..n], listing[n];
      DiscoveredExactly(front);
      InspectMeaning(last);
      assert listing == front + [last];
      assert Failures(listing) == Failures(front) + if IsFailure(last) then {n} else {};
    }
  }

  // ----- one file -----

  function FreshCached(params: FileParams, n: Node): Cached {
    Cached(params, n.id, |n.bytes|, HEADER_SIZE, [], false)
  }

  /** `refresh_map_if_needed`. */
  function Remapped(c: Cached, n: Node): Cached {
    if |n.bytes| != c.mapLen || n.id != c.identity then
      c.(mapLen := |n.bytes|, identity := n.id, parsedUsed := HEADER_SIZE, entries := [])
    else c
  }

  predicate Readable(n: Node) {
    |n.bytes| >= HEADER_SIZE && U32At(n.bytes, 4) == FILE_FORMAT_VERSION
  }

  /** `refresh_entries`. */
  function Refreshed(c: Cached, n: Node): Result<Cached> {
    var m := Remapped(c, n);
    if !Readable(n) then Ok(m.(active := false, entries := [], parsedUsed := HEADER_SIZE)) else
    var used := UsedWord(n.bytes);
    if used > |n.bytes| then Err(InvalidUsed(used, |n.bytes|)) else
    var p := if used < m.parsedUsed then m.(entries := [], parsedUsed := HEADER_SIZE) else m;
    var start := if p.parsedUsed < HEADER_SIZE then HEADER_SIZE else p.parsedUsed;
    var s := ScanFrom(n.bytes, start, used);
    if s.stop == BadText then Err(Utf8)
    else Ok(p.(active := true, entries := p.entries + s.items, parsedUsed := s.pos))
  }

  /** What `refresh` does with a discovered file, given its cache entry and the file behind its path. */
  function Admitted(cached: Option<Cached>, params: FileParams, node: Option<Node>): Result<Cached> {
    if node.None? then Err(Io)
    else if cached.Some? && cached.value.identity == node.value.id then
      Ok(Remapped(cached.value.(params := params), node.value))
    else Refreshed(FreshCached(params, node.value), node.value)
  }

  /** The samples the value loop of `render` takes: entries behind the boundary are skipped. */
  function Visible(entries: seq<Item>, used: nat, b: seq<byte>): seq<Sample> {
    if entries == [] then [] else
    var front, last := Visible(entries[..|entries| - 1], used, b), entries[|entries| - 1];
    if last.valueOffset + 8 > used then front else front + [Sample(last.key, ValueIn(b, last.valueOffset))]
  }

  /** How a scrape ends for one file. */
  datatype Outcome = Contributing(samples: seq<Sample>) | InactiveFile | ErroredFile

  /** What the file loop of `render` does with one cached file. */
  function Visit(c: Cached, n: Node): (Outcome, Option<Cached>) {
    var done := Refreshed(c, n);
    if done.Err? then (ErroredFile, None)
    else if !done.value.active then (InactiveFile, Some(done.value))
    else (Contributing(Visible(done.value.entries, UsedWord(n.bytes), n.bytes)), Some(done.value))
  }

  /** Outcome of one discovered file and the cache entry it leaves behind. */
  function ScrapeFile(cached: Option<Cached>, params: FileParams, node: Option<Node>): (Outcome, Option<Cached>) {
    var admitted := Admitted(cached, params, node);
    if admitted.Err? then (ErroredFile, None) else Visit(admitted.value, node.value)
  }

  function Lookup<K, V>(m: map<K, V>, k: K): Option<V> {
    if k in m then Some(m[k]) else None
  }

  function OutcomeOf(cache: map<string, Cached>, dir: Dir, params: FileParams): (Outcome, Option<Cached>) {
    ScrapeFile(Lookup(cache, params.path), params, Lookup(dir.nodes, params.path))
  }

  function OutcomeContributions(params: FileParams, o: Outcome, val: Bits -> real): seq<Contribution> {
    match o
    case Contributing(samples) => Contributions(params, samples, val)
    case _ => []
  }

  function ContributionOf(cache: map<string, Cached>, dir: Dir, params: FileParams, val: Bits -> real): seq<Contribution> {
    OutcomeContributions(params, OutcomeOf(cache, dir, params).0, val)
  }

  /** Everything a scrape contributes when it visits files in the given order. */
  function ScrapeContributions(cache: map<string, Cached>, dir: Dir, order: seq<FileParams>, val: Bits -> real): seq<Contribution> {
    if order == [] then []
    else ScrapeContributions(cache, dir, order[..|order| - 1], val) + ContributionOf(cache, dir, order[|order| - 1], val)
  }

  function AdmittedOf(cache: map<string, Cached>, dir: Dir, params: FileParams): Option<Cached> {
    var admitted := Admitted(Lookup(cache, params.path), params, Lookup(dir.nodes, params.path));
    if admitted.Ok? then Some(admitted.value) else None
  }

  /** Files that `refresh` cannot open or examine. */
  function RefusedPaths(cache: map<string, Cached>, dir: Dir, found: seq<FileParams>): set<string> {
    if found == [] then {} else
    RefusedPaths(cache, dir, found[..|found| - 1])
    + if AdmittedOf(cache, dir, found[|found| - 1]) == None then {found[|found| - 1].path} else {}
  }

  lemma {:induction false} RefusedMeaning(cache: map<string, Cached>, dir: Dir, found: seq<FileParams>)
    ensures forall p :: p in RefusedPaths(cache, dir, found) <==>
              exists params <- found :: AdmittedOf(cache, dir, params) == None && params.path == p
  {
    if found != [] {
      hide AdmittedOf;
      var n := |found| - 1;
      RefusedMeaning(cache, dir, found[..n]);
      assert found == found[..n] + [found[n]];
    }
  }

  lemma RefusedStep(cache: map<string, Cached>, dir: Dir, done: seq<FileParams>, params: FileParams)
    requires !IsFound(done, params.path)
    ensures var more := RefusedPaths(cache, dir, done + [params]);
            if AdmittedOf(cache, dir, params) == None then
              more == RefusedPaths(cache, dir, done) + {params.path} && |more| == |RefusedPaths(cache, dir, done)| + 1
            else more == RefusedPaths(cache, dir, done)
  {
    hide AdmittedOf;
    RefusedMeaning(cache, dir, done);
    assert (done + [params])[..|done|] == done;
  }

  /** Files that end in an error. */
  ghost function ErroredPaths(cache: map<string, Cached>, dir: Dir, found: seq<FileParams>): set<string> {
    set params | params in found && OutcomeOf(cache, dir, params).0 == ErroredFile :: params.path
  }

  predicate DistinctPaths(found: seq<FileParams>) {
    forall i, j | 0 <= i < j < |found| :: found[i].path != found[j].path
  }

  /** A directory lists a name once. */
  predicate DistinctNames(listing: seq<DirEntry>) {
    forall i, j | 0 <= i < j < |listing| && listing[i].Found? && listing[j].Found? :: listing[i].name != listing[j].name
  }

  lemma {:induction false} DiscoveredDistinct(listing: seq<DirEntry>)
    requires DistinctNames(listing)
    ensures DistinctPaths(Discovered(listing))
    ensures forall params <- Discovered(listing) ::
              exists i | 0 <= i < |listing| :: Inspect(listing[i]) == Metric(params) && listing[i] == Found(params.path, Regular)
  {
    if listing != [] {
      var n := |listing| - 1;
      DiscoveredDistinct(listing[..n]);
      var rest := Discovered(listing[..n]);
      forall params | params in Discovered(listing)
        ensures exists i | 0 <= i < |listing| :: Inspect(listing[i]) == Metric(params) && listing[i] == Found(params.path, Regular)
      {
        if params in rest {
          var i :| 0 <= i < n && Inspect(listing[..n][i]) == Metric(params) && listing[..n][i] == Found(params.path, Regular);
          assert listing[i] == listing[..n][i];
        } else {
          assert Inspect(listing[n]) == Metric(params);
        }
      }
    }
  }

  predicate IsFound(found: seq<FileParams>, path: string) {
    exists params <- found :: params.path == path
  }

  /** One cache entry replaced, or dropped. */
  function WithEntry(view: map<string, Cached>, path: string, c: Option<Cached>): map<string, Cached> {
    if c.Some? then view[path := c.value] else view - {path}
  }

  /** `refresh` after some of the discovered files: those are admitted, the others as they were. */
  ghost predicate DuringRefresh(view: map<string, Cached>, cache: map<string, Cached>, dir: Dir, done: seq<FileParams>) {
    && (forall params <- done :: Lookup(view, params.path) == AdmittedOf(cache, dir, params))
    && (forall p: string :: !IsFound(done, p) ==> Lookup(view, p) == Lookup(cache, p))
  }

  lemma RefreshStep(view: map<string, Cached>, cache: map<string, Cached>, dir: Dir, done: seq<FileParams>, params: FileParams)
    requires DuringRefresh(view, cache, dir, done) && !IsFound(done, params.path)
    ensures Lookup(view, params.path) == Lookup(cache, params.path)
    ensures DuringRefresh(WithEntry(view, params.path, AdmittedOf(cache, dir, params)), cache, dir, done + [params])
  {
    hide AdmittedOf;
    var next := WithEntry(view, params.path, AdmittedOf(cache, dir, params));
    forall x | x in done + [params]
      ensures Lookup(next, x.path) == AdmittedOf(cache, dir, x)
    {
      if x in done {
        assert IsFound(done, x.path);
      }
    }
    forall p: string | !IsFound(done + [params], p)
      ensures Lookup(next, p) == Lookup(cache, p)
    {
      assert params in done + [params];
      assert forall x <- done :: x in done + [params];
    }
  }

  /** `view` is the cache after `refresh`: what was admitted of each discovered file, and nothing else. */
  ghost predicate AfterRefresh(view: map<string, Cached>, cache: map<string, Cached>, dir: Dir, found: seq<FileParams>) {
    && (forall params <- found :: Lookup(view, params.path) == AdmittedOf(cache, dir, params))
    && (forall p <- view :: IsFound(found, p))
  }

  /** `view` is the cache a whole scrape leaves behind. */
  ghost predicate AfterScrape(view: map<string, Cached>, cache: map<string, Cached>, dir: Dir, found: seq<FileParams>) {
    && (forall params <- found :: Lookup(view, params.path) == OutcomeOf(cache, dir, params).1)
    && (forall p <- view :: IsFound(found, p))
  }

  // ----- the file loop of `render` -----

  /** What the loop leaves of one refreshed cache entry. */
  function FinalOf(view: map<string, Cached>, dir: Dir, p: string): Option<Cached> {
    if p in view && p in dir.nodes then Visit(view[p], dir.nodes[p]).1 else None
  }

  /** The loop after some files, starting from the refreshed cache `start`: files in `todo` are as they
      were, the others have been visited, and those in `failed` are about to be dropped. */
  ghost predicate DuringVisits(view: map<string, Cached>, start: map<string, Cached>, dir: Dir,
                               todo: set<string>, failed: set<string>) {
    && view.Keys == start.Keys && todo <= start.Keys && failed <= start.Keys - todo
    && (forall p <- todo :: view[p] == start[p])
    && (forall p <- start.Keys - todo :: if p in failed then FinalOf(start, dir, p) == None else FinalOf(start, dir, p) == Some(view[p]))
  }

  lemma VisitStep(view: map<string, Cached>, start: map<string, Cached>, dir: Dir, todo: set<string>, failed: set<string>,
                  p: string, next: map<string, Cached>, ok: bool)
    requires DuringVisits(view, start, dir, todo, failed) && p in todo
    requires next.Keys == view.Keys && forall q <- view :: q != p ==> next[q] == view[q]
    requires FinalOf(start, dir, p) == if ok then Some(next[p]) else None
    ensures ok ==> DuringVisits(next, start, dir, todo - {p}, failed)
    ensures !ok ==> DuringVisits(next, start, dir, todo - {p}, failed + {p}) && |failed + {p}| == |failed| + 1
  {
    hide FinalOf;
  }

  /** A cache entry that survived `refresh` belongs to one discovered file, and visiting it completes
      what the scrape does with that file. */
  lemma RefreshedEntry(start: map<string, Cached>, cache: map<string, Cached>, dir: Dir, found: seq<FileParams>, p: string)
    returns (params: FileParams)
    requires AfterRefresh(start, cache, dir, found) && p in start
    ensures params in found && params.path == p && p in dir.nodes && start[p].params == params
    ensures OutcomeOf(cache, dir, params) == Visit(start[p], dir.nodes[p])
  {
    hide Refreshed, Visit;
    assert IsFound(found, p);
    params :| params in found && params.path == p;
    assert Lookup(start, params.path) == AdmittedOf(cache, dir, params);
    AdmittedKeepsParams(Lookup(cache, p), params, Lookup(dir.nodes, p));
  }

  lemma AdmittedKeepsParams(cached: Option<Cached>, params: FileParams, node: Option<Node>)
    requires Admitted(cached, params, node).Ok?
    ensures Admitted(cached, params, node).value.params == params && node.Some?
  {
    hide ScanFrom;
  }

  /** `visited` lists the files whose samples a scrape merges, in the order it happened to take; the
      discovered files it does not list had been refused by `refresh`. */
  ghost predicate Visits(cache: map<string, Cached>, dir: Dir, found: seq<FileParams>, visited: seq<FileParams>) {
    && DistinctPaths(visited)
    && (forall params <- visited :: params in found)
    && (forall params <- found :: params in visited || OutcomeOf(cache, dir, params) == (ErroredFile, None))
  }

  /** A scrape visits every metric file that it does not report as an error, and no other file. */
  lemma AllMetricFiles(cache: map<string, Cached>, dir: Dir, listing: seq<DirEntry>, visited: seq<FileParams>)
    requires Visits(cache, dir, Discovered(listing), visited)
    ensures forall params <- visited :: exists e <- listing :: IsMetricFile(e, params)
    ensures forall e <- listing, params | IsMetricFile(e, params) ::
              params in visited || OutcomeOf(cache, dir, params) == (ErroredFile, None)
    ensures DiscoveryErrors(listing) == |Failures(listing)|
  {
    hide IsMetricFile, OutcomeOf, Failures;
    DiscoveredExactly(listing);
  }

  /** The visited files are exactly those of `start` that are no longer to do. */
  ghost predicate VisitedSoFar(found: seq<FileParams>, start: map<string, Cached>, todo: set<string>, visited: seq<FileParams>) {
    && DistinctPaths(visited)
    && (forall params <- visited :: params in found && params.path in start && params.path !in todo)
    && (forall p <- start :: p !in todo ==> IsFound(visited, p))
  }

  lemma VisitedMore(found: seq<FileParams>, start: map<string, Cached>, todo: set<string>, visited: seq<FileParams>, params: FileParams)
    requires VisitedSoFar(found, start, todo, visited) && params in found && params.path in todo && params.path in start
    ensures VisitedSoFar(found, start, todo - {params.path}, visited + [params])
  {
    var more := visited + [params];
    forall p | p in start && p !in todo - {params.path}
      ensures IsFound(more, p)
    {
      if p == params.path {
        assert params in more;
      } else {
        var x :| x in visited && x.path == p;
        assert x in more;
      }
    }
  }

  /** State of the file loop: what has been merged, which files are left, which have failed. */
  ghost predicate LoopState(view: map<string, Cached>, start: map<string, Cached>, cache: map<string, Cached>, dir: Dir,
                            found: seq<FileParams>, todo: set<string>, failed: set<string>, visited: seq<FileParams>,
                            merged: Merged, val: Bits -> real) {
    && DuringVisits(view, start, dir, todo, failed)
    && VisitedSoFar(found, start, todo, visited)
    && merged == MergeAll(ScrapeContributions(cache, dir, visited, val))
  }

  lemma LoopStarts(start: map<string, Cached>, cache: map<string, Cached>, dir: Dir, found: seq<FileParams>, val: Bits -> real)
    ensures LoopState(start, start, cache, dir, found, start.Keys, {}, [], map[], val)
  {
  }

  /** One turn of the loop, for a file that was refreshed to `start[p]`. */
  lemma LoopTurn(view: map<string, Cached>, start: map<string, Cached>, cache: map<string, Cached>, dir: Dir,
                 found: seq<FileParams>, todo: set<string>, failed: set<string>, visited: seq<FileParams>,
                 merged: Merged, val: Bits -> real, params: FileParams, next: map<string, Cached>, m: Merged, ok: bool)
    requires LoopState(view, start, cache, dir, found, todo, failed, visited, merged, val)
    requires params in found && params.path in todo && params.path in start && params.path in dir.nodes
    requires start[params.path].params == params && params.path in view
    requires next.Keys == view.Keys && forall q <- view :: q != params.path ==> next[q] == view[q]
    requires var visit := Visit(start[params.path], dir.nodes[params.path]);
             && OutcomeOf(cache, dir, params) == visit
             && m == MergeInto(merged, OutcomeContributions(params, visit.0, val))
             && visit.1 == if ok then Some(next[params.path]) else None
    ensures var more := if ok then failed else failed + {params.path};
            && |more| == |failed| + (if ok then 0 else 1)
            && LoopState(next, start, cache, dir, found, todo - {params.path}, more, visited + [params], m, val)
  {
    hide Visit, OutcomeOf, MergeInto, DuringVisits, VisitedSoFar, OutcomeContributions;
    VisitStep(view, start, dir, todo, failed, params.path, next, ok);
    VisitedMore(found, start, todo, visited, params);
    assert (visited + [params])[..|visited|] == visited;
    MergeConcat(map[], ScrapeContributions(cache, dir, visited, val), ContributionOf(cache, dir, params, val));
  }

  /** What is known of a file that the loop is about to visit. */
  lemma LoopEntry(view: map<string, Cached>, start: map<string, Cached>, cache: map<string, Cached>, dir: Dir,
                  found: seq<FileParams>, todo: set<string>, failed: set<string>, visited: seq<FileParams>,
                  merged: Merged, val: Bits -> real, p: string)
    returns (params: FileParams)
    requires LoopState(view, start, cache, dir, found, todo, failed, visited, merged, val)
    requires AfterRefresh(start, cache, dir, found) && p in todo
    ensures params in found && params.path == p && p in start && p in view && p in dir.nodes
    ensures view[p] == start[p] && start[p].params == params
    ensures OutcomeOf(cache, dir, params) == Visit(start[p], dir.nodes[p])
  {
    hide Visit, OutcomeOf, AfterRefresh;
    params := RefreshedEntry(start, cache, dir, found, p);
  }

  lemma LoopEnds(view: map<string, Cached>, start: map<string, Cached>, cache: map<string, Cached>, dir: Dir,
                 found: seq<FileParams>, failed: set<string>, visited: seq<FileParams>,
                 merged: Merged, val: Bits -> real, kept: map<string, Cached>)
    requires LoopState(view, start, cache, dir, found, {}, failed, visited, merged, val)
    requires AfterRefresh(start, cache, dir, found) && DistinctPaths(found)
    requires forall p :: p in kept <==> p in view && p !in failed
    requires forall p <- kept :: kept[p] == view[p]
    ensures AfterScrape(kept, cache, dir, found) && Visits(cache, dir, found, visited)
    ensures |ErroredPaths(cache, dir, found)| == |RefusedPaths(cache, dir, found)| + |failed|
    ensures merged == MergeAll(ScrapeContributions(cache, dir, visited, val))
  {
    hide AfterRefresh, AfterScrape, DuringVisits, VisitedSoFar, Visits;
    AllVisited(start, cache, dir, found, visited);
    ScrapeEnds(view, start, cache, dir, found, failed, kept);
  }

  lemma WasVisited(start: map<string, Cached>, found: seq<FileParams>, visited: seq<FileParams>, params: FileParams)
    requires DistinctPaths(found) && VisitedSoFar(found, start, {}, visited)
    requires params in found && params.path in start
    ensures params in visited
  {
    assert IsFound(visited, params.path);
    var x :| x in visited && x.path == params.path;
    assert x in found;
  }

  lemma AllVisited(start: map<string, Cached>, cache: map<string, Cached>, dir: Dir, found: seq<FileParams>, visited: seq<FileParams>)
    requires AfterRefresh(start, cache, dir, found) && DistinctPaths(found) && VisitedSoFar(found, start, {}, visited)
    ensures Visits(cache, dir, found, visited)
  {
    hide Visit, Admitted;
    forall params | params in found && params !in visited
      ensures OutcomeOf(cache, dir, params) == (ErroredFile, None)
    {
      if params.path in start {
        WasVisited(start, found, visited, params);
      }
      assert Lookup(start, params.path) == AdmittedOf(cache, dir, params);
    }
  }

  /** Dropping the failed files ends the scrape, with each errored file counted once. */
  lemma ScrapeEnds(view: map<string, Cached>, start: map<string, Cached>, cache: map<string, Cached>, dir: Dir,
                   found: seq<FileParams>, failed: set<string>, kept: map<string, Cached>)
    requires AfterRefresh(start, cache, dir, found) && DistinctPaths(found)
    requires DuringVisits(view, start, dir, {}, failed)
    requires forall p :: p in kept <==> p in view && p !in failed
    requires forall p <- kept :: kept[p] == view[p]
    ensures AfterScrape(kept, cache, dir, found)
    ensures |ErroredPaths(cache, dir, found)| == |RefusedPaths(cache, dir, found)| + |failed|
  {
    hide Visit, Admitted, RefusedPaths, AdmittedOf;
    forall params | params in found
      ensures Lookup(kept, params.path) == OutcomeOf(cache, dir, params).1
      ensures params.path in failed <==> params.path in start && OutcomeOf(cache, dir, params).1 == None
      ensures params.path in start <==> AdmittedOf(cache, dir, params) != None
      ensures params.path !in start ==> OutcomeOf(cache, dir, params).1 == None
    {
      EndOfOne(view, start, cache, dir, found, failed, params);
    }
    forall p | p in kept
      ensures IsFound(found, p)
    {
      assert p in start;
    }
    ErroredSplit(cache, dir, found, failed, start);
  }

  lemma EndOfOne(view: map<string, Cached>, start: map<string, Cached>, cache: map<string, Cached>, dir: Dir,
                 found: seq<FileParams>, failed: set<string>, params: FileParams)
    requires AfterRefresh(start, cache, dir, found) && DistinctPaths(found) && params in found
    requires DuringVisits(view, start, dir, {}, failed)
    ensures params.path in start <==> AdmittedOf(cache, dir, params) != None
    ensures params.path in failed <==> params.path in start && OutcomeOf(cache, dir, params).1 == None
    ensures OutcomeOf(cache, dir, params).1 == if params.path in start && params.path !in failed then Some(view[params.path]) else None
  {
    hide Visit, Admitted;
    assert Lookup(start, params.path) == AdmittedOf(cache, dir, params);
    if params.path in start {
      var same := RefreshedEntry(start, cache, dir, found, params.path);
      assert params.path in start.Keys - {};
    }
  }

  lemma ErroredMember(cache: map<string, Cached>, dir: Dir, found: seq<FileParams>, params: FileParams)
    requires DistinctPaths(found) && params in found
    ensures params.path in ErroredPaths(cache, dir, found) <==> OutcomeOf(cache, dir, params).1 == None
  {
    hide ScrapeFile;
    OutcomeCases(Lookup(cache, params.path), params, Lookup(dir.nodes, params.path));
  }

  lemma ErroredSplit(cache: map<string, Cached>, dir: Dir, found: seq<FileParams>, failed: set<string>, start: map<string, Cached>)
    requires forall params <- found :: params.path in start <==> AdmittedOf(cache, dir, params) != None
    requires forall params <- found :: params.path in failed <==> params.path in start && OutcomeOf(cache, dir, params).1 == None
    requires forall params <- found :: params.path !in start ==> OutcomeOf(cache, dir, params).1 == None
    requires failed <= start.Keys && forall p <- start :: IsFound(found, p)
    requires DistinctPaths(found)
    ensures |ErroredPaths(cache, dir, found)| == |RefusedPaths(cache, dir, found)| + |failed|
  {
    hide OutcomeOf, AdmittedOf, RefusedPaths;
    var errored, refused := ErroredPaths(cache, dir, found), RefusedPaths(cache, dir, found);
    RefusedMeaning(cache, dir, found);
    forall params | params in found
      ensures params.path in errored <==> OutcomeOf(cache, dir, params).1 == None
    {
      ErroredMember(cache, dir, found, params);
    }
    forall p: string
      ensures p in errored <==> p in refused + failed
    {
      if p in errored {
        var params :| params in found && OutcomeOf(cache, dir, params).0 == ErroredFile && params.path == p;
        assert params.path in start || AdmittedOf(cache, dir, params) == None;
      }
    }
    assert errored == refused + failed;
    assert refused !! failed;
  }

  // ----- laws -----

  /** Where a scrape starts to parse a readable file: behind what is cached of the same file, unless its
      length changed or `used` went back. */
  function ResumeAt(cached: Option<Cached>, n: Node): nat
    requires |n.bytes| >= HEADER_SIZE
  {
    if cached.Some? && cached.value.identity == n.id && cached.value.mapLen == |n.bytes|
       && HEADER_SIZE <= cached.value.parsedUsed <= UsedWord(n.bytes)
    then cached.value.parsedUsed else HEADER_SIZE
  }

  /** Each discovered file is exactly one of contributing, inactive and errored.  It is errored exactly
      if it cannot be opened, or is readable and its `used` word is too large or the parse meets bytes
      that are not text.  An errored file keeps no cache entry; what other files keep describes them. */
  lemma OutcomeCases(cached: Option<Cached>, params: FileParams, node: Option<Node>)
    ensures var r := ScrapeFile(cached, params, node);
            && (r.0 == ErroredFile <==>
                  node.None? ||
                  (Readable(node.value) &&
                   var b := node.value.bytes;
                   UsedWord(b) > |b| || ScanFrom(b, ResumeAt(cached, node.value), UsedWord(b)).stop == BadText))
            && (r.0 == InactiveFile <==> node.Some? && !Readable(node.value))
            && (r.0 == ErroredFile <==> r.1.None?)
            && (r.1.Some? ==>
                  && r.1.value.identity == node.value.id
                  && r.1.value.mapLen == |node.value.bytes|
                  && r.1.value.params == params
                  && (r.1.value.active <==> r.0.Contributing?))
  {
    hide ScanFrom, UsedWord;
    if node.Some? && Readable(node.value) && UsedWord(node.value.bytes) <= |node.value.bytes| {
      ScanRests(node.value.bytes, HEADER_SIZE, UsedWord(node.value.bytes));
    }
  }
}
