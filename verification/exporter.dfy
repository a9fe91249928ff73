/** The caching exporter of src/exporter.rs: cached files as objects, updated in place by each scrape. */
module Exporter {
  import opened Bytes
  import opened SeqFacts
  import opened RawEntries
  import opened MetricLog
  import opened LogScan
  import opened Merge
  import opened Aggregate
  import opened Scrape

  class CachedFile {
    var params: FileParams
    var identity: nat
    var mapLen: nat
    var parsedUsed: nat
    var entries: seq<Item>
    var active: bool

    ghost function State(): Cached
      reads this
    {
      Cached(params, identity, mapLen, parsedUsed, entries, active)
    }

    /** `map_file` and the initial fields of `open`. */
    constructor Map(params: FileParams, n: Node)
      ensures State() == FreshCached(params, n)
    {
      this.params := params;
      identity := n.id;
      mapLen := |n.bytes|;
      parsedUsed := HEADER_SIZE;
      entries := [];
      active := false;
    }

    method RefreshMapIfNeeded(n: Node)
      modifies this
      ensures State() == Remapped(old(State()), n)
    {
      if |n.bytes| != mapLen || n.id != identity {
        mapLen := |n.bytes|;
        identity := n.id;
        parsedUsed := HEADER_SIZE;
        entries := [];
      }
    }

    /** `current_used`. */
    method CurrentUsed(n: Node) returns (r: Result<nat>)
      requires mapLen == |n.bytes|
      ensures mapLen >= HEADER_SIZE ==>
                r == if UsedWord(n.bytes) > mapLen then Err(InvalidUsed(UsedWord(n.bytes), mapLen)) else Ok(UsedWord(n.bytes))
      ensures mapLen < HEADER_SIZE ==> r == Ok(HEADER_SIZE)
    {
      if mapLen < HEADER_SIZE { return Ok(HEADER_SIZE); }
      var used := U32At(n.bytes, 0);
      used := if used == 0 then HEADER_SIZE else used;
      if used > mapLen { return Err(InvalidUsed(used, mapLen)); }
      r := Ok(used);
    }

    method ReadValue(n: Node, offset: nat) returns (r: Result<Bits>)
      requires mapLen == |n.bytes|
      ensures r.Ok? <==> offset + 8 <= mapLen
      ensures r.Ok? ==> r.value == ValueIn(n.bytes, offset)
    {
      if offset + 8 > mapLen { return Err(OutOfBounds(offset + 8, mapLen)); }
      r := Ok(n.bytes[offset..offset + 8]);
    }

    /** Parses the entries published since the last scrape, starting over where that is not possible. */
    method RefreshEntries(n: Node) returns (r: Result<()>)
      modifies this
      ensures r.Ok? <==> Refreshed(old(State()), n).Ok?
      ensures r.Ok? ==> State() == Refreshed(old(State()), n).value
    {
      hide ScanFrom, FromSlice, TextKey, U32At;
      RefreshMapIfNeeded(n);
      if mapLen < HEADER_SIZE {
        active := false;
        entries := [];
        parsedUsed := HEADER_SIZE;
        return Ok(());
      }
      if U32At(n.bytes, 4) != FILE_FORMAT_VERSION {
        active := false;
        entries := [];
        parsedUsed := HEADER_SIZE;
        return Ok(());
      }
      active := true;
      var current := CurrentUsed(n);
      if current.Err? { return Err(current.error); }
      var used := current.value;
      if used < parsedUsed {
        entries := [];
        parsedUsed := HEADER_SIZE;
      }
      var parsed := ParseFrom(n, used);
      if parsed.Err? { return Err(parsed.error); }
      r := Ok(());
    }

    /** The parse loop of `refresh_entries`. */
    method ParseFrom(n: Node, used: nat) returns (r: Result<()>)
      requires used <= |n.bytes|
      modifies this`entries, this`parsedUsed
      ensures var s := ScanFrom(n.bytes, if old(parsedUsed) < HEADER_SIZE then HEADER_SIZE else old(parsedUsed), used);
              && (r.Ok? <==> s.stop != BadText)
              && (r.Err? ==> r.error == Utf8)
              && (r.Ok? ==> entries == old(entries) + s.items && parsedUsed == s.pos)
    {
      hide ScanFrom, FromSlice, TextKey;
      var b := n.bytes;
      var pos := if parsedUsed < HEADER_SIZE then HEADER_SIZE else parsedUsed;
      ghost var all := ScanFrom(b, pos, used);
      ghost var done: seq<Item> := [];
      ghost var stopped := false;
      assert entries == old(entries) + [];
      while pos + 12 <= used
        invariant all == var rest := ScanFrom(b, pos, used); Scan(done + rest.items, rest.pos, rest.stop)
        invariant entries == old(entries) + done
        decreases used - pos
      {
        ScanTurn(b, pos, used);
        var entry := FromSlice(b[pos..used]);
        if entry.Err? {
          stopped := true;
          break;
        }
        var e := entry.value;
        var metric := TextKey(e);
        if metric.None? { return Err(Utf8); }
        var valueOffset := pos + CalcValueOffset(|e.FamilyBytes()|, |e.SampleBytes()|, |e.LabelsBytes()|).value;
        var item := Item(metric.value, valueOffset);
        Assoc(done, [item], ScanFrom(b, pos + e.TotalLen(), used).items);
        Assoc(old(entries), done, [item]);
        entries := entries + [item];
        done := done + [item];
        pos := pos + e.TotalLen();
      }
      if !stopped {
        ScanDone(b, pos, used);
      }
      assert done + [] == done;
      parsedUsed := pos;
      r := Ok(());
    }

    /** The value loop of `render` for one active file.  Its two error exits would abandon the file
        half-way; after a successful refresh neither can be taken. */
    method MergeValues(n: Node, used: nat, merged: Merged, val: Bits -> real) returns (m: Merged, failed: bool)
      requires mapLen == |n.bytes| && used <= mapLen
      ensures !failed
      ensures m == MergeInto(merged, Contributions(params, Visible(entries, used, n.bytes), val))
    {
      m, failed := merged, false;
      for i := 0 to |entries|
        invariant !failed
        invariant m == MergeInto(merged, Contributions(params, Visible(entries[..i], used, n.bytes), val))
      {
        var entry := entries[i];
        Snoc(entries, i);
        assert entries[..i + 1][..i] == entries[..i];
        if entry.valueOffset + 8 > used { continue; }
        var value := ReadValue(n, entry.valueOffset);
        if value.Err? {
          failed := true;
          break;
        }
        ghost var before := Visible(entries[..i], used, n.bytes);
        ContributionsSnoc(params, before, Sample(entry.key, value.value), val);
        MergeSnoc(merged, Contributions(params, before, val), Contribute(params, Sample(entry.key, value.value), val));
        m := MergeOne(m, Contribute(params, Sample(entry.key, value.value), val));
      }
      assert entries[..|entries|] == entries;
    }
  }

  /** `CachedFile::open`. */
  method OpenCached(params: FileParams, n: Node) returns (c: CachedFile, r: Result<()>)
    ensures fresh(c)
    ensures r.Ok? <==> Refreshed(FreshCached(params, n), n).Ok?
    ensures r.Ok? ==> c.State() == Refreshed(FreshCached(params, n), n).value
  {
    hide Refreshed;
    c := new CachedFile.Map(params, n);
    r := c.RefreshEntries(n);
  }

  class CachedDirExporter {
    var files: map<string, CachedFile>

    ghost predicate Valid()
      reads this
    {
      forall p, q | p in files && q in files && p != q :: files[p] != files[q]
    }

    ghost function View(): map<string, Cached>
      reads this, files.Values
    {
      map p | p in files :: files[p].State()
    }

    constructor ()
      ensures Valid() && files == map[]
    {
      files := map[];
    }

    /** `refresh` for one discovered file, as it changes the cache. */
    method Admit(params: FileParams, dir: Dir) returns (r: Result<()>)
      requires Valid()
      modifies this`files, if params.path in files then {files[params.path]} else {}
      ensures Valid()
      ensures forall p <- files :: fresh(files[p]) || (p in old(files) && files[p] == old(files[p]))
      ensures var c := AdmittedOf(old(View()), dir, params);
              View() == WithEntry(old(View()), params.path, c) && (r.Ok? <==> c.Some?)
    {
      hide Admitted;
      ghost var before, cached := View(), Scrape.Lookup(View(), params.path);
      r := UpdateEntry(params, dir);
      ghost var c := AdmittedOf(before, dir, params);
      EntryReplaced(View(), before, params.path, c);
    }

    /** Update, reopen or open the cache entry of a discovered file, or drop it. */
    method UpdateEntry(params: FileParams, dir: Dir) returns (r: Result<()>)
      requires Valid()
      modifies this`files, if params.path in files then {files[params.path]} else {}
      ensures Valid()
      ensures forall p | p != params.path :: (p in files <==> p in old(files)) && (p in files ==> files[p] == old(files[p]))
      ensures params.path in files ==>
                fresh(files[params.path]) || (params.path in old(files) && files[params.path] == old(files[params.path]))
      ensures var cached := if params.path in old(files) then Some(old(files[params.path].State())) else None;
              var admitted := Admitted(cached, params, Scrape.Lookup(dir.nodes, params.path));
              && (r.Ok? <==> admitted.Ok?)
              && (params.path in files <==> admitted.Ok?)
              && (params.path in files ==> files[params.path].State() == admitted.value)
    {
      hide Refreshed, Remapped;
      var path := params.path;
      if path in files {
        var cached := files[path];
        cached.params := params;
        if path !in dir.nodes {
          files := files - {path};
          return Err(Io);
        }
        var node := dir.nodes[path];
        if cached.identity != node.id {
          var reopened, res := OpenCached(params, node);
          if res.Err? {
            files := files - {path};
            return res;
          }
          files := files[path := reopened];
        } else {
          cached.RefreshMapIfNeeded(node);
        }
      } else {
        if path !in dir.nodes { return Err(Io); }
        var reopened, res := OpenCached(params, dir.nodes[path]);
        if res.Err? { return res; }
        files := files[path := reopened];
      }
      r := Ok(());
    }

    /** `refresh`: discover, admit every discovered file, forget the files that are gone. */
    method Refresh(dir: Dir, listing: seq<DirEntry>, found: seq<FileParams>) returns (errors: nat)
      requires Valid()
      requires found == Discovered(listing) && DistinctPaths(found)
      modifies this, files.Values
      ensures Valid()
      ensures forall p <- files :: files[p] in old(files.Values) || fresh(files[p])
      ensures AfterRefresh(View(), old(View()), dir, found)
      ensures errors == DiscoveryErrors(listing) + |RefusedPaths(old(View()), dir, found)|
    {
      hide RefusedPaths, IsFound, AdmittedOf, Discovered, DiscoveryErrors, DuringRefresh, WithEntry;
      ghost var cache, was := View(), files;
      errors := DiscoveryErrors(listing);
      NothingRefreshed(cache, dir);
      for i := 0 to |found|
        invariant Valid()
        invariant forall p <- files :: fresh(files[p]) || files[p] in was.Values
        invariant DuringRefresh(View(), cache, dir, found[..i])
        invariant errors == DiscoveryErrors(listing) + |RefusedPaths(cache, dir, found[..i])|
      {
        var params := found[i];
        Snoc(found, i);
        NotYetFound(found, i);
        RefreshStep(View(), cache, dir, found[..i], params);
        SameAdmission(View(), cache, dir, params);
        RefusedStep(cache, dir, found[..i], params);
        var r := Admit(params, dir);
        if r.Err? {
          errors := errors + 1;
        }
      }
      assert found[..|found|] == found;
      ghost var view := View();
      files := map p | p in files && IsFound(found, p) :: files[p];
      Retained(view, cache, dir, found, View());
    }

    /** One turn of the file loop of `render`. */
    method VisitFile(cached: CachedFile, n: Node, merged: Merged, val: Bits -> real) returns (m: Merged, ok: bool)
      modifies cached
      ensures var visit := Visit(old(cached.State()), n);
              && m == MergeInto(merged, OutcomeContributions(old(cached.params), visit.0, val))
              && visit.1 == if ok then Some(cached.State()) else None
    {
      hide Visible, MergeOne, ScanFrom, Contributions;
      m, ok := merged, true;
      var r := cached.RefreshEntries(n);
      if r.Err? { return m, false; }
      if !cached.active { return; }
      var used := cached.CurrentUsed(n);
      if used.Err? { return m, false; }
      var failed;
      m, failed := cached.MergeValues(n, used.value, merged, val);
      ok := !failed;
    }

    /** The file loop of `render`: the map of cached files is visited in whatever order it likes. */
    method VisitAll(dir: Dir, found: seq<FileParams>, ghost cache: map<string, Cached>, refused: nat, val: Bits -> real)
      returns (merged: Merged, failed: set<string>, errors: nat, ghost visited: seq<FileParams>)
      requires Valid() && AfterRefresh(View(), cache, dir, found)
      modifies files.Values
      ensures LoopState(View(), old(View()), cache, dir, found, {}, failed, visited, merged, val)
      ensures errors == refused + |failed|
    {
      hide AfterRefresh, LoopState, Visit, OutcomeOf, MergeInto, ScrapeContributions;
      ghost var start := View();
      merged, failed, errors, visited := map[], {}, refused, [];
      var todo := files.Keys;
      assert todo == start.Keys;
      LoopStarts(start, cache, dir, found, val);
      while todo != {}
        invariant LoopState(View(), start, cache, dir, found, todo, failed, visited, merged, val)
        invariant errors == refused + |failed|
        decreases |todo|
      {
        var p :| p in todo;
        ghost var view, before := View(), merged;
        ghost var params := LoopEntry(view, start, cache, dir, found, todo, failed, visited, merged, val, p);
        var ok;
        merged, ok := VisitFile(files[p], dir.nodes[p], merged, val);
        LoopTurn(view, start, cache, dir, found, todo, failed, visited, before, val, params, View(), merged, ok);
        if !ok {
          errors, failed := errors + 1, failed + {p};
        }
        todo, visited := todo - {p}, visited + [params];
      }
    }

    /** `render` up to the text. */
    method Render(dir: Dir, val: Bits -> real) returns (r: Result<(Merged, nat)>, ghost visited: seq<FileParams>)
      requires Valid() && (dir.listing.Some? ==> DistinctNames(dir.listing.value))
      modifies this, files.Values
      ensures Valid()
      ensures r.Ok? <==> dir.listing.Some?
      ensures r.Err? ==> View() == old(View())
      ensures r.Ok? ==>
                var cache, found := old(View()), Discovered(dir.listing.value);
                && Visits(cache, dir, found, visited)
                && AfterScrape(View(), cache, dir, found)
                && r.value.0 == MergeAll(ScrapeContributions(cache, dir, visited, val))
                && r.value.1 == DiscoveryErrors(dir.listing.value) + |ErroredPaths(cache, dir, found)|
      ensures r.Ok? ==>
                && (forall params <- visited :: exists e <- dir.listing.value :: IsMetricFile(e, params))
                && (forall e <- dir.listing.value, params | IsMetricFile(e, params) ::
                      params in visited || OutcomeOf(old(View()), dir, params) == (ErroredFile, None))
                && r.value.1 == |Failures(dir.listing.value)| + |ErroredPaths(old(View()), dir, Discovered(dir.listing.value))|
    {
      hide Discovered, DiscoveryErrors, RefusedPaths, ErroredPaths, AfterRefresh, AfterScrape, LoopState, Visit,
        OutcomeOf, MergeInto, ScrapeContributions, Visits, IsMetricFile, Failures;
      visited := [];
      if dir.listing.None? { return Err(Io), visited; }
      ghost var cache := View();
      var found := Discovered(dir.listing.value);
      DiscoveredDistinct(dir.listing.value);
      var refused := Refresh(dir, dir.listing.value, found);
      ghost var start := View();
      var merged, failed, errors, order := VisitAll(dir, found, cache, refused, val);
      visited := order;
      ghost var view := View();
      files := map p | p in files && p !in failed :: files[p];
      LoopEnds(view, start, cache, dir, found, failed, visited, merged, val, View());
      AllMetricFiles(cache, dir, dir.listing.value, visited);
      r := Ok((merged, errors));
    }
  }

  lemma EntryReplaced(view: map<string, Cached>, before: map<string, Cached>, path: string, c: Option<Cached>)
    requires Scrape.Lookup(view, path) == c
    requires forall p | p != path :: Scrape.Lookup(view, p) == Scrape.Lookup(before, p)
    ensures view == WithEntry(before, path, c)
  {
    var after := WithEntry(before, path, c);
    forall p: string
      ensures p in view <==> p in after
      ensures p in view ==> view[p] == after[p]
    {
      assert Scrape.Lookup(view, p) == Scrape.Lookup(after, p);
    }
  }

  lemma NothingRefreshed(cache: map<string, Cached>, dir: Dir)
    ensures DuringRefresh(cache, cache, dir, []) && RefusedPaths(cache, dir, []) == {}
  {
  }

  lemma NotYetFound(found: seq<FileParams>, i: nat)
    requires DistinctPaths(found) && i < |found|
    ensures !IsFound(found[..i], found[i].path)
  {
  }

  lemma SameAdmission(view: map<string, Cached>, cache: map<string, Cached>, dir: Dir, params: FileParams)
    requires Scrape.Lookup(view, params.path) == Scrape.Lookup(cache, params.path)
    ensures AdmittedOf(view, dir, params) == AdmittedOf(cache, dir, params)
  {
  }

  /** Keeping only what was discovered completes the refresh. */
  lemma Retained(view: map<string, Cached>, cache: map<string, Cached>, dir: Dir, found: seq<FileParams>, kept: map<string, Cached>)
    requires DuringRefresh(view, cache, dir, found)
    requires forall p :: p in kept <==> p in view && IsFound(found, p)
    requires forall p <- kept :: kept[p] == view[p]
    ensures AfterRefresh(kept, cache, dir, found)
  {
    hide AdmittedOf;
    forall params | params in found
      ensures Scrape.Lookup(kept, params.path) == AdmittedOf(cache, dir, params)
    {
      assert IsFound(found, params.path);
      assert Scrape.Lookup(view, params.path) == AdmittedOf(cache, dir, params);
    }
  }
}
