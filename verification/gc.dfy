/** The collector of src/gc.rs: a bounded round-robin pass over the metric files of a directory that
    removes the files of dead processes and remembers in a cursor file where it stopped. */
module Collector {
  import opened Bytes
  import opened SeqFacts
  import opened Ordering
  import opened Utf8Text
  import opened FileName
  import opened ProcessName
  import opened Scrape

  /** A file name, as text or as bytes that are not UTF-8. */
  datatype Name = Text(s: string) | Raw(bytes: seq<byte>)

  predicate IsDbName(n: Name) {
    match n
    case Text(s) => IsDb(s)
    case Raw(b) => |b| > 3 && b[|b| - 3..] == [0x2E, 0x64, 0x62]
  }

  /** Answers of the operating system: which processes live, which files are readable and old enough,
      which files can be removed. */
  datatype Env = Env(alive: nat -> bool, aged: Name -> bool, removable: Name -> bool)

  /** The file of a process that is gone for long enough. */
  predicate Collectable(n: Name, env: Env) {
    n.Text? && ExtractNumericPid(n.s).Some? && !env.alive(ExtractNumericPid(n.s).value) && env.aged(n)
  }

  predicate Goes(n: Name, env: Env) {
    Collectable(n, env) && env.removable(n)
  }

  /** The file is named after a process that does not live, and it is old enough and can be removed. */
  ghost predicate OfDeadProcess(n: Name, env: Env) {
    && env.aged(n) && env.removable(n)
    && exists p: nat :: 0 < p < 0x8000_0000 && n.Text? && NamesProcess(n.s, p) && !env.alive(p)
  }

  /** The files that are due are exactly those of dead processes. */
  lemma GoesMeaning(n: Name, env: Env)
    ensures Goes(n, env) <==>
              && n.Text? && ExtractNumericPid(n.s).Some? && !env.alive(ExtractNumericPid(n.s).value)
              && env.aged(n) && env.removable(n)
    ensures Goes(n, env) <==> OfDeadProcess(n, env)
    ensures Goes(n, env) ==> IsDbName(n)
  {
    hide NamesProcess, Stripped, Number;
    if n.Text? {
      forall p: nat
        ensures ExtractNumericPid(n.s) == Some(p) <==> 0 < p < 0x8000_0000 && NamesProcess(n.s, p)
      {
        ProcessMeaning(n.s, p);
      }
    }
  }

  /** Names of metric files end in ".db" with something in front, as text and as bytes. */
  lemma DbNames(n: Name)
    ensures IsDbName(n) <==>
              match n
              case Text(s) => exists stem: string :: stem != "" && s == stem + ".db"
              case Raw(b) => exists stem: seq<byte> :: stem != [] && b == stem + Encode(".db")
  {
    match n
    case Text(s) => DbNameMeaning(s);
    case Raw(b) =>
      assert Encode(".db") == [0x2E] + Encode("db") && Encode("db") == [0x64] + Encode("b") && Encode("b") == [0x62] + Encode("");
      assert Encode(".db") == [0x2E, 0x64, 0x62];
      if IsDbName(n) {
        assert b == b[..|b| - 3] + Encode(".db");
      }
  }

  // ----- the cursor -----

  /** White space in the sense of `str::trim`. */
  predicate IsSpace(c: char) {
    || '\t' <= c <= '\r' || c == ' ' || c == '\U{85}' || c == '\U{A0}' || c == '\U{1680}'
    || '\U{2000}' <= c <= '\U{200A}' || c == '\U{2028}' || c == '\U{2029}' || c == '\U{202F}'
    || c == '\U{205F}' || c == '\U{3000}'
  }

  /** One by one: the characters with the Unicode property White_Space. */
  lemma SpacesAre(c: char)
    ensures IsSpace(c) <==>
              c in ['\U{9}', '\U{A}', '\U{B}', '\U{C}', '\U{D}', '\U{20}', '\U{85}', '\U{A0}', '\U{1680}',
                    '\U{2000}', '\U{2001}', '\U{2002}', '\U{2003}', '\U{2004}', '\U{2005}', '\U{2006}', '\U{2007}',
                    '\U{2008}', '\U{2009}', '\U{200A}', '\U{2028}', '\U{2029}', '\U{202F}', '\U{205F}', '\U{3000}']
  {
    var n := c as int;
    if '\t' <= c <= '\r' {
      assert n == 9 || n == 10 || n == 11 || n == 12 || n == 13;
    } else if '\U{2000}' <= c <= '\U{200A}' {
      assert 0x2000 <= n <= 0x200A;
    }
  }

  function TrimStart(s: string): string {
    if s != "" && IsSpace(s[0]) then TrimStart(s[1..]) else s
  }

  function TrimEnd(s: string): string {
    if s != "" && IsSpace(s[|s| - 1]) then TrimEnd(s[..|s| - 1]) else s
  }

  function Trim(s: string): string {
    TrimEnd(TrimStart(s))
  }

  predicate NoEdgeSpace(s: string) {
    s != "" ==> !IsSpace(s[0]) && !IsSpace(s[|s| - 1])
  }

  lemma {:induction false} TrimStartLength(s: string)
    ensures |TrimStart(s)| <= |s|
    ensures TrimStart(s) != "" ==> !IsSpace(TrimStart(s)[0])
    ensures |TrimStart(s)| == |s| ==> TrimStart(s) == s
  {
    if s != "" && IsSpace(s[0]) {
      TrimStartLength(s[1..]);
    }
  }

  lemma {:induction false} TrimEndShape(s: string)
    ensures TrimEnd(s) <= s
    ensures TrimEnd(s) != "" ==> !IsSpace(TrimEnd(s)[|TrimEnd(s)| - 1])
  {
    if s != "" && IsSpace(s[|s| - 1]) {
      TrimEndShape(s[..|s| - 1]);
    }
  }

  /** A name written to the cursor file is read back exactly if it has no white space at its ends. */
  lemma CursorReads(s: string)
    ensures Trim(s + "\n") == s <==> NoEdgeSpace(s)
  {
    var line := s + "\n";
    TrimStartLength(line);
    TrimEndShape(TrimStart(line));
    if NoEdgeSpace(s) {
      if s == "" {
        assert line == "\n" && line[1..] == "";
      } else {
        assert line[0] == s[0] && line[..|line| - 1] == s;
      }
    }
  }

  function Position(files: seq<Name>, n: Name): (i: nat)
    ensures i <= |files| && (i < |files| ==> files[i] == n) && (i == |files| ==> n !in files)
  {
    if files == [] then 0 else if files[0] == n then 0 else Position(files[1..], n) + 1
  }

  /** Where a pass begins: behind the file named by the cursor, or at the front. */
  function StartAt(files: seq<Name>, cursor: Option<string>): (i: nat)
    ensures files != [] ==> i < |files|
  {
    var name := if cursor.Some? then Trim(cursor.value) else "";
    if name == "" || files == [] then 0 else
    var i := Position(files, Text(name));
    if i < |files| then (i + 1) % |files| else 0
  }

  // ----- one pass -----

  /** The file a pass visits at its turn `i`. */
  function At(files: seq<Name>, start: nat, i: nat): Name
    requires files != []
  {
    files[(start + i) % |files|]
  }

  function RemovedIn(files: seq<Name>, start: nat, turns: nat, env: Env): set<Name>
    requires files != []
  {
    set i | 0 <= i < turns && Goes(At(files, start, i), env) :: At(files, start, i)
  }

  /** The last visited name that is text. */
  function LastSeen(files: seq<Name>, start: nat, turns: nat): Option<string>
    requires files != []
  {
    if turns == 0 then None
    else if At(files, start, turns - 1).Text? then Some(At(files, start, turns - 1).s)
    else LastSeen(files, start, turns - 1)
  }

  /** The sorted listing of a set of names. */
  ghost predicate IsListing(files: seq<Name>, names: set<Name>, le: (Name, Name) -> bool) {
    && SortedBy(le, files) && NoDuplicates(files) && forall n :: n in files <==> n in names
  }

  /** The order of paths; nothing depends on which total order it is. */
  ghost predicate PathOrder(le: (Name, Name) -> bool) {
    TotalOn(le) && forall a, b :: le(a, b) && le(b, a) ==> a == b
  }

  /** What one pass of `turns` turns does to the metric files and to the cursor. */
  ghost predicate Pass(files: seq<Name>, names: set<Name>, cursor: Option<string>, turns: nat, env: Env,
                       after: set<Name>, cursorAfter: Option<string>, writable: bool)
    requires files != []
  {
    var start := StartAt(files, cursor);
    && turns <= |files|
    && after == names - RemovedIn(files, start, turns, env)
    && cursorAfter == match LastSeen(files, start, turns)
                      case Some(s) => if writable then Some(s + "\n") else cursor
                      case None => cursor
  }

  lemma Wrap(a: nat, b: nat, n: nat)
    requires a < n && b <= n
    ensures (a + b) % n == if a + b < n then a + b else a + b - n
  {
  }

  lemma SameTurn(n: nat, start: nat, i: nat, j: nat)
    requires start < n && i < n && j < n && (start + i) % n == (start + j) % n
    ensures i == j
  {
    Wrap(start, i, n);
    Wrap(start, j, n);
  }

  lemma RemovedMore(files: seq<Name>, start: nat, turns: nat, env: Env)
    requires files != [] && start < |files| && turns < |files| && NoDuplicates(files)
    ensures var n, was := At(files, start, turns), RemovedIn(files, start, turns, env);
            && n !in was
            && RemovedIn(files, start, turns + 1, env) == if Goes(n, env) then was + {n} else was
  {
    hide Goes;
    var n, was := At(files, start, turns), RemovedIn(files, start, turns, env);
    if n in was {
      var i :| 0 <= i < turns && At(files, start, i) == n;
      assert (start + i) % |files| == (start + turns) % |files|;
      SameTurn(|files|, start, i, turns);
    }
    var next := RemovedIn(files, start, turns + 1, env);
    forall x: Name
      ensures x in next <==> x in was || (x == n && Goes(n, env))
    {
      if x in was {
        var i :| 0 <= i < turns && Goes(At(files, start, i), env) && At(files, start, i) == x;
      }
    }
  }

  datatype Lock = Held | Busy | Failed

  /** The metric files among the entries of a directory. */
  function MetricFiles(entries: map<Name, Kind>): set<Name> {
    set n | n in entries && IsDbName(n) && entries[n] == Regular
  }

  class MetricDir {
    var entries: map<Name, Kind>
    var cursor: Option<string>

    /** The listing: it fails if the type of some file cannot be told. */
    method List(le: (Name, Name) -> bool) returns (r: Result<seq<Name>>)
      requires PathOrder(le)
      ensures r.Ok? <==> forall n <- entries :: IsDbName(n) ==> entries[n] != KindUnknown
      ensures r.Ok? ==> IsListing(r.value, MetricFiles(entries), le)
    {
      hide IsDbName, TotalOn;
      var files: seq<Name> := [];
      var todo := entries.Keys;
      while todo != {}
        invariant todo <= entries.Keys
        invariant forall n <- entries.Keys - todo :: IsDbName(n) ==> entries[n] != KindUnknown
        invariant NoDuplicates(files) && forall n :: n in files <==> n in MetricFiles(entries) && n !in todo
        decreases |todo|
      {
        var n :| n in todo;
        todo := todo - {n};
        if IsDbName(n) {
          if entries[n] == KindUnknown { return Err(Io); }
          if entries[n] == Regular {
            files := files + [n];
          }
        }
      }
      SortSorted(le, files);
      SortMultiset(le, files);
      SameMultisetSameMembers(files, Sort(le, files));
      SameMultisetNoDuplicates(files, Sort(le, files));
      r := Ok(Sort(le, files));
    }

    /** Removes a visited file if it is due. */
    method TryRemove(path: Name, env: Env) returns (removed: bool)
      modifies this`entries
      ensures removed <==> Goes(path, env)
      ensures entries == if removed then old(entries) - {path} else old(entries)
    {
      hide ExtractNumericPid;
      if path.Raw? { return false; }
      var pid := ExtractNumericPid(path.s);
      if pid.None? { return false; }
      if env.alive(pid.value) { return false; }
      if !env.aged(path) { return false; }
      if !env.removable(path) { return false; }
      entries := entries - {path};
      removed := true;
    }

    /** The scan loop: at most `scanLimit` files from `start` on, until time runs out or the
        `deleteLimit`-th file has been removed. */
    method Scan(files: seq<Name>, start: nat, scanLimit: nat, deleteLimit: nat, deadline: nat, env: Env)
      returns (deleted: nat, lastSeen: Option<string>, ghost turns: nat)
      requires files != [] && start < |files| && NoDuplicates(files)
      modifies this`entries
      ensures turns <= scanLimit && turns <= |files| && turns <= deadline
      ensures entries == old(entries) - RemovedIn(files, start, turns, env)
      ensures deleted == |RemovedIn(files, start, turns, env)|
      ensures lastSeen == LastSeen(files, start, turns)
      ensures turns == scanLimit || turns == |files| || turns == deadline || (deleted >= deleteLimit && deleted > 0)
    {
      hide Goes, NoDuplicates, RemovedIn;
      var processed := 0;
      deleted, lastSeen := 0, None;
      assert RemovedIn(files, start, 0, env) == {} by { NothingRemoved(files, start, env); }
      while processed < scanLimit && processed < |files|
        invariant processed <= scanLimit && processed <= |files| && processed <= deadline
        invariant entries == old(entries) - RemovedIn(files, start, processed, env)
        invariant deleted == |RemovedIn(files, start, processed, env)|
        invariant lastSeen == LastSeen(files, start, processed)
      {
        if processed >= deadline { break; }
        var path := files[(start + processed) % |files|];
        RemovedMore(files, start, processed, env);
        if path.Text? {
          lastSeen := Some(path.s);
        }
        processed := processed + 1;
        var removed := TryRemove(path, env);
        if removed {
          deleted := deleted + 1;
          if deleted >= deleteLimit { break; }
        }
      }
      turns := processed;
    }

    /** `gc_metric_files`.  `deadline` is the number of turns for which time suffices. */
    method Collect(lock: Lock, scanLimit: nat, deleteLimit: nat, deadline: nat, env: Env, le: (Name, Name) -> bool, writable: bool)
      returns (r: Result<nat>, ghost files: seq<Name>, ghost turns: nat)
      requires PathOrder(le)
      modifies this
      ensures r.Ok? <==> lock == Busy || (lock == Held && forall n <- old(entries) :: IsDbName(n) ==> old(entries)[n] != KindUnknown)
      ensures r.Err? || lock != Held ==> entries == old(entries) && cursor == old(cursor) && (r.Ok? ==> r.value == 0)
      ensures forall n <- old(entries) :: n !in entries ==> old(entries)[n] == Regular && OfDeadProcess(n, env)
      ensures r.Ok? && lock == Held && turns == |files| ==>
                forall n <- entries :: entries[n] == Regular ==> !OfDeadProcess(n, env)
      ensures forall n <- entries :: n in old(entries) && entries[n] == old(entries)[n]
      ensures r.Ok? ==> r.value == |MetricFiles(old(entries))| - |MetricFiles(entries)|
      ensures r.Ok? && lock == Held ==>
                && IsListing(files, MetricFiles(old(entries)), le)
                && (files == [] ==> entries == old(entries) && cursor == old(cursor))
                && (files != [] ==>
                      && Pass(files, MetricFiles(old(entries)), old(cursor), turns, env, MetricFiles(entries), cursor, writable)
                      && turns <= scanLimit && turns <= deadline
                      && (turns == scanLimit || turns == |files| || turns == deadline
                          || (r.value >= deleteLimit && r.value > 0)))
    {
      hide IsDbName, Goes, SortedBy, TotalOn, StartAt, MetricFiles, RemovedIn, OfDeadProcess;
      files, turns := [], 0;
      if lock == Failed { return Err(Io), files, turns; }
      if lock == Busy { return Ok(0), files, turns; }
      var listed := List(le);
      if listed.Err? { return Err(listed.error), files, turns; }
      var found := listed.value;
      files := found;
      DeadFilesListed(entries, env);
      if found == [] { return Ok(0), files, turns; }
      var start := StartAt(found, cursor);
      var deleted, lastSeen;
      deleted, lastSeen, turns := Scan(found, start, scanLimit, deleteLimit, deadline, env);
      OnlyMetricFilesGo(old(entries), found, start, turns, env);
      DeadFilesGo(old(entries), found, start, turns, env);
      if lastSeen.Some? && writable {
        cursor := Some(lastSeen.value + "\n");
      }
      r := Ok(deleted);
    }
  }

  lemma NothingRemoved(files: seq<Name>, start: nat, env: Env)
    requires files != []
    ensures RemovedIn(files, start, 0, env) == {}
  {
  }

  /** A pass removes metric files only, and only those that are due. */
  lemma OnlyMetricFilesGo(entries: map<Name, Kind>, files: seq<Name>, start: nat, turns: nat, env: Env)
    requires files != [] && forall n <- files :: n in MetricFiles(entries)
    ensures var gone := RemovedIn(files, start, turns, env);
            && (forall n <- gone :: Goes(n, env))
            && MetricFiles(entries - gone) == MetricFiles(entries) - gone
            && |MetricFiles(entries - gone)| == |MetricFiles(entries)| - |gone|
  {
    hide Goes, IsDbName;
    var gone := RemovedIn(files, start, turns, env);
    assert gone <= MetricFiles(entries);
    assert MetricFiles(entries - gone) == MetricFiles(entries) - gone;
  }

  /** What a pass removes is of dead processes, and once it has looked at every file nothing more is. */
  lemma DeadFilesGo(entries: map<Name, Kind>, files: seq<Name>, start: nat, turns: nat, env: Env)
    requires files != [] && start < |files| && turns <= |files| && forall n <- files :: n in MetricFiles(entries)
    ensures var gone := RemovedIn(files, start, turns, env);
            && (forall n <- gone :: n in entries && entries[n] == Regular && OfDeadProcess(n, env))
            && (turns == |files| ==> forall n <- files :: n !in gone ==> !OfDeadProcess(n, env))
  {
    hide Goes, IsDbName, OfDeadProcess;
    var gone := RemovedIn(files, start, turns, env);
    forall n
      ensures n in gone ==> n in files && OfDeadProcess(n, env)
      ensures turns == |files| && n in files && n !in gone ==> !OfDeadProcess(n, env)
    {
      GoesMeaning(n, env);
      if n in files && turns == |files| {
        var p :| 0 <= p < |files| && files[p] == n;
        var i := if start <= p then p - start else p + |files| - start;
        Wrap(start, i, |files|);
        assert At(files, start, i) == n;
      }
    }
  }

  /** Regular files of dead processes are metric files. */
  lemma DeadFilesListed(entries: map<Name, Kind>, env: Env)
    ensures forall n <- entries :: entries[n] == Regular && OfDeadProcess(n, env) ==> n in MetricFiles(entries)
  {
    hide Goes, IsDbName, OfDeadProcess;
    forall n | n in entries && entries[n] == Regular && OfDeadProcess(n, env)
      ensures n in MetricFiles(entries)
    {
      GoesMeaning(n, env);
    }
  }
}
