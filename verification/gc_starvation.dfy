/** When repeated passes of the collector do not reach every file: the exact condition. */
module CollectorStarvation {
  import opened Bytes
  import opened SeqFacts
  import opened Ordering
  import opened FileName
  import opened Collector
  import opened CollectorProgress

  // ----- names -----

  /** No name, as the cursor file gives it back, is another listed one. */
  predicate NoConfusion(names: set<Name>) {
    forall a <- names, b <- names :: a.Text? && b.Text? && Trim(a.s + "\n") == b.s ==> a == b
  }

  lemma FirstChar(s: string, sep: char)
    requires Split(s, sep)[0] != ""
    ensures s != "" && s[0] == Split(s, sep)[0][0]
  {
  }

  /** The name of a file that is due has no white space at its ends. */
  lemma DueIsPlain(n: Name, env: Env)
    requires Goes(n, env)
    ensures Plain(n)
  {
    hide Stripped, Number;
    var s := n.s;
    var stem := s[..|s| - 3];
    FirstChar(stem, '_');
    assert s[|s| - 1] == s[|s| - 3..][2] == 'b';
    assert s[0] == stem[0];
  }

  /** A name the cursor cannot hold sends the next pass to the front. */
  lemma Misread(files: seq<Name>, names: set<Name>, le: (Name, Name) -> bool, s: string)
    requires IsListing(files, names, le) && !Plain(Text(s))
    requires Text(Trim(s + "\n")) in names ==> Trim(s + "\n") == s
    ensures StartAt(files, Some(s + "\n")) == 0
  {
    hide Trim, NoEdgeSpace, SortedBy, NoDuplicates, Position;
    CursorReads(s);
    var i := Position(files, Text(Trim(s + "\n")));
  }

  // ----- a run that never reaches a file -----

  /** `due` waits behind `bad`, a name the cursor cannot hold, and no pass has gone past `bad`. */
  ghost predicate Waiting(s: Snapshot, bad: Name, due: Name, env: Env, le: (Name, Name) -> bool) {
    && IsListing(s.files, s.names, le) && NoConfusion(s.names)
    && bad in s.names && due in s.names && bad != due && le(bad, due)
    && !Plain(bad) && Goes(due, env)
    && (forall a <- s.names :: a != bad && le(a, bad) ==> Plain(a))
    && forall i | 0 <= i < |s.files| && s.files[i] == bad :: StartAt(s.files, s.cursor) <= i
  }

  /** A pass that ends with `bad`. */
  function TurnsTo(s: Snapshot, i: nat): nat
    requires StartAt(s.files, s.cursor) <= i
  {
    i + 1 - StartAt(s.files, s.cursor)
  }

  /** What such a pass leaves. */
  lemma WaitingPass(s: Snapshot, bad: Name, due: Name, env: Env, le: (Name, Name) -> bool) returns (t: Snapshot, turns: nat)
    requires PathOrder(le) && Waiting(s, bad, due, env, le)
    ensures Next(s, t, turns, 1, env, le) && Waiting(t, bad, due, env, le)
  {
    hide Goes, PathOrder, IsListing, StartAt, Plain, RemovedIn, LastSeen, NoConfusion;
    var i := PlaceOf(s.files, s.names, le, bad);
    var j := PlaceOf(s.files, s.names, le, due);
    var start := StartAt(s.files, s.cursor);
    turns := TurnsTo(s, i);
    OrderOfTwo(s.files, s.names, le, i, j);
    var gone := RemovedIn(s.files, start, turns, env);
    BothStay(s.files, s.names, le, start, i, j, env);
    var left := ListingExists(s.names - gone, le);
    var cursor := match LastSeen(s.files, start, turns) case Some(x) => Some(x + "\n") case None => s.cursor;
    t := Snapshot(s.names - gone, left, cursor);
    FewerNames(s.names, t.names);
    forall q | 0 <= q < |t.files| && t.files[q] == bad
      ensures StartAt(t.files, t.cursor) <= q
    {
      StillInFront(s, t, bad, due, env, le, i, q);
    }
  }

  lemma FewerNames(names: set<Name>, fewer: set<Name>)
    requires NoConfusion(names) && fewer <= names
    ensures NoConfusion(fewer)
  {
    hide Trim;
  }

  lemma OrderOfTwo(files: seq<Name>, names: set<Name>, le: (Name, Name) -> bool, i: nat, j: nat)
    requires PathOrder(le) && IsListing(files, names, le) && i < |files| && j < |files|
    requires files[i] != files[j] && le(files[i], files[j])
    ensures i < j
  {
    Follows(files, names, le, i, j);
  }

  /** A pass from `start` to `i` removes neither the name at `i`, which is not due, nor one behind it. */
  lemma BothStay(files: seq<Name>, names: set<Name>, le: (Name, Name) -> bool, start: nat, i: nat, j: nat, env: Env)
    requires IsListing(files, names, le) && start <= i < j < |files| && !Plain(files[i])
    ensures var gone := RemovedIn(files, start, i + 1 - start, env); files[i] !in gone && files[j] !in gone
  {
    hide Goes, SortedBy, Plain;
    var gone := RemovedIn(files, start, i + 1 - start, env);
    if files[i] in gone {
      DueIsPlain(files[i], env);
    }
    if files[j] in gone {
      var r :| 0 <= r < i + 1 - start && At(files, start, r) == files[j];
      Wrap(start, r, |files|);
    }
  }

  lemma StillInFront(s: Snapshot, t: Snapshot, bad: Name, due: Name, env: Env, le: (Name, Name) -> bool, i: nat, q: nat)
    requires PathOrder(le) && Waiting(s, bad, due, env, le) && i < |s.files| && s.files[i] == bad
    requires var start, turns := StartAt(s.files, s.cursor), TurnsTo(s, i);
             && turns <= |s.files|
             && t.names == s.names - RemovedIn(s.files, start, turns, env) && IsListing(t.files, t.names, le)
             && t.cursor == match LastSeen(s.files, start, turns) case Some(x) => Some(x + "\n") case None => s.cursor
    requires q < |t.files| && t.files[q] == bad
    ensures StartAt(t.files, t.cursor) <= q
  {
    hide Goes, PathOrder, IsListing, StartAt, Plain, RemovedIn, NoConfusion;
    var start := StartAt(s.files, s.cursor);
    Wrap(start, i - start, |s.files|);
    assert At(s.files, start, i - start) == bad;
    if bad.Text? {
      BadText(s, t, bad, le);
    } else if i == start {
      NothingSeen(s, t, bad, env, le, i);
    } else {
      var c := s.files[i - 1];
      Wrap(start, i - 1 - start, |s.files|);
      assert At(s.files, start, i - 1 - start) == c;
      InFront(s.files, s.names, le, i);
      PlainIsText(c);
      assert t.cursor == Some(c.s + "\n");
      StartFollows(t.files, t.names, le, c, q);
    }
  }

  lemma InFront(files: seq<Name>, names: set<Name>, le: (Name, Name) -> bool, i: nat)
    requires PathOrder(le) && IsListing(files, names, le) && 0 < i < |files|
    ensures files[i - 1] in names && files[i - 1] != files[i] && le(files[i - 1], files[i])
  {
    hide PathOrder;
    assert files[i - 1] in files;
    Follows(files, names, le, i - 1, i);
  }

  lemma BadText(s: Snapshot, t: Snapshot, bad: Name, le: (Name, Name) -> bool)
    requires bad.Text? && bad in s.names && !Plain(bad) && NoConfusion(s.names)
    requires t.names <= s.names && IsListing(t.files, t.names, le) && t.cursor == Some(bad.s + "\n")
    ensures StartAt(t.files, t.cursor) == 0
  {
    hide Trim, StartAt, IsListing, Plain;
    Misread(t.files, t.names, le, bad.s);
  }

  /** Only a name that is no text was visited: nothing has changed. */
  lemma NothingSeen(s: Snapshot, t: Snapshot, bad: Name, env: Env, le: (Name, Name) -> bool, i: nat)
    requires PathOrder(le) && IsListing(s.files, s.names, le) && IsListing(t.files, t.names, le)
    requires bad.Raw? && i < |s.files| && s.files[i] == bad && StartAt(s.files, s.cursor) == i
    requires t.names == s.names - RemovedIn(s.files, i, 1, env)
    requires t.cursor == match LastSeen(s.files, i, 1) case Some(x) => Some(x + "\n") case None => s.cursor
    ensures t.files == s.files && t.cursor == s.cursor
  {
    hide PathOrder, IsListing, StartAt;
    Wrap(i, 0, |s.files|);
    assert At(s.files, i, 0) == bad;
    assert RemovedIn(s.files, i, 1, env) == {};
    assert LastSeen(s.files, i, 0) == None;
    assert t.names == s.names;
    SameListing(s.files, t.files, s.names, le);
  }

  /** So runs of any length leave the file that is due. */
  lemma {:induction false} StarvingRun(s: Snapshot, bad: Name, due: Name, env: Env, le: (Name, Name) -> bool, r: nat)
    returns (states: seq<Snapshot>, turns: seq<nat>)
    requires PathOrder(le) && Waiting(s, bad, due, env, le)
    ensures |turns| == r && Passes(states, turns, 1, env, le) && states[0] == s
    ensures due in Due(states[r], env)
    decreases r
  {
    hide Goes, PathOrder, IsListing, Next;
    if r == 0 {
      states, turns := [s], [];
    } else {
      var t, n := WaitingPass(s, bad, due, env, le);
      var rest, more := StarvingRun(t, bad, due, env, le, r - 1);
      states, turns := [s] + rest, [n] + more;
      forall k | 0 <= k < r
        ensures Next(states[k], states[k + 1], turns[k], 1, env, le)
      {
        if k > 0 {
          assert Next(rest[k - 1], rest[k], more[k - 1], 1, env, le);
        }
      }
    }
  }

  /** Where some name in front of a file that is due cannot be held by the cursor file, the first of them
      has such a file waiting behind it. */
  lemma FirstBad(s: Snapshot, env: Env, le: (Name, Name) -> bool) returns (bad: Name, due: Name)
    requires PathOrder(le) && IsListing(s.files, s.names, le) && NoConfusion(s.names)
    requires !FrontPlain(s.names, env, le) && StartAt(s.files, s.cursor) == 0
    ensures Waiting(s, bad, due, env, le)
  {
    hide Goes, PathOrder, IsListing, StartAt, Plain, NoConfusion;
    var a, b :| a in s.names && b in s.names && a != b && le(a, b) && Goes(b, env) && !Plain(a);
    due := b;
    var p := PlaceOf(s.files, s.names, le, a);
    var q := PlaceOf(s.files, s.names, le, b);
    OrderOfTwo(s.files, s.names, le, p, q);
    var i := 0;
    while Plain(s.files[i])
      invariant i <= p && forall k | 0 <= k < i :: Plain(s.files[k])
      decreases p - i
    {
      i := i + 1;
    }
    bad := s.files[i];
    ListedInOrder(s.files, s.names, le, i, q);
    forall x | x in s.names && x != bad && le(x, bad)
      ensures Plain(x)
    {
      var k := PlaceOf(s.files, s.names, le, x);
      OrderOfTwo(s.files, s.names, le, k, i);
    }
  }

  lemma ListedInOrder(files: seq<Name>, names: set<Name>, le: (Name, Name) -> bool, i: nat, j: nat)
    requires PathOrder(le) && IsListing(files, names, le) && i < j < |files|
    ensures files[i] in names && files[i] != files[j] && le(files[i], files[j])
  {
    hide PathOrder;
    assert files[i] in files;
    Follows(files, names, le, i, j);
  }

  // ----- the exact condition -----

  /** Whatever `m` is, every run of enough passes removes everything that is due. */
  ghost predicate AlwaysCollected(s: Snapshot, env: Env, le: (Name, Name) -> bool) {
    forall states, turns, m: nat | m > 0 && Passes(states, turns, m, env, le) && states[0] == s
                                   && |turns| >= |Due(s, env)| * Rounds(|s.files|, m) ::
      Due(states[|turns|], env) == {}
  }

  /** From an empty cursor, or any that starts at the front, the collector always removes everything that
      is due if and only if the cursor file can hold every name in front of a file that is due. */
  lemma CollectedIff(s: Snapshot, env: Env, le: (Name, Name) -> bool)
    requires PathOrder(le) && IsListing(s.files, s.names, le) && NoConfusion(s.names) && StartAt(s.files, s.cursor) == 0
    ensures AlwaysCollected(s, env, le) <==> FrontPlain(s.names, env, le)
  {
    hide Goes, PathOrder, IsListing, StartAt, FrontPlain, NoConfusion, Next, Rounds;
    if FrontPlain(s.names, env, le) {
      forall states, turns, m: nat | m > 0 && Passes(states, turns, m, env, le) && states[0] == s
                                     && |turns| >= |Due(s, env)| * Rounds(|s.files|, m)
        ensures Due(states[|turns|], env) == {}
      {
        EventuallyCollected(states, turns, m, env, le);
      }
    } else {
      var bad, due := FirstBad(s, env, le);
      var r := |Due(s, env)| * Rounds(|s.files|, 1);
      var states, turns := StarvingRun(s, bad, due, env, le, r);
    }
  }

  // ----- two instances -----

  /** A directory in which a name begins with a blank. */
  function Stuck(cursor: Option<string>): Snapshot {
    Snapshot({Text(" a.db"), Text("counter_7-0.db")}, [Text(" a.db"), Text("counter_7-0.db")], cursor)
  }

  predicate Useless(cursor: Option<string>) {
    cursor == None || cursor == Some(" a.db\n")
  }

  lemma UselessCursor(cursor: Option<string>)
    requires Useless(cursor)
    ensures StartAt(Stuck(cursor).files, cursor) == 0
  {
    if cursor.Some? {
      var line := " a.db\n";
      assert line[1..] == "a.db\n" && !IsSpace(line[1..][0]);
      assert TrimStart(line) == TrimStart(line[1..]) == "a.db\n";
      assert "a.db\n"[..4] == "a.db" && !IsSpace("a.db"[3]);
      assert TrimEnd("a.db\n") == TrimEnd("a.db") == "a.db";
    }
  }

  lemma BlankNameStays(env: Env)
    ensures !Goes(Text(" a.db"), env)
  {
    var stem := " a.db"[..2];
    assert stem == " a" && stem[1..] == "a" && stem[1..][1..] == "";
    assert Split("", '_') == [""];
    assert Split("a", '_')[0] == "a";
    assert Split(stem, '_')[0] == " a";
    var gauge, counter, histogram, summary := "gauge", "counter", "histogram", "summary";
    assert " a"[0] != gauge[0] && " a"[0] != counter[0] && " a"[0] != histogram[0] && " a"[0] != summary[0];
  }

  /** A name that begins with a blank defeats the cursor: passes of one file each look at that file
      forever, and the file behind it, although due, is never removed. */
  lemma {:induction false} BlankNameStarves(states: seq<Snapshot>, turns: seq<nat>, env: Env, le: (Name, Name) -> bool, i: nat)
    requires |states| == |turns| + 1 && i < |states| && PathOrder(le)
    requires states[0] == Stuck(None) && IsListing(states[0].files, states[0].names, le) && Goes(Text("counter_7-0.db"), env)
    requires forall j | 0 <= j < |turns| :: turns[j] == 1 && Next(states[j], states[j + 1], 1, 1, env, le)
    ensures Useless(states[i].cursor) && states[i] == Stuck(states[i].cursor) && Due(states[i], env) != {}
  {
    hide Goes, IsListing, Next, PathOrder;
    if i > 0 {
      BlankNameStarves(states, turns, env, le, i - 1);
      assert Next(states[i - 1], states[i], turns[i - 1], 1, env, le);
      StuckPass(states[i - 1].cursor, states[i], env, le);
    }
    assert Text("counter_7-0.db") in Due(states[i], env);
  }

  lemma StuckPass(cursor: Option<string>, t: Snapshot, env: Env, le: (Name, Name) -> bool)
    requires Useless(cursor) && PathOrder(le) && IsListing(Stuck(cursor).files, Stuck(cursor).names, le)
    requires Next(Stuck(cursor), t, 1, 1, env, le)
    ensures Useless(t.cursor) && t == Stuck(t.cursor)
  {
    hide Goes, StartAt, PathOrder, IsListing;
    var s := Stuck(cursor);
    UselessCursor(cursor);
    BlankNameStays(env);
    assert At(s.files, 0, 0) == Text(" a.db");
    assert RemovedIn(s.files, 0, 1, env) == {};
    assert t.names == s.names;
    SameListing(s.files, t.files, s.names, le);
    assert LastSeen(s.files, 0, 1) == Some(" a.db") && " a.db" + "\n" == " a.db\n";
  }

  /** A name that is not UTF-8 does so too: it is looked at without being remembered. */
  lemma RawNameStarves(bytes: seq<byte>, due: Name, env: Env, le: (Name, Name) -> bool)
    requires PathOrder(le) && le(Raw(bytes), due) && Goes(due, env)
    requires IsListing([Raw(bytes), due], {Raw(bytes), due}, le)
    ensures !AlwaysCollected(Snapshot({Raw(bytes), due}, [Raw(bytes), due], None), env, le)
  {
    hide Goes, PathOrder, AlwaysCollected, IsListing;
    var s := Snapshot({Raw(bytes), due}, [Raw(bytes), due], None);
    CollectedIff(s, env, le);
    DueIsPlain(due, env);
    assert !Plain(Raw(bytes)) && Raw(bytes) != due;
  }
}
