/** Repeated passes of the collector reach every file: the measure is the number of files still due,
    then the distance from the cursor to the next of them. */
module CollectorProgress {
  import opened Bytes
  import opened SeqFacts
  import opened Ordering
  import opened Scrape
  import opened Collector

  /** A directory between two passes: its metric files, their listing, and the cursor. */
  datatype Snapshot = Snapshot(names: set<Name>, files: seq<Name>, cursor: Option<string>)

  function Due(s: Snapshot, env: Env): set<Name> {
    set n | n in s.names && Goes(n, env)
  }

  function AtMost(a: nat, b: nat): nat {
    if a < b then a else b
  }

  /** One pass over an otherwise unchanging directory that visits at least `m` files, or all there are,
      unless it stops for having removed enough. */
  ghost predicate Next(s: Snapshot, t: Snapshot, turns: nat, m: nat, env: Env, le: (Name, Name) -> bool) {
    && IsListing(t.files, t.names, le)
    && if s.files == [] then t == s else
       && Pass(s.files, s.names, s.cursor, turns, env, t.names, t.cursor, true)
       && (turns >= AtMost(m, |s.files|) || RemovedIn(s.files, StartAt(s.files, s.cursor), turns, env) != {})
  }

  /** Names the cursor file can hold. */
  predicate Plain(n: Name) {
    n.Text? && n.s != "" && NoEdgeSpace(n.s)
  }

  predicate AllPlain(files: seq<Name>) {
    forall n <- files :: Plain(n)
  }

  /** Every name in front of a file that is due can be held by the cursor file. */
  ghost predicate FrontPlain(names: set<Name>, env: Env, le: (Name, Name) -> bool) {
    forall a <- names, b <- names :: a != b && le(a, b) && Goes(b, env) ==> Plain(a)
  }

  /** Nothing that is due lies in front of `start`. */
  predicate Behind(files: seq<Name>, start: nat, env: Env) {
    forall i | 0 <= i < |files| && i < start :: !Goes(files[i], env)
  }

  /** The cursor works: it can hold all names, or all that matter and it has passed no file that is due. */
  ghost predicate Steady(s: Snapshot, env: Env, le: (Name, Name) -> bool) {
    AllPlain(s.files) || (FrontPlain(s.names, env, le) && Behind(s.files, StartAt(s.files, s.cursor), env))
  }

  // ----- the distance to the next file that is due -----

  function Distance(files: seq<Name>, start: nat, from: nat, env: Env): (d: nat)
    requires files != [] && from <= |files|
    ensures from <= d <= |files|
    decreases |files| - from
  {
    if from == |files| || Goes(At(files, start, from), env) then from else Distance(files, start, from + 1, env)
  }

  lemma {:induction false} DistanceIs(files: seq<Name>, start: nat, from: nat, env: Env, d: nat)
    requires files != [] && from <= d < |files| && Goes(At(files, start, d), env)
    requires forall i | from <= i < d :: !Goes(At(files, start, i), env)
    ensures Distance(files, start, from, env) == d
    decreases d - from
  {
    hide Goes;
    if from < d {
      DistanceIs(files, start, from + 1, env, d);
    }
  }

  lemma {:induction false} DistanceMeaning(files: seq<Name>, start: nat, from: nat, env: Env)
    requires files != [] && from <= |files|
    ensures var d := Distance(files, start, from, env);
            && (forall i | from <= i < d :: !Goes(At(files, start, i), env))
            && (d < |files| ==> Goes(At(files, start, d), env))
    decreases |files| - from
  {
    hide Goes;
    if from < |files| && !Goes(At(files, start, from), env) {
      DistanceMeaning(files, start, from + 1, env);
    }
  }

  /** Every file is within one round of any starting point. */
  lemma WithinOneRound(files: seq<Name>, start: nat, env: Env, n: Name)
    requires files != [] && start < |files| && n in files && Goes(n, env)
    ensures Distance(files, start, 0, env) < |files|
  {
    hide Goes;
    var j :| 0 <= j < |files| && files[j] == n;
    var i := if j >= start then j - start else j - start + |files|;
    Wrap(start, i, |files|);
    assert At(files, start, i) == n;
    DistanceMeaning(files, start, 0, env);
  }

  lemma {:induction false} PositionIs(files: seq<Name>, i: nat)
    requires i < |files| && NoDuplicates(files)
    ensures Position(files, files[i]) == i
  {
    if i > 0 {
      PositionIs(files[1..], i - 1);
    }
  }

  lemma StartsBehind(files: seq<Name>, i: nat)
    requires i < |files| && NoDuplicates(files) && Plain(files[i])
    ensures StartAt(files, Some(files[i].s + "\n")) == (i + 1) % |files|
  {
    hide NoEdgeSpace, Trim, NoDuplicates, Position;
    CursorReads(files[i].s);
    PositionIs(files, i);
  }

  lemma StartsInFront(files: seq<Name>, c: Name)
    requires Plain(c) && c !in files
    ensures StartAt(files, Some(c.s + "\n")) == 0
  {
    hide NoEdgeSpace, Trim;
    CursorReads(c.s);
  }

  /** The next pass starts behind the last file this one visited. */
  lemma CursorAdvances(files: seq<Name>, start: nat, turns: nat)
    requires files != [] && start < |files| && 0 < turns <= |files| && NoDuplicates(files)
    requires Plain(At(files, start, turns - 1))
    ensures var seen := LastSeen(files, start, turns);
            seen.Some? && StartAt(files, Some(seen.value + "\n")) == (start + turns) % |files|
  {
    hide NoEdgeSpace, StartAt, NoDuplicates;
    var i := (start + (turns - 1)) % |files|;
    assert At(files, start, turns - 1) == files[i];
    StartsBehind(files, i);
    Wrap(start, turns - 1, |files|);
    Wrap(start, turns, |files|);
    Wrap(i, 1, |files|);
  }

  lemma DueIsRemoved(files: seq<Name>, start: nat, turns: nat, env: Env, d: nat)
    requires files != [] && d < turns && Goes(At(files, start, d), env)
    ensures RemovedIn(files, start, turns, env) != {}
  {
    assert At(files, start, d) in RemovedIn(files, start, turns, env);
  }

  /** A pass that finds nothing due comes closer by as many files as it visited. */
  lemma ComesCloser(files: seq<Name>, start: nat, turns: nat, env: Env)
    requires files != [] && start < |files| && turns <= |files|
    requires RemovedIn(files, start, turns, env) == {} && Distance(files, start, 0, env) < |files|
    ensures turns <= Distance(files, start, 0, env)
    ensures Distance(files, (start + turns) % |files|, 0, env) == Distance(files, start, 0, env) - turns
  {
    hide Goes;
    var k, d := |files|, Distance(files, start, 0, env);
    DistanceMeaning(files, start, 0, env);
    if d < turns {
      DueIsRemoved(files, start, turns, env, d);
    }
    var next := (start + turns) % k;
    forall i | 0 <= i <= d - turns
      ensures At(files, next, i) == At(files, start, turns + i)
    {
      SameStep(start, turns, i, k);
    }
    DistanceIs(files, next, 0, env, d - turns);
  }

  lemma SameStep(start: nat, turns: nat, i: nat, k: nat)
    requires start < k && turns <= k && turns + i < k
    ensures ((start + turns) % k + i) % k == (start + (turns + i)) % k
  {
    Wrap(start, turns, k);
    Wrap((start + turns) % k, i, k);
    Wrap(start, turns + i, k);
  }

  // ----- the measure -----

  /** Passes needed for one round over `n` files. */
  function Rounds(n: nat, m: nat): nat
    requires m > 0
  {
    (n + m - 1) / m
  }

  lemma DivDrops(x: nat, y: nat, m: nat)
    requires 0 < m <= y <= x
    ensures (x - y) / m + 1 <= x / m
  {
    var q := (x - y) / m;
    assert m * q <= x - y;
    assert m * (q + 1) <= x;
    DivAtLeast(x, q + 1, m);
  }

  lemma DivAtLeast(x: nat, q: nat, m: nat)
    requires 0 < m && m * q <= x
    ensures q <= x / m
  {
    assert x < m * (x / m + 1);
    if q > x / m {
      MulMono(m, x / m + 1, q);
    }
  }

  lemma MulMono(m: nat, a: nat, b: nat)
    requires a <= b
    ensures m * a <= m * b
  {
  }

  lemma WithinRounds(d: nat, n: nat, m: nat)
    requires m > 0 && d < n
    ensures d / m + 1 <= Rounds(n, m)
  {
    var q := d / m;
    assert m * q <= d;
    assert m * (q + 1) <= n + m - 1;
    DivAtLeast(n + m - 1, q + 1, m);
  }

  function Times(a: nat, b: nat): nat {
    a * b
  }

  /** Whole rounds for all files that are due but one, and the passes until the next of them. */
  function Countdown(due: nat, distance: nat, rounds: nat, m: nat): nat
    requires m > 0
  {
    if due == 0 then 0 else Times(due - 1, rounds) + distance / m + 1
  }

  function NextDue(s: Snapshot, env: Env): nat {
    if s.files == [] then 0 else Distance(s.files, StartAt(s.files, s.cursor), 0, env)
  }

  /** At most this many passes until nothing is due. */
  function Measure(s: Snapshot, n: nat, m: nat, env: Env): nat
    requires m > 0
  {
    Countdown(|Due(s, env)|, NextDue(s, env), Rounds(n, m), m)
  }

  lemma {:induction false} ListingSize(files: seq<Name>, names: set<Name>)
    requires NoDuplicates(files) && forall n :: n in files <==> n in names
    ensures |files| == |names|
  {
    if files == [] {
      assert names == {};
    } else {
      var k := |files| - 1;
      assert files == files[..k] + [files[k]];
      ListingSize(files[..k], names - {files[k]});
    }
  }

  lemma MeasureBound(s: Snapshot, n: nat, m: nat, env: Env, le: (Name, Name) -> bool)
    requires m > 0 && IsListing(s.files, s.names, le) && |s.files| <= n
    ensures Measure(s, n, m, env) <= Times(|Due(s, env)|, Rounds(n, m))
    ensures Due(s, env) != {} ==> s.files != [] && Measure(s, n, m, env) >= 1
  {
    hide Goes, SortedBy, StartAt, Rounds, Distance, Times, NoDuplicates;
    var c := |Due(s, env)|;
    if c > 0 {
      var x :| x in Due(s, env);
      assert x in s.files;
      var d := Distance(s.files, StartAt(s.files, s.cursor), 0, env);
      WithinOneRound(s.files, StartAt(s.files, s.cursor), env, x);
      WithinRounds(d, n, m);
      OneRoundMore(c - 1, Rounds(n, m));
    }
  }

  lemma SameListing(a: seq<Name>, b: seq<Name>, names: set<Name>, le: (Name, Name) -> bool)
    requires PathOrder(le) && IsListing(a, names, le) && IsListing(b, names, le)
    ensures a == b
  {
    hide TotalOn, SortedBy, NoDuplicates;
    SameMembersSameMultiset(a, b);
    SortedUnique(le, a, b);
  }

  /** While something is due, every pass lowers the measure. */
  lemma PassProgress(s: Snapshot, t: Snapshot, turns: nat, n: nat, m: nat, env: Env, le: (Name, Name) -> bool)
    requires m > 0 && PathOrder(le) && IsListing(s.files, s.names, le) && |s.files| <= n && Steady(s, env, le)
    requires Next(s, t, turns, m, env, le) && Due(s, env) != {}
    ensures Measure(t, n, m, env) < Measure(s, n, m, env)
  {
    hide Goes, SortedBy, StartAt, Rounds, Distance, TotalOn, NoDuplicates, RemovedIn, LastSeen, PathOrder, IsListing, Plain, Times,
      Steady;
    MeasureBound(s, n, m, env, le);
    var start := StartAt(s.files, s.cursor);
    var gone := RemovedIn(s.files, start, turns, env);
    if gone != {} {
      FewerDue(s, t, turns, gone, env, le);
      ListingShrinks(s, t, le);
      MeasureBound(t, n, m, env, le);
      MoreRounds(|Due(t, env)|, |Due(s, env)| - 1, Rounds(n, m));
    } else {
      assert t.names == s.names;
      SameListing(s.files, t.files, s.names, le);
      FruitlessPass(s, t, turns, n, m, env, le);
    }
  }

  lemma MoreRounds(a: nat, b: nat, r: nat)
    requires a <= b
    ensures Times(a, r) <= Times(b, r)
  {
    MulMono(r, a, b);
  }

  lemma OneRoundMore(c: nat, r: nat)
    ensures Times(c + 1, r) == Times(c, r) + r
  {
  }

  lemma ListingShrinks(s: Snapshot, t: Snapshot, le: (Name, Name) -> bool)
    requires IsListing(s.files, s.names, le) && IsListing(t.files, t.names, le) && t.names <= s.names
    ensures |t.files| <= |s.files|
  {
    hide SortedBy, NoDuplicates;
    ListingSize(s.files, s.names);
    ListingSize(t.files, t.names);
    assert s.names == t.names + (s.names - t.names);
  }

  lemma RemovedAreDue(s: Snapshot, start: nat, turns: nat, env: Env, le: (Name, Name) -> bool)
    requires s.files != [] && IsListing(s.files, s.names, le)
    ensures RemovedIn(s.files, start, turns, env) <= Due(s, env)
  {
    hide Goes, SortedBy, NoDuplicates;
  }

  lemma FewerDue(s: Snapshot, t: Snapshot, turns: nat, gone: set<Name>, env: Env, le: (Name, Name) -> bool)
    requires s.files != [] && IsListing(s.files, s.names, le) && t.names == s.names - gone && gone != {}
    requires gone == RemovedIn(s.files, StartAt(s.files, s.cursor), turns, env)
    ensures |Due(t, env)| < |Due(s, env)|
  {
    hide Goes, IsListing, RemovedIn, StartAt;
    RemovedAreDue(s, StartAt(s.files, s.cursor), turns, env, le);
    assert Due(t, env) == Due(s, env) - gone;
  }

  lemma FruitlessPass(s: Snapshot, t: Snapshot, turns: nat, n: nat, m: nat, env: Env, le: (Name, Name) -> bool)
    requires m > 0 && s.files != [] && PathOrder(le) && IsListing(s.files, s.names, le) && Steady(s, env, le)
    requires Next(s, t, turns, m, env, le) && t.files == s.files && t.names == s.names && Due(s, env) != {}
    requires RemovedIn(s.files, StartAt(s.files, s.cursor), turns, env) == {}
    ensures Measure(t, n, m, env) < Measure(s, n, m, env)
  {
    hide Goes, SortedBy, StartAt, Rounds, Distance, RemovedIn, NoDuplicates, LastSeen, Plain, Times, Steady, PathOrder;
    var start := StartAt(s.files, s.cursor);
    var x :| x in Due(s, env);
    assert x in s.files;
    WithinOneRound(s.files, start, env, x);
    ComesCloser(s.files, start, turns, env);
    var d := Distance(s.files, start, 0, env);
    assert turns >= m;
    LastVisitedIsPlain(s, turns, env, le, x);
    CursorAdvances(s.files, start, turns);
    DivDrops(d, turns, m);
  }

  // ----- the cursor keeps working -----

  /** In a listing the order of names is the order of places. */
  lemma Follows(files: seq<Name>, names: set<Name>, le: (Name, Name) -> bool, i: nat, j: nat)
    requires PathOrder(le) && IsListing(files, names, le) && i < |files| && j < |files|
    ensures i < j <==> files[i] != files[j] && le(files[i], files[j])
  {
    assert i < j ==> le(files[i], files[j]) && files[i] != files[j];
    assert j < i ==> le(files[j], files[i]) && files[i] != files[j];
  }

  /** A file that is due, and that a pass has not removed, lies behind all it has visited. */
  lemma NotReached(s: Snapshot, turns: nat, env: Env, b: Name, p: nat)
    requires s.files != [] && turns <= |s.files| && p < |s.files| && s.files[p] == b && Goes(b, env)
    requires Behind(s.files, StartAt(s.files, s.cursor), env) && b !in RemovedIn(s.files, StartAt(s.files, s.cursor), turns, env)
    ensures StartAt(s.files, s.cursor) + turns <= p
  {
    hide Goes, StartAt, RemovedIn;
    var start := StartAt(s.files, s.cursor);
    if start <= p < start + turns {
      ReachedIsRemoved(s.files, start, turns, env, p);
    }
  }

  lemma ReachedIsRemoved(files: seq<Name>, start: nat, turns: nat, env: Env, p: nat)
    requires start <= p < |files| && p < start + turns && Goes(files[p], env)
    ensures files[p] in RemovedIn(files, start, turns, env)
  {
    hide Goes;
    Wrap(start, p - start, |files|);
    assert At(files, start, p - start) == files[p];
  }

  lemma LastVisitedIsPlain(s: Snapshot, turns: nat, env: Env, le: (Name, Name) -> bool, b: Name)
    requires s.files != [] && PathOrder(le) && IsListing(s.files, s.names, le) && Steady(s, env, le) && 0 < turns <= |s.files|
    requires b in Due(s, env) && b !in RemovedIn(s.files, StartAt(s.files, s.cursor), turns, env)
    ensures var last := At(s.files, StartAt(s.files, s.cursor), turns - 1);
            Plain(last) && (!AllPlain(s.files) ==> last != b && le(last, b))
  {
    hide Goes, StartAt, PathOrder, IsListing, Plain, RemovedIn, FrontPlain, Behind;
    var start := StartAt(s.files, s.cursor);
    var last := At(s.files, start, turns - 1);
    if !AllPlain(s.files) {
      var p := PlaceOf(s.files, s.names, le, b);
      NotReached(s, turns, env, b, p);
      Wrap(start, turns - 1, |s.files|);
      FrontOf(s.files, s.names, le, env, start + turns - 1, p);
    }
  }

  lemma PlaceOf(files: seq<Name>, names: set<Name>, le: (Name, Name) -> bool, b: Name) returns (p: nat)
    requires IsListing(files, names, le) && b in names
    ensures p < |files| && files[p] == b
  {
    hide SortedBy, NoDuplicates;
    assert b in files;
    p :| 0 <= p < |files| && files[p] == b;
  }

  lemma FrontOf(files: seq<Name>, names: set<Name>, le: (Name, Name) -> bool, env: Env, i: nat, p: nat)
    requires PathOrder(le) && IsListing(files, names, le) && FrontPlain(names, env, le)
    requires i < p < |files| && Goes(files[p], env)
    ensures Plain(files[i]) && files[i] != files[p] && le(files[i], files[p])
  {
    hide Goes, PathOrder, SortedBy, NoDuplicates, Plain;
    assert files[i] in files && files[p] in files;
    Follows(files, names, le, i, p);
  }

  /** After a cursor that holds `c`, a pass starts no further than any file behind `c`. */
  lemma StartFollows(files: seq<Name>, names: set<Name>, le: (Name, Name) -> bool, c: Name, p: nat)
    requires PathOrder(le) && IsListing(files, names, le) && Plain(c)
    requires p < |files| && files[p] != c && le(c, files[p])
    ensures StartAt(files, Some(c.s + "\n")) <= p
  {
    hide PathOrder, SortedBy, NoDuplicates, StartAt, Plain;
    if c in files {
      var i :| 0 <= i < |files| && files[i] == c;
      Follows(files, names, le, i, p);
      StartsBehind(files, i);
      Wrap(i, 1, |files|);
    } else {
      StartsInFront(files, c);
    }
  }

  lemma SteadyStays(s: Snapshot, t: Snapshot, turns: nat, m: nat, env: Env, le: (Name, Name) -> bool)
    requires m > 0 && PathOrder(le) && IsListing(s.files, s.names, le) && Steady(s, env, le) && Next(s, t, turns, m, env, le)
    ensures Steady(t, env, le)
  {
    hide Goes, StartAt, PathOrder, SortedBy, NoDuplicates, Plain, RemovedIn, LastSeen;
    if !AllPlain(s.files) && s.files != [] {
      RemovedAreDue(s, StartAt(s.files, s.cursor), turns, env, le);
      forall j | 0 <= j < |t.files| && j < StartAt(t.files, t.cursor)
        ensures !Goes(t.files[j], env)
      {
        if Goes(t.files[j], env) {
          StartStays(s, t, turns, m, env, le, j);
        }
      }
    }
  }

  lemma StartStays(s: Snapshot, t: Snapshot, turns: nat, m: nat, env: Env, le: (Name, Name) -> bool, j: nat)
    requires m > 0 && PathOrder(le) && IsListing(s.files, s.names, le) && Steady(s, env, le) && Next(s, t, turns, m, env, le)
    requires s.files != [] && !AllPlain(s.files) && j < |t.files| && Goes(t.files[j], env)
    ensures StartAt(t.files, t.cursor) <= j
  {
    hide Goes, StartAt, PathOrder, SortedBy, NoDuplicates, Plain, Steady;
    var start, b := StartAt(s.files, s.cursor), t.files[j];
    assert b in t.names;
    SomethingVisited(s.files, start, turns, m, env);
    LastVisitedIsPlain(s, turns, env, le, b);
    var c := At(s.files, start, turns - 1);
    PlainIsText(c);
    assert t.cursor == Some(c.s + "\n");
    StartFollows(t.files, t.names, le, c, j);
  }

  lemma SomethingVisited(files: seq<Name>, start: nat, turns: nat, m: nat, env: Env)
    requires m > 0 && files != [] && (turns >= AtMost(m, |files|) || RemovedIn(files, start, turns, env) != {})
    ensures turns > 0
  {
    if turns == 0 {
      NothingRemoved(files, start, env);
    }
  }

  lemma PlainIsText(n: Name)
    requires Plain(n)
    ensures n.Text?
  {
  }

  // ----- whole runs -----

  ghost predicate Passes(states: seq<Snapshot>, turns: seq<nat>, m: nat, env: Env, le: (Name, Name) -> bool) {
    && |states| == |turns| + 1
    && IsListing(states[0].files, states[0].names, le)
    && forall i | 0 <= i < |turns| :: Next(states[i], states[i + 1], turns[i], m, env, le)
  }

  /** A pass takes only what is due and leaves the rest. */
  lemma PassKeeps(s: Snapshot, t: Snapshot, turns: nat, m: nat, env: Env, le: (Name, Name) -> bool)
    requires IsListing(s.files, s.names, le) && Next(s, t, turns, m, env, le)
    ensures t.names <= s.names && s.names - t.names <= Due(s, env)
    ensures IsListing(t.files, t.names, le) && |t.files| <= |s.files|
  {
    hide Goes, SortedBy, NoDuplicates, RemovedIn, StartAt, LastSeen;
    if s.files != [] {
      RemovedAreDue(s, StartAt(s.files, s.cursor), turns, env, le);
      ListingShrinks(s, t, le);
    }
  }

  lemma {:induction false} Descent(states: seq<Snapshot>, turns: seq<nat>, m: nat, env: Env, le: (Name, Name) -> bool, i: nat)
    requires m > 0 && PathOrder(le) && Passes(states, turns, m, env, le) && Steady(states[0], env, le) && i < |states|
    ensures var s, t, n := states[0], states[i], |states[0].files|;
            && IsListing(t.files, t.names, le) && Steady(t, env, le) && |t.files| <= n
            && t.names <= s.names && s.names - t.names <= Due(s, env)
            && (Due(t, env) == {} || Measure(t, n, m, env) + i <= Measure(s, n, m, env))
  {
    hide Goes, IsListing, Steady, Measure, Next, PathOrder;
    if i > 0 {
      Descent(states, turns, m, env, le, i - 1);
      var p, t := states[i - 1], states[i];
      assert Next(p, t, turns[i - 1], m, env, le);
      PassKeeps(p, t, turns[i - 1], m, env, le);
      SteadyStays(p, t, turns[i - 1], m, env, le);
      assert Due(t, env) <= Due(p, env) <= Due(states[0], env);
      if Due(p, env) != {} {
        PassProgress(p, t, turns[i - 1], |states[0].files|, m, env, le);
      }
    }
  }

  /** With `d` files due among `n`, after `d * ceil(n / m)` passes exactly those are gone. */
  lemma EventuallyCollected(states: seq<Snapshot>, turns: seq<nat>, m: nat, env: Env, le: (Name, Name) -> bool)
    requires m > 0 && PathOrder(le) && Passes(states, turns, m, env, le) && Steady(states[0], env, le)
    requires |turns| >= |Due(states[0], env)| * Rounds(|states[0].files|, m)
    ensures states[|turns|].names == states[0].names - Due(states[0], env)
  {
    hide Goes, IsListing, Steady, Measure, Next, PathOrder, Rounds;
    var s, t, n := states[0], states[|turns|], |states[0].files|;
    Descent(states, turns, m, env, le, |turns|);
    MeasureBound(s, n, m, env, le);
    if Due(t, env) == {} {
      assert forall x <- t.names :: x !in Due(t, env);
    } else {
      MeasureBound(t, n, m, env, le);
    }
  }

  // ----- the collector performs these passes -----

  lemma {:induction false} Members(names: set<Name>) returns (files: seq<Name>)
    ensures NoDuplicates(files) && forall n :: n in files <==> n in names
  {
    if names == {} {
      files := [];
    } else {
      var x :| x in names;
      files := Members(names - {x});
      files := files + [x];
    }
  }

  lemma ListingExists(names: set<Name>, le: (Name, Name) -> bool) returns (files: seq<Name>)
    requires PathOrder(le)
    ensures IsListing(files, names, le)
  {
    hide TotalOn, SortedBy;
    var some := Members(names);
    files := Sort(le, some);
    SortSorted(le, some);
    SortMultiset(le, some);
    SameMultisetSameMembers(some, files);
    SameMultisetNoDuplicates(some, files);
  }

  /** The directory as a snapshot. */
  ghost predicate Shows(s: Snapshot, names: set<Name>, cursor: Option<string>, le: (Name, Name) -> bool) {
    s.names == names && s.cursor == cursor && IsListing(s.files, names, le)
  }

  /** One call of the collector is one pass. */
  method OnePass(dir: MetricDir, scanLimit: nat, deleteLimit: nat, deadline: nat, env: Env, le: (Name, Name) -> bool,
                 ghost m: nat, ghost s: Snapshot)
    returns (deleted: nat, ghost t: Snapshot, ghost turns: nat)
    requires PathOrder(le) && m <= scanLimit && m <= deadline
    requires forall n <- dir.entries :: IsDbName(n) ==> dir.entries[n] != KindUnknown
    requires Shows(s, MetricFiles(dir.entries), dir.cursor, le)
    modifies dir
    ensures forall n <- dir.entries :: n in old(dir.entries) && dir.entries[n] == old(dir.entries)[n]
    ensures forall n <- old(dir.entries) :: n !in dir.entries ==> old(dir.entries)[n] == Regular && OfDeadProcess(n, env)
    ensures Shows(t, MetricFiles(dir.entries), dir.cursor, le) && Next(s, t, turns, m, env, le)
  {
    hide IsDbName, Goes, PathOrder, IsListing, RemovedIn, StartAt, LastSeen, MetricFiles, OfDeadProcess;
    ghost var files;
    var r;
    r, files, turns := dir.Collect(Held, scanLimit, deleteLimit, deadline, env, le, true);
    SameListing(s.files, files, s.names, le);
    deleted := r.value;
    if files == [] {
      t := s;
    } else {
      ghost var left := ListingExists(MetricFiles(dir.entries), le);
      t := Snapshot(MetricFiles(dir.entries), left, dir.cursor);
    }
  }

  /** Calling the collector again and again removes exactly the files that are due. */
  method CollectAll(dir: MetricDir, passes: nat, m: nat, deleteLimit: nat, env: Env, le: (Name, Name) -> bool)
    requires PathOrder(le) && m > 0
    requires forall n <- dir.entries :: IsDbName(n) ==> dir.entries[n] != KindUnknown
    requires (forall n <- MetricFiles(dir.entries) :: Plain(n)) || (dir.cursor == None && FrontPlain(MetricFiles(dir.entries), env, le))
    requires passes >= |set n | n in MetricFiles(dir.entries) && Goes(n, env)| * Rounds(|MetricFiles(dir.entries)|, m)
    modifies dir
    ensures MetricFiles(dir.entries) == MetricFiles(old(dir.entries)) - set n | n in MetricFiles(old(dir.entries)) && Goes(n, env)
    ensures forall n <- old(dir.entries) ::
              if old(dir.entries)[n] == Regular && OfDeadProcess(n, env) then n !in dir.entries
              else n in dir.entries && dir.entries[n] == old(dir.entries)[n]
    ensures dir.entries.Keys <= old(dir.entries).Keys
  {
    hide IsDbName, Goes, PathOrder, IsListing, MetricFiles, Next, Plain, Rounds, FrontPlain, Steady, OfDeadProcess;
    ghost var listing := ListingExists(MetricFiles(dir.entries), le);
    ghost var first := Snapshot(MetricFiles(dir.entries), listing, dir.cursor);
    ghost var states, turns := [first], [];
    for i := 0 to passes
      invariant |turns| == i && |states| == i + 1 && states[0] == first
      invariant Shows(states[i], MetricFiles(dir.entries), dir.cursor, le)
      invariant forall n <- dir.entries :: n in old(dir.entries) && dir.entries[n] == old(dir.entries)[n]
      invariant forall n <- old(dir.entries) :: n !in dir.entries ==> old(dir.entries)[n] == Regular && OfDeadProcess(n, env)
      invariant forall k | 0 <= k < i :: Next(states[k], states[k + 1], turns[k], m, env, le)
    {
      ghost var t, visited;
      var deleted;
      deleted, t, visited := OnePass(dir, m, deleteLimit, m, env, le, m, states[i]);
      states, turns := states + [t], turns + [visited];
    }
    FirstSnapshot(first, env, le);
    EventuallyCollected(states, turns, m, env, le);
    NoneOfDeadProcesses(dir.entries, old(MetricFiles(dir.entries)), env);
  }

  /** Without files that are due there are none of dead processes. */
  lemma NoneOfDeadProcesses(entries: map<Name, Kind>, before: set<Name>, env: Env)
    requires MetricFiles(entries) == before - set n | n in before && Goes(n, env)
    ensures forall n <- entries :: entries[n] == Regular ==> !OfDeadProcess(n, env)
  {
    hide Goes, IsDbName, OfDeadProcess, MetricFiles;
    DeadFilesListed(entries, env);
    forall n | n in MetricFiles(entries)
      ensures !OfDeadProcess(n, env)
    {
      GoesMeaning(n, env);
    }
  }

  lemma FirstSnapshot(s: Snapshot, env: Env, le: (Name, Name) -> bool)
    requires IsListing(s.files, s.names, le)
    requires (forall n <- s.names :: Plain(n)) || (s.cursor == None && FrontPlain(s.names, env, le))
    ensures Steady(s, env, le) && |s.files| == |s.names|
  {
    hide SortedBy, Plain, Goes;
    ListingSize(s.files, s.names);
  }
}
