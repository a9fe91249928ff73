/** Lexicographic order on strings and a stable sort, for the places where the source sorts. */
module Ordering {
  import opened SeqFacts

  datatype Cmp = Less | Equal | Greater

  function CompareStrings(a: string, b: string): Cmp {
    if a == "" then (if b == "" then Equal else Less)
    else if b == "" then Greater
    else if a[0] < b[0] then Less
    else if a[0] > b[0] then Greater
    else CompareStrings(a[1..], b[1..])
  }

  lemma {:induction false} CompareEqual(a: string, b: string)
    ensures CompareStrings(a, b) == Equal <==> a == b
  {
    if a != "" && b != "" {
      CompareEqual(a[1..], b[1..]);
      HeadTail(a);
      HeadTail(b);
    }
  }

  lemma {:induction false} CompareFlips(a: string, b: string)
    ensures CompareStrings(a, b) == Less <==> CompareStrings(b, a) == Greater
  {
    if a != "" && b != "" {
      CompareFlips(a[1..], b[1..]);
    }
  }

  lemma {:induction false} CompareTransitive(a: string, b: string, c: string)
    requires CompareStrings(a, b) != Greater && CompareStrings(b, c) != Greater
    ensures CompareStrings(a, c) != Greater
    ensures CompareStrings(a, b) == Less || CompareStrings(b, c) == Less ==> CompareStrings(a, c) == Less
  {
    if a != "" && b != "" && c != "" && a[0] == b[0] && b[0] == c[0] {
      CompareTransitive(a[1..], b[1..], c[1..]);
    }
  }

  /** `a` stands in front of `b` in a dictionary: they agree up to a place where `a` ends or has the
      smaller character. */
  predicate Before(a: string, b: string) {
    exists i | 0 <= i <= |a| :: i < |b| && a[..i] == b[..i] && (i == |a| || a[i] < b[i])
  }

  lemma BeforeTail(a: string, b: string)
    requires a != "" && b != "" && a[0] == b[0] && Before(a, b)
    ensures Before(a[1..], b[1..])
  {
    var i :| 0 <= i <= |a| && i < |b| && a[..i] == b[..i] && (i == |a| || a[i] < b[i]);
    assert a[1..][..i - 1] == a[..i][1..] && b[1..][..i - 1] == b[..i][1..];
  }

  lemma BeforeHead(a: string, b: string)
    requires a != "" && b != "" && a[0] == b[0] && Before(a[1..], b[1..])
    ensures Before(a, b)
  {
    var c, d := a[1..], b[1..];
    var i :| 0 <= i <= |c| && i < |d| && c[..i] == d[..i] && (i == |c| || c[i] < d[i]);
    assert a[..i + 1] == [a[0]] + c[..i] && b[..i + 1] == [b[0]] + d[..i];
  }

  lemma BeforeAtOnce(a: string, b: string)
    requires a != "" && b != "" && a[0] != b[0]
    ensures Before(a, b) <==> a[0] < b[0]
  {
    if a[0] < b[0] {
      assert a[..0] == b[..0];
    }
    forall i | 0 < i <= |a| && i < |b|
      ensures a[..i] != b[..i]
    {
      assert a[..i][0] == a[0] && b[..i][0] == b[0];
    }
  }

  lemma {:induction false} CompareBefore(a: string, b: string)
    ensures CompareStrings(a, b) == Less <==> Before(a, b)
  {
    if a == "" {
      assert b != "" ==> a[..0] == b[..0];
    } else if b != "" {
      hide Before;
      if a[0] == b[0] {
        CompareBefore(a[1..], b[1..]);
        if Before(a, b) {
          BeforeTail(a, b);
        } else if Before(a[1..], b[1..]) {
          BeforeHead(a, b);
        }
      } else {
        BeforeAtOnce(a, b);
      }
    }
  }

  /** The comparison is dictionary order. */
  lemma CompareMeaning(a: string, b: string)
    ensures match CompareStrings(a, b)
            case Less => Before(a, b) && !Before(b, a) && a != b
            case Equal => a == b && !Before(a, b) && !Before(b, a)
            case Greater => Before(b, a) && !Before(a, b) && a != b
  {
    hide Before;
    CompareBefore(a, b);
    CompareBefore(b, a);
    CompareEqual(a, b);
    CompareFlips(a, b);
    CompareFlips(b, a);
  }

  // ----- sorting -----

  /** `le` orders the elements of `s` totally. */
  ghost predicate TotalOn<T(!new)>(le: (T, T) -> bool) {
    && (forall a, b :: le(a, b) || le(b, a))
    && (forall a, b, c :: le(a, b) && le(b, c) ==> le(a, c))
  }

  predicate SortedBy<T>(le: (T, T) -> bool, s: seq<T>) {
    forall i, j | 0 <= i < j < |s| :: le(s[i], s[j])
  }

  /** Inserts `x` in front of the first element that is not below it, so equal elements keep their order. */
  function Insert<T>(le: (T, T) -> bool, x: T, s: seq<T>): (r: seq<T>)
    ensures |r| == |s| + 1
  {
    if s == [] then [x]
    else if le(x, s[0]) then [x] + s
    else [s[0]] + Insert(le, x, s[1..])
  }

  function Sort<T>(le: (T, T) -> bool, s: seq<T>): (r: seq<T>)
    ensures |r| == |s|
  {
    if s == [] then [] else Insert(le, s[0], Sort(le, s[1..]))
  }

  lemma SortFrontTwo<T>(le: (T, T) -> bool, a: T, b: T, rest: seq<T>)
    ensures Sort(le, [a] + ([b] + rest)) == Insert(le, a, Insert(le, b, Sort(le, rest)))
  {
    hide Insert;
    var two, all := [b] + rest, [a] + ([b] + rest);
    assert all[1..] == two && two[1..] == rest;
    assert Sort(le, two) == Insert(le, b, Sort(le, rest));
  }

  lemma {:induction false} InsertMultiset<T>(le: (T, T) -> bool, x: T, s: seq<T>)
    ensures multiset(Insert(le, x, s)) == multiset(s) + multiset{x}
  {
    if s == [] {
    } else if le(x, s[0]) {
      MultisetConcat([x], s);
    } else {
      InsertMultiset(le, x, s[1..]);
      HeadTail(s);
      MultisetConcat([s[0]], s[1..]);
      MultisetConcat([s[0]], Insert(le, x, s[1..]));
    }
  }

  lemma {:induction false} SortMultiset<T>(le: (T, T) -> bool, s: seq<T>)
    ensures multiset(Sort(le, s)) == multiset(s)
  {
    if s != [] {
      SortMultiset(le, s[1..]);
      InsertMultiset(le, s[0], Sort(le, s[1..]));
      HeadTail(s);
      MultisetConcat([s[0]], s[1..]);
    }
  }

  lemma {:induction false} InsertSorted<T(!new)>(le: (T, T) -> bool, x: T, s: seq<T>)
    requires TotalOn(le) && SortedBy(le, s)
    ensures SortedBy(le, Insert(le, x, s))
  {
    if s != [] && !le(x, s[0]) {
      var rest := Insert(le, x, s[1..]);
      InsertSorted(le, x, s[1..]);
      InsertMultiset(le, x, s[1..]);
      forall j | 0 <= j < |rest|
        ensures le(s[0], rest[j])
      {
        assert rest[j] in multiset(rest);
        if rest[j] != x {
          assert rest[j] in s[1..];
        }
      }
    }
  }

  lemma {:induction false} SortSorted<T(!new)>(le: (T, T) -> bool, s: seq<T>)
    requires TotalOn(le)
    ensures SortedBy(le, Sort(le, s))
  {
    if s != [] {
      SortSorted(le, s[1..]);
      InsertSorted(le, s[0], Sort(le, s[1..]));
    }
  }

  /** What is sorted stays as it is. */
  lemma {:induction false} SortFixed<T>(le: (T, T) -> bool, s: seq<T>)
    requires SortedBy(le, s)
    ensures Sort(le, s) == s
  {
    if s != [] {
      SortFixed(le, s[1..]);
      HeadTail(s);
    }
  }

  /** Different elements are never equivalent. */
  predicate Antisymmetric<T(==)>(le: (T, T) -> bool, s: seq<T>) {
    forall x <- s, y <- s :: le(x, y) && le(y, x) ==> x == y
  }

  lemma SortedTail<T>(le: (T, T) -> bool, s: seq<T>)
    requires s != [] && SortedBy(le, s) && Antisymmetric(le, s)
    ensures SortedBy(le, s[1..]) && Antisymmetric(le, s[1..])
  {
  }

  lemma SameFirst<T(!new)>(le: (T, T) -> bool, a: seq<T>, b: seq<T>)
    requires TotalOn(le) && SortedBy(le, a) && SortedBy(le, b) && Antisymmetric(le, a) && a != [] && b != []
    requires forall x :: x in a <==> x in b
    ensures a[0] == b[0]
  {
    hide TotalOn, SortedBy;
    assert a[0] in b && b[0] in a;
    FirstIsLeast(le, a, b[0]);
    FirstIsLeast(le, b, a[0]);
  }

  /** Then there is only one sorted arrangement. */
  lemma {:induction false} SortedUnique<T(!new)>(le: (T, T) -> bool, a: seq<T>, b: seq<T>)
    requires TotalOn(le) && SortedBy(le, a) && SortedBy(le, b) && multiset(a) == multiset(b) && Antisymmetric(le, a)
    ensures a == b
  {
    hide TotalOn, SortedBy, Antisymmetric;
    SameMultisetSameMembers(a, b);
    if a != [] {
      SameFirst(le, a, b);
      RemoveAtMultiset(a, 0);
      RemoveAtMultiset(b, 0);
      assert RemoveAt(a, 0) == a[1..] && RemoveAt(b, 0) == b[1..];
      SortedTail(le, a);
      assert Antisymmetric(le, b) by { SameAntisymmetric(le, a, b); }
      SortedTail(le, b);
      SortedUnique(le, a[1..], b[1..]);
      HeadTail(a);
      HeadTail(b);
    }
  }

  lemma SameAntisymmetric<T>(le: (T, T) -> bool, a: seq<T>, b: seq<T>)
    requires Antisymmetric(le, a) && forall x :: x in a <==> x in b
    ensures Antisymmetric(le, b)
  {
  }

  lemma FirstIsLeast<T(!new)>(le: (T, T) -> bool, s: seq<T>, x: T)
    requires TotalOn(le) && SortedBy(le, s) && x in s
    ensures le(s[0], x)
  {
    var i :| 0 <= i < |s| && s[i] == x;
    assert le(s[0], s[0]);
  }

  /** So sorting any two arrangements of the same elements gives the same result. */
  lemma SortCanonical<T(!new)>(le: (T, T) -> bool, a: seq<T>, b: seq<T>)
    requires TotalOn(le) && multiset(a) == multiset(b)
    requires Antisymmetric(le, a)
    ensures Sort(le, a) == Sort(le, b)
  {
    hide TotalOn, SortedBy, Antisymmetric;
    SortMultiset(le, a);
    SortMultiset(le, b);
    SortSorted(le, a);
    SortSorted(le, b);
    SameMultisetSameMembers(a, Sort(le, a));
    SameAntisymmetric(le, a, Sort(le, a));
    SortedUnique(le, Sort(le, a), Sort(le, b));
  }
}
