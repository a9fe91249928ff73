/** Small facts about sequences, named so that proofs can call for exactly the one they need. */
module SeqFacts {

  lemma Assoc<T>(a: seq<T>, b: seq<T>, c: seq<T>)
    ensures a + (b + c) == (a + b) + c
  {
  }

  lemma ConsConcat<T>(a: seq<T>, c: seq<T>)
    requires a != []
    ensures a + c != [] && (a + c)[0] == a[0] && (a + c)[1..] == a[1..] + c
  {
  }

  lemma HeadTail<T>(a: seq<T>)
    requires a != []
    ensures a == [a[0]] + a[1..]
  {
  }

  lemma Snoc<T>(a: seq<T>, i: nat)
    requires i < |a|
    ensures a[..i + 1] == a[..i] + [a[i]]
  {
  }

  /** A sequence cut in front of and behind position `i`. */
  lemma Cut<T>(a: seq<T>, i: nat)
    requires i < |a|
    ensures a == a[..i + 1] + a[i + 1..] && a[..i + 1] == a[..i] + [a[i]]
  {
  }

  lemma Concat3<T>(a: seq<T>, b: seq<T>, c: seq<T>)
    ensures (a + b + c)[..|a|] == a
    ensures (a + b + c)[|a|..|a| + |b|] == b
    ensures (a + b + c)[|a| + |b|..] == c
    ensures (a + b + c)[|a|..] == b + c
  {
  }

  lemma SplitAt<T>(s: seq<T>, i: nat)
    requires i <= |s|
    ensures s == s[..i] + s[i..]
  {
  }

  lemma SplitRange<T>(s: seq<T>, lo: nat, mid: nat, hi: nat)
    requires lo <= mid <= hi <= |s|
    ensures s[lo..hi] == s[lo..mid] + s[mid..hi]
  {
  }

  lemma SliceOfSlice<T>(s: seq<T>, lo: nat, hi: nat, i: nat, j: nat)
    requires lo <= hi <= |s| && i <= j <= hi - lo
    ensures s[lo..hi][i..j] == s[lo + i..lo + j]
  {
    var t := s[lo..hi];
    assert |t[i..j]| == |s[lo + i..lo + j]|;
    forall k | 0 <= k < j - i
      ensures t[i..j][k] == s[lo + i..lo + j][k]
    {
      assert t[i..j][k] == t[i + k] == s[lo + (i + k)];
    }
  }

  /** Equal prefixes have equal slices. */
  lemma PrefixSlice<T>(a: seq<T>, b: seq<T>, n: nat, lo: nat, hi: nat)
    requires lo <= hi <= n <= |a| && n <= |b| && a[..n] == b[..n]
    ensures a[lo..hi] == b[lo..hi]
  {
    assert a[lo..hi] == a[..n][lo..hi] && b[lo..hi] == b[..n][lo..hi];
  }

  lemma MultisetConcat<T>(a: seq<T>, b: seq<T>)
    ensures multiset(a + b) == multiset(a) + multiset(b)
  {
  }

  function RemoveAt<T>(s: seq<T>, i: nat): seq<T>
    requires i < |s|
  {
    s[..i] + s[i + 1..]
  }

  lemma RemoveAtMultiset<T>(s: seq<T>, i: nat)
    requires i < |s|
    ensures multiset(RemoveAt(s, i)) == multiset(s) - multiset{s[i]}
    ensures multiset(s) == multiset(RemoveAt(s, i)) + multiset{s[i]}
  {
    Cut(s, i);
    MultisetConcat(s[..i + 1], s[i + 1..]);
    MultisetConcat(s[..i], [s[i]]);
    MultisetConcat(s[..i], s[i + 1..]);
  }

  lemma SameMultisetSameMembers<T>(a: seq<T>, b: seq<T>)
    requires multiset(a) == multiset(b)
    ensures |a| == |b|
    ensures forall x :: x in a <==> x in b
  {
    assert |multiset(a)| == |a| && |multiset(b)| == |b|;
    assert forall x :: x in a <==> x in multiset(a);
    assert forall x :: x in b <==> x in multiset(b);
  }

  /** Two elements taken out of a sequence. */
  lemma WithoutTwo<T>(s: seq<T>, a: T, b: T) returns (rest: seq<T>)
    requires a in s && b in s && a != b
    ensures multiset(s) == multiset(rest) + multiset{b} + multiset{a}
  {
    var i :| 0 <= i < |s| && s[i] == a;
    var once := RemoveAt(s, i);
    RemoveAtMultiset(s, i);
    assert b in multiset(once);
    var j :| 0 <= j < |once| && once[j] == b;
    rest := RemoveAt(once, j);
    RemoveAtMultiset(once, j);
  }

  lemma TwoInFront<T>(a: T, b: T, rest: seq<T>)
    ensures multiset([a] + ([b] + rest)) == multiset(rest) + multiset{b} + multiset{a}
  {
    MultisetConcat([a], [b] + rest);
    MultisetConcat([b], rest);
  }

  lemma TwoBehind<T>(rest: seq<T>, a: T, b: T)
    ensures multiset((rest + [a]) + [b]) == multiset(rest) + multiset{b} + multiset{a}
  {
    MultisetConcat(rest + [a], [b]);
    MultisetConcat(rest, [a]);
  }

  predicate NoDuplicates<T(==)>(s: seq<T>) {
    forall i, j | 0 <= i < j < |s| :: s[i] != s[j]
  }

  lemma {:induction false} CountOnce<T>(s: seq<T>, x: T)
    requires NoDuplicates(s)
    ensures multiset(s)[x] == if x in s then 1 else 0
  {
    if s != [] {
      var n := |s| - 1;
      CountOnce(s[..n], x);
      assert s == s[..n] + [s[n]];
    }
  }

  /** Two listings of the same things without repetition are permutations of each other. */
  lemma SameMembersSameMultiset<T>(a: seq<T>, b: seq<T>)
    requires NoDuplicates(a) && NoDuplicates(b)
    requires forall x :: x in a <==> x in b
    ensures multiset(a) == multiset(b)
  {
    forall x: T
      ensures multiset(a)[x] == multiset(b)[x]
    {
      CountOnce(a, x);
      CountOnce(b, x);
    }
  }

  lemma SameMultisetNoDuplicates<T>(a: seq<T>, b: seq<T>)
    requires NoDuplicates(a) && multiset(a) == multiset(b)
    ensures NoDuplicates(b)
  {
    forall i, j | 0 <= i < j < |b|
      ensures b[i] != b[j]
    {
      CountOnce(a, b[i]);
      RemoveAtMultiset(b, i);
      assert RemoveAt(b, i)[j - 1] == b[j];
      assert b[j] in multiset(RemoveAt(b, i));
    }
  }
}
