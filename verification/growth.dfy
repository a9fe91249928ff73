/** How a metric file grows: doubling to the needed length, then up to a page boundary. */
module Growth {
  import opened Bytes

  /** `page_aligned_size`. */
  function PageAligned(min: nat, pageSize: nat): (r: Result<nat>)
    requires pageSize > 0
    ensures r.Ok? ==> min <= r.value < min + pageSize && r.value % pageSize == 0
    ensures min + pageSize <= USIZE_LIMIT ==> r.Ok?
    ensures r.Ok? ==> min < USIZE_LIMIT
  {
    var rem := min % pageSize;
    if rem == 0 then
      if min < USIZE_LIMIT then Ok(min) else Err(Overflow)
    else
      assert (min + (pageSize - rem)) % pageSize == 0 by { RoundUp(min, pageSize); }
      CheckedAdd(min, pageSize - rem)
  }

  lemma RoundUp(min: nat, pageSize: nat)
    requires pageSize > 0
    ensures (min + (pageSize - min % pageSize)) % pageSize == 0
  {
    var q := min / pageSize;
    assert min == q * pageSize + min % pageSize;
    assert min + (pageSize - min % pageSize) == (q + 1) * pageSize;
    MultipleMod(q + 1, pageSize);
  }

  lemma MultipleMod(q: nat, m: nat)
    requires m > 0
    ensures q * m % m == 0
  {
    var d, r := q * m / m, q * m % m;
    assert (q - d) * m == r;
    if q > d {
      AtLeast(q - d, m);
    } else if q < d {
      AtLeast(d - q, m);
    }
  }

  lemma AtLeast(k: nat, m: nat)
    requires k > 0
    ensures k * m >= m
  {
  }

  /** The doubling loop of `ensure_capacity`. */
  function Doubled(len: nat, needed: nat): (r: nat)
    requires len > 0
    decreases needed - len
  {
    if len >= needed then len else Doubled(2 * len, needed)
  }

  lemma {:induction false} DoubledBounds(len: nat, needed: nat)
    requires 0 < len < needed
    ensures needed <= Doubled(len, needed) < 2 * needed && 2 * len <= Doubled(len, needed)
    decreases needed - len
  {
    if 2 * len < needed {
      DoubledBounds(2 * len, needed);
    }
  }

  function Pow2(n: nat): (r: nat)
    ensures r > 0
  {
    if n == 0 then 1 else 2 * Pow2(n - 1)
  }

  /** `k` doublings are the fewest that reach `needed`. */
  predicate FewestDoublings(len: nat, needed: nat, k: nat) {
    needed <= len * Pow2(k) && (k > 0 ==> len * Pow2(k - 1) < needed)
  }

  /** Exactly where doubling ends. */
  lemma {:induction false} DoubledExactly(len: nat, needed: nat) returns (k: nat)
    requires len > 0
    ensures Doubled(len, needed) == len * Pow2(k) && FewestDoublings(len, needed, k)
    decreases needed - len
  {
    if len >= needed {
      k := 0;
    } else {
      var j := DoubledExactly(2 * len, needed);
      k := j + 1;
      Regroup(len, Pow2(j));
      if j > 0 {
        Regroup(len, Pow2(j - 1));
      }
    }
  }

  lemma Regroup(len: nat, p: nat)
    ensures 2 * len * p == len * (2 * p)
  {
  }

  /** There is one such number of doublings. */
  lemma FewestIsOne(len: nat, needed: nat, k: nat, j: nat)
    requires len > 0 && FewestDoublings(len, needed, k) && FewestDoublings(len, needed, j)
    ensures k == j
  {
    if k < j {
      Pow2Grows(k, j - 1);
      Larger(len, Pow2(k), Pow2(j - 1));
    } else if j < k {
      Pow2Grows(j, k - 1);
      Larger(len, Pow2(j), Pow2(k - 1));
    }
  }

  lemma {:induction false} Pow2Grows(a: nat, b: nat)
    requires a <= b
    ensures Pow2(a) <= Pow2(b)
  {
    if a < b {
      Pow2Grows(a, b - 1);
    }
  }

  lemma Larger(len: nat, p: nat, q: nat)
    requires p <= q
    ensures len * p <= len * q
  {
  }

  lemma {:induction false} DoubledAtLeast(len: nat, needed: nat)
    requires len > 0
    ensures len <= Doubled(len, needed)
    decreases needed - len
  {
    if len < needed {
      DoubledAtLeast(2 * len, needed);
    }
  }

  /** A file of length `len` that has to hold more has grown to `grown`: by the fewest doublings, then up to
      a page boundary. */
  ghost predicate GrownTo(len: nat, needed: nat, pageSize: nat, grown: nat) {
    && pageSize > 0 && grown % pageSize == 0
    && exists k: nat :: FewestDoublings(len, needed, k) && len * Pow2(k) <= grown < len * Pow2(k) + pageSize
  }

  lemma GrownExactly(len: nat, needed: nat, pageSize: nat)
    requires len > 0 && pageSize > 0 && Growable(len, needed, pageSize)
    ensures GrownTo(len, needed, pageSize, GrownLen(len, needed, pageSize))
  {
    hide Doubled;
    var k := DoubledExactly(len, needed);
  }

  /** Doubling and aligning stay within the machine's lengths. */
  predicate Growable(len: nat, needed: nat, pageSize: nat)
    requires len > 0 && pageSize > 0
  {
    PageAligned(Doubled(len, needed), pageSize).Ok?
  }

  /** Lengths that 32-bit fields can ask for are always within reach. */
  lemma RoomToGrow(len: nat, needed: nat, pageSize: nat)
    requires 0 < len < needed <= 0x10_0000_0000 && 0 < pageSize <= U32_MAX
    ensures Growable(len, needed, pageSize)
  {
    DoubledBounds(len, needed);
  }

  /** The length a file of length `len` has after growing to hold `needed` bytes. */
  function GrownLen(len: nat, needed: nat, pageSize: nat): nat
    requires len > 0 && pageSize > 0
    requires Growable(len, needed, pageSize)
  {
    PageAligned(Doubled(len, needed), pageSize).value
  }

  // ----- whole runs -----

  /** The file length and the `used` boundary after one successful publication. */
  datatype Size = Size(len: nat, used: nat)

  predicate Publication(a: Size, b: Size, pageSize: nat)
    requires pageSize > 0
  {
    && 0 < a.len && a.used <= a.len
    && a.used <= b.used <= U32_MAX
    && if b.used <= a.len then b.len == a.len
       else Growable(a.len, b.used, pageSize) && b.len == GrownLen(a.len, b.used, pageSize)
  }

  ghost predicate Run(sizes: seq<Size>, pageSize: nat)
    requires pageSize > 0
  {
    sizes != [] && forall i | 0 < i < |sizes| :: Publication(sizes[i - 1], sizes[i], pageSize)
  }

  function Growths(sizes: seq<Size>): nat
    requires sizes != []
  {
    if |sizes| == 1 then 0
    else Growths(sizes[..|sizes| - 1]) + if sizes[|sizes| - 2].len < sizes[|sizes| - 1].used then 1 else 0
  }

  /** Growing is amortised: after `r` growths the file is at least 2^r times as long as at first, and
      once it has grown it is never longer than twice the published bytes plus one page. */
  lemma {:induction false} GrowthOverRuns(sizes: seq<Size>, pageSize: nat)
    requires pageSize > 0 && Run(sizes, pageSize)
    ensures Pow2(Growths(sizes)) * sizes[0].len <= sizes[|sizes| - 1].len
    ensures Growths(sizes) > 0 ==> sizes[|sizes| - 1].len < 2 * sizes[|sizes| - 1].used + pageSize
    ensures Growths(sizes) == 0 ==> sizes[|sizes| - 1].len == sizes[0].len
  {
    if |sizes| > 1 {
      var front := sizes[..|sizes| - 1];
      var a, b := sizes[|sizes| - 2], sizes[|sizes| - 1];
      GrowthOverRuns(front, pageSize);
      assert Publication(a, b, pageSize) && front[|front| - 1] == a;
      if a.len < b.used {
        DoubledBounds(a.len, b.used);
        Twice(Pow2(Growths(front)), sizes[0].len, a.len);
      }
    }
  }

  lemma Twice(p: nat, x: nat, y: nat)
    requires p * x <= y
    ensures 2 * p * x <= 2 * y
  {
  }
}
