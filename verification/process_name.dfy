/** Which process the collector takes a metric file to belong to (`extract_numeric_pid` in src/gc.rs), said
    by the decimal numeral in its name. */
module ProcessName {
  import opened Bytes
  import opened SeqFacts
  import opened FileName

  // ----- numbers in names -----

  function DigitChar(d: nat): (c: char)
    requires d < 10
    ensures IsDigit(c)
  {
    '0' + d as char
  }

  /** A number as `to_string` prints it. */
  function Decimal(n: nat): (s: string)
    ensures s != "" && AllDigits(s)
  {
    if n < 10 then [DigitChar(n)] else Decimal(n / 10) + [DigitChar(n % 10)]
  }

  lemma {:induction false} NumberDecimal(n: nat)
    ensures Number(Decimal(n)) == n
  {
    if n < 10 {
      assert [DigitChar(n)][..0] == "" && Number("") == 0;
    } else {
      NumberDecimal(n / 10);
      assert Decimal(n)[..|Decimal(n)| - 1] == Decimal(n / 10);
    }
  }

  /** `w` is the number `n` in decimal, zeros in front allowed. */
  predicate IsNumeral(w: string, n: nat) {
    exists k | 0 <= k <= |w| :: AllZero(w[..k]) && w[k..] == Decimal(n)
  }

  predicate AllZero(s: string) {
    forall i | 0 <= i < |s| :: s[i] == '0'
  }

  lemma {:induction false} NumberMeaning(w: string, n: nat)
    requires w != "" && AllDigits(w)
    ensures Number(w) == n <==> IsNumeral(w, n)
  {
    var zeros := NumberIsNumeral(w);
    if k: nat :| k <= |w| && AllZero(w[..k]) && w[k..] == Decimal(n) {
      ZerosInFront(w, k);
      NumberDecimal(n);
    }
  }

  lemma {:induction false} ZerosInFront(w: string, k: nat)
    requires k <= |w| && AllDigits(w) && AllZero(w[..k]) && AllDigits(w[k..])
    ensures Number(w) == Number(w[k..])
  {
    if k == |w| {
      assert w[..k] == w && w[k..] == "";
      ZerosOnly(w);
    } else {
      var front := w[..|w| - 1];
      assert front[..k] == w[..k] && front[k..] == w[k..][..|w| - k - 1];
      assert (forall c <- front :: c in w) && forall c <- front[k..] :: c in w;
      ZerosInFront(front, k);
      assert w[k..][|w| - k - 1] == w[|w| - 1];
    }
  }

  lemma {:induction false} ZerosOnly(w: string)
    requires AllDigits(w) && AllZero(w)
    ensures Number(w) == 0
  {
    if w != "" {
      assert w[|w| - 1] in w && forall c <- w[..|w| - 1] :: c in w;
      ZerosOnly(w[..|w| - 1]);
    }
  }

  lemma DecimalSnoc(q: nat, c: char)
    requires IsDigit(c)
    ensures Decimal(10 * q + (c as int - '0' as int)) == (if q == 0 then "" else Decimal(q)) + [c]
  {
    var d := c as int - '0' as int;
    assert (10 * q + d) / 10 == q && (10 * q + d) % 10 == d;
    assert DigitChar(d) == c;
  }

  lemma NumberLast(w: string)
    requires w != "" && AllDigits(w)
    ensures var front, last := w[..|w| - 1], w[|w| - 1];
            AllDigits(front) && IsDigit(last) && Number(w) == 10 * Number(front) + (last as int - '0' as int)
  {
    assert w[|w| - 1] in w && forall c <- w[..|w| - 1] :: c in w;
  }

  /** The zeros in front of a numeral. */
  lemma {:induction false} NumberIsNumeral(w: string) returns (k: nat)
    requires w != "" && AllDigits(w)
    ensures k <= |w| && AllZero(w[..k]) && w[k..] == Decimal(Number(w))
  {
    hide Decimal, Number, AllDigits, IsDigit;
    var n := |w| - 1;
    var front := w[..n];
    NumberLast(w);
    DecimalSnoc(Number(front), w[n]);
    if Number(front) == 0 {
      ZeroIsZeros(front);
      k := n;
      assert w[n..] == "" + [w[n]];
    } else {
      NoNumber();
      k := NumberIsNumeral(front);
      assert w[..k] == front[..k] && w[k..] == front[k..] + [w[n]];
    }
  }

  lemma NoNumber()
    ensures AllDigits("") && Number("") == 0
  {
  }

  lemma {:induction false} ZeroIsZeros(w: string)
    requires AllDigits(w) && Number(w) == 0
    ensures AllZero(w)
  {
    if w != "" {
      assert w[|w| - 1] in w && forall c <- w[..|w| - 1] :: c in w;
      ZeroIsZeros(w[..|w| - 1]);
      assert w == w[..|w| - 1] + [w[|w| - 1]];
    }
  }

  // ----- what the collector takes for a process -----

  /** What stands in front of the process in a file name. */
  ghost predicate IsPrefix(prefix: string) {
    || prefix == "counter_" || prefix == "histogram_" || prefix == "summary_"
    || exists mode: string :: '_' !in mode && prefix == "gauge_" + mode + "_"
  }

  predicate IsSuffix(suffix: string) {
    suffix == "" || (|suffix| > 1 && suffix[0] == '-' && AllDigits(suffix[1..]))
  }

  /** A file name made of a type, for a gauge also a mode, and a number, perhaps with a suffix. */
  ghost predicate NamesProcess(name: string, n: nat) {
    exists prefix: string, w: string, suffix: string ::
      IsPrefix(prefix) && IsSuffix(suffix) && IsNumeral(w, n) && name == prefix + (w + suffix) + ".db"
  }

  lemma PidPartOf(prefix: string, rest: string)
    requires IsPrefix(prefix)
    ensures PidPart(prefix + rest) == Some(rest)
  {
    hide Split, Join;
    JoinSplit(rest, '_');
    if mode: string :| '_' !in mode && prefix == "gauge_" + mode + "_" {
      SplitAtSep(mode, '_', rest);
      SplitAtSep("gauge", '_', mode + "_" + rest);
      GaugePrefix(mode, rest);
      assert (["gauge"] + ([mode] + Split(rest, '_')))[2..] == Split(rest, '_');
    } else {
      var kind := prefix[..|prefix| - 1];
      assert prefix == kind + "_" && (kind == "counter" || kind == "histogram" || kind == "summary");
      SplitAtSep(kind, '_', rest);
      assert ([kind] + Split(rest, '_'))[1..] == Split(rest, '_');
    }
  }

  lemma SplitMore(s: string, sep: char)
    requires |Split(s, sep)| > 1
    ensures var head := Split(s, sep)[0];
            && sep !in head && |head| < |s| && s == head + [sep] + s[|head| + 1..]
            && Split(s, sep)[1..] == Split(s[|head| + 1..], sep)
            && Join(Split(s, sep)[1..], sep) == s[|head| + 1..]
  {
    hide Split, Join;
    if sep !in s {
      SplitNone(s, sep);
    } else {
      SplitFirst(s, sep);
      JoinSplit(s[|Split(s, sep)[0]| + 1..], sep);
    }
  }

  lemma GaugePrefix(mode: string, rest: string)
    requires '_' !in mode
    ensures IsPrefix("gauge_" + mode + "_") && "gauge_" + mode + "_" + rest == "gauge" + "_" + (mode + "_" + rest)
  {
    assert "gauge_" == "gauge" + "_";
    Assoc("gauge_", mode + "_", rest);
    Assoc("gauge_", mode, "_");
    Assoc("gauge", "_", mode + "_" + rest);
  }

  lemma PlainPrefix(kind: string)
    requires kind == "counter" || kind == "histogram" || kind == "summary"
    ensures IsPrefix(kind + "_")
  {
  }

  lemma PidPartPrefix(stem: string) returns (prefix: string)
    requires PidPart(stem).Some?
    ensures IsPrefix(prefix) && stem == prefix + PidPart(stem).value
  {
    hide Split, Join, IsPrefix;
    var parts := Split(stem, '_');
    SplitMore(stem, '_');
    var rest := stem[|parts[0]| + 1..];
    if parts[0] == "gauge" {
      SplitMore(rest, '_');
      assert parts[2..] == parts[1..][1..];
      GaugePrefix(parts[1], rest[|parts[1]| + 1..]);
      prefix := "gauge_" + parts[1] + "_";
    } else {
      PlainPrefix(parts[0]);
      prefix := parts[0] + "_";
    }
  }

  lemma SuffixOf(part: string)
    ensures exists suffix: string :: IsSuffix(suffix) && part == Stripped(part) + suffix
  {
    hide AllDigits;
    if HasNumber(part) {
      var suffix := part[DigitStart(part) - 1..];
      assert suffix[1..] == part[DigitStart(part)..];
      assert IsSuffix(suffix) && part == Stripped(part) + suffix;
    } else {
      assert IsSuffix("") && part == part + "";
    }
  }

  lemma SuffixStrips(w: string, suffix: string)
    requires w != "" && AllDigits(w) && IsSuffix(suffix)
    ensures Stripped(w + suffix) == w
  {
    if suffix == "" {
      DigitsOnly(w);
      assert w + "" == w;
    } else {
      StrippedMeaning(w + suffix);
      assert w + suffix == w + "-" + suffix[1..];
    }
  }

  lemma {:induction false} DigitsOnly(w: string)
    requires AllDigits(w)
    ensures DigitStart(w) == 0
  {
    if w != "" {
      assert w[|w| - 1] in w && forall c <- w[..|w| - 1] :: c in w;
      DigitsOnly(w[..|w| - 1]);
    }
  }

  lemma NumeralDigits(w: string, n: nat)
    requires IsNumeral(w, n)
    ensures w != "" && AllDigits(w)
  {
    var k: nat :| k <= |w| && AllZero(w[..k]) && w[k..] == Decimal(n);
    assert w == w[..k] + w[k..];
  }

  /** Exactly which process the collector takes a file to belong to: names made of a type and a decimal
      number that a positive `i32` can hold belong to that process, and no others belong to any. */
  lemma ProcessMeaning(name: string, n: nat)
    ensures ExtractNumericPid(name) == Some(n) <==> 0 < n < 0x8000_0000 && NamesProcess(name, n)
  {
    hide PidPart, Stripped, Number, IsPrefix, IsSuffix, IsNumeral, AllDigits;
    if ExtractNumericPid(name) == Some(n) {
      ProcessNamed(name, n);
    }
    if 0 < n <= I32_MAX && NamesProcess(name, n) {
      var prefix: string, w: string, suffix: string :|
        IsPrefix(prefix) && IsSuffix(suffix) && IsNumeral(w, n) && name == prefix + (w + suffix) + ".db";
      NamedProcess(prefix, w, suffix, n);
    }
  }

  lemma ProcessNamed(name: string, n: nat)
    requires ExtractNumericPid(name) == Some(n)
    ensures NamesProcess(name, n)
  {
    hide PidPart, Stripped, Number, IsPrefix, IsSuffix, IsNumeral, AllDigits;
    var stem := name[..|name| - 3];
    var part := PidPart(stem).value;
    var w := Stripped(part);
    var prefix := PidPartPrefix(stem);
    SuffixOf(part);
    var suffix: string :| IsSuffix(suffix) && part == w + suffix;
    NumberMeaning(w, n);
    assert name == stem + ".db";
  }

  lemma NamedProcess(prefix: string, w: string, suffix: string, n: nat)
    requires IsPrefix(prefix) && IsSuffix(suffix) && IsNumeral(w, n) && 0 < n <= I32_MAX
    ensures ExtractNumericPid(prefix + (w + suffix) + ".db") == Some(n)
  {
    hide PidPart, Stripped, Number, IsPrefix, IsSuffix, IsNumeral, AllDigits;
    var name := prefix + (w + suffix) + ".db";
    assert name[..|name| - 3] == prefix + (w + suffix) && name[|name| - 3..] == ".db";
    PidPartOf(prefix, w + suffix);
    NumeralDigits(w, n);
    SuffixStrips(w, suffix);
    NumberMeaning(w, n);
  }

  /** So a process number printed into a name of any type is the process that the collector probes. */
  lemma ProcessOfName(prefix: string, n: nat)
    requires IsPrefix(prefix) && 0 < n <= I32_MAX
    ensures ExtractNumericPid(prefix + (Decimal(n) + "-0") + ".db") == Some(n)
    ensures ExtractNumericPid(prefix + Decimal(n) + ".db") == Some(n)
  {
    hide IsPrefix, ExtractNumericPid;
    var w := Decimal(n);
    assert w[..0] == "" && w[0..] == w;
    assert IsNumeral(w, n);
    assert "-0"[1..] == "0";
    NamedProcess(prefix, w, "-0", n);
    NamedProcess(prefix, w, "", n);
    assert w + "" == w;
  }
}
