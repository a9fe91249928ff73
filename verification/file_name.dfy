/** What metric file names mean: to the readers (`parse_file_params`) and to the collector
    (`extract_numeric_pid`).  Names are the last component of a path. */
module FileName {
  import opened Bytes
  import opened SeqFacts
  import opened Merge
  import opened Aggregate

  const I32_MAX: nat := 0x7FFF_FFFF

  /** `path.extension() == Some("db")`. */
  predicate IsDb(name: string) {
    |name| > 3 && name[|name| - 3..] == ".db"
  }

  function Stem(name: string): string
    requires IsDb(name)
  {
    name[..|name| - 3]
  }

  function Split(s: string, sep: char): (parts: seq<string>)
    ensures parts != []
  {
    if s == "" then [""] else
    var rest := Split(s[1..], sep);
    if s[0] == sep then [""] + rest else [[s[0]] + rest[0]] + rest[1..]
  }

  function Join(parts: seq<string>, sep: char): string {
    if parts == [] then ""
    else if |parts| == 1 then parts[0]
    else parts[0] + [sep] + Join(parts[1..], sep)
  }

  predicate IsDigit(c: char) {
    '0' <= c <= '9'
  }

  predicate AllDigits(s: string) {
    forall c <- s :: IsDigit(c)
  }

  /** Length of `s` without its trailing digits. */
  function DigitStart(s: string): (i: nat)
    ensures i <= |s| && AllDigits(s[i..]) && (i > 0 ==> !IsDigit(s[i - 1]))
  {
    if s == "" || !IsDigit(s[|s| - 1]) then |s| else
    var i := DigitStart(s[..|s| - 1]);
    assert s[i..] == s[..|s| - 1][i..] + [s[|s| - 1]];
    i
  }

  /** The part ends in a dash and digits. */
  predicate HasNumber(part: string) {
    var i := DigitStart(part);
    0 < i < |part| && part[i - 1] == '-'
  }

  function Stripped(part: string): string {
    if HasNumber(part) then part[..DigitStart(part) - 1] else part
  }

  lemma DigitStartStep(part: string, i: nat)
    requires i <= |part|
    ensures i > 0 && IsDigit(part[i - 1]) ==> DigitStart(part[..i]) == DigitStart(part[..i - 1])
    ensures i == 0 || !IsDigit(part[i - 1]) ==> DigitStart(part[..i]) == i
  {
    hide AllDigits;
    if i > 0 {
      assert part[..i][..i - 1] == part[..i - 1];
    }
  }

  /** `strip_file_suffix_number`: drops a final "-<digits>". */
  method StripFileSuffixNumber(part: string) returns (r: string)
    ensures r == Stripped(part)
  {
    hide DigitStart, AllDigits;
    var i := |part|;
    assert part[..|part|] == part;
    while i > 0 && IsDigit(part[i - 1])
      invariant 0 <= i <= |part|
      invariant DigitStart(part) == DigitStart(part[..i])
    {
      DigitStartStep(part, i);
      i := i - 1;
    }
    DigitStartStep(part, i);
    if 0 < i < |part| && part[i - 1] == '-' {
      return part[..i - 1];
    }
    r := part;
  }

  /** What dropping the suffix means, both ways. */
  lemma StrippedMeaning(part: string)
    ensures forall head: string, digits: string |
              part == head + "-" + digits && digits != "" && AllDigits(digits) :: Stripped(part) == head
    ensures Stripped(part) != part ==>
              exists digits: string :: digits != "" && AllDigits(digits) && part == Stripped(part) + "-" + digits
  {
    forall head: string, digits: string | part == head + "-" + digits && digits != "" && AllDigits(digits)
      ensures Stripped(part) == head
    {
      DigitStartAt(part, |head| + 1);
    }
    if Stripped(part) != part {
      var i := DigitStart(part);
      assert part == part[..i - 1] + "-" + part[i..];
    }
  }

  lemma {:induction false} DigitStartAt(s: string, i: nat)
    requires 0 < i <= |s| && AllDigits(s[i..]) && !IsDigit(s[i - 1])
    ensures DigitStart(s) == i
  {
    if i < |s| {
      assert s[|s| - 1] == s[i..][|s| - 1 - i];
      assert forall c <- s[..|s| - 1][i..] :: c in s[i..];
      DigitStartAt(s[..|s| - 1], i);
    }
  }

  function MetricTypeOf(prefix: string): Result<MetricType> {
    if prefix == "counter" then Ok(Counter)
    else if prefix == "gauge" then Ok(Gauge)
    else if prefix == "histogram" then Ok(Histogram)
    else if prefix == "summary" then Ok(Summary)
    else Err(Message)
  }

  function ModeOf(part: string): Result<MultiprocessMode> {
    if part == "min" then Ok(Min)
    else if part == "max" then Ok(Max)
    else if part == "livesum" then Ok(Livesum)
    else if part == "all" then Ok(All)
    else if part == "liveall" then Ok(Liveall)
    else Err(Message)
  }

  function StripAll(parts: seq<string>): (r: seq<string>)
    ensures |r| == |parts|
  {
    seq(|parts|, i requires 0 <= i < |parts| => Stripped(parts[i]))
  }

  /** `parse_file_params`. */
  function ParseFileParams(name: string): (r: Result<FileParams>)
    requires IsDb(name)
    ensures r.Ok? ==> r.value.path == name
  {
    var parts := StripAll(Split(Stem(name), '_'));
    var metricType := MetricTypeOf(parts[0]);
    if metricType.Err? then Err(metricType.error)
    else if metricType.value != Gauge then Ok(FileParams(name, metricType.value, All, ""))
    else if |parts| < 3 then Err(Message)
    else
      var mode := ModeOf(parts[1]);
      if mode.Err? then Err(mode.error)
      else Ok(FileParams(name, Gauge, mode.value, Join(parts[2..], '_')))
  }

  function Number(s: string): nat
    requires AllDigits(s)
  {
    if s == "" then 0 else
    assert s[|s| - 1] in s && forall c <- s[..|s| - 1] :: c in s;
    10 * Number(s[..|s| - 1]) + (s[|s| - 1] as int - '0' as int)
  }

  /** The part of a name that should be a process. */
  function PidPart(stem: string): Option<string> {
    var parts := Split(stem, '_');
    var pidParts :=
      if parts[0] == "gauge" then (if |parts| < 3 then [] else parts[2..])
      else if parts[0] == "counter" || parts[0] == "histogram" || parts[0] == "summary" then
        (if |parts| < 2 then [] else parts[1..])
      else [];
    if pidParts == [] then None else Some(Join(pidParts, '_'))
  }

  /** `extract_numeric_pid`: the process a file belongs to, if its name carries a positive 32-bit number. */
  function ExtractNumericPid(name: string): (r: Option<nat>)
    ensures r.Some? ==> 0 < r.value <= I32_MAX
  {
    if |name| < 3 || name[|name| - 3..] != ".db" then None else
    var part := PidPart(name[..|name| - 3]);
    if part.None? then None else
    var pid := Stripped(part.value);
    if pid == "" || !AllDigits(pid) then None
    else if 0 < Number(pid) <= I32_MAX then Some(Number(pid)) else None
  }

  // ----- names made by the registry -----

  lemma {:induction false} SplitNone(s: string, sep: char)
    requires sep !in s
    ensures Split(s, sep) == [s]
  {
    if s != "" {
      SplitNone(s[1..], sep);
      HeadTail(s);
    }
  }

  lemma {:induction false} SplitAtSep(head: string, sep: char, tail: string)
    requires sep !in head
    ensures Split(head + [sep] + tail, sep) == [head] + Split(tail, sep)
  {
    var s := head + [sep] + tail;
    if head == "" {
      assert s[0] == sep && s[1..] == tail;
    } else {
      SplitAtSep(head[1..], sep, tail);
      assert s[0] == head[0] && s[1..] == head[1..] + [sep] + tail;
      HeadTail(head);
    }
  }

  function ModeName(mode: MultiprocessMode): string {
    match mode
    case Min => "min"
    case Max => "max"
    case Livesum => "livesum"
    case All => "all"
    case Liveall => "liveall"
  }

  /** The stem of the file that worker `w` writes gauges of one mode to. */
  function GaugeStem(mode: MultiprocessMode, w: string): string {
    "gauge" + "_" + (ModeName(mode) + "_" + (w + "-0"))
  }

  function CounterStem(w: string): string {
    "counter" + "_" + (w + "-0")
  }

  function HistogramStem(w: string): string {
    "histogram" + "_" + (w + "-0")
  }

  predicate NumericWorker(w: string) {
    w != "" && AllDigits(w) && 0 < Number(w) <= I32_MAX
  }

  /** The process the collector probes for the files of a worker. */
  function WorkerProcess(w: string): Option<nat> {
    if NumericWorker(w) then Some(Number(w)) else None
  }

  /** Parts of a worker name as the readers keep them: only the last one escapes, since the registry
      puts a suffix of its own behind it. */
  function ReadParts(parts: seq<string>): string
    requires parts != []
  {
    if |parts| == 1 then parts[0] else Stripped(parts[0]) + "_" + ReadParts(parts[1..])
  }

  /** The pid that is read from the names of a worker's gauge files. */
  function WorkerPid(w: string): string {
    ReadParts(Split(w, '_'))
  }

  lemma PlainPart(s: string)
    requires s != "" && !IsDigit(s[|s| - 1])
    ensures Stripped(s) == s
  {
  }

  lemma SuffixGoes(w: string)
    ensures Stripped(w + "-0") == w
  {
    StrippedMeaning(w + "-0");
    assert AllDigits("0") && w + "-" + "0" == w + "-0";
  }

  lemma {:induction false} SplitFirst(s: string, sep: char)
    requires sep in s
    ensures var head := Split(s, sep)[0];
            && sep !in head && |head| < |s| && s == head + [sep] + s[|head| + 1..]
            && Split(s, sep) == [head] + Split(s[|head| + 1..], sep)
  {
    if s[0] != sep {
      HeadTail(s);
      SplitFirst(s[1..], sep);
    }
  }

  lemma {:induction false} JoinSplit(s: string, sep: char)
    ensures Join(Split(s, sep), sep) == s
    decreases |s|
  {
    if sep in s {
      SplitFirst(s, sep);
      var head := Split(s, sep)[0];
      JoinSplit(s[|head| + 1..], sep);
      assert Split(s, sep)[1..] == Split(s[|head| + 1..], sep);
    } else {
      SplitNone(s, sep);
    }
  }

  /** A separator-free suffix of a text belongs to its last part. */
  lemma {:induction false} SplitSuffix(s: string, sep: char, suffix: string)
    requires sep !in suffix
    ensures var parts, n := Split(s, sep), |Split(s, sep)| - 1;
            Split(s + suffix, sep) == parts[..n] + [parts[n] + suffix]
    decreases |s|
  {
    hide Split;
    if sep in s {
      SplitFirst(s, sep);
      var head := Split(s, sep)[0];
      var rest := s[|head| + 1..];
      SplitSuffix(rest, sep, suffix);
      var more := Split(rest, sep);
      Assoc(head + [sep], rest, suffix);
      SplitAtSep(head, sep, rest + suffix);
      Assoc([head], more[..|more| - 1], [more[|more| - 1] + suffix]);
      assert ([head] + more)[..|more|] == [head] + more[..|more| - 1];
    } else {
      SplitNone(s, sep);
      SplitNone(s + suffix, sep);
    }
  }

  lemma StripFirst(parts: seq<string>)
    requires parts != []
    ensures StripAll(parts)[0] == Stripped(parts[0]) && StripAll(parts)[1..] == StripAll(parts[1..])
  {
    hide Stripped;
  }

  lemma {:induction false} JoinStripped(parts: seq<string>)
    requires parts != []
    ensures var n := |parts| - 1;
            Join(StripAll(parts[..n] + [parts[n] + "-0"]), '_') == ReadParts(parts)
  {
    hide StripAll, Stripped;
    var n := |parts| - 1;
    var all := parts[..n] + [parts[n] + "-0"];
    StripFirst(all);
    if n == 0 {
      SuffixGoes(parts[0]);
    } else {
      JoinStripped(parts[1..]);
      assert parts[1..][n - 1] == parts[n];
      assert all[1..] == parts[1..][..n - 1] + [parts[n] + "-0"];
    }
  }

  /** What is read from the suffixed name of a worker, whatever it is called. */
  lemma WorkerParts(w: string)
    ensures Join(StripAll(Split(w + "-0", '_')), '_') == WorkerPid(w)
    ensures Stripped(Join(Split(w + "-0", '_'), '_')) == w
  {
    hide Stripped, Split, Join, StripAll, ReadParts;
    JoinSplit(w + "-0", '_');
    SuffixGoes(w);
    SplitSuffix(w, '_', "-0");
    JoinStripped(Split(w, '_'));
  }

  /** What the names of a worker's gauge files mean, whatever the worker is called. */
  lemma GaugeNameMeaning(mode: MultiprocessMode, w: string)
    ensures var name := GaugeStem(mode, w) + ".db";
            && IsDb(name)
            && ParseFileParams(name) == Ok(FileParams(name, Gauge, mode, WorkerPid(w)))
            && ExtractNumericPid(name) == WorkerProcess(w)
  {
    hide Stripped, Split, AllDigits, Number, WorkerPid, Join;
    var m, part, name := ModeName(mode), w + "-0", GaugeStem(mode, w) + ".db";
    WorkerParts(w);
    SplitAtSep(m, '_', part);
    SplitAtSep("gauge", '_', m + "_" + part);
    assert Stem(name) == GaugeStem(mode, w) == name[..|name| - 3];
    PlainPart("gauge");
    PlainPart(m);
    var parts := Split(Stem(name), '_');
    assert parts == ["gauge"] + ([m] + Split(part, '_'));
    assert parts[2..] == Split(part, '_') && StripAll(parts)[2..] == StripAll(Split(part, '_'));
    assert StripAll(parts)[0] == "gauge" && StripAll(parts)[1] == m;
  }

  /** The same for the other files of a worker, which carry no pid label. */
  lemma PlainNameMeaning(w: string, stem: string, kind: MetricType)
    requires (stem == CounterStem(w) && kind == Counter) || (stem == HistogramStem(w) && kind == Histogram)
    ensures var name := stem + ".db";
            && IsDb(name)
            && ParseFileParams(name) == Ok(FileParams(name, kind, All, ""))
            && ExtractNumericPid(name) == WorkerProcess(w)
  {
    hide Stripped, Split, AllDigits, Number, Join;
    var prefix, part, name := if kind == Counter then "counter" else "histogram", w + "-0", stem + ".db";
    WorkerParts(w);
    SplitAtSep(prefix, '_', part);
    assert stem == prefix + "_" + part;
    assert Stem(name) == stem == name[..|name| - 3];
    PlainPart(prefix);
    var parts := Split(stem, '_');
    assert parts == [prefix] + Split(part, '_');
    assert StripAll(parts)[0] == prefix;
    assert parts[1..] == Split(part, '_');
  }

  // ----- workers that read back -----

  /** No part of the name but the last ends in a dash and digits. */
  predicate FrontHasNoNumber(parts: seq<string>) {
    forall i | 0 <= i < |parts| - 1 :: !HasNumber(parts[i])
  }

  lemma StrippedShorter(part: string)
    ensures if HasNumber(part) then |Stripped(part)| < |part| else Stripped(part) == part
  {
  }

  lemma {:induction false} PartsReadBack(parts: seq<string>)
    requires parts != []
    ensures |ReadParts(parts)| <= |Join(parts, '_')|
    ensures ReadParts(parts) == Join(parts, '_') <==> FrontHasNoNumber(parts)
  {
    if |parts| > 1 {
      hide HasNumber, Stripped;
      PartsReadBack(parts[1..]);
      StrippedShorter(parts[0]);
      assert forall i | 1 <= i < |parts| :: parts[i] == parts[1..][i - 1];
      SameTail(parts[0] + "_", ReadParts(parts[1..]), Join(parts[1..], '_'));
    }
  }

  lemma SameTail(head: string, a: string, b: string)
    ensures head + a == head + b <==> a == b
  {
    assert (head + a)[|head|..] == a && (head + b)[|head|..] == b;
  }

  /** The pid label of a worker's gauges is the worker exactly if no part of its name in front of an
      underscore ends in a dash and digits. */
  lemma WorkerReadsBackIff(mode: MultiprocessMode, w: string)
    ensures var name := GaugeStem(mode, w) + ".db";
            ParseFileParams(name) == Ok(FileParams(name, Gauge, mode, w)) <==> FrontHasNoNumber(Split(w, '_'))
  {
    hide Split, Join, ReadParts, FrontHasNoNumber, ParseFileParams, GaugeStem, ExtractNumericPid;
    GaugeNameMeaning(mode, w);
    JoinSplit(w, '_');
    PartsReadBack(Split(w, '_'));
  }

  /** For workers named by their process id, pid label and probed process are the worker. */
  lemma GaugeNameRoundTrip(mode: MultiprocessMode, w: string)
    requires NumericWorker(w)
    ensures var name := GaugeStem(mode, w) + ".db";
            && ParseFileParams(name) == Ok(FileParams(name, Gauge, mode, w))
            && ExtractNumericPid(name) == Some(Number(w))
  {
    hide ParseFileParams, GaugeStem, ExtractNumericPid;
    GaugeNameMeaning(mode, w);
    SplitNone(w, '_');
  }

  /** Some other worker has the same pid label. */
  ghost predicate SharesPid(w: string) {
    exists v: string :: v != w && WorkerPid(v) == WorkerPid(w)
  }

  /** A worker can share its pid label with another one exactly if there is an underscore in its name. */
  lemma SharesPidIff(w: string)
    ensures SharesPid(w) <==> '_' in w
  {
    hide Split, Stripped, HasNumber;
    if '_' in w {
      var v := Twin(w);
    } else {
      SplitNone(w, '_');
      forall v: string | v != w
        ensures WorkerPid(v) != WorkerPid(w)
      {
        if '_' in v {
          SplitFirst(v, '_');
          var rest := Split(v, '_')[1..];
          assert WorkerPid(v)[|Stripped(Split(v, '_')[0])|] == '_';
        } else {
          SplitNone(v, '_');
        }
      }
    }
  }

  lemma StrippedPrefix(part: string)
    ensures Stripped(part) <= part
  {
  }

  lemma SuffixDrops(base: string, d: char)
    requires IsDigit(d)
    ensures Stripped(base + "-" + [d]) == base
  {
    DigitStartAt(base + "-" + [d], |base| + 1);
  }

  /** A number in front of an underscore is lost. */
  lemma NumberLost(base: string, d: char, rest: string)
    requires '_' !in base && IsDigit(d)
    ensures WorkerPid(base + "-" + [d] + "_" + rest) == base + "_" + WorkerPid(rest)
  {
    hide Stripped, Split;
    var head := base + "-" + [d];
    SuffixDrops(base, d);
    SplitAtSep(head, '_', rest);
    assert ([head] + Split(rest, '_'))[1..] == Split(rest, '_');
  }

  /** Another worker with the same pid label. */
  lemma Twin(w: string) returns (v: string)
    requires '_' in w
    ensures v != w && WorkerPid(v) == WorkerPid(w)
  {
    hide Split, Stripped, HasNumber;
    SplitFirst(w, '_');
    var head := Split(w, '_')[0];
    var base, rest := Stripped(head), w[|head| + 1..];
    var d := if w == base + "-" + ['1'] + "_" + rest then '2' else '1';
    v := base + "-" + [d] + "_" + rest;
    assert v[|base| + 1] == d;
    StrippedPrefix(head);
    NumberLost(base, d, rest);
    assert Split(w, '_')[1..] == Split(rest, '_');
  }

  /** For instance these two. */
  lemma TwoWorkersOnePid()
    ensures WorkerPid("a-1_b") == WorkerPid("a-2_b")
  {
    hide WorkerPid;
    NumberLost("a", '1', "b");
    NumberLost("a", '2', "b");
    assert "a" + "-" + ['1'] + "_" + "b" == "a-1_b";
    assert "a" + "-" + ['2'] + "_" + "b" == "a-2_b";
  }

  // ----- names of any origin -----

  /** What a file name with an underscore means to the readers, by the literal type in front of the first
      underscore (a number behind it is dropped). */
  lemma TypeByName(kind: string, rest: string)
    requires '_' !in kind
    ensures var name, t := kind + "_" + rest + ".db", Stripped(kind);
            && IsDb(name)
            && (t == "counter" ==> ParseFileParams(name) == Ok(FileParams(name, Counter, All, "")))
            && (t == "histogram" ==> ParseFileParams(name) == Ok(FileParams(name, Histogram, All, "")))
            && (t == "summary" ==> ParseFileParams(name) == Ok(FileParams(name, Summary, All, "")))
            && (t != "counter" && t != "gauge" && t != "histogram" && t != "summary" ==> ParseFileParams(name).Err?)
  {
    hide Stripped, Split, Join;
    var name := kind + "_" + rest + ".db";
    SplitAtSep(kind, '_', rest);
    assert Stem(name) == kind + "_" + rest;
  }

  /** What the name of a gauge file means, by its literal mode; every other mode is an error. */
  lemma GaugeByName(kind: string, mode: string, rest: string)
    requires '_' !in kind && '_' !in mode && Stripped(kind) == "gauge"
    ensures var name, m, pid := kind + "_" + (mode + "_" + rest) + ".db", Stripped(mode), Join(StripAll(Split(rest, '_')), '_');
            && IsDb(name)
            && (m == "min" ==> ParseFileParams(name) == Ok(FileParams(name, Gauge, Min, pid)))
            && (m == "max" ==> ParseFileParams(name) == Ok(FileParams(name, Gauge, Max, pid)))
            && (m == "livesum" ==> ParseFileParams(name) == Ok(FileParams(name, Gauge, Livesum, pid)))
            && (m == "all" ==> ParseFileParams(name) == Ok(FileParams(name, Gauge, All, pid)))
            && (m == "liveall" ==> ParseFileParams(name) == Ok(FileParams(name, Gauge, Liveall, pid)))
            && (m != "min" && m != "max" && m != "livesum" && m != "all" && m != "liveall" ==> ParseFileParams(name).Err?)
  {
    hide Stripped, Split, Join, StripAll, Stem;
    GaugeParts(kind, mode, rest);
  }

  lemma GaugeParts(kind: string, mode: string, rest: string)
    requires '_' !in kind && '_' !in mode
    ensures var name := kind + "_" + (mode + "_" + rest) + ".db";
            && IsDb(name)
            && var parts := StripAll(Split(Stem(name), '_'));
               |parts| >= 3 && parts[0] == Stripped(kind) && parts[1] == Stripped(mode) && parts[2..] == StripAll(Split(rest, '_'))
  {
    hide Stripped, Split;
    var name := kind + "_" + (mode + "_" + rest) + ".db";
    SplitAtSep(mode, '_', rest);
    SplitAtSep(kind, '_', mode + "_" + rest);
    assert Stem(name) == kind + "_" + (mode + "_" + rest);
    assert ([kind] + ([mode] + Split(rest, '_')))[2..] == Split(rest, '_');
  }

  /** Names with fewer parts: a type alone will do, but not for a gauge. */
  lemma ShortNames(kind: string, mode: string)
    requires '_' !in kind && '_' !in mode && kind != ""
    ensures IsDb(kind + ".db") && IsDb(kind + "_" + mode + ".db")
    ensures var t := Stripped(kind);
            ParseFileParams(kind + ".db").Ok? <==> t == "counter" || t == "histogram" || t == "summary"
    ensures Stripped(kind) == "gauge" ==> ParseFileParams(kind + "_" + mode + ".db").Err?
  {
    hide Stripped, Split, Join;
    SplitNone(kind, '_');
    SplitNone(mode, '_');
    SplitAtSep(kind, '_', mode);
    assert Stem(kind + ".db") == kind && Stem(kind + "_" + mode + ".db") == kind + "_" + mode;
  }
}
