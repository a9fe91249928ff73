/** Label text (src/metric_key.rs), its PHP counterpart (examples/lib.php), and a parser of the label
    grammar of the Prometheus text exposition format 0.0.4 ("Text format details"). */
module Labels {
  import opened Bytes
  import opened SeqFacts
  import opened Ordering

  datatype Label = Label(name: string, value: string)

  // ----- writing -----

  function EscapeChar(c: char): string {
    if c == '\n' then "\\n" else if c == '\\' then "\\\\" else if c == '"' then "\\\"" else [c]
  }

  function Escape(value: string): string {
    if value == "" then "" else EscapeChar(value[0]) + Escape(value[1..])
  }

  lemma {:induction false} EscapeConcat(a: string, b: string)
    ensures Escape(a + b) == Escape(a) + Escape(b)
  {
    if a == "" {
      assert a + b == b;
    } else {
      EscapeConcat(a[1..], b);
      ConsConcat(a, b);
      Assoc(EscapeChar(a[0]), Escape(a[1..]), Escape(b));
    }
  }

  method EscapeLabelValue(value: string) returns (out: string)
    ensures out == Escape(value)
  {
    out := "";
    for i := 0 to |value|
      invariant out == Escape(value[..i])
    {
      Snoc(value, i);
      EscapeConcat(value[..i], [value[i]]);
      assert Escape([value[i]]) == EscapeChar(value[i]);
      match value[i]
      case '\n' => out := out + "\\n";
      case '\\' => out := out + "\\\\";
      case '"' => out := out + "\\\"";
      case c => out := out + [c];
    }
    assert value[..|value|] == value;
  }

  function Pair(l: Label): string {
    l.name + "=\"" + Escape(l.value) + "\""
  }

  function Pairs(labels: seq<Label>): string {
    if labels == [] then ""
    else if |labels| == 1 then Pair(labels[0])
    else Pair(labels[0]) + "," + Pairs(labels[1..])
  }

  predicate NameLe(a: Label, b: Label) {
    CompareStrings(a.name, b.name) != Greater
  }

  function Sorted(labels: seq<Label>): (s: seq<Label>)
    ensures |s| == |labels|
  {
    Sort(NameLe, labels)
  }

  function Block(labels: seq<Label>): string {
    if labels == [] then "" else "{" + Pairs(labels) + "}"
  }

  function Encoded(labels: seq<Label>): string {
    Block(Sorted(labels))
  }

  lemma {:induction false} PairsSnoc(labels: seq<Label>, l: Label)
    ensures Pairs(labels + [l]) == if labels == [] then Pair(l) else Pairs(labels) + "," + Pair(l)
  {
    if labels == [] {
      assert labels + [l] == [l];
    } else {
      ConsConcat(labels, [l]);
      PairsSnoc(labels[1..], l);
      if |labels| > 1 {
        Assoc(Pair(labels[0]) + ",", Pairs(labels[1..]), "," + Pair(l));
        Assoc(Pairs(labels[1..]), ",", Pair(l));
        Assoc(Pairs(labels), ",", Pair(l));
      } else {
        assert labels[1..] + [l] == [l];
      }
    }
  }

  lemma NoPairs()
    ensures Pairs([]) == ""
  {
  }

  /** `encode_labels`. */
  method EncodeLabels(labels: seq<Label>) returns (out: string)
    ensures out == Encoded(labels)
    ensures ValidNames(labels) ==> ParseLabels(out).Some? && Arranges(ParseLabels(out).value, labels)
  {
    hide Escape, Sort, Pairs, ParseLabels, ValidNames, Arranges;
    NoPairs();
    if ValidNames(labels) {
      EncodedParses(labels);
    }
    if labels == [] { return ""; }
    var sorted := Sorted(labels);
    out := "{";
    for idx := 0 to |sorted|
      invariant out == "{" + Pairs(sorted[..idx])
    {
      Snoc(sorted, idx);
      PairsSnoc(sorted[..idx], sorted[idx]);
      ghost var before := out;
      if idx > 0 {
        out := out + ",";
      }
      out := out + sorted[idx].name;
      out := out + "=\"";
      var value := EscapeLabelValue(sorted[idx].value);
      out := out + value;
      out := out + "\"";
      assert out == before + (if idx > 0 then "," else "") + Pair(sorted[idx]);
    }
    assert sorted[..|sorted|] == sorted;
    out := out + "}";
  }

  // ----- reading -----

  predicate IsNameStart(c: char) {
    'a' <= c <= 'z' || 'A' <= c <= 'Z' || c == '_'
  }

  predicate IsNameChar(c: char) {
    IsNameStart(c) || '0' <= c <= '9'
  }

  /** `[a-zA-Z_][a-zA-Z0-9_]*` */
  predicate IsLabelName(s: string) {
    s != "" && IsNameStart(s[0]) && forall c <- s :: IsNameChar(c)
  }

  function NameLength(s: string): (n: nat)
    ensures n <= |s|
  {
    if s != "" && IsNameChar(s[0]) then 1 + NameLength(s[1..]) else 0
  }

  /** The value up to the closing quote, unescaped, and what follows it. */
  function ParseValue(s: string): Option<(string, string)> {
    if s == "" then None
    else if s[0] == '"' then Some(("", s[1..]))
    else if s[0] == '\n' then None
    else if s[0] == '\\' then
      if |s| < 2 || s[1] !in "n\\\"" then None else
      var rest := ParseValue(s[2..]);
      if rest.None? then None else Some(([if s[1] == 'n' then '\n' else s[1]] + rest.value.0, rest.value.1))
    else
      var rest := ParseValue(s[1..]);
      if rest.None? then None else Some(([s[0]] + rest.value.0, rest.value.1))
  }

  /** One `name="value"` and what follows it. */
  function ParsePair(s: string): (r: Option<(Label, string)>)
    ensures r.Some? ==> |r.value.1| < |s|
  {
    var n := NameLength(s);
    if n == 0 || !IsNameStart(s[0]) || !("=\"" <= s[n..]) then None else
    var value := ParseValue(s[n + 2..]);
    if value.None? then None else
    assert |value.value.1| <= |s[n + 2..]| by { ParseValueShorter(s[n + 2..]); }
    Some((Label(s[..n], value.value.0), value.value.1))
  }

  lemma {:induction false} ParseValueShorter(s: string)
    ensures ParseValue(s).Some? ==> |ParseValue(s).value.1| <= |s|
  {
    if s != "" && s[0] != '"' && s[0] != '\n' {
      if s[0] == '\\' {
        if |s| >= 2 {
          ParseValueShorter(s[2..]);
        }
      } else {
        ParseValueShorter(s[1..]);
      }
    }
  }

  /** Pairs up to the closing brace; the grammar allows a comma in front of it. */
  function ParsePairs(s: string): Option<(seq<Label>, string)>
    decreases |s|
  {
    var first := ParsePair(s);
    if first.None? then None else
    var (l, rest) := first.value;
    if rest == "" then None
    else if rest[0] == '}' then Some(([l], rest[1..]))
    else if rest[0] != ',' then None
    else if |rest| > 1 && rest[1] == '}' then Some(([l], rest[2..]))
    else
      var more := ParsePairs(rest[1..]);
      if more.None? then None else Some(([l] + more.value.0, more.value.1))
  }

  /** A label block, or nothing, that fills the whole text. */
  function ParseLabels(s: string): Option<seq<Label>> {
    if s == "" then Some([])
    else if s[0] != '{' then None
    else
      var r := ParsePairs(s[1..]);
      if r.None? || r.value.1 != "" then None else Some(r.value.0)
  }

  // ----- round trips -----

  lemma UnescapeChar(c: char, tail: string, value: string, rest: string)
    requires ParseValue(tail) == Some((value, rest))
    ensures ParseValue(EscapeChar(c) + tail) == Some(([c] + value, rest))
  {
    var s := EscapeChar(c) + tail;
    assert s[|EscapeChar(c)|..] == tail;
  }

  /** Unescaping undoes escaping. */
  lemma {:induction false} UnescapeEscape(value: string, rest: string)
    ensures ParseValue(Escape(value) + "\"" + rest) == Some((value, rest))
  {
    if value == "" {
      assert Escape(value) + "\"" + rest == "\"" + rest;
    } else {
      hide ParseValue, EscapeChar;
      var c, tail := value[0], Escape(value[1..]) + "\"" + rest;
      UnescapeEscape(value[1..], rest);
      UnescapeChar(c, tail, value[1..], rest);
      Assoc(EscapeChar(c), Escape(value[1..]), "\"");
      Assoc(EscapeChar(c), Escape(value[1..]) + "\"", rest);
      HeadTail(value);
    }
  }

  lemma {:induction false} NameEnds(name: string, rest: string)
    requires (forall c <- name :: IsNameChar(c)) && rest != "" && !IsNameChar(rest[0])
    ensures NameLength(name + rest) == |name|
  {
    if name == "" {
      assert name + rest == rest;
    } else {
      ConsConcat(name, rest);
      NameEnds(name[1..], rest);
    }
  }

  lemma PairParses(l: Label, rest: string)
    requires IsLabelName(l.name)
    ensures ParsePair(Pair(l) + rest) == Some((l, rest))
  {
    hide Escape, ParseValue, NameLength;
    var s, tail := Pair(l) + rest, Escape(l.value) + "\"" + rest;
    assert s == l.name + ("=\"" + tail);
    NameEnds(l.name, "=\"" + tail);
    assert s[|l.name|..] == "=\"" + tail && s[|l.name| + 2..] == tail && s[..|l.name|] == l.name;
    UnescapeEscape(l.value, rest);
  }

  predicate ValidNames(labels: seq<Label>) {
    forall l <- labels :: IsLabelName(l.name)
  }

  lemma PairsStep(s: string, l: Label, tail: string, more: seq<Label>, rest: string)
    requires ParsePair(s) == Some((l, "," + tail)) && tail != "" && tail[0] != '}'
    requires ParsePairs(tail) == Some((more, rest))
    ensures ParsePairs(s) == Some(([l] + more, rest))
  {
    hide ParsePair;
    assert ("," + tail)[1..] == tail;
  }

  lemma PairsEnd(s: string, l: Label, rest: string)
    requires ParsePair(s) == Some((l, "}" + rest))
    ensures ParsePairs(s) == Some(([l], rest))
  {
    hide ParsePair;
    assert ("}" + rest)[1..] == rest;
  }

  lemma {:induction false} PairsParse(labels: seq<Label>, rest: string)
    requires labels != [] && ValidNames(labels)
    ensures ParsePairs(Pairs(labels) + "}" + rest) == Some((labels, rest))
  {
    hide ParsePair, ParsePairs, Pair, IsLabelName;
    var s := Pairs(labels) + "}" + rest;
    if |labels| == 1 {
      Assoc(Pair(labels[0]), "}", rest);
      PairParses(labels[0], "}" + rest);
      PairsEnd(s, labels[0], rest);
      assert labels == [labels[0]];
    } else {
      var tail := Pairs(labels[1..]) + "}" + rest;
      assert s == Pair(labels[0]) + ("," + tail);
      PairParses(labels[0], "," + tail);
      PairsParse(labels[1..], rest);
      Assoc(Pairs(labels[1..]), "}", rest);
      PairsStart(labels[1..], "}" + rest);
      PairsStep(s, labels[0], tail, labels[1..], rest);
      HeadTail(labels);
    }
  }

  lemma PairsStart(labels: seq<Label>, rest: string)
    requires labels != [] && ValidNames(labels)
    ensures Pairs(labels) + rest != "" && (Pairs(labels) + rest)[0] != '}'
  {
    assert IsLabelName(labels[0].name);
  }

  lemma BlockParses(labels: seq<Label>)
    requires ValidNames(labels)
    ensures ParseLabels(Block(labels)) == Some(labels)
  {
    hide ParsePairs, Pairs;
    if labels != [] {
      PairsParse(labels, "");
      assert Block(labels)[1..] == Pairs(labels) + "}" + "";
    }
  }

  // ----- canonical text -----

  lemma NameOrder()
    ensures TotalOn(NameLe)
  {
    forall a: Label, b: Label
      ensures NameLe(a, b) || NameLe(b, a)
    {
      CompareFlips(a.name, b.name);
    }
    forall a: Label, b: Label, c: Label | NameLe(a, b) && NameLe(b, c)
      ensures NameLe(a, c)
    {
      CompareTransitive(a.name, b.name, c.name);
    }
  }

  lemma SameName(a: Label, b: Label)
    ensures NameLe(a, b) && NameLe(b, a) <==> a.name == b.name
  {
    CompareEqual(a.name, b.name);
    CompareFlips(a.name, b.name);
    CompareFlips(b.name, a.name);
  }

  lemma SortedMembers(labels: seq<Label>)
    ensures multiset(Sorted(labels)) == multiset(labels)
    ensures ValidNames(labels) ==> ValidNames(Sorted(labels))
  {
    SortMultiset(NameLe, labels);
    SameMultisetSameMembers(labels, Sorted(labels));
  }

  /** Labels of one name have one value. */
  predicate OneValuePerName(labels: seq<Label>) {
    forall a <- labels, b <- labels :: a.name == b.name ==> a == b
  }

  /** Names stand in dictionary order. */
  predicate NamesAscend(s: seq<Label>) {
    forall i, j | 0 <= i < j < |s| :: s[i].name == s[j].name || Before(s[i].name, s[j].name)
  }

  /** The values of one name, in their order. */
  function ValuesOf(labels: seq<Label>, name: string): seq<string> {
    if labels == [] then []
    else (if labels[0].name == name then [labels[0].value] else []) + ValuesOf(labels[1..], name)
  }

  /** `s` are these labels in dictionary order, those of one name in the order in which they came. */
  ghost predicate Arranges(s: seq<Label>, labels: seq<Label>) {
    && multiset(s) == multiset(labels) && NamesAscend(s)
    && forall name: string :: ValuesOf(s, name) == ValuesOf(labels, name)
  }

  lemma ValuesCons(l: Label, s: seq<Label>, name: string)
    ensures ValuesOf([l] + s, name) == (if l.name == name then [l.value] else []) + ValuesOf(s, name)
  {
    assert ([l] + s)[1..] == s;
  }

  lemma OtherName(a: Label, b: Label)
    requires !NameLe(a, b)
    ensures a.name != b.name
  {
    CompareEqual(a.name, b.name);
  }

  lemma {:induction false} InsertStable(l: Label, s: seq<Label>, name: string)
    ensures ValuesOf(Insert(NameLe, l, s), name) == (if l.name == name then [l.value] else []) + ValuesOf(s, name)
  {
    hide NameLe, ValuesOf;
    if s == [] {
      ValuesCons(l, [], name);
      assert [l] + [] == [l];
    } else if NameLe(l, s[0]) {
      ValuesCons(l, s, name);
    } else {
      OtherName(l, s[0]);
      InsertStable(l, s[1..], name);
      HeadTail(s);
      ValuesCons(s[0], s[1..], name);
      ValuesCons(s[0], Insert(NameLe, l, s[1..]), name);
    }
  }

  lemma {:induction false} SortStable(labels: seq<Label>, name: string)
    ensures ValuesOf(Sorted(labels), name) == ValuesOf(labels, name)
  {
    if labels != [] {
      SortStable(labels[1..], name);
      InsertStable(labels[0], Sorted(labels[1..]), name);
    }
  }

  lemma SortedArranges(labels: seq<Label>)
    ensures Arranges(Sorted(labels), labels)
  {
    hide NameLe, Before, CompareStrings;
    var s := Sorted(labels);
    SortedMembers(labels);
    NameOrder();
    SortSorted(NameLe, labels);
    forall i, j | 0 <= i < j < |s|
      ensures s[i].name == s[j].name || Before(s[i].name, s[j].name)
    {
      NameLeMeaning(s[i], s[j]);
    }
    forall name: string
      ensures ValuesOf(s, name) == ValuesOf(labels, name)
    {
      SortStable(labels, name);
    }
  }

  lemma NameLeMeaning(a: Label, b: Label)
    ensures NameLe(a, b) <==> a.name == b.name || Before(a.name, b.name)
  {
    hide Before;
    CompareMeaning(a.name, b.name);
  }

  /** The parser recovers exactly the labels, in dictionary order of their names. */
  lemma EncodedParses(labels: seq<Label>)
    requires ValidNames(labels)
    ensures ParseLabels(Encoded(labels)) == Some(Sorted(labels))
    ensures Arranges(Sorted(labels), labels)
  {
    SortedMembers(labels);
    SortedArranges(labels);
    BlockParses(Sorted(labels));
  }

  /** For instance these two, as the tests of the store have them. */
  lemma TwoLabels()
    ensures Encoded([Label("b", "2"), Label("a", "1")]) == "{a=\"1\",b=\"2\"}"
  {
    var a, b := Label("a", "1"), Label("b", "2");
    assert [b, a][1..] == [a] && [a][1..] == [];
    assert Sorted([a]) == [a];
    assert "b"[0] != "a"[0] && !NameLe(b, a);
    assert Insert(NameLe, b, [a]) == [a] + Insert(NameLe, b, []) == [a] + [b];
    assert Sorted([b, a]) == Insert(NameLe, b, Sorted([a])) == [a, b];
    assert [a, b][1..] == [b];
    PlainChar('1');
    PlainChar('2');
    assert Pairs([b]) == "b=\"2\"";
    assert Pairs([a, b]) == "a=\"1\"" + "," + Pairs([b]);
  }

  lemma PlainChar(c: char)
    requires c != '\n' && c != '\\' && c != '"'
    ensures Escape([c]) == [c]
  {
    assert [c][1..] == "";
  }

  /** Two label lists have the same text exactly if they are the same labels: the text does not depend
      on the order, and it tells all different label sets apart. */
  lemma TextIsIdentity(a: seq<Label>, b: seq<Label>)
    requires ValidNames(a) && ValidNames(b) && OneValuePerName(a)
    ensures Encoded(a) == Encoded(b) <==> multiset(a) == multiset(b)
  {
    hide Sort, Block, ParseLabels, CompareStrings;
    EncodedParses(a);
    EncodedParses(b);
    SortedMembers(a);
    SortedMembers(b);
    if multiset(a) == multiset(b) {
      NameOrder();
      forall x, y | x in a && y in a && NameLe(x, y) && NameLe(y, x)
        ensures x == y
      {
        SameName(x, y);
      }
      SortCanonical(NameLe, a, b);
    }
  }

  lemma {:induction false} InsertOrder(a: Label, b: Label, s: seq<Label>)
    requires a.name == b.name && a != b
    ensures Insert(NameLe, a, Insert(NameLe, b, s)) != Insert(NameLe, b, Insert(NameLe, a, s))
  {
    SameName(a, b);
    if s == [] {
      assert Insert(NameLe, a, [b])[0] == a && Insert(NameLe, b, [a])[0] == b;
    } else if NameLe(b, s[0]) {
      assert Insert(NameLe, a, [b] + s)[0] == a && Insert(NameLe, b, [a] + s)[0] == b;
    } else {
      InsertOrder(a, b, s[1..]);
      var x, y := Insert(NameLe, b, s[1..]), Insert(NameLe, a, s[1..]);
      assert ([s[0]] + x)[1..] == x && ([s[0]] + y)[1..] == y;
      assert Insert(NameLe, a, [s[0]] + x)[1..] == Insert(NameLe, a, x);
      assert Insert(NameLe, b, [s[0]] + y)[1..] == Insert(NameLe, b, y);
    }
  }

  /** The condition is exact: the text is the same for every order of the labels if and only if no two
      labels have the same name and different values. */
  lemma CanonicalIff(labels: seq<Label>)
    requires ValidNames(labels)
    ensures OneValuePerName(labels) <==> forall other | multiset(other) == multiset(labels) :: Encoded(other) == Encoded(labels)
  {
    hide Encoded, NameLe;
    if OneValuePerName(labels) {
      forall other | multiset(other) == multiset(labels)
        ensures Encoded(other) == Encoded(labels)
      {
        SameMultisetSameMembers(other, labels);
        TextIsIdentity(labels, other);
      }
    } else {
      var a, b :| a in labels && b in labels && a.name == b.name && a != b;
      var first, second := TwoOrders(labels, a, b);
      assert Encoded(first) != Encoded(second);
    }
  }

  lemma TwoOrders(labels: seq<Label>, a: Label, b: Label) returns (first: seq<Label>, second: seq<Label>)
    requires ValidNames(labels) && a in labels && b in labels && a.name == b.name && a != b
    ensures multiset(first) == multiset(second) == multiset(labels) && Encoded(first) != Encoded(second)
  {
    hide ParseLabels, Encoded, Sorted, Insert, IsLabelName, NameLe;
    var rest := WithoutTwo(labels, a, b);
    first, second := [a] + ([b] + rest), [b] + ([a] + rest);
    FrontTwo(a, b, rest);
    FrontTwo(b, a, rest);
    InsertOrder(a, b, Sort(NameLe, rest));
    SameMultisetSameMembers(first, labels);
    SameMultisetSameMembers(second, labels);
    EncodedParses(first);
    EncodedParses(second);
  }

  lemma FrontTwo(a: Label, b: Label, rest: seq<Label>)
    ensures multiset([a] + ([b] + rest)) == multiset(rest) + multiset{b} + multiset{a}
    ensures Sorted([a] + ([b] + rest)) == Insert(NameLe, a, Insert(NameLe, b, Sort(NameLe, rest)))
  {
    TwoInFront(a, b, rest);
    SortFrontTwo(NameLe, a, b, rest);
  }

  // ----- the PHP helpers -----

  /** `str_replace` with one search character. */
  function Replace(s: string, c: char, repl: string): string {
    if s == "" then "" else (if s[0] == c then repl else [s[0]]) + Replace(s[1..], c, repl)
  }

  /** Three replacements one after the other, backslashes first. */
  function PhpEscape(value: string): string {
    Replace(Replace(Replace(value, '\\', "\\\\"), '\n', "\\n"), '"', "\\\"")
  }

  lemma {:induction false} ReplaceConcat(a: string, b: string, c: char, repl: string)
    ensures Replace(a + b, c, repl) == Replace(a, c, repl) + Replace(b, c, repl)
  {
    if a == "" {
      assert a + b == b;
    } else {
      ReplaceConcat(a[1..], b, c, repl);
      ConsConcat(a, b);
      Assoc(if a[0] == c then repl else [a[0]], Replace(a[1..], c, repl), Replace(b, c, repl));
    }
  }

  /** Both implementations escape alike, so they write the same keys. */
  lemma {:induction false} PhpEscapesAlike(value: string)
    ensures PhpEscape(value) == Escape(value)
  {
    if value != "" {
      var head, tail := [value[0]], value[1..];
      PhpEscapesAlike(tail);
      HeadTail(value);
      var one, two := Replace(tail, '\\', "\\\\"), Replace(Replace(tail, '\\', "\\\\"), '\n', "\\n");
      ReplaceConcat(head, tail, '\\', "\\\\");
      ReplaceConcat(Replace(head, '\\', "\\\\"), one, '\n', "\\n");
      ReplaceConcat(Replace(Replace(head, '\\', "\\\\"), '\n', "\\n"), two, '"', "\\\"");
      PhpEscapesChar(value[0]);
    }
  }

  lemma ReplaceOne(x: char, c: char, repl: string)
    ensures Replace([x], c, repl) == if x == c then repl else [x]
  {
    assert [x][1..] == "";
  }

  lemma ReplaceTwo(x: char, y: char, c: char, repl: string)
    ensures Replace([x, y], c, repl) == (if x == c then repl else [x]) + (if y == c then repl else [y])
  {
    assert [x, y] == [x] + [y];
    ReplaceConcat([x], [y], c, repl);
    ReplaceOne(x, c, repl);
    ReplaceOne(y, c, repl);
  }

  lemma PhpEscapesChar(c: char)
    ensures PhpEscape([c]) == EscapeChar(c)
  {
    hide Replace;
    ReplaceOne(c, '\\', "\\\\");
    assert ['\\', '\\'] == "\\\\" && ['\\'] + ['\\'] == "\\\\";
    if c == '\\' {
      ReplaceTwo('\\', '\\', '\n', "\\n");
      ReplaceTwo('\\', '\\', '"', "\\\"");
    } else {
      ReplaceOne(c, '\n', "\\n");
      ReplaceOne(c, '"', "\\\"");
      ReplaceTwo('\\', 'n', '"', "\\\"");
    }
  }
}
