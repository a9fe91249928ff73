/** UTF-8 as the Rust standard library reads and writes it: `Encode` is the byte form of a string
    slice, `FromUtf8` is `std::str::from_utf8`. */
module Utf8Text {
  import opened Bytes

  function EncodeChar(c: char): (r: seq<byte>)
    ensures 1 <= |r| <= 4
  {
    var n := c as int;
    if n < 0x80 then [n]
    else if n < 0x800 then [0xC0 + n / 64, 0x80 + n % 64]
    else if n < 0x1_0000 then [0xE0 + n / 4096, 0x80 + n / 64 % 64, 0x80 + n % 64]
    else [0xF0 + n / 262144, 0x80 + n / 4096 % 64, 0x80 + n / 64 % 64, 0x80 + n % 64]
  }

  function Encode(s: string): seq<byte> {
    if s == "" then [] else EncodeChar(s[0]) + Encode(s[1..])
  }

  predicate Continuation(b: byte) {
    0x80 <= b < 0xC0
  }

  predicate Scalar(n: int) {
    0 <= n < 0xD800 || 0xE000 <= n < 0x11_0000
  }

  function Decode2(b0: byte, b1: byte): (r: Option<char>)
    requires 0xC0 <= b0 < 0xE0
    ensures r.Some? ==> EncodeChar(r.value) == [b0, b1]
  {
    var lead: int, c1: int := b0, b1;
    var n := (lead - 0xC0) * 64 + (c1 - 0x80);
    if !Continuation(b1) || n < 0x80 then None else Some(n as char)
  }

  function Decode3(b0: byte, b1: byte, b2: byte): (r: Option<char>)
    requires 0xE0 <= b0 < 0xF0
    ensures r.Some? ==> EncodeChar(r.value) == [b0, b1, b2]
  {
    var lead: int, c1: int, c2: int := b0, b1, b2;
    var n := (lead - 0xE0) * 4096 + (c1 - 0x80) * 64 + (c2 - 0x80);
    if !Continuation(b1) || !Continuation(b2) || n < 0x800 || !Scalar(n) then None else
    assert n / 64 == (lead - 0xE0) * 64 + (c1 - 0x80);
    Some(n as char)
  }

  lemma Sextet(q: nat, r: nat)
    requires r < 64
    ensures (q * 64 + r) / 64 == q && (q * 64 + r) % 64 == r
  {
  }

  /** A number of four digits to the base 64. */
  lemma Sextets(a: nat, b: nat, c: nat, d: nat)
    requires b < 64 && c < 64 && d < 64
    ensures var n := a * 262144 + b * 4096 + c * 64 + d;
            n / 262144 == a && n / 4096 % 64 == b && n / 64 % 64 == c && n % 64 == d
  {
    var one := a * 64 + b;
    var two := one * 64 + c;
    var n := two * 64 + d;
    Sextet(a, b);
    Sextet(one, c);
    Sextet(two, d);
    Quotients(n);
  }

  function Decode4(b0: byte, b1: byte, b2: byte, b3: byte): (r: Option<char>)
    requires 0xF0 <= b0 < 0xF8
    ensures r.Some? ==> EncodeChar(r.value) == [b0, b1, b2, b3]
  {
    var lead: int, c1: int, c2: int, c3: int := b0, b1, b2, b3;
    var n := (lead - 0xF0) * 262144 + (c1 - 0x80) * 4096 + (c2 - 0x80) * 64 + (c3 - 0x80);
    if !Continuation(b1) || !Continuation(b2) || !Continuation(b3) || n < 0x1_0000 || !Scalar(n) then None else
    Sextets(lead - 0xF0, c1 - 0x80, c2 - 0x80, c3 - 0x80);
    Some(n as char)
  }

  /** The first character of `b` and its length in bytes; overlong forms, surrogates and values past
      the last code point are rejected. */
  function DecodeChar(b: seq<byte>): (r: Option<(char, nat)>)
    ensures r.Some? ==> 1 <= r.value.1 <= |b| && EncodeChar(r.value.0) == b[..r.value.1]
  {
    if |b| == 0 then None
    else if b[0] < 0x80 then Some((b[0] as char, 1))
    else if b[0] < 0xC0 then None
    else if b[0] < 0xE0 then
      if |b| < 2 then None else Sized(Decode2(b[0], b[1]), 2)
    else if b[0] < 0xF0 then
      if |b| < 3 then None else Sized(Decode3(b[0], b[1], b[2]), 3)
    else if b[0] < 0xF8 then
      if |b| < 4 then None else Sized(Decode4(b[0], b[1], b[2], b[3]), 4)
    else None
  }

  function Sized(c: Option<char>, n: nat): Option<(char, nat)> {
    if c.None? then None else Some((c.value, n))
  }

  lemma EncodeCons(c: char, s: string)
    ensures Encode([c] + s) == EncodeChar(c) + Encode(s)
  {
    assert ([c] + s)[1..] == s;
  }

  function FromUtf8(b: seq<byte>): (r: Option<string>)
    ensures r.Some? ==> Encode(r.value) == b
  {
    if b == [] then Some("") else
    var head := DecodeChar(b);
    if head.None? then None else
    var rest := FromUtf8(b[head.value.1..]);
    if rest.None? then None else
    EncodeCons(head.value.0, rest.value);
    Some([head.value.0] + rest.value)
  }

  lemma Quotients(n: nat)
    ensures n / 4096 == n / 64 / 64 && n / 262144 == n / 4096 / 64
  {
  }

  lemma DecodeEncodeShort(c: char, tail: seq<byte>)
    requires c as int < 0x800
    ensures DecodeChar(EncodeChar(c) + tail) == Some((c, |EncodeChar(c)|))
  {
  }

  lemma DecodeEncodeThree(c: char, tail: seq<byte>)
    requires 0x800 <= c as int < 0x1_0000
    ensures DecodeChar(EncodeChar(c) + tail) == Some((c, |EncodeChar(c)|))
  {
    Quotients(c as int);
  }

  lemma DecodeEncodeFour(c: char, tail: seq<byte>)
    requires 0x1_0000 <= c as int
    ensures DecodeChar(EncodeChar(c) + tail) == Some((c, |EncodeChar(c)|))
  {
    Quotients(c as int);
  }

  lemma DecodeEncodeChar(c: char, tail: seq<byte>)
    ensures DecodeChar(EncodeChar(c) + tail) == Some((c, |EncodeChar(c)|))
  {
    hide DecodeChar, EncodeChar;
    if c as int < 0x800 {
      DecodeEncodeShort(c, tail);
    } else if c as int < 0x1_0000 {
      DecodeEncodeThree(c, tail);
    } else {
      DecodeEncodeFour(c, tail);
    }
  }

  /** One character of each length. */
  lemma EncodingHere()
    ensures Encode("$") == [0x24]
    ensures Encode("\U{A3}") == [0xC2, 0xA3]
    ensures Encode("\U{20AC}") == [0xE2, 0x82, 0xAC]
    ensures Encode("\U{10348}") == [0xF0, 0x90, 0x8D, 0x88]
  {
    EncodeOne('$');
    EncodeOne('\U{A3}');
    EncodeOne('\U{20AC}');
    EncodeOne('\U{10348}');
  }

  lemma EncodeOne(c: char)
    ensures Encode([c]) == EncodeChar(c)
  {
    assert [c][1..] == "";
  }

  /** Every string slice is recovered from its bytes. */
  lemma {:induction false} FromUtf8Encode(s: string)
    ensures FromUtf8(Encode(s)) == Some(s)
  {
    if s != "" {
      var head, rest := EncodeChar(s[0]), Encode(s[1..]);
      DecodeEncodeChar(s[0], rest);
      FromUtf8Encode(s[1..]);
      assert (head + rest)[|head|..] == rest;
      assert [s[0]] + s[1..] == s;
    }
  }
}
