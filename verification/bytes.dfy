/** Bytes, machine integers and the error type shared by every component.

    A 4-byte header word or length field is modelled in little-endian order.  The source uses the
    machine's native order for both directions, so only the fact that writing and reading are
    inverse to each other matters, and that is what is proved here. */
module Bytes {

  type byte = b: int | 0 <= b < 256

  const U32_MAX: nat := 0xFFFF_FFFF
  const USIZE_LIMIT: nat := 0x1_0000_0000_0000_0000

  datatype Option<+T> = None | Some(value: T)

  /** The error cases of src/error.rs that the modelled code can produce. */
  datatype Error =
    | Io
    | Utf8
    | OutOfBounds(offset: int, len: int)
    | KeyTooLong
    | InvalidUsed(used: int, len: int)
    | EntryTooLarge(needed: int, available: int)
    | Overflow
    | Message

  datatype Result<+T> = Ok(value: T) | Err(error: Error)

  function CheckedAdd(a: nat, b: nat): (r: Result<nat>)
    ensures r.Ok? <==> a + b < USIZE_LIMIT
    ensures r.Ok? ==> r.value == a + b
  {
    if a + b < USIZE_LIMIT then Ok(a + b) else Err(Overflow)
  }

  function U32Bytes(n: nat): (r: seq<byte>)
    requires n <= U32_MAX
    ensures |r| == 4
  {
    [n % 256, n / 256 % 256, n / 256 / 256 % 256, n / 256 / 256 / 256]
  }

  function U32At(b: seq<byte>, i: nat): (n: nat)
    requires i + 4 <= |b|
    ensures n <= U32_MAX
  {
    var b0: int, b1: int, b2: int, b3: int := b[i], b[i + 1], b[i + 2], b[i + 3];
    b0 + 256 * (b1 + 256 * (b2 + 256 * b3))
  }

  lemma Digit(q: nat, d: byte)
    ensures (d + 256 * q) / 256 == q && (d + 256 * q) % 256 == d
  {
  }

  lemma U32RoundTrip(n: nat)
    requires n <= U32_MAX
    ensures U32At(U32Bytes(n), 0) == n
  {
  }

  /** The inverse direction: four bytes are the image of the word they hold. */
  lemma U32BytesAt(b: seq<byte>, i: nat)
    requires i + 4 <= |b|
    ensures b[i..i + 4] == U32Bytes(U32At(b, i))
  {
    var q2: nat := b[i + 2] + 256 * (b[i + 3] as int);
    var q1: nat := b[i + 1] + 256 * q2;
    Digit(q1, b[i]);
    Digit(q2, b[i + 1]);
    Digit(b[i + 3], b[i + 2]);
  }

  /** Reading a word depends only on its four bytes. */
  lemma U32Local(b: seq<byte>, i: nat, w: seq<byte>)
    requires i + 4 <= |b| && |w| == 4
    requires b[i..i + 4] == w
    ensures U32At(b, i) == U32At(w, 0)
  {
    assert b[i] == b[i..i + 4][0] && b[i + 1] == b[i..i + 4][1];
    assert b[i + 2] == b[i..i + 4][2] && b[i + 3] == b[i..i + 4][3];
  }

  function Zeros(n: nat): (r: seq<byte>)
    ensures |r| == n
    ensures forall i | 0 <= i < n :: r[i] == 0
  {
    seq(n, i => 0)
  }

  /** `b` with the bytes `w` written at offset `off`. */
  function Patch(b: seq<byte>, off: nat, w: seq<byte>): (r: seq<byte>)
    requires off + |w| <= |b|
    ensures |r| == |b|
  {
    b[..off] + w + b[off + |w|..]
  }

  lemma PatchAt(b: seq<byte>, off: nat, w: seq<byte>)
    requires off + |w| <= |b|
    ensures forall i | 0 <= i < |b| :: Patch(b, off, w)[i] == if off <= i < off + |w| then w[i - off] else b[i]
  {
  }

  lemma PatchSlices(b: seq<byte>, off: nat, w: seq<byte>)
    requires off + |w| <= |b|
    ensures Patch(b, off, w)[..off] == b[..off]
    ensures Patch(b, off, w)[off..off + |w|] == w
    ensures Patch(b, off, w)[off + |w|..] == b[off + |w|..]
  {
    var p := Patch(b, off, w);
    assert p == (b[..off] + w) + b[off + |w|..];
    assert |b[..off] + w| == off + |w|;
  }

  /** Two patches that meet are one patch. */
  lemma PatchJoin(b: seq<byte>, off: nat, w: seq<byte>, v: seq<byte>)
    requires off + |w| + |v| <= |b|
    ensures Patch(Patch(b, off, w), off + |w|, v) == Patch(b, off, w + v)
  {
    var p := Patch(b, off, w);
    assert p[..off + |w|] == b[..off] + w;
    assert p[off + |w| + |v|..] == b[off + |w| + |v|..];
    assert b[..off] + (w + v) == b[..off] + w + v;
  }
}
