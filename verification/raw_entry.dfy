/** The entry codec of src/raw_entry.rs: three length words, the three text fields, space padding up
    to a multiple of eight, and an 8-byte value. */
module RawEntries {
  import opened Bytes
  import opened SeqFacts

  const LENGTH_FIELDS_SIZE: nat := 12
  const SPACE: byte := 32

  /** An `f64` seen as its eight bytes. */
  type Bits = b: seq<byte> | |b| == 8 witness [0, 0, 0, 0, 0, 0, 0, 0]

  const ZERO: Bits := [0, 0, 0, 0, 0, 0, 0, 0]

  function CheckFieldLen(n: nat): Result<()> {
    if n > U32_MAX then Err(KeyTooLong) else Ok(())
  }

  function BodyLenFromParts(family: nat, sample: nat, labels: nat): Result<nat> {
    var len := CheckedAdd(family, sample);
    if len.Err? then len else CheckedAdd(len.value, labels)
  }

  lemma PadToEight(n: nat)
    ensures var pad := (8 - n % 8) % 8; 0 <= pad < 8 && (n + pad) % 8 == 0
  {
  }

  function PaddingLen(family: nat, sample: nat, labels: nat): (r: Result<nat>)
    ensures r.Ok? ==> r.value < 8 && (LENGTH_FIELDS_SIZE + family + sample + labels + r.value) % 8 == 0
    ensures r.Ok? <==> LENGTH_FIELDS_SIZE + family + sample + labels < USIZE_LIMIT
  {
    var body := BodyLenFromParts(family, sample, labels);
    if body.Err? then body else
    var unaligned := CheckedAdd(LENGTH_FIELDS_SIZE, body.value);
    if unaligned.Err? then unaligned else
    PadToEight(unaligned.value);
    Ok((8 - unaligned.value % 8) % 8)
  }

  /** The value sits at the first multiple of eight after the labels. */
  function CalcValueOffset(family: nat, sample: nat, labels: nat): (r: Result<nat>)
    ensures r.Ok? <==> family <= U32_MAX && sample <= U32_MAX && labels <= U32_MAX
    ensures r.Err? ==> r.error == KeyTooLong
    ensures r.Ok? ==> r.value % 8 == 0
    ensures r.Ok? ==> 12 + family + sample + labels <= r.value < 20 + family + sample + labels
  {
    if CheckFieldLen(family).Err? then Err(KeyTooLong)
    else if CheckFieldLen(sample).Err? then Err(KeyTooLong)
    else if CheckFieldLen(labels).Err? then Err(KeyTooLong)
    else
      var len := CheckedAdd(LENGTH_FIELDS_SIZE, BodyLenFromParts(family, sample, labels).value);
      CheckedAdd(len.value, PaddingLen(family, sample, labels).value)
  }

  function CalcTotalLen(family: nat, sample: nat, labels: nat): (r: Result<nat>)
    ensures r.Ok? <==> family <= U32_MAX && sample <= U32_MAX && labels <= U32_MAX
    ensures r.Err? ==> r.error == KeyTooLong
    ensures r.Ok? ==> r.value % 8 == 0
    ensures r.Ok? ==> r.value >= 24 && 20 + family + sample + labels <= r.value < 28 + family + sample + labels
  {
    var offset := CalcValueOffset(family, sample, labels);
    if offset.Err? then offset else CheckedAdd(offset.value, 8)
  }

  datatype RawEntry = RawEntry(bytes: seq<byte>, familyLen: nat, sampleLen: nat, labelsLen: nat) {

    predicate Valid() {
      var total := CalcTotalLen(familyLen, sampleLen, labelsLen);
      total.Ok? && |bytes| + LENGTH_FIELDS_SIZE == total.value
    }

    function FamilyBytes(): seq<byte>
      requires Valid()
    {
      bytes[..familyLen]
    }

    function SampleBytes(): seq<byte>
      requires Valid()
    {
      bytes[familyLen..familyLen + sampleLen]
    }

    function LabelsBytes(): seq<byte>
      requires Valid()
    {
      bytes[familyLen + sampleLen..familyLen + sampleLen + labelsLen]
    }

    function Value(): Bits
      requires Valid()
    {
      var offset := familyLen + sampleLen + labelsLen + PaddingLen(familyLen, sampleLen, labelsLen).value;
      bytes[offset..offset + 8]
    }

    function TotalLen(): nat
      requires Valid()
    {
      CalcTotalLen(familyLen, sampleLen, labelsLen).value
    }

    function ValueOffset(): nat
      requires Valid()
    {
      CalcValueOffset(familyLen, sampleLen, labelsLen).value
    }
  }

  function FromSlice(bytes: seq<byte>): (r: Result<RawEntry>)
    ensures r.Ok? ==> r.value.Valid() && 24 <= r.value.TotalLen() <= |bytes|
  {
    if |bytes| < LENGTH_FIELDS_SIZE then Err(OutOfBounds(LENGTH_FIELDS_SIZE, |bytes|)) else
    var family, sample, labels := U32At(bytes, 0), U32At(bytes, 4), U32At(bytes, 8);
    var total := CalcTotalLen(family, sample, labels);
    if total.Err? then Err(total.error)
    else if total.value > |bytes| then Err(OutOfBounds(total.value, |bytes|))
    else Ok(RawEntry(bytes[LENGTH_FIELDS_SIZE..total.value], family, sample, labels))
  }

  predicate Fits(family: seq<byte>, sample: seq<byte>, labels: seq<byte>) {
    |family| <= U32_MAX && |sample| <= U32_MAX && |labels| <= U32_MAX
  }

  /** The part of an entry that readers decode when they parse: lengths and text. */
  function KeyPart(family: seq<byte>, sample: seq<byte>, labels: seq<byte>): (r: seq<byte>)
    requires Fits(family, sample, labels)
    ensures |r| == LENGTH_FIELDS_SIZE + |family| + |sample| + |labels|
  {
    U32Bytes(|family|) + U32Bytes(|sample|) + U32Bytes(|labels|) + family + sample + labels
  }

  function Spaces(n: nat): (r: seq<byte>)
    ensures |r| == n
  {
    seq(n, i => SPACE)
  }

  /** The byte image of a whole entry. */
  function EntryBytes(family: seq<byte>, sample: seq<byte>, labels: seq<byte>, value: Bits): (r: seq<byte>)
    requires Fits(family, sample, labels)
    ensures |r| == CalcTotalLen(|family|, |sample|, |labels|).value
  {
    KeyPart(family, sample, labels)
    + Spaces(PaddingLen(|family|, |sample|, |labels|).value)
    + value
  }

  /** For instance an entry of 24 bytes: the length words, "a", "b", two spaces and the value. */
  lemma EntryHere(value: Bits)
    ensures Fits([0x61], [0x62], [])
    ensures EntryBytes([0x61], [0x62], [], value)
         == [1, 0, 0, 0, 1, 0, 0, 0, 0, 0, 0, 0, 0x61, 0x62, 0x20, 0x20] + value
  {
    assert U32Bytes(1) == [1, 0, 0, 0] && U32Bytes(0) == [0, 0, 0, 0];
    assert PaddingLen(1, 1, 0).value == 2 && Spaces(2) == [0x20, 0x20];
    assert KeyPart([0x61], [0x62], []) == [1, 0, 0, 0, 1, 0, 0, 0, 0, 0, 0, 0, 0x61, 0x62];
  }

  /** What `from_slice` accepts, for arbitrary bytes: the announced entry must fit, and every accessor
      then reads its own slice of the input, the value at `calc_value_offset`. */
  lemma FromSliceMeaning(b: seq<byte>)
    ensures FromSlice(b).Ok? <==>
              |b| >= 12 && CalcTotalLen(U32At(b, 0), U32At(b, 4), U32At(b, 8)).value <= |b|
    ensures FromSlice(b).Ok? ==>
              var e := FromSlice(b).value;
              var f, s, l := U32At(b, 0), U32At(b, 4), U32At(b, 8);
              && e.familyLen == f && e.sampleLen == s && e.labelsLen == l
              && e.FamilyBytes() == b[12..12 + f]
              && e.SampleBytes() == b[12 + f..12 + f + s]
              && e.LabelsBytes() == b[12 + f + s..12 + f + s + l]
              && e.ValueOffset() + 8 == e.TotalLen()
              && e.Value() == b[e.ValueOffset()..e.ValueOffset() + 8]
  {
    if FromSlice(b).Ok? {
      var e := FromSlice(b).value;
      var f, s, l, total := e.familyLen, e.sampleLen, e.labelsLen, e.TotalLen();
      SliceOfSlice(b, 12, total, 0, f);
      SliceOfSlice(b, 12, total, f, f + s);
      SliceOfSlice(b, 12, total, f + s, f + s + l);
      SliceOfSlice(b, 12, total, e.ValueOffset() - 12, total - 12);
    }
  }

  lemma KeyPartWords(family: seq<byte>, sample: seq<byte>, labels: seq<byte>, b: seq<byte>)
    requires Fits(family, sample, labels)
    requires KeyPart(family, sample, labels) <= b
    ensures U32At(b, 0) == |family| && U32At(b, 4) == |sample| && U32At(b, 8) == |labels|
    ensures b[12..12 + |family|] == family
    ensures b[12 + |family|..12 + |family| + |sample|] == sample
    ensures b[12 + |family| + |sample|..12 + |family| + |sample| + |labels|] == labels
  {
    var k := KeyPart(family, sample, labels);
    assert b[..|k|] == k;
    assert b[0..4] == k[0..4] == U32Bytes(|family|);
    assert b[4..8] == k[4..8] == U32Bytes(|sample|);
    assert b[8..12] == k[8..12] == U32Bytes(|labels|);
    U32Local(b, 0, U32Bytes(|family|));
    U32Local(b, 4, U32Bytes(|sample|));
    U32Local(b, 8, U32Bytes(|labels|));
    U32RoundTrip(|family|);
    U32RoundTrip(|sample|);
    U32RoundTrip(|labels|);
  }

  /** Decoding is a left inverse of encoding, whatever follows the entry. */
  lemma RoundTrip(family: seq<byte>, sample: seq<byte>, labels: seq<byte>, value: Bits, tail: seq<byte>)
    requires Fits(family, sample, labels)
    ensures var r := FromSlice(EntryBytes(family, sample, labels, value) + tail);
            && r.Ok?
            && r.value.FamilyBytes() == family
            && r.value.SampleBytes() == sample
            && r.value.LabelsBytes() == labels
            && r.value.Value() == value
            && r.value.TotalLen() == |EntryBytes(family, sample, labels, value)|
            && r.value.ValueOffset() == CalcValueOffset(|family|, |sample|, |labels|).value
  {
    var entry := EntryBytes(family, sample, labels, value);
    var b := entry + tail;
    KeyPartWords(family, sample, labels, b);
    FromSliceMeaning(b);
    assert b[|entry| - 8..|entry|] == value;
  }

  lemma ReencodeKey(b: seq<byte>, f: nat, s: nat, l: nat)
    requires 12 + f + s + l <= |b| && f <= U32_MAX && s <= U32_MAX && l <= U32_MAX
    requires U32At(b, 0) == f && U32At(b, 4) == s && U32At(b, 8) == l
    ensures KeyPart(b[12..12 + f], b[12 + f..12 + f + s], b[12 + f + s..12 + f + s + l]) == b[..12 + f + s + l]
  {
    U32BytesAt(b, 0);
    U32BytesAt(b, 4);
    U32BytesAt(b, 8);
    SplitFive(b, f, s, l);
  }

  lemma ValuePart(family: seq<byte>, sample: seq<byte>, labels: seq<byte>, value: Bits)
    requires Fits(family, sample, labels)
    ensures var offset := CalcValueOffset(|family|, |sample|, |labels|).value;
            && offset + 8 == |EntryBytes(family, sample, labels, value)|
            && EntryBytes(family, sample, labels, value)[offset..] == value
  {
  }

  /** The converse: bytes that are accepted are the image of the decoded fields everywhere except in
      the padding, which no reader looks at. */
  lemma Reencode(b: seq<byte>)
    requires FromSlice(b).Ok?
    ensures var e := FromSlice(b).value;
            && Fits(e.FamilyBytes(), e.SampleBytes(), e.LabelsBytes())
            && KeyPart(e.FamilyBytes(), e.SampleBytes(), e.LabelsBytes()) <= b
            && EntryBytes(e.FamilyBytes(), e.SampleBytes(), e.LabelsBytes(), e.Value())[e.ValueOffset()..]
                 == b[e.ValueOffset()..e.TotalLen()]
  {
    FromSliceMeaning(b);
    var e := FromSlice(b).value;
    ReencodeKey(b, e.familyLen, e.sampleLen, e.labelsLen);
    ValuePart(e.FamilyBytes(), e.SampleBytes(), e.LabelsBytes(), e.Value());
  }

  lemma SplitFive(b: seq<byte>, f: nat, s: nat, l: nat)
    requires 12 + f + s + l <= |b|
    ensures b[..12 + f + s + l] == b[0..4] + b[4..8] + b[8..12] + b[12..12 + f] + b[12 + f..12 + f + s] + b[12 + f + s..12 + f + s + l]
  {
  }

  lemma PrefixAt(short: seq<byte>, long: seq<byte>, n: nat, lo: nat, hi: nat)
    requires lo <= hi <= n <= |short| && short[..n] <= long
    ensures long[lo..hi] == short[lo..hi]
  {
    assert long[..n] == short[..n];
    assert long[lo..hi] == long[..n][lo..hi] && short[lo..hi] == short[..n][lo..hi];
  }

  /** The text of an accepted entry, cut out of the bytes between the lengths and the padding. */
  lemma BodyFields(b: seq<byte>)
    requires FromSlice(b).Ok?
    ensures var e := FromSlice(b).value;
            var n := 12 + e.familyLen + e.sampleLen + e.labelsLen;
            && n <= |b|
            && e.FamilyBytes() == b[12..n][..e.familyLen]
            && e.SampleBytes() == b[12..n][e.familyLen..e.familyLen + e.sampleLen]
            && e.LabelsBytes() == b[12..n][e.familyLen + e.sampleLen..]
  {
    hide FromSlice;
    FromSliceMeaning(b);
    var e := FromSlice(b).value;
    var f, s, l := e.familyLen, e.sampleLen, e.labelsLen;
    var n := 12 + f + s + l;
    SliceOfSlice(b, 12, n, 0, f);
    SliceOfSlice(b, 12, n, f, f + s);
    SliceOfSlice(b, 12, n, f + s, f + s + l);
    assert |b[12..n]| == f + s + l;
  }

  lemma SameWords(short: seq<byte>, long: seq<byte>, n: nat)
    requires 12 <= n <= |short| && short[..n] <= long
    ensures U32At(long, 0) == U32At(short, 0) && U32At(long, 4) == U32At(short, 4) && U32At(long, 8) == U32At(short, 8)
  {
    PrefixAt(short, long, n, 0, 4);
    PrefixAt(short, long, n, 4, 8);
    PrefixAt(short, long, n, 8, 12);
    U32Local(long, 0, short[0..4]);
    U32Local(short, 0, short[0..4]);
    U32Local(long, 4, short[4..8]);
    U32Local(short, 4, short[4..8]);
    U32Local(long, 8, short[8..12]);
    U32Local(short, 8, short[8..12]);
  }

  /** A longer view of the same bytes accepts everything a shorter one accepts, and decodes it alike. */
  lemma FromSliceMonotone(short: seq<byte>, long: seq<byte>)
    requires FromSlice(short).Ok?
    requires |short| <= |long|
    requires var e := FromSlice(short).value; short[..12 + e.familyLen + e.sampleLen + e.labelsLen] <= long
    ensures FromSlice(long).Ok?
    ensures var e, g := FromSlice(short).value, FromSlice(long).value;
            && e.familyLen == g.familyLen && e.sampleLen == g.sampleLen && e.labelsLen == g.labelsLen
            && e.FamilyBytes() == g.FamilyBytes()
            && e.SampleBytes() == g.SampleBytes()
            && e.LabelsBytes() == g.LabelsBytes()
  {
    var e := FromSlice(short).value;
    var n := 12 + e.familyLen + e.sampleLen + e.labelsLen;
    SameWords(short, long, n);
    PrefixAt(short, long, n, 12, n);
    assert long[12..n] == short[12..n];
    BodyFields(short);
    BodyFields(long);
  }

  method CopyInto(dst: array<byte>, pos: nat, src: seq<byte>)
    requires pos + |src| <= dst.Length
    modifies dst
    ensures dst[..] == Patch(old(dst[..]), pos, src)
  {
    for i := 0 to |src|
      invariant forall k | 0 <= k < dst.Length ::
                  dst[k] == if pos <= k < pos + i then src[k - pos] else old(dst[k])
    {
      dst[pos + i] := src[i];
    }
  }

  /** Writes the next field of an entry whose bytes `done` are already in place. */
  method WriteField(dst: array<byte>, start: nat, ghost was: seq<byte>, ghost done: seq<byte>, pos: nat, src: seq<byte>)
    returns (ghost done': seq<byte>)
    requires |was| == dst.Length && pos == start + |done| && pos + |src| <= dst.Length
    requires dst[..] == Patch(was, start, done)
    modifies dst
    ensures done' == done + src && dst[..] == Patch(was, start, done')
  {
    CopyInto(dst, pos, src);
    PatchJoin(was, start, done, src);
    done' := done + src;
  }

  /** `RawEntry::save` on the window `[start, end)` of a buffer. */
  method Save(dst: array<byte>, start: nat, end: nat, family: seq<byte>, sample: seq<byte>, labels: seq<byte>, value: Bits)
    returns (r: Result<nat>)
    requires start <= end <= dst.Length
    modifies dst
    ensures r.Ok? <==> Fits(family, sample, labels) && CalcTotalLen(|family|, |sample|, |labels|).value <= end - start
    ensures r.Ok? ==> dst[..] == Patch(old(dst[..]), start, EntryBytes(family, sample, labels, value))
    ensures r.Ok? ==> r.value == CalcValueOffset(|family|, |sample|, |labels|).value
    ensures r.Err? ==> dst[..] == old(dst[..])
  {
    var total := CalcTotalLen(|family|, |sample|, |labels|);
    if total.Err? { return Err(total.error); }
    if total.value > end - start { return Err(EntryTooLarge(total.value, end - start)); }
    SaveFields(dst, start, family, sample, labels, value);
    r := CalcValueOffset(|family|, |sample|, |labels|);
  }

  /** The length words and the text. */
  method SaveKey(dst: array<byte>, start: nat, family: seq<byte>, sample: seq<byte>, labels: seq<byte>)
    requires Fits(family, sample, labels)
    requires start + |KeyPart(family, sample, labels)| <= dst.Length
    modifies dst
    ensures dst[..] == Patch(old(dst[..]), start, KeyPart(family, sample, labels))
  {
    ghost var was := dst[..];
    ghost var done := WriteField(dst, start, was, [], start, U32Bytes(|family|));
    done := WriteField(dst, start, was, done, start + 4, U32Bytes(|sample|));
    done := WriteField(dst, start, was, done, start + 8, U32Bytes(|labels|));
    var pos := start + LENGTH_FIELDS_SIZE;
    done := WriteField(dst, start, was, done, pos, family);
    pos := pos + |family|;
    done := WriteField(dst, start, was, done, pos, sample);
    pos := pos + |sample|;
    done := WriteField(dst, start, was, done, pos, labels);
    assert done == KeyPart(family, sample, labels);
  }

  /** The writes of `save`, one field after the other. */
  method SaveFields(dst: array<byte>, start: nat, family: seq<byte>, sample: seq<byte>, labels: seq<byte>, value: Bits)
    requires Fits(family, sample, labels)
    requires start + |EntryBytes(family, sample, labels, value)| <= dst.Length
    modifies dst
    ensures dst[..] == Patch(old(dst[..]), start, EntryBytes(family, sample, labels, value))
  {
    hide KeyPart;
    ghost var was, done := dst[..], KeyPart(family, sample, labels);
    SaveKey(dst, start, family, sample, labels);
    var pos := start + LENGTH_FIELDS_SIZE + |family| + |sample| + |labels|;
    var padLen := PaddingLen(|family|, |sample|, |labels|).value;
    done := WriteField(dst, start, was, done, pos, Spaces(padLen));
    pos := pos + padLen;
    done := WriteField(dst, start, was, done, pos, value);
    assert done == EntryBytes(family, sample, labels, value);
  }
}
