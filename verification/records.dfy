/** Records as bytes in MRAM.

    The DPU and the host exchange `Example` records by copying their bytes:
    an `int32_t` is four little-endian two's-complement bytes, a `char` one
    byte. dtest2.c fills a record, writes `(sizeof(Example) + 7) & ~7` bytes of
    it to MRAM and reads them back into a second record. dtest_host1.c builds
    the host-side record from a domain name before copying it to the device. */
module Records {
  import opened Wrappers
  import opened Align
  import opened Layout
  import opened Transfer
  import opened Domains
  import opened Vocabulary

  const TWO31: int := 0x8000_0000
  const TWO32: int := 0x1_0000_0000

  predicate IsInt32(v: int) {
    -TWO31 <= v < TWO31
  }

  predicate AllInt32(vs: seq<int>) {
    forall i :: 0 <= i < |vs| ==> IsInt32(vs[i])
  }

  predicate IsOctet(b: int) {
    0 <= b < 256
  }

  predicate Octets(bs: seq<int>) {
    forall i :: 0 <= i < |bs| ==> IsOctet(bs[i])
  }

  // ---------------------------------------------------------------------
  // Scalars.

  /** The four bytes of an `int32_t`, least significant first. */
  function EncodeInt32(v: int): (bs: seq<int>)
    requires IsInt32(v)
    ensures |bs| == 4 && Octets(bs)
  {
    var u := if v < 0 then v + TWO32 else v;
    [u % 256, (u / 256) % 256, (u / 256 / 256) % 256, u / 256 / 256 / 256]
  }

  /** The `int32_t` four bytes hold. */
  function DecodeInt32(bs: seq<int>): (v: int)
    requires |bs| == 4 && Octets(bs)
    ensures IsInt32(v)
  {
    var u := bs[0] + 256 * bs[1] + 65536 * bs[2] + 16777216 * bs[3];
    if u >= TWO31 then u - TWO32 else u
  }

  lemma Int32RoundTrip(v: int)
    requires IsInt32(v)
    ensures DecodeInt32(EncodeInt32(v)) == v
  {
  }

  lemma Int32BytesRoundTrip(bs: seq<int>)
    requires |bs| == 4 && Octets(bs)
    ensures EncodeInt32(DecodeInt32(bs)) == bs
  {
    var k2 := bs[2] + 256 * bs[3];
    var k1 := bs[1] + 256 * k2;
    var u := bs[0] + 256 * k1;
    assert u == bs[0] + 256 * bs[1] + 65536 * bs[2] + 16777216 * bs[3];
    DigitSplit(bs[0], k1);
    DigitSplit(bs[1], k2);
    DigitSplit(bs[2], bs[3]);
  }

  /** Splitting off the low byte of `b + 256 k`. */
  lemma DigitSplit(b: int, k: int)
    requires IsOctet(b)
    ensures (b + 256 * k) % 256 == b && (b + 256 * k) / 256 == k
  {
  }

  /** An `int32_t` array, element by element. */
  function EncodeInts(vs: seq<int>): (bs: seq<int>)
    requires AllInt32(vs)
    ensures |bs| == 4 * |vs| && Octets(bs)
  {
    if |vs| == 0 then [] else EncodeInt32(vs[0]) + EncodeInts(vs[1..])
  }

  function DecodeInts(bs: seq<int>): (vs: seq<int>)
    requires |bs| % 4 == 0 && Octets(bs)
    ensures |vs| == |bs| / 4 && AllInt32(vs)
    decreases |bs|
  {
    if |bs| == 0 then [] else [DecodeInt32(bs[..4])] + DecodeInts(bs[4..])
  }

  lemma {:induction false} IntsRoundTrip(vs: seq<int>)
    requires AllInt32(vs)
    ensures DecodeInts(EncodeInts(vs)) == vs
  {
    if |vs| > 0 {
      var bs := EncodeInts(vs);
      assert bs[..4] == EncodeInt32(vs[0]);
      assert bs[4..] == EncodeInts(vs[1..]);
      Int32RoundTrip(vs[0]);
      IntsRoundTrip(vs[1..]);
    }
  }

  lemma {:induction false} IntsBytesRoundTrip(bs: seq<int>)
    requires |bs| % 4 == 0 && Octets(bs)
    ensures EncodeInts(DecodeInts(bs)) == bs
    decreases |bs|
  {
    if |bs| > 0 {
      var vs := DecodeInts(bs);
      assert vs[0] == DecodeInt32(bs[..4]);
      assert vs[1..] == DecodeInts(bs[4..]);
      Int32BytesRoundTrip(bs[..4]);
      IntsBytesRoundTrip(bs[4..]);
      assert bs == bs[..4] + bs[4..];
    }
  }

  /** A `char` array, one byte per character. */
  function EncodeChars(s: seq<char>): (bs: seq<int>)
    requires AllBytes(s)
    ensures |bs| == |s| && Octets(bs)
  {
    seq(|s|, i requires 0 <= i < |s| => s[i] as int)
  }

  function DecodeChars(bs: seq<int>): (s: seq<char>)
    requires Octets(bs)
    ensures |s| == |bs| && AllBytes(s)
  {
    seq(|bs|, i requires 0 <= i < |bs| => bs[i] as char)
  }

  lemma CharsRoundTrip(s: seq<char>)
    requires AllBytes(s)
    ensures DecodeChars(EncodeChars(s)) == s
  {
  }

  lemma CharsBytesRoundTrip(bs: seq<int>)
    requires Octets(bs)
    ensures EncodeChars(DecodeChars(bs)) == bs
  {
  }

  // ---------------------------------------------------------------------
  // The dtest2.c record.

  const NAME_LEN: nat := 120
  const EXTRA_LEN: nat := 6

  /** Field offsets of the dtest2.c `Example`; the record has no padding. */
  const NAME_AT: nat := 4
  const IDS_AT: nat := 124
  const EXTRA_AT: nat := 604
  const LABEL_AT: nat := 628
  const RECORD_SIZE: nat := 632

  datatype Example = Example(domainLen: int, name: seq<char>, charIds: seq<int>, extra: seq<int>, cls: int)

  predicate WellFormed(r: Example) {
    IsInt32(r.domainLen) && |r.name| == NAME_LEN && AllBytes(r.name) &&
    |r.charIds| == NAME_LEN && AllInt32(r.charIds) &&
    |r.extra| == EXTRA_LEN && AllInt32(r.extra) && IsInt32(r.cls)
  }

  /** The offsets used here are those of the C declaration, and the record
      fills its `aligned(8)` size exactly. */
  lemma RecordLayout()
    ensures Offsets(RoundTripExample.fields, 0) == [0, NAME_AT, IDS_AT, EXTRA_AT, LABEL_AT]
    ensures SizeOf(RoundTripExample) == RECORD_SIZE == LABEL_AT + 4
  {
    RoundTripOffsets();
    RoundTripEnd();
  }

  /** The record sizes the step loops of dga.c and dgaa1.c run over are
      those of their declarations. */
  lemma StepLoopRecordSizes()
    ensures SizeOf(DgaExample) == DGA_RECORD
    ensures SizeOf(DgaaExample) == DGAA_RECORD
  {
    UnalignedExampleSizes();
    AlignedExampleSizes();
  }

  /** The bytes of a record, as `mram_write` sends them. */
  function Encode(r: Example): (bs: seq<int>)
    requires WellFormed(r)
    ensures |bs| == RECORD_SIZE && Octets(bs)
  {
    EncodeInt32(r.domainLen) + EncodeChars(r.name) + EncodeInts(r.charIds) + EncodeInts(r.extra) + EncodeInt32(r.cls)
  }

  /** The record `mram_read` rebuilds from bytes. */
  function Decode(bs: seq<int>): (r: Example)
    requires |bs| == RECORD_SIZE && Octets(bs)
    ensures WellFormed(r)
  {
    Example(DecodeInt32(bs[..NAME_AT]), DecodeChars(bs[NAME_AT..IDS_AT]), DecodeInts(bs[IDS_AT..EXTRA_AT]),
            DecodeInts(bs[EXTRA_AT..LABEL_AT]), DecodeInt32(bs[LABEL_AT..]))
  }

  lemma RecordRoundTrip(r: Example)
    requires WellFormed(r)
    ensures Decode(Encode(r)) == r
  {
    var bs := Encode(r);
    assert bs[..NAME_AT] == EncodeInt32(r.domainLen);
    assert bs[NAME_AT..IDS_AT] == EncodeChars(r.name);
    assert bs[IDS_AT..EXTRA_AT] == EncodeInts(r.charIds);
    assert bs[EXTRA_AT..LABEL_AT] == EncodeInts(r.extra);
    assert bs[LABEL_AT..] == EncodeInt32(r.cls);
    Int32RoundTrip(r.domainLen);
    CharsRoundTrip(r.name);
    IntsRoundTrip(r.charIds);
    IntsRoundTrip(r.extra);
    Int32RoundTrip(r.cls);
  }

  lemma BytesRoundTrip(bs: seq<int>)
    requires |bs| == RECORD_SIZE && Octets(bs)
    ensures Encode(Decode(bs)) == bs
  {
    Int32BytesRoundTrip(bs[..NAME_AT]);
    CharsBytesRoundTrip(bs[NAME_AT..IDS_AT]);
    IntsBytesRoundTrip(bs[IDS_AT..EXTRA_AT]);
    IntsBytesRoundTrip(bs[EXTRA_AT..LABEL_AT]);
    Int32BytesRoundTrip(bs[LABEL_AT..]);
    assert bs == bs[..NAME_AT] + bs[NAME_AT..IDS_AT] + bs[IDS_AT..EXTRA_AT] + bs[EXTRA_AT..LABEL_AT] + bs[LABEL_AT..];
  }

  /** `aligned_size = (sizeof(Example) + 7) & ~7` changes nothing, since the
      record is `aligned(8)`, and is one legal transfer. dtest_host2.c rounds
      its own 856-byte record the same way, and dtest_host1.c its 352-byte one. */
  lemma AlignedSizes()
    ensures MaskRoundUp(SizeOf(RoundTripExample)) == SizeOf(RoundTripExample) == RECORD_SIZE
    ensures MaskRoundUp(SizeOf(Host2Example)) == SizeOf(Host2Example) == 856
    ensures MaskRoundUp(SizeOf(PaddedExample(64))) == SizeOf(PaddedExample(64)) == 352
    ensures LegalChunks([Chunk(0, RECORD_SIZE)], MAX_CHUNK)
  {
    AlignedExampleSizes();
    RoundUpFormsAgree(632);
    RoundUpFormsAgree(856);
    RoundUpFormsAgree(352);
  }

  /** dga1.c's record declared `aligned(8)`, as its padding comment intends:
      672 bytes, which the rounding helpers copy in one legal chunk instead of
      stalling after 664 bytes. */
  lemma Dga1AlignedRecordCopies()
    ensures SizeOf(PlainExample(130, 2, true)) == 672
    ensures AlignedChunks(672, MAX_CHUNK, 0) == Success([Chunk(0, 672)])
    ensures LegalChunks([Chunk(0, 672)], MAX_CHUNK)
  {
    Dga1End();
    assert EndOf(PlainExample(130, 2, true).fields, 0) == 668;
    SingleChunk(672, MAX_CHUNK);
  }

  /** `mram_write` of `size` bytes of the record's image to the start of the
      MRAM variable: one copy of `[0, size)`. */
  function MramWrite(image: seq<int>, mram: seq<int>, size: nat): (m: seq<int>)
    requires size <= |image| && size <= |mram|
    ensures |m| == |mram|
    ensures Octets(image) && Octets(mram) ==> Octets(m)
  {
    var cs := [Chunk(0, size)];
    assert CopyChunks(image, mram, cs) == CopyChunks(image, mram[..0] + image[0..size] + mram[size..], cs[1..]);
    CopyChunks(image, mram, cs)
  }

  /** The write then the read of dtest2.c: the record read back equals the
      record written, field by field, whatever MRAM held before. */
  lemma WriteReadRoundTrip(r: Example, mram: seq<int>)
    requires WellFormed(r) && |mram| >= RECORD_SIZE && Octets(mram)
    ensures MramWrite(Encode(r), mram, RECORD_SIZE)[..RECORD_SIZE] == Encode(r)
    ensures Decode(MramWrite(Encode(r), mram, RECORD_SIZE)[..RECORD_SIZE]) == r
    ensures MramWrite(Encode(r), mram, RECORD_SIZE)[RECORD_SIZE..] == mram[RECORD_SIZE..]
  {
    var cs := [Chunk(0, RECORD_SIZE)];
    assert Tiles(cs[1..], RECORD_SIZE, RECORD_SIZE);
    CopyTilingDelivers(Encode(r), mram, cs, 0, RECORD_SIZE);
    assert Encode(r)[0..RECORD_SIZE] == Encode(r);
    RecordRoundTrip(r);
  }

  /** The record dtest2.c fills: the name "domain.com" copied by `strncpy`
      into the 120-byte field (NUL-padded), its ten codes as ids, `extra_data[i]`
      = 10 i and label 1. The ids after the name are never written; `stale`
      stands for them. */
  function SampleRecord(stale: seq<int>): (r: Example)
    requires |stale| == NAME_LEN && AllInt32(stale)
    ensures WellFormed(r)
    ensures r.domainLen == 10 && r.cls == 1
    ensures forall i :: 0 <= i < 10 ==> r.charIds[i] == "domain.com"[i] as int
    ensures forall i :: 10 <= i < NAME_LEN ==> r.charIds[i] == stale[i]
    ensures forall i :: 0 <= i < EXTRA_LEN ==> r.extra[i] == 10 * i
  {
    var name := StrncpyField("domain.com", NAME_LEN);
    assert AllBytes(name);
    Example(10, name,
            seq(NAME_LEN, i requires 0 <= i < NAME_LEN => if i < 10 then SignedCode(name[i]) else stale[i]),
            seq(EXTRA_LEN, i requires 0 <= i < EXTRA_LEN => 10 * i), 1)
  }

  /** What dtest2.c reads back from MRAM is what it wrote: the length 10, the
      name terminated after ten characters, the ten codes, `extra_data` and
      the label. */
  lemma SampleReadsBack(stale: seq<int>, mram: seq<int>)
    requires |stale| == NAME_LEN && AllInt32(stale)
    requires |mram| >= RECORD_SIZE && Octets(mram)
    ensures var back := Decode(MramWrite(Encode(SampleRecord(stale)), mram, RECORD_SIZE)[..RECORD_SIZE]);
      back.domainLen == 10 && back.cls == 1 &&
      Strlen(back.name) == Some(10) && back.name[..10] == "domain.com" &&
      (forall i :: 0 <= i < 10 ==> back.charIds[i] == "domain.com"[i] as int) &&
      (forall i :: 0 <= i < EXTRA_LEN ==> back.extra[i] == 10 * i)
  {
    WriteReadRoundTrip(SampleRecord(stale), mram);
    var name := SampleRecord(stale).name;
    assert name == StrncpyField("domain.com", NAME_LEN);
    assert name[..10] == "domain.com";
    StrlenIsFirstNul(name, 10);
  }

  // ---------------------------------------------------------------------
  // The dtest_host1.c host record.

  const HOST_LEN: nat := 64

  /** The fields of the dtest_host1.c `Example` the host sets; the padding
      words stay 0 from the `memset`. */
  datatype HostExample = HostExample(domainLen: int, name: seq<char>, charIds: seq<int>, cls: int)

  /** `memset(&example, 0, ...)`, `domain_len = strlen(d)`, `strncpy` of the
      name into its 64-byte field, and `char_ids[i] = get_char_id(d[i])`, the
      signed code of the character, for `i < domain_len`. A name longer than
      the id array would be written past it, so the name must fit. */
  function HostRecord(d: seq<char>): (r: HostExample)
    requires NoNul(d) && AllBytes(d) && |d| <= HOST_LEN
    ensures r.domainLen == |d| && r.cls == 0
    ensures |r.name| == HOST_LEN && |r.charIds| == HOST_LEN
    ensures forall i :: 0 <= i < |d| ==> r.charIds[i] == SignedCode(d[i])
    ensures forall i :: |d| <= i < HOST_LEN ==> r.charIds[i] == 0
  {
    HostExample(|d|, StrncpyField(d, HOST_LEN),
                seq(HOST_LEN, i requires 0 <= i < HOST_LEN => if i < |d| then SignedCode(d[i]) else 0), 0)
  }

  /** The table `get_char_id` stands for: every code maps to itself. */
  function IdentityTable(): (t: seq<int>)
    ensures |t| == 128 && forall c :: 0 <= c < 128 ==> t[c] == c
  {
    seq(128, c requires 0 <= c < 128 => c)
  }

  /** The host computes the ids the device preprocessor would compute from the
      record's name with an identity table: for an ASCII name shorter than the
      field the two agree entry for entry. */
  lemma HostIdsMatchPreprocessor(d: seq<char>)
    requires NoNul(d) && AllBytes(d) && |d| < HOST_LEN
    requires forall i :: 0 <= i < |d| ==> (d[i] as int) < 128
    ensures AllBytes(HostRecord(d).name)
    ensures Preprocess(HostRecord(d).name, IdentityTable(), HOST_LEN) == Success(HostRecord(d).charIds)
  {
    var f := StrncpyField(d, HOST_LEN);
    assert f[..|d|] == d;
    StrlenIsFirstNul(f, |d|);
    PreprocessSucceedsIff(f, IdentityTable(), HOST_LEN);
    forall i | 0 <= i < |d| ensures 0 <= SignedCode(f[i]) < 128 {
      assert f[i] == d[i];
    }
    var ids := Preprocess(f, IdentityTable(), HOST_LEN).value;
    forall i | 0 <= i < HOST_LEN ensures ids[i] == HostRecord(d).charIds[i] {
      if i < |d| {
        assert f[i] == d[i];
      }
    }
    assert ids == HostRecord(d).charIds;
  }

  /** The host name of dtest_host1.c fits the record: 23 ASCII characters. */
  lemma HostSampleFits()
    ensures var d := "baisad55du.comdddddddda";
      |d| == 23 && NoNul(d) && AllBytes(d) && HostRecord(d).domainLen == 23
  {
  }
}
