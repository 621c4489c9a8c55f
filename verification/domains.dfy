/** How the hosts lay domain names out in the DPU's `mram_domains` region.

    Two layouts occur. The slot layout (dtest_host.c, dtest_host1.c,
    dtest_host2.c) copies each name with its terminator into a zeroed staging
    buffer and sends `strlen + 1` rounded up to a multiple of 8 bytes of it,
    at an offset that is the sum of the earlier slot sizes. The packed layout
    (dga_host4.c) writes the terminated names back to back and rounds only
    the total; dga_host5.c only computes that rounded total, `PackedTotal`,
    and sends the pointer array in its place. A name is a C string: a
    sequence of non-NUL characters, its terminator implicit. */
module Domains {
  import opened Wrappers
  import opened Align
  import opened Transfer

  const NUL: char := 0 as char

  predicate NoNul(s: seq<char>) {
    forall i :: 0 <= i < |s| ==> s[i] != NUL
  }

  predicate AllNoNul(ds: seq<seq<char>>) {
    forall k :: 0 <= k < |ds| ==> NoNul(ds[k])
  }

  function Zeros(n: nat): (z: seq<char>)
    ensures |z| == n
    ensures forall i :: 0 <= i < n ==> z[i] == NUL
  {
    seq(n, _ => NUL)
  }

  /** The C string starting at `off`: the characters up to the first NUL, or
      up to the end of memory if there is none. */
  function ReadCString(mem: seq<char>, off: nat): (s: seq<char>)
    ensures NoNul(s)
    ensures off + |s| <= |mem| || |s| == 0
    decreases |mem| - off
  {
    if off >= |mem| || mem[off] == NUL then []
    else [mem[off]] + ReadCString(mem, off + 1)
  }

  /** `mem` holds name `d` at `off`, terminator included. */
  predicate HoldsName(mem: seq<char>, off: nat, d: seq<char>) {
    off + |d| < |mem| && mem[off .. off + |d|] == d && mem[off + |d|] == NUL
  }

  /** A name followed by its terminator, appended to memory, sits where the
      memory ended. */
  lemma HoldsNameAtEnd(prefix: seq<char>, tail: seq<char>, d: seq<char>)
    requires |d| < |tail| && tail[..|d|] == d && tail[|d|] == NUL
    ensures HoldsName(prefix + tail, |prefix|, d)
  {
    assert (prefix + tail)[|prefix| .. |prefix| + |d|] == tail[..|d|];
  }

  /** Appending to memory keeps what it holds. */
  lemma HoldsNameExtends(a: seq<char>, b: seq<char>, off: nat, d: seq<char>)
    requires HoldsName(a, off, d)
    ensures HoldsName(a + b, off, d)
  {
    assert (a + b)[off .. off + |d|] == a[off .. off + |d|];
  }

  /** A name held at `off` reads back as the name. */
  lemma {:induction false} ReadCStringOfCopy(mem: seq<char>, off: nat, d: seq<char>)
    requires NoNul(d) && HoldsName(mem, off, d)
    ensures ReadCString(mem, off) == d
    decreases |d|
  {
    if |d| > 0 {
      assert mem[off] == d[0];
      assert mem[off + 1 .. off + 1 + |d[1..]|] == d[1..];
      ReadCStringOfCopy(mem, off + 1, d[1..]);
      assert d == [d[0]] + d[1..];
    }
  }

  // ---------------------------------------------------------------------
  // The slot layout.

  /** `aligned_len`: the name and its terminator, rounded up to 8 bytes. */
  function SlotSize(d: seq<char>): (n: nat)
    ensures Aligned(n) && |d| + 1 <= n < |d| + 9
  {
    PadRoundUp(|d| + 1)
  }

  datatype DomainError =
    | NameTooLong(index: nat)
    | StagingOverread(index: nat)

  /** The bytes sent for name `k`: `strncpy` of `strlen + 1` bytes into a
      zeroed `staging`-byte buffer, of which `aligned_len` bytes are copied.
      A name whose terminator does not fit overflows the buffer; a slot larger
      than the buffer reads past it. */
  function SlotImage(d: seq<char>, k: nat, staging: nat): Result<seq<char>, DomainError> {
    if |d| + 1 > staging then Failure(NameTooLong(k))
    else if SlotSize(d) > staging then Failure(StagingOverread(k))
    else Success(d + Zeros(SlotSize(d) - |d|))
  }

  /** Where slot `k` starts: the sum of the sizes of the slots before it. */
  function SlotOffset(ds: seq<seq<char>>, k: nat): nat
    requires k <= |ds|
  {
    if k == 0 then 0 else SlotOffset(ds, k - 1) + SlotSize(ds[k - 1])
  }

  /** The copies the slot loop issues for the first `count` names. */
  function SlotChunks(ds: seq<seq<char>>, count: nat): (cs: seq<Chunk>)
    requires count <= |ds|
    ensures |cs| == count
  {
    if count == 0 then [] else SlotChunks(ds, count - 1) + [Chunk(SlotOffset(ds, count - 1), SlotSize(ds[count - 1]))]
  }

  /** The MRAM image the slot loop writes for the first `count` names, or the
      first name whose slot does not fit the staging buffer. */
  function PackSlots(ds: seq<seq<char>>, count: nat, staging: nat): Result<seq<char>, DomainError>
    requires count <= |ds|
  {
    if count == 0 then Success([])
    else
      var prefix :- PackSlots(ds, count - 1, staging);
      var slot :- SlotImage(ds[count - 1], count - 1, staging);
      Success(prefix + slot)
  }

  /** Every slot offset is a multiple of 8, so `check_alignment(offset,
      aligned_len)` passes for every name's copy, and the offsets only grow. */
  lemma {:induction false} SlotOffsetsAligned(ds: seq<seq<char>>, k: nat)
    requires k <= |ds|
    ensures Aligned(SlotOffset(ds, k))
    ensures forall j :: 0 <= j <= k ==> SlotOffset(ds, j) <= SlotOffset(ds, k)
    ensures CheckAlignment(SlotOffset(ds, k), 0) == Pass
    ensures k < |ds| ==> CheckAlignment(SlotOffset(ds, k), SlotSize(ds[k])) == Pass
  {
    SlotOffsetAligned(ds, k);
    SlotOffsetsGrow(ds, k);
  }

  lemma {:induction false} SlotOffsetAligned(ds: seq<seq<char>>, k: nat)
    requires k <= |ds|
    ensures Aligned(SlotOffset(ds, k))
  {
    if k > 0 {
      SlotOffsetAligned(ds, k - 1);
    }
  }

  lemma {:induction false} SlotOffsetsGrow(ds: seq<seq<char>>, k: nat)
    requires k <= |ds|
    ensures forall j :: 0 <= j <= k ==> SlotOffset(ds, j) <= SlotOffset(ds, k)
  {
    if k > 0 {
      SlotOffsetsGrow(ds, k - 1);
    }
  }

  /** The copies are aligned and lie back to back from 0 to the total. */
  lemma {:induction false} SlotChunksTile(ds: seq<seq<char>>, count: nat)
    requires count <= |ds|
    ensures forall k :: 0 <= k < count ==>
      SlotChunks(ds, count)[k] == Chunk(SlotOffset(ds, k), SlotSize(ds[k])) &&
      CheckAlignment(SlotOffset(ds, k), SlotSize(ds[k])) == Pass
    ensures Tiles(SlotChunks(ds, count), 0, SlotOffset(ds, count))
  {
    forall k | 0 <= k < count
      ensures SlotChunks(ds, count)[k] == Chunk(SlotOffset(ds, k), SlotSize(ds[k]))
      ensures CheckAlignment(SlotOffset(ds, k), SlotSize(ds[k])) == Pass
    {
      SlotChunkAt(ds, count, k);
      SlotOffsetsAligned(ds, k);
    }
    SlotChunksTileFrom(ds, count, 0);
  }

  lemma {:induction false} SlotChunkAt(ds: seq<seq<char>>, count: nat, k: nat)
    requires k < count <= |ds|
    ensures SlotChunks(ds, count)[k] == Chunk(SlotOffset(ds, k), SlotSize(ds[k]))
  {
    if k < count - 1 {
      SlotChunkAt(ds, count - 1, k);
    }
  }

  /** The copies from slot `k` on tile `[SlotOffset(k), SlotOffset(count))`. */
  lemma {:induction false} SlotChunksTileFrom(ds: seq<seq<char>>, count: nat, k: nat)
    requires k <= count <= |ds|
    ensures Tiles(SlotChunks(ds, count)[k..], SlotOffset(ds, k), SlotOffset(ds, count))
    decreases count - k
  {
    var cs := SlotChunks(ds, count);
    if k < count {
      SlotChunkAt(ds, count, k);
      SlotChunksTileFrom(ds, count, k + 1);
      assert cs[k..][1..] == cs[k + 1..];
    }
  }

  /** The slot loop succeeds exactly when every slot fits its staging
      buffer, and then writes `SlotOffset(count)` bytes. */
  lemma {:induction false} PackSlotsSucceeds(ds: seq<seq<char>>, count: nat, staging: nat)
    requires count <= |ds|
    ensures PackSlots(ds, count, staging).Success? <==> forall k :: 0 <= k < count ==> SlotSize(ds[k]) <= staging
    ensures PackSlots(ds, count, staging).Success? ==> |PackSlots(ds, count, staging).value| == SlotOffset(ds, count)
  {
    if count > 0 {
      PackSlotsSucceeds(ds, count - 1, staging);
    }
  }

  /** When the slot loop succeeds, slot `k` holds name `k`. */
  lemma {:induction false} PackSlotsHolds(ds: seq<seq<char>>, count: nat, staging: nat, k: nat)
    requires k < count <= |ds| && PackSlots(ds, count, staging).Success?
    ensures HoldsName(PackSlots(ds, count, staging).value, SlotOffset(ds, k), ds[k])
  {
    var prefix := PackSlots(ds, count - 1, staging).value;
    var slot := SlotImage(ds[count - 1], count - 1, staging).value;
    assert PackSlots(ds, count, staging).value == prefix + slot;
    if k == count - 1 {
      PackSlotsSucceeds(ds, count - 1, staging);
      var d := ds[k];
      assert slot == d + Zeros(SlotSize(d) - |d|);
      assert slot[..|d|] == d && slot[|d|] == NUL;
      HoldsNameAtEnd(prefix, slot, d);
    } else {
      PackSlotsHolds(ds, count - 1, staging, k);
      HoldsNameExtends(prefix, slot, SlotOffset(ds, k), ds[k]);
    }
  }

  /** The slot layout round trip: when the loop succeeds, the C string at slot
      `k`'s offset is name `k`. */
  lemma SlotRoundTrip(ds: seq<seq<char>>, count: nat, staging: nat, k: nat)
    requires AllNoNul(ds) && k < count <= |ds| && PackSlots(ds, count, staging).Success?
    ensures ReadCString(PackSlots(ds, count, staging).value, SlotOffset(ds, k)) == ds[k]
  {
    PackSlotsHolds(ds, count, staging, k);
    ReadCStringOfCopy(PackSlots(ds, count, staging).value, SlotOffset(ds, k), ds[k]);
  }

  /** With a staging buffer whose size is a multiple of 8 (64 bytes in
      dtest_host1.c, 32 in dtest_host.c) no slot reads past it: the only
      failure is a name whose terminator does not fit. */
  lemma AlignedStagingNeverOverreads(d: seq<char>, k: nat, staging: nat)
    requires Aligned(staging)
    ensures SlotImage(d, k, staging).Success? <==> |d| + 1 <= staging
    ensures SlotImage(d, k, staging) != Failure(StagingOverread(k))
  {
    RoundUpUnique(|d| + 1, SlotSize(d), SlotSize(d));
  }

  /** dtest_host2.c stages names in a 164-byte buffer, which is not a multiple
      of 8: a 160-character name fits with its terminator, but its 168-byte
      slot is copied from the 164-byte buffer. */
  lemma Host2StagingOverread(d: seq<char>)
    requires |d| == 160
    ensures SlotImage(d, 0, 164) == Failure(StagingOverread(0))
    ensures SlotImage(d, 0, MaskRoundUp(164)).Success?
  {
  }

  /** `total_domain_chars_size` of dtest_host1.c, dtest_host2.c and
      dtest_host.c is the sum of the slot sizes; its final round-up never
      changes it. */
  lemma TotalNeedsNoRounding(ds: seq<seq<char>>)
    ensures PadRoundUp(SlotOffset(ds, |ds|)) == SlotOffset(ds, |ds|)
  {
    SlotOffsetsAligned(ds, |ds|);
    RoundUpIdempotent(SlotOffset(ds, |ds|));
  }

  /** The width of a host pointer, `sizeof(char *)` and `sizeof(char **)`. */
  const HOST_POINTER_BYTES: nat := 8

  /** `sizeof(domains) / sizeof(domains[0])` where `domains` is a `char **`
      parameter: the size of a pointer over the size of a pointer. */
  function PointerParamCount(): nat {
    HOST_POINTER_BYTES / HOST_POINTER_BYTES
  }

  /** `transfer_domains` of dtest_host1.c and dtest_host2.c, as written: the
      loop bound is `PointerParamCount()`, whatever the caller's array holds. */
  function TransferDomainsAsWritten(ds: seq<seq<char>>, staging: nat): Result<seq<char>, DomainError>
    requires |ds| >= 1
  {
    PackSlots(ds, PointerParamCount(), staging)
  }

  /** `transfer_domains` of dtest_host.c, which takes the count explicitly. */
  function TransferDomains(ds: seq<seq<char>>, staging: nat): Result<seq<char>, DomainError> {
    PackSlots(ds, |ds|, staging)
  }

  /** As written, only the first name is ever sent: the image ends where the
      second slot would begin, so no later name can be read back. */
  lemma AsWrittenSendsOnlyFirst(ds: seq<seq<char>>, staging: nat)
    requires |ds| >= 1
    ensures PointerParamCount() == 1
    ensures TransferDomainsAsWritten(ds, staging).Success? <==> SlotSize(ds[0]) <= staging
    ensures TransferDomainsAsWritten(ds, staging).Success? ==>
      |TransferDomainsAsWritten(ds, staging).value| == SlotSize(ds[0])
    ensures TransferDomainsAsWritten(ds, staging).Success? && |ds| >= 2 ==>
      ReadCString(TransferDomainsAsWritten(ds, staging).value, SlotOffset(ds, 1)) == []
  {
    PackSlotsSucceeds(ds, 1, staging);
  }

  /** With the explicit count every name reaches MRAM and reads back. */
  lemma TransferDomainsDeliversAll(ds: seq<seq<char>>, staging: nat)
    requires AllNoNul(ds) && forall k :: 0 <= k < |ds| ==> SlotSize(ds[k]) <= staging
    ensures TransferDomains(ds, staging).Success?
    ensures |TransferDomains(ds, staging).value| == SlotOffset(ds, |ds|)
    ensures forall k :: 0 <= k < |ds| ==> ReadCString(TransferDomains(ds, staging).value, SlotOffset(ds, k)) == ds[k]
  {
    PackSlotsSucceeds(ds, |ds|, staging);
    forall k | 0 <= k < |ds|
      ensures ReadCString(TransferDomains(ds, staging).value, SlotOffset(ds, k)) == ds[k]
    {
      SlotRoundTrip(ds, |ds|, staging, k);
    }
  }

  // ---------------------------------------------------------------------
  // The packed layout.

  /** The first `n` names with their terminators, back to back. */
  function Terminated(ds: seq<seq<char>>, n: nat): seq<char>
    requires n <= |ds|
  {
    if n == 0 then [] else Terminated(ds, n - 1) + ds[n - 1] + [NUL]
  }

  /** Where name `k` starts in the packed layout. */
  function PackedOffset(ds: seq<seq<char>>, k: nat): nat
    requires k <= |ds|
  {
    if k == 0 then 0 else PackedOffset(ds, k - 1) + |ds[k - 1]| + 1
  }

  datatype PackError = BufferOverflow | BufferOverread

  /** dga_host4.c: the names are `memcpy`d into a zeroed `buffer`-byte array,
      and `(size + 7) & ~7` bytes of it are sent. */
  function PackedBuffer(ds: seq<seq<char>>, buffer: nat): Result<seq<char>, PackError> {
    var packed := Terminated(ds, |ds|);
    if |packed| > buffer then Failure(BufferOverflow)
    else if MaskRoundUp(|packed|) > buffer then Failure(BufferOverread)
    else Success(packed + Zeros(MaskRoundUp(|packed|) - |packed|))
  }

  /** dga_host5.c: `total_domain_chars_size` is the packed length rounded up
      with the `+= 8 - x % 8` spelling. */
  function PackedTotal(ds: seq<seq<char>>): nat {
    PadRoundUp(|Terminated(ds, |ds|)|)
  }

  /** dga_host5.c computes `PackedTotal` for the sample names but then passes
      the pointer array `domains_need_predict` to `transfer_domains`, which
      copies `PackedTotal(ds)` bytes starting at that array of `|ds|` host
      pointers. The copy reads past the array exactly when the terminated
      names take more bytes than their pointers. */
  lemma Host5PointerArrayOverread(ds: seq<seq<char>>)
    ensures PackedTotal(ds) > |ds| * HOST_POINTER_BYTES <==> PackedOffset(ds, |ds|) > |ds| * HOST_POINTER_BYTES
  {
    TerminatedLength(ds, |ds|);
    RoundUpExceeds(PackedOffset(ds, |ds|), |ds| * HOST_POINTER_BYTES);
  }

  /** For the seven sample names dga_host5.c copies 96 bytes from the 56-byte
      pointer array, 40 past its end. */
  lemma Host5SampleOverread()
    ensures |SampleDomains| * HOST_POINTER_BYTES == 56
    ensures PackedTotal(SampleDomains) - |SampleDomains| * HOST_POINTER_BYTES == 40
  {
    SampleDomainSizes();
  }

  /** Rounding up to a multiple of 8 passes an aligned bound only if the
      value already does. */
  lemma RoundUpExceeds(x: nat, m: nat)
    requires Aligned(m)
    ensures PadRoundUp(x) > m <==> x > m
  {
    var r := PadRoundUp(x);
    if x <= m {
      var q, p := r / 8, m / 8;
      assert r == 8 * q && m == 8 * p;
      assert 8 * q < 8 * p + 8;
    }
  }

  lemma {:induction false} TerminatedLength(ds: seq<seq<char>>, n: nat)
    requires n <= |ds|
    ensures |Terminated(ds, n)| == PackedOffset(ds, n)
  {
    if n > 0 {
      TerminatedLength(ds, n - 1);
    }
  }

  /** Name `k` sits at `PackedOffset(k)` with its terminator after it. */
  lemma {:induction false} TerminatedHolds(ds: seq<seq<char>>, n: nat, k: nat)
    requires k < n <= |ds|
    ensures HoldsName(Terminated(ds, n), PackedOffset(ds, k), ds[k])
  {
    var prefix := Terminated(ds, n - 1);
    var tail := ds[n - 1] + [NUL];
    assert Terminated(ds, n) == prefix + tail;
    if k == n - 1 {
      TerminatedLength(ds, n - 1);
      assert tail[..|ds[k]|] == ds[k];
      HoldsNameAtEnd(prefix, tail, ds[k]);
    } else {
      TerminatedHolds(ds, n - 1, k);
      HoldsNameExtends(prefix, tail, PackedOffset(ds, k), ds[k]);
    }
  }

  /** The buffer sent holds every name at its packed offset. */
  lemma PackedBufferHolds(ds: seq<seq<char>>, buffer: nat, k: nat)
    requires k < |ds| && PackedBuffer(ds, buffer).Success?
    ensures HoldsName(PackedBuffer(ds, buffer).value, PackedOffset(ds, k), ds[k])
  {
    var packed := Terminated(ds, |ds|);
    var pad := Zeros(MaskRoundUp(|packed|) - |packed|);
    assert PackedBuffer(ds, buffer).value == packed + pad;
    TerminatedHolds(ds, |ds|, k);
    HoldsNameExtends(packed, pad, PackedOffset(ds, k), ds[k]);
  }

  /** The packed layout round trip: every name reads back from its offset in
      the buffer sent, and the buffer is a multiple of 8 bytes long. */
  lemma PackedRoundTrip(ds: seq<seq<char>>, buffer: nat)
    requires AllNoNul(ds) && PackedBuffer(ds, buffer).Success?
    ensures Aligned(|PackedBuffer(ds, buffer).value|)
    ensures |PackedBuffer(ds, buffer).value| == PackedTotal(ds)
    ensures forall k :: 0 <= k < |ds| ==> ReadCString(PackedBuffer(ds, buffer).value, PackedOffset(ds, k)) == ds[k]
  {
    PackedBufferSize(ds, buffer);
    forall k | 0 <= k < |ds|
      ensures ReadCString(PackedBuffer(ds, buffer).value, PackedOffset(ds, k)) == ds[k]
    {
      PackedNameReads(ds, buffer, k);
    }
  }

  lemma PackedBufferSize(ds: seq<seq<char>>, buffer: nat)
    requires PackedBuffer(ds, buffer).Success?
    ensures Aligned(|PackedBuffer(ds, buffer).value|)
    ensures |PackedBuffer(ds, buffer).value| == PackedTotal(ds)
  {
    RoundUpFormsAgree(|Terminated(ds, |ds|)|);
  }

  lemma PackedNameReads(ds: seq<seq<char>>, buffer: nat, k: nat)
    requires AllNoNul(ds) && k < |ds| && PackedBuffer(ds, buffer).Success?
    ensures ReadCString(PackedBuffer(ds, buffer).value, PackedOffset(ds, k)) == ds[k]
  {
    PackedBufferHolds(ds, buffer, k);
    ReadCStringOfCopy(PackedBuffer(ds, buffer).value, PackedOffset(ds, k), ds[k]);
  }

  /** The packed buffer is accepted exactly when its rounded size fits. */
  lemma PackedBufferFits(ds: seq<seq<char>>, buffer: nat)
    ensures PackedBuffer(ds, buffer).Success? <==> PackedTotal(ds) <= buffer
  {
    RoundUpFormsAgree(|Terminated(ds, |ds|)|);
  }

  // ---------------------------------------------------------------------
  // The readback of dtest_host2.c.

  /** `read_and_print_domains_from_mram`: 168 bytes are copied into a
      172-byte buffer and index 164 is forced to NUL before printing. */
  function ReadbackDomain(mram: seq<char>): (buf: seq<char>)
    requires |mram| >= MaskRoundUp(164)
    ensures |buf| == 168 && buf[164] == NUL
  {
    DomainReadbackSize();
    mram[..MaskRoundUp(164)][164 := NUL]
  }

  /** The printed string never exceeds 164 characters, and a first name
      shorter than that, sent by the slot loop, is printed exactly. */
  lemma ReadbackRoundTrip(ds: seq<seq<char>>, staging: nat, mram: seq<char>)
    requires AllNoNul(ds) && |ds| >= 1 && |ds[0]| < 164
    requires TransferDomainsAsWritten(ds, staging).Success?
    requires |mram| >= 168 && TransferDomainsAsWritten(ds, staging).value <= mram
    ensures |ReadCString(ReadbackDomain(mram), 0)| <= 164
    ensures ReadCString(ReadbackDomain(mram), 0) == ds[0]
  {
    DomainReadbackSize();
    var image := TransferDomainsAsWritten(ds, staging).value;
    var d := ds[0];
    PackSlotsHolds(ds, 1, staging, 0);
    assert HoldsName(image, 0, d);
    var buf := ReadbackDomain(mram);
    assert buf[0 .. |d|] == image[0 .. |d|];
    assert buf[|d|] == image[|d|];
    ReadCStringOfCopy(buf, 0, d);
  }

  // ---------------------------------------------------------------------
  // The seven sample names every host sends.

  const SampleDomains: seq<seq<char>> := [
    "baidu.com", "01ol.ee4kdushuba.com", "nhy655.3322.org",
    "tmall.com", "office.com", "taobao.com", "dropbox.com"]

  /** Their terminated lengths are 10, 21, 16, 10, 11, 11 and 12: 91 bytes
      packed, sent as 96 by dga_host4.c and computed as 96 by dga_host5.c
      (which sends the pointer array instead), well inside the 910-byte
      buffer of dga_host4.c. In slots they take 16, 24, 16, 16, 16, 16 and
      16 bytes, 120 in all, and each slot fits the 32-byte staging buffer of
      dtest_host.c. */
  lemma SampleDomainSizes()
    ensures |Terminated(SampleDomains, 7)| == 91
    ensures PackedTotal(SampleDomains) == 96
    ensures PackedBuffer(SampleDomains, 130 * 7).Success?
    ensures SlotOffset(SampleDomains, 7) == 120
    ensures forall k :: 0 <= k < 7 ==> SlotSize(SampleDomains[k]) <= 32
  {
    var ds := SampleDomains;
    assert |ds[0]| == 9 && |ds[1]| == 20 && |ds[2]| == 15 && |ds[3]| == 9;
    assert |ds[4]| == 10 && |ds[5]| == 10 && |ds[6]| == 11;
    TerminatedLength(ds, 7);
    assert PackedOffset(ds, 7) == 91;
    RoundUpFormsAgree(91);
  }
}
