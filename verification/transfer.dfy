/** The chunked, 8-byte-aligned transfer protocol.

    Every host upload (`transfer_vocabulary`, `transfer_domains`,
    `load_model_weights_to_mram`, `transfer_data`) and the device-side record
    copies split an N-byte payload the same way: from the current offset take
    `min(cap, N - offset)` bytes, round that down to a multiple of 8, check the
    alignment of offset and size, copy, advance. The model yields the list of
    `(offset, size)` chunks the loop copies. Two things the C code does not
    return are made explicit: a failed `check_alignment` (which calls `exit`)
    is `Failure(AlignmentViolation(..))`, and a step whose rounded size is 0
    (after which the C loop spins for ever) is `Failure(Stalled(offset))`. */
module Transfer {
  import opened Wrappers
  import opened Align

  /** The largest single copy every chunk loop uses, except the vocabulary
      loop of dtest_host.c. */
  const MAX_CHUNK: nat := 2048

  /** `MODEL_SIZE` of every program: the byte size of the weight blob. */
  const MODEL_SIZE: nat := 1814336

  datatype Chunk = Chunk(offset: nat, size: nat)

  datatype TransferError =
    | AlignmentViolation(offset: nat, size: nat)
    | Stalled(offset: nat)

  /** `check_alignment(offset, size)`: passes iff both are multiples of 8,
      otherwise the program exits. */
  function CheckAlignment(offset: nat, size: nat): (r: Outcome<TransferError>)
    ensures r.Pass? <==> Aligned(offset) && Aligned(size)
    ensures r.Fail? ==> r.error == AlignmentViolation(offset, size)
  {
    if offset % 8 != 0 || size % 8 != 0 then Fail(AlignmentViolation(offset, size)) else Pass
  }

  function Min(a: nat, b: nat): nat {
    if a < b then a else b
  }

  /** The size of the next copy: `(rest > cap) ? cap : rest`, then rounded down
      to a multiple of 8. */
  function NextChunkSize(total: nat, offset: nat, cap: nat): (size: nat)
    requires offset < total
    ensures Aligned(size) && size <= cap && size <= total - offset
    ensures size == 0 <==> total - offset < 8 || cap < 8
  {
    SubRoundDown(Min(cap, total - offset))
  }

  /** Prepends the chunks already copied to the outcome of the rest of the loop. */
  function Prepend(done: seq<Chunk>, rest: Result<seq<Chunk>, TransferError>): Result<seq<Chunk>, TransferError> {
    match rest
    case Success(cs) => Success(done + cs)
    case Failure(e) => Failure(e)
  }

  /** The chunk loop from `offset` on, as a function. */
  function AlignedChunks(total: nat, cap: nat, offset: nat): Result<seq<Chunk>, TransferError>
    decreases total - offset
  {
    if offset >= total then Success([])
    else
      var size := NextChunkSize(total, offset, cap);
      match CheckAlignment(offset, size)
      case Fail(e) => Failure(e)
      case Pass =>
        if size == 0 then Failure(Stalled(offset))
        else Prepend([Chunk(offset, size)], AlignedChunks(total, cap, offset + size))
  }

  /** The chunks lie back to back from `start` to `end`. */
  predicate Tiles(cs: seq<Chunk>, start: nat, end: nat)
    decreases |cs|
  {
    if |cs| == 0 then start == end
    else cs[0].offset == start && Tiles(cs[1..], start + cs[0].size, end)
  }

  /** Every chunk is a legal copy: non-empty, at most `cap` bytes, and aligned
      in offset and size. */
  predicate LegalChunks(cs: seq<Chunk>, cap: nat) {
    forall i :: 0 <= i < |cs| ==>
      0 < cs[i].size <= cap && Aligned(cs[i].offset) && Aligned(cs[i].size)
  }

  /** With an aligned payload and a cap of at least 8 bytes the loop never trips
      `check_alignment`, always progresses, and tiles the rest of the payload
      with legal chunks. */
  lemma {:induction false} AlignedChunksTile(total: nat, cap: nat, offset: nat)
    requires Aligned(total) && Aligned(offset) && offset <= total && cap >= 8
    ensures AlignedChunks(total, cap, offset).Success?
    ensures Tiles(AlignedChunks(total, cap, offset).value, offset, total)
    ensures LegalChunks(AlignedChunks(total, cap, offset).value, cap)
    decreases total - offset
  {
    if offset < total {
      var size := NextChunkSize(total, offset, cap);
      assert size > 0;
      AlignedChunksTile(total, cap, offset + size);
      var rest := AlignedChunks(total, cap, offset + size).value;
      var cs := [Chunk(offset, size)] + rest;
      assert AlignedChunks(total, cap, offset) == Success(cs);
      assert cs[1..] == rest;
    }
  }

  /** Without an aligned payload the loop copies every whole 8-byte unit and
      then stalls at the tail, which rounds down to a 0-byte chunk. */
  lemma {:induction false} UnalignedChunksStall(total: nat, cap: nat, offset: nat)
    requires !Aligned(total) && Aligned(offset) && offset <= total && cap >= 8
    ensures AlignedChunks(total, cap, offset) == Failure(Stalled(total - total % 8))
    decreases total - offset
  {
    var size := NextChunkSize(total, offset, cap);
    StallStep(total, cap, offset);
    if size > 0 {
      UnalignedChunksStall(total, cap, offset + size);
    }
  }

  /** One step of that loop: the offset stays aligned and short of the
      payload end, and the step is empty exactly at the last whole unit. */
  lemma StallStep(total: nat, cap: nat, offset: nat)
    requires !Aligned(total) && Aligned(offset) && offset <= total && cap >= 8
    ensures offset < total
    ensures var size := NextChunkSize(total, offset, cap);
      Aligned(offset + size) && offset + size < total &&
      (size == 0 <==> offset == total - total % 8)
  {
    var size := NextChunkSize(total, offset, cap);
    var q, s, t := offset / 8, size / 8, total / 8;
    assert offset == 8 * q && size == 8 * s;
    assert total == 8 * t + total % 8 && 0 < total % 8 < 8;
    assert offset + size == 8 * (q + s);
  }

  /** The loop terminates successfully, from the start, exactly when the
      payload size is a multiple of 8. */
  lemma ChunksSucceedIffAligned(total: nat, cap: nat)
    requires cap >= 8
    ensures AlignedChunks(total, cap, 0).Success? <==> Aligned(total)
  {
    if Aligned(total) {
      AlignedChunksTile(total, cap, 0);
    } else {
      UnalignedChunksStall(total, cap, 0);
    }
  }

  /** With an aligned cap, every chunk but the last is exactly `cap` bytes,
      chunk `i` starts at `offset + i * cap`, and the number of chunks `n` is
      the least one whose `n * cap` bytes cover the rest of the payload. */
  lemma {:induction false} ChunkCount(total: nat, cap: nat, offset: nat)
    requires Aligned(total) && Aligned(offset) && offset < total && Aligned(cap) && cap > 0
    ensures AlignedChunks(total, cap, offset).Success?
    ensures var n := |AlignedChunks(total, cap, offset).value|;
      (n - 1) * cap < total - offset <= n * cap
    ensures forall i :: 0 <= i < |AlignedChunks(total, cap, offset).value| ==>
      AlignedChunks(total, cap, offset).value[i].offset == offset + i * cap
    ensures forall i :: 0 <= i < |AlignedChunks(total, cap, offset).value| - 1 ==>
      AlignedChunks(total, cap, offset).value[i].size == cap
    decreases total - offset
  {
    AlignedChunksTile(total, cap, offset);
    var cs := AlignedChunks(total, cap, offset).value;
    var size := NextChunkSize(total, offset, cap);
    if total - offset <= cap {
      assert size == total - offset;
      assert cs == [Chunk(offset, size)];
    } else {
      assert size == cap;
      ChunkCount(total, cap, offset + cap);
      var rest := AlignedChunks(total, cap, offset + cap).value;
      assert cs == [Chunk(offset, cap)] + rest;
      CountStep(|rest|, cap, total - offset);
      ConsFullChunk(cs, rest, offset, cap);
    }
  }

  /** One more full chunk covers `cap` more bytes. */
  lemma CountStep(m: nat, cap: nat, rem: nat)
    requires cap <= rem && (m - 1) * cap < rem - cap <= m * cap
    ensures m * cap < rem <= (m + 1) * cap
  {
    assert m * cap == (m - 1) * cap + cap;
    assert (m + 1) * cap == m * cap + cap;
  }

  /** Putting a full chunk at `offset` in front of a regular run that starts
      at `offset + cap` gives a regular run from `offset`. */
  lemma ConsFullChunk(cs: seq<Chunk>, rest: seq<Chunk>, offset: nat, cap: nat)
    requires cs == [Chunk(offset, cap)] + rest
    requires forall i :: 0 <= i < |rest| ==> rest[i].offset == offset + cap + i * cap
    requires forall i :: 0 <= i < |rest| - 1 ==> rest[i].size == cap
    ensures forall i :: 0 <= i < |cs| ==> cs[i].offset == offset + i * cap
    ensures forall i :: 0 <= i < |cs| - 1 ==> cs[i].size == cap
  {
    forall i | 0 <= i < |cs|
      ensures cs[i].offset == offset + i * cap
    {
      if i > 0 {
        assert cs[i] == rest[i - 1];
        assert (i - 1) * cap + cap == i * cap;
      }
    }
    forall i | 0 <= i < |cs| - 1
      ensures cs[i].size == cap
    {
      if i > 0 {
        assert cs[i] == rest[i - 1];
      }
    }
  }

  /** `load_model_weights_to_mram`: the 1814336-byte blob goes as 886 chunks,
      885 of 2048 bytes and a last one of 1856 bytes at offset 1812480. */
  lemma ModelUploadChunks()
    ensures AlignedChunks(MODEL_SIZE, MAX_CHUNK, 0).Success?
    ensures |AlignedChunks(MODEL_SIZE, MAX_CHUNK, 0).value| == 886
    ensures AlignedChunks(MODEL_SIZE, MAX_CHUNK, 0).value[885] == Chunk(1812480, 1856)
    ensures forall i :: 0 <= i < 885 ==> AlignedChunks(MODEL_SIZE, MAX_CHUNK, 0).value[i] == Chunk(2048 * i, 2048)
  {
    ModelChunksCounted();
    ModelChunkList(AlignedChunks(MODEL_SIZE, MAX_CHUNK, 0).value);
  }

  /** The facts `ChunkCount` and `AlignedChunksTile` give for the model blob. */
  lemma ModelChunksCounted()
    ensures AlignedChunks(MODEL_SIZE, MAX_CHUNK, 0).Success?
    ensures ModelChunkFacts(AlignedChunks(MODEL_SIZE, MAX_CHUNK, 0).value)
  {
    ChunkCount(MODEL_SIZE, MAX_CHUNK, 0);
    AlignedChunksTile(MODEL_SIZE, MAX_CHUNK, 0);
  }

  predicate ModelChunkFacts(cs: seq<Chunk>) {
    && (|cs| - 1) * 2048 < 1814336 <= |cs| * 2048
    && Tiles(cs, 0, MODEL_SIZE)
    && (forall i :: 0 <= i < |cs| ==> cs[i].offset == 0 + i * 2048)
    && (forall i :: 0 <= i < |cs| - 1 ==> cs[i].size == 2048)
  }

  lemma ModelChunkList(cs: seq<Chunk>)
    requires ModelChunkFacts(cs)
    ensures |cs| == 886
    ensures cs[885] == Chunk(1812480, 1856)
    ensures forall i :: 0 <= i < 885 ==> cs[i] == Chunk(2048 * i, 2048)
  {
    assert |cs| == 886;
    LastChunkEndsAtTotal(cs, 0, MODEL_SIZE);
  }

  /** In a tiling, the last chunk ends at the end. */
  lemma {:induction false} LastChunkEndsAtTotal(cs: seq<Chunk>, start: nat, end: nat)
    requires Tiles(cs, start, end) && |cs| > 0
    ensures cs[|cs| - 1].offset + cs[|cs| - 1].size == end
    decreases |cs|
  {
    if |cs| > 1 {
      LastChunkEndsAtTotal(cs[1..], start + cs[0].size, end);
    }
  }

  /** A payload no larger than the cap goes in a single chunk at offset 0. */
  lemma SingleChunk(total: nat, cap: nat)
    requires Aligned(total) && 0 < total <= cap
    ensures AlignedChunks(total, cap, 0) == Success([Chunk(0, total)])
  {
    assert NextChunkSize(total, 0, cap) == total;
    assert AlignedChunks(total, cap, total) == Success([]);
    assert [Chunk(0, total)] + [] == [Chunk(0, total)];
  }

  /** The vocabulary uploads are single chunks: 256 bytes in dtest_host1.c and
      dga_host5.c, 656 in dtest_host2.c, 520 in dga_host3.c, and 128 under the
      256-byte cap of dtest_host.c. */
  lemma VocabularyUploads()
    ensures AlignedChunks(64 * 4, MAX_CHUNK, 0) == Success([Chunk(0, 256)])
    ensures AlignedChunks(164 * 4, MAX_CHUNK, 0) == Success([Chunk(0, 656)])
    ensures AlignedChunks(130 * 4, MAX_CHUNK, 0) == Success([Chunk(0, 520)])
    ensures AlignedChunks(32 * 4, 256, 0) == Success([Chunk(0, 128)])
  {
    SingleChunk(256, MAX_CHUNK);
    SingleChunk(656, MAX_CHUNK);
    SingleChunk(520, MAX_CHUNK);
    SingleChunk(128, 256);
  }

  /** dtest_host2.c sends the 164-byte `domain_name` field to MRAM in one
      `dpu_copy_to` of `MAX_DOMAIN_LEN` bytes. 164 is not a multiple of 8, so
      the copy breaks the alignment rule every other transfer checks, and the
      chunk loop would reject or stall on it. */
  lemma Host2NameCopyUnaligned()
    ensures CheckAlignment(0, 164) == Fail(AlignmentViolation(0, 164))
    ensures AlignedChunks(164, MAX_CHUNK, 0).Failure?
  {
    ChunksSucceedIffAligned(164, MAX_CHUNK);
  }

  /** The copy padded to the 168 bytes dtest_host2.c reads back: one aligned
      chunk that delivers the padded name and leaves the rest of MRAM alone. */
  lemma Host2NameCopyPadded(name: seq<int>, mram: seq<int>)
    requires |name| == 168 && 168 <= |mram|
    ensures CheckAlignment(0, |name|) == Pass
    ensures AlignedChunks(168, MAX_CHUNK, 0) == Success([Chunk(0, 168)])
    ensures CopyChunks(name, mram, [Chunk(0, 168)])[..168] == name
    ensures CopyChunks(name, mram, [Chunk(0, 168)])[168..] == mram[168..]
  {
    SingleChunk(168, MAX_CHUNK);
    UploadDeliversPayload(name, mram, MAX_CHUNK);
  }

  lemma PrependEmpty(r: Result<seq<Chunk>, TransferError>)
    ensures Prepend([], r) == r
  {
    if r.Success? {
      assert [] + r.value == r.value;
    }
  }

  lemma PrependTwice(a: seq<Chunk>, b: seq<Chunk>, r: Result<seq<Chunk>, TransferError>)
    ensures Prepend(a, Prepend(b, r)) == Prepend(a + b, r)
  {
    if r.Success? {
      assert a + (b + r.value) == (a + b) + r.value;
    }
  }

  /** The loop of the host functions: it returns the chunks it copied, or the
      error that stopped it. An aligned payload goes through as legal chunks
      that tile it; any other payload stalls at its unaligned tail. */
  method UploadChunks(total: nat, cap: nat) returns (r: Result<seq<Chunk>, TransferError>)
    ensures r == AlignedChunks(total, cap, 0)
    ensures Aligned(total) && cap >= 8 ==> r.Success? && Tiles(r.value, 0, total) && LegalChunks(r.value, cap)
    ensures !Aligned(total) && cap >= 8 ==> r == Failure(Stalled(total - total % 8))
  {
    r := ChunkLoop(total, cap);
    if cap >= 8 {
      if Aligned(total) {
        AlignedChunksTile(total, cap, 0);
      } else {
        UnalignedChunksStall(total, cap, 0);
      }
    }
  }

  /** The loop as written, statement by statement. */
  method ChunkLoop(total: nat, cap: nat) returns (r: Result<seq<Chunk>, TransferError>)
    ensures r == AlignedChunks(total, cap, 0)
  {
    var chunks: seq<Chunk> := [];
    var offset: nat := 0;
    PrependEmpty(AlignedChunks(total, cap, 0));
    while offset < total
      invariant AlignedChunks(total, cap, 0) == Prepend(chunks, AlignedChunks(total, cap, offset))
      decreases total - offset
    {
      var size := if total - offset > cap then cap else total - offset;
      if size % 8 != 0 {
        size := size - size % 8;
      }
      assert size == NextChunkSize(total, offset, cap);
      var check := CheckAlignment(offset, size);
      if check.Fail? {
        return Failure(check.error);
      }
      if size == 0 {
        return Failure(Stalled(offset));
      }
      PrependTwice(chunks, [Chunk(offset, size)], AlignedChunks(total, cap, offset + size));
      chunks := chunks + [Chunk(offset, size)];
      offset := offset + size;
    }
    r := Success(chunks);
    assert AlignedChunks(total, cap, offset) == Success([]);
    assert chunks + [] == chunks;
  }

  // ---------------------------------------------------------------------
  // Copies described by a chunk list.

  /** Applies the copies: each chunk copies `src[o .. o + s]` onto `dst`. */
  function CopyChunks<T>(src: seq<T>, dst: seq<T>, cs: seq<Chunk>): (r: seq<T>)
    requires forall i :: 0 <= i < |cs| ==> cs[i].offset + cs[i].size <= |src| && cs[i].offset + cs[i].size <= |dst|
    ensures |r| == |dst|
    decreases |cs|
  {
    if |cs| == 0 then dst
    else
      var c := cs[0];
      CopyChunks(src, dst[..c.offset] + src[c.offset .. c.offset + c.size] + dst[c.offset + c.size..], cs[1..])
  }

  /** Copying a tiling of `[start, end)` reproduces the source there and leaves
      every other byte of the destination alone. */
  lemma {:induction false} CopyTilingDelivers<T>(src: seq<T>, dst: seq<T>, cs: seq<Chunk>, start: nat, end: nat)
    requires Tiles(cs, start, end) && end <= |src| && end <= |dst|
    requires forall i :: 0 <= i < |cs| ==> cs[i].offset + cs[i].size <= |src| && cs[i].offset + cs[i].size <= |dst|
    ensures start <= end
    ensures CopyChunks(src, dst, cs)[start..end] == src[start..end]
    ensures CopyChunks(src, dst, cs)[..start] == dst[..start]
    ensures CopyChunks(src, dst, cs)[end..] == dst[end..]
    decreases |cs|
  {
    if |cs| > 0 {
      var c := cs[0];
      var mid := dst[..c.offset] + src[c.offset .. c.offset + c.size] + dst[c.offset + c.size..];
      CopyTilingDelivers(src, mid, cs[1..], start + c.size, end);
      var r := CopyChunks(src, dst, cs);
      assert r == CopyChunks(src, mid, cs[1..]);
      SpliceSlices(dst, src, c.offset, c.size);
      PrefixAgrees(r, mid, start, start + c.size);
      SuffixAgrees(r, mid, dst, start + c.size, end);
      JoinSlices(r, src, start, start + c.size, end);
    }
  }

  /** Agreement on a prefix carries to shorter prefixes and to the slices
      inside it. */
  lemma PrefixAgrees<T>(x: seq<T>, y: seq<T>, a: nat, b: nat)
    requires a <= b <= |x| && b <= |y| && x[..b] == y[..b]
    ensures x[..a] == y[..a] && x[a..b] == y[a..b]
  {
    assert x[..a] == x[..b][..a] && y[..a] == y[..b][..a];
    assert x[a..b] == x[..b][a..] && y[a..b] == y[..b][a..];
  }

  /** Agreement from `e` on carries from a later `e'` on, and chains. */
  lemma SuffixAgrees<T>(x: seq<T>, y: seq<T>, z: seq<T>, b: nat, e: nat)
    requires b <= e <= |x| && |x| == |y| == |z|
    requires x[e..] == y[e..] && y[b..] == z[b..]
    ensures x[e..] == z[e..]
  {
    assert y[e..] == y[b..][e - b..] && z[e..] == z[b..][e - b..];
  }

  /** One chunk copy puts the source bytes in place and nothing else. */
  lemma SpliceSlices<T>(dst: seq<T>, src: seq<T>, o: nat, n: nat)
    requires o + n <= |src| && o + n <= |dst|
    ensures var mid := dst[..o] + src[o .. o + n] + dst[o + n..];
      |mid| == |dst| && mid[o .. o + n] == src[o .. o + n] &&
      mid[..o] == dst[..o] && mid[o + n..] == dst[o + n..]
  {
  }

  /** Two adjacent slices that agree make one that agrees. */
  lemma JoinSlices<T>(r: seq<T>, src: seq<T>, a: nat, b: nat, c: nat)
    requires a <= b <= c <= |r| && c <= |src|
    requires r[a..b] == src[a..b] && r[b..c] == src[b..c]
    ensures r[a..c] == src[a..c]
  {
    assert r[a..c] == r[a..b] + r[b..c];
    assert src[a..c] == src[a..b] + src[b..c];
  }

  /** The upload of an aligned payload delivers it byte for byte. */
  lemma UploadDeliversPayload<T>(payload: seq<T>, mram: seq<T>, cap: nat)
    requires Aligned(|payload|) && |payload| <= |mram| && cap >= 8
    ensures AlignedChunks(|payload|, cap, 0).Success?
    ensures var cs := AlignedChunks(|payload|, cap, 0).value;
      (forall i :: 0 <= i < |cs| ==> cs[i].offset + cs[i].size <= |payload|) &&
      CopyChunks(payload, mram, cs)[..|payload|] == payload &&
      CopyChunks(payload, mram, cs)[|payload|..] == mram[|payload|..]
  {
    AlignedChunksTile(|payload|, cap, 0);
    var cs := AlignedChunks(|payload|, cap, 0).value;
    TilingStaysInside(cs, 0, |payload|);
    CopyTilingDelivers(payload, mram, cs, 0, |payload|);
  }

  /** Every chunk of a tiling lies inside it. */
  lemma {:induction false} TilingStaysInside(cs: seq<Chunk>, start: nat, end: nat)
    requires Tiles(cs, start, end)
    ensures start <= end
    ensures forall i :: 0 <= i < |cs| ==> start <= cs[i].offset && cs[i].offset + cs[i].size <= end
    decreases |cs|
  {
    if |cs| > 0 {
      TilingStaysInside(cs[1..], start + cs[0].size, end);
      forall i | 0 <= i < |cs|
        ensures start <= cs[i].offset && cs[i].offset + cs[i].size <= end
      {
        if i > 0 {
          assert cs[i] == cs[1..][i - 1];
        }
      }
    }
  }

  // ---------------------------------------------------------------------
  // The redundant alignment check.

  /** Starting from an aligned offset, `check_alignment` never fails inside
      the loop: the size is rounded before the check, and each offset is a sum
      of rounded sizes. The only ways out are success and a stall. */
  lemma {:induction false} CheckNeverFails(total: nat, cap: nat, offset: nat)
    requires Aligned(offset)
    ensures !AlignedChunks(total, cap, offset).Failure? || AlignedChunks(total, cap, offset).error.Stalled?
    decreases total - offset
  {
    if offset < total {
      var size := NextChunkSize(total, offset, cap);
      if size > 0 {
        CheckNeverFails(total, cap, offset + size);
      }
    }
  }

  // ---------------------------------------------------------------------
  // `transfer_data` of dga_host4.c: the same loop with a realignment branch.

  /** `transfer_data`, including its branch that skips ahead to the next
      multiple of 8 when the offset is unaligned. */
  function TransferData(total: nat, offset: nat): Result<seq<Chunk>, TransferError>
    decreases total - offset
  {
    if offset >= total then Success([])
    else
      var size := DivRoundDown(Min(MAX_CHUNK, total - offset));
      if offset % 8 != 0 then
        var adjustment := Min(8 - offset % 8, total - offset);
        if offset + adjustment >= total then Success([])
        else TransferData(total, offset + adjustment)
      else
        match CheckAlignment(offset, size)
        case Fail(e) => Failure(e)
        case Pass =>
          if size == 0 then Failure(Stalled(offset))
          else Prepend([Chunk(offset, size)], TransferData(total, offset + size))
  }

  /** The realignment branch is dead: from offset 0, `transfer_data` is the
      chunk loop of the other hosts, for every payload size. */
  lemma {:induction false} TransferDataIsChunkLoop(total: nat, offset: nat)
    requires Aligned(offset)
    ensures TransferData(total, offset) == AlignedChunks(total, MAX_CHUNK, offset)
    decreases total - offset
  {
    if offset < total {
      RoundDownFormsAgree(Min(MAX_CHUNK, total - offset));
      var size := NextChunkSize(total, offset, MAX_CHUNK);
      if size > 0 {
        TransferDataIsChunkLoop(total, offset + size);
      }
    }
  }

  /** Were the offset ever unaligned, the branch would skip the bytes up to
      the next multiple of 8 without copying them. */
  lemma RealignmentSkipsBytes(total: nat, offset: nat)
    requires offset < total && !Aligned(offset) && PadRoundUp(offset) < total
    ensures TransferData(total, offset) == TransferData(total, PadRoundUp(offset))
  {
  }

  // ---------------------------------------------------------------------
  // Unrounded chunk loops (dga1.c).

  /** The loops of dga1.c that take `min(2048, rest)` bytes and do not round. */
  function RawChunks(total: nat, cap: nat, offset: nat): seq<Chunk>
    requires cap > 0
    decreases total - offset
  {
    if offset >= total then []
    else
      var size := Min(cap, total - offset);
      [Chunk(offset, size)] + RawChunks(total, cap, offset + size)
  }

  /** A chunk list is legal when its head and its tail are. */
  lemma LegalCons(c: Chunk, rest: seq<Chunk>, cap: nat)
    ensures LegalChunks([c] + rest, cap) <==>
      (0 < c.size <= cap && Aligned(c.offset) && Aligned(c.size) && LegalChunks(rest, cap))
  {
    var cs := [c] + rest;
    if LegalChunks(rest, cap) && 0 < c.size <= cap && Aligned(c.offset) && Aligned(c.size) {
      forall i | 0 <= i < |cs|
        ensures 0 < cs[i].size <= cap && Aligned(cs[i].offset) && Aligned(cs[i].size)
      {
        if i > 0 { assert cs[i] == rest[i - 1]; }
      }
    }
    if LegalChunks(cs, cap) {
      assert cs[0] == c;
      forall i | 0 <= i < |rest|
        ensures 0 < rest[i].size <= cap && Aligned(rest[i].offset) && Aligned(rest[i].size)
      {
        assert rest[i] == cs[i + 1];
      }
    }
  }

  /** They always finish and tile the payload. */
  lemma {:induction false} RawChunksTile(total: nat, cap: nat, offset: nat)
    requires cap > 0 && offset <= total
    ensures Tiles(RawChunks(total, cap, offset), offset, total)
    decreases total - offset
  {
    if offset < total {
      var size := Min(cap, total - offset);
      RawChunksTile(total, cap, offset + size);
      assert RawChunks(total, cap, offset)[1..] == RawChunks(total, cap, offset + size);
    }
  }

  /** With an aligned cap, their copies are all legal exactly when the
      payload size is a multiple of 8. */
  lemma {:induction false} RawChunksLegal(total: nat, cap: nat, offset: nat)
    requires cap > 0 && Aligned(cap) && Aligned(offset) && offset < total
    ensures LegalChunks(RawChunks(total, cap, offset), cap) <==> Aligned(total)
    decreases total - offset
  {
    var size := Min(cap, total - offset);
    LegalCons(Chunk(offset, size), RawChunks(total, cap, offset + size), cap);
    RawStepAligned(total, cap, offset);
    if offset + size < total {
      RawChunksLegal(total, cap, offset + size);
    } else {
      assert RawChunks(total, cap, offset + size) == [];
    }
  }

  /** A full step keeps the offset aligned; the last step is aligned exactly
      when the payload size is. */
  lemma RawStepAligned(total: nat, cap: nat, offset: nat)
    requires cap > 0 && Aligned(cap) && Aligned(offset) && offset < total
    ensures var size := Min(cap, total - offset);
      0 < size <= cap &&
      (offset + size < total ==> Aligned(size) && Aligned(offset + size)) &&
      (offset + size >= total ==> (Aligned(size) <==> Aligned(total)))
  {
    var size := Min(cap, total - offset);
    assert (offset + size) % UNIT == (offset % UNIT + size % UNIT) % UNIT;
    if offset + size >= total {
      assert offset + size == total;
    }
  }

  /** In dga1.c the weight upload and the `char_ids` read happen to be
      aligned, but the record copy of `dpu_task` is one 668-byte transfer. */
  lemma Dga1RawCopies()
    ensures LegalChunks(RawChunks(MODEL_SIZE, MAX_CHUNK, 0), MAX_CHUNK)
    ensures LegalChunks(RawChunks(130 * 4, MAX_CHUNK, 0), MAX_CHUNK)
    ensures RawChunks(668, MAX_CHUNK, 0) == [Chunk(0, 668)]
    ensures !LegalChunks(RawChunks(668, MAX_CHUNK, 0), MAX_CHUNK)
  {
    RawChunksLegal(MODEL_SIZE, MAX_CHUNK, 0);
    RawChunksLegal(520, MAX_CHUNK, 0);
    RawChunksLegal(668, MAX_CHUNK, 0);
    assert RawChunks(668, MAX_CHUNK, 668) == [];
  }

  /** The rounding helpers `read_example_from_mram` and
      `write_example_to_mram` of dga1.c copy 664 bytes of the 668-byte record
      and then stall. */
  lemma Dga1HelpersStall()
    ensures AlignedChunks(668, MAX_CHUNK, 0) == Failure(Stalled(664))
  {
    UnalignedChunksStall(668, MAX_CHUNK, 0);
  }

  // ---------------------------------------------------------------------
  // The 8-byte step loops of dga.c and dgaa1.c.

  /** `for (offset = 0; offset < size; offset += 8)` copying 8 bytes each time. */
  function StepChunks(size: nat, offset: nat): seq<Chunk>
    decreases size - offset
  {
    if offset >= size then [] else [Chunk(offset, 8)] + StepChunks(size, offset + 8)
  }

  /** The step loop copies whole legal units covering `[offset, RoundUp(size))`:
      it runs past the record by `RoundUp(size) - size` bytes. */
  lemma {:induction false} StepChunksCover(size: nat, offset: nat)
    requires Aligned(offset) && offset <= PadRoundUp(size)
    ensures Tiles(StepChunks(size, offset), offset, PadRoundUp(size))
    ensures LegalChunks(StepChunks(size, offset), 8)
    decreases size - offset
  {
    if offset < size {
      StepChunksCover(size, offset + 8);
      var cs := StepChunks(size, offset);
      assert cs[1..] == StepChunks(size, offset + 8);
      forall i | 0 <= i < |cs|
        ensures 0 < cs[i].size <= 8 && Aligned(cs[i].offset) && Aligned(cs[i].size)
      {
        if i > 0 { assert cs[i] == StepChunks(size, offset + 8)[i - 1]; }
      }
    } else {
      RoundUpUnique(size, offset, PadRoundUp(size));
    }
  }

  /** The copy of the record at `base` by the step loop reaches into the
      record that follows it at `base + size` exactly when the size is not a
      multiple of 8. */
  lemma StepCopyOverlapsNext(size: nat, base: nat)
    requires size > 0
    ensures base + PadRoundUp(size) > base + size <==> !Aligned(size)
    ensures base + PadRoundUp(size) <= base + size + 7
  {
  }

  /** `sizeof(Example)` in dga.c and in dgaa1.c. */
  const DGA_RECORD: nat := 684
  const DGAA_RECORD: nat := 688

  /** dga.c's 684-byte record: the step loop copies 688 bytes, so each
      tasklet's write-back also writes the first 4 bytes (the `domain_len`)
      of the next tasklet's record, and the records of odd-numbered tasklets
      start at unaligned MRAM addresses. */
  lemma DgaStepLoopOverrun()
    ensures Tiles(StepChunks(DGA_RECORD, 0), 0, 688)
    ensures PadRoundUp(DGA_RECORD) - DGA_RECORD == 4
    ensures forall t :: 0 <= t < 11 ==> (Aligned(DGA_RECORD * t) <==> t % 2 == 0)
  {
    StepChunksCover(DGA_RECORD, 0);
  }

  /** dgaa1.c's 688-byte `aligned(8)` record: the step loop copies exactly
      the record, with legal 8-byte units, and every record starts aligned. */
  lemma DgaaStepLoopExact()
    ensures Tiles(StepChunks(DGAA_RECORD, 0), 0, DGAA_RECORD)
    ensures LegalChunks(StepChunks(DGAA_RECORD, 0), 8)
    ensures forall t :: 0 <= t < 11 ==> Aligned(DGAA_RECORD * t)
  {
    StepChunksCover(DGAA_RECORD, 0);
  }

  // ---------------------------------------------------------------------
  // The vocabulary padding of dga_host2.c.

  /** The copies dga_host2.c issues for a vocabulary of `size` bytes: when
      the size is not a multiple of 8, the table itself and then
      `8 - size % 8` zero bytes behind it; otherwise the table in one copy. */
  function PaddedVocabCopies(size: nat): seq<Chunk> {
    if size % 8 != 0 then [Chunk(0, size), Chunk(size, 8 - size % 8)] else [Chunk(0, size)]
  }

  /** The copies cover the rounded-up size, the padding is 1 to 7 bytes, and
      the final `check_alignment(0, vocab_size)` passes. The 130-entry table of
      520 bytes takes the branch without padding. */
  lemma PaddedVocabCovers(size: nat)
    ensures Tiles(PaddedVocabCopies(size), 0, PadRoundUp(size))
    ensures !Aligned(size) ==> 1 <= PadRoundUp(size) - size <= 7
    ensures CheckAlignment(0, PadRoundUp(size)) == Pass
    ensures PaddedVocabCopies(130 * 4) == [Chunk(0, 520)]
  {
    var cs := PaddedVocabCopies(size);
    if size % 8 != 0 {
      assert cs[1..][1..] == [];
    } else {
      assert cs[1..] == [];
    }
  }

  /** `check_alignment(0, MODEL_SIZE)` passes: 1814336 is a multiple of 8. */
  lemma ModelSizeAligned()
    ensures CheckAlignment(0, MODEL_SIZE) == Pass
  {
  }
}
