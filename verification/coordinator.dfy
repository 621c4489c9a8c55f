/** Which tasklet handles which record, and how the host reads the verdicts.

    Every DPU program gives tasklet `t` its own record: dga.c, dgaa1.c, dt2.c,
    dtest.c and dt1good.c read `mram_examples[t]`, process it and write it
    back; dga1.c strides over the batch, tasklet `t` taking records `t`,
    `t + 11`, `t + 22`, ... The hosts read the records back and turn the
    labels into a report and a single "something malicious" flag. Only the
    index arithmetic and the per-record data flow are modelled; what a
    tasklet does to its record is the parameter `process`. */
module Coordinator {
  import opened Align
  import opened Layout

  // ---------------------------------------------------------------------
  // The strided loop of dga1.c.

  const DGA1_TASKLETS: nat := 11

  /** The records `for (i = t; i < n; i += step)` visits, in order. */
  function Visits(t: nat, n: nat, step: nat): seq<nat>
    requires step > 0
    decreases n - t
  {
    if t >= n then [] else [t] + Visits(t + step, n, step)
  }

  /** Visit `k` is record `t + k * step`, every visit lies below `n`, and the
      visits stop at the first multiple past it: each record of the stride is
      visited once, in increasing order. */
  lemma {:induction false} VisitsIndexed(t: nat, n: nat, step: nat)
    requires step > 0
    ensures forall k :: 0 <= k < |Visits(t, n, step)| ==> Visits(t, n, step)[k] == t + k * step < n
    ensures t + |Visits(t, n, step)| * step >= n
    ensures forall a, b :: 0 <= a < b < |Visits(t, n, step)| ==> Visits(t, n, step)[a] < Visits(t, n, step)[b]
    decreases n - t
  {
    if t < n {
      VisitsIndexed(t + step, n, step);
      var vs := Visits(t, n, step);
      var rest := Visits(t + step, n, step);
      assert vs[1..] == rest;
      forall k | 1 <= k < |vs| ensures vs[k] == t + k * step {
        assert vs[k] == rest[k - 1] == t + step + (k - 1) * step;
      }
      assert t + |vs| * step == t + step + |rest| * step;
      forall a, b | 0 <= a < b < |vs| ensures vs[a] < vs[b] {
        if a > 0 {
          assert vs[a] == rest[a - 1] && vs[b] == rest[b - 1];
        } else {
          assert vs[b] == rest[b - 1] == t + step + (b - 1) * step;
        }
      }
    }
  }

  /** Adding whole steps keeps the residue. */
  lemma ResidueOfStride(t: nat, k: nat, step: nat)
    requires t < step
    ensures (t + k * step) % step == t
  {
    var i := t + k * step;
    var q := i / step;
    var r := i % step;
    assert i == q * step + r;
    assert (q - k) * step == t - r;
    ProductBounds(q - k, step);
  }

  /** A non-zero multiple of `step` is at least `step` away from 0. */
  lemma ProductBounds(d: int, step: nat)
    requires step > 0
    ensures d >= 1 ==> d * step >= step
    ensures d <= -1 ==> d * step <= -(step as int)
  {
    if d >= 1 {
      StrideGrows(1, d, step);
    } else if d <= -1 {
      StrideGrows(1, -d, step);
      assert d * step == -((-d) * step);
    }
  }

  lemma {:induction false} StrideGrows(a: nat, b: nat, step: nat)
    requires a <= b
    ensures a * step <= b * step
  {
    if a < b {
      StrideGrows(a, b - 1, step);
      assert b * step == (b - 1) * step + step;
    }
  }

  /** Tasklets split the batch by residue: for `t < step`, record `i` is
      visited by tasklet `t` exactly when `t = i mod step`, so every record is
      handled by one tasklet and by no other. */
  lemma PartitionByResidue(n: nat, step: nat, i: nat, t: nat)
    requires step > 0 && i < n && t < step
    ensures i in Visits(t, n, step) <==> t == i % step
  {
    if t == i % step {
      ResidueIsVisited(n, step, i);
    }
    if i in Visits(t, n, step) {
      VisitedHasResidue(n, step, i, t);
    }
  }

  /** Record `i` is visit `i / step` of tasklet `i mod step`. */
  lemma ResidueIsVisited(n: nat, step: nat, i: nat)
    requires step > 0 && i < n
    ensures i in Visits(i % step, n, step)
  {
    var t := i % step;
    var q := i / step;
    assert i == t + q * step;
    StrideVisited(t, n, step, q);
  }

  /** Record `t + q * step`, when below `n`, is visited. */
  lemma {:induction false} StrideVisited(t: nat, n: nat, step: nat, q: nat)
    requires step > 0 && t + q * step < n
    ensures t + q * step in Visits(t, n, step)
    decreases q
  {
    assert Visits(t, n, step) == [t] + Visits(t + step, n, step);
    if q > 0 {
      assert (t + step) + (q - 1) * step == t + q * step;
      StrideVisited(t + step, n, step, q - 1);
    }
  }

  /** Every record tasklet `t` visits has residue `t`. */
  lemma VisitedHasResidue(n: nat, step: nat, i: nat, t: nat)
    requires step > 0 && t < step && i in Visits(t, n, step)
    ensures i % step == t
  {
    VisitsIndexed(t, n, step);
    var vs := Visits(t, n, step);
    var k :| 0 <= k < |vs| && vs[k] == i;
    ResidueOfStride(t, k, step);
  }

  /** The loop of `dpu_task` in dga1.c, recording the indices it handles. */
  method TaskletRecords(t: nat, n: nat, step: nat) returns (vs: seq<nat>)
    requires step > 0
    ensures vs == Visits(t, n, step)
    ensures forall k :: 0 <= k < |vs| ==> vs[k] == t + k * step < n
    ensures t + |vs| * step >= n
  {
    vs := [];
    var i := t;
    while i < n
      invariant vs + Visits(i, n, step) == Visits(t, n, step)
      decreases n - i
    {
      assert Visits(i, n, step) == [i] + Visits(i + step, n, step);
      vs := vs + [i];
      i := i + step;
    }
    assert Visits(i, n, step) == [];
    assert vs == Visits(t, n, step);
    VisitsIndexed(t, n, step);
  }

  /** The address arithmetic of dga1.c's record read: `sizeof(Example)` =
      668 bytes at `&domains[i * 130]` in the 1430-byte `domains` array end
      inside the array only for `i <= 5`. Where the bytes actually come from
      is `CastRead`'s business. */
  lemma Dga1ReadWindow(i: nat)
    ensures i * 130 + SizeOf(Dga1Example) <= 130 * DGA1_TASKLETS <==> i <= 5
  {
    UnalignedExampleSizes();
  }

  // ---------------------------------------------------------------------
  // The address spaces of dga1.c.

  /** A DPU's two memories. WRAM holds `__host` variables such as dga1.c's
      `domains` and the tasklets' locals; MRAM holds the `__mram` symbols.
      An address is a plain offset into one of them. */
  datatype Memories = Memories(wram: seq<int>, mram: seq<int>)

  /** `mram_read((__mram_ptr void *)p, buf, n)` with `p` a WRAM address, as
      dga1.c does with `&domains[i * 130]` and with `&example->char_ids`: the
      cast keeps the number, so the `n` bytes come from MRAM at that offset. */
  function CastRead(m: Memories, addr: nat, n: nat): (bs: seq<int>)
    requires addr + n <= |m.mram|
    ensures |bs| == n
  {
    m.mram[addr..addr + n]
  }

  /** dga1.c's record read as written: the cast read of `&domains[i * 130]`
      never sees WRAM. Replacing all of WRAM leaves its result unchanged, and
      it returns the WRAM bytes at `addr` exactly when MRAM holds the same
      bytes at the same offset. So the names the host put in `domains` (the
      bytes 'a', 'b', 'c', NUL here, with zeros in MRAM) are not what the
      tasklet reads. */
  lemma Dga1CastReadMissesWram(m: Memories, wram: seq<int>, addr: nat, n: nat)
    requires addr + n <= |m.mram| && addr + n <= |m.wram|
    ensures CastRead(Memories(wram, m.mram), addr, n) == CastRead(m, addr, n)
    ensures CastRead(m, addr, n) == m.wram[addr..addr + n] <==> m.mram[addr..addr + n] == m.wram[addr..addr + n]
    ensures var names := Memories([97, 98, 99, 0], [0, 0, 0, 0]);
      CastRead(names, 0, 4) != names.wram
  {
    var names := Memories([97, 98, 99, 0], [0, 0, 0, 0]);
    assert CastRead(names, 0, 4)[0] == 0 != names.wram[0];
  }

  /** `run_inference` in dga1.c as written: `preprocess_domain` left `ids` in
      the WRAM record at `addr`, and the cast reload of `char_ids` returns
      them exactly when MRAM holds the same ids at that offset. Over MRAM
      that is still zero there, any name with a non-zero id reaches the
      embedding as something else. */
  lemma Dga1CharIdsCastRead(m: Memories, ids: seq<int>, addr: nat)
    requires addr + |ids| <= |m.mram| && addr + |ids| <= |m.wram|
    requires m.wram[addr..addr + |ids|] == ids
    ensures CastRead(m, addr, |ids|) == ids <==> m.mram[addr..addr + |ids|] == ids
    ensures ((forall k :: addr <= k < addr + |ids| ==> m.mram[k] == 0) &&
             (exists k :: 0 <= k < |ids| && ids[k] != 0))
            ==> CastRead(m, addr, |ids|) != ids
  {
    if (forall k :: addr <= k < addr + |ids| ==> m.mram[k] == 0) &&
       (exists k :: 0 <= k < |ids| && ids[k] != 0) {
      var k :| 0 <= k < |ids| && ids[k] != 0;
      assert CastRead(m, addr, |ids|)[k] == m.mram[addr + k] == 0;
    }
  }

  /** `dpu_copy_to` of `data` to an MRAM symbol at `base`: the bytes are
      replaced and nothing else changes. */
  function HostCopy(mram: seq<int>, base: nat, data: seq<int>): (r: seq<int>)
    requires base + |data| <= |mram|
    ensures |r| == |mram|
    ensures forall k :: 0 <= k < |data| ==> r[base + k] == data[k]
    ensures forall k :: 0 <= k < |mram| && !(base <= k < base + |data|) ==> r[k] == mram[k]
  {
    mram[..base] + data + mram[base + |data|..]
  }

  /** dga1.c as intended: `domains` is an MRAM symbol at `base`, the host
      copies the 1430 bytes of names into it, and the read of tasklet `i`'s
      130-byte slot returns name `i`'s slot, whatever MRAM held before. */
  lemma {:induction false} MramDomainsReadBack(names: seq<int>, mram: seq<int>, base: nat, i: nat)
    requires |names| == 130 * DGA1_TASKLETS && base + |names| <= |mram| && i < DGA1_TASKLETS
    ensures var m := HostCopy(mram, base, names);
      base + i * 130 + 130 <= |m| &&
      m[base + i * 130 .. base + i * 130 + 130] == names[i * 130 .. i * 130 + 130]
  {
    var m := HostCopy(mram, base, names);
    var lo := i * 130;
    assert lo + 130 <= |names|;
    var got := m[base + lo .. base + lo + 130];
    var slot := names[lo .. lo + 130];
    forall k | 0 <= k < 130
      ensures got[k] == slot[k]
    {
      assert m[base + (lo + k)] == names[lo + k];
    }
  }

  // ---------------------------------------------------------------------
  // The record buffer of dga1.c.

  /** One iteration of dga1.c as written: the record is read into
      `examples[0]`, but `examples[tasklet_id]` is preprocessed and classified,
      and `examples[0]` is written back. Returns the WRAM buffer and the
      record written back to MRAM. */
  function Dga1StepAsWritten<R>(wram: seq<R>, t: nat, input: R, process: R -> R): (r: (seq<R>, R))
    requires t < |wram|
  {
    var read := wram[0 := input];
    var done := read[t := process(read[t])];
    (done, done[0])
  }

  /** For every tasklet but the first, the record written back is the record
      that was read, unprocessed, while the classification is run on whatever
      `examples[t]` held before. */
  lemma Dga1AsWrittenSkipsRecord<R>(wram: seq<R>, t: nat, input: R, process: R -> R)
    requires 0 < t < |wram|
    ensures Dga1StepAsWritten(wram, t, input, process).1 == input
    ensures Dga1StepAsWritten(wram, t, input, process).0[t] == process(wram[t])
  {
  }

  /** Tasklet 0 is the only one for which the two indices agree. */
  lemma Dga1AsWrittenFirstTasklet<R>(wram: seq<R>, input: R, process: R -> R)
    requires 0 < |wram|
    ensures Dga1StepAsWritten(wram, 0, input, process).1 == process(input)
  {
  }

  /** The evident intent: read into, process and write back the same slot. */
  function Dga1Step<R>(wram: seq<R>, t: nat, input: R, process: R -> R): (r: (seq<R>, R))
    requires t < |wram|
  {
    var read := wram[t := input];
    var done := read[t := process(read[t])];
    (done, done[t])
  }

  /** Corrected, every tasklet writes back its own record processed, and no
      other slot of its buffer changes. */
  lemma Dga1StepProcesses<R>(wram: seq<R>, t: nat, input: R, process: R -> R)
    requires t < |wram|
    ensures Dga1Step(wram, t, input, process).1 == process(input)
    ensures forall k :: 0 <= k < |wram| && k != t ==> Dga1Step(wram, t, input, process).0[k] == wram[k]
  {
  }

  // ---------------------------------------------------------------------
  // Per-record ownership (dga.c, dgaa1.c, dt2.c, dtest.c, dt1good.c).

  /** Tasklet `t` reads `mram_examples[t]`, processes it, and writes it back.
      With `limit` tasklets admitted (dtest.c returns at once for an id of 7
      or more), a tasklet at or past the limit changes nothing. */
  function TaskletStep<R>(mram: seq<R>, t: nat, limit: nat, process: R -> R): (m: seq<R>)
    requires t < limit ==> t < |mram|
    ensures |m| == |mram|
    ensures t < limit ==> m[t] == process(mram[t])
    ensures forall i :: 0 <= i < |mram| && i != t ==> m[i] == mram[i]
    ensures t >= limit ==> m == mram
  {
    if t >= limit then mram else mram[t := process(mram[t])]
  }

  /** Tasklets run one after another in `order`. */
  function RunTasklets<R>(mram: seq<R>, order: seq<nat>, limit: nat, process: R -> R): (m: seq<R>)
    requires forall k :: 0 <= k < |order| ==> order[k] < |mram|
    ensures |m| == |mram|
    decreases |order|
  {
    if |order| == 0 then mram
    else RunTasklets(TaskletStep(mram, order[0], limit, process), order[1..], limit, process)
  }

  /** Whatever order tasklets run in, provided each runs once: a record
      owned by an admitted tasklet that ran is processed exactly once, and
      every other record is left as it was. The result does not depend on the
      schedule. */
  lemma {:induction false} RunTaskletsOwned<R>(mram: seq<R>, order: seq<nat>, limit: nat, process: R -> R)
    requires forall k :: 0 <= k < |order| ==> order[k] < |mram|
    requires forall a, b :: 0 <= a < b < |order| ==> order[a] != order[b]
    ensures forall i :: 0 <= i < |mram| ==>
      RunTasklets(mram, order, limit, process)[i] == if i in order && i < limit then process(mram[i]) else mram[i]
    decreases |order|
  {
    if |order| > 0 {
      var t := order[0];
      var next := TaskletStep(mram, t, limit, process);
      RunTaskletsOwned(next, order[1..], limit, process);
      forall i | 0 <= i < |mram|
        ensures RunTasklets(mram, order, limit, process)[i] == if i in order && i < limit then process(mram[i]) else mram[i]
      {
        if i == t {
          forall b | 0 <= b < |order| - 1 ensures order[1..][b] != t {
            assert order[1..][b] == order[b + 1];
          }
          assert t !in order[1..];
        } else {
          assert i in order <==> i in order[1..] by {
            if i in order {
              var b :| 0 <= b < |order| && order[b] == i;
              assert b > 0 && order[1..][b - 1] == i;
            }
          }
        }
      }
    }
  }

  /** When every record's tasklet runs, every record is processed, in any
      schedule. dtest.c's guard admits ids below 7, which are all of its 7
      tasklets, so there the guard never fires. */
  lemma EveryRecordProcessed<R>(mram: seq<R>, order: seq<nat>, process: R -> R)
    requires forall k :: 0 <= k < |order| ==> order[k] < |mram|
    requires forall a, b :: 0 <= a < b < |order| ==> order[a] != order[b]
    requires forall i :: 0 <= i < |mram| ==> i in order
    ensures forall i :: 0 <= i < |mram| ==> RunTasklets(mram, order, |mram|, process)[i] == process(mram[i])
  {
    RunTaskletsOwned(mram, order, |mram|, process);
  }

  // ---------------------------------------------------------------------
  // The host side.

  /** dtest_host.c reads back `RESULTS_SIZE = NR_TASKLETS * sizeof(Example)`
      bytes: 7 records of 192 bytes, so record `i` starts at offset `192 i`,
      an 8-byte boundary. */
  lemma ResultsSize()
    ensures 7 * SizeOf(DtestExample) == 1344
    ensures SizeOf(DtestExample) == 192 && Aligned(SizeOf(DtestExample))
  {
    AlignedExampleSizes();
  }

  datatype Report = Malicious | Benign

  /** The per-record report: only the label 1 is malicious. */
  function Verdict(lbl: int): (r: Report)
    ensures r == Malicious <==> lbl == 1
  {
    if lbl == 1 then Malicious else Benign
  }

  /** Some record carries a non-zero label. */
  predicate AnyFlagged(labels: seq<int>) {
    exists i :: 0 <= i < |labels| && labels[i] != 0
  }

  /** `print_inference_results` of dtest_host2.c: `final_result` starts at 0
      and becomes 1 at the first non-zero label; each record gets its
      verdict. The version in dtest_host1.c keeps the flag and prints no
      verdicts. */
  method PrintInferenceResults(labels: seq<int>) returns (finalResult: int, reports: seq<Report>)
    ensures finalResult == 0 || finalResult == 1
    ensures finalResult == 1 <==> AnyFlagged(labels)
    ensures |reports| == |labels|
    ensures forall i :: 0 <= i < |labels| ==> (reports[i] == Malicious <==> labels[i] == 1)
  {
    finalResult := 0;
    reports := [];
    var i := 0;
    while i < |labels|
      invariant 0 <= i <= |labels|
      invariant finalResult == 0 || finalResult == 1
      invariant finalResult == 1 <==> AnyFlagged(labels[..i])
      invariant |reports| == i
      invariant forall k :: 0 <= k < i ==> reports[k] == Verdict(labels[k])
    {
      assert labels[..i + 1] == labels[..i] + [labels[i]];
      if labels[i] != 0 {
        finalResult := 1;
      }
      reports := reports + [Verdict(labels[i])];
      i := i + 1;
    }
    assert labels[..i] == labels;
  }

  /** The flag of a batch is the flag of either part. */
  lemma FlaggedSplits(a: seq<int>, b: seq<int>)
    ensures AnyFlagged(a + b) <==> AnyFlagged(a) || AnyFlagged(b)
  {
    if AnyFlagged(a) {
      var i :| 0 <= i < |a| && a[i] != 0;
      assert (a + b)[i] == a[i];
    }
    if AnyFlagged(b) {
      var i :| 0 <= i < |b| && b[i] != 0;
      assert (a + b)[|a| + i] == b[i];
    }
  }

  /** For the labels the kernel produces, 0 or 1, the flag is set exactly
      when some record is reported malicious. */
  lemma FlagAgreesWithReports(labels: seq<int>)
    requires forall i :: 0 <= i < |labels| ==> labels[i] == 0 || labels[i] == 1
    ensures AnyFlagged(labels) <==> exists i :: 0 <= i < |labels| && Verdict(labels[i]) == Malicious
  {
  }

  /** Any other label value sets the flag while its record is reported
      benign. */
  lemma OtherLabelsDisagree()
    ensures AnyFlagged([2]) && Verdict([2][0]) == Benign
  {
  }
}
