/** The gated two-layer variant of dt1good.c, with the host side of
    domain_host.c that feeds it.

    The record carries its own scratch space: `padding[0..4]` receives the
    embedding row of each position in turn, `padding[4]` the final output,
    and `lstm_hidden_1`, `lstm_hidden_2` the two hidden vectors. The
    embedding table has 256 rows of 4 floats; both weight matrices are 4 by
    4, row-major. */
module Gated {
  import opened Vocabulary

  /** `EMBEDDING_DIM`, equal to `LSTM_HIDDEN_DIM`. */
  const DIM: nat := 4
  /** `MAX_DOMAIN_LEN` of this variant. */
  const MAX_LEN: nat := 16
  /** Rows of the embedding table. */
  const TABLE_ROWS: nat := 256
  /** `output_gate`. */
  const GATE: real := 0.8
  /** The host's malicious threshold. */
  const THRESHOLD: real := 5.0

  datatype GatedRecord = GatedRecord(
    domainLen: int,
    name: seq<char>,
    ids: seq<int>,
    verdict: int,
    padding: seq<real>,
    hidden1: seq<real>,
    hidden2: seq<real>)

  predicate WellFormed(r: GatedRecord) {
    |r.name| == MAX_LEN && |r.ids| == MAX_LEN && |r.padding| == 2 * DIM &&
    |r.hidden1| == DIM && |r.hidden2| == DIM
  }

  /** The weights the device reads. */
  datatype Weights = Weights(embedding: seq<real>, w1: seq<real>, w2: seq<real>)

  predicate ValidWeights(w: Weights) {
    |w.embedding| == TABLE_ROWS * DIM && |w.w1| == DIM * DIM && |w.w2| == DIM * DIM
  }

  /** Every id of the name selects a row of the embedding table. */
  predicate IdsSelectRows(r: GatedRecord) {
    |r.ids| == MAX_LEN && r.domainLen <= MAX_LEN &&
    forall i :: 0 <= i < r.domainLen ==> 0 <= r.ids[i] < TABLE_ROWS
  }

  /** `sum_{k < n} v[base + k] * m[k * 4 + j]`: column `j` of the product of
      a 4-vector stored at `v[base..]` with the matrix `m`. */
  function Mix(v: seq<real>, base: nat, m: seq<real>, j: nat, n: nat): real
    requires n <= DIM && base + n <= |v| && j < DIM && |m| == DIM * DIM
  {
    if n == 0 then 0.0 else Mix(v, base, m, j, n - 1) + v[base + n - 1] * m[(n - 1) * DIM + j]
  }

  /** Reference definition of `lstm_hidden_1[j]`: over the first `n`
      positions, the product of each position's embedding row with `w1`. */
  function Hidden1Ref(w: Weights, ids: seq<int>, n: nat, j: nat): real
    requires ValidWeights(w) && j < DIM && n <= |ids|
    requires forall i :: 0 <= i < n ==> 0 <= ids[i] < TABLE_ROWS
  {
    if n == 0 then 0.0
    else Hidden1Ref(w, ids, n - 1, j) + Mix(w.embedding, ids[n - 1] * DIM, w.w1, j, DIM)
  }

  /** `sum_{j < n} v[j]`. */
  function Sum(v: seq<real>, n: nat): real
    requires n <= |v|
  {
    if n == 0 then 0.0 else Sum(v, n - 1) + v[n - 1]
  }

  /** The record after `dpu_task`, stated against the reference sums: the
      hidden vectors are computed from zero; `lstm_hidden_2` is four times the
      product of `lstm_hidden_1` with `w2` (the outer loop's index is unused),
      scaled by the gate; `padding[4]` is their sum; `padding[0..4]` holds
      the last position's embedding row, or what the record held before when
      the name is empty; nothing else changes. */
  predicate GatedResult(r: GatedRecord, w: Weights, s: GatedRecord)
    requires WellFormed(r) && ValidWeights(w) && IdsSelectRows(r)
  {
    var n: nat := if r.domainLen < 0 then 0 else r.domainLen;
    WellFormed(s) &&
    s.domainLen == r.domainLen && s.name == r.name && s.ids == r.ids && s.verdict == r.verdict &&
    (forall j :: 0 <= j < DIM ==> s.hidden1[j] == Hidden1Ref(w, r.ids, n, j)) &&
    (forall j :: 0 <= j < DIM ==> s.hidden2[j] == GATE * (4.0 * Mix(s.hidden1, 0, w.w2, j, DIM))) &&
    s.padding[DIM] == Sum(s.hidden2, DIM) &&
    (forall k :: 0 <= k < DIM ==> s.padding[k] == if n == 0 then r.padding[k] else w.embedding[r.ids[n - 1] * DIM + k]) &&
    (forall k :: DIM < k < 2 * DIM ==> s.padding[k] == r.padding[k])
  }

  /** `dpu_task` of dt1good.c on one record. */
  method GatedTask(r: GatedRecord, w: Weights) returns (s: GatedRecord)
    requires WellFormed(r) && ValidWeights(w) && IdsSelectRows(r)
    ensures GatedResult(r, w, s)
  {
    var zero := seq(DIM, _ => 0.0);
    var padding := r.padding;
    var h1 := zero;
    var n: nat := if r.domainLen < 0 then 0 else r.domainLen;
    var i := 0;
    while i < r.domainLen
      invariant 0 <= i <= n && |padding| == 2 * DIM && |h1| == DIM
      invariant forall j :: 0 <= j < DIM ==> h1[j] == Hidden1Ref(w, r.ids, i, j)
      invariant forall k :: 0 <= k < DIM ==> padding[k] == if i == 0 then r.padding[k] else w.embedding[r.ids[i - 1] * DIM + k]
      invariant forall k :: DIM <= k < 2 * DIM ==> padding[k] == r.padding[k]
    {
      padding := LoadRow(padding, w.embedding, r.ids[i]);
      h1 := AccumulateRow(h1, padding, w.w1);
      forall j | 0 <= j < DIM
        ensures h1[j] == Hidden1Ref(w, r.ids, i + 1, j)
      {
        MixAgrees(padding, w.embedding, r.ids[i] * DIM, w.w1, j, DIM);
      }
      i := i + 1;
    }
    var h2 := SecondLayer(h1, zero, w.w2);
    h2 := ApplyGate(h2);
    var final := FinalSum(h2);
    padding := padding[DIM := final];
    s := r.(padding := padding, hidden1 := h1, hidden2 := h2);
  }

  /** `padding[j] = mram_embedding_matrix[char_id * 4 + j]` for `j < 4`. */
  method LoadRow(p0: seq<real>, table: seq<real>, c: int) returns (p: seq<real>)
    requires |p0| == 2 * DIM && |table| == TABLE_ROWS * DIM && 0 <= c < TABLE_ROWS
    ensures |p| == 2 * DIM
    ensures forall k :: 0 <= k < DIM ==> p[k] == table[c * DIM + k]
    ensures forall k :: DIM <= k < 2 * DIM ==> p[k] == p0[k]
  {
    p := p0;
    var j := 0;
    while j < DIM
      invariant 0 <= j <= DIM && |p| == 2 * DIM
      invariant forall k :: 0 <= k < j ==> p[k] == table[c * DIM + k]
      invariant forall k :: j <= k < 2 * DIM ==> p[k] == p0[k]
    {
      p := p[j := table[c * DIM + j]];
      j := j + 1;
    }
  }

  /** Mixing a copy of a row gives the same as mixing the row in place. */
  lemma {:induction false} MixAgrees(p: seq<real>, table: seq<real>, base: nat, m: seq<real>, j: nat, n: nat)
    requires n <= DIM && DIM <= |p| && base + n <= |table| && j < DIM && |m| == DIM * DIM
    requires forall k :: 0 <= k < n ==> p[k] == table[base + k]
    ensures Mix(p, 0, m, j, n) == Mix(table, base, m, j, n)
  {
    if n > 0 {
      MixAgrees(p, table, base, m, j, n - 1);
    }
  }

  /** `lstm_hidden_1[j] += padding[k] * w1[k * 4 + j]` over `j`, then `k`. */
  method AccumulateRow(h0: seq<real>, p: seq<real>, m: seq<real>) returns (h: seq<real>)
    requires |h0| == DIM && |p| == 2 * DIM && |m| == DIM * DIM
    ensures |h| == DIM
    ensures forall j :: 0 <= j < DIM ==> h[j] == h0[j] + Mix(p, 0, m, j, DIM)
  {
    h := h0;
    var j := 0;
    while j < DIM
      invariant 0 <= j <= DIM && |h| == DIM
      invariant forall q :: 0 <= q < j ==> h[q] == h0[q] + Mix(p, 0, m, q, DIM)
      invariant forall q :: j <= q < DIM ==> h[q] == h0[q]
    {
      var k := 0;
      while k < DIM
        invariant 0 <= k <= DIM && |h| == DIM
        invariant h[j] == h0[j] + Mix(p, 0, m, j, k)
        invariant forall q :: 0 <= q < DIM && q != j ==> h[q] == (if q < j then h0[q] + Mix(p, 0, m, q, DIM) else h0[q])
      {
        h := h[j := h[j] + p[k] * m[k * DIM + j]];
        k := k + 1;
      }
      j := j + 1;
    }
  }

  /** The second layer: `lstm_hidden_2[j] += lstm_hidden_1[k] * w2[k * 4 + j]`
      inside an outer loop of four rounds whose index is not used. */
  method SecondLayer(h1: seq<real>, h0: seq<real>, m: seq<real>) returns (h: seq<real>)
    requires |h1| == DIM && |h0| == DIM && |m| == DIM * DIM
    ensures |h| == DIM
    ensures forall j :: 0 <= j < DIM ==> h[j] == h0[j] + 4.0 * Mix(h1, 0, m, j, DIM)
  {
    h := h0;
    var round := 0;
    while round < DIM
      invariant 0 <= round <= DIM && |h| == DIM
      invariant forall j :: 0 <= j < DIM ==> h[j] == h0[j] + round as real * Mix(h1, 0, m, j, DIM)
    {
      var before := h;
      h := AccumulateVector(h, h1, m);
      forall j | 0 <= j < DIM
        ensures h[j] == h0[j] + (round + 1) as real * Mix(h1, 0, m, j, DIM)
      {
        assert h[j] == before[j] + Mix(h1, 0, m, j, DIM);
      }
      round := round + 1;
    }
  }

  /** One round of the second layer. */
  method AccumulateVector(h0: seq<real>, v: seq<real>, m: seq<real>) returns (h: seq<real>)
    requires |h0| == DIM && |v| == DIM && |m| == DIM * DIM
    ensures |h| == DIM
    ensures forall j :: 0 <= j < DIM ==> h[j] == h0[j] + Mix(v, 0, m, j, DIM)
  {
    h := h0;
    var j := 0;
    while j < DIM
      invariant 0 <= j <= DIM && |h| == DIM
      invariant forall q :: 0 <= q < j ==> h[q] == h0[q] + Mix(v, 0, m, q, DIM)
      invariant forall q :: j <= q < DIM ==> h[q] == h0[q]
    {
      var k := 0;
      while k < DIM
        invariant 0 <= k <= DIM && |h| == DIM
        invariant h[j] == h0[j] + Mix(v, 0, m, j, k)
        invariant forall q :: 0 <= q < DIM && q != j ==> h[q] == (if q < j then h0[q] + Mix(v, 0, m, q, DIM) else h0[q])
      {
        h := h[j := h[j] + v[k] * m[k * DIM + j]];
        k := k + 1;
      }
      j := j + 1;
    }
  }

  /** `lstm_hidden_2[j] *= output_gate`. */
  method ApplyGate(h0: seq<real>) returns (h: seq<real>)
    requires |h0| == DIM
    ensures |h| == DIM
    ensures forall j :: 0 <= j < DIM ==> h[j] == GATE * h0[j]
  {
    h := h0;
    var j := 0;
    while j < DIM
      invariant 0 <= j <= DIM && |h| == DIM
      invariant forall q :: 0 <= q < j ==> h[q] == GATE * h0[q]
      invariant forall q :: j <= q < DIM ==> h[q] == h0[q]
    {
      h := h[j := h[j] * GATE];
      j := j + 1;
    }
  }

  /** `final_output += lstm_hidden_2[j]`. */
  method FinalSum(h: seq<real>) returns (total: real)
    requires |h| == DIM
    ensures total == Sum(h, DIM)
  {
    total := 0.0;
    var j := 0;
    while j < DIM
      invariant 0 <= j <= DIM
      invariant total == Sum(h, j)
    {
      total := total + h[j];
      j := j + 1;
    }
  }

  /** An empty name leaves both hidden vectors at zero, so the final output
      is zero and the host reports the name as benign. */
  lemma EmptyNameScoresZero(r: GatedRecord, w: Weights, s: GatedRecord)
    requires WellFormed(r) && ValidWeights(w) && IdsSelectRows(r) && r.domainLen <= 0
    requires GatedResult(r, w, s)
    ensures s.padding[DIM] == 0.0 && !Malicious(s)
  {
    forall j | 0 <= j < DIM ensures s.hidden1[j] == 0.0 {
    }
    forall j | 0 <= j < DIM ensures Mix(s.hidden1, 0, w.w2, j, DIM) == 0.0 {
      MixOfZero(s.hidden1, w.w2, j, DIM);
    }
    var h := s.hidden2;
    assert h[0] == 0.0 && h[1] == 0.0 && h[2] == 0.0 && h[3] == 0.0;
    assert Sum(h, 1) == 0.0;
    assert Sum(h, 2) == 0.0;
    assert Sum(h, 3) == 0.0;
    assert Sum(h, 4) == 0.0;
  }

  lemma {:induction false} MixOfZero(v: seq<real>, m: seq<real>, j: nat, n: nat)
    requires n <= DIM && DIM <= |v| && j < DIM && |m| == DIM * DIM
    requires forall k :: 0 <= k < DIM ==> v[k] == 0.0
    ensures Mix(v, 0, m, j, n) == 0.0
  {
    if n > 0 {
      MixOfZero(v, m, j, n - 1);
    }
  }

  /** The host's verdict: malicious exactly when the final output exceeds
      the threshold. */
  predicate Malicious(s: GatedRecord)
    requires |s.padding| == 2 * DIM
  {
    s.padding[DIM] > THRESHOLD
  }

  // ---------------------------------------------------------------------
  // The host side (domain_host.c)

  /** The embedding matrix the host fills: entry `j` of row `i` is `i + j`. */
  function HostEmbedding(): (m: seq<real>)
    ensures |m| == TABLE_ROWS * DIM
    ensures forall i, j :: 0 <= i < TABLE_ROWS && 0 <= j < DIM ==> HostCell(m, i, j)
  {
    var m := seq(TABLE_ROWS * DIM, p requires 0 <= p < TABLE_ROWS * DIM => (p / DIM + p % DIM) as real);
    assert forall i, j :: 0 <= i < TABLE_ROWS && 0 <= j < DIM ==> HostCell(m, i, j) by {
      forall i, j | 0 <= i < TABLE_ROWS && 0 <= j < DIM ensures HostCell(m, i, j) {
        assert (i * DIM + j) / DIM == i && (i * DIM + j) % DIM == j;
      }
    }
    m
  }

  predicate HostCell(m: seq<real>, i: nat, j: nat) {
    i * DIM + j < |m| && m[i * DIM + j] == (i + j) as real
  }

  /** The record the host builds for one name: `strncpy` into the 16-byte
      field, then `generate_char_ids` with the host's vocabulary table. */
  function HostRecord(d: seq<char>, prior: GatedRecord): (r: GatedRecord)
    requires AllBytes(d) && |d| <= MAX_LEN && WellFormed(prior)
    ensures WellFormed(r)
  {
    var (len, ids) := GenerateCharIds(d, InitVocab());
    prior.(domainLen := len, name := StrncpyField(d, MAX_LEN), ids := ids)
  }

  /** Every id the host produces is 0 or a listed id below 56, so each
      selects a row of the 256-row embedding table and the device's reads
      stay inside it. */
  lemma HostIdsSelectRows(d: seq<char>, prior: GatedRecord)
    requires AllBytes(d) && |d| <= MAX_LEN && WellFormed(prior)
    ensures IdsSelectRows(HostRecord(d, prior))
    ensures forall i :: 0 <= i < MAX_LEN ==> 0 <= HostRecord(d, prior).ids[i] <= 55
  {
    var r := HostRecord(d, prior);
    forall i | 0 <= i < |d|
      ensures 0 <= r.ids[i] <= 55
    {
      if ListedId(d[i]).Some? {
        ListedIds(d[i], d[i]);
      } else {
        UnlistedIdIsZero(d[i]);
      }
    }
  }
}
