/** The simplified inference kernel `run_inference`, over the reals.

    The embeddings live in one flat buffer of `MAX_DOMAIN_LEN * EMBEDDING_DIM`
    floats, read and written as `embeddings[i][j]`, that is at flat position
    `i * dim + j`. The buffer is not initialised first, so its prior contents
    are a parameter (`stale`). The weights are one flat sequence, indexed
    exactly as the source does: embedding row `c` at `c * dim`, classifier
    weights for class `c` at `100 + 100 * c` (which overlaps the embedding
    rows; no partition is imposed). */
module Kernel {
  import opened Activation

  /** `LSTM_HIDDEN_SIZE`, the width of the accumulators. */
  const HIDDEN: nat := 100
  /** `LSTM_LAYERS`. */
  const LAYERS: nat := 2

  // ---------------------------------------------------------------------
  // Index arithmetic for row-major buffers.

  lemma MulLe(a: nat, b: nat, dim: nat)
    requires a <= b
    ensures a * dim <= b * dim
  {
  }

  /** Position `j` of row `i` lies before row `i + 1`. */
  lemma RowIndex(i: nat, j: nat, dim: nat)
    requires j < dim
    ensures i * dim + j < (i + 1) * dim
  {
  }

  /** Distinct cells of a row-major buffer are at distinct positions. */
  lemma CellsDistinct(i1: nat, j1: nat, i2: nat, j2: nat, dim: nat)
    requires j1 < dim && j2 < dim && (i1 != i2 || j1 != j2)
    ensures i1 * dim + j1 != i2 * dim + j2
  {
    if i1 < i2 {
      RowIndex(i1, j1, dim);
      MulLe(i1 + 1, i2, dim);
    } else if i2 < i1 {
      RowIndex(i2, j2, dim);
      MulLe(i2 + 1, i1, dim);
    }
  }

  // ---------------------------------------------------------------------
  // Embedding

  /** Every id of the name selects a whole row of the weights. */
  predicate IdsInTable(weights: seq<real>, ids: seq<int>, len: nat, dim: nat) {
    len <= |ids| && forall i :: 0 <= i < len ==> 0 <= ids[i] && ids[i] * dim + dim <= |weights|
  }

  /** Cell (i, j) of the buffer holds entry j of weight row `ids[i]`. */
  predicate EmbeddedCell(e: seq<real>, weights: seq<real>, ids: seq<int>, dim: nat, i: nat, j: nat) {
    i < |ids| && 0 <= ids[i] && i * dim + j < |e| && ids[i] * dim + j < |weights| &&
    e[i * dim + j] == weights[ids[i] * dim + j]
  }

  /** The buffer after the embedding loop: rows below `len` hold the weight
      rows of the ids, everything from `len * dim` on keeps its stale value. */
  predicate Embedded(e: seq<real>, stale: seq<real>, weights: seq<real>, ids: seq<int>, len: nat, dim: nat) {
    |e| == |stale| &&
    (forall i, j :: 0 <= i < len && 0 <= j < dim ==> EmbeddedCell(e, weights, ids, dim, i, j)) &&
    (forall p :: len * dim <= p < |e| ==> e[p] == stale[p])
  }

  /** The embedding loop: `embeddings[i][j] = weights[char_id * dim + j]` for
      every position `i` of the name and every `j < dim`. */
  method EmbedRows(stale: seq<real>, weights: seq<real>, ids: seq<int>, len: nat, dim: nat) returns (e: seq<real>)
    requires len * dim <= |stale| && IdsInTable(weights, ids, len, dim)
    ensures Embedded(e, stale, weights, ids, len, dim)
  {
    e := stale;
    var i := 0;
    while i < len
      invariant 0 <= i <= len && Embedded(e, stale, weights, ids, i, dim)
    {
      e := EmbedRow(e, stale, weights, ids, len, dim, i);
      i := i + 1;
    }
  }

  /** Part way through row `i`: the rows before it and its first `j` cells
      are filled, and everything from cell `j` of row `i` on is still stale. */
  predicate RowPrefix(e: seq<real>, stale: seq<real>, weights: seq<real>, ids: seq<int>, dim: nat, i: nat, j: nat) {
    |e| == |stale| &&
    (forall i', j' :: 0 <= i' < i && 0 <= j' < dim ==> EmbeddedCell(e, weights, ids, dim, i', j')) &&
    (forall j' :: 0 <= j' < j ==> EmbeddedCell(e, weights, ids, dim, i, j')) &&
    (forall p :: i * dim + j <= p < |e| ==> e[p] == stale[p])
  }

  /** One pass of the inner loop: row `i` is filled, the rows before it stay
      filled, and everything after it is still stale. */
  method EmbedRow(e0: seq<real>, stale: seq<real>, weights: seq<real>, ids: seq<int>, len: nat, dim: nat, i: nat)
    returns (e: seq<real>)
    requires i < len && len * dim <= |stale| && IdsInTable(weights, ids, len, dim)
    requires Embedded(e0, stale, weights, ids, i, dim)
    ensures Embedded(e, stale, weights, ids, i + 1, dim)
  {
    e := e0;
    var j := 0;
    MulLe(i + 1, len, dim);
    while j < dim
      invariant 0 <= j <= dim && RowPrefix(e, stale, weights, ids, dim, i, j)
    {
      RowIndex(i, j, dim);
      e := WriteCell(e, stale, weights, ids, len, dim, i, j);
      j := j + 1;
    }
    RowPrefixComplete(e, stale, weights, ids, dim, i);
  }

  /** `embeddings[i][j] = weights[char_id * dim + j]`, one cell. */
  function WriteCell(e: seq<real>, stale: seq<real>, weights: seq<real>, ids: seq<int>, len: nat, dim: nat, i: nat, j: nat)
    : (e': seq<real>)
    requires i < len && j < dim && len * dim <= |stale| && IdsInTable(weights, ids, len, dim)
    requires RowPrefix(e, stale, weights, ids, dim, i, j)
    ensures RowPrefix(e', stale, weights, ids, dim, i, j + 1)
  {
    RowIndex(i, j, dim);
    MulLe(i + 1, len, dim);
    var at := i * dim + j;
    var e' := e[at := weights[ids[i] * dim + j]];
    WriteKeepsRows(e, e', weights, ids, dim, i, j);
    WriteKeepsRowPrefix(e, e', weights, ids, dim, i, j);
    assert EmbeddedCell(e', weights, ids, dim, i, j);
    e'
  }

  /** Writing cell (i, j) leaves every filled cell of an earlier row alone. */
  lemma WriteKeepsRows(e: seq<real>, e': seq<real>, weights: seq<real>, ids: seq<int>, dim: nat, i: nat, j: nat)
    requires j < dim && i * dim + j < |e| && |e'| == |e|
    requires forall p :: 0 <= p < |e| && p != i * dim + j ==> e'[p] == e[p]
    requires forall i', j' :: 0 <= i' < i && 0 <= j' < dim ==> EmbeddedCell(e, weights, ids, dim, i', j')
    ensures forall i', j' :: 0 <= i' < i && 0 <= j' < dim ==> EmbeddedCell(e', weights, ids, dim, i', j')
  {
    forall i', j' | 0 <= i' < i && 0 <= j' < dim
      ensures EmbeddedCell(e', weights, ids, dim, i', j')
    {
      assert EmbeddedCell(e, weights, ids, dim, i', j');
      CellsDistinct(i', j', i, j, dim);
    }
  }

  /** Writing cell (i, j) leaves the cells before it in row `i` alone. */
  lemma WriteKeepsRowPrefix(e: seq<real>, e': seq<real>, weights: seq<real>, ids: seq<int>, dim: nat, i: nat, j: nat)
    requires j < dim && i * dim + j < |e| && |e'| == |e|
    requires forall p :: 0 <= p < |e| && p != i * dim + j ==> e'[p] == e[p]
    requires forall j' :: 0 <= j' < j ==> EmbeddedCell(e, weights, ids, dim, i, j')
    ensures forall j' :: 0 <= j' < j ==> EmbeddedCell(e', weights, ids, dim, i, j')
  {
    forall j' | 0 <= j' < j
      ensures EmbeddedCell(e', weights, ids, dim, i, j')
    {
      assert EmbeddedCell(e, weights, ids, dim, i, j');
    }
  }

  /** A fully written row extends the filled part by one row. */
  lemma RowPrefixComplete(e: seq<real>, stale: seq<real>, weights: seq<real>, ids: seq<int>, dim: nat, i: nat)
    requires RowPrefix(e, stale, weights, ids, dim, i, dim)
    ensures Embedded(e, stale, weights, ids, i + 1, dim)
  {
    assert (i + 1) * dim == i * dim + dim;
  }

  // ---------------------------------------------------------------------
  // The bidirectional accumulation

  /** Every read `embeddings[i][j]` with `i < len` and `j < HIDDEN` lands
      inside the buffer. */
  predicate Readable(size: nat, dim: nat, len: nat) {
    len == 0 || (len - 1) * dim + HIDDEN <= size
  }

  /** The forward read order: `embeddings[0][j] + ... + embeddings[n-1][j]`,
      for a name of `len >= n` positions. */
  function ColumnSum(e: seq<real>, dim: nat, len: nat, n: nat, j: nat): real
    requires j < HIDDEN && Readable(|e|, dim, len) && n <= len
  {
    if n == 0 then 0.0
    else
      MulLe(n - 1, len - 1, dim);
      ColumnSum(e, dim, len, n - 1, j) + e[(n - 1) * dim + j]
  }

  /** The backward read order: `embeddings[len-1][j] + ... +
      embeddings[len-n][j]`, the rows `reverse_index = len - 1 - i` for
      `i < n`. */
  function ReverseSum(e: seq<real>, dim: nat, len: nat, n: nat, j: nat): real
    requires j < HIDDEN && Readable(|e|, dim, len) && n <= len
  {
    if n == 0 then 0.0
    else
      MulLe(len - n, len - 1, dim);
      ReverseSum(e, dim, len, n - 1, j) + e[(len - n) * dim + j]
  }

  /** Reading the rows in reverse visits the same rows: the last `n` rows
      backwards plus the first `len - n` rows forwards is the whole column. */
  lemma {:induction false} ReverseSumSplits(e: seq<real>, dim: nat, len: nat, n: nat, j: nat)
    requires j < HIDDEN && Readable(|e|, dim, len) && n <= len
    ensures ReverseSum(e, dim, len, n, j) + ColumnSum(e, dim, len, len - n, j) == ColumnSum(e, dim, len, len, j)
  {
    if n > 0 {
      var k := len - n;
      ReverseSumSplits(e, dim, len, n - 1, j);
      assert len - (n - 1) == k + 1;
      var a := ReverseSum(e, dim, len, n - 1, j);
      var b := ColumnSum(e, dim, len, k + 1, j);
      assert a + b == ColumnSum(e, dim, len, len, j);
      ReverseSumStep(e, dim, len, n, j);
      ColumnSumStep(e, dim, len, k, j);
    }
  }

  lemma ReverseSumStep(e: seq<real>, dim: nat, len: nat, n: nat, j: nat)
    requires j < HIDDEN && Readable(|e|, dim, len) && 0 < n <= len
    ensures (len - n) * dim + j < |e|
    ensures ReverseSum(e, dim, len, n, j) == ReverseSum(e, dim, len, n - 1, j) + e[(len - n) * dim + j]
  {
    MulLe(len - n, len - 1, dim);
  }

  lemma ColumnSumStep(e: seq<real>, dim: nat, len: nat, k: nat, j: nat)
    requires j < HIDDEN && Readable(|e|, dim, len) && k < len
    ensures k * dim + j < |e|
    ensures ColumnSum(e, dim, len, k + 1, j) == ColumnSum(e, dim, len, k, j) + e[k * dim + j]
  {
    MulLe(k, len - 1, dim);
  }

  /** `reverse_index` is a permutation of the positions: both accumulators
      add the same column sum in each layer. */
  lemma ReverseSumIsColumnSum(e: seq<real>, dim: nat, len: nat, j: nat)
    requires j < HIDDEN && Readable(|e|, dim, len)
    ensures ReverseSum(e, dim, len, len, j) == ColumnSum(e, dim, len, len, j)
  {
    ReverseSumSplits(e, dim, len, len, j);
  }

  /** `lstm_output` and `lstm_backward_output`. */
  datatype Hidden = Hidden(forward: seq<real>, backward: seq<real>)

  predicate WellSized(h: Hidden) {
    |h.forward| == HIDDEN && |h.backward| == HIDDEN
  }

  function ZeroHidden(): (h: Hidden)
    ensures WellSized(h)
  {
    Hidden(seq(HIDDEN, _ => 0.0), seq(HIDDEN, _ => 0.0))
  }

  /** One layer: the position loop adds the forward and backward reads, and
      the bidirectional step adds the backward accumulator, which is never
      reset, into the forward one. */
  function Layer(e: seq<real>, dim: nat, len: nat, h: Hidden): (r: Hidden)
    requires Readable(|e|, dim, len) && WellSized(h)
    ensures WellSized(r)
  {
    var back := seq(HIDDEN, j requires 0 <= j < HIDDEN => h.backward[j] + ReverseSum(e, dim, len, len, j));
    Hidden(seq(HIDDEN, j requires 0 <= j < HIDDEN => h.forward[j] + ColumnSum(e, dim, len, len, j) + back[j]), back)
  }

  /** The accumulators after `layers` layers, starting from zero. */
  function Encode(e: seq<real>, dim: nat, len: nat, layers: nat): (r: Hidden)
    requires Readable(|e|, dim, len)
    ensures WellSized(r)
  {
    if layers == 0 then ZeroHidden() else Layer(e, dim, len, Encode(e, dim, len, layers - 1))
  }

  /** L (L + 3) / 2: how many times the column sum is in `lstm_output` after
      L layers. */
  function ForwardMultiple(layers: nat): real {
    (layers * (layers + 3)) as real / 2.0
  }

  /** After L layers the backward accumulator holds L copies of the column
      sum and the forward one L (L + 3) / 2 copies. */
  lemma EncodeClosedForm(e: seq<real>, dim: nat, len: nat, layers: nat, j: nat)
    requires Readable(|e|, dim, len) && j < HIDDEN
    ensures Encode(e, dim, len, layers).backward[j] == layers as real * ColumnSum(e, dim, len, len, j)
    ensures Encode(e, dim, len, layers).forward[j] == ForwardMultiple(layers) * ColumnSum(e, dim, len, len, j)
  {
    BackwardClosedForm(e, dim, len, layers, j);
    ForwardClosedForm(e, dim, len, layers, j);
  }

  lemma {:induction false} BackwardClosedForm(e: seq<real>, dim: nat, len: nat, layers: nat, j: nat)
    requires Readable(|e|, dim, len) && j < HIDDEN
    ensures Encode(e, dim, len, layers).backward[j] == layers as real * ColumnSum(e, dim, len, len, j)
  {
    if layers > 0 {
      BackwardClosedForm(e, dim, len, layers - 1, j);
      ReverseSumIsColumnSum(e, dim, len, j);
      var s := ColumnSum(e, dim, len, len, j);
      var l := (layers - 1) as real;
      assert layers as real * s == l * s + s;
    }
  }

  lemma {:induction false} ForwardClosedForm(e: seq<real>, dim: nat, len: nat, layers: nat, j: nat)
    requires Readable(|e|, dim, len) && j < HIDDEN
    ensures Encode(e, dim, len, layers).forward[j] == ForwardMultiple(layers) * ColumnSum(e, dim, len, len, j)
  {
    if layers > 0 {
      ForwardClosedForm(e, dim, len, layers - 1, j);
      BackwardClosedForm(e, dim, len, layers, j);
      ForwardMultipleStep(layers);
      MultipleStep(ForwardMultiple(layers), ForwardMultiple(layers - 1), layers as real, ColumnSum(e, dim, len, len, j));
    }
  }

  /** L (L + 3) / 2 grows by L + 1 from one layer to the next. */
  lemma ForwardMultipleStep(layers: nat)
    requires layers > 0
    ensures ForwardMultiple(layers) == ForwardMultiple(layers - 1) + layers as real + 1.0
  {
    assert layers * (layers + 3) == (layers - 1) * (layers + 2) + 2 * layers + 2;
  }

  /** The same step, scaled by the column sum `s`. */
  lemma MultipleStep(f: real, f': real, l: real, s: real)
    requires f == f' + l + 1.0
    ensures f * s == f' * s + s + l * s
  {
  }

  /** With the two layers of the source, `lstm_output[j]` is five times the
      column sum, not the two a per-layer reset would give. */
  lemma TwoLayersGiveFive(e: seq<real>, dim: nat, len: nat, j: nat)
    requires Readable(|e|, dim, len) && j < HIDDEN
    ensures Encode(e, dim, len, LAYERS).forward[j] == 5.0 * ColumnSum(e, dim, len, len, j)
  {
    EncodeClosedForm(e, dim, len, LAYERS, j);
  }

  /** The accumulation loops as written, layer by layer. */
  method EncodeLoops(e: seq<real>, dim: nat, len: nat) returns (out: seq<real>)
    requires Readable(|e|, dim, len)
    ensures out == Encode(e, dim, len, LAYERS).forward
  {
    var fwd := seq(HIDDEN, _ => 0.0);
    var back := seq(HIDDEN, _ => 0.0);
    var layer := 0;
    while layer < LAYERS
      invariant 0 <= layer <= LAYERS
      invariant Hidden(fwd, back) == Encode(e, dim, len, layer)
    {
      var f0, b0 := fwd, back;
      fwd, back := PositionLoop(e, dim, len, f0, b0);
      fwd := MergeBackward(fwd, back);
      assert Hidden(fwd, back) == Layer(e, dim, len, Hidden(f0, b0));
      layer := layer + 1;
    }
    out := fwd;
  }

  /** The position loop of one layer: row `i` is added to the forward
      accumulator and row `len - 1 - i` to the backward one. */
  method PositionLoop(e: seq<real>, dim: nat, len: nat, f0: seq<real>, b0: seq<real>) returns (fwd: seq<real>, back: seq<real>)
    requires Readable(|e|, dim, len) && |f0| == HIDDEN && |b0| == HIDDEN
    ensures |fwd| == HIDDEN && |back| == HIDDEN
    ensures forall j :: 0 <= j < HIDDEN ==> fwd[j] == f0[j] + ColumnSum(e, dim, len, len, j)
    ensures forall j :: 0 <= j < HIDDEN ==> back[j] == b0[j] + ReverseSum(e, dim, len, len, j)
  {
    fwd, back := f0, b0;
    var i := 0;
    while i < len
      invariant 0 <= i <= len && |fwd| == HIDDEN && |back| == HIDDEN
      invariant forall j :: 0 <= j < HIDDEN ==> fwd[j] == f0[j] + ColumnSum(e, dim, len, i, j)
      invariant forall j :: 0 <= j < HIDDEN ==> back[j] == b0[j] + ReverseSum(e, dim, len, i, j)
    {
      fwd, back := ColumnLoop(e, dim, len, i, fwd, back);
      forall j | 0 <= j < HIDDEN
        ensures fwd[j] == f0[j] + ColumnSum(e, dim, len, i + 1, j)
        ensures back[j] == b0[j] + ReverseSum(e, dim, len, i + 1, j)
      {
        assert len - (i + 1) == len - i - 1;
      }
      i := i + 1;
    }
  }

  /** The column loop for position `i`. */
  method ColumnLoop(e: seq<real>, dim: nat, len: nat, i: nat, f0: seq<real>, b0: seq<real>) returns (fwd: seq<real>, back: seq<real>)
    requires Readable(|e|, dim, len) && i < len && |f0| == HIDDEN && |b0| == HIDDEN
    ensures |fwd| == HIDDEN && |back| == HIDDEN
    ensures 0 <= i * dim && i * dim + HIDDEN <= |e|
    ensures 0 <= (len - i - 1) * dim && (len - i - 1) * dim + HIDDEN <= |e|
    ensures forall j :: 0 <= j < HIDDEN ==> fwd[j] == f0[j] + e[i * dim + j]
    ensures forall j :: 0 <= j < HIDDEN ==> back[j] == b0[j] + e[(len - i - 1) * dim + j]
  {
    MulLe(0, i, dim);
    MulLe(0, len - i - 1, dim);
    MulLe(i, len - 1, dim);
    MulLe(len - i - 1, len - 1, dim);
    var reverseIndex := len - i - 1;
    var row, reverseRow := i * dim, reverseIndex * dim;
    assert row + HIDDEN <= |e| && reverseRow + HIDDEN <= |e|;
    fwd, back := f0, b0;
    var j := 0;
    while j < HIDDEN
      invariant 0 <= j <= HIDDEN && |fwd| == HIDDEN && |back| == HIDDEN
      invariant forall k :: 0 <= k < j ==> fwd[k] == f0[k] + e[row + k]
      invariant forall k :: j <= k < HIDDEN ==> fwd[k] == f0[k]
      invariant forall k :: 0 <= k < j ==> back[k] == b0[k] + e[reverseRow + k]
      invariant forall k :: j <= k < HIDDEN ==> back[k] == b0[k]
    {
      fwd := fwd[j := fwd[j] + e[row + j]];
      back := back[j := back[j] + e[reverseRow + j]];
      j := j + 1;
    }
  }

  /** The bidirectional step: `lstm_output[j] += lstm_backward_output[j]`. */
  method MergeBackward(f0: seq<real>, back: seq<real>) returns (fwd: seq<real>)
    requires |f0| == HIDDEN && |back| == HIDDEN
    ensures |fwd| == HIDDEN
    ensures forall j :: 0 <= j < HIDDEN ==> fwd[j] == f0[j] + back[j]
  {
    fwd := f0;
    var j := 0;
    while j < HIDDEN
      invariant 0 <= j <= HIDDEN && |fwd| == HIDDEN
      invariant forall k :: 0 <= k < j ==> fwd[k] == f0[k] + back[k]
      invariant forall k :: j <= k < HIDDEN ==> fwd[k] == f0[k]
    {
      fwd := fwd[j := fwd[j] + back[j]];
      j := j + 1;
    }
  }

  // ---------------------------------------------------------------------
  // The embedding rows the accumulation means to read

  /** Reference definition: the sum over the name's positions of column `j`
      of each position's weight row. */
  function TableColumnSum(weights: seq<real>, ids: seq<int>, dim: nat, n: nat, j: nat): real
    requires j < dim && IdsInTable(weights, ids, n, dim)
  {
    if n == 0 then 0.0 else TableColumnSum(weights, ids, dim, n - 1, j) + weights[ids[n - 1] * dim + j]
  }

  /** When the rows are at least as wide as the accumulators, every read is
      inside the row it means, and the column sums are those of the weight
      rows, whatever the buffer held before. */
  lemma {:induction false} WideRowsReadTable(e: seq<real>, stale: seq<real>, weights: seq<real>, ids: seq<int>, len: nat, dim: nat, n: nat, j: nat)
    requires HIDDEN <= dim && len * dim <= |stale| && IdsInTable(weights, ids, len, dim)
    requires Embedded(e, stale, weights, ids, len, dim) && n <= len && j < HIDDEN
    ensures Readable(|e|, dim, len)
    ensures ColumnSum(e, dim, len, n, j) == TableColumnSum(weights, ids, dim, n, j)
  {
    if len > 0 {
      RowIndex(len - 1, dim - 1, dim);
    }
    if n > 0 {
      WideRowsReadTable(e, stale, weights, ids, len, dim, n - 1, j);
      assert EmbeddedCell(e, weights, ids, dim, n - 1, j);
    }
  }

  /** With rows of 64 floats and 100 accumulators (dt2.c, dtest.c), column
      `j >= 64` of row `i` is read at flat position `i * 64 + j`, which is
      column `j - 64` of row `i + 1`; for the last position of the name
      that is past every written row, so the stale buffer contents enter the
      sum. For a one-character name, `lstm_output[64]` is the stale float at
      position 64. This holds for any buffer of at least 100 floats: dt2.c's
      `164 * 64` and dtest.c's `32 * 64` alike. */
  lemma NarrowRowsReadStale(e: seq<real>, stale: seq<real>, weights: seq<real>, ids: seq<int>)
    requires |stale| >= HIDDEN && IdsInTable(weights, ids, 1, 64)
    requires Embedded(e, stale, weights, ids, 1, 64)
    ensures Readable(|e|, 64, 1)
    ensures ColumnSum(e, 64, 1, 1, 64) == stale[64]
    ensures Encode(e, 64, 1, LAYERS).forward[64] == 5.0 * stale[64]
  {
    assert ColumnSum(e, 64, 1, 1, 64) == e[64];
    TwoLayersGiveFive(e, 64, 1, 64);
  }

  // ---------------------------------------------------------------------
  // Classifier and label

  /** `sum_j v[j] * w[base + j]` for `j < n`. */
  function Dot(v: seq<real>, w: seq<real>, base: nat, n: nat): real
    requires n <= |v| && base + n <= |w|
  {
    if n == 0 then 0.0 else Dot(v, w, base, n - 1) + v[n - 1] * w[base + n - 1]
  }

  /** Scaling the accumulators scales every score. */
  lemma {:induction false} DotScale(v: seq<real>, k: real, w: seq<real>, base: nat, n: nat)
    requires n <= |v| && base + n <= |w|
    ensures Dot(seq(|v|, i requires 0 <= i < |v| => k * v[i]), w, base, n) == k * Dot(v, w, base, n)
  {
    if n > 0 {
      DotScale(v, k, w, base, n - 1);
      var kv := seq(|v|, i requires 0 <= i < |v| => k * v[i]);
      assert kv[n - 1] * w[base + n - 1] == k * (v[n - 1] * w[base + n - 1]);
    }
  }

  lemma {:induction false} DotZero(v: seq<real>, w: seq<real>, base: nat, n: nat)
    requires n <= |v| && base + n <= |w|
    requires forall i :: 0 <= i < n ==> v[i] == 0.0
    ensures Dot(v, w, base, n) == 0.0
  {
    if n > 0 {
      DotZero(v, w, base, n - 1);
    }
  }

  /** Whether the dense layer applies `tanh_approx` (dga.c, dga1.c, dgaa1.c,
      dtest.c) or leaves the dot products raw (dt2.c). */
  datatype Scoring = Squashed | Raw

  /** The classifier reads weights from 0 to 300. */
  const CLASSIFIER_END: nat := HIDDEN + 2 * HIDDEN

  /** `dense_output[c]`: the dot product with the weights at
      `100 + 100 * c`, then `tanh_approx` when the variant applies it. */
  function DenseScore(kind: Scoring, out: seq<real>, weights: seq<real>, c: nat): (d: real)
    requires |out| == HIDDEN && |weights| >= CLASSIFIER_END && c < 2
    ensures kind == Squashed ==> -1.0 <= d <= 1.0
  {
    var dot := Dot(out, weights, HIDDEN + c * HIDDEN, HIDDEN);
    match kind
    case Squashed => TanhApprox(dot)
    case Raw => dot
  }

  /** An independent reading of a dot product: the products of matching
      entries, summed from the front. */
  function SumProducts(v: seq<real>, w: seq<real>): real
    requires |v| == |w|
  {
    if |v| == 0 then 0.0 else v[0] * w[0] + SumProducts(v[1..], w[1..])
  }

  /** Appending one pair adds its product. */
  lemma {:induction false} SumProductsSnoc(v: seq<real>, w: seq<real>, x: real, y: real)
    requires |v| == |w|
    ensures SumProducts(v + [x], w + [y]) == SumProducts(v, w) + x * y
  {
    if |v| > 0 {
      assert (v + [x])[1..] == v[1..] + [x];
      assert (w + [y])[1..] == w[1..] + [y];
      SumProductsSnoc(v[1..], w[1..], x, y);
    }
  }

  /** The backward accumulation `Dot` is the front-to-back sum of products of
      the first `n` entries with the `n` weights from `base`. */
  lemma {:induction false} DotIsSumProducts(v: seq<real>, w: seq<real>, base: nat, n: nat)
    requires n <= |v| && base + n <= |w|
    ensures Dot(v, w, base, n) == SumProducts(v[..n], w[base..base + n])
  {
    if n > 0 {
      DotIsSumProducts(v, w, base, n - 1);
      assert v[..n] == v[..n - 1] + [v[n - 1]];
      assert w[base..base + n] == w[base..base + n - 1] + [w[base + n - 1]];
      SumProductsSnoc(v[..n - 1], w[base..base + n - 1], v[n - 1], w[base + n - 1]);
    }
  }

  /** `dense_output[c]` is the sum over the 100 accumulators of
      `lstm_output[j] * classifier_weights[c][j]`, the weights of class `c`
      being the 100 floats at `100 + 100 * c`, squashed when the variant
      squashes. */
  lemma DenseScoreIsWeightedSum(kind: Scoring, out: seq<real>, weights: seq<real>, c: nat)
    requires |out| == HIDDEN && |weights| >= CLASSIFIER_END && c < 2
    ensures HIDDEN + c * HIDDEN + HIDDEN <= |weights|
    ensures var s := SumProducts(out, weights[HIDDEN + c * HIDDEN .. HIDDEN + c * HIDDEN + HIDDEN]);
      DenseScore(kind, out, weights, c) == if kind == Squashed then TanhApprox(s) else s
  {
    DotIsSumProducts(out, weights, HIDDEN + c * HIDDEN, HIDDEN);
    assert out[..HIDDEN] == out;
  }

  /** The softmax comparison `prob_1 > prob_0`, with `prob_c = exp_approx(d_c)
      / sum_exp`. When `sum_exp` is exactly zero the IEEE quotients are
      infinities of opposite signs (or both NaN), so the comparison reduces
      to the numerators. */
  function SoftmaxLabel(d0: real, d1: real): (cls: int)
    ensures cls == 0 || cls == 1
  {
    var e0 := ExpApprox(d0);
    var e1 := ExpApprox(d1);
    var sum := e0 + e1;
    if sum == 0.0 then (if e1 > e0 then 1 else 0)
    else if e1 / sum > e0 / sum then 1 else 0
  }

  /** The label is 1 exactly when the approximate exponential of class 1
      exceeds that of class 0 and their sum is non-negative, or falls below
      it and their sum is negative. */
  lemma SoftmaxLabelIff(d0: real, d1: real)
    ensures var e0, e1 := ExpApprox(d0), ExpApprox(d1);
      SoftmaxLabel(d0, d1) == 1 <==> (e0 + e1 >= 0.0 && e1 > e0) || (e0 + e1 < 0.0 && e1 < e0)
  {
    var e0 := ExpApprox(d0);
    var e1 := ExpApprox(d1);
    var sum := e0 + e1;
    if sum > 0.0 {
      QuotientOrder(e0, e1, sum);
    } else if sum < 0.0 {
      QuotientOrder(e1, e0, -sum);
      assert e1 / sum == -(e1 / -sum) && e0 / sum == -(e0 / -sum);
    }
  }

  /** a / s < b / s exactly when a < b, for s > 0. */
  lemma QuotientOrder(a: real, b: real, s: real)
    requires s > 0.0
    ensures a / s < b / s <==> a < b
  {
    assert (b / s - a / s) * s == b - a;
    if a < b {
      DivPositive(b - a, s);
      assert (b - a) / s == b / s - a / s;
    }
    if b / s > a / s {
      MulPositive(b / s - a / s, s);
    }
  }

  /** A tie goes to class 0. */
  lemma TieIsBenign(d: real)
    ensures SoftmaxLabel(d, d) == 0
  {
    SoftmaxLabelIff(d, d);
  }

  /** On squashed scores the exponentials are positive, so the label is 1
      exactly when class 1's exponential is the larger; and since `exp_approx`
      increases on [-1, 1], exactly when class 1's score is the larger. */
  lemma SquashedLabelIff(d0: real, d1: real)
    requires -1.0 <= d0 <= 1.0 && -1.0 <= d1 <= 1.0
    ensures SoftmaxLabel(d0, d1) == 1 <==> ExpApprox(d1) > ExpApprox(d0)
    ensures SoftmaxLabel(d0, d1) == 1 <==> d1 > d0
  {
    ExpApproxPositive(d0);
    ExpApproxPositive(d1);
    SoftmaxLabelIff(d0, d1);
    if d0 < d1 {
      ExpApproxIncreasing(d0, d1);
    } else if d1 < d0 {
      ExpApproxIncreasing(d1, d0);
    }
  }

  /** dt2.c scores without `tanh_approx`. A raw score of -10 makes
      `exp_approx` negative, the softmax denominator becomes negative, and the
      comparison flips: scores (0, -10) are labelled class 1 although class 0
      has the higher score and the far larger exponential. */
  lemma RawScoresFlipLabel()
    ensures ExpApprox(-10.0) < ExpApprox(0.0)
    ensures SoftmaxLabel(0.0, -10.0) == 1
  {
    ExpApproxAtZero();
    ExpApproxAtMinusTen();
    SoftmaxLabelIff(0.0, -10.0);
  }

  /** The label from the accumulators. */
  function Classify(kind: Scoring, out: seq<real>, weights: seq<real>): (cls: int)
    requires |out| == HIDDEN && |weights| >= CLASSIFIER_END
    ensures cls == 0 || cls == 1
  {
    SoftmaxLabel(DenseScore(kind, out, weights, 0), DenseScore(kind, out, weights, 1))
  }

  /** Zero accumulators give equal scores and therefore class 0. */
  lemma ZeroAccumulatorsAreBenign(kind: Scoring, out: seq<real>, weights: seq<real>)
    requires |out| == HIDDEN && |weights| >= CLASSIFIER_END
    requires forall j :: 0 <= j < HIDDEN ==> out[j] == 0.0
    ensures Classify(kind, out, weights) == 0
  {
    DotZero(out, weights, HIDDEN, HIDDEN);
    DotZero(out, weights, 2 * HIDDEN, HIDDEN);
    TieIsBenign(DenseScore(kind, out, weights, 0));
  }

  /** The accumulators the weight rows themselves call for: five times each
      column sum of the name's rows. */
  function IntendedAccumulators(weights: seq<real>, ids: seq<int>, dim: nat, len: nat): (out: seq<real>)
    requires HIDDEN <= dim && IdsInTable(weights, ids, len, dim)
    ensures |out| == HIDDEN
  {
    seq(HIDDEN, j requires 0 <= j < HIDDEN => 5.0 * TableColumnSum(weights, ids, dim, len, j))
  }

  /** `run_inference`: a failed allocation of the embedding buffer returns
      early and leaves the label as it was; otherwise the label is the
      classifier's verdict on the accumulators. With rows at least as wide as
      the accumulators the verdict depends only on the weights and the ids,
      and an empty name is always class 0. */
  method RunInference(kind: Scoring, stale: seq<real>, weights: seq<real>, ids: seq<int>, len: nat, dim: nat,
                      gotBuffer: bool, prevLabel: int) returns (newLabel: int)
    requires len * dim <= |stale| && IdsInTable(weights, ids, len, dim) && |weights| >= CLASSIFIER_END
    requires Readable(|stale|, dim, len)
    ensures !gotBuffer ==> newLabel == prevLabel
    ensures gotBuffer ==> newLabel == 0 || newLabel == 1
    ensures gotBuffer && len == 0 ==> newLabel == 0
    ensures gotBuffer && HIDDEN <= dim ==> newLabel == Classify(kind, IntendedAccumulators(weights, ids, dim, len), weights)
  {
    if !gotBuffer {
      return prevLabel;
    }
    var e := EmbedRows(stale, weights, ids, len, dim);
    var out := EncodeLoops(e, dim, len);
    newLabel := Classify(kind, out, weights);
    forall j | 0 <= j < HIDDEN
      ensures out[j] == 5.0 * ColumnSum(e, dim, len, len, j)
    {
      TwoLayersGiveFive(e, dim, len, j);
    }
    if len == 0 {
      ZeroAccumulatorsAreBenign(kind, out, weights);
    }
    if HIDDEN <= dim {
      forall j | 0 <= j < HIDDEN
        ensures out[j] == IntendedAccumulators(weights, ids, dim, len)[j]
      {
        WideRowsReadTable(e, stale, weights, ids, len, dim, len, j);
      }
      assert out == IntendedAccumulators(weights, ids, dim, len);
    }
  }
}
