/** Packing of a recurrent layer: set_rnn_weight_array and set_rnn_bias_array.

    The input axis of a recurrent layer is the input-to-hidden matrix
    `wts_in` (rows 0 .. M - 1) followed by the hidden-to-hidden matrix
    `wts_hid` (rows M .. M + N - 1); both have N columns. Each column is
    packed exactly like a dense column over M + N rows. Several weight sets
    (selected by `weight_idx`) share one buffer: set k starts at word
    k * (M + N) * N / W, and its bias at word k * N / W. A recurrent layer
    has M and N multiples of W = WORD_SIZE. */
module RnnPacking {
  import opened IndexArith
  import opened WordBits
  import opened LayerTable
  import opened DensePacking

  /** M and N are whole numbers of words. */
  predicate Aligned(M: nat, N: nat, W: nat)
  {
    W > 0 && M % W == 0 && N % W == 0
  }

  /** The sources of a recurrent layer: an M x N and an N x N matrix. */
  predicate RnnSources(wtsIn: seq<seq<real>>, wtsHid: seq<seq<real>>, M: nat, N: nat)
  {
    IsMatrix(wtsIn, N) && IsMatrix(wtsHid, N) && M <= |wtsIn| && N <= |wtsHid|
  }

  /** Word j of column n: the chunk starting at input row j * W, taken from
      `wts_in` when it starts below M and from `wts_hid` otherwise. */
  function RnnWord(wtsIn: seq<seq<real>>, wtsHid: seq<seq<real>>, M: nat, N: nat, W: nat, n: nat, j: nat)
    : (wrd: Word)
    requires Aligned(M, N, W) && RnnSources(wtsIn, wtsHid, M, N) && n < N && j < Chunks(M + N, W)
    ensures |wrd| == W
  {
    ChunkSplit(M, N, W, j);
    if j * W < M then ChunkBits(Column(wtsIn, n), j * W, W)
    else ChunkBits(Column(wtsHid, n), j * W - M, W)
  }

  /** Where word j of column n is read from, as the packing loop sees it. */
  lemma RnnWordSource(wtsIn: seq<seq<real>>, wtsHid: seq<seq<real>>, M: nat, N: nat, W: nat, n: nat, j: nat)
    requires Aligned(M, N, W) && RnnSources(wtsIn, wtsHid, M, N) && n < N && j < Chunks(M + N, W)
    ensures j * W < M ==>
      j * W + W <= |wtsIn| && RnnColumn(wtsIn, wtsHid, M, N, W, n)[j] == ChunkBits(Column(wtsIn, n), j * W, W)
    ensures j * W >= M ==>
      j * W - M + W <= |wtsHid| && RnnColumn(wtsIn, wtsHid, M, N, W, n)[j] == ChunkBits(Column(wtsHid, n), j * W - M, W)
  {
    ChunkSplit(M, N, W, j);
  }

  /** The Chunks(M + N, W) words of column n. */
  function RnnColumn(wtsIn: seq<seq<real>>, wtsHid: seq<seq<real>>, M: nat, N: nat, W: nat, n: nat)
    : (col: seq<Word>)
    requires Aligned(M, N, W) && RnnSources(wtsIn, wtsHid, M, N) && n < N
    ensures |col| == Chunks(M + N, W)
    ensures forall j :: 0 <= j < |col| ==> |col[j]| == W
  {
    var K := Chunks(M + N, W);
    seq(K, j requires 0 <= j < K => RnnWord(wtsIn, wtsHid, M, N, W, n, j))
  }

  /** A chunk of an aligned input axis lies wholly in `wts_in` or wholly in
      `wts_hid`. */
  lemma ChunkSplit(M: nat, N: nat, W: nat, j: nat)
    requires Aligned(M, N, W) && j < Chunks(M + N, W)
    ensures j * W < M ==> j * W + W <= M
    ensures j * W + W <= M + N
  {
    ChunksAdd(M, N, W);
    var a := Chunks(M, W);
    ChunkEnd(j, Chunks(M + N, W), W);
    if j * W < M {
      if a <= j {
        MulMono(a, j, W);
      }
      ChunkEnd(j, a, W);
    }
  }

  function RnnColumns(wtsIn: seq<seq<real>>, wtsHid: seq<seq<real>>, M: nat, N: nat, W: nat)
    : (cols: seq<seq<Word>>)
    requires Aligned(M, N, W) && RnnSources(wtsIn, wtsHid, M, N)
    ensures |cols| == N && Uniform(cols, Chunks(M + N, W)) && AllWidth(cols, W)
  {
    seq(N, n requires 0 <= n < N => RnnColumn(wtsIn, wtsHid, M, N, W, n))
  }

  /** The packed image of one recurrent weight set: N columns of
      (M + N) / W words each. */
  function RnnWeights(wtsIn: seq<seq<real>>, wtsHid: seq<seq<real>>, M: nat, N: nat, W: nat)
    : (r: seq<Word>)
    requires Aligned(M, N, W) && RnnSources(wtsIn, wtsHid, M, N)
    ensures |r| == N * Chunks(M + N, W)
    ensures forall i :: 0 <= i < |r| ==> |r[i]| == W
  {
    var cols := RnnColumns(wtsIn, wtsHid, M, N, W);
    FlattenLength(cols, Chunks(M + N, W));
    FlattenWidth(cols, W);
    Flatten(cols)
  }

  /** One word of the concatenation law: word j of column n is the chunk at
      row j * W of column n of the stacked matrix. */
  lemma RnnWordAsDense(wtsIn: seq<seq<real>>, wtsHid: seq<seq<real>>, M: nat, N: nat, W: nat, n: nat, j: nat)
    requires Aligned(M, N, W) && RnnSources(wtsIn, wtsHid, M, N) && n < N && j < Chunks(M + N, W)
    ensures j * W + W <= M + N
    ensures RnnWord(wtsIn, wtsHid, M, N, W, n, j) == ChunkBits(Column(wtsIn[..M] + wtsHid[..N], n), j * W, W)
  {
    var c := Column(wtsIn[..M] + wtsHid[..N], n);
    var r := RnnWord(wtsIn, wtsHid, M, N, W, n, j);
    ChunkSplit(M, N, W, j);
    forall b | 0 <= b < W
      ensures r[b] == ChunkBits(c, j * W, W)[b]
    {
      if j * W < M {
        assert c[j * W + b] == wtsIn[j * W + b][n];
      } else {
        assert c[j * W + b] == wtsHid[j * W - M + b][n];
      }
    }
  }

  /** The concatenation law: a recurrent weight set is packed exactly as the
      dense packing of `wts_in` stacked on top of `wts_hid`. */
  lemma RnnAsDense(wtsIn: seq<seq<real>>, wtsHid: seq<seq<real>>, M: nat, N: nat, W: nat)
    requires Aligned(M, N, W) && RnnSources(wtsIn, wtsHid, M, N)
    ensures IsMatrix(wtsIn[..M] + wtsHid[..N], N)
    ensures Chunks(M + N, W) * W <= M + N
    ensures RnnWeights(wtsIn, wtsHid, M, N, W) == DenseWeights(wtsIn[..M] + wtsHid[..N], M + N, N, W)
  {
    var stacked := wtsIn[..M] + wtsHid[..N];
    var K := Chunks(M + N, W);
    ChunksAdd(M, N, W);
    var rnn := RnnColumns(wtsIn, wtsHid, M, N, W);
    var dense := DenseColumns(stacked, M + N, N, W);
    forall n | 0 <= n < N
      ensures rnn[n] == dense[n]
    {
      forall j | 0 <= j < K
        ensures rnn[n][j] == dense[n][j]
      {
        ChunkEnd(j, K, W);
        RnnWordAsDense(wtsIn, wtsHid, M, N, W, n, j);
      }
    }
    assert rnn == dense;
  }

  /** Bit b of word j of column n, for a chunk starting at m = j * W < M:
      the binarized `wts_in[(m + b) * N + n]`. */
  lemma RnnBitFromInput(wtsIn: seq<seq<real>>, wtsHid: seq<seq<real>>, M: nat, N: nat, W: nat,
                        n: nat, j: nat, b: nat)
    requires Aligned(M, N, W) && RnnSources(wtsIn, wtsHid, M, N)
    requires n < N && j * W < M && b < W
    ensures j < Chunks(M + N, W) && n * Chunks(M + N, W) + j < N * Chunks(M + N, W) &&
      j * W + b < M &&
      RnnWeights(wtsIn, wtsHid, M, N, W)[n * Chunks(M + N, W) + j][b] == Binarize(wtsIn[j * W + b][n])
  {
    ChunksBound(M + N, W, j);
    ChunkSplit(M, N, W, j);
    RnnAsDense(wtsIn, wtsHid, M, N, W);
    DenseBit(wtsIn[..M] + wtsHid[..N], M + N, N, W, n, j, b);
  }

  /** Bit b of word j of column n, for a chunk starting at m = j * W with
      M <= m < M + N: the binarized `wts_hid[(m - M + b) * N + n]`. */
  lemma RnnBitFromHidden(wtsIn: seq<seq<real>>, wtsHid: seq<seq<real>>, M: nat, N: nat, W: nat,
                         n: nat, j: nat, b: nat)
    requires Aligned(M, N, W) && RnnSources(wtsIn, wtsHid, M, N)
    requires n < N && M <= j * W < M + N && b < W
    ensures j < Chunks(M + N, W) && n * Chunks(M + N, W) + j < N * Chunks(M + N, W) &&
      j * W - M + b < N &&
      RnnWeights(wtsIn, wtsHid, M, N, W)[n * Chunks(M + N, W) + j][b] == Binarize(wtsHid[j * W - M + b][n])
  {
    ChunksBound(M + N, W, j);
    ChunkSplit(M, N, W, j);
    RnnAsDense(wtsIn, wtsHid, M, N, W);
    DenseBit(wtsIn[..M] + wtsHid[..N], M + N, N, W, n, j, b);
  }

  /** Round trip of the concatenation law: reading every input row of every
      output unit back out of a packed recurrent weight set gives the
      binarized `wts_in` rows followed by the binarized `wts_hid` rows. */
  lemma RnnRoundTrip(wtsIn: seq<seq<real>>, wtsHid: seq<seq<real>>, M: nat, N: nat, W: nat)
    requires Aligned(M, N, W) && RnnSources(wtsIn, wtsHid, M, N)
    ensures UnpackDense(RnnWeights(wtsIn, wtsHid, M, N, W), M + N, N, W) ==
      BinarizeMatrix(wtsIn[..M]) + BinarizeMatrix(wtsHid[..N])
  {
    var stacked := wtsIn[..M] + wtsHid[..N];
    RnnAsDense(wtsIn, wtsHid, M, N, W);
    DenseRoundTrip(stacked, M + N, N, W);
    assert stacked[..M + N] == stacked;
    assert BinarizeMatrix(stacked) == BinarizeMatrix(wtsIn[..M]) + BinarizeMatrix(wtsHid[..N]);
  }

  /** First word of weight set `weightIdx`: weight_idx * (M + N) * N / WORD_SIZE. */
  function RnnOffset(M: nat, N: nat, W: nat, weightIdx: nat): nat
    requires W > 0
  {
    weightIdx * (M + N) * N / W
  }

  /** Weight set k occupies exactly the words [k * S, (k + 1) * S), where S is
      the N * (M + N) / W words of one set. */
  lemma RnnSetPlacement(M: nat, N: nat, W: nat, weightIdx: nat)
    requires Aligned(M, N, W)
    ensures RnnOffset(M, N, W, weightIdx) == weightIdx * (N * Chunks(M + N, W))
  {
    ChunksAdd(M, N, W);
    ScaledQuotient(weightIdx, M + N, N, W, Chunks(M + N, W));
  }

  /** Weight set k ends exactly where weight set k + 1 starts. */
  lemma RnnSetEnd(M: nat, N: nat, W: nat, weightIdx: nat)
    requires Aligned(M, N, W)
    ensures RnnOffset(M, N, W, weightIdx) + N * Chunks(M + N, W) == RnnOffset(M, N, W, weightIdx + 1)
  {
    RnnSetPlacement(M, N, W, weightIdx);
    RnnSetPlacement(M, N, W, weightIdx + 1);
    MulSucc(weightIdx, N * Chunks(M + N, W));
  }

  /** Weight sets with different indices are written to disjoint ranges. */
  lemma RnnSetsDisjoint(M: nat, N: nat, W: nat, k1: nat, k2: nat)
    requires Aligned(M, N, W) && k1 < k2
    ensures RnnOffset(M, N, W, k1) + N * Chunks(M + N, W) <= RnnOffset(M, N, W, k2)
  {
    var S := N * Chunks(M + N, W);
    RnnSetPlacement(M, N, W, k1);
    RnnSetPlacement(M, N, W, k2);
    MulMono(k1 + 1, k2, S);
    MulSucc(k1, S);
  }

  /** The buffer `buf` with the words from index `at` on replaced by `run`. */
  function Overwrite(buf: seq<Word>, at: nat, run: seq<Word>): (r: seq<Word>)
    requires at + |run| <= |buf|
    ensures |r| == |buf|
    ensures r[..at] == buf[..at] && r[at..at + |run|] == run && r[at + |run|..] == buf[at + |run|..]
  {
    buf[..at] + run + buf[at + |run|..]
  }

  /** Writing p and then q right after it is writing p + q. */
  lemma OverwriteTwice(buf: seq<Word>, at: nat, p: seq<Word>, q: seq<Word>)
    requires at + |p| + |q| <= |buf|
    ensures Overwrite(Overwrite(buf, at, p), at + |p|, q) == Overwrite(buf, at, p + q)
  {
  }

  /** Storing word j of `col` just after its first j words extends the run
      to the first j + 1 words. */
  lemma OverwriteStep(buf: seq<Word>, at: nat, col: seq<Word>, j: nat)
    requires at + |col| <= |buf| && j < |col|
    ensures Overwrite(buf, at, col[..j])[at + j := col[j]] == Overwrite(buf, at, col[..j + 1])
  {
    assert col[..j + 1] == col[..j] + [col[j]];
  }

  /** set_rnn_weight_array: pack weight set `weightIdx` of layer `layerIdx`
      into the words of w starting at RnnOffset; no other word of w changes. */
  method SetRnnWeightArray(w: array<Word>, wtsIn: seq<seq<real>>, wtsHid: seq<seq<real>>,
                           cfg: Config, layerIdx: nat, weightIdx: nat)
    requires cfg.HasLayer(layerIdx)
    requires Aligned(cfg.M(layerIdx), cfg.N(layerIdx), cfg.wordSize)
    requires RnnSources(wtsIn, wtsHid, cfg.M(layerIdx), cfg.N(layerIdx))
    requires RnnOffset(cfg.M(layerIdx), cfg.N(layerIdx), cfg.wordSize, weightIdx) +
      cfg.N(layerIdx) * Chunks(cfg.M(layerIdx) + cfg.N(layerIdx), cfg.wordSize) <= w.Length
    modifies w
    ensures var M, N, W := cfg.M(layerIdx), cfg.N(layerIdx), cfg.wordSize;
      var off, count := RnnOffset(M, N, W, weightIdx), N * Chunks(M + N, W);
      w[off..off + count] == RnnWeights(wtsIn, wtsHid, M, N, W) &&
      w[..off] == old(w[..off]) && w[off + count..] == old(w[off + count..])
  {
    var M, N, W := cfg.mTab[layerIdx - 1], cfg.nTab[layerIdx - 1], cfg.wordSize;
    ghost var K := Chunks(M + N, W);
    var off := RnnOffset(M, N, W, weightIdx);
    ghost var cols := RnnColumns(wtsIn, wtsHid, M, N, W);
    var wIdx := 0;
    for n := 0 to N
      invariant wIdx == n * K && off + wIdx <= w.Length
      invariant |Flatten(cols[..n])| == wIdx
      invariant w[..] == Overwrite(old(w[..]), off, Flatten(cols[..n]))
    {
      MulSucc(n, K);
      MulMono(n + 1, N, K);
      ghost var done := Flatten(cols[..n]);
      wIdx := PackRnnColumn(w, off, wIdx, wtsIn, wtsHid, M, N, W, n);
      OverwriteTwice(old(w[..]), off, done, cols[n]);
      FlattenSnoc(cols, n);
    }
    assert cols[..N] == cols;
  }

  /** The inner loop of set_rnn_weight_array for output unit n: stores the
      words of column n at w[off + wIdx ..] and returns the advanced w_idx;
      no other word of w changes. */
  method PackRnnColumn(w: array<Word>, off: nat, wIdx: nat, wtsIn: seq<seq<real>>, wtsHid: seq<seq<real>>,
                       M: nat, N: nat, W: nat, n: nat) returns (wIdx': nat)
    requires Aligned(M, N, W) && RnnSources(wtsIn, wtsHid, M, N) && n < N
    requires off + wIdx + Chunks(M + N, W) <= w.Length
    modifies w
    ensures wIdx' == wIdx + Chunks(M + N, W)
    ensures w[..] == Overwrite(old(w[..]), off + wIdx, RnnColumn(wtsIn, wtsHid, M, N, W, n))
  {
    ghost var K := Chunks(M + N, W);
    ghost var col := RnnColumn(wtsIn, wtsHid, M, N, W, n);
    var colIn, colHid := Column(wtsIn, n), Column(wtsHid, n);
    wIdx' := wIdx;
    var m := 0;
    ghost var j := 0;
    while m < M + N
      invariant m == j * W && j <= K
      invariant wIdx' == wIdx + j && off + wIdx' <= w.Length
      invariant w[..] == Overwrite(old(w[..]), off + wIdx, col[..j])
    {
      ChunksBound(M + N, W, j);
      RnnWordSource(wtsIn, wtsHid, M, N, W, n, j);
      var wrd := ZeroWord(W);
      if m < M {
        wrd := FillWord(wrd, colIn, m);
      } else {
        wrd := FillWord(wrd, colHid, m - M);
      }
      assert wrd == col[j];
      ghost var before := w[..];
      w[off + wIdx'] := wrd;
      assert w[..] == before[off + wIdx' := wrd];
      OverwriteStep(old(w[..]), off + wIdx, col, j);
      wIdx' := wIdx' + 1;
      MulSucc(j, W);
      m := m + W;
      j := j + 1;
    }
    ChunksBound(M + N, W, j);
    assert col[..j] == col;
  }

  /** First word of bias set `weightIdx`: weight_idx * N / WORD_SIZE. */
  function RnnBiasOffset(N: nat, W: nat, weightIdx: nat): nat
    requires W > 0
  {
    weightIdx * N / W
  }

  /** With N a multiple of W, bias set k occupies exactly the words
      [k * N / W, (k + 1) * N / W). */
  lemma RnnBiasPlacement(N: nat, W: nat, weightIdx: nat)
    requires W > 0 && N % W == 0
    ensures RnnBiasOffset(N, W, weightIdx) == weightIdx * Chunks(N, W)
  {
    ChunksExact(N, W);
    ScaledQuotient(weightIdx, N, 1, W, Chunks(N, W));
  }

  /** Bias set k ends exactly where bias set k + 1 starts. */
  lemma RnnBiasSetEnd(N: nat, W: nat, weightIdx: nat)
    requires W > 0 && N % W == 0
    ensures RnnBiasOffset(N, W, weightIdx) + Chunks(N, W) == RnnBiasOffset(N, W, weightIdx + 1)
  {
    RnnBiasPlacement(N, W, weightIdx);
    RnnBiasPlacement(N, W, weightIdx + 1);
    MulSucc(weightIdx, Chunks(N, W));
  }

  /** Bias sets with different indices are written to disjoint ranges. */
  lemma RnnBiasSetsDisjoint(N: nat, W: nat, k1: nat, k2: nat)
    requires W > 0 && N % W == 0 && k1 < k2
    ensures RnnBiasOffset(N, W, k1) + Chunks(N, W) <= RnnBiasOffset(N, W, k2)
  {
    RnnBiasPlacement(N, W, k1);
    RnnBiasPlacement(N, W, k2);
    MulMono(k1 + 1, k2, Chunks(N, W));
    MulSucc(k1, Chunks(N, W));
  }

  /** set_rnn_bias_array: pack layer `layerIdx`'s biases into the
      Chunks(N, W) words of b starting at RnnBiasOffset; no other word of b
      changes. A single `wrd` is reused for every word. */
  method SetRnnBiasArray(b: array<Word>, bias: seq<real>, cfg: Config, layerIdx: nat, weightIdx: nat)
    requires cfg.HasLayer(layerIdx)
    requires Chunks(cfg.N(layerIdx), cfg.wordSize) * cfg.wordSize <= |bias|
    requires RnnBiasOffset(cfg.N(layerIdx), cfg.wordSize, weightIdx) +
      Chunks(cfg.N(layerIdx), cfg.wordSize) <= b.Length
    modifies b
    ensures var N, W := cfg.N(layerIdx), cfg.wordSize;
      var off, count := RnnBiasOffset(N, W, weightIdx), Chunks(N, W);
      b[off..off + count] == BiasWords(bias, N, W) &&
      b[..off] == old(b[..off]) && b[off + count..] == old(b[off + count..])
  {
    var N, W := cfg.nTab[layerIdx - 1], cfg.wordSize;
    ghost var K := Chunks(N, W);
    var off := RnnBiasOffset(N, W, weightIdx);
    ghost var packed := BiasWords(bias, N, W);
    var bIdx := 0;
    var wrd := ZeroWord(W);
    var n := 0;
    while n < N
      invariant n == bIdx * W && bIdx <= K
      invariant |wrd| == W
      invariant b[off..off + bIdx] == packed[..bIdx]
      invariant b[..off] == old(b[..off]) && b[off + bIdx..] == old(b[off + bIdx..])
    {
      ChunksBound(N, W, bIdx);
      ChunkEnd(bIdx, K, W);
      wrd := FillWord(wrd, bias, n);
      b[off + bIdx] := wrd;
      assert packed[..bIdx + 1] == packed[..bIdx] + [packed[bIdx]];
      MulSucc(bIdx, W);
      bIdx := bIdx + 1;
      n := n + W;
    }
    ChunksBound(N, W, bIdx);
    assert packed[..bIdx] == packed;
  }
}
