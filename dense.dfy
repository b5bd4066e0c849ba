/** Packing of a dense layer: set_dense_weight_array and set_dense_bias_array.

    Weights are packed column by column, one column per output unit n. Each
    column is cut into chunks of W = WORD_SIZE consecutive input rows; bit b
    of the word for the chunk starting at row m is the binarized weight at
    row m + b. A column takes K = Chunks(M, W) words, so word j of column n
    lands at n * K + j. When M is not a multiple of W the last chunk of a
    column reads rows M .. K * W - 1, so the source must hold K * W rows. */
module DensePacking {
  import opened IndexArith
  import opened WordBits
  import opened LayerTable

  /** The K words of column n. */
  function DenseColumn(wts: seq<seq<real>>, N: nat, W: nat, K: nat, n: nat): (col: seq<Word>)
    requires W > 0 && IsMatrix(wts, N) && n < N && K * W <= |wts|
    ensures |col| == K
  {
    var c := Column(wts, n);
    seq(K, j requires 0 <= j < K => ChunkEnd(j, K, W); ChunkBits(c, j * W, W))
  }

  function DenseColumns(wts: seq<seq<real>>, M: nat, N: nat, W: nat): (cols: seq<seq<Word>>)
    requires W > 0 && IsMatrix(wts, N) && Chunks(M, W) * W <= |wts|
    ensures |cols| == N && Uniform(cols, Chunks(M, W)) && AllWidth(cols, W)
  {
    seq(N, n requires 0 <= n < N => DenseColumn(wts, N, W, Chunks(M, W), n))
  }

  /** The packed image of an M x N weight matrix: N columns of Chunks(M, W)
      words each, column after column. */
  function DenseWeights(wts: seq<seq<real>>, M: nat, N: nat, W: nat): (r: seq<Word>)
    requires W > 0 && IsMatrix(wts, N) && Chunks(M, W) * W <= |wts|
    ensures |r| == N * Chunks(M, W)
    ensures forall i :: 0 <= i < |r| ==> |r[i]| == W
  {
    FlattenLength(DenseColumns(wts, M, N, W), Chunks(M, W));
    FlattenWidth(DenseColumns(wts, M, N, W), W);
    Flatten(DenseColumns(wts, M, N, W))
  }

  /** Reading weight (m, n) back out of a packed buffer: bit m % W of word
      n * Chunks(M, W) + m / W. */
  function DenseRead(words: seq<Word>, M: nat, N: nat, W: nat, m: nat, n: nat): bool
    requires W > 0 && |words| >= N * Chunks(M, W)
    requires forall i :: 0 <= i < |words| ==> |words[i]| == W
    requires m < M && n < N
  {
    ReadIndexBound(M, N, W, m, n);
    DivMod(m, W);
    words[n * Chunks(M, W) + m / W][m % W]
  }

  /** Every weight of an M x N matrix read back out of a packed buffer. */
  function UnpackDense(words: seq<Word>, M: nat, N: nat, W: nat): (bits: seq<seq<bool>>)
    requires W > 0 && |words| >= N * Chunks(M, W)
    requires forall i :: 0 <= i < |words| ==> |words[i]| == W
    ensures |bits| == M && forall m :: 0 <= m < M ==> |bits[m]| == N
  {
    seq(M, m requires 0 <= m < M =>
      seq(N, n requires 0 <= n < N => DenseRead(words, M, N, W, m, n)))
  }

  /** Word j of column n sits at n * Chunks(M, W) + j and holds rows
      j * W .. j * W + W - 1 of that column. */
  lemma DenseWordAt(wts: seq<seq<real>>, M: nat, N: nat, W: nat, n: nat, j: nat)
    requires W > 0 && IsMatrix(wts, N) && Chunks(M, W) * W <= |wts|
    requires n < N && j < Chunks(M, W)
    ensures n * Chunks(M, W) + j < N * Chunks(M, W) && j * W + W <= |wts| &&
      DenseWeights(wts, M, N, W)[n * Chunks(M, W) + j] == ChunkBits(Column(wts, n), j * W, W)
  {
    ChunkEnd(j, Chunks(M, W), W);
    FlattenAt(DenseColumns(wts, M, N, W), Chunks(M, W), n, j);
  }

  /** Bit b of word j of column n is the binarized weight at row j * W + b,
      column n. */
  lemma DenseBit(wts: seq<seq<real>>, M: nat, N: nat, W: nat, n: nat, j: nat, b: nat)
    requires W > 0 && IsMatrix(wts, N) && Chunks(M, W) * W <= |wts|
    requires n < N && j < Chunks(M, W) && b < W
    ensures n * Chunks(M, W) + j < N * Chunks(M, W) && j * W + b < |wts| &&
      DenseWeights(wts, M, N, W)[n * Chunks(M, W) + j][b] == Binarize(wts[j * W + b][n])
  {
    DenseWordAt(wts, M, N, W, n, j);
  }

  /** Reading weight (m, n) back out of the packed matrix gives the
      binarized weight. */
  lemma DenseReadBack(wts: seq<seq<real>>, M: nat, N: nat, W: nat, m: nat, n: nat)
    requires W > 0 && IsMatrix(wts, N) && Chunks(M, W) * W <= |wts|
    requires m < M && n < N
    ensures m < |wts| && DenseRead(DenseWeights(wts, M, N, W), M, N, W, m, n) == Binarize(wts[m][n])
  {
    ReadIndexBound(M, N, W, m, n);
    DivMod(m, W);
    DenseBit(wts, M, N, W, n, m / W, m % W);
  }

  /** Round trip: reading every weight back out of the packed buffer gives the
      binarized M x N matrix. */
  lemma DenseRoundTrip(wts: seq<seq<real>>, M: nat, N: nat, W: nat)
    requires W > 0 && IsMatrix(wts, N) && Chunks(M, W) * W <= |wts|
    ensures UnpackDense(DenseWeights(wts, M, N, W), M, N, W) == BinarizeMatrix(wts[..M])
  {
    var bits := UnpackDense(DenseWeights(wts, M, N, W), M, N, W);
    forall m | 0 <= m < M
      ensures bits[m] == BinarizeMatrix(wts[..M])[m]
    {
      forall n | 0 <= n < N
        ensures bits[m][n] == BinarizeAll(wts[m])[n]
      {
        DenseReadBack(wts, M, N, W, m, n);
      }
    }
  }

  /** With M a whole number of words, the N * Chunks(M, W) words written by
      set_dense_weight_array are the M * N / W words of the matrix. */
  lemma DenseWordCount(M: nat, N: nat, W: nat)
    requires W > 0 && M % W == 0
    ensures N * Chunks(M, W) == M * N / W
  {
    ChunksExact(M, W);
    ScaledQuotient(1, M, N, W, Chunks(M, W));
  }

  /** set_dense_weight_array: pack layer `layerIdx`'s weights into the first
      N * Chunks(M, W) words of w; every later word of w keeps its value. */
  method SetDenseWeightArray(w: array<Word>, wts: seq<seq<real>>, cfg: Config, layerIdx: nat)
    requires cfg.HasLayer(layerIdx)
    requires IsMatrix(wts, cfg.N(layerIdx))
    requires Chunks(cfg.M(layerIdx), cfg.wordSize) * cfg.wordSize <= |wts|
    requires cfg.N(layerIdx) * Chunks(cfg.M(layerIdx), cfg.wordSize) <= w.Length
    modifies w
    ensures var count := cfg.N(layerIdx) * Chunks(cfg.M(layerIdx), cfg.wordSize);
      w[..count] == DenseWeights(wts, cfg.M(layerIdx), cfg.N(layerIdx), cfg.wordSize) &&
      w[count..] == old(w[count..])
  {
    var M, N, W := cfg.mTab[layerIdx - 1], cfg.nTab[layerIdx - 1], cfg.wordSize;
    ghost var K := Chunks(M, W);
    ghost var cols := DenseColumns(wts, M, N, W);
    var wIdx := 0;
    for n := 0 to N
      invariant wIdx == n * K && wIdx <= w.Length
      invariant w[..wIdx] == Flatten(cols[..n])
      invariant w[wIdx..] == old(w[wIdx..])
    {
      var col := Column(wts, n);
      var m := 0;
      ghost var j := 0;
      while m < M
        invariant m == j * W && j <= K
        invariant wIdx == n * K + j && wIdx <= w.Length
        invariant w[..wIdx] == Flatten(cols[..n]) + cols[n][..j]
        invariant w[wIdx..] == old(w[wIdx..])
      {
        ChunksBound(M, W, j);
        ChunkEnd(j, K, W);
        NextIndexBound(n, N, j, K);
        var wrd := ZeroWord(W);
        wrd := FillWord(wrd, col, m);
        assert wrd == cols[n][j];
        w[wIdx] := wrd;
        assert cols[n][..j + 1] == cols[n][..j] + [cols[n][j]];
        wIdx := wIdx + 1;
        MulSucc(j, W);
        m := m + W;
        j := j + 1;
      }
      ChunksBound(M, W, j);
      MulSucc(n, K);
      assert cols[n][..j] == cols[n];
      FlattenSnoc(cols, n);
    }
    assert cols[..N] == cols;
  }

  /** The packed image of a bias vector of N values: Chunks(N, W) words,
      word j holding the values j * W .. j * W + W - 1. */
  function BiasWords(bias: seq<real>, N: nat, W: nat): (r: seq<Word>)
    requires W > 0 && Chunks(N, W) * W <= |bias|
    ensures |r| == Chunks(N, W)
    ensures forall j :: 0 <= j < |r| ==> |r[j]| == W
  {
    var K := Chunks(N, W);
    seq(K, j requires 0 <= j < K => ChunkEnd(j, K, W); ChunkBits(bias, j * W, W))
  }

  /** Bit b of bias word j is the binarized bias j * W + b. */
  lemma BiasBit(bias: seq<real>, N: nat, W: nat, j: nat, b: nat)
    requires W > 0 && Chunks(N, W) * W <= |bias|
    requires j < Chunks(N, W) && b < W
    ensures j * W + b < |bias| && BiasWords(bias, N, W)[j][b] == Binarize(bias[j * W + b])
  {
    ChunkEnd(j, Chunks(N, W), W);
  }

  /** Reading bias n back out of a packed bias buffer: bit n % W of word n / W. */
  function UnpackBias(words: seq<Word>, N: nat, W: nat): (bits: seq<bool>)
    requires W > 0 && Chunks(N, W) <= |words|
    requires forall i :: 0 <= i < |words| ==> |words[i]| == W
    ensures |bits| == N
  {
    seq(N, n requires 0 <= n < N => ChunksBound(N, W, n / W); words[n / W][n % W])
  }

  /** Round trip for biases: reading every bias back out of the packed words
      gives the binarized bias vector. */
  lemma BiasRoundTrip(bias: seq<real>, N: nat, W: nat)
    requires W > 0 && Chunks(N, W) * W <= |bias|
    ensures UnpackBias(BiasWords(bias, N, W), N, W) == BinarizeAll(bias[..N])
  {
    var bits := UnpackBias(BiasWords(bias, N, W), N, W);
    forall n | 0 <= n < N
      ensures bits[n] == BinarizeAll(bias[..N])[n]
    {
      ChunksBound(N, W, n / W);
      assert (n / W) * W + n % W == n;
    }
  }

  /** set_dense_bias_array: pack layer `layerIdx`'s biases into the first
      Chunks(N, W) words of b; every later word of b keeps its value. */
  method SetDenseBiasArray(b: array<Word>, bias: seq<real>, cfg: Config, layerIdx: nat)
    requires cfg.HasLayer(layerIdx)
    requires Chunks(cfg.N(layerIdx), cfg.wordSize) * cfg.wordSize <= |bias|
    requires Chunks(cfg.N(layerIdx), cfg.wordSize) <= b.Length
    modifies b
    ensures var count := Chunks(cfg.N(layerIdx), cfg.wordSize);
      b[..count] == BiasWords(bias, cfg.N(layerIdx), cfg.wordSize) &&
      b[count..] == old(b[count..])
  {
    var N, W := cfg.nTab[layerIdx - 1], cfg.wordSize;
    ghost var K := Chunks(N, W);
    ghost var packed := BiasWords(bias, N, W);
    var bIdx := 0;
    var wrd := ZeroWord(W);
    var n := 0;
    while n < N
      invariant n == bIdx * W && bIdx <= K
      invariant |wrd| == W
      invariant b[..bIdx] == packed[..bIdx]
      invariant b[bIdx..] == old(b[bIdx..])
    {
      ChunksBound(N, W, bIdx);
      ChunkEnd(bIdx, K, W);
      wrd := FillWord(wrd, bias, n);
      b[bIdx] := wrd;
      assert packed[..bIdx + 1] == packed[..bIdx] + [packed[bIdx]];
      MulSucc(bIdx, W);
      bIdx := bIdx + 1;
      n := n + W;
    }
    ChunksBound(N, W, bIdx);
    assert packed[..bIdx] == packed;
  }
}
