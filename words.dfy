/** Words, binarization and the column-major word layout shared by every
    packer. A `Word` holds WORD_SIZE bits addressed by index; `true` stands
    for bit value 1.

    The packers read row-major `[input][output]` float arrays: entry (m, n)
    of an M x N matrix sits at flat index m * N + n. A matrix is modelled as
    its sequence of rows, so flat entry m * N + n is `a[m][n]`. */
module WordBits {
  import opened IndexArith

  type Word = seq<bool>

  /** Sign-threshold binarization `(v < 0) ? 0 : 1`: negative values give 0,
      every other value, exactly zero included, gives 1. */
  function Binarize(v: real): (bit: bool)
    ensures bit <==> v >= 0.0
  {
    !(v < 0.0)
  }

  /** Binarization of every element of a vector. */
  function BinarizeAll(src: seq<real>): (bits: seq<bool>)
    ensures |bits| == |src|
  {
    seq(|src|, k requires 0 <= k < |src| => Binarize(src[k]))
  }

  /** Every row of `a` has exactly `cols` entries. */
  predicate IsMatrix(a: seq<seq<real>>, cols: nat)
  {
    forall r :: 0 <= r < |a| ==> |a[r]| == cols
  }

  /** Binarization of every entry of a matrix. */
  function BinarizeMatrix(a: seq<seq<real>>): (bits: seq<seq<bool>>)
    ensures |bits| == |a|
  {
    seq(|a|, r requires 0 <= r < |a| => BinarizeAll(a[r]))
  }

  /** Column n of a matrix: the values read by `a[(m + b) * N + n]` as m + b runs. */
  function Column(a: seq<seq<real>>, n: nat): (c: seq<real>)
    requires forall r :: 0 <= r < |a| ==> n < |a[r]|
    ensures |c| == |a|
  {
    seq(|a|, r requires 0 <= r < |a| => a[r][n])
  }

  /** `Word wrd = 0`: all bits cleared. */
  function ZeroWord(width: nat): (w: Word)
    ensures |w| == width
  {
    seq(width, b => false)
  }

  /** The word of `width` bits whose bit b is the binarized value src[start + b]. */
  function ChunkBits(src: seq<real>, start: nat, width: nat): (w: Word)
    requires start + width <= |src|
    ensures |w| == width
  {
    seq(width, b requires 0 <= b < width => Binarize(src[start + b]))
  }

  /** The inner loop `for (b = 0; b < WORD_SIZE; ++b) wrd[b] = ...` of every
      packer, reading a chunk of consecutive values of a column (weights) or
      of the bias vector. Every bit of the word is assigned, so the result does
      not depend on what `wrd` held before: the bias packers reuse one `wrd`
      for all their words. */
  method FillWord(wrd: Word, src: seq<real>, start: nat) returns (r: Word)
    requires start + |wrd| <= |src|
    ensures r == ChunkBits(src, start, |wrd|)
  {
    r := wrd;
    var b := 0;
    while b < |wrd|
      invariant 0 <= b <= |wrd| == |r|
      invariant forall k :: 0 <= k < b ==> r[k] == Binarize(src[start + k])
    {
      r := r[b := Binarize(src[start + b])];
      b := b + 1;
    }
  }

  /** Words of consecutive output units laid end to end: column n's words
      follow all the words of columns 0 .. n - 1. */
  function Flatten(cols: seq<seq<Word>>): (r: seq<Word>)
    decreases |cols|
  {
    if cols == [] then [] else Flatten(cols[..|cols| - 1]) + cols[|cols| - 1]
  }

  /** Every column holds K words. */
  predicate Uniform(cols: seq<seq<Word>>, K: nat)
  {
    forall n :: 0 <= n < |cols| ==> |cols[n]| == K
  }

  lemma {:induction false} FlattenLength(cols: seq<seq<Word>>, K: nat)
    requires Uniform(cols, K)
    ensures |Flatten(cols)| == |cols| * K
  {
    if cols != [] {
      var n := |cols| - 1;
      FlattenLength(cols[..n], K);
      assert |Flatten(cols)| == n * K + K;
      MulSucc(n, K);
    }
  }

  /** The layout law: word j of column n is at flat index n * K + j. */
  lemma {:induction false} FlattenAt(cols: seq<seq<Word>>, K: nat, n: nat, j: nat)
    requires Uniform(cols, K) && n < |cols| && j < K
    ensures n * K + j < |cols| * K == |Flatten(cols)|
    ensures Flatten(cols)[n * K + j] == cols[n][j]
  {
    var init := cols[..|cols| - 1];
    FlattenLength(cols, K);
    FlattenLength(init, K);
    if n < |cols| - 1 {
      FlattenAt(init, K, n, j);
    }
  }

  /** Every word of every column is `width` bits wide. */
  predicate AllWidth(cols: seq<seq<Word>>, width: nat)
  {
    forall n, j :: 0 <= n < |cols| && 0 <= j < |cols[n]| ==> |cols[n][j]| == width
  }

  lemma {:induction false} FlattenWidth(cols: seq<seq<Word>>, width: nat)
    requires AllWidth(cols, width)
    ensures forall i :: 0 <= i < |Flatten(cols)| ==> |Flatten(cols)[i]| == width
  {
    if cols != [] {
      FlattenWidth(cols[..|cols| - 1], width);
    }
  }

  /** Flattening one more column appends that column's words. */
  lemma FlattenSnoc(cols: seq<seq<Word>>, n: nat)
    requires n < |cols|
    ensures Flatten(cols[..n + 1]) == Flatten(cols[..n]) + cols[n]
  {
    assert cols[..n + 1][..n] == cols[..n];
  }
}
