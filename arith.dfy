/** Index arithmetic shared by the word packers: chunk counts of a loop that
    steps by the word size, and the flat column-major layout `n * K + j`. */
module IndexArith {

  /** Number of iterations of `for (i = 0; i < len; i += w)`: the ceiling of len / w. */
  function Chunks(len: nat, w: nat): (k: nat)
    requires w > 0
    ensures len <= k * w
  {
    var k := (len + w - 1) / w;
    ChunksCover(len, w, k);
    k
  }

  lemma ChunksCover(len: nat, w: nat, k: nat)
    requires w > 0 && k == (len + w - 1) / w
    ensures len <= k * w
  {
    var r := (len + w - 1) % w;
    assert len + w - 1 == k * w + r;
  }

  lemma MulMono(a: nat, b: nat, c: nat)
    requires a <= b
    ensures a * c <= b * c
  {
  }

  /** Chunk j is visited by the stepping loop exactly when it starts below len. */
  lemma ChunksBound(len: nat, w: nat, j: nat)
    requires w > 0
    ensures j * w < len <==> j < Chunks(len, w)
  {
    var q := Chunks(len, w);
    var r := (len + w - 1) % w;
    assert len + w - 1 == q * w + r;
    if j < q {
      MulMono(j + 1, q, w);
    } else {
      MulMono(q, j, w);
    }
  }

  /** When w divides len the ceiling is the exact quotient. */
  lemma ChunksExact(len: nat, w: nat)
    requires w > 0 && len % w == 0
    ensures Chunks(len, w) == len / w
    ensures Chunks(len, w) * w == len
  {
    var q := len / w;
    assert len == q * w;
    assert len + w - 1 == q * w + (w - 1);
    DivModUnique(len + w - 1, w, q, w - 1);
  }

  lemma DivModUnique(x: nat, d: nat, q: nat, r: nat)
    requires d > 0 && r < d && x == q * d + r
    ensures x / d == q && x % d == r
  {
    var q', r' := x / d, x % d;
    assert x == q' * d + r';
    if q' < q {
      MulMono(q' + 1, q, d);
    } else if q < q' {
      MulMono(q + 1, q', d);
    }
  }

  /** Entry m of column n (of N columns of Chunks(M, w) words) lies in
      word n * Chunks(M, w) + m / w, inside the N * Chunks(M, w) words. */
  lemma ReadIndexBound(M: nat, N: nat, w: nat, m: nat, n: nat)
    requires w > 0 && m < M && n < N
    ensures m / w < Chunks(M, w)
    ensures n * Chunks(M, w) + m / w < N * Chunks(M, w)
  {
    ChunksBound(M, w, m / w);
    MulMono(n + 1, N, Chunks(M, w));
  }

  /** The chunk j of w values ends within K chunks. */
  lemma ChunkEnd(j: nat, K: nat, w: nat)
    requires j < K
    ensures j * w + w <= K * w
  {
    MulMono(j + 1, K, w);
  }

  /** Word j of column n, and the one after it, lie within N columns of K words. */
  lemma NextIndexBound(n: nat, N: nat, j: nat, K: nat)
    requires n < N && j < K
    ensures n * K + j + 1 <= N * K
  {
    MulMono(n + 1, N, K);
  }

  lemma MulSucc(j: nat, w: nat)
    ensures (j + 1) * w == j * w + w
  {
  }

  lemma DivMod(m: nat, w: nat)
    requires w > 0
    ensures (m / w) * w + m % w == m && m % w < w
  {
  }

  /** Two whole numbers of words add up to a whole number of words: the
      chunks of M + N are the chunks of M followed by those of N. */
  lemma ChunksAdd(M: nat, N: nat, w: nat)
    requires w > 0 && M % w == 0 && N % w == 0
    ensures Chunks(M, w) * w == M && Chunks(N, w) * w == N
    ensures Chunks(M + N, w) == Chunks(M, w) + Chunks(N, w)
    ensures Chunks(M + N, w) * w == M + N
  {
    ChunksExact(M, w);
    ChunksExact(N, w);
    var a, b := Chunks(M, w), Chunks(N, w);
    assert M + N + w - 1 == (a + b) * w + (w - 1);
    DivModUnique(M + N + w - 1, w, a + b, w - 1);
  }

  /** Dividing k * S * N by w when S is K whole words of w. */
  lemma ScaledQuotient(k: nat, S: nat, N: nat, w: nat, K: nat)
    requires w > 0 && S == K * w
    ensures k * S * N / w == k * (N * K)
  {
    assert k * S * N == k * (N * K) * w;
    DivModUnique(k * S * N, w, k * (N * K), 0);
  }
}
