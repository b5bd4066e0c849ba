# Binarized weight packing of the RNN accelerator test code

This project models the helper layer of `cpp/accel/AccelTest.cpp`. That code
turns the floating-point weights and biases of a network into the binarized,
word-packed buffers the accelerator reads. It covers:

- the layer-kind predicates `layer_is_rnn` and `layer_is_last`;
- the integer `log2`;
- the four packers `set_dense_weight_array`, `set_dense_bias_array`,
  `set_rnn_weight_array` and `set_rnn_bias_array`.

Modules:

- `IndexArith` (`arith.dfy`) holds the index arithmetic: the number of
  `WORD_SIZE` strides a loop takes (`Chunks`, a ceiling division) and the
  column-major layout `n * K + j`.
- `LayerTable` (`layers.dfy`) holds the layer table. `M_tab`, `N_tab`,
  `T_tab` and `WORD_SIZE` form one immutable `Config` value, indexed by
  `layer_idx - 1`.
- `IntLog` (`log2.dfy`) holds `log2` as a loop with its invariant.
- `WordBits` (`words.dfy`) holds the basic pieces:
  - a `Word` is a sequence of bits, with `true` standing for 1;
  - `Binarize` maps `v` to `(v < 0) ? 0 : 1`;
  - `FillWord` is the bit loop shared by every packer;
  - `Flatten` lays per-column word streams end to end.
  
  A row-major `[input][output]` float array of M x N entries is modelled as
  its sequence of rows. Flat entry `(m + b) * N + n` is `a[m + b][n]`.
- `DensePacking` (`dense.dfy`) holds the dense packers, proved against the
  specification functions `DenseWeights` and `BiasWords`. The round trips
  read every weight and every bias back out of the packed words.
- `RnnPacking` (`rnn.dfy`) holds the recurrent packers, proved against
  `RnnWeights` and `BiasWords`. The concatenation law says a recurrent
  weight set is the dense packing of `wts_in` stacked on `wts_hid`. The
  placement lemmas show that weight sets and bias sets selected by
  `weight_idx` sit back to back without overlapping.

The packers are methods over an `array<Word>` that they modify in place.
Each one ensures two things. First, the words it writes equal the
specification function of its inputs. Second, every other word of the
buffer keeps its old value.

The inner loop of `set_rnn_weight_array`, which packs the chunks of one
output unit, is its own method, `PackRnnColumn`. It returns the advanced
`w_idx`. The outer method hoists the set offset
`weight_idx*(M+N)*N/WORD_SIZE` out of the loop; the source recomputes it
for every store, and the value is the same each time.

The comment on `log2` says it "only works for powers of 2". The loop does
more than that. For every `x >= 1` it terminates and returns the floor of
the base-2 logarithm, so `log2(2^k) == k` is a special case. For `x == 0`
it never terminates, so `Log2` requires `x >= 1`.

## Model

| member | source | states |
|---|---|---|
| LayerTable.LayerIsRnn | cpp/accel/AccelTest.cpp:10-13 | for an index in 1..N_LAYERS, the result holds iff the layer's T_tab entry is LAYER_RNN1 or LAYER_RNN2, and a recurrent layer is neither dense nor last |
| LayerTable.LayerIsLast | cpp/accel/AccelTest.cpp:15-18 | for an index in 1..N_LAYERS, the result holds iff the layer's T_tab entry is LAYER_LAST; the last layer is never recurrent |
| LayerTable.ClassifyLayer | cpp/accel/AccelTest.cpp:10-18 | a layer that is neither recurrent nor last is exactly a dense layer |
| IntLog.Log2 | cpp/accel/AccelTest.cpp:20-28 | for x >= 1 the halving loop ends with 2^res <= x < 2^(res+1), and res == k whenever x == 2^k |
| IntLog.Pow2Increasing | cpp/accel/AccelTest.cpp:20-28 | distinct exponents give distinct powers of two, so the exponent of a power of two is unique |
| WordBits.Binarize | cpp/accel/AccelTest.cpp:43 | a value binarizes to bit 1 iff it is not negative, so exactly zero gives 1 (the same test as lines 47, 62, 79 and 93) |
| WordBits.FillWord | cpp/accel/AccelTest.cpp:78-80 | the bit loop sets bit b to the binarized src[start + b] for every b < WORD_SIZE, whatever the word held before |
| WordBits.FlattenAt | cpp/accel/AccelTest.cpp:74-83 | with K words per output unit, word j of unit n is at flat index n * K + j, inside the N * K words |
| IndexArith.ChunksBound | cpp/accel/AccelTest.cpp:76 | the loop over m stepping by WORD_SIZE visits chunk j exactly when j * WORD_SIZE < M |
| IndexArith.ChunksExact | cpp/accel/AccelTest.cpp:91 | when WORD_SIZE divides the length, the number of strides is exactly length / WORD_SIZE |
| DensePacking.DenseWordAt | cpp/accel/AccelTest.cpp:74-83 | word n * K + j of the packed matrix holds input rows j * W .. j * W + W - 1 of column n |
| DensePacking.DenseBit | cpp/accel/AccelTest.cpp:75-81 | bit b of word n * K + j is the binarized weight at row j * W + b, column n |
| DensePacking.DenseReadBack | cpp/accel/AccelTest.cpp:71-85 | reading bit m % W of word n * K + m / W gives the binarized weight (m, n) |
| DensePacking.DenseRoundTrip | cpp/accel/AccelTest.cpp:71-85 | reading every weight back out of the packed words gives the binarized M x N matrix |
| DensePacking.DenseWordCount | cpp/accel/AccelTest.cpp:74-83 | with M a multiple of WORD_SIZE, the packer writes exactly M * N / WORD_SIZE words |
| DensePacking.SetDenseWeightArray | cpp/accel/AccelTest.cpp:71-85 | w[0 .. N * K) becomes the packed matrix and every later word of w is unchanged |
| DensePacking.BiasBit | cpp/accel/AccelTest.cpp:91-95 | bit b of bias word j is the binarized bias j * W + b |
| DensePacking.BiasRoundTrip | cpp/accel/AccelTest.cpp:87-98 | reading bit n % W of bias word n / W gives the binarized bias n, for every n < N |
| DensePacking.SetDenseBiasArray | cpp/accel/AccelTest.cpp:87-98 | b[0 .. Chunks(N, W)) becomes the packed biases and every later word is unchanged, although one wrd is reused for all words |
| RnnPacking.ChunkSplit | cpp/accel/AccelTest.cpp:39-49 | with M and N multiples of WORD_SIZE, a chunk starting below M lies wholly in wts_in and every chunk ends within M + N |
| RnnPacking.RnnWordAsDense | cpp/accel/AccelTest.cpp:39-49 | word j of unit n is the chunk at row j * W of column n of wts_in stacked on wts_hid |
| RnnPacking.RnnAsDense | cpp/accel/AccelTest.cpp:34-54 | a recurrent weight set is the dense packing of the (M + N) x N concatenation of wts_in and wts_hid |
| RnnPacking.RnnBitFromInput | cpp/accel/AccelTest.cpp:41-44 | for a chunk starting at m = j * W < M, bit b of word n * K + j is the binarized wts_in[(m + b) * N + n] |
| RnnPacking.RnnBitFromHidden | cpp/accel/AccelTest.cpp:45-48 | for a chunk starting at M <= m < M + N, bit b of word n * K + j is the binarized wts_hid[(m - M + b) * N + n] |
| RnnPacking.RnnRoundTrip | cpp/accel/AccelTest.cpp:34-54 | reading the M + N input rows of every output unit back gives the binarized wts_in rows followed by the binarized wts_hid rows |
| RnnPacking.RnnSetPlacement | cpp/accel/AccelTest.cpp:50 | weight set k starts at word k * (N * (M + N) / WORD_SIZE), i.e. after k whole sets |
| RnnPacking.RnnSetEnd | cpp/accel/AccelTest.cpp:50 | weight set k ends exactly where weight set k + 1 starts |
| RnnPacking.RnnSetsDisjoint | cpp/accel/AccelTest.cpp:50 | weight sets with different indices occupy disjoint word ranges |
| RnnPacking.PackRnnColumn | cpp/accel/AccelTest.cpp:39-52 | the chunk loop of one output unit writes that unit's words at the current w_idx, advances w_idx by (M + N) / WORD_SIZE and changes nothing else |
| RnnPacking.SetRnnWeightArray | cpp/accel/AccelTest.cpp:34-54 | the words [offset, offset + N * (M + N) / WORD_SIZE) become the packed weight set and every word outside them is unchanged |
| RnnPacking.RnnBiasPlacement | cpp/accel/AccelTest.cpp:64 | with N a multiple of WORD_SIZE, bias set k starts at word k * (N / WORD_SIZE) |
| RnnPacking.RnnBiasSetEnd | cpp/accel/AccelTest.cpp:64 | bias set k ends exactly where bias set k + 1 starts |
| RnnPacking.RnnBiasSetsDisjoint | cpp/accel/AccelTest.cpp:64 | bias sets with different indices occupy disjoint word ranges |
| RnnPacking.SetRnnBiasArray | cpp/accel/AccelTest.cpp:56-67 | the words [weight_idx * N / WORD_SIZE, + Chunks(N, W)) become the packed biases and every other word of b is unchanged |

## Left out

- `test_conv_layer` and `test_dense_layer` (lines 101-231) sit inside a block comment. They call the accelerator scheduler, print results and compute an error rate; none of that is modelled.
- Floating point: the source values are `real`, so NaN (which binarizes to 1 in C) is not modelled. Only the `< 0` test matters.
- The `Word` bit type and the header definitions of `M_tab`, `N_tab`, `T_tab`, `N_LAYERS` and `WORD_SIZE` are not part of this model. They are abstracted into `Config`, a `Word` being a sequence of `WORD_SIZE` booleans. The layer kinds are taken to be `LAYER_RNN1`, `LAYER_RNN2`, `LAYER_DENSE` and `LAYER_LAST`.
- The `assert` on the layer index becomes a precondition (`HasLayer`). The `layer_idx - 1` lookups in the packers are covered by the same precondition.
- `unsigned` overflow of the index products is not modelled: indices are unbounded naturals. Buffer sizes, which the C code never checks, are preconditions.
- The flat `float*` arrays become sequences of rows, so out-of-bounds reads of the C code appear as length preconditions on the rows.
- Log2: requires `x >= 1`; for `x == 0` the C loop never terminates.
- SetRnnWeightArray: requires M and N to be multiples of WORD_SIZE. A recurrent layer has this property, and without it a chunk starting below M would read past the end of `wts_in`. The dense packers and `SetRnnBiasArray` are modelled for any sizes: their last chunk may read up to `Chunks(len, W) * W` entries, and the preconditions demand that many.
- SetRnnWeightArray: the offset product is computed once before the loops instead of at each store; the value does not change between stores.
