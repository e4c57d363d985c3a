# Cache-blocked square matrix product, modelled and verified in Dafny

This project models the matrix core of a small service that multiplies two square
matrices with a cache-blocking (tiled) algorithm, `src/matrixMultiply.js`:

- `getBlock` copies the k×k tile of a matrix at (rowStart, colStart) into a fresh array;
- `setBlock` writes a tile over a matrix in place, with the extent taken from the
  tile's own size;
- `matrixAdd` adds two n×n matrices entry by entry into a fresh one;
- `matrixMultiply` is the dense triple-loop product of two n×n matrices, accumulated
  with `C[i][j] += A[i][k] * B[k][j]` into a zero-filled result;
- `parallel_matrix_multiply` allocates a zeroed n×n result C and walks row block i,
  column block j and reduction block l in steps of k. Each step reads the A tile at
  (i, l), the B tile at (l, j) and the C tile at (i, j), adds the product of the first
  two to the third and writes the sum back over C. Nothing runs in parallel.

Three modules:

- `Matrices` (matrices.dfy) is the value-level specification. A matrix is a
  `seq<seq<int>>`. `Dot` is the partial sum of `a[i][l] * b[l][j]` over a range of l,
  `Product` is the naive product, and `Add`, `Sub` (a tile) and `Update` (a tile written
  over a matrix) describe the other operations. The lemmas cover the block identity
  behind tiling, the frame of a tile write and the read-then-write round trip.
- `BlockedMultiply` (blocked_multiply.dfy) mirrors the JavaScript loops as methods over
  `array2<int>`. `Elems` gives the value an array holds. Each method is proved against
  the specification: `GetBlock` returns `Sub`, `SetBlock` leaves `Update`, `MatrixAdd`
  returns `Add`, and `MatrixMultiply` and the driver return `Product`. The driver's loop
  invariants say which tiles are finished, which tile holds a partial sum over the
  reduction blocks done so far, and which tiles are still zero.
- `ProductLaws` (product_laws.dfy) proves laws of the naive product. The identity is a
  unit on both sides, zero absorbs on both sides, and [[1,2],[3,4]]·[[5,6],[7,8]] is
  [[19,22],[43,50]]. The driver returns `Product` for every valid k, so these laws
  hold for the blocked product as well.

Entries are mathematical integers, so every sum is exact. The source does not validate
its inputs. The model requires two n×n matrices and a block size k > 0 that divides n.
With two n×n matrices and n > 0, the source fails on every other k:
- k = 0 makes the loops run forever, because `l += 0` never advances.
- A negative k throws a RangeError from `Array(blockSize)` in the first `getBlock`
  (src/matrixMultiply.js:22).
- A k > 0 that does not divide n throws a TypeError at src/matrixMultiply.js:25, when a
  `getBlock` reads row n. That is the B tile at the last reduction step of tile (0, 0),
  or the A tile at once when k > n. The throw comes before any `setBlock` writes
  outside C.

With n = 0 the loops never start, and the source returns `[]` for every k.

The source does not check shapes either; n is taken from the number of rows of A
(src/matrixMultiply.js:2):
- A B larger than n×n, or rows of A longer than n, are read only in their top-left n×n
  part.
- A row shorter than n reads a missing cell as `undefined`, which turns the products
  that use it into NaN without an error.
- A B with fewer than n rows throws a TypeError at src/matrixMultiply.js:25.

## Model

| member | source | states |
|---|---|---|
| `Matrices.DotSplit` | src/matrixMultiply.js:55-57 | the sum over [lo, hi) of a[i][l]·b[l][j] is the sum over [lo, mid) plus the sum over [mid, hi), at any midpoint |
| `Matrices.DotExtend` | src/matrixMultiply.js:7-13 | at every entry of the n×n result, the prefix sum up to one reduction block extends by that block's slice to the prefix sum up to the next block |
| `Matrices.TilePrefix` | src/matrixMultiply.js:9-12 | the first h terms of the dot product of the A tile at (i, l) and the B tile at (l, j), at the entry for (x, y), are the terms l … l+h−1 of the full sum for entry (x, y) |
| `Matrices.DotOfTiles` | src/matrixMultiply.js:9-12 | block identity: the product of the A tile at (i, l) and the B tile at (l, j), at the entry for (x, y), is the slice [l, l+k) of the sum for entry (x, y) of A·B |
| `Matrices.AccumulatedEntry` | src/matrixMultiply.js:9-12 | the new C tile (old C tile plus A tile · B tile) is k×k, and its entry for (x, y) is C[x][y] plus the slice [l, l+k) of the product sum of entry (x, y) |
| `Matrices.UpdateAt` | src/matrixMultiply.js:31-37 | writing a tile keeps the matrix's shape; a cell inside the tile's own extent takes the tile's entry and every other cell is unchanged |
| `Matrices.UpdateSubRoundTrip` | src/matrixMultiply.js:21-37 | writing back the tile just read at (r, c) leaves the matrix equal to what it was |
| `ProductLaws.DotIdentityRight` | src/matrixMultiply.js:50-61 | against the identity on the right, the first h terms of entry (i, j) sum to a[i][j] if j < h and to 0 otherwise |
| `ProductLaws.DotIdentityLeft` | src/matrixMultiply.js:50-61 | against the identity on the left, the first h terms of entry (i, j) sum to a[i][j] if i < h and to 0 otherwise |
| `ProductLaws.ProductIdentity` | src/matrixMultiply.js:50-61 | A·I = A and I·A = A for every square A |
| `ProductLaws.DotZero` | src/matrixMultiply.js:50-61 | every partial sum against a zero factor, on either side, is 0 |
| `ProductLaws.ProductZero` | src/matrixMultiply.js:50-61 | A·0 = 0 and 0·A = 0 for every square A |
| `ProductLaws.TwoByTwoExample` | src/matrixMultiply.js:50-61 | [[1,2],[3,4]]·[[5,6],[7,8]] = [[19,22],[43,50]] |
| `BlockedMultiply.Zeros` | src/matrixMultiply.js:3 | a fresh n×n array whose every entry is 0 |
| `BlockedMultiply.GetBlock` | src/matrixMultiply.js:21-29 | returns a fresh blockSize×blockSize array whose entry (p, q) is matrix[rowStart+p][colStart+q]; the matrix is only read |
| `BlockedMultiply.SetBlock` | src/matrixMultiply.js:31-37 | afterwards the matrix is its old value with the block written at (rowStart, colStart) over the block's own extent, and every other cell is unchanged |
| `BlockedMultiply.MatrixAdd` | src/matrixMultiply.js:39-48 | returns a fresh n×n array with C[i][j] = A[i][j] + B[i][j]; A and B are only read |
| `BlockedMultiply.MatrixMultiply` | src/matrixMultiply.js:50-61 | returns a fresh, zero-initialised n×n array holding the naive product; the innermost loop keeps C[i][j] equal to the partial sum over the l processed so far |
| `BlockedMultiply.NextTileFits` | src/matrixMultiply.js:5-7 | when k > 0 divides n, a tile that starts at a multiple of k below n ends inside the matrix, and the next start is again a multiple of k |
| `BlockedMultiply.AccumulateTile` | src/matrixMultiply.js:9-13 | one read-modify-write step: inside the C tile at (i, j) each entry grows by the slice [l, l+k) of its product sum; every other entry of C is unchanged |
| `BlockedMultiply.ParallelMatrixMultiply` | src/matrixMultiply.js:1-19 | with k > 0 dividing n, the loops terminate and return a fresh n×n array equal to the naive product of A and B |
| `BlockedMultiply.RestoreBlock` | src/matrixMultiply.js:21-37 | `setBlock(M, r, c, getBlock(M, r, c, k))` leaves M unchanged when the tile lies inside M |
| `BlockedMultiply.BlockSizeInvariance` | src/matrixMultiply.js:1-19 | two valid block sizes give equal results |
| `BlockedMultiply.SingleTile` | src/matrixMultiply.js:1-19 | with k = n the blocked product equals one call of the dense `matrixMultiply` |

## Left out

- `src/app.js`: the Express server, the HTTP route, JSON body parsing, logging and status codes are transport around one call. They are not part of this model.
- Floating-point arithmetic: entries are `int`, so sums are exact and rounding order plays no part.
- Invalid inputs: non-square matrices, matrices of different sizes, k ≤ 0 and a k that does not divide n are excluded by preconditions, so the model does not cover what the source does with them. With n > 0, k = 0 gives a loop that never ends, a negative k gives the RangeError thrown at src/matrixMultiply.js:22, and a non-dividing k gives the TypeError thrown at src/matrixMultiply.js:25 when row n is read. Those exceptions propagate out of `parallel_matrix_multiply`, and no error result models them. With n = 0 the source returns `[]` for every k, and the model covers only k > 0 there. Shape mismatches give the partial reads, NaN entries or TypeError described above; the model covers none of them.
- `BlockedMultiply.SetBlock`: requires the block and the target to be different arrays. In the source every tile written back is freshly allocated. A matrix passed as its own block can only fit at offset (0, 0), where the copy changes nothing.
- Row representation: JavaScript matrices are arrays of row arrays; the model uses `array2<int>`. Ragged rows and two rows that share one array are not represented. For `setBlock` this means the block's width is its column count, where the source reads `block[0].length`.
- The specification functions read through `Matrices.At`, which gives 0 outside a matrix. Every method reads only cells inside its arrays, so this convention never decides a result.
- Parallelism: despite its name, `parallel_matrix_multiply` is sequential, and so is the model.
