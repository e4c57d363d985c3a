/**
 * The cache-blocked square matrix product: a driver that walks the result in k×k tiles
 * and, for every tile of C and every reduction step, reads a tile of A, a tile of B and
 * the current tile of C, adds the product of the first two to the third and writes the
 * sum back into C in place.
 *
 * Every matrix is an `array2<int>`; `Elems` gives the value it holds, so that each
 * method is specified by a function of module Matrices.
 */
module BlockedMultiply {
  import opened Matrices

  /** The rows of `m` as a value. */
  function Elems(m: array2<int>): (v: Matrix)
    reads m
    ensures |v| == m.Length0 && forall i :: 0 <= i < |v| ==> |v[i]| == m.Length1
  {
    seq(m.Length0, i requires 0 <= i < m.Length0 reads m =>
      seq(m.Length1, j requires 0 <= j < m.Length1 reads m => m[i, j]))
  }

  /** A fresh n×n matrix of zeros, as every result and every tile is allocated. */
  method Zeros(n: nat) returns (m: array2<int>)
    ensures fresh(m)
    ensures m.Length0 == n && m.Length1 == n && Elems(m) == Zero(n)
    ensures forall x, y :: 0 <= x < n && 0 <= y < n ==> m[x, y] == 0
  {
    m := new int[n, n]((_, _) => 0);
    EqualByEntries(Elems(m), Zero(n));
  }

  /**
   * Copies the blockSize×blockSize tile of `matrix` at (rowStart, colStart) into a
   * fresh array; `matrix` is only read.
   */
  method GetBlock(matrix: array2<int>, rowStart: nat, colStart: nat, blockSize: nat)
    returns (block: array2<int>)
    requires rowStart + blockSize <= matrix.Length0 && colStart + blockSize <= matrix.Length1
    ensures fresh(block)
    ensures block.Length0 == blockSize && block.Length1 == blockSize
    ensures Elems(block) == Sub(Elems(matrix), rowStart, colStart, blockSize)
  {
    block := Zeros(blockSize);
    for i := rowStart to rowStart + blockSize
      invariant forall p, q :: 0 <= p < i - rowStart && 0 <= q < blockSize ==>
        block[p, q] == matrix[rowStart + p, colStart + q]
    {
      for j := colStart to colStart + blockSize
        invariant forall p, q :: 0 <= p < i - rowStart && 0 <= q < blockSize ==>
          block[p, q] == matrix[rowStart + p, colStart + q]
        invariant forall y :: colStart <= y < j ==>
          block[i - rowStart, y - colStart] == matrix[i, y]
      {
        block[i - rowStart, j - colStart] := matrix[i, j];
      }
    }
    ghost var mv := Elems(matrix);
    forall p, q | 0 <= p < blockSize && 0 <= q < blockSize
      ensures Elems(block)[p][q] == Sub(mv, rowStart, colStart, blockSize)[p][q]
    {
      assert At(mv, rowStart + p, colStart + q) == matrix[rowStart + p, colStart + q];
    }
    EqualByEntries(Elems(block), Sub(mv, rowStart, colStart, blockSize));
  }

  /**
   * Writes `block` over `matrix` in place with its top-left corner at (rowStart,
   * colStart). The extent of the write is the block's own size; every other cell of
   * `matrix` keeps its value.
   */
  method SetBlock(matrix: array2<int>, rowStart: nat, colStart: nat, block: array2<int>)
    requires rowStart + block.Length0 <= matrix.Length0
    requires block.Length0 > 0 ==> colStart + block.Length1 <= matrix.Length1
    requires block != matrix
    modifies matrix
    ensures Elems(matrix) == Update(old(Elems(matrix)), rowStart, colStart, old(Elems(block)))
  {
    ghost var m0 := Elems(matrix);
    ghost var t := Elems(block);
    ghost var w := Width(t);
    for i := rowStart to rowStart + block.Length0
      invariant forall x, y :: 0 <= x < matrix.Length0 && 0 <= y < matrix.Length1 ==>
        matrix[x, y] == if rowStart <= x < i && colStart <= y < colStart + w
                        then At(t, x - rowStart, y - colStart) else m0[x][y]
    {
      for j := colStart to colStart + block.Length1
        invariant forall x, y :: 0 <= x < matrix.Length0 && 0 <= y < matrix.Length1 ==>
          matrix[x, y] == if (rowStart <= x < i && colStart <= y < colStart + w)
                             || (x == i && colStart <= y < j)
                          then At(t, x - rowStart, y - colStart) else m0[x][y]
      {
        matrix[i, j] := block[i - rowStart, j - colStart];
      }
    }
    ghost var u := Update(m0, rowStart, colStart, t);
    forall x, y | 0 <= x < |u| && 0 <= y < |u[x]|
      ensures Elems(matrix)[x][y] == u[x][y]
    {
      UpdateAt(m0, rowStart, colStart, t, x, y);
    }
    EqualByEntries(Elems(matrix), u);
  }

  /** Entry-by-entry sum of two n×n matrices into a fresh one; `a` and `b` are only read. */
  method MatrixAdd(a: array2<int>, b: array2<int>) returns (c: array2<int>)
    requires a.Length0 == a.Length1 == b.Length0 == b.Length1
    ensures fresh(c)
    ensures c.Length0 == a.Length0 && c.Length1 == a.Length0
    ensures Elems(c) == Add(Elems(a), Elems(b))
  {
    var n := a.Length0;
    c := Zeros(n);
    for i := 0 to n
      invariant forall x, y :: 0 <= x < i && 0 <= y < n ==> c[x, y] == a[x, y] + b[x, y]
    {
      for j := 0 to n
        invariant forall x, y :: 0 <= x < i && 0 <= y < n ==> c[x, y] == a[x, y] + b[x, y]
        invariant forall y :: 0 <= y < j ==> c[i, y] == a[i, y] + b[i, y]
      {
        c[i, j] := a[i, j] + b[i, j];
      }
    }
    EqualByEntries(Elems(c), Add(Elems(a), Elems(b)));
  }

  /**
   * The dense triple-loop product of two n×n matrices into a fresh, zero-initialised
   * one. Entry (i, j) accumulates a[i, l] * b[l, j] for l = 0, 1, ..., n - 1.
   */
  method MatrixMultiply(a: array2<int>, b: array2<int>) returns (c: array2<int>)
    requires a.Length0 == a.Length1 == b.Length0 == b.Length1
    ensures fresh(c)
    ensures c.Length0 == a.Length0 && c.Length1 == a.Length0
    ensures Elems(c) == Product(Elems(a), Elems(b))
  {
    var n := a.Length0;
    ghost var av, bv := Elems(a), Elems(b);
    c := Zeros(n);
    for i := 0 to n
      invariant forall x, y :: 0 <= x < n && 0 <= y < n ==>
        c[x, y] == if x < i then Dot(av, bv, x, y, 0, n) else 0
    {
      for j := 0 to n
        invariant forall x, y :: 0 <= x < n && 0 <= y < n ==>
          c[x, y] == if x < i || (x == i && y < j) then Dot(av, bv, x, y, 0, n) else 0
      {
        for l := 0 to n
          invariant forall x, y :: 0 <= x < n && 0 <= y < n ==>
            c[x, y] == if x < i || (x == i && y < j) then Dot(av, bv, x, y, 0, n)
                       else if x == i && y == j then Dot(av, bv, x, y, 0, l)
                       else 0
        {
          c[i, j] := c[i, j] + a[i, l] * b[l, j];
        }
      }
    }
    EqualByEntries(Elems(c), Product(av, bv));
  }

  /**
   * On an axis of length n, a multiple of k, the tile that starts at a multiple i < n of
   * k lies inside the matrix, and the next tile again starts at a multiple of k.
   */
  lemma NextTileFits(i: nat, k: nat, n: nat)
    requires k > 0 && i % k == 0 && n % k == 0 && i < n
    ensures i + k <= n && (i + k) % k == 0
  {
    var bi, bn := i / k, n / k;
    assert i == bi * k && n == bn * k;
    assert bi < bn by {
      if bi >= bn { MulMono(bn, bi, k); }
    }
    MulMono(bi + 1, bn, k);
    assert i + k == (bi + 1) * k + 0;
    ModUnique(i + k, k, bi + 1, 0);
  }

  /** Multiplying by a natural number keeps the order. */
  lemma MulMono(x: int, y: int, k: nat)
    requires x <= y
    ensures x * k <= y * k
  {
  }

  /** The quotient-remainder decomposition by k > 0 is unique. */
  lemma ModUnique(a: int, k: nat, q: int, r: int)
    requires k > 0 && a == q * k + r && 0 <= r < k
    ensures a % k == r
  {
    var q', r' := a / k, a % k;
    assert q * k + r == q' * k + r';
    if q < q' { MulMono(q + 1, q', k); }
    if q' < q { MulMono(q' + 1, q, k); }
  }

  /**
   * One step of the driver's innermost loop: read the A tile at (i, l), the B tile at
   * (l, j) and the C tile at (i, j), add the product of the first two to the third and
   * write the sum back over C at (i, j). Inside that tile each entry grows by the slice
   * [l, l + k) of its product sum; every other entry of C is kept.
   */
  method AccumulateTile(a: array2<int>, b: array2<int>, c: array2<int>, i: nat, j: nat, l: nat, k: nat)
    requires a.Length0 == a.Length1 == b.Length0 == b.Length1 == c.Length0 == c.Length1
    requires c != a && c != b
    requires i + k <= a.Length0 && j + k <= a.Length0 && l + k <= a.Length0
    modifies c
    ensures forall x, y :: 0 <= x < c.Length0 && 0 <= y < c.Length1 ==>
      c[x, y] == if i <= x < i + k && j <= y < j + k
                 then old(c[x, y]) + Dot(Elems(a), Elems(b), x, y, l, l + k)
                 else old(c[x, y])
  {
    ghost var av, bv, c0 := Elems(a), Elems(b), Elems(c);
    var aBlock := GetBlock(a, i, l, k);
    var bBlock := GetBlock(b, l, j, k);
    var cBlock := GetBlock(c, i, j, k);
    var product := MatrixMultiply(aBlock, bBlock);
    cBlock := MatrixAdd(cBlock, product);
    ghost var t := Elems(cBlock);
    assert t == Add(Sub(c0, i, j, k), Product(Sub(av, i, l, k), Sub(bv, l, j, k)));
    SetBlock(c, i, j, cBlock);
    forall x, y | 0 <= x < c.Length0 && 0 <= y < c.Length1
      ensures c[x, y] == if i <= x < i + k && j <= y < j + k
                         then c0[x][y] + Dot(av, bv, x, y, l, l + k)
                         else c0[x][y]
    {
      assert c[x, y] == Elems(c)[x][y];
      UpdateAt(c0, i, j, t, x, y);
      if i <= x < i + k && j <= y < j + k {
        AccumulatedEntry(av, bv, c0, i, j, l, k, x, y);
      }
    }
  }

  /**
   * The blocked product. With k > 0 dividing n, C is walked tile by tile (row block i,
   * column block j) and every tile accumulates the products of the A and B tiles over
   * the reduction blocks l; the result is the naive product of A and B.
   */
  method ParallelMatrixMultiply(a: array2<int>, b: array2<int>, k: nat) returns (c: array2<int>)
    requires a.Length0 == a.Length1 == b.Length0 == b.Length1
    requires k > 0 && a.Length0 % k == 0
    ensures fresh(c)
    ensures c.Length0 == a.Length0 && c.Length1 == a.Length0
    ensures Elems(c) == Product(Elems(a), Elems(b))
  {
    var n := a.Length0;
    ghost var av, bv := Elems(a), Elems(b);
    c := Zeros(n);
    var i := 0;
    while i < n
      invariant i <= n && i % k == 0
      invariant forall x, y :: 0 <= x < n && 0 <= y < n ==>
        c[x, y] == if x < i then Dot(av, bv, x, y, 0, n) else 0
    {
      NextTileFits(i, k, n);
      var j := 0;
      while j < n
        invariant j <= n && j % k == 0
        invariant forall x, y :: 0 <= x < n && 0 <= y < n ==>
          c[x, y] == if x < i || (x < i + k && y < j) then Dot(av, bv, x, y, 0, n) else 0
      {
        NextTileFits(j, k, n);
        var l := 0;
        while l < n
          invariant l <= n && l % k == 0
          invariant forall x, y :: 0 <= x < n && 0 <= y < n ==>
            c[x, y] == if x < i || (x < i + k && y < j) then Dot(av, bv, x, y, 0, n)
                       else if x < i + k && y < j + k then Dot(av, bv, x, y, 0, l)
                       else 0
        {
          NextTileFits(l, k, n);
          AccumulateTile(a, b, c, i, j, l, k);
          DotExtend(av, bv, n, l, l + k);
          l := l + k;
        }
        j := j + k;
      }
      i := i + k;
    }
    EqualByEntries(Elems(c), Product(av, bv));
  }

  /** Reading a tile and writing it straight back leaves the matrix as it was. */
  method RestoreBlock(m: array2<int>, rowStart: nat, colStart: nat, blockSize: nat)
    requires rowStart + blockSize <= m.Length0 && colStart + blockSize <= m.Length1
    modifies m
    ensures Elems(m) == old(Elems(m))
  {
    ghost var m0 := Elems(m);
    var block := GetBlock(m, rowStart, colStart, blockSize);
    SetBlock(m, rowStart, colStart, block);
    UpdateSubRoundTrip(m0, rowStart, colStart, blockSize);
  }

  /** Two valid block sizes give the same result. */
  method BlockSizeInvariance(a: array2<int>, b: array2<int>, k1: nat, k2: nat)
    returns (c1: array2<int>, c2: array2<int>)
    requires a.Length0 == a.Length1 == b.Length0 == b.Length1
    requires k1 > 0 && a.Length0 % k1 == 0 && k2 > 0 && a.Length0 % k2 == 0
    ensures Elems(c1) == Elems(c2)
  {
    c1 := ParallelMatrixMultiply(a, b, k1);
    c2 := ParallelMatrixMultiply(a, b, k2);
  }

  /** With k = n there is a single tile, and the driver agrees with one dense product. */
  method SingleTile(a: array2<int>, b: array2<int>) returns (blocked: array2<int>, dense: array2<int>)
    requires a.Length0 == a.Length1 == b.Length0 == b.Length1 > 0
    ensures Elems(blocked) == Elems(dense)
  {
    blocked := ParallelMatrixMultiply(a, b, a.Length0);
    dense := MatrixMultiply(a, b);
  }
}
