/**
 * Value-level specification of the matrices the blocked multiplication works on.
 *
 * A matrix is a sequence of rows, addressed [row][column] from zero, exactly as the
 * JavaScript arrays of arrays it stands for. Entries are mathematical integers, so
 * every sum and product is exact and the order of accumulation does not matter.
 *
 * The specification functions read entries through `At`, which is total: a cell
 * outside the matrix reads as 0. The methods of BlockedMultiply only ever read cells
 * inside their matrices, so that convention never decides a result; it keeps the
 * functions below free of preconditions.
 */
module Matrices {

  type Matrix = seq<seq<int>>

  /** Entry (i, j) of `m`, or 0 when (i, j) lies outside `m`. */
  function At(m: Matrix, i: int, j: int): int
  {
    if 0 <= i < |m| && 0 <= j < |m[i]| then m[i][j] else 0
  }

  /** Every row of `m` has |m| entries: an n×n matrix with n = |m|. */
  predicate Square(m: Matrix)
  {
    forall i :: 0 <= i < |m| ==> |m[i]| == |m|
  }

  /** The width of a tile, read from its first row (zero for a tile without rows). */
  function Width(t: Matrix): nat
  {
    if |t| == 0 then 0 else |t[0]|
  }

  /**
   * Dot(a, b, i, j, lo, hi) is the partial sum of a[i][l] * b[l][j] for lo <= l < hi,
   * accumulated in increasing order of l (the last term is added last).
   */
  function Dot(a: Matrix, b: Matrix, i: int, j: int, lo: int, hi: int): int
    decreases hi - lo
  {
    if hi <= lo then 0 else Dot(a, b, i, j, lo, hi - 1) + At(a, i, hi - 1) * At(b, hi - 1, j)
  }

  /** The naive product: entry (i, j) is the full sum of a[i][l] * b[l][j] over l < n, n = |a|. */
  function Product(a: Matrix, b: Matrix): Matrix
  {
    seq(|a|, i => seq(|a|, j => Dot(a, b, i, j, 0, |a|)))
  }

  /** Entry-by-entry sum of two n×n matrices, n = |a|. */
  function Add(a: Matrix, b: Matrix): Matrix
  {
    seq(|a|, i => seq(|a|, j => At(a, i, j) + At(b, i, j)))
  }

  /** The k×k tile of `m` whose top-left corner is at (r, c). */
  function Sub(m: Matrix, r: int, c: int, k: nat): Matrix
  {
    seq(k, p => seq(k, q => At(m, r + p, c + q)))
  }

  /**
   * `m` with the tile `t` written over it at (r, c). The extent of the write is the
   * tile's own height |t| and width Width(t); the rest of `m` is kept.
   */
  function Update(m: Matrix, r: int, c: int, t: Matrix): Matrix
  {
    seq(|m|, x requires 0 <= x < |m| =>
      seq(|m[x]|, y => if r <= x < r + |t| && c <= y < c + Width(t) then At(t, x - r, y - c) else At(m, x, y)))
  }

  /** The n×n matrix of zeros. */
  function Zero(n: nat): Matrix
  {
    seq(n, i => seq(n, j => 0))
  }

  /** The n×n identity matrix. */
  function Identity(n: nat): Matrix
  {
    seq(n, i => seq(n, j => if i == j then 1 else 0))
  }

  /** Two matrices with the same shape and the same entries are equal. */
  lemma {:induction false} EqualByEntries(u: Matrix, v: Matrix)
    requires |u| == |v|
    requires forall x :: 0 <= x < |u| ==> |u[x]| == |v[x]|
    requires forall x, y :: 0 <= x < |u| && 0 <= y < |u[x]| ==> u[x][y] == v[x][y]
    ensures u == v
  {
    forall x | 0 <= x < |u|
      ensures u[x] == v[x]
    {
      assert forall y :: 0 <= y < |u[x]| ==> u[x][y] == v[x][y];
    }
  }

  /** A partial sum splits at any midpoint: the sum over [lo, hi) is [lo, mid) plus [mid, hi). */
  lemma {:induction false} DotSplit(a: Matrix, b: Matrix, i: int, j: int, lo: int, mid: int, hi: int)
    requires lo <= mid <= hi
    ensures Dot(a, b, i, j, lo, hi) == Dot(a, b, i, j, lo, mid) + Dot(a, b, i, j, mid, hi)
    decreases hi - mid
  {
    if mid < hi {
      DotSplit(a, b, i, j, lo, mid, hi - 1);
    }
  }

  /** DotSplit at every entry of an n×n result: each prefix sum [0, mid) extends by [mid, hi). */
  lemma DotExtend(a: Matrix, b: Matrix, n: nat, mid: int, hi: int)
    requires 0 <= mid <= hi
    ensures forall i, j :: 0 <= i < n && 0 <= j < n ==>
      Dot(a, b, i, j, 0, hi) == Dot(a, b, i, j, 0, mid) + Dot(a, b, i, j, mid, hi)
  {
    forall i, j | 0 <= i < n && 0 <= j < n
      ensures Dot(a, b, i, j, 0, hi) == Dot(a, b, i, j, 0, mid) + Dot(a, b, i, j, mid, hi)
    {
      DotSplit(a, b, i, j, 0, mid, hi);
    }
  }

  /**
   * The block identity behind tiling: for (x, y) inside the tile at (i, j), the full
   * product of the tile of `a` at (i, l) and the tile of `b` at (l, j), at the entry
   * that stands for (x, y), is the slice [l, l + k) of the sum that gives entry (x, y)
   * of the product of `a` and `b`.
   */
  lemma DotOfTiles(a: Matrix, b: Matrix, i: int, j: int, l: int, k: nat, x: int, y: int)
    requires i <= x < i + k && j <= y < j + k
    ensures Dot(Sub(a, i, l, k), Sub(b, l, j, k), x - i, y - j, 0, k) == Dot(a, b, x, y, l, l + k)
  {
    TilePrefix(a, b, i, j, l, k, x, y, k);
  }

  /** DotOfTiles for the first h terms of the tile sum. */
  lemma {:induction false} TilePrefix(a: Matrix, b: Matrix, i: int, j: int, l: int, k: nat, x: int, y: int, h: nat)
    requires i <= x < i + k && j <= y < j + k && h <= k
    ensures Dot(Sub(a, i, l, k), Sub(b, l, j, k), x - i, y - j, 0, h) == Dot(a, b, x, y, l, l + h)
  {
    if h > 0 {
      TilePrefix(a, b, i, j, l, k, x, y, h - 1);
    }
  }

  /**
   * Updating a tile keeps the shape and changes exactly the cells inside the tile:
   * there the entry comes from the tile, everywhere else the entry is the old one.
   */
  lemma UpdateAt(m: Matrix, r: int, c: int, t: Matrix, x: int, y: int)
    requires 0 <= x < |m| && 0 <= y < |m[x]|
    ensures |Update(m, r, c, t)| == |m| && |Update(m, r, c, t)[x]| == |m[x]|
    ensures r <= x < r + |t| && c <= y < c + Width(t) ==> Update(m, r, c, t)[x][y] == At(t, x - r, y - c)
    ensures !(r <= x < r + |t| && c <= y < c + Width(t)) ==> Update(m, r, c, t)[x][y] == m[x][y]
  {
  }

  /**
   * One read-modify-write of a tile of the accumulator `c`: the tile at (i, j) is
   * replaced by itself plus the product of the tile of `a` at (i, l) and the tile of `b`
   * at (l, j). The new tile is k×k, and the entry that stands for (x, y) inside it is
   * c[x][y] grown by the slice [l, l + k) of the product sum of entry (x, y).
   */
  lemma AccumulatedEntry(a: Matrix, b: Matrix, c: Matrix, i: int, j: int, l: int, k: nat, x: int, y: int)
    requires 0 <= x < |c| && 0 <= y < |c[x]|
    requires i <= x < i + k && j <= y < j + k
    ensures |Add(Sub(c, i, j, k), Product(Sub(a, i, l, k), Sub(b, l, j, k)))| == k
    ensures Width(Add(Sub(c, i, j, k), Product(Sub(a, i, l, k), Sub(b, l, j, k)))) == k
    ensures At(Add(Sub(c, i, j, k), Product(Sub(a, i, l, k), Sub(b, l, j, k))), x - i, y - j)
      == c[x][y] + Dot(a, b, x, y, l, l + k)
  {
    var sa, sb, sc := Sub(a, i, l, k), Sub(b, l, j, k), Sub(c, i, j, k);
    var pr := Product(sa, sb);
    var p, q := x - i, y - j;
    assert i + p == x && j + q == y;
    assert sc[p][q] == At(c, i + p, j + q) == At(c, x, y) == c[x][y];
    assert pr[p][q] == Dot(sa, sb, p, q, 0, k);
    DotOfTiles(a, b, i, j, l, k, x, y);
  }

  /** Writing back the tile just read leaves the matrix as it was. */
  lemma {:induction false} UpdateSubRoundTrip(m: Matrix, r: int, c: int, k: nat)
    ensures Update(m, r, c, Sub(m, r, c, k)) == m
  {
    var t := Sub(m, r, c, k);
    var u := Update(m, r, c, t);
    forall x, y | 0 <= x < |m| && 0 <= y < |m[x]|
      ensures u[x][y] == m[x][y]
    {
      UpdateAt(m, r, c, t, x, y);
      if r <= x < r + k && c <= y < c + k {
        assert Width(t) == k && t[x - r][y - c] == At(m, x, y);
      }
    }
    EqualByEntries(u, m);
  }
}
