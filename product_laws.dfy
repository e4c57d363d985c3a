/**
 * Algebraic laws of the naive product that the blocked driver is proved equal to:
 * the identity matrix is a unit on both sides, the zero matrix absorbs on both sides,
 * and the standard 2×2 example comes out as expected.
 */
module ProductLaws {
  import opened Matrices

  /** Against the identity on the right, the first h terms pick out a[i][j] iff j < h. */
  lemma {:induction false} DotIdentityRight(a: Matrix, i: nat, j: nat, h: nat)
    requires Square(a) && i < |a| && j < |a| && h <= |a|
    ensures Dot(a, Identity(|a|), i, j, 0, h) == if j < h then a[i][j] else 0
  {
    if h > 0 {
      DotIdentityRight(a, i, j, h - 1);
    }
  }

  /** Against the identity on the left, the first h terms pick out a[i][j] iff i < h. */
  lemma {:induction false} DotIdentityLeft(a: Matrix, i: nat, j: nat, h: nat)
    requires Square(a) && i < |a| && j < |a| && h <= |a|
    ensures Dot(Identity(|a|), a, i, j, 0, h) == if i < h then a[i][j] else 0
  {
    if h > 0 {
      DotIdentityLeft(a, i, j, h - 1);
    }
  }

  /** The identity matrix is a unit for the product on both sides. */
  lemma ProductIdentity(a: Matrix)
    requires Square(a)
    ensures Product(a, Identity(|a|)) == a
    ensures Product(Identity(|a|), a) == a
  {
    var n := |a|;
    forall i, j | 0 <= i < n && 0 <= j < n
      ensures Product(a, Identity(n))[i][j] == a[i][j]
      ensures Product(Identity(n), a)[i][j] == a[i][j]
    {
      DotIdentityRight(a, i, j, n);
      DotIdentityLeft(a, i, j, n);
    }
    EqualByEntries(Product(a, Identity(n)), a);
    EqualByEntries(Product(Identity(n), a), a);
  }

  /** Every partial sum against a zero factor, on either side, is zero. */
  lemma {:induction false} DotZero(a: Matrix, i: nat, j: nat, h: nat)
    requires Square(a) && i < |a| && j < |a| && h <= |a|
    ensures Dot(a, Zero(|a|), i, j, 0, h) == 0
    ensures Dot(Zero(|a|), a, i, j, 0, h) == 0
  {
    if h > 0 {
      DotZero(a, i, j, h - 1);
    }
  }

  /** The zero matrix absorbs the product on both sides. */
  lemma ProductZero(a: Matrix)
    requires Square(a)
    ensures Product(a, Zero(|a|)) == Zero(|a|)
    ensures Product(Zero(|a|), a) == Zero(|a|)
  {
    var n := |a|;
    forall i, j | 0 <= i < n && 0 <= j < n
      ensures Product(a, Zero(n))[i][j] == 0
      ensures Product(Zero(n), a)[i][j] == 0
    {
      DotZero(a, i, j, n);
    }
    EqualByEntries(Product(a, Zero(n)), Zero(n));
    EqualByEntries(Product(Zero(n), a), Zero(n));
  }

  /** [[1, 2], [3, 4]] times [[5, 6], [7, 8]] is [[19, 22], [43, 50]]. */
  lemma TwoByTwoExample()
    ensures Product([[1, 2], [3, 4]], [[5, 6], [7, 8]]) == [[19, 22], [43, 50]]
  {
    var a: Matrix := [[1, 2], [3, 4]];
    var b: Matrix := [[5, 6], [7, 8]];
    assert Dot(a, b, 0, 0, 0, 2) == 19 && Dot(a, b, 0, 1, 0, 2) == 22;
    assert Dot(a, b, 1, 0, 0, 2) == 43 && Dot(a, b, 1, 1, 0, 2) == 50;
    EqualByEntries(Product(a, b), [[19, 22], [43, 50]]);
  }
}
