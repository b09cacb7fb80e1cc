/** Row-major arithmetic facts shared by every grid of the model. */
module DivMod {

  /** Multiplication by a natural number is monotonic. */
  lemma MulLe(a: int, b: int, c: nat)
    ensures a <= b ==> a * c <= b * c
  {
    assert b * c == a * c + (b - a) * c;
  }

  /** A non-zero multiple of `c` is at least `c` away from zero. */
  lemma MulAwayFromZero(k: int, c: nat)
    ensures k >= 1 ==> k * c >= c
    ensures k <= -1 ==> k * c <= -(c as int)
  {
    MulLe(1, k, c);
    MulLe(k, -1, c);
  }

  /** Euclidean division of a natural number by a positive one. */
  lemma DivModSplit(n: nat, c: nat)
    requires c > 0
    ensures n == (n / c) * c + n % c && 0 <= n % c < c && n / c >= 0
  {
  }

  /** The quotient and remainder of `q * c + r` by `c` are `q` and `r` when `r < c`. */
  lemma DivModOfRowMajor(q: nat, r: nat, c: nat)
    requires r < c
    ensures (q * c + r) / c == q
    ensures (q * c + r) % c == r
  {
    var n := q * c + r;
    DivModSplit(n, c);
    var q', r' := n / c, n % c;
    assert (q - q') * c == r' - r;
    MulAwayFromZero(q - q', c);
  }

  /** A row-major index `y * c + x` with `x < c` and `y < l` is below `c * l`. */
  lemma RowMajorBound(x: nat, y: nat, c: nat, l: nat)
    requires x < c && y < l
    ensures y * c + x < c * l
  {
    MulLe(y + 1, l, c);
    assert (y + 1) * c == y * c + c;
  }

  /** Every index below `c * l` splits into a row below `l` and a column below `c`. */
  lemma RowMajorSplit(i: nat, c: nat, l: nat)
    requires i < c * l
    ensures c > 0 && i / c < l && i % c < c
    ensures (i / c) * c + i % c == i
  {
    DivModSplit(i, c);
    MulLe(l, i / c, c);
  }
}
