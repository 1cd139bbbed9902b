/** Facts about multiples that the bucket and grid arithmetic rests on. */
module Arithmetic {
  lemma ProductSign(n: int, w: int)
    requires w > 0
    ensures n >= 0 ==> n * w >= 0
    ensures n <= 0 ==> n * w <= 0
  {
  }

  /** Quotient and remainder are the only ones. */
  lemma DivUnique(a: int, w: int, q: int, r: int)
    requires w > 0 && a == q * w + r && 0 <= r < w
    ensures a / w == q && a % w == r
  {
    var p, s := a / w, a % w;
    assert a == p * w + s;
    assert (q - p) * w == s - r;
    ProductSign(q - p - 1, w);
    ProductSign(p - q - 1, w);
  }

  /** Two multiples of w differ by at least w. */
  lemma MultiplesStepByWidth(a: int, b: int, w: int)
    requires w > 0 && a % w == 0 && b % w == 0
    ensures b < a ==> b + w <= a
  {
    var n := a / w - b / w;
    assert a - b == n * w by {
      assert a == a / w * w && b == b / w * w;
    }
    ProductSign(n, w);
    ProductSign(n - 1, w);
  }
}
