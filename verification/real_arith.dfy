/** Monotonicity of multiplication on reals, which the solver does not find on its own. */
module RealArith {

  /** Scaling by a non-negative factor keeps the order. */
  lemma MulLe(w: real, x: real, y: real)
    requires 0.0 <= w && x <= y
    ensures w * x <= w * y
    ensures x * w <= y * w
  {
    assert w * y - w * x == w * (y - x);
    assert w * (y - x) >= 0.0;
  }

  /** A non-negative weight times a value in `[-1, 1]` lies between `-w` and `w`, and is
      non-negative when the value is. */
  lemma MulUnit(w: real, x: real)
    requires 0.0 <= w && -1.0 <= x <= 1.0
    ensures -w <= w * x <= w
    ensures 0.0 <= x ==> 0.0 <= w * x
  {
    MulLe(w, x, 1.0);
    MulLe(w, -1.0, x);
    if 0.0 <= x {
      MulLe(w, 0.0, x);
    }
  }

  /** Scaling by a non-negative factor on the right keeps the order. */
  lemma ScaleLe(x: real, y: real, w: real)
    requires x <= y && 0.0 <= w
    ensures x * w <= y * w
  {
    MulLe(w, x, y);
  }

  /** A combination of a value in `[-1, 1]` and one in `[0, 1]` with non-negative weights of
      sum at most 1 lies in `[-w1, 1]`, and is non-negative when the first value is. */
  lemma ConvexSum(w1: real, w2: real, x: real, y: real)
    requires 0.0 <= w1 && 0.0 <= w2 && w1 + w2 <= 1.0
    requires -1.0 <= x <= 1.0 && 0.0 <= y <= 1.0
    ensures -w1 <= w1 * x + w2 * y <= 1.0
    ensures 0.0 <= x ==> 0.0 <= w1 * x + w2 * y
  {
    MulUnit(w1, x);
    MulUnit(w2, y);
    SumBounds(w1, w2, w1 * x, w2 * y);
  }

  /** Bounds on two parts give bounds on their sum. */
  lemma SumBounds(w1: real, w2: real, a: real, b: real)
    requires w1 + w2 <= 1.0 && -w1 <= a <= w1 && 0.0 <= b <= w2
    ensures -w1 <= a + b <= 1.0
    ensures 0.0 <= a ==> 0.0 <= a + b
  {
  }

  /** A share of a positive whole lies between 0 and 1. */
  lemma DivUnit(a: real, d: real)
    requires 0.0 < d && 0.0 <= a <= d
    ensures 0.0 <= a / d <= 1.0
  {
    var q := a / d;
    assert q * d == a;
  }

  /** Only the whole itself is all of the whole. */
  lemma DivOne(a: real, d: real)
    requires d != 0.0 && a / d == 1.0
    ensures a == d
  {
    assert a == (a / d) * d;
  }

  lemma DivSelf(x: real)
    requires x != 0.0
    ensures x / x == 1.0
  {
  }

  /** One more copy of `v`. */
  lemma MulSucc(k: real, v: real)
    ensures (k + 1.0) * v == k * v + v
  {
  }

  lemma MulNonZero(a: real, b: real)
    requires a != 0.0 && b != 0.0
    ensures a * b != 0.0
  {
  }
}
