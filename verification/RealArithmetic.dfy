/**
 * Signs of products and squares of exact numbers.
 */
module RealArithmetic {

  function Squared(d: real): real {
    d * d
  }

  lemma SquaredEitherWay(p: real, q: real)
    ensures Squared(p - q) == Squared(q - p)
  {
  }

  /** Named operands keep the solver from normalising the square away. */
  lemma SquareSign(d: real, e: real, square: real)
    requires d == e && square == d * e
    ensures square >= 0.0
    ensures square == 0.0 <==> d == 0.0
  {
    if d < 0.0 {
      assert (-d) * (-e) > 0.0;
      assert (-d) * (-e) == d * e;
    } else if d > 0.0 {
      assert d * e > 0.0;
    } else {
      assert d * e == 0.0;
    }
  }

  lemma AddSquare(rest: real, d: real, square: real)
    requires rest >= 0.0 && square == d * d
    ensures rest + square >= 0.0
    ensures rest + square == 0.0 <==> rest == 0.0 && d == 0.0
  {
    SquareSign(d, d, square);
  }

  lemma ProductSign(d: real, p: real)
    requires p > 0.0
    ensures d > 0.0 ==> d * p > 0.0
    ensures d < 0.0 ==> d * p < 0.0
    ensures d == 0.0 ==> d * p == 0.0
  {
  }
}
