/** Facts about products and quotients of reals that the solver needs to be told. */
module RealMath {
  lemma MulMono(a: real, b: real, c: real)
    requires a <= b && c >= 0.0
    ensures a * c <= b * c
    ensures a < b && c > 0.0 ==> a * c < b * c
  {
  }

  lemma SumMono(a1: real, b1: real, a2: real, b2: real, c: real, d: real)
    requires a1 <= b1 && a2 <= b2 && c >= 0.0 && d >= 0.0
    ensures a1 * c + a2 * d <= b1 * c + b2 * d
  {
    MulMono(a1, b1, c);
    MulMono(a2, b2, d);
  }

  lemma Distribute(a: real, b: real, c: real)
    ensures a * (b + c) == a * b + a * c
  {
  }

  lemma MulCancel(a: real, b: real, c: real)
    requires c > 0.0 && a * c <= b * c
    ensures a <= b
  {
    assert (b - a) * c >= 0.0;
  }

  lemma ProductSign(a: real, b: real)
    requires a >= 0.0 && b > 0.0
    ensures a * b >= 0.0
    ensures a > 0.0 <==> a * b > 0.0
  {
  }

  lemma ZeroProduct(x: real, a: real)
    requires a != 0.0
    ensures x * a == 0.0 <==> x == 0.0
  {
    assert x > 0.0 && a > 0.0 ==> x * a > 0.0;
    assert x > 0.0 && a < 0.0 ==> x * -a > 0.0;
    assert x < 0.0 && a > 0.0 ==> -x * a > 0.0;
    assert x < 0.0 && a < 0.0 ==> -x * -a > 0.0;
  }

  // A quotient lies where its numerator lies in units of its denominator.
  lemma DivWithin(x: real, c: real, lo: real, hi: real)
    requires c > 0.0 && lo * c <= x <= hi * c
    ensures x / c * c == x && lo <= x / c <= hi
  {
    var q := x / c;
    assert q * c == x;
    assert q < lo ==> q * c < lo * c;
    assert q > hi ==> q * c > hi * c;
  }

  lemma DivMono(a: real, b: real, c: real)
    requires a <= b && c > 0.0
    ensures a / c <= b / c
  {
    assert b / c - a / c == (b - a) / c;
  }
}
