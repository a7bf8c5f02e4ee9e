/** Facts about integer products and quotients that the solver does not find alone. */
module Arith {

  /** Multiplying by a non-negative factor keeps the order. */
  lemma MulMonoInt(a: int, b: int, c: int)
    ensures 0 <= c && a <= b ==> a * c <= b * c
  {
    if 0 <= c && a <= b {
      assert b * c == a * c + (b - a) * c;
    }
  }

  /** One more copy of `w`. */
  lemma MulSucc(n: int, w: int)
    ensures (n + 1) * w == n * w + w
  {
  }

  /** Multiplying by a positive factor keeps the strict order. */
  lemma MulStrictInt(a: int, b: int, c: int)
    ensures 0 < c && a < b ==> a * c < b * c
  {
    if 0 < c && a < b {
      MulMonoInt(1, b - a, c);
      assert b * c == a * c + (b - a) * c;
    }
  }

  /** Euclidean division by a positive divisor is monotone. */
  lemma DivMono(a: int, b: int, d: int)
    requires a <= b && 0 < d
    ensures a / d <= b / d
  {
    MulMonoInt(b / d + 1, a / d, d);
    assert (b / d + 1) * d == (b / d) * d + d;
  }

  /** `(q * d) / d == q` for a positive divisor. */
  lemma DivExact(q: int, d: int)
    requires 0 < d
    ensures (q * d) / d == q
  {
    var r := (q * d) / d;
    MulMonoInt(r + 1, q, d);
    MulMonoInt(q + 1, r, d);
    assert (r + 1) * d == r * d + d;
    assert (q + 1) * d == q * d + d;
  }

  /** The quotient is at least `q` once `q * d` fits under the dividend. */
  lemma DivLowerBound(x: int, q: int, d: int)
    requires 0 < d && q * d <= x
    ensures q <= x / d
  {
    MulMonoInt(x / d + 1, q, d);
    assert (x / d + 1) * d == (x / d) * d + d;
  }

  /** Integer products convert to real products. */
  lemma {:induction false} MulAsReal(a: int, b: nat)
    ensures (a * b) as real == (a as real) * (b as real)
  {
    if b > 0 {
      MulAsReal(a, b - 1);
      assert a * b == a * (b - 1) + a;
    }
  }

  /**
   * A real product kept behind a name: the solver rewrites `d * d > 0.0` into
   * `d != 0.0` and then loses the fact, so squares are formed through this.
   */
  function Product(a: real, b: real): real {
    a * b
  }

  /** Sign rules for a product. */
  lemma ProductSign(a: real, b: real)
    ensures a != 0.0 && b != 0.0 && (a < 0.0 <==> b < 0.0) ==> Product(a, b) > 0.0
    ensures (a >= 0.0 <==> b >= 0.0) ==> Product(a, b) >= 0.0
  {
  }
}
