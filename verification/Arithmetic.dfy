/** Products and quotients of reals, named so that proofs can hide the multiplication, and repeated
    addition of naturals. */
module Arithmetic {

  function Abs(x: real): real { if x < 0.0 then -x else x }

  function Product(x: real, y: real): real { x * y }

  function Ratio(part: real, whole: real): (ratio: real)
    requires whole != 0.0
    ensures Product(ratio, whole) == part
  {
    part / whole
  }

  /** `n` pieces of `size`. */
  function Span(n: nat, size: nat): nat {
    if n == 0 then 0 else Span(n - 1, size) + size
  }

  lemma ProductPositive(x: real, y: real)
    requires x > 0.0 && y > 0.0
    ensures Product(x, y) > 0.0
  {
  }

  /** A larger factor gives a larger product. */
  lemma ProductGrows(x: real, y: real, z: real)
    requires x <= y && z >= 0.0
    ensures Product(z, x) <= Product(z, y) && Product(x, z) <= Product(y, z)
  {
  }

  lemma ProductStrict(x: real, y: real, z: real)
    requires z > 0.0
    ensures x < y ==> Product(x, z) < Product(y, z)
  {
  }

  /** A positive factor keeps the order. */
  lemma ProductOrder(x: real, y: real, z: real)
    requires z > 0.0
    ensures x <= y <==> Product(x, z) <= Product(y, z)
  {
    if x <= y {
      ProductGrows(x, y, z);
    } else {
      ProductStrict(y, x, z);
    }
  }

  lemma ProductMonotone(x: real, y: real, x': real, y': real)
    requires 0.0 <= x <= x' && 0.0 <= y <= y'
    ensures 0.0 <= Product(x, y) <= Product(x', y')
  {
    assert x * y <= x' * y <= x' * y';
  }
}
