/** Facts about multiplication and division of naturals that the layout and
    partition proofs use. */
module Arith {

  lemma MulMonotone(a: nat, b: nat, c: nat)
    requires a <= b
    ensures a * c <= b * c
  {
  }

  lemma MulMonotoneIf(a: nat, b: nat, c: nat)
    ensures a <= b ==> a * c <= b * c
  {
    if a <= b {
      MulMonotone(a, b, c);
    }
  }

  lemma MulAtLeast(a: nat, k: int)
    requires 1 <= k
    ensures a <= a * k
  {
  }

  lemma MulDistributes(a: int, b: int, c: int)
    ensures a * (b + c) == a * b + a * c
  {
  }

  lemma MulSucc(a: nat, b: nat)
    ensures a * (b + 1) == a * b + a && (b + 1) * a == b * a + a
  {
  }

  /** An index in `[y * width, y * width + width)` has quotient y and
      remainder `i - y * width` by width. */
  lemma DivModByRow(i: int, width: nat, y: nat)
    requires y * width <= i < y * width + width
    ensures width > 0 && i / width == y && i % width == i - y * width
  {
    var q, m := i / width, i % width;
    assert i == width * q + m;
    if q > y {
      assert width * q - width * y == width * (q - y);
      MulAtLeast(width, q - y);
    } else if q < y {
      assert width * y - width * q == width * (y - q);
      MulAtLeast(width, y - q);
    }
  }
}
