/** Products used by the row-major index computations of the colour
    converter. `Mul` is multiplication written as a recursive function: the
    solver then sees a product of two variables only through the facts proved
    here, which keeps the index proofs of the converter small. */
module Arith {

  function Mul(a: int, b: int): int
    decreases if a < 0 then -a else a
  {
    if a == 0 then 0
    else if a > 0 then Mul(a - 1, b) + b
    else Mul(a + 1, b) - b
  }

  lemma {:induction false} MulIsProduct(a: int, b: int)
    ensures Mul(a, b) == a * b
    decreases if a < 0 then -a else a
  {
    if a > 0 {
      MulIsProduct(a - 1, b);
    } else if a < 0 {
      MulIsProduct(a + 1, b);
    }
  }

  lemma MulMonotone(a: int, b: int, c: int)
    requires 0 <= a <= b && 0 <= c
    ensures 0 <= Mul(a, c) <= Mul(b, c)
  {
    MulIsProduct(a, c);
    MulIsProduct(b, c);
    assert b * c - a * c == (b - a) * c;
  }

  lemma MulDistributes(a: int, b: int, c: int)
    ensures Mul(a + b, c) == Mul(a, c) + Mul(b, c)
  {
    MulIsProduct(a, c);
    MulIsProduct(b, c);
    MulIsProduct(a + b, c);
  }

  /** A row-major position (row, column) with column < w is unique. */
  lemma RowMajorUnique(r1: int, c1: int, r2: int, c2: int, w: int)
    requires 0 <= r1 && 0 <= r2 && 0 <= c1 < w && 0 <= c2 < w
    requires Mul(r1, w) + c1 == Mul(r2, w) + c2
    ensures r1 == r2 && c1 == c2
  {
    if r1 < r2 {
      MulMonotone(r1 + 1, r2, w);
      MulDistributes(r1, 1, w);
    } else if r2 < r1 {
      MulMonotone(r2 + 1, r1, w);
      MulDistributes(r2, 1, w);
    }
  }

  /** A position inside an h-row, w-column grid lies below h * w. */
  lemma RowMajorBound(r: int, c: int, w: int, h: int)
    requires 0 <= r < h && 0 <= c < w
    ensures 0 <= Mul(r, w) && Mul(r, w) + c < Mul(r, w) + w <= Mul(h, w)
  {
    MulMonotone(0, r, w);
    MulMonotone(r + 1, h, w);
    MulDistributes(r, 1, w);
  }
}
