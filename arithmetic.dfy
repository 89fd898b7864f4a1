/** Facts about products of naturals that the row and stride arithmetic of the codec rests on. */
module Arithmetic {

  /** Multiplying both sides of `a <= b` by the same natural keeps the order. */
  lemma MulLe(a: nat, b: nat, c: nat)
    requires a <= b
    ensures 0 <= a * c <= b * c
  {
    assert b * c == a * c + (b - a) * c;
  }

  /** Row `r` of a buffer of `h` rows of `n` bytes each ends inside the buffer. */
  lemma RowEnd(r: nat, h: nat, n: nat)
    requires r < h
    ensures 0 <= r * n && r * n + n <= n * h
  {
    MulLe(r + 1, h, n);
    assert (r + 1) * n == r * n + n;
  }

  /** Row `r + 1` starts where row `r` ends. */
  lemma NextRow(r: nat, n: nat)
    ensures (r + 1) * n == r * n + n
  {
  }

  /** The order of the last two factors of a product does not matter. */
  lemma MulSwap(a: nat, b: nat, c: nat)
    ensures a * b * c == a * c * b
  {
  }

  /** A product of naturals is a natural. */
  lemma MulNonNegative(a: nat, b: nat)
    ensures 0 <= a * b
  {
  }
}
