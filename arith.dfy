/** Facts about integer multiplication and division that the grid geometry relies on. */
module Arith {
  lemma MulMonotone(a: int, b: int, s: int)
    requires a <= b && s >= 0
    ensures a * s <= b * s
  {
    assert b * s - a * s == (b - a) * s;
  }

  lemma MulAtLeast(n: int, size: int)
    requires n >= 0 && size > 0
    ensures n <= n * size
  {
  }

  lemma DivMulCancel(n: int, size: int)
    requires size > 0
    ensures n * size / size == n
  {
    var q := n * size / size;
    var r := n * size % size;
    assert (n - q) * size == r;
    if n - q >= 1 {
      MulMonotone(1, n - q, size);
    } else if n - q <= -1 {
      MulMonotone(n - q, -1, size);
    }
  }
}
