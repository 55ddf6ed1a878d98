/**
 * Facts about Euclidean division and multiplication that the flat-index
 * reasoning of the image code needs.  Dafny's `/` and `%` agree with C's
 * here because every dividend they are applied to is non-negative.
 */
module Arith {

  function Min(a: int, b: int): (m: int)
    ensures m <= a && m <= b && (m == a || m == b)
  {
    if a < b then a else b
  }

  function Max(a: int, b: int): (m: int)
    ensures m >= a && m >= b && (m == a || m == b)
  {
    if a > b then a else b
  }

  lemma MulAtLeast(a: int, d: int)
    requires a >= 1 && d > 0
    ensures a * d >= d
  {
    assert a * d == (a - 1) * d + d;
  }

  lemma MulMonotone(a: int, b: int, d: int)
    requires a <= b && d >= 0
    ensures a * d <= b * d
  {
    assert b * d == a * d + (b - a) * d;
  }

  /** Quotient and remainder are unique. */
  lemma DivModUnique(n: int, d: int, q: int, r: int)
    requires d > 0 && 0 <= r < d && n == q * d + r
    ensures n / d == q && n % d == r
  {
    var q', r' := n / d, n % d;
    assert (q - q') * d == r' - r;
    if q > q' {
      MulAtLeast(q - q', d);
    } else if q < q' {
      MulAtLeast(q' - q, d);
    }
  }

  /** Row and column of a flat row-major index. */
  lemma FlatIndex(row: int, col: int, width: int)
    requires width > 0 && 0 <= col < width
    ensures (row * width + col) / width == row
    ensures (row * width + col) % width == col
  {
    DivModUnique(row * width + col, width, row, col);
  }

  /** A flat index row * width + col with an in-range column is in [0, width * height) iff its row is in [0, height). */
  lemma FlatIndexInImage(row: int, col: int, width: int, height: int)
    requires width > 0 && 0 <= col < width && height >= 0
    ensures 0 <= row * width + col < width * height <==> 0 <= row < height
  {
    if row < 0 {
      MulAtLeast(-row, width);
      assert row * width == -((-row) * width);
    } else if row >= height {
      MulMonotone(height, row, width);
    } else {
      MulMonotone(row + 1, height, width);
      assert (row + 1) * width == row * width + width;
    }
  }

  /** Taking one divisor away from a dividend at least as large takes one from the quotient. */
  lemma DivStep(a: int, d: int)
    requires d > 0 && a >= d
    ensures a / d == (a - d) / d + 1
  {
    var q, r := (a - d) / d, (a - d) % d;
    assert (q + 1) * d == q * d + d;
    DivModUnique(a, d, q + 1, r);
  }

  /**
   * Splitting n >= g * g into steps of q = n / g gives exactly g steps, and the
   * last, starting at (g - 1) * q, is q + n % g long.
   */
  lemma WideQuotient(n: int, g: int)
    requires g >= 1 && n >= g * g
    ensures n / g >= g
    ensures n / (n / g) == g
    ensures n - (g - 1) * (n / g) == n / g + n % g
  {
    var q, r := n / g, n % g;
    assert n == q * g + r;
    if q < g {
      MulMonotone(q + 1, g, g);
    }
    DivModUnique(n, q, g, r);
    assert (g - 1) * q == g * q - q;
  }

  /** A flat index below width * height has a row below height and a column below width. */
  lemma PixelRowCol(u: int, width: int, height: int)
    requires 0 <= u < width * height && width >= 0 && height >= 0
    ensures width > 0 && 0 <= u / width < height && 0 <= u % width < width
    ensures u == u / width * width + u % width
  {
    FlatIndexInImage(u / width, u % width, width, height);
  }

  /** An index below count * width is a row below count and a column below width. */
  lemma SlotOf(k: int, width: int, count: int)
    requires 0 <= k < count * width && width >= 0 && count >= 0
    ensures width > 0 && 0 <= k / width < count && 0 <= k % width < width
    ensures k == k / width * width + k % width
  {
    assert count * width == width * count;
    PixelRowCol(k, width, count);
  }
}
