/**
 * Pixel coordinates and the integer arithmetic the recognizer does on them.
 */
module Geometry {

  /** A pixel position: column x, row y. */
  datatype Coord = Coord(x: int, y: int)

  /** The four 4-neighbours of a pixel. */
  function West(c: Coord): Coord { Coord(c.x - 1, c.y) }
  function East(c: Coord): Coord { Coord(c.x + 1, c.y) }
  function North(c: Coord): Coord { Coord(c.x, c.y - 1) }
  function South(c: Coord): Coord { Coord(c.x, c.y + 1) }

  /** 4-adjacency: d is one step left, right, up or down from c. */
  predicate Adjacent(c: Coord, d: Coord) {
    d == West(c) || d == East(c) || d == North(c) || d == South(c)
  }

  /** Column-major scan order, as the extractor walks the mask (x outer, y inner). */
  predicate ScanBefore(c: Coord, d: Coord) {
    c.x < d.x || (c.x == d.x && c.y < d.y)
  }

  /**
   * Squared Euclidean distance, computed exactly on integers (the source goes
   * through Math.Pow on doubles, which is exact for the magnitudes involved).
   */
  function SquaredEuclidDist(a: Coord, b: Coord): (r: int)
    ensures r >= 0
    ensures r == 0 <==> a == b
  {
    (a.x - b.x) * (a.x - b.x) + (a.y - b.y) * (a.y - b.y)
  }

  /**
   * Division as C# does it on `long`: the quotient is truncated toward zero,
   * so the remainder takes the sign of the dividend.
   */
  function TruncDiv(n: int, d: int): (q: int)
    requires d > 0
    ensures n >= 0 ==> 0 <= n - q * d < d
    ensures n < 0 ==> -d < n - q * d <= 0
  {
    if n >= 0 then n / d else -((-n) / d)
  }

  /** Multiplying by a non-negative factor keeps an inequality. */
  lemma MulMono(a: int, b: int, d: int)
    requires a <= b && d >= 0
    ensures a * d <= b * d
  {
    assert b * d - a * d == (b - a) * d;
  }

  /** A quotient of a value between lo·d and hi·d lies between lo and hi. */
  lemma TruncDivBetween(n: int, d: int, lo: int, hi: int)
    requires d > 0 && lo * d <= n <= hi * d
    ensures lo <= TruncDiv(n, d) <= hi
  {
    var q := TruncDiv(n, d);
    assert (q + 1) * d == q * d + d;
    assert (q - 1) * d == q * d - d;
    assert (hi + 1) * d == hi * d + d;
    if q > hi {
      MulMono(hi + 1, q, d);
    }
    if q < lo {
      MulMono(q + 1, lo, d);
    }
  }

  /** A subset is no larger than its superset. */
  lemma SubsetCard<T>(a: set<T>, b: set<T>)
    requires a <= b
    ensures |a| <= |b|
  {
    assert b == a + (b - a);
  }
}
