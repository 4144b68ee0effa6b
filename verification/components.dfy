/**
 * A connected component ("segment") of the mask and the values derived from
 * its pixel list: a truncated centroid and a bounding-box width and height.
 */
module Components {
  import opened Geometry

  /** Range of the C# `int` that the pixel coordinates and the min/max sentinels have. */
  const IntMin: int := -0x8000_0000
  const IntMax: int := 0x7fff_ffff

  /** The x and the y coordinates of a pixel list. */
  function Xs(pixels: seq<Coord>): (xs: seq<int>)
    ensures |xs| == |pixels| && forall i :: 0 <= i < |pixels| ==> xs[i] == pixels[i].x
  {
    seq(|pixels|, i requires 0 <= i < |pixels| => pixels[i].x)
  }

  function Ys(pixels: seq<Coord>): (ys: seq<int>)
    ensures |ys| == |pixels| && forall i :: 0 <= i < |pixels| ==> ys[i] == pixels[i].y
  {
    seq(|pixels|, i requires 0 <= i < |pixels| => pixels[i].y)
  }

  function SumOf(s: seq<int>): int {
    if |s| == 0 then 0 else SumOf(s[..|s| - 1]) + s[|s| - 1]
  }

  function MinOf(s: seq<int>): int
    requires |s| > 0
  {
    if |s| == 1 then s[0]
    else
      var m := MinOf(s[..|s| - 1]);
      if s[|s| - 1] < m then s[|s| - 1] else m
  }

  function MaxOf(s: seq<int>): int
    requires |s| > 0
  {
    if |s| == 1 then s[0]
    else
      var m := MaxOf(s[..|s| - 1]);
      if s[|s| - 1] > m then s[|s| - 1] else m
  }

  /**
   * MinOf and MaxOf are the extremes of a non-empty sequence: both are
   * elements of it, and every element lies between them.
   */
  lemma {:induction false} ExtremesBound(s: seq<int>)
    requires |s| > 0
    ensures MinOf(s) in s && MaxOf(s) in s
    ensures forall i :: 0 <= i < |s| ==> MinOf(s) <= s[i] <= MaxOf(s)
  {
    if |s| > 1 {
      var t := s[..|s| - 1];
      ExtremesBound(t);
      assert forall i :: 0 <= i < |t| ==> s[i] == t[i];
    }
  }

  /** The running extremes of a prefix, one element further. */
  lemma ExtremesStep(s: seq<int>, i: nat)
    requires i < |s|
    ensures i == 0 ==> MinOf(s[..i + 1]) == s[i] == MaxOf(s[..i + 1])
    ensures i > 0 ==> MinOf(s[..i + 1]) == (if s[i] < MinOf(s[..i]) then s[i] else MinOf(s[..i]))
    ensures i > 0 ==> MaxOf(s[..i + 1]) == (if s[i] > MaxOf(s[..i]) then s[i] else MaxOf(s[..i]))
    ensures SumOf(s[..i + 1]) == SumOf(s[..i]) + s[i]
  {
    assert s[..i + 1][..i] == s[..i];
  }

  /** The mean of a non-empty sequence, truncated toward zero as C# `long` division does. */
  function TruncMean(s: seq<int>): int
    requires |s| > 0
  {
    TruncDiv(SumOf(s), |s|)
  }

  predicate InIntRange(pixels: seq<Coord>) {
    forall i :: 0 <= i < |pixels| ==> IntMin <= pixels[i].x <= IntMax && IntMin <= pixels[i].y <= IntMax
  }

  class ConnComp {
    var centX: int
    var centY: int
    var width: int
    var height: int
    var cluster: int
    var pixels: seq<Coord>

    /** A fresh component: no pixels, every number at the C# default of 0. */
    constructor ()
      ensures pixels == [] && centX == 0 && centY == 0 && width == 0 && height == 0 && cluster == 0
    {
      pixels := [];
      centX, centY, width, height, cluster := 0, 0, 0, 0, 0;
    }

    /** The derived values agree with the pixel list (the state CalcValues leaves). */
    ghost predicate HasValues()
      reads `pixels, `centX, `centY, `width, `height
    {
      && |pixels| > 0
      && centX == TruncMean(Xs(pixels))
      && centY == TruncMean(Ys(pixels))
      && width == MaxOf(Xs(pixels)) - MinOf(Xs(pixels))
      && height == MaxOf(Ys(pixels)) - MinOf(Ys(pixels))
    }

    /**
     * One pass over the pixels with running sums and running extremes seeded
     * with int.MaxValue / int.MinValue, then the four fields are written.
     */
    method CalcValues()
      requires |pixels| > 0 && InIntRange(pixels)
      modifies this
      ensures HasValues()
      ensures pixels == old(pixels) && cluster == old(cluster)
    {
      var x, y := 0, 0;
      var minX, maxX, minY, maxY := IntMax, IntMin, IntMax, IntMin;
      ghost var xs, ys := Xs(pixels), Ys(pixels);
      var i := 0;
      while i < |pixels|
        invariant 0 <= i <= |pixels| && unchanged(this)
        invariant x == SumOf(xs[..i]) && y == SumOf(ys[..i])
        invariant i == 0 ==> minX == IntMax && maxX == IntMin && minY == IntMax && maxY == IntMin
        invariant i > 0 ==> minX == MinOf(xs[..i]) && maxX == MaxOf(xs[..i])
        invariant i > 0 ==> minY == MinOf(ys[..i]) && maxY == MaxOf(ys[..i])
      {
        var pixel := pixels[i];
        ExtremesStep(xs, i);
        ExtremesStep(ys, i);
        assert xs[i] == pixel.x && ys[i] == pixel.y;
        assert IntMin <= pixel.x <= IntMax && IntMin <= pixel.y <= IntMax;
        x := x + pixel.x;
        y := y + pixel.y;
        if pixel.x < minX {
          minX := pixel.x;
        }
        if pixel.x > maxX {
          maxX := pixel.x;
        }
        assert minX == MinOf(xs[..i + 1]) && maxX == MaxOf(xs[..i + 1]);
        if pixel.y < minY {
          minY := pixel.y;
        }
        if pixel.y > maxY {
          maxY := pixel.y;
        }
        assert minY == MinOf(ys[..i + 1]) && maxY == MaxOf(ys[..i + 1]);
        i := i + 1;
      }
      assert xs[..i] == xs && ys[..i] == ys;
      assert x == SumOf(xs) && y == SumOf(ys);
      assert minX == MinOf(xs) && maxX == MaxOf(xs) && minY == MinOf(ys) && maxY == MaxOf(ys);
      centX := TruncDiv(x, |pixels|);
      centY := TruncDiv(y, |pixels|);
      width := maxX - minX;
      height := maxY - minY;
    }
  }

  lemma {:induction false} SumBounds(s: seq<int>, lo: int, hi: int)
    requires forall i :: 0 <= i < |s| ==> lo <= s[i] <= hi
    ensures lo * |s| <= SumOf(s) <= hi * |s|
  {
    if |s| > 0 {
      var n := |s| - 1;
      assert forall i :: 0 <= i < n ==> s[..n][i] == s[i];
      SumBounds(s[..n], lo, hi);
      assert SumOf(s) == SumOf(s[..n]) + s[n] && lo <= s[n] <= hi;
      assert lo * |s| == lo * n + lo && hi * |s| == hi * n + hi;
    }
  }

  /**
   * The truncated centroid of a non-empty pixel list lies inside its bounding
   * box, and the box has non-negative width and height.
   */
  lemma CentroidInsideBox(pixels: seq<Coord>)
    requires |pixels| > 0
    ensures MinOf(Xs(pixels)) <= TruncMean(Xs(pixels)) <= MaxOf(Xs(pixels))
    ensures MinOf(Ys(pixels)) <= TruncMean(Ys(pixels)) <= MaxOf(Ys(pixels))
    ensures MaxOf(Xs(pixels)) - MinOf(Xs(pixels)) >= 0
    ensures MaxOf(Ys(pixels)) - MinOf(Ys(pixels)) >= 0
  {
    var xs, ys := Xs(pixels), Ys(pixels);
    ExtremesBound(xs);
    ExtremesBound(ys);
    SumBounds(xs, MinOf(xs), MaxOf(xs));
    TruncDivBetween(SumOf(xs), |xs|, MinOf(xs), MaxOf(xs));
    SumBounds(ys, MinOf(ys), MaxOf(ys));
    TruncDivBetween(SumOf(ys), |ys|, MinOf(ys), MaxOf(ys));
  }
}
