/**
 * The black-and-white mask: one boolean per pixel, true where the pixel
 * belongs to a digit. The decoder delivers the pixels row by row; each is
 * already classified as dark (grey level under the threshold) or not, and
 * the mask stores that flag exclusive-or'ed with whether the digits are the
 * lighter part of the picture.
 */
module Mask {
  import opened Geometry
  import opened Connectivity

  /** The digits are lighter than the background, so light pixels are foreground. */
  const DigitsAreLighter := true

  /** The row-major index of pixel (x, y) lies inside a width-by-height picture. */
  lemma RowMajorInside(x: int, y: int, width: int, height: int)
    requires 0 <= x < width && 0 <= y < height
    ensures 0 <= y * width + x < width * height
  {
    MulMono(y + 1, height, width);
    assert (y + 1) * width == y * width + width;
    MulMono(0, y, width);
  }

  /** The walk has passed every row once its index reaches width * height. */
  lemma WalkDone(x: int, y: int, width: int, height: int)
    requires 0 <= x < width && 0 <= y && 0 <= height && y * width + x == width * height
    ensures y == height && x == 0
  {
    assert (y + 1) * width == y * width + width;
    assert (height + 1) * width == height * width + width;
    if y < height {
      MulMono(y + 1, height, width);
    } else if y > height {
      MulMono(height + 1, y, width);
    }
  }

  /** A pixel at row-major index i < width * height lies on a row below height. */
  lemma RowInside(i: int, x: int, y: int, width: int, height: int)
    requires 0 <= x && 0 <= y && width > 0 && i == y * width + x && i < width * height
    ensures y < height
  {
    if y >= height {
      MulMono(height, y, width);
    }
  }

  /** The dark flag of pixel (x, y), the one at row-major index y * width + x. */
  function Dark(dark: seq<bool>, width: nat, height: nat, x: int, y: int): bool
    requires |dark| == width * height && 0 <= x < width && 0 <= y < height
  {
    RowMajorInside(x, y, width, height);
    dark[y * width + x]
  }

  /** The digit cells of the picture: those whose dark flag differs from DigitsAreLighter. */
  ghost function MaskForeground(dark: seq<bool>, width: nat, height: nat): (f: set<Coord>)
    requires |dark| == width * height
    ensures forall c {:trigger c in f} :: c in f <==>
      0 <= c.x < width && 0 <= c.y < height && Dark(dark, width, height, c.x, c.y) != DigitsAreLighter
  {
    set c | c in Grid(width, height) && Dark(dark, width, height, c.x, c.y) != DigitsAreLighter
  }

  /**
   * Walks the pixels in decoder order with a column x and a row y: x moves
   * right until the last column, then returns to 0 as y moves down. The
   * mask cell of each pixel is its dark flag exclusive-or'ed with
   * DigitsAreLighter, so the mask's foreground is the picture's digit cells.
   */
  method BuildMask(dark: seq<bool>, width: nat, height: nat) returns (mask: array2<bool>)
    requires |dark| == width * height
    ensures fresh(mask) && mask.Length0 == width && mask.Length1 == height
    ensures forall x, y :: 0 <= x < width && 0 <= y < height ==>
      mask[x, y] == (Dark(dark, width, height, x, y) != DigitsAreLighter)
    ensures Foreground(mask) == MaskForeground(dark, width, height)
  {
    mask := new bool[width, height];
    var x, y := 0, 0;
    for i := 0 to |dark|
      invariant 0 <= x && 0 <= y && i == y * width + x && (width > 0 ==> x < width)
      invariant forall x', y' :: 0 <= x' < width && 0 <= y' < height && (y' < y || (y' == y && x' < x)) ==>
        mask[x', y'] == (Dark(dark, width, height, x', y') != DigitsAreLighter)
    {
      RowInside(i, x, y, width, height);
      mask[x, y] := dark[i] != DigitsAreLighter;
      if x < width - 1 {
        x := x + 1;
      } else {
        assert (y + 1) * width == y * width + width;
        x := 0;
        y := y + 1;
      }
    }
    if width > 0 {
      WalkDone(x, y, width, height);
    }
    assert forall c :: c in Foreground(mask) <==> c in MaskForeground(dark, width, height);
  }
}
