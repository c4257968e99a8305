/** The pixel-difference tamper analyser of test_mask_simple.py: compare a
    submitted image with the stored watermarked one pixel by pixel, call a
    pixel tampered when its RGB difference is longer than 10, report the
    share of tampered pixels as a percentage and paint a red, half-opaque
    RGBA overlay over them.

    Images are grids of rows (`pixels[row][column]`). The Euclidean length
    test `sqrt(dr^2 + dg^2 + db^2) > 10` is stated on integers as
    `dr^2 + dg^2 + db^2 > 100`, which holds for exactly the same pixels. */
module TamperMask {
  import opened Common

  datatype Rgb = Rgb(r: int, g: int, b: int)

  datatype Rgba = Rgba(r: int, g: int, b: int, a: int)

  type Grid = seq<seq<Rgb>>

  /** A decoded image: its size and its pixels after conversion to RGB. */
  datatype DecodedImage = DecodedImage(height: nat, width: nat, pixels: Grid)

  predicate IsByte(x: int)
  {
    0 <= x < 256
  }

  predicate IsRgbPixel(p: Rgb)
  {
    IsByte(p.r) && IsByte(p.g) && IsByte(p.b)
  }

  predicate IsGrid(g: Grid, height: nat, width: nat)
  {
    |g| == height && forall i :: 0 <= i < height ==> |g[i]| == width
  }

  predicate WellFormed(img: DecodedImage)
  {
    IsGrid(img.pixels, img.height, img.width)
    && forall i, j :: 0 <= i < img.height && 0 <= j < img.width ==> IsRgbPixel(img.pixels[i][j])
  }

  predicate SameShape(a: Grid, b: Grid)
  {
    |a| == |b| && forall i :: 0 <= i < |a| ==> |a[i]| == |b[i]|
  }

  /** The fixed difference threshold (not configurable by callers). */
  const Threshold: nat := 10

  function SquaredDistance(p: Rgb, q: Rgb): nat
  {
    (p.r - q.r) * (p.r - q.r) + (p.g - q.g) * (p.g - q.g) + (p.b - q.b) * (p.b - q.b)
  }

  /** The difference magnitude exceeds the threshold, strictly. */
  predicate Tampered(p: Rgb, q: Rgb)
  {
    SquaredDistance(p, q) > Threshold * Threshold
  }

  const TamperedColour: Rgba := Rgba(255, 0, 0, 180)
  const Transparent: Rgba := Rgba(0, 0, 0, 0)

  function MaskPixel(p: Rgb, q: Rgb): Rgba
  {
    if Tampered(p, q) then TamperedColour else Transparent
  }

  /** Number of tampered positions in one row. */
  function RowCount(a: seq<Rgb>, b: seq<Rgb>): nat
    requires |a| == |b|
  {
    if |a| == 0 then 0
    else RowCount(a[..|a| - 1], b[..|b| - 1]) + (if Tampered(a[|a| - 1], b[|b| - 1]) then 1 else 0)
  }

  /** Number of tampered pixels in a whole image (`np.sum(tampered_mask)`). */
  function GridCount(a: Grid, b: Grid): nat
    requires SameShape(a, b)
  {
    if |a| == 0 then 0
    else GridCount(a[..|a| - 1], b[..|b| - 1]) + RowCount(a[|a| - 1], b[|b| - 1])
  }

  /** `tampered / total * 100`, or 0.0 for an image without pixels. */
  function TamperingRate(count: nat, total: nat): (rate: real)
    ensures total == 0 ==> rate == 0.0
    ensures total > 0 ==> rate * (total as real) == (count as real) * 100.0
  {
    if total > 0 then (count as real) / (total as real) * 100.0 else 0.0
  }

  /** The overlay as a value: one RGBA pixel per input pixel. */
  function MaskGrid(a: Grid, b: Grid): (m: seq<seq<Rgba>>)
    requires SameShape(a, b)
    ensures |m| == |a|
    ensures forall i :: 0 <= i < |a| ==> |m[i]| == |a[i]|
    ensures forall i, j :: 0 <= i < |a| && 0 <= j < |a[i]| ==> m[i][j] == MaskPixel(a[i][j], b[i][j])
  {
    seq(|a|, i requires 0 <= i < |a| => seq(|a[i]|, j requires 0 <= j < |a[i]| => MaskPixel(a[i][j], b[i][j])))
  }

  function RowOpaque(m: seq<Rgba>): nat
  {
    if |m| == 0 then 0 else RowOpaque(m[..|m| - 1]) + (if m[|m| - 1].a != 0 then 1 else 0)
  }

  /** Number of mask pixels that are not fully transparent. */
  function OpaqueCount(m: seq<seq<Rgba>>): nat
  {
    if |m| == 0 then 0 else OpaqueCount(m[..|m| - 1]) + RowOpaque(m[|m| - 1])
  }

  // ---------------------------------------------------------------------
  // The analyser itself
  // ---------------------------------------------------------------------

  /** Paints one row of the overlay into a buffer row that is still zero
      and counts the row's tampered pixels. */
  method MarkRow(mask: array2<Rgba>, i: nat, a: seq<Rgb>, b: seq<Rgb>) returns (n: nat)
    requires i < mask.Length0 && |a| == |b| == mask.Length1
    requires forall x :: 0 <= x < mask.Length1 ==> mask[i, x] == Transparent
    modifies mask
    ensures forall x :: 0 <= x < mask.Length1 ==> mask[i, x] == MaskPixel(a[x], b[x])
    ensures forall y, x :: 0 <= y < mask.Length0 && y != i && 0 <= x < mask.Length1 ==>
              mask[y, x] == old(mask[y, x])
    ensures n == RowCount(a, b)
  {
    n := 0;
    var j := 0;
    while j < |a|
      invariant 0 <= j <= |a|
      invariant n == RowCount(a[..j], b[..j])
      invariant forall x :: 0 <= x < j ==> mask[i, x] == MaskPixel(a[x], b[x])
      invariant forall x :: j <= x < |a| ==> mask[i, x] == Transparent
      invariant forall y, x :: 0 <= y < mask.Length0 && y != i && 0 <= x < mask.Length1 ==>
                  mask[y, x] == old(mask[y, x])
    {
      assert a[..j + 1][..j] == a[..j] && b[..j + 1][..j] == b[..j];
      if Tampered(a[j], b[j]) {
        mask[i, j] := TamperedColour;
        n := n + 1;
      }
      j := j + 1;
    }
    assert a[..j] == a && b[..j] == b;
  }

  /** Fills a zeroed RGBA buffer with the overlay and counts the tampered
      pixels, for two equally sized pixel grids. */
  method BuildMask(input: Grid, original: Grid, height: nat, width: nat)
    returns (mask: array2<Rgba>, count: nat)
    requires IsGrid(input, height, width) && IsGrid(original, height, width)
    ensures mask.Length0 == height && mask.Length1 == width
    ensures forall i, j :: 0 <= i < height && 0 <= j < width ==>
              mask[i, j] == MaskPixel(input[i][j], original[i][j])
    ensures count == GridCount(input, original)
  {
    mask := new Rgba[height, width]((i, j) => Transparent);
    count := 0;
    var i := 0;
    while i < height
      invariant 0 <= i <= height
      invariant count == GridCount(input[..i], original[..i])
      invariant forall y, x :: 0 <= y < i && 0 <= x < width ==>
                  mask[y, x] == MaskPixel(input[y][x], original[y][x])
      invariant forall y, x :: i <= y < height && 0 <= x < width ==> mask[y, x] == Transparent
    {
      var n := MarkRow(mask, i, input[i], original[i]);
      assert input[..i + 1][..i] == input[..i] && original[..i + 1][..i] == original[..i];
      count := count + n;
      i := i + 1;
    }
    assert input[..height] == input && original[..height] == original;
  }

  /** `create_difference_mask`: a submission or a reference that could not
      be decoded yields no mask and rate 0.0 instead of an exception;
      otherwise the overlay and `tampered / total * 100`. */
  method CreateDifferenceMask(input: Option<DecodedImage>, original: Option<DecodedImage>)
    returns (mask: Option<array2<Rgba>>, rate: real)
    requires input.Some? ==> WellFormed(input.value)
    requires original.Some? ==> WellFormed(original.value)
    requires input.Some? && original.Some? ==>
               input.value.height == original.value.height && input.value.width == original.value.width
    ensures (input.None? || original.None?) ==> mask.None? && rate == 0.0
    ensures input.Some? && original.Some? ==>
              var a, b := input.value, original.value;
              && mask.Some?
              && mask.value.Length0 == b.height && mask.value.Length1 == b.width
              && (forall i, j :: 0 <= i < b.height && 0 <= j < b.width ==>
                    mask.value[i, j] == MaskPixel(a.pixels[i][j], b.pixels[i][j]))
              && rate == TamperingRate(GridCount(a.pixels, b.pixels), b.height * b.width)
  {
    if input.None? || original.None? {
      return None, 0.0;
    }
    var a, b := input.value, original.value;
    var m, count := BuildMask(a.pixels, b.pixels, b.height, b.width);
    mask := Some(m);
    rate := TamperingRate(count, b.height * b.width);
  }

  // ---------------------------------------------------------------------
  // Properties
  // ---------------------------------------------------------------------

  /** A difference of length exactly 10 (one channel off by 10) is below
      the threshold; one more step in that channel is above it. */
  lemma ThresholdIsStrict(p: Rgb)
    ensures !Tampered(p, Rgb(p.r + 10, p.g, p.b))
    ensures Tampered(p, Rgb(p.r + 11, p.g, p.b))
  {
  }

  lemma {:induction false} RowCountBounded(a: seq<Rgb>, b: seq<Rgb>)
    requires |a| == |b|
    ensures RowCount(a, b) <= |a|
  {
    if |a| > 0 {
      RowCountBounded(a[..|a| - 1], b[..|b| - 1]);
    }
  }

  /** At most every pixel is tampered. */
  lemma {:induction false} GridCountBounded(a: Grid, b: Grid, height: nat, width: nat)
    requires IsGrid(a, height, width) && IsGrid(b, height, width)
    ensures GridCount(a, b) <= height * width
  {
    if height > 0 {
      GridCountBounded(a[..height - 1], b[..height - 1], height - 1, width);
      RowCountBounded(a[height - 1], b[height - 1]);
      assert (height - 1) * width + width == height * width;
    }
  }

  /** The rate is a percentage. */
  lemma RateIsPercentage(count: nat, total: nat)
    requires count <= total
    ensures 0.0 <= TamperingRate(count, total) <= 100.0
  {
    if total > 0 {
      assert (count as real) / (total as real) <= 1.0;
    }
  }

  /** The analyser's rate always lies in [0, 100]. */
  lemma AnalyserRateIsPercentage(a: Grid, b: Grid, height: nat, width: nat)
    requires IsGrid(a, height, width) && IsGrid(b, height, width)
    ensures 0.0 <= TamperingRate(GridCount(a, b), height * width) <= 100.0
  {
    GridCountBounded(a, b, height, width);
    RateIsPercentage(GridCount(a, b), height * width);
  }

  lemma {:induction false} RowCountSelf(a: seq<Rgb>)
    ensures RowCount(a, a) == 0
  {
    if |a| > 0 {
      RowCountSelf(a[..|a| - 1]);
    }
  }

  /** Comparing an image with itself finds nothing: no tampered pixel, rate
      0.0, and a fully transparent mask. */
  lemma {:induction false} IdenticalImagesUntouched(a: Grid)
    requires SameShape(a, a)
    ensures GridCount(a, a) == 0
    ensures forall total: nat :: TamperingRate(GridCount(a, a), total) == 0.0
    ensures OpaqueCount(MaskGrid(a, a)) == 0
  {
    if |a| > 0 {
      IdenticalImagesUntouched(a[..|a| - 1]);
      RowCountSelf(a[|a| - 1]);
    }
    MaskMatchesCount(a, a);
  }

  lemma {:induction false} RowOpaqueMatchesCount(a: seq<Rgb>, b: seq<Rgb>, m: seq<Rgba>)
    requires |a| == |b| == |m|
    requires forall j :: 0 <= j < |a| ==> m[j] == MaskPixel(a[j], b[j])
    ensures RowOpaque(m) == RowCount(a, b)
  {
    if |a| > 0 {
      RowOpaqueMatchesCount(a[..|a| - 1], b[..|b| - 1], m[..|m| - 1]);
    }
  }

  lemma {:induction false} OpaqueMatchesCount(a: Grid, b: Grid, m: seq<seq<Rgba>>)
    requires SameShape(a, b) && |m| == |a|
    requires forall i :: 0 <= i < |a| ==> |m[i]| == |a[i]|
    requires forall i, j :: 0 <= i < |a| && 0 <= j < |a[i]| ==> m[i][j] == MaskPixel(a[i][j], b[i][j])
    ensures OpaqueCount(m) == GridCount(a, b)
  {
    if |a| > 0 {
      var n := |a| - 1;
      OpaqueMatchesCount(a[..n], b[..n], m[..n]);
      RowOpaqueMatchesCount(a[n], b[n], m[n]);
    }
  }

  /** The overlay has one non-transparent pixel per tampered pixel. */
  lemma MaskMatchesCount(a: Grid, b: Grid)
    requires SameShape(a, b)
    ensures OpaqueCount(MaskGrid(a, b)) == GridCount(a, b)
  {
    OpaqueMatchesCount(a, b, MaskGrid(a, b));
  }

  // ---------------------------------------------------------------------
  // The recoloured-block scenario of the tests
  // ---------------------------------------------------------------------

  /** A single-colour image (`Image.new('RGB', size, colour)`). */
  function Solid(height: nat, width: nat, c: Rgb): (g: Grid)
    ensures IsGrid(g, height, width)
    ensures forall i, j :: 0 <= i < height && 0 <= j < width ==> g[i][j] == c
  {
    seq(height, i => seq(width, j => c))
  }

  predicate InBlock(i: int, j: int, top: int, left: int, size: int)
  {
    top <= i < top + size && left <= j < left + size
  }

  /** `g` with the `size` x `size` square at (top, left) painted `c`. */
  function Recolour(g: Grid, height: nat, width: nat, top: nat, left: nat, size: nat, c: Rgb): (r: Grid)
    requires IsGrid(g, height, width)
    ensures IsGrid(r, height, width)
    ensures forall i, j :: 0 <= i < height && 0 <= j < width ==>
              r[i][j] == if InBlock(i, j, top, left, size) then c else g[i][j]
  {
    seq(height, i requires 0 <= i < height =>
      seq(width, j requires 0 <= j < width => if InBlock(i, j, top, left, size) then c else g[i][j]))
  }

  /** How much of [lo, lo + size) lies below n. */
  function Overlap(n: int, lo: int, size: nat): nat
  {
    if n <= lo then 0 else if n - lo >= size then size else n - lo
  }

  lemma {:induction false} BlockRowCount(a: seq<Rgb>, b: seq<Rgb>, left: nat, size: nat, inside: bool)
    requires |a| == |b|
    requires forall j :: 0 <= j < |a| ==>
               Tampered(a[j], b[j]) == (inside && left <= j < left + size)
    ensures RowCount(a, b) == if inside then Overlap(|a|, left, size) else 0
  {
    if |a| > 0 {
      BlockRowCount(a[..|a| - 1], b[..|b| - 1], left, size, inside);
    }
  }

  lemma OverlapStep(n: nat, top: nat, size: nat, inside: bool)
    requires inside == (top <= n < top + size)
    ensures size * Overlap(n + 1, top, size) == size * Overlap(n, top, size) + (if inside then size else 0)
  {
    if inside {
      assert Overlap(n + 1, top, size) == Overlap(n, top, size) + 1;
    } else {
      assert Overlap(n + 1, top, size) == Overlap(n, top, size);
    }
  }

  lemma {:induction false} BlockGridCount(a: Grid, b: Grid, width: nat, top: nat, left: nat, size: nat)
    requires IsGrid(a, |a|, width) && IsGrid(b, |a|, width)
    requires left + size <= width
    requires forall i, j :: 0 <= i < |a| && 0 <= j < width ==>
               Tampered(a[i][j], b[i][j]) == InBlock(i, j, top, left, size)
    ensures GridCount(a, b) == size * Overlap(|a|, top, size)
  {
    if |a| > 0 {
      var n := |a| - 1;
      var inside := top <= n < top + size;
      assert IsGrid(a[..n], n, width) && IsGrid(b[..n], n, width);
      BlockGridCount(a[..n], b[..n], width, top, left, size);
      var ra, rb := a[n], b[n];
      forall j | 0 <= j < |ra|
        ensures Tampered(ra[j], rb[j]) == (inside && left <= j < left + size)
      {
        assert Tampered(a[n][j], b[n][j]) == InBlock(n, j, top, left, size);
      }
      BlockRowCount(ra, rb, left, size, inside);
      assert Overlap(|ra|, left, size) == size;
      OverlapStep(n, top, size, inside);
    }
  }

  /** Recolouring a square of a single-colour image with a far-away colour
      tampers exactly the square's pixels. */
  lemma RecolouredBlockCount(height: nat, width: nat, base: Rgb, top: nat, left: nat, size: nat, c: Rgb)
    requires top + size <= height && left + size <= width
    requires Tampered(c, base)
    ensures GridCount(Recolour(Solid(height, width, base), height, width, top, left, size, c),
                      Solid(height, width, base)) == size * size
  {
    var orig := Solid(height, width, base);
    var modified := Recolour(orig, height, width, top, left, size, c);
    forall i, j | 0 <= i < height && 0 <= j < width
      ensures Tampered(modified[i][j], orig[i][j]) == InBlock(i, j, top, left, size)
    {
      assert SquaredDistance(base, base) == 0;
    }
    BlockGridCount(modified, orig, width, top, left, size);
  }

  /** The recolouring test: a 20 x 20 red square in a 100 x 100 blue image
      is 4 percent tampered. */
  lemma RedSquareInBlueImage()
    ensures var blue, red := Rgb(0, 0, 255), Rgb(255, 0, 0);
            TamperingRate(GridCount(Recolour(Solid(100, 100, blue), 100, 100, 40, 40, 20, red),
                                    Solid(100, 100, blue)), 100 * 100) == 4.0
  {
    RecolouredBlockCount(100, 100, Rgb(0, 0, 255), 40, 40, 20, Rgb(255, 0, 0));
  }

  /** The test image builder: paint columns [x0, x1) of rows [y0, y1) in
      place, one pixel at a time (`pixels[x, y] = colour`). */
  method PaintBlock(img: array2<Rgb>, x0: nat, x1: nat, y0: nat, y1: nat, c: Rgb)
    requires x0 <= x1 <= img.Length1 && y0 <= y1 <= img.Length0
    modifies img
    ensures forall y, x :: 0 <= y < img.Length0 && 0 <= x < img.Length1 ==>
              img[y, x] == if y0 <= y < y1 && x0 <= x < x1 then c else old(img[y, x])
  {
    var x := x0;
    while x < x1
      invariant x0 <= x <= x1
      invariant forall y', x' :: 0 <= y' < img.Length0 && 0 <= x' < img.Length1 ==>
                  img[y', x'] == if y0 <= y' < y1 && x0 <= x' < x then c else old(img[y', x'])
    {
      var y := y0;
      while y < y1
        invariant y0 <= y <= y1
        invariant forall y', x' :: 0 <= y' < img.Length0 && 0 <= x' < img.Length1 ==>
                    img[y', x'] == if (y0 <= y' < y1 && x0 <= x' < x) || (y0 <= y' < y && x' == x) then c
                                   else old(img[y', x'])
      {
        img[y, x] := c;
        y := y + 1;
      }
      x := x + 1;
    }
  }
}
