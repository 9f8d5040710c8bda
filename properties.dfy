/** Properties of the filters' results, proved of the functions in
    module Filters (and so, through the methods' postconditions, of the
    buffers the methods of module Engine leave behind). */
module FilterProperties {
  import opened Raster
  import opened ByteStore
  import opened Neighbourhood
  import opened Sorting
  import opened Filters

  // ---------------------------------------------------------------------
  // Every filter

  /** Every filter keeps the buffer's length and every alpha byte. */
  lemma LengthAndAlphaKept(f: Filter, d: seq<Byte>, width: nat, height: nat)
    requires WellFormed(d, width, height)
    ensures |Output(f, d, width, height)| == |d|
    ensures forall i :: 0 <= i < |d| && i % 4 == 3 ==> Output(f, d, width, height)[i] == d[i]
  {
    forall i | 0 <= i < |d| && i % 4 == 3
      ensures Output(f, d, width, height)[i] == d[i]
    {
      var p := Locate(width, height, i);
      DivModUnique(i, 4, p.y * width + p.x, p.channel);
    }
  }

  // ---------------------------------------------------------------------
  // Gaussian blur

  lemma GaussianKernelFacts()
    ensures forall j :: 0 <= j < 9 ==> Weight(GaussianKernel, j) >= 0
    ensures KernelWeight(GaussianKernel, 9) == GaussianDivisor
  {
    forall j | 0 <= j < 9 ensures Weight(GaussianKernel, j) >= 0 {
      assert Row(j) < 3 && Col(j) < 3;
    }
    KernelWeightEntries(GaussianKernel);
  }

  /** A blurred colour byte is ToUint8Clamp(S / 16), S being the weighted sum
      over the in-bounds taps alone: S lies in 0 .. 16 * 255, so the store
      never saturates and the byte is a nearest integer to S / 16, with ties
      going to the even neighbour. */
  lemma BlurIsRoundedSixteenth(d: seq<Byte>, width: nat, height: nat, x: nat, y: nat, c: nat)
    requires WellFormed(d, width, height) && InBounds(width, height, x, y) && c < 3
    ensures var s := WeightedSum(d, width, height, x, y, c, GaussianKernel, 9);
            var r := FilteredByte(GaussianBlur, d, width, height, x, y, c);
            && 0 <= s <= 16 * 255
            && r == ClampDiv(s, 16)
            && RoundedQuotient(r, s, 16)
  {
    GaussianKernelFacts();
    NonNegativeSumBounds(d, width, height, x, y, c, GaussianKernel, 9);
    var s := WeightedSum(d, width, height, x, y, c, GaussianKernel, 9);
    ClampDivRounds(s, 16);
  }

  /** On a window of one colour that lies wholly inside the image, the blur
      gives that colour back. */
  lemma BlurKeepsFlatInterior(d: seq<Byte>, width: nat, height: nat, x: nat, y: nat, c: nat, v: Byte)
    requires WellFormed(d, width, height) && Interior(width, height, x, y) && c < 3
    requires ConstantAround(d, width, height, x, y, c, v)
    ensures FilteredByte(GaussianBlur, d, width, height, x, y, c) == v
  {
    ConstantWindowSum(d, width, height, x, y, c, GaussianKernel, v, 9);
    InteriorWeight(width, height, x, y, GaussianKernel, 9);
    GaussianKernelFacts();
    assert WeightedSum(d, width, height, x, y, c, GaussianKernel, 9) == v * 16;
    ClampDivExact(v, 16);
  }

  /** At the corner (0, 0) only four taps (weights 4, 2, 2, 1) are in the
      image but the divisor stays 16: a flat colour v comes out as
      ToUint8Clamp(9v / 16), darker than v once v >= 2. */
  lemma BlurDarkensFlatCorner(d: seq<Byte>, width: nat, height: nat, c: nat, v: Byte)
    requires WellFormed(d, width, height) && 2 <= width && 2 <= height && c < 3
    requires ConstantAround(d, width, height, 0, 0, c, v)
    ensures FilteredByte(GaussianBlur, d, width, height, 0, 0, c) == ClampDiv(9 * v, 16)
    ensures v >= 2 ==> FilteredByte(GaussianBlur, d, width, height, 0, 0, c) < v
  {
    FlatCornerSum(d, width, height, c, GaussianKernel, v, 9);
    assert WeightedSum(d, width, height, 0, 0, c, GaussianKernel, 9) == 9 * v;
    ClampDivRounds(9 * v, 16);
  }

  /** Every pixel that is not interior loses a whole row or column of the
      window, of weight 4, yet the divisor stays 16: a flat colour v comes out
      as ToUint8Clamp(nv / 16) for an in-bounds weight n between 4 and 12, so
      never brighter than v and darker once v >= 3. */
  lemma BlurDarkensFlatBorder(d: seq<Byte>, width: nat, height: nat, x: nat, y: nat, c: nat, v: Byte)
    requires WellFormed(d, width, height) && InBounds(width, height, x, y) && !Interior(width, height, x, y) && c < 3
    requires ConstantAround(d, width, height, x, y, c, v)
    ensures var n := InBoundsWeight(width, height, x, y, GaussianKernel, 9);
            var r := FilteredByte(GaussianBlur, d, width, height, x, y, c);
            && 4 <= n <= 12
            && r == ClampDiv(v * n, 16)
            && r <= v
            && (v >= 3 ==> r < v)
  {
    var n := InBoundsWeight(width, height, x, y, GaussianKernel, 9);
    BorderWeight(width, height, x, y);
    ConstantWindowSum(d, width, height, x, y, c, GaussianKernel, v, 9);
    assert FilteredByte(GaussianBlur, d, width, height, x, y, c) == ClampDiv(v * n, 16);
    Raster.MulLeq(n, 12, v);
    ClampDivRounds(v * n, 16);
  }

  /** At a pixel that is not interior, the in-bounds Gaussian weight keeps
      the centre (4) and loses at least one side of the window (4). */
  lemma BorderWeight(width: nat, height: nat, x: nat, y: nat)
    requires InBounds(width, height, x, y) && !Interior(width, height, x, y)
    ensures 4 <= InBoundsWeight(width, height, x, y, GaussianKernel, 9) <= 12
  {
    InBoundsWeightEntries(width, height, x, y, GaussianKernel);
    GaussianWeights();
    var k := GaussianKernel;
    assert Counted(width, height, x, y, k, 4) == 4;
    assert 0 <= Counted(width, height, x, y, k, 0) <= 1 && 0 <= Counted(width, height, x, y, k, 1) <= 2;
    assert 0 <= Counted(width, height, x, y, k, 2) <= 1 && 0 <= Counted(width, height, x, y, k, 3) <= 2;
    assert 0 <= Counted(width, height, x, y, k, 5) <= 2 && 0 <= Counted(width, height, x, y, k, 6) <= 1;
    assert 0 <= Counted(width, height, x, y, k, 7) <= 2 && 0 <= Counted(width, height, x, y, k, 8) <= 1;
    if x == 0 {
      assert Counted(width, height, x, y, k, 0) == Counted(width, height, x, y, k, 3) == Counted(width, height, x, y, k, 6) == 0;
    } else if x + 1 >= width {
      assert Counted(width, height, x, y, k, 2) == Counted(width, height, x, y, k, 5) == Counted(width, height, x, y, k, 8) == 0;
    } else if y == 0 {
      assert Counted(width, height, x, y, k, 0) == Counted(width, height, x, y, k, 1) == Counted(width, height, x, y, k, 2) == 0;
    } else {
      assert Counted(width, height, x, y, k, 6) == Counted(width, height, x, y, k, 7) == Counted(width, height, x, y, k, 8) == 0;
    }
  }

  /** The blur kernel's weights in tap order. */
  lemma GaussianWeights()
    ensures Weight(GaussianKernel, 0) == 1 && Weight(GaussianKernel, 1) == 2 && Weight(GaussianKernel, 2) == 1
    ensures Weight(GaussianKernel, 3) == 2 && Weight(GaussianKernel, 4) == 4 && Weight(GaussianKernel, 5) == 2
    ensures Weight(GaussianKernel, 6) == 1 && Weight(GaussianKernel, 7) == 2 && Weight(GaussianKernel, 8) == 1
  {
    assert Row(0) == 0 && Col(0) == 0 && Row(1) == 0 && Col(1) == 1 && Row(2) == 0 && Col(2) == 2;
    assert Row(3) == 1 && Col(3) == 0 && Row(4) == 1 && Col(4) == 1 && Row(5) == 1 && Col(5) == 2;
    assert Row(6) == 2 && Col(6) == 0 && Row(7) == 2 && Col(7) == 1 && Row(8) == 2 && Col(8) == 2;
  }

  /** The in-bounds taps of the corner (0, 0) are 4, 5, 7 and 8. */
  lemma CornerWeight(width: nat, height: nat, k: Kernel)
    requires 2 <= width && 2 <= height
    ensures InBoundsWeight(width, height, 0, 0, k, 9) == k[1][1] + k[1][2] + k[2][1] + k[2][2]
  {
    assert !TapInBounds(width, height, 0, 0, 0) && !TapInBounds(width, height, 0, 0, 1);
    assert !TapInBounds(width, height, 0, 0, 2) && !TapInBounds(width, height, 0, 0, 3);
    assert TapInBounds(width, height, 0, 0, 4) && TapInBounds(width, height, 0, 0, 5);
    assert !TapInBounds(width, height, 0, 0, 6);
    assert TapInBounds(width, height, 0, 0, 7) && TapInBounds(width, height, 0, 0, 8);
    assert InBoundsWeight(width, height, 0, 0, k, 1) == 0;
    assert InBoundsWeight(width, height, 0, 0, k, 2) == 0;
    assert InBoundsWeight(width, height, 0, 0, k, 3) == 0;
    assert InBoundsWeight(width, height, 0, 0, k, 4) == 0;
    assert InBoundsWeight(width, height, 0, 0, k, 5) == Weight(k, 4);
    assert InBoundsWeight(width, height, 0, 0, k, 6) == Weight(k, 4) + Weight(k, 5);
    assert InBoundsWeight(width, height, 0, 0, k, 7) == Weight(k, 4) + Weight(k, 5);
    assert InBoundsWeight(width, height, 0, 0, k, 8) == Weight(k, 4) + Weight(k, 5) + Weight(k, 7);
  }

  // ---------------------------------------------------------------------
  // Sobel and Prewitt

  predicate IsEdgeDetector(f: Filter) {
    f == Sobel || f == Prewitt
  }

  function KernelX(f: Filter): Kernel
    requires IsEdgeDetector(f)
  {
    if f == Sobel then SobelX else PrewittX
  }

  function KernelY(f: Filter): Kernel
    requires IsEdgeDetector(f)
  {
    if f == Sobel then SobelY else PrewittY
  }

  /** Sobel, Prewitt and the median filter write one value to R, G and B:
      the edge magnitude of the filter's kernels, or the window's median. */
  lemma OneValuePerPixel(f: Filter, d: seq<Byte>, width: nat, height: nat, x: nat, y: nat)
    requires WellFormed(d, width, height) && InBounds(width, height, x, y) && f != GaussianBlur
    ensures var r := FilteredByte(f, d, width, height, x, y, 0);
            && r == FilteredByte(f, d, width, height, x, y, 1) == FilteredByte(f, d, width, height, x, y, 2)
            && r == if f == MedianFilter then MedianValue(d, width, height, x, y)
                    else EdgeMagnitude(d, width, height, x, y, KernelX(f), KernelY(f))
  {
  }

  /** The stored edge value is the gradient magnitude sqrt(gx^2 + gy^2) of the
      red channel, rounded to the nearest integer and saturated at 255; it is
      0 exactly when both gradients are. */
  lemma EdgeIsRoundedMagnitude(d: seq<Byte>, width: nat, height: nat, x: nat, y: nat, kernelX: Kernel, kernelY: Kernel)
    requires WellFormed(d, width, height)
    ensures var gx := WeightedSum(d, width, height, x, y, 0, kernelX, 9);
            var gy := WeightedSum(d, width, height, x, y, 0, kernelY, 9);
            var r := EdgeMagnitude(d, width, height, x, y, kernelX, kernelY);
            && RoundedSqrt(r, gx * gx + gy * gy)
            && (r == 0 <==> gx == 0 && gy == 0)
  {
    var gx := WeightedSum(d, width, height, x, y, 0, kernelX, 9);
    var gy := WeightedSum(d, width, height, x, y, 0, kernelY, 9);
    assert EdgeMagnitude(d, width, height, x, y, kernelX, kernelY) == StoredMagnitude(gx * gx + gy * gy);
    MagnitudeRounds(gx, gy);
  }

  lemma EdgeKernelsBalance()
    ensures KernelWeight(SobelX, 9) == 0 && KernelWeight(SobelY, 9) == 0
    ensures KernelWeight(PrewittX, 9) == 0 && KernelWeight(PrewittY, 9) == 0
  {
    assert KernelWeight(SobelX, 9) == 0 by { KernelWeightEntries(SobelX); }
    assert KernelWeight(SobelY, 9) == 0 by { KernelWeightEntries(SobelY); }
    assert KernelWeight(PrewittX, 9) == 0 by { KernelWeightEntries(PrewittX); }
    assert KernelWeight(PrewittY, 9) == 0 by { KernelWeightEntries(PrewittY); }
  }

  /** Each edge kernel's weights sum to zero, so a window whose red channel
      is one value and lies wholly inside the image has no edge. */
  lemma NoEdgeInFlatInterior(f: Filter, d: seq<Byte>, width: nat, height: nat, x: nat, y: nat, c: nat, v: Byte)
    requires WellFormed(d, width, height) && Interior(width, height, x, y) && IsEdgeDetector(f) && c < 3
    requires ConstantAround(d, width, height, x, y, 0, v)
    ensures FilteredByte(f, d, width, height, x, y, c) == 0
  {
    var kx, ky := KernelX(f), KernelY(f);
    var gx := WeightedSum(d, width, height, x, y, 0, kx, 9);
    var gy := WeightedSum(d, width, height, x, y, 0, ky, 9);
    EdgeKernelsBalance();
    assert KernelWeight(kx, 9) == 0 && KernelWeight(ky, 9) == 0;
    ConstantWindowSum(d, width, height, x, y, 0, kx, v, 9);
    InteriorWeight(width, height, x, y, kx, 9);
    ConstantWindowSum(d, width, height, x, y, 0, ky, v, 9);
    InteriorWeight(width, height, x, y, ky, 9);
    assert gx == v * 0 && gy == v * 0;
    StoredMagnitudeRounds(gx * gx + gy * gy);
  }

  /** The border is not exempt: at the corner (0, 0) of a flat red channel v
      the missing taps leave gx = gy = 3v for Sobel and 2v for Prewitt, so a
      nonzero v gives a nonzero edge. */
  lemma EdgeAtFlatCorner(d: seq<Byte>, width: nat, height: nat, v: Byte)
    requires WellFormed(d, width, height) && 2 <= width && 2 <= height
    requires ConstantAround(d, width, height, 0, 0, 0, v)
    ensures FilteredByte(Sobel, d, width, height, 0, 0, 0) == StoredMagnitude(18 * Square(v))
    ensures FilteredByte(Prewitt, d, width, height, 0, 0, 0) == StoredMagnitude(8 * Square(v))
    ensures v > 0 ==> FilteredByte(Sobel, d, width, height, 0, 0, 0) > 0 && FilteredByte(Prewitt, d, width, height, 0, 0, 0) > 0
  {
    FlatCornerMagnitude(d, width, height, SobelX, SobelY, v, 3);
    FlatCornerMagnitude(d, width, height, PrewittX, PrewittY, v, 2);
  }

  /** At the corner, kernels whose in-bounds weights both sum to m give the
      gradient (mv, mv) and so the magnitude sqrt(2 m^2 v^2). */
  lemma FlatCornerMagnitude(d: seq<Byte>, width: nat, height: nat, kernelX: Kernel, kernelY: Kernel, v: Byte, m: int)
    requires WellFormed(d, width, height) && 2 <= width && 2 <= height
    requires ConstantAround(d, width, height, 0, 0, 0, v)
    requires kernelX[1][1] + kernelX[1][2] + kernelX[2][1] + kernelX[2][2] == m
    requires kernelY[1][1] + kernelY[1][2] + kernelY[2][1] + kernelY[2][2] == m
    ensures EdgeMagnitude(d, width, height, 0, 0, kernelX, kernelY) == StoredMagnitude(2 * Square(m) * Square(v))
    ensures v > 0 && m != 0 ==> EdgeMagnitude(d, width, height, 0, 0, kernelX, kernelY) > 0
  {
    var gx := WeightedSum(d, width, height, 0, 0, 0, kernelX, 9);
    var gy := WeightedSum(d, width, height, 0, 0, 0, kernelY, 9);
    FlatCornerSum(d, width, height, 0, kernelX, v, m);
    FlatCornerSum(d, width, height, 0, kernelY, v, m);
    DoubleSquare(v * m, v, m);
    assert gx * gx + gy * gy == 2 * Square(m) * Square(v);
    StoredMagnitudeRounds(2 * Square(m) * Square(v));
  }

  lemma DoubleSquare(g: int, v: int, m: int)
    requires g == v * m
    ensures g * g + g * g == 2 * Square(m) * Square(v)
    ensures v != 0 && m != 0 ==> 2 * Square(m) * Square(v) > 0
  {
    NonZeroSquare(g);
  }

  /** Over a flat channel at the corner (0, 0), the sum is v times the
      weights of taps 4, 5, 7 and 8. */
  lemma FlatCornerSum(d: seq<Byte>, width: nat, height: nat, c: nat, k: Kernel, v: Byte, m: int)
    requires WellFormed(d, width, height) && 2 <= width && 2 <= height && c < 4
    requires ConstantAround(d, width, height, 0, 0, c, v)
    requires k[1][1] + k[1][2] + k[2][1] + k[2][2] == m
    ensures WeightedSum(d, width, height, 0, 0, c, k, 9) == v * m
  {
    ConstantWindowSum(d, width, height, 0, 0, c, k, v, 9);
    CornerWeight(width, height, k);
  }

  // ---------------------------------------------------------------------
  // Only the red channel matters to Sobel, Prewitt and the median filter

  /** Two buffers of one shape with the same red byte at every pixel. */
  ghost predicate SameRed(d: seq<Byte>, e: seq<Byte>, width: nat, height: nat)
    requires WellFormed(d, width, height) && WellFormed(e, width, height)
  {
    forall x: nat, y: nat :: InBounds(width, height, x, y) ==> Sample(d, width, height, x, y, 0) == Sample(e, width, height, x, y, 0)
  }

  lemma {:induction false} SumsAgree(d: seq<Byte>, e: seq<Byte>, width: nat, height: nat, x: nat, y: nat, k: Kernel, t: nat)
    requires WellFormed(d, width, height) && WellFormed(e, width, height) && t <= 9
    requires SameRed(d, e, width, height)
    ensures WeightedSum(d, width, height, x, y, 0, k, t) == WeightedSum(e, width, height, x, y, 0, k, t)
  {
    if t > 0 {
      SumsAgree(d, e, width, height, x, y, k, t - 1);
      var tx, ty := x + Col(t - 1) - 1, y + Row(t - 1) - 1;
      if InBounds(width, height, tx, ty) {
        assert Sample(d, width, height, tx as nat, ty as nat, 0) == Sample(e, width, height, tx as nat, ty as nat, 0);
      }
    }
  }

  lemma {:induction false} WindowsAgree(d: seq<Byte>, e: seq<Byte>, width: nat, height: nat, x: nat, y: nat, t: nat)
    requires WellFormed(d, width, height) && WellFormed(e, width, height) && t <= 9
    requires SameRed(d, e, width, height)
    ensures Window(d, width, height, x, y, t) == Window(e, width, height, x, y, t)
  {
    if t > 0 {
      WindowsAgree(d, e, width, height, x, y, t - 1);
      var tx, ty := x + Col(t - 1) - 1, y + Row(t - 1) - 1;
      if InBounds(width, height, tx, ty) {
        assert Sample(d, width, height, tx as nat, ty as nat, 0) == Sample(e, width, height, tx as nat, ty as nat, 0);
      }
    }
  }

  /** The median filter reads only red bytes. */
  lemma MedianReadsRedOnly(d: seq<Byte>, e: seq<Byte>, width: nat, height: nat, x: nat, y: nat)
    requires WellFormed(d, width, height) && WellFormed(e, width, height)
    requires InBounds(width, height, x, y) && SameRed(d, e, width, height)
    ensures MedianValue(d, width, height, x, y) == MedianValue(e, width, height, x, y)
  {
    WindowsAgree(d, e, width, height, x, y, 9);
  }

  /** Gradient magnitudes read only red bytes. */
  lemma EdgeReadsRedOnly(d: seq<Byte>, e: seq<Byte>, width: nat, height: nat, x: nat, y: nat, kernelX: Kernel, kernelY: Kernel)
    requires WellFormed(d, width, height) && WellFormed(e, width, height)
    requires SameRed(d, e, width, height)
    ensures EdgeMagnitude(d, width, height, x, y, kernelX, kernelY) == EdgeMagnitude(e, width, height, x, y, kernelX, kernelY)
  {
    SumsAgree(d, e, width, height, x, y, kernelX, 9);
    SumsAgree(d, e, width, height, x, y, kernelY, 9);
  }

  /** Sobel, Prewitt and the median filter read only red bytes: two images
      with the same red channel get the same R, G and B everywhere. */
  lemma RedChannelDecides(f: Filter, d: seq<Byte>, e: seq<Byte>, width: nat, height: nat, x: nat, y: nat, c: nat)
    requires WellFormed(d, width, height) && WellFormed(e, width, height)
    requires f != GaussianBlur && InBounds(width, height, x, y) && c < 3
    requires SameRed(d, e, width, height)
    ensures FilteredByte(f, d, width, height, x, y, c) == FilteredByte(f, e, width, height, x, y, c)
  {
    if f == MedianFilter {
      MedianReadsRedOnly(d, e, width, height, x, y);
    } else {
      EdgeReadsRedOnly(d, e, width, height, x, y, KernelX(f), KernelY(f));
    }
  }

  // ---------------------------------------------------------------------
  // Median filter

  /** The median filter writes one value to R, G and B: the element at index
      floor(n / 2) of the window sorted ascending, where the window holds the
      n in-bounds red values, 1 <= n <= 9 (the centre is always there). That
      value is one of the window's red values and lies between the sorted
      window's first and last, which are the window's least and greatest. */
  lemma MedianIsMiddleOfWindow(d: seq<Byte>, width: nat, height: nat, x: nat, y: nat)
    requires WellFormed(d, width, height) && InBounds(width, height, x, y)
    ensures var window := Window(d, width, height, x, y, 9);
            var r := MedianValue(d, width, height, x, y);
            && 1 <= |window| <= 9
            && |SortedSeq(window)| == |window|
            && r == SortedSeq(window)[|window| / 2]
            && SortedSeq(window)[0] <= r <= SortedSeq(window)[|window| - 1]
            && (forall e :: e in window ==> SortedSeq(window)[0] <= e <= SortedSeq(window)[|window| - 1])
            && (exists t :: 0 <= t < 9 && Tap(d, width, height, x, y, 0, t) == Some(r))
  {
    var window := Window(d, width, height, x, y, 9);
    WindowSize(d, width, height, x, y, 9);
    WindowMembers(d, width, height, x, y, 9);
    MiddleOfSorted(window);
    MiddleBounds(window);
  }

  /** A window whose red values are all v gives v, at the border as well. */
  lemma MedianKeepsFlatWindow(d: seq<Byte>, width: nat, height: nat, x: nat, y: nat, v: Byte)
    requires WellFormed(d, width, height) && InBounds(width, height, x, y)
    requires ConstantAround(d, width, height, x, y, 0, v)
    ensures MedianValue(d, width, height, x, y) == v
  {
    MedianIsMiddleOfWindow(d, width, height, x, y);
  }

  /** An interior pixel whose eight neighbours share the red value v becomes
      v whatever its own red value: a lone outlier is removed. */
  lemma MedianRemovesLoneOutlier(d: seq<Byte>, width: nat, height: nat, x: nat, y: nat, v: Byte)
    requires WellFormed(d, width, height) && Interior(width, height, x, y)
    requires forall t :: 0 <= t < 9 && t != 4 ==> Tap(d, width, height, x, y, 0, t) == Some(v)
    ensures MedianValue(d, width, height, x, y) == v
  {
    OutlierElements(d, width, height, x, y, v);
    var window := Window(d, width, height, x, y, 9);
    OutlierMiddle(window, v, Tap(d, width, height, x, y, 0, 4).value);
  }

  /** That pixel's window holds eight v's and its own red value. */
  lemma OutlierElements(d: seq<Byte>, width: nat, height: nat, x: nat, y: nat, v: Byte)
    requires WellFormed(d, width, height) && Interior(width, height, x, y)
    requires forall t :: 0 <= t < 9 && t != 4 ==> Tap(d, width, height, x, y, 0, t) == Some(v)
    ensures Tap(d, width, height, x, y, 0, 4).Some?
    ensures multiset(Window(d, width, height, x, y, 9)) == multiset(Eight(v)) + multiset{Tap(d, width, height, x, y, 0, 4).value}
  {
    OutlierWindow(d, width, height, x, y, v);
    OutlierMultiset(Window(d, width, height, x, y, 9), v, Tap(d, width, height, x, y, 0, 4).value);
  }

  /** Eight v's and one other value: nine elements whose sorted middle is v. */
  lemma OutlierMiddle(window: seq<int>, v: int, centre: int)
    requires multiset(window) == multiset(Eight(v)) + multiset{centre}
    ensures |window| == 9 && SortedSeq(window)[|window| / 2] == v
  {
    EightCopies(v);
    assert |window| == |multiset(window)| == |multiset(Eight(v))| + 1;
    SortedOutlier(window, v, centre);
  }

  /** Inside the image, the window of a pixel whose neighbours all hold v. */
  lemma OutlierWindow(d: seq<Byte>, width: nat, height: nat, x: nat, y: nat, v: Byte)
    requires WellFormed(d, width, height) && Interior(width, height, x, y)
    requires forall t :: 0 <= t < 9 && t != 4 ==> Tap(d, width, height, x, y, 0, t) == Some(v)
    ensures Tap(d, width, height, x, y, 0, 4).Some?
    ensures Window(d, width, height, x, y, 9) == Eight(v)[..4] + [Tap(d, width, height, x, y, 0, 4).value] + Eight(v)[4..]
  {
    assert TapInBounds(width, height, x, y, 4);
    var centre := Tap(d, width, height, x, y, 0, 4).value;
    WindowGrows(d, width, height, x, y, 0, v);
    WindowGrows(d, width, height, x, y, 1, v);
    WindowGrows(d, width, height, x, y, 2, v);
    WindowGrows(d, width, height, x, y, 3, v);
    WindowGrows(d, width, height, x, y, 4, centre);
    WindowGrows(d, width, height, x, y, 5, v);
    WindowGrows(d, width, height, x, y, 6, v);
    WindowGrows(d, width, height, x, y, 7, v);
    WindowGrows(d, width, height, x, y, 8, v);
  }

  lemma OutlierMultiset(window: seq<int>, v: int, centre: int)
    requires window == Eight(v)[..4] + [centre] + Eight(v)[4..]
    ensures multiset(window) == multiset(Eight(v)) + multiset{centre}
  {
    assert Eight(v) == Eight(v)[..4] + Eight(v)[4..];
  }

  lemma WindowGrows(d: seq<Byte>, width: nat, height: nat, x: nat, y: nat, t: nat, v: Byte)
    requires WellFormed(d, width, height) && t < 9
    requires Tap(d, width, height, x, y, 0, t) == Some(v)
    ensures Window(d, width, height, x, y, t + 1) == Window(d, width, height, x, y, t) + [v]
  {
  }

  function Eight(v: int): seq<int> {
    [v, v, v, v, v, v, v, v]
  }

  lemma EightCopies(v: int)
    ensures |Eight(v)| == 8 && forall i :: 0 <= i < 8 ==> Eight(v)[i] == v
  {
  }

  /** Eight copies of v with the other value placed where it sorts. */
  function Arranged(v: int, centre: int): seq<int> {
    if centre <= v then [centre] + Eight(v) else Eight(v) + [centre]
  }

  lemma ArrangedSorted(v: int, centre: int)
    ensures Sorted(Arranged(v, centre))
    ensures multiset(Arranged(v, centre)) == multiset(Eight(v)) + multiset{centre}
    ensures |Arranged(v, centre)| == 9 && Arranged(v, centre)[4] == v
  {
    EightCopies(v);
    if centre <= v {
      LowFirst(v, centre);
      assert Arranged(v, centre) == [centre] + Eight(v);
    } else {
      HighLast(v, centre);
      assert Arranged(v, centre) == Eight(v) + [centre];
    }
  }

  lemma LowFirst(v: int, centre: int)
    requires centre <= v
    ensures Sorted([centre] + Eight(v))
  {
  }

  lemma HighLast(v: int, centre: int)
    requires centre > v
    ensures Sorted(Eight(v) + [centre])
  {
  }

  /** Eight copies of v and one other value, sorted: v sits in the middle. */
  lemma SortedOutlier(window: seq<int>, v: int, centre: int)
    requires multiset(window) == multiset(Eight(v)) + multiset{centre}
    ensures |SortedSeq(window)| == 9 && SortedSeq(window)[4] == v
  {
    ArrangedSorted(v, centre);
    SortedUnique(Arranged(v, centre), SortedSeq(window));
  }

  // ---------------------------------------------------------------------
  // The switch

  /** Each filter's own name runs that filter; 'None' and every other string
      take the default branch and leave the buffer as it was. */
  lemma SwitchRoutes(selector: string, d: seq<Byte>, width: nat, height: nat)
    requires WellFormed(d, width, height)
    ensures forall f: Filter :: Processed(Name(f), d, width, height) == Output(f, d, width, height)
    ensures (forall f: Filter :: Name(f) != selector) ==> Processed(selector, d, width, height) == d
    ensures Processed("None", d, width, height) == d
  {
    forall f: Filter ensures Processed(Name(f), d, width, height) == Output(f, d, width, height) {
      match f
      case GaussianBlur =>
      case Sobel =>
      case Prewitt =>
      case MedianFilter =>
    }
  }
}
