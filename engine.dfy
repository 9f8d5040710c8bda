/** The filters as the source runs them: each scans the image pixel by pixel,
    accumulates over the 3×3 window with nested loops, writes R, G, B and the
    copied alpha into a fresh scratch buffer of the same length, and
    then copies the scratch buffer back over the caller's buffer in place.
    Every method is proved against the functions of module Filters. */
module Engine {
  import opened Raster
  import opened ByteStore
  import opened Neighbourhood
  import opened Sorting
  import opened Filters

  /** The r, g, b accumulators of the blur window. */
  method BlurSums(data: array<Byte>, width: nat, height: nat, x: nat, y: nat, kernel: Kernel) returns (r: int, g: int, b: int)
    requires WellFormed(data[..], width, height)
    ensures r == WeightedSum(data[..], width, height, x, y, 0, kernel, 9)
    ensures g == WeightedSum(data[..], width, height, x, y, 1, kernel, 9)
    ensures b == WeightedSum(data[..], width, height, x, y, 2, kernel, 9)
  {
    r, g, b := 0, 0, 0;
    for ky := 0 to 3
      invariant r == WeightedSum(data[..], width, height, x, y, 0, kernel, 3 * ky)
      invariant g == WeightedSum(data[..], width, height, x, y, 1, kernel, 3 * ky)
      invariant b == WeightedSum(data[..], width, height, x, y, 2, kernel, 3 * ky)
    {
      r, g, b := BlurRow(data, width, height, x, y, kernel, ky, r, g, b);
    }
  }

  /** The kx loop of window row ky: the accumulators move from the sums over
      the first 3 * ky taps to the sums over the first 3 * (ky + 1). */
  method BlurRow(data: array<Byte>, width: nat, height: nat, x: nat, y: nat, kernel: Kernel, ky: nat, r0: int, g0: int, b0: int)
    returns (r: int, g: int, b: int)
    requires WellFormed(data[..], width, height) && ky < 3
    requires r0 == WeightedSum(data[..], width, height, x, y, 0, kernel, 3 * ky)
    requires g0 == WeightedSum(data[..], width, height, x, y, 1, kernel, 3 * ky)
    requires b0 == WeightedSum(data[..], width, height, x, y, 2, kernel, 3 * ky)
    ensures r == WeightedSum(data[..], width, height, x, y, 0, kernel, 3 * (ky + 1))
    ensures g == WeightedSum(data[..], width, height, x, y, 1, kernel, 3 * (ky + 1))
    ensures b == WeightedSum(data[..], width, height, x, y, 2, kernel, 3 * (ky + 1))
  {
    ghost var d := data[..];
    ghost var t := 3 * ky;
    r, g, b := r0, g0, b0;
    for kx := 0 to 3
      invariant t == 3 * ky + kx
      invariant r == WeightedSum(d, width, height, x, y, 0, kernel, t)
      invariant g == WeightedSum(d, width, height, x, y, 1, kernel, t)
      invariant b == WeightedSum(d, width, height, x, y, 2, kernel, t)
    {
      var offsetX := x + kx - 1;
      var offsetY := y + ky - 1;
      if offsetX >= 0 && offsetX < width && offsetY >= 0 && offsetY < height {
        OffsetInRange(width, height, offsetX, offsetY, 2);
        var offset := Offset(width, offsetX, offsetY);
        var weight := kernel[ky][kx];
        SumStepIn(d, width, height, x, y, 0, kernel, ky, kx, t, r, data[offset]);
        SumStepIn(d, width, height, x, y, 1, kernel, ky, kx, t, g, data[offset + 1]);
        SumStepIn(d, width, height, x, y, 2, kernel, ky, kx, t, b, data[offset + 2]);
        r := r + data[offset] * weight;
        g := g + data[offset + 1] * weight;
        b := b + data[offset + 2] * weight;
      } else {
        SumStepOut(d, width, height, x, y, 0, kernel, ky, kx, t);
        SumStepOut(d, width, height, x, y, 1, kernel, ky, kx, t);
        SumStepOut(d, width, height, x, y, 2, kernel, ky, kx, t);
      }
      t := t + 1;
    }
    assert t == 3 * (ky + 1);
  }

  /** gradientX and gradientY over the red channel, for either edge detector. */
  method Gradients(data: array<Byte>, width: nat, height: nat, x: nat, y: nat, kernelX: Kernel, kernelY: Kernel)
    returns (gradientX: int, gradientY: int)
    requires WellFormed(data[..], width, height)
    ensures gradientX == WeightedSum(data[..], width, height, x, y, 0, kernelX, 9)
    ensures gradientY == WeightedSum(data[..], width, height, x, y, 0, kernelY, 9)
  {
    gradientX, gradientY := 0, 0;
    for ky := 0 to 3
      invariant gradientX == WeightedSum(data[..], width, height, x, y, 0, kernelX, 3 * ky)
      invariant gradientY == WeightedSum(data[..], width, height, x, y, 0, kernelY, 3 * ky)
    {
      gradientX, gradientY := GradientRow(data, width, height, x, y, kernelX, kernelY, ky, gradientX, gradientY);
    }
  }

  /** The kx loop of window row ky for both gradients. */
  method GradientRow(data: array<Byte>, width: nat, height: nat, x: nat, y: nat, kernelX: Kernel, kernelY: Kernel,
                     ky: nat, gx0: int, gy0: int)
    returns (gradientX: int, gradientY: int)
    requires WellFormed(data[..], width, height) && ky < 3
    requires gx0 == WeightedSum(data[..], width, height, x, y, 0, kernelX, 3 * ky)
    requires gy0 == WeightedSum(data[..], width, height, x, y, 0, kernelY, 3 * ky)
    ensures gradientX == WeightedSum(data[..], width, height, x, y, 0, kernelX, 3 * (ky + 1))
    ensures gradientY == WeightedSum(data[..], width, height, x, y, 0, kernelY, 3 * (ky + 1))
  {
    gradientX, gradientY := gx0, gy0;
    for kx := 0 to 3
      invariant gradientX == WeightedSum(data[..], width, height, x, y, 0, kernelX, 3 * ky + kx)
      invariant gradientY == WeightedSum(data[..], width, height, x, y, 0, kernelY, 3 * ky + kx)
    {
      gradientX, gradientY := GradientTap(data, width, height, x, y, kernelX, kernelY, ky, kx, gradientX, gradientY);
    }
  }

  /** The body of the kx loop: tap (kx, ky) added to both gradients when it
      lies inside the image. */
  method GradientTap(data: array<Byte>, width: nat, height: nat, x: nat, y: nat, kernelX: Kernel, kernelY: Kernel,
                     ky: nat, kx: nat, gx0: int, gy0: int)
    returns (gradientX: int, gradientY: int)
    requires WellFormed(data[..], width, height) && ky < 3 && kx < 3
    requires gx0 == WeightedSum(data[..], width, height, x, y, 0, kernelX, 3 * ky + kx)
    requires gy0 == WeightedSum(data[..], width, height, x, y, 0, kernelY, 3 * ky + kx)
    ensures gradientX == WeightedSum(data[..], width, height, x, y, 0, kernelX, 3 * ky + kx + 1)
    ensures gradientY == WeightedSum(data[..], width, height, x, y, 0, kernelY, 3 * ky + kx + 1)
  {
    ghost var d := data[..];
    gradientX, gradientY := gx0, gy0;
    var offsetX := x + kx - 1;
    var offsetY := y + ky - 1;
    if offsetX >= 0 && offsetX < width && offsetY >= 0 && offsetY < height {
      OffsetInRange(width, height, offsetX, offsetY, 0);
      var intensity := data[Offset(width, offsetX, offsetY)];
      SumStepIn(d, width, height, x, y, 0, kernelX, ky, kx, 3 * ky + kx, gradientX, intensity);
      SumStepIn(d, width, height, x, y, 0, kernelY, ky, kx, 3 * ky + kx, gradientY, intensity);
      gradientX := gradientX + kernelX[ky][kx] * intensity;
      gradientY := gradientY + kernelY[ky][kx] * intensity;
    } else {
      SumStepOut(d, width, height, x, y, 0, kernelX, ky, kx, 3 * ky + kx);
      SumStepOut(d, width, height, x, y, 0, kernelY, ky, kx, 3 * ky + kx);
    }
  }

  /** windowPixels: the red values of the in-bounds window, pushed in scan order. */
  method CollectWindow(data: array<Byte>, width: nat, height: nat, x: nat, y: nat) returns (windowPixels: seq<Byte>)
    requires WellFormed(data[..], width, height)
    ensures windowPixels == Window(data[..], width, height, x, y, 9)
  {
    windowPixels := [];
    for ky := 0 to 3
      invariant windowPixels == Window(data[..], width, height, x, y, 3 * ky)
    {
      windowPixels := WindowRow(data, width, height, x, y, ky, windowPixels);
    }
  }

  /** The kx loop of window row ky: the in-bounds red values of the row
      pushed after those of the rows above. */
  method WindowRow(data: array<Byte>, width: nat, height: nat, x: nat, y: nat, ky: nat, pushed: seq<Byte>)
    returns (windowPixels: seq<Byte>)
    requires WellFormed(data[..], width, height) && ky < 3
    requires pushed == Window(data[..], width, height, x, y, 3 * ky)
    ensures windowPixels == Window(data[..], width, height, x, y, 3 * (ky + 1))
  {
    ghost var d := data[..];
    ghost var t := 3 * ky;
    windowPixels := pushed;
    for kx := 0 to 3
      invariant t == 3 * ky + kx
      invariant windowPixels == Window(d, width, height, x, y, t)
    {
      var offsetX := x + kx - 1;
      var offsetY := y + ky - 1;
      if offsetX >= 0 && offsetX < width && offsetY >= 0 && offsetY < height {
        OffsetInRange(width, height, offsetX, offsetY, 0);
        var index := Offset(width, offsetX, offsetY);
        WindowStepIn(d, width, height, x, y, ky, kx, t, windowPixels, data[index]);
        windowPixels := windowPixels + [data[index]];
      } else {
        WindowStepOut(d, width, height, x, y, ky, kx, t);
      }
      t := t + 1;
    }
    assert t == 3 * (ky + 1);
  }

  /** The blurred R, G, B of pixel (x, y): each sum stored as sum / 16. */
  method BlurPixel(data: array<Byte>, width: nat, height: nat, x: nat, y: nat) returns (r: Byte, g: Byte, b: Byte)
    requires WellFormed(data[..], width, height)
    ensures r == BlurChannel(data[..], width, height, x, y, 0)
    ensures g == BlurChannel(data[..], width, height, x, y, 1)
    ensures b == BlurChannel(data[..], width, height, x, y, 2)
  {
    var rSum, gSum, bSum := BlurSums(data, width, height, x, y, GaussianKernel);
    r := ClampDiv(rSum, GaussianDivisor);
    g := ClampDiv(gSum, GaussianDivisor);
    b := ClampDiv(bSum, GaussianDivisor);
  }

  /** The stored magnitude of the two gradients at (x, y). */
  method EdgePixel(data: array<Byte>, width: nat, height: nat, x: nat, y: nat, kernelX: Kernel, kernelY: Kernel)
    returns (magnitude: Byte)
    requires WellFormed(data[..], width, height)
    ensures magnitude == EdgeMagnitude(data[..], width, height, x, y, kernelX, kernelY)
  {
    var gradientX, gradientY := Gradients(data, width, height, x, y, kernelX, kernelY);
    magnitude := StoredMagnitude(gradientX * gradientX + gradientY * gradientY);
  }

  /** The middle element of the sorted window at (x, y). */
  method MedianPixel(data: array<Byte>, width: nat, height: nat, x: nat, y: nat) returns (medianValue: Byte)
    requires WellFormed(data[..], width, height) && InBounds(width, height, x, y)
    ensures medianValue == MedianValue(data[..], width, height, x, y)
  {
    var windowPixels := CollectWindow(data, width, height, x, y);
    WindowSize(data[..], width, height, x, y, 9);
    MiddleOfSorted(windowPixels);
    var sorted := SortAscending(windowPixels);
    var medianIndex := |windowPixels| / 2;
    medianValue := sorted[medianIndex];
  }

  /** The R, G and B bytes filter f writes for pixel (x, y). */
  method PixelColour(f: Filter, data: array<Byte>, width: nat, height: nat, x: nat, y: nat) returns (r: Byte, g: Byte, b: Byte)
    requires WellFormed(data[..], width, height) && InBounds(width, height, x, y)
    ensures r == FilteredByte(f, data[..], width, height, x, y, 0)
    ensures g == FilteredByte(f, data[..], width, height, x, y, 1)
    ensures b == FilteredByte(f, data[..], width, height, x, y, 2)
  {
    match f
    case GaussianBlur =>
      r, g, b := BlurPixel(data, width, height, x, y);
    case Sobel =>
      var magnitude := EdgePixel(data, width, height, x, y, SobelX, SobelY);
      r, g, b := magnitude, magnitude, magnitude;
    case Prewitt =>
      var magnitude := EdgePixel(data, width, height, x, y, PrewittX, PrewittY);
      r, g, b := magnitude, magnitude, magnitude;
    case MedianFilter =>
      var medianValue := MedianPixel(data, width, height, x, y);
      r, g, b := medianValue, medianValue, medianValue;
  }

  /** The scratch buffer after the scan: a fresh buffer of the same length,
      every byte of it overwritten, each pixel's R, G, B from PixelColour and
      its alpha copied. */
  method Scan(f: Filter, data: array<Byte>, width: nat, height: nat) returns (scratch: array<Byte>)
    requires WellFormed(data[..], width, height)
    ensures fresh(scratch)
    ensures scratch[..] == Output(f, data[..], width, height)
  {
    scratch := new Byte[data.Length];
    for y := 0 to height
      invariant scratch.Length == data.Length && scratch != data
      invariant Offset(width, 0, y) <= data.Length
      invariant forall i :: 0 <= i < Offset(width, 0, y) ==> scratch[i] == OutputByte(f, data[..], width, height, i)
    {
      ScanRow(f, data, scratch, width, height, y);
    }
    assert Offset(width, 0, height) == data.Length;
  }

  /** The x loop of the scan: row y of the scratch buffer, the rows above it
      kept. */
  method ScanRow(f: Filter, data: array<Byte>, scratch: array<Byte>, width: nat, height: nat, y: nat)
    requires WellFormed(data[..], width, height) && y < height
    requires scratch.Length == data.Length && scratch != data && Offset(width, 0, y) <= data.Length
    requires forall i :: 0 <= i < Offset(width, 0, y) ==> scratch[i] == OutputByte(f, data[..], width, height, i)
    modifies scratch
    ensures Offset(width, 0, y + 1) <= scratch.Length
    ensures forall i :: 0 <= i < Offset(width, 0, y + 1) ==> scratch[i] == OutputByte(f, data[..], width, height, i)
    ensures forall i :: Offset(width, 0, y + 1) <= i < scratch.Length ==> scratch[i] == old(scratch[i])
  {
    RowEnd(width, height, y);
    for x := 0 to width
      invariant Offset(width, x, y) <= data.Length
      invariant forall i :: 0 <= i < Offset(width, x, y) ==> scratch[i] == OutputByte(f, data[..], width, height, i)
      invariant forall i :: Offset(width, 0, y + 1) <= i < scratch.Length ==> scratch[i] == old(scratch[i])
    {
      NextPixel(width, height, x, y);
      ghost var before := scratch[..];
      FillPixel(f, data, scratch, width, height, x, y);
      PixelWritten(f, data[..], width, height, x, y, before, scratch[..]);
    }
    RowEnd(width, height, y);
  }

  /** The body of the scan: the four bytes of pixel (x, y) in the scratch
      buffer, every other byte kept. */
  method FillPixel(f: Filter, data: array<Byte>, scratch: array<Byte>, width: nat, height: nat, x: nat, y: nat)
    requires WellFormed(data[..], width, height) && InBounds(width, height, x, y)
    requires scratch.Length == data.Length && scratch != data && Offset(width, x, y) + 4 <= data.Length
    modifies scratch
    ensures forall i :: 0 <= i < scratch.Length && (i < Offset(width, x, y) || Offset(width, x, y) + 4 <= i) ==>
              scratch[i] == old(scratch[i])
    ensures scratch[Offset(width, x, y)] == FilteredByte(f, data[..], width, height, x, y, 0)
    ensures scratch[Offset(width, x, y) + 1] == FilteredByte(f, data[..], width, height, x, y, 1)
    ensures scratch[Offset(width, x, y) + 2] == FilteredByte(f, data[..], width, height, x, y, 2)
    ensures scratch[Offset(width, x, y) + 3] == FilteredByte(f, data[..], width, height, x, y, 3)
  {
    var r, g, b := PixelColour(f, data, width, height, x, y);
    var offset := Offset(width, x, y);
    var alpha := data[offset + 3];
    scratch[offset] := r;
    scratch[offset + 1] := g;
    scratch[offset + 2] := b;
    scratch[offset + 3] := alpha;
  }

  /** Writing pixel (x, y)'s four output bytes after the pixels before it
      extends the finished prefix by one pixel. */
  lemma PixelWritten(f: Filter, d: seq<Byte>, width: nat, height: nat, x: nat, y: nat, before: seq<Byte>, after: seq<Byte>)
    requires WellFormed(d, width, height) && InBounds(width, height, x, y)
    requires |before| == |after| == |d| && Offset(width, x, y) + 4 <= |d|
    requires forall i :: 0 <= i < Offset(width, x, y) ==> before[i] == OutputByte(f, d, width, height, i)
    requires forall i :: 0 <= i < Offset(width, x, y) ==> after[i] == before[i]
    requires after[Offset(width, x, y)] == FilteredByte(f, d, width, height, x, y, 0)
    requires after[Offset(width, x, y) + 1] == FilteredByte(f, d, width, height, x, y, 1)
    requires after[Offset(width, x, y) + 2] == FilteredByte(f, d, width, height, x, y, 2)
    requires after[Offset(width, x, y) + 3] == FilteredByte(f, d, width, height, x, y, 3)
    ensures forall i :: 0 <= i < Offset(width, x, y) + 4 ==> after[i] == OutputByte(f, d, width, height, i)
  {
    var o := Offset(width, x, y);
    forall i | o <= i < o + 4
      ensures after[i] == OutputByte(f, d, width, height, i)
    {
      ByteAt(f, d, width, height, x, y, i);
      var c := i - o;
      assert i == o + c;
    }
  }

  lemma NextPixel(width: nat, height: nat, x: nat, y: nat)
    requires InBounds(width, height, x, y)
    ensures Offset(width, x + 1, y) == Offset(width, x, y) + 4 <= width * height * 4
  {
    OffsetInRange(width, height, x, y, 3);
  }

  /** The end of row y is the start of row y + 1. */
  lemma RowEnd(width: nat, height: nat, y: nat)
    requires y < height
    ensures Offset(width, width, y) == Offset(width, 0, y + 1) <= width * height * 4
  {
    Raster.MulLeq(y + 1, height, width);
  }

  /** The final loop: every byte of dst overwritten by the same byte of src. */
  method CopyBack(src: array<Byte>, dst: array<Byte>)
    requires src.Length == dst.Length
    modifies dst
    ensures dst[..] == old(src[..])
  {
    for i := 0 to dst.Length
      invariant forall j :: 0 <= j < i ==> dst[j] == old(src[j])
      invariant forall j :: i <= j < src.Length ==> src[j] == old(src[j])
    {
      dst[i] := src[i];
    }
  }

  method ApplyGaussianBlur(data: array<Byte>, width: nat, height: nat)
    requires WellFormed(data[..], width, height)
    modifies data
    ensures data[..] == Output(GaussianBlur, old(data[..]), width, height)
  {
    var blurredData := Scan(GaussianBlur, data, width, height);
    CopyBack(blurredData, data);
  }

  method ApplySobelEdgeDetection(data: array<Byte>, width: nat, height: nat)
    requires WellFormed(data[..], width, height)
    modifies data
    ensures data[..] == Output(Sobel, old(data[..]), width, height)
  {
    var sobelData := Scan(Sobel, data, width, height);
    CopyBack(sobelData, data);
  }

  method ApplyPrewittEdgeDetection(data: array<Byte>, width: nat, height: nat)
    requires WellFormed(data[..], width, height)
    modifies data
    ensures data[..] == Output(Prewitt, old(data[..]), width, height)
  {
    var prewittData := Scan(Prewitt, data, width, height);
    CopyBack(prewittData, data);
  }

  method ApplyMedianFilter(data: array<Byte>, width: nat, height: nat)
    requires WellFormed(data[..], width, height)
    modifies data
    ensures data[..] == Output(MedianFilter, old(data[..]), width, height)
  {
    var medianFilteredData := Scan(MedianFilter, data, width, height);
    CopyBack(medianFilteredData, data);
  }

  /** The switch on the selected filter's name; any other name, 'None'
      included, takes the default branch and leaves the buffer alone. */
  method ApplySelectedFilter(selectedFilter: string, data: array<Byte>, width: nat, height: nat)
    requires WellFormed(data[..], width, height)
    modifies data
    ensures data[..] == Processed(selectedFilter, old(data[..]), width, height)
  {
    if selectedFilter == "GaussianBlur" {
      ApplyGaussianBlur(data, width, height);
    } else if selectedFilter == "Sobel" {
      ApplySobelEdgeDetection(data, width, height);
    } else if selectedFilter == "Prewitt" {
      ApplyPrewittEdgeDetection(data, width, height);
    } else if selectedFilter == "MedianFilter" {
      ApplyMedianFilter(data, width, height);
    }
  }
}
