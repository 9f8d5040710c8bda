/** What each filter computes, as functions of the input buffer: the value of
    every output byte, the image-level result and the selector that picks a
    filter. Their properties are proved in module FilterProperties. */
module Filters {
  import opened Raster
  import opened ByteStore
  import opened Neighbourhood
  import opened Sorting

  /** The filters the selector can name. */
  datatype Filter = GaussianBlur | Sobel | Prewitt | MedianFilter

  const GaussianKernel: Kernel := [[1, 2, 1], [2, 4, 2], [1, 2, 1]]
  /** kernelWeight: the blur's divisor, the same at the border as inside. */
  const GaussianDivisor: int := 16

  const SobelX: Kernel := [[-1, 0, 1], [-2, 0, 2], [-1, 0, 1]]
  const SobelY: Kernel := [[-1, -2, -1], [0, 0, 0], [1, 2, 1]]
  const PrewittX: Kernel := [[-1, 0, 1], [-1, 0, 1], [-1, 0, 1]]
  const PrewittY: Kernel := [[-1, -1, -1], [0, 0, 0], [1, 1, 1]]

  /** Blurred channel c (R, G or B) of pixel (x, y): the store of r / 16. */
  function BlurChannel(d: seq<Byte>, width: nat, height: nat, x: nat, y: nat, c: nat): Byte
    requires WellFormed(d, width, height) && c < 3
  {
    ClampDiv(WeightedSum(d, width, height, x, y, c, GaussianKernel, 9), GaussianDivisor)
  }

  /** The stored gradient magnitude at (x, y) for a pair of kernels, both
      applied to the red channel. */
  function EdgeMagnitude(d: seq<Byte>, width: nat, height: nat, x: nat, y: nat, kernelX: Kernel, kernelY: Kernel): Byte
    requires WellFormed(d, width, height)
  {
    var gx := WeightedSum(d, width, height, x, y, 0, kernelX, 9);
    var gy := WeightedSum(d, width, height, x, y, 0, kernelY, 9);
    StoredMagnitude(gx * gx + gy * gy)
  }

  /** The element at index floor(n / 2) of the sorted red window. */
  function MedianValue(d: seq<Byte>, width: nat, height: nat, x: nat, y: nat): Byte
    requires WellFormed(d, width, height) && InBounds(width, height, x, y)
  {
    var window := Window(d, width, height, x, y, 9);
    WindowSize(d, width, height, x, y, 9);
    MiddleOfSorted(window);
    SortedSeq(window)[|window| / 2]
  }

  /** Byte c of pixel (x, y) after filter f. */
  function FilteredByte(f: Filter, d: seq<Byte>, width: nat, height: nat, x: nat, y: nat, c: nat): Byte
    requires WellFormed(d, width, height) && InBounds(width, height, x, y) && c < 4
  {
    if c == 3 then
      OffsetInRange(width, height, x, y, 3);
      d[Offset(width, x, y) + 3]
    else
      match f
      case GaussianBlur => BlurChannel(d, width, height, x, y, c)
      case Sobel => EdgeMagnitude(d, width, height, x, y, SobelX, SobelY)
      case Prewitt => EdgeMagnitude(d, width, height, x, y, PrewittX, PrewittY)
      case MedianFilter => MedianValue(d, width, height, x, y)
  }

  /** Byte i of the buffer after filter f. */
  ghost function OutputByte(f: Filter, d: seq<Byte>, width: nat, height: nat, i: nat): Byte
    requires WellFormed(d, width, height) && i < |d|
  {
    var p := Locate(width, height, i);
    FilteredByte(f, d, width, height, p.x, p.y, p.channel)
  }

  /** The whole buffer after filter f. */
  ghost function Output(f: Filter, d: seq<Byte>, width: nat, height: nat): (r: seq<Byte>)
    requires WellFormed(d, width, height)
    ensures |r| == |d|
  {
    seq(|d|, i requires 0 <= i < |d| => OutputByte(f, d, width, height, i))
  }

  /** Byte i of the output, i being one of pixel (x, y)'s four bytes, is
      that pixel's filtered byte i - Offset(x, y): R, G, B, then alpha. */
  lemma ByteAt(f: Filter, d: seq<Byte>, width: nat, height: nat, x: nat, y: nat, i: nat)
    requires WellFormed(d, width, height) && InBounds(width, height, x, y)
    requires Offset(width, x, y) <= i < Offset(width, x, y) + 4
    ensures i < |d|
    ensures OutputByte(f, d, width, height, i) == FilteredByte(f, d, width, height, x, y, i - Offset(width, x, y))
  {
    var c := i - Offset(width, x, y);
    LocateOffset(width, height, x, y, c);
    assert Offset(width, x, y) + c == i;
  }

  // ---------------------------------------------------------------------
  // The selector

  /** The option value that names each filter in the selection list. */
  function Name(f: Filter): string {
    match f
    case GaussianBlur => "GaussianBlur"
    case Sobel => "Sobel"
    case Prewitt => "Prewitt"
    case MedianFilter => "MedianFilter"
  }

  /** The switch's cases; None is the default branch. */
  function Select(selector: string): (r: Option<Filter>)
    ensures r.Some? ==> Name(r.value) == selector
    ensures r.None? ==> forall f: Filter :: Name(f) != selector
  {
    if selector == "GaussianBlur" then Some(GaussianBlur)
    else if selector == "Sobel" then Some(Sobel)
    else if selector == "Prewitt" then Some(Prewitt)
    else if selector == "MedianFilter" then Some(MedianFilter)
    else None
  }

  /** The buffer after the switch has run. */
  ghost function Processed(selector: string, d: seq<Byte>, width: nat, height: nat): (r: seq<Byte>)
    requires WellFormed(d, width, height)
  {
    match Select(selector)
    case None => d
    case Some(f) => Output(f, d, width, height)
  }
}
