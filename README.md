# Image filters: a verified model of the pixel engine

The application loads an image into a canvas and reads its RGBA pixels as a
flat byte buffer, four bytes per pixel in row-major order. It runs one of four
filters on that buffer in place, selected by name:

- a 3×3 Gaussian blur;
- Sobel edge detection;
- Prewitt edge detection;
- a 3×3 median filter.

This project models that pixel engine in Dafny and proves what each filter
computes.

Each filter is modelled the way the source writes it. Nested `y`/`x` loops
run over the pixels, with inner `ky`/`kx` loops over the 3×3 window. Every
tap outside the image is skipped. The results are written into a fresh
scratch buffer of the same length, every byte of which is overwritten: the
four bytes of each pixel become the filtered R, G and B and the input's alpha. A final loop copies the scratch
buffer back over the input. These are `method`s on `array<Byte>` with loop
invariants. Each one is proved to leave the buffer equal to a specification
function of the old buffer, `Filters.Output`.

Properties of those functions are then proved: what each filter does to flat
areas, at the border and to outliers, which channel it reads, and how the
stored bytes round.

**Stores into the byte buffer.** A store into a `Uint8ClampedArray` applies
ToUint8Clamp (section 7.1.12 of ECMA-262): clamp to 0..255, then round to the
nearest integer, with ties going to the even neighbour. This is modelled
exactly, in integer arithmetic:
- `ByteStore.ClampDiv` for the blur's `sum / 16`;
- `ByteStore.StoredMagnitude` for the edge detectors' `Math.sqrt` of an
  integer. It is characterised by integer inequalities, so no floating point
  is involved.

The modules:

- `Raster`: buffer layout, offsets and coordinates.
- `ByteStore`: byte stores.
- `Neighbourhood`: the 3×3 window. Taps are numbered t = 3·ky + kx in loop
  order, with the weighted sum and the window of red values built up tap by tap.
- `Sorting`: the comparator sort, as an in-place insertion sort proved equal
  to a functional sort.
- `Filters`: what each filter computes.
- `Engine`: the loops.
- `FilterProperties`: the promised properties.

## Model

| member | source | states |
|---|---|---|
| Engine.ApplySelectedFilter | IP-mini-project/src/App.jsx:34-49 | The buffer afterwards is `Processed(selector, old buffer)`: the named filter's output for the four filter names, and the buffer untouched for any other string (the default branch). |
| ByteStore.ClampDiv | IP-mini-project/src/App.jsx:93-95 | Definition of the blur's store of `r / kernelWeight` into the clamped byte array: 0 at or below 0, 255 at or above 255·q, otherwise the quotient rounded to nearest with ties to even. |
| ByteStore.StoredMagnitude | IP-mini-project/src/App.jsx:151-157 | Definition of the store of `Math.sqrt(s)` into the clamped byte array, computed by an upward search for the rounded root and saturated at 255. |
| Raster.Sample | IP-mini-project/src/App.jsx:81-82 | Definition of the guarded read: byte c of pixel (x, y) when 0 ≤ x < width and 0 ≤ y < height, and nothing otherwise; no clamping or wrapping. The edge and median loops guard their reads the same way (App.jsx:137-139, 253-258). |
| Neighbourhood.WeightedSum | IP-mini-project/src/App.jsx:76-90 | Definition of an accumulator after the first t taps in ky/kx order: the sum of weight × value over the in-bounds taps. It models `r`, `g`, `b` here and `gradientX`, `gradientY` at App.jsx:130-148. |
| Neighbourhood.Window | IP-mini-project/src/App.jsx:243-261 | Definition of `windowPixels` after the first t taps: the red values of the in-bounds taps, in push order. |
| Filters.FilteredByte | IP-mini-project/src/App.jsx:70-97 | Definition of byte c of pixel (x, y) after a filter: the blur's stored sum / 16, the stored gradient magnitude, or the window's median for R, G and B, and the input's alpha byte. The Sobel, Prewitt and median bodies are at App.jsx:105-166, 168-229 and 232-281. |
| Filters.Output | IP-mini-project/src/App.jsx:58-103 | Definition of the whole buffer after a filter: byte i is `FilteredByte` of the pixel and channel that i addresses, and the length is the input's. The same holds for the other three filters (App.jsx:105-281). |
| Filters.Processed | IP-mini-project/src/App.jsx:33-47 | Definition of the buffer after the switch: the selected filter's `Output`, or the buffer unchanged when no case matches. |
| Filters.Select | IP-mini-project/src/App.jsx:34-49 | A selected filter's name is the selector string. No filter is selected exactly when no filter's name is the selector. |
| FilterProperties.SwitchRoutes | IP-mini-project/src/App.jsx:34-49 | Each filter's own name runs exactly that filter. "None" and every string that names no filter leave the buffer as it was. |
| Engine.ApplyGaussianBlur | IP-mini-project/src/App.jsx:58-103 | The buffer afterwards equals `Output(GaussianBlur, old buffer)`. |
| Engine.ApplySobelEdgeDetection | IP-mini-project/src/App.jsx:105-166 | The buffer afterwards equals `Output(Sobel, old buffer)`. |
| Engine.ApplyPrewittEdgeDetection | IP-mini-project/src/App.jsx:168-229 | The buffer afterwards equals `Output(Prewitt, old buffer)`. |
| Engine.ApplyMedianFilter | IP-mini-project/src/App.jsx:232-281 | The buffer afterwards equals `Output(MedianFilter, old buffer)`. |
| Engine.Scan | IP-mini-project/src/App.jsx:68-98 | The `y` loop fills a freshly allocated scratch buffer of the input's length whose every byte is the filter's output byte. |
| Engine.ScanRow | IP-mini-project/src/App.jsx:71-97 | The `x` loop over row y extends the finished prefix of the scratch buffer from the start of row y to the start of row y + 1, each byte being the output byte, and keeps every scratch byte from the start of row y + 1 on. |
| Engine.FillPixel | IP-mini-project/src/App.jsx:92-96 | The four stores of one pixel: R, G and B get the filtered values and alpha gets the input's alpha. Every other scratch byte is unchanged. |
| Engine.PixelWritten | IP-mini-project/src/App.jsx:92-96 | After the four stores of pixel (x, y), the finished prefix reaches the pixel's end and every byte in it is the output byte at its index. |
| Engine.NextPixel | IP-mini-project/src/App.jsx:92 | The next pixel of a row starts four bytes later, still inside the buffer. |
| Engine.RowEnd | IP-mini-project/src/App.jsx:70-71 | The end of row y is the start of row y + 1, inside the buffer. |
| Engine.CopyBack | IP-mini-project/src/App.jsx:100-102 | The copy-back loop makes the buffer byte-for-byte equal to the scratch buffer. |
| Engine.PixelColour | IP-mini-project/src/App.jsx:72-95 | R, G and B written for pixel (x, y) are the filter's `FilteredByte` values for channels 0, 1 and 2. |
| Engine.BlurPixel | IP-mini-project/src/App.jsx:72-95 | The blur's three stored bytes are `BlurChannel` for R, G and B. |
| Engine.BlurSums | IP-mini-project/src/App.jsx:76-90 | The `ky`/`kx` loops leave r, g and b equal to the weighted sums of channels 0, 1 and 2 over the in-bounds taps. |
| Engine.BlurRow | IP-mini-project/src/App.jsx:77-89 | One `ky` row of taps extends each channel's sum from tap 3·ky to tap 3·ky + 3. |
| Engine.EdgePixel | IP-mini-project/src/App.jsx:126-151 | The stored magnitude equals `EdgeMagnitude` for the given kernel pair. |
| Engine.Gradients | IP-mini-project/src/App.jsx:130-148 | gradientX and gradientY are the red-channel weighted sums for the horizontal and the vertical kernel. |
| Engine.GradientRow | IP-mini-project/src/App.jsx:131-147 | One `ky` row extends both gradients from tap 3·ky to tap 3·ky + 3. |
| Engine.GradientTap | IP-mini-project/src/App.jsx:133-146 | One tap adds weight × red intensity to each gradient if it is in bounds, and nothing otherwise. |
| Engine.MedianPixel | IP-mini-project/src/App.jsx:243-266 | The value written is `MedianValue`: the window sorted ascending, read at index floor(n / 2). |
| Engine.CollectWindow | IP-mini-project/src/App.jsx:243-261 | `windowPixels` ends as the red values of the in-bounds taps, in scan order. |
| Engine.WindowRow | IP-mini-project/src/App.jsx:247-260 | One `ky` row pushes the red values of its in-bounds taps, in `kx` order. |
| Sorting.SortAscending | IP-mini-project/src/App.jsx:264 | The result is sorted ascending, is a permutation of the input, and equals the functional sort `SortedSeq`. |
| Sorting.SortedUnique | IP-mini-project/src/App.jsx:264 | Two sorted permutations of the same elements are equal, so the sorted window is determined whatever the sort algorithm. |
| Sorting.InsertInto | IP-mini-project/src/App.jsx:264 | One insertion step extends the sorted prefix a[..i + 1], keeps the multiset of the whole array and leaves the suffix a[i + 1..] unchanged. |
| Sorting.PrefixKept | IP-mini-project/src/App.jsx:264 | A rearrangement that leaves the suffix alone rearranges the prefix. With `InsertInto`'s contract, the new a[..i + 1] is therefore a sorted permutation of the old one. |
| Sorting.SwapDown | IP-mini-project/src/App.jsx:264 | Swapping two neighbours exchanges them, leaves every other element, and keeps the multiset. |
| Sorting.InsertSorted | IP-mini-project/src/App.jsx:264 | Inserting into a sorted sequence keeps it sorted. |
| Sorting.MiddleOfSorted | IP-mini-project/src/App.jsx:265-266 | For a non-empty sequence, the element at index floor(n / 2) of its sorted form is one of its elements. |
| Sorting.MiddleBounds | IP-mini-project/src/App.jsx:265-266 | The middle of the sorted sequence lies between its first and last element, and these bound every element. |
| Sorting.SortedBounds | IP-mini-project/src/App.jsx:264-266 | Every element of a sorted permutation comes from the input. Its first and last elements bound all the input's elements. |
| Raster.LocateOffset | IP-mini-project/src/App.jsx:92 | The offset (y·width + x)·4 + c of an in-bounds pixel lies in the buffer and names exactly pixel (x, y), channel c. |
| Raster.OffsetInRange | IP-mini-project/src/App.jsx:82 | Every in-bounds offset lies inside a buffer of width·height·4 bytes. |
| Filters.ByteAt | IP-mini-project/src/App.jsx:92-96 | Byte `Offset(x, y) + c` of the output is channel c of pixel (x, y) after the filter. |
| FilterProperties.LengthAndAlphaKept | IP-mini-project/src/App.jsx:96 | Every filter keeps the buffer's length and every alpha byte (index ≡ 3 mod 4). |
| Neighbourhood.SumStepIn | IP-mini-project/src/App.jsx:81-88 | An in-bounds tap at (ky, kx) adds its value times `kernel[ky][kx]` to the running sum. |
| Neighbourhood.SumStepOut | IP-mini-project/src/App.jsx:81 | An out-of-bounds tap leaves the sum unchanged. |
| Neighbourhood.WindowStepIn | IP-mini-project/src/App.jsx:253-259 | An in-bounds tap pushes its red value onto the window. |
| Neighbourhood.WindowStepOut | IP-mini-project/src/App.jsx:253 | An out-of-bounds tap pushes nothing. |
| Neighbourhood.WindowSize | IP-mini-project/src/App.jsx:243-261 | The window holds at most nine values and at least one, because the centre is always in bounds. |
| Neighbourhood.WindowMembers | IP-mini-project/src/App.jsx:243-261 | A value is in the window if and only if some in-bounds tap holds it as its red byte. |
| Neighbourhood.ConstantWindowSum | IP-mini-project/src/App.jsx:76-90 | Over a window of one value v, the sum is v times the weight of the in-bounds taps. |
| Neighbourhood.InteriorWeight | IP-mini-project/src/App.jsx:81 | For a pixel whose window is wholly inside the image, every tap counts, so the in-bounds weight is the kernel's full weight. |
| Neighbourhood.NonNegativeSumBounds | IP-mini-project/src/App.jsx:76-90 | With non-negative weights, the sum lies between 0 and 255 times the in-bounds weight, which is at most the kernel's weight. |
| Neighbourhood.KernelWeightEntries | IP-mini-project/src/App.jsx:59-66 | A kernel's total weight is the sum of its nine entries. |
| ByteStore.ClampDivRounds | IP-mini-project/src/App.jsx:93-95 | Storing n / q gives 0 at or below 0 and 255 at or above 255. Otherwise it gives an integer within one half of n / q, with exact halves going to the even neighbour. |
| ByteStore.ClampDivExact | IP-mini-project/src/App.jsx:93-95 | A whole multiple v·q stores as v. |
| ByteStore.StoredMagnitudeRounds | IP-mini-project/src/App.jsx:151-157 | Storing sqrt(s) gives the integer nearest to sqrt(s), or 255 exactly when sqrt(s) > 254.5. It gives 0 exactly when s = 0. |
| ByteStore.MagnitudeRounds | IP-mini-project/src/App.jsx:151-157 | For s = gx² + gy² the stored magnitude is that rounding, and it is 0 exactly when both gradients are 0. |
| ByteStore.RoundSqrtFromRounds | IP-mini-project/src/App.jsx:151 | The upward search from k finds the rounded square root of s. |
| FilterProperties.GaussianKernelFacts | IP-mini-project/src/App.jsx:59-66 | The blur kernel's weights are non-negative and sum to kernelWeight = 16. |
| FilterProperties.BlurIsRoundedSixteenth | IP-mini-project/src/App.jsx:76-95 | A blurred byte is ToUint8Clamp(S / 16), where S is the weighted sum over the in-bounds taps only. S lies in 0..16·255, so the result is the nearest integer to S / 16, ties to even, and never saturates. |
| FilterProperties.BlurKeepsFlatInterior | IP-mini-project/src/App.jsx:76-95 | A window of one colour wholly inside the image blurs to that colour. |
| FilterProperties.BlurDarkensFlatCorner | IP-mini-project/src/App.jsx:66-95 | In an image at least 2×2 pixels, at corner (0, 0) only four taps (weight 9) are in bounds but the divisor stays 16. A flat colour v becomes ToUint8Clamp(9v / 16), which is less than v once v ≥ 2. |
| FilterProperties.BlurDarkensFlatBorder | IP-mini-project/src/App.jsx:66-95 | At every in-bounds pixel that is not interior (edges, all four corners, and 1-wide or 1-tall images), a flat colour v becomes ToUint8Clamp(nv / 16), where the in-bounds weight n is between 4 and 12. The result is never above v, and is below v once v ≥ 3. |
| FilterProperties.BorderWeight | IP-mini-project/src/App.jsx:81 | At a pixel that is not interior, the in-bounds Gaussian weight keeps the centre's 4 and loses a whole side of weight 4: 4 ≤ n ≤ 12. |
| FilterProperties.GaussianWeights | IP-mini-project/src/App.jsx:59-63 | The blur kernel's weights in tap order are 1, 2, 1, 2, 4, 2, 1, 2, 1. |
| Neighbourhood.InBoundsWeightEntries | IP-mini-project/src/App.jsx:81-83 | The in-bounds weight is the sum over the nine taps of the tap's weight if it is in bounds and 0 otherwise. |
| FilterProperties.CornerWeight | IP-mini-project/src/App.jsx:81 | In an image at least 2×2 pixels, at corner (0, 0) the in-bounds taps are those at (ky, kx) = (1,1), (1,2), (2,1), (2,2). |
| FilterProperties.FlatCornerSum | IP-mini-project/src/App.jsx:76-90 | In an image at least 2×2 pixels, over a flat channel at the corner, the sum is v times the weights of those four taps. |
| FilterProperties.OneValuePerPixel | IP-mini-project/src/App.jsx:155-157 | Sobel, Prewitt and the median filter write one value to R, G and B: the edge magnitude of the filter's kernels, or the window's median. |
| FilterProperties.EdgeIsRoundedMagnitude | IP-mini-project/src/App.jsx:126-157 | The stored edge value is sqrt(gx² + gy²) rounded and clamped as a store does. It is 0 exactly when both gradients are 0. |
| FilterProperties.EdgeKernelsBalance | IP-mini-project/src/App.jsx:107-117 | Each Sobel and Prewitt kernel has weights summing to 0. |
| FilterProperties.NoEdgeInFlatInterior | IP-mini-project/src/App.jsx:126-157 | A red channel that is flat over a window wholly inside the image gives edge value 0, for both detectors. |
| FilterProperties.EdgeAtFlatCorner | IP-mini-project/src/App.jsx:105-229 | In an image at least 2×2 pixels, at corner (0, 0) of a flat red channel v, Sobel stores sqrt(18v²) and Prewitt stores sqrt(8v²), rounded. Both are nonzero for v > 0, so skipping out-of-bounds taps creates edges at the border. |
| FilterProperties.FlatCornerMagnitude | IP-mini-project/src/App.jsx:126-151 | In an image at least 2×2 pixels, at the corner, kernels whose in-bounds weights each sum to m give gradients (mv, mv) and the magnitude sqrt(2m²v²), which is nonzero when m and v are. |
| FilterProperties.SumsAgree | IP-mini-project/src/App.jsx:139 | Red-channel weighted sums depend only on the red bytes. |
| FilterProperties.WindowsAgree | IP-mini-project/src/App.jsx:258 | The median window depends only on the red bytes. |
| FilterProperties.EdgeReadsRedOnly | IP-mini-project/src/App.jsx:139-151 | Two buffers with the same red channel give the same edge magnitude. |
| FilterProperties.MedianReadsRedOnly | IP-mini-project/src/App.jsx:243-266 | Two buffers with the same red channel give the same median. |
| FilterProperties.RedChannelDecides | IP-mini-project/src/App.jsx:139 | For Sobel, Prewitt and the median filter, two buffers with the same red channel get the same R, G and B at every pixel. |
| FilterProperties.MedianIsMiddleOfWindow | IP-mini-project/src/App.jsx:243-272 | The median written has these properties: the window holds 1..9 values; the written value is the sorted window at index floor(n / 2); it is the red value of some in-bounds tap; it lies between the window's least and greatest. |
| FilterProperties.MedianKeepsFlatWindow | IP-mini-project/src/App.jsx:243-266 | A window whose red values are all v gives v, at the border too. |
| FilterProperties.MedianRemovesLoneOutlier | IP-mini-project/src/App.jsx:243-266 | At an interior pixel whose eight neighbours share red value v, the median is v whatever the centre holds. |
| FilterProperties.OutlierWindow | IP-mini-project/src/App.jsx:243-261 | That pixel's window is four v's, then the centre, then four v's. |
| FilterProperties.OutlierElements | IP-mini-project/src/App.jsx:243-261 | That pixel's window holds exactly eight v's and the centre's red value. |
| FilterProperties.OutlierMiddle | IP-mini-project/src/App.jsx:264-266 | Nine values, eight of them v: the sorted sequence has v at index floor(9 / 2) = 4. |
| FilterProperties.OutlierMultiset | IP-mini-project/src/App.jsx:243-261 | That window holds eight v's and the centre. |
| FilterProperties.SortedOutlier | IP-mini-project/src/App.jsx:264-266 | Eight copies of v and one other value, once sorted, have v at index 4. |
| FilterProperties.ArrangedSorted | IP-mini-project/src/App.jsx:264 | The arrangement with the other value first (if ≤ v) or last is sorted and has the same elements. |

## Left out

- The React component, its state, the file input, `FileReader`, `Image`, the
  canvas and `toDataURL` are not part of this model. The model starts from the
  byte buffer that `getImageData` returns, with its width and height, and ends
  with the buffer that `putImageData` receives.
- A buffer whose length is not width·height·4 is excluded by `requires`. The
  canvas never produces one, and the code does not check for it.
- `Math.sqrt` and JavaScript's floating point are not modelled as such. The
  stored byte is characterised exactly in integers as the rounded square root.
  The float value of sqrt(s), for s ≤ 2·(4·255)², lies within one ulp of the
  real root, and one ulp at √s ≤ 1443 is about 2.3·10⁻¹³. For an integer s
  the real root is never an exact half k + ½, and it keeps a distance from
  it: s and (k + ½)² = k² + k + ¼ differ by at least ¼, so
  |√s − (k + ½)| ≥ ¼ / (√s + k + ½) > 8·10⁻⁵. An error of one ulp therefore
  cannot cross the half, and the rounding cannot differ; this argument is
  made here, not proved.
- The engine JavaScript uses for `Array.prototype.sort` is not modelled. Any
  correct comparator sort returns the same sequence (`Sorting.SortedUnique`),
  so the model uses an insertion sort.
- The per-row and per-tap methods of `Engine` (`BlurRow`, `GradientRow`,
  `GradientTap`, `WindowRow`, `ScanRow`, `FillPixel`) are the source's loop
  bodies factored out. Each runs the same statements in the same order.
- The three colour sums of the blur are computed in the same loop; Sobel and
  Prewitt share one method, `EdgePixel`, which takes the kernel pair.

Facts about the code that a reader of the filters might expect otherwise,
all of which the model follows:

- In an image at least 2×2 pixels, a window at a corner has 4 in-bounds taps
  and at the rest of the edge it has 6. In a 1×1 image the only pixel has 1
  in-bounds tap; in an image one pixel tall (or wide) the two end pixels have
  2 and the others 3.
- For an even window size n, index floor(n / 2) of the ascending sort is the
  upper of the two middle values.
- The blur does not truncate: `r / 16` is stored through ToUint8Clamp, which
  rounds to nearest with ties to even (`FilterProperties.BlurIsRoundedSixteenth`).
- An unknown selector is not an error. The `default` branch leaves the buffer
  unchanged, and so does the initial value "None".
- The filters overwrite the input buffer in place, through the copy-back loop.
  They do not return a new buffer.
- No error is raised for a malformed buffer; see the `requires` above.
