/** The 3×3 window every filter scans. Its nine taps are numbered t = 0 .. 8
    in the order of the source's loops, t = 3 * ky + kx for row ky = Row(t)
    and column kx = Col(t),
    tap t of the window around (x, y) being pixel (x + kx - 1, y + ky - 1).
    Taps outside the image are skipped, never clamped or mirrored, so the
    sums and the window below are built from the in-bounds taps only. */
module Neighbourhood {
  import opened Raster

  /** A 3×3 weight matrix, indexed [ky][kx] as in the source. */
  type Kernel = k: seq<seq<int>> | |k| == 3 && forall row :: 0 <= row < 3 ==> |k[row]| == 3
    witness [[0, 0, 0], [0, 0, 0], [0, 0, 0]]

  /** The row ky and the column kx of tap t. */
  function Row(t: nat): nat {
    if t < 3 then 0 else if t < 6 then 1 else 2
  }

  function Col(t: nat): int {
    t - 3 * Row(t)
  }

  function Weight(k: Kernel, t: nat): int
    requires t < 9
  {
    k[Row(t)][Col(t)]
  }

  /** Tap t of channel c in the window centred on (x, y). */
  function Tap(d: seq<Byte>, width: nat, height: nat, x: nat, y: nat, c: nat, t: nat): Option<Byte>
    requires WellFormed(d, width, height) && c < 4 && t < 9
  {
    Sample(d, width, height, x + Col(t) - 1, y + Row(t) - 1, c)
  }

  predicate TapInBounds(width: nat, height: nat, x: nat, y: nat, t: nat) {
    InBounds(width, height, x + Col(t) - 1, y + Row(t) - 1)
  }

  /** The accumulator after the first t taps: the sum of weight × value over
      the in-bounds ones. */
  function WeightedSum(d: seq<Byte>, width: nat, height: nat, x: nat, y: nat, c: nat, k: Kernel, t: nat): int
    requires WellFormed(d, width, height) && c < 4 && t <= 9
  {
    if t == 0 then 0
    else
      WeightedSum(d, width, height, x, y, c, k, t - 1) +
      match Tap(d, width, height, x, y, c, t - 1)
      case None => 0
      case Some(v) => v * Weight(k, t - 1)
  }

  /** The sum of the weights of the in-bounds taps among the first t. */
  function InBoundsWeight(width: nat, height: nat, x: nat, y: nat, k: Kernel, t: nat): int
    requires t <= 9
  {
    if t == 0 then 0
    else
      InBoundsWeight(width, height, x, y, k, t - 1) +
      if TapInBounds(width, height, x, y, t - 1) then Weight(k, t - 1) else 0
  }

  /** The sum of the first t weights of the kernel. */
  function KernelWeight(k: Kernel, t: nat): int
    requires t <= 9
  {
    if t == 0 then 0 else KernelWeight(k, t - 1) + Weight(k, t - 1)
  }

  /** The kernel's whole weight, entry by entry. */
  lemma KernelWeightEntries(k: Kernel)
    ensures KernelWeight(k, 9) == k[0][0] + k[0][1] + k[0][2] + k[1][0] + k[1][1] + k[1][2] + k[2][0] + k[2][1] + k[2][2]
  {
    assert KernelWeight(k, 1) == k[0][0];
    assert KernelWeight(k, 2) == KernelWeight(k, 1) + k[0][1];
    assert KernelWeight(k, 3) == KernelWeight(k, 2) + k[0][2];
    assert KernelWeight(k, 4) == KernelWeight(k, 3) + k[1][0];
    assert KernelWeight(k, 5) == KernelWeight(k, 4) + k[1][1];
    assert KernelWeight(k, 6) == KernelWeight(k, 5) + k[1][2];
    assert KernelWeight(k, 7) == KernelWeight(k, 6) + k[2][0];
    assert KernelWeight(k, 8) == KernelWeight(k, 7) + k[2][1];
  }

  /** What tap t adds to the in-bounds weight: its weight if it is in
      bounds, nothing otherwise. */
  function Counted(width: nat, height: nat, x: nat, y: nat, k: Kernel, t: nat): int
    requires t < 9
  {
    if TapInBounds(width, height, x, y, t) then Weight(k, t) else 0
  }

  /** The in-bounds weight, tap by tap. */
  lemma InBoundsWeightEntries(width: nat, height: nat, x: nat, y: nat, k: Kernel)
    ensures InBoundsWeight(width, height, x, y, k, 9) ==
              Counted(width, height, x, y, k, 0) + Counted(width, height, x, y, k, 1) + Counted(width, height, x, y, k, 2) +
              Counted(width, height, x, y, k, 3) + Counted(width, height, x, y, k, 4) + Counted(width, height, x, y, k, 5) +
              Counted(width, height, x, y, k, 6) + Counted(width, height, x, y, k, 7) + Counted(width, height, x, y, k, 8)
  {
    assert InBoundsWeight(width, height, x, y, k, 1) == Counted(width, height, x, y, k, 0);
    assert InBoundsWeight(width, height, x, y, k, 2) == InBoundsWeight(width, height, x, y, k, 1) + Counted(width, height, x, y, k, 1);
    assert InBoundsWeight(width, height, x, y, k, 3) == InBoundsWeight(width, height, x, y, k, 2) + Counted(width, height, x, y, k, 2);
    assert InBoundsWeight(width, height, x, y, k, 4) == InBoundsWeight(width, height, x, y, k, 3) + Counted(width, height, x, y, k, 3);
    assert InBoundsWeight(width, height, x, y, k, 5) == InBoundsWeight(width, height, x, y, k, 4) + Counted(width, height, x, y, k, 4);
    assert InBoundsWeight(width, height, x, y, k, 6) == InBoundsWeight(width, height, x, y, k, 5) + Counted(width, height, x, y, k, 5);
    assert InBoundsWeight(width, height, x, y, k, 7) == InBoundsWeight(width, height, x, y, k, 6) + Counted(width, height, x, y, k, 6);
    assert InBoundsWeight(width, height, x, y, k, 8) == InBoundsWeight(width, height, x, y, k, 7) + Counted(width, height, x, y, k, 7);
  }

  /** The whole window lies inside the image. */
  predicate Interior(width: nat, height: nat, x: nat, y: nat) {
    1 <= x && x + 1 < width && 1 <= y && y + 1 < height
  }

  /** Every in-bounds tap of channel c around (x, y) holds v. */
  predicate ConstantAround(d: seq<Byte>, width: nat, height: nat, x: nat, y: nat, c: nat, v: Byte)
    requires WellFormed(d, width, height) && c < 4
  {
    forall t :: 0 <= t < 9 ==> Tap(d, width, height, x, y, c, t).Some? ==> Tap(d, width, height, x, y, c, t).value == v
  }

  /** Over a constant window the weighted sum is that value times the weight
      of the taps that were in bounds. */
  lemma {:induction false} ConstantWindowSum(d: seq<Byte>, width: nat, height: nat, x: nat, y: nat, c: nat, k: Kernel, v: Byte, t: nat)
    requires WellFormed(d, width, height) && c < 4 && t <= 9
    requires ConstantAround(d, width, height, x, y, c, v)
    ensures WeightedSum(d, width, height, x, y, c, k, t) == v * InBoundsWeight(width, height, x, y, k, t)
  {
    if t > 0 {
      ConstantWindowSum(d, width, height, x, y, c, k, v, t - 1);
      var before := InBoundsWeight(width, height, x, y, k, t - 1);
      if TapInBounds(width, height, x, y, t - 1) {
        assert Tap(d, width, height, x, y, c, t - 1) == Some(v);
        Raster.Distribute(v, before, Weight(k, t - 1));
      }
    }
  }

  /** Inside the image every tap counts, so the in-bounds weight is the
      kernel's whole weight. */
  lemma {:induction false} InteriorWeight(width: nat, height: nat, x: nat, y: nat, k: Kernel, t: nat)
    requires Interior(width, height, x, y) && t <= 9
    ensures InBoundsWeight(width, height, x, y, k, t) == KernelWeight(k, t)
  {
    if t > 0 {
      InteriorWeight(width, height, x, y, k, t - 1);
    }
  }

  /** For a kernel without negative weights the sum lies between 0 and
      255 times the in-bounds weight. */
  lemma {:induction false} NonNegativeSumBounds(d: seq<Byte>, width: nat, height: nat, x: nat, y: nat, c: nat, k: Kernel, t: nat)
    requires WellFormed(d, width, height) && c < 4 && t <= 9
    requires forall j :: 0 <= j < 9 ==> Weight(k, j) >= 0
    ensures 0 <= WeightedSum(d, width, height, x, y, c, k, t) <= 255 * InBoundsWeight(width, height, x, y, k, t)
    ensures 0 <= InBoundsWeight(width, height, x, y, k, t) <= KernelWeight(k, t)
  {
    if t > 0 {
      NonNegativeSumBounds(d, width, height, x, y, c, k, t - 1);
      var w := Weight(k, t - 1);
      var tap := Tap(d, width, height, x, y, c, t - 1);
      if TapInBounds(width, height, x, y, t - 1) {
        assert tap.Some?;
        Raster.MulLeq(tap.value, 255, w);
        Raster.MulLeq(0, tap.value, w);
        assert WeightedSum(d, width, height, x, y, c, k, t) == WeightedSum(d, width, height, x, y, c, k, t - 1) + tap.value * w;
      } else {
        assert tap.None?;
      }
    }
  }

  /** The red values of the in-bounds taps among the first t, in scan order:
      the median filter's windowPixels array before sorting. */
  function Window(d: seq<Byte>, width: nat, height: nat, x: nat, y: nat, t: nat): seq<Byte>
    requires WellFormed(d, width, height) && t <= 9
  {
    if t == 0 then []
    else
      Window(d, width, height, x, y, t - 1) +
      match Tap(d, width, height, x, y, 0, t - 1)
      case None => []
      case Some(v) => [v]
  }

  /** The window holds at most one value per tap and, once the centre
      (tap 4) is passed, at least one. */
  lemma {:induction false} WindowSize(d: seq<Byte>, width: nat, height: nat, x: nat, y: nat, t: nat)
    requires WellFormed(d, width, height) && InBounds(width, height, x, y) && t <= 9
    ensures |Window(d, width, height, x, y, t)| <= t
    ensures t > 4 ==> 1 <= |Window(d, width, height, x, y, t)|
  {
    if t > 0 {
      WindowSize(d, width, height, x, y, t - 1);
      if t == 5 {
        assert Tap(d, width, height, x, y, 0, 4).Some?;
      }
    }
  }

  /** The window holds exactly the red values of its in-bounds taps. */
  lemma {:induction false} WindowMembers(d: seq<Byte>, width: nat, height: nat, x: nat, y: nat, t: nat)
    requires WellFormed(d, width, height) && t <= 9
    ensures forall v :: v in Window(d, width, height, x, y, t) <==>
              exists j :: 0 <= j < t && Tap(d, width, height, x, y, 0, j) == Some(v)
  {
    if t > 0 {
      WindowMembers(d, width, height, x, y, t - 1);
      var w := Window(d, width, height, x, y, t);
      forall v | v in w
        ensures exists j :: 0 <= j < t && Tap(d, width, height, x, y, 0, j) == Some(v)
      {
        if v !in Window(d, width, height, x, y, t - 1) {
          assert Tap(d, width, height, x, y, 0, t - 1) == Some(v);
        }
      }
      forall v | exists j :: 0 <= j < t && Tap(d, width, height, x, y, 0, j) == Some(v)
        ensures v in w
      {
        var j :| 0 <= j < t && Tap(d, width, height, x, y, 0, j) == Some(v);
        if j < t - 1 {
          assert v in Window(d, width, height, x, y, t - 1);
        }
      }
    }
  }

  /** One step of the source's (ky, kx) loops, tap t = 3 * ky + kx in
      bounds: the running sum grows by the tap's value times its weight. */
  lemma SumStepIn(d: seq<Byte>, width: nat, height: nat, x: nat, y: nat, c: nat, k: Kernel,
                  ky: nat, kx: nat, t: nat, sum: int, value: int)
    requires WellFormed(d, width, height) && c < 4 && ky < 3 && kx < 3 && t == 3 * ky + kx
    requires InBounds(width, height, x + kx - 1, y + ky - 1)
    requires Offset(width, x + kx - 1, y + ky - 1) + c < |d| && value == d[Offset(width, x + kx - 1, y + ky - 1) + c]
    requires sum == WeightedSum(d, width, height, x, y, c, k, t)
    ensures WeightedSum(d, width, height, x, y, c, k, t + 1) == sum + value * k[ky][kx] == sum + k[ky][kx] * value
  {
    assert Row(t) == ky && Col(t) == kx;
  }

  /** One step of the loops, tap t = 3 * ky + kx out of bounds: the sum stays. */
  lemma SumStepOut(d: seq<Byte>, width: nat, height: nat, x: nat, y: nat, c: nat, k: Kernel, ky: nat, kx: nat, t: nat)
    requires WellFormed(d, width, height) && c < 4 && ky < 3 && kx < 3 && t == 3 * ky + kx
    requires !InBounds(width, height, x + kx - 1, y + ky - 1)
    ensures WeightedSum(d, width, height, x, y, c, k, t + 1) == WeightedSum(d, width, height, x, y, c, k, t)
  {
    assert Row(t) == ky && Col(t) == kx;
  }

  /** The window's steps: an in-bounds tap pushes its red value ... */
  lemma WindowStepIn(d: seq<Byte>, width: nat, height: nat, x: nat, y: nat, ky: nat, kx: nat, t: nat,
                     window: seq<Byte>, value: Byte)
    requires WellFormed(d, width, height) && ky < 3 && kx < 3 && t == 3 * ky + kx
    requires InBounds(width, height, x + kx - 1, y + ky - 1)
    requires Offset(width, x + kx - 1, y + ky - 1) < |d| && value == d[Offset(width, x + kx - 1, y + ky - 1)]
    requires window == Window(d, width, height, x, y, t)
    ensures Window(d, width, height, x, y, t + 1) == window + [value]
  {
    assert Row(t) == ky && Col(t) == kx;
  }

  /** ... and an out-of-bounds one pushes nothing. */
  lemma WindowStepOut(d: seq<Byte>, width: nat, height: nat, x: nat, y: nat, ky: nat, kx: nat, t: nat)
    requires WellFormed(d, width, height) && ky < 3 && kx < 3 && t == 3 * ky + kx
    requires !InBounds(width, height, x + kx - 1, y + ky - 1)
    ensures Window(d, width, height, x, y, t + 1) == Window(d, width, height, x, y, t)
  {
    assert Row(t) == ky && Col(t) == kx;
  }
}
