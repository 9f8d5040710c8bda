/** What a store into a Uint8ClampedArray does to a number: ToUint8Clamp of
    section 7.1.12 of ECMA-262. A value at or below 0 becomes 0, one at or
    above 255 becomes 255, anything else is rounded to the nearest integer
    with ties going to the even neighbour. The filters store two kinds of
    number, both handled here in exact integer arithmetic: a quotient n / q
    of integers (the blur's sum / 16) and the square root of a non-negative
    integer (the edge detectors' gradient magnitude). */
module ByteStore {
  import opened Raster

  /** ToUint8Clamp(n / q) for integers n and q > 0. */
  function ClampDiv(n: int, q: int): Byte
    requires q > 0
  {
    if n <= 0 then 0
    else if n >= 255 * q then 255
    else
      var f := n / q;  // the floor, as q > 0
      FloorBelow255(n, q);
      if 2 * n > (2 * f + 1) * q then f + 1
      else if 2 * n < (2 * f + 1) * q then f
      else if f % 2 == 1 then f + 1
      else f
  }

  /** r is n / q stored into a byte: 0 at or below 0, 255 at or above 255,
      otherwise an integer within a half of n / q, an exact half going to
      the even neighbour. */
  predicate RoundedQuotient(r: int, n: int, q: int) {
    && (n <= 0 ==> r == 0)
    && (n >= 255 * q ==> r == 255)
    && (0 < n < 255 * q ==> (2 * r - 1) * q <= 2 * n <= (2 * r + 1) * q)
    && (0 < n < 255 * q && ((2 * r - 1) * q == 2 * n || (2 * r + 1) * q == 2 * n) ==> r % 2 == 0)
  }

  lemma ClampDivRounds(n: int, q: int)
    requires q > 0
    ensures RoundedQuotient(ClampDiv(n, q), n, q)
  {
    if 0 < n < 255 * q {
      FloorBelow255(n, q);
    }
  }

  /** A whole multiple v * q of q is stored as v. */
  lemma ClampDivExact(v: Byte, q: int)
    requires q > 0
    ensures ClampDiv(v * q, q) == v
  {
    if 0 < v < 255 {
      Raster.MulLeq(v, 254, q);
      Raster.DivModUnique(v * q, q, v, 0);
    }
  }

  lemma FloorBelow255(n: int, q: int)
    requires q > 0 && 0 < n < 255 * q
    ensures 0 <= n / q < 255
    ensures (n / q) * q <= n < (n / q) * q + q
  {
    var f := n / q;
    assert n == f * q + n % q;
    if f >= 255 {
      Raster.MulLeq(255, f, q);
    }
  }

  function Square(n: int): nat {
    n * n
  }

  /** Math.sqrt(s) stored into a byte, for an integer s >= 0. */
  function StoredMagnitude(s: nat): Byte {
    RoundSqrtFrom(s, 0)
  }

  /** r is sqrt(s) stored into a byte: the k with (2k - 1)^2 < 4s < (2k + 1)^2
      (the square root of an integer is never exactly a half-integer),
      saturated at 255, and 0 exactly when s is. */
  predicate RoundedSqrt(r: int, s: int) {
    && (r < 255 ==> (r == 0 || (2 * r - 1) * (2 * r - 1) < 4 * s) && 4 * s < (2 * r + 1) * (2 * r + 1))
    && (r == 255 <==> 509 * 509 < 4 * s)
    && (r == 0 <==> s == 0)
  }

  lemma StoredMagnitudeRounds(s: nat)
    ensures RoundedSqrt(StoredMagnitude(s), s)
  {
    var r: int := StoredMagnitude(s);
    RoundSqrtFromRounds(s, 0);
    if r < 255 {
      SquareMonotone(2 * r + 1, 509);
    }
  }

  /** The same for the gradient magnitude sqrt(gx^2 + gy^2): the store is 0
      exactly when both components are. */
  lemma MagnitudeRounds(gx: int, gy: int)
    ensures RoundedSqrt(StoredMagnitude(gx * gx + gy * gy), gx * gx + gy * gy)
    ensures StoredMagnitude(gx * gx + gy * gy) == 0 <==> gx == 0 && gy == 0
  {
    NonZeroSquare(gx);
    NonZeroSquare(gy);
    StoredMagnitudeRounds(gx * gx + gy * gy);
  }

  lemma NonZeroSquare(a: int)
    ensures a * a >= 0
    ensures a != 0 ==> a * a > 0
  {
    if a < 0 {
      assert a * a == (-a) * (-a);
    }
  }

  /** The search behind StoredMagnitude: the least k' >= k with
      4s < (2k' + 1)^2, or 255 if there is none below 255. */
  function RoundSqrtFrom(s: nat, k: nat): Byte
    requires k <= 255 && (k == 0 || (2 * k - 1) * (2 * k - 1) < 4 * s)
    decreases 255 - k
  {
    if k == 255 || 4 * s < (2 * k + 1) * (2 * k + 1) then k
    else
      OddSquare(k);
      RoundSqrtFrom(s, k + 1)
  }

  lemma {:induction false} RoundSqrtFromRounds(s: nat, k: nat)
    requires k <= 255 && (k == 0 || (2 * k - 1) * (2 * k - 1) < 4 * s)
    ensures var r := RoundSqrtFrom(s, k);
      && (r < 255 ==> (r == 0 || (2 * r - 1) * (2 * r - 1) < 4 * s) && 4 * s < (2 * r + 1) * (2 * r + 1))
      && (r == 255 ==> 509 * 509 < 4 * s)
      && (r == 0 ==> s == 0)
    decreases 255 - k
  {
    if !(k == 255 || 4 * s < (2 * k + 1) * (2 * k + 1)) {
      OddSquare(k);
      RoundSqrtFromRounds(s, k + 1);
    }
  }

  /** An odd square is never a multiple of 4. */
  lemma OddSquare(k: nat)
    ensures (2 * k + 1) * (2 * k + 1) == 4 * (k * k + k) + 1
  {
  }

  lemma SquareMonotone(a: nat, b: nat)
    requires a <= b
    ensures a * a <= b * b
  {
    Raster.MulLeq(a, b, a);
    Raster.MulLeq(a, b, b);
  }
}
