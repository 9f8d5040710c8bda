/** The raster the filters work on: a flat, row-major RGBA byte buffer of
    width * height pixels, four bytes per pixel (R, G, B, A), and the
    bounds-checked sampler every filter's inner loop uses. */
module Raster {

  /** One element of a Uint8ClampedArray. */
  type Byte = b: int | 0 <= b < 256

  datatype Option<T> = None | Some(value: T)

  /** The buffer length a canvas yields for a width × height image. */
  predicate WellFormed(d: seq<Byte>, width: nat, height: nat) {
    |d| == width * height * 4
  }

  predicate InBounds(width: nat, height: nat, x: int, y: int) {
    0 <= x < width && 0 <= y < height
  }

  /** Index of the red byte of pixel (x, y): (y * width + x) * 4. */
  function Offset(width: nat, x: nat, y: nat): nat {
    (y * width + x) * 4
  }

  /** A byte position named by its pixel and channel (0 = R, 1 = G, 2 = B, 3 = A). */
  datatype Coord = Coord(x: nat, y: nat, channel: nat)

  lemma OffsetInRange(width: nat, height: nat, x: nat, y: nat, c: nat)
    requires InBounds(width, height, x, y) && c < 4
    ensures Offset(width, x, y) + c < width * height * 4
  {
    assert y * width + x < (y + 1) * width;
    assert (y + 1) * width <= height * width by {
      MulLeq(y + 1, height, width);
    }
  }

  lemma MulLeq(a: nat, b: nat, m: nat)
    requires a <= b
    ensures a * m <= b * m
    ensures (a + 1) * m == a * m + m
  {
    assert b * m == a * m + (b - a) * m;
  }

  lemma Distribute(a: int, b: int, c: int)
    ensures a * (b + c) == a * b + a * c
  {
  }

  lemma MulZero(m: int)
    ensures 0 * m == 0
  {
  }

  /** Byte i of the buffer is channel p.channel of pixel (p.x, p.y). */
  predicate Holds(width: nat, height: nat, i: nat, p: Coord) {
    InBounds(width, height, p.x, p.y) && p.channel < 4 && Offset(width, p.x, p.y) + p.channel == i
  }

  /** The pixel and channel that byte i of the buffer belongs to. */
  ghost function Locate(width: nat, height: nat, i: nat): (p: Coord)
    requires i < width * height * 4
    ensures Holds(width, height, i, p)
  {
    LocateExists(width, height, i);
    var p :| Holds(width, height, i, p); p
  }

  /** Every byte of the buffer belongs to some pixel: (i / 4) % width,
      (i / 4) / width, channel i % 4. */
  lemma LocateExists(width: nat, height: nat, i: nat)
    requires i < width * height * 4
    ensures exists p: Coord :: Holds(width, height, i, p)
  {
    var pixel := i / 4;
    assert width > 0 by {
      if width == 0 { MulZero(height * 4); }
    }
    assert pixel / width < height by {
      if pixel / width >= height {
        MulLeq(height, pixel / width, width);
      }
    }
    assert Holds(width, height, i, Coord(pixel % width, pixel / width, i % 4));
  }

  /** Euclidean division is determined by any quotient and remainder that fit. */
  lemma DivModUnique(a: nat, b: nat, q: nat, r: nat)
    requires 0 <= r < b && a == q * b + r
    ensures a / b == q && a % b == r
  {
    var q', r' := a / b, a % b;
    assert a == q' * b + r';
    if q' < q {
      MulLeq(q' + 1, q, b);
    } else if q < q' {
      MulLeq(q + 1, q', b);
    }
  }

  /** Locate inverts Offset: the byte at Offset(width, x, y) + c is channel c of (x, y). */
  lemma LocateOffset(width: nat, height: nat, x: nat, y: nat, c: nat)
    requires InBounds(width, height, x, y) && c < 4
    ensures Offset(width, x, y) + c < width * height * 4
    ensures Locate(width, height, Offset(width, x, y) + c) == Coord(x, y, c)
  {
    OffsetInRange(width, height, x, y, c);
    var i := Offset(width, x, y) + c;
    var p := Locate(width, height, i);
    DivModUnique(i, 4, y * width + x, c);
    DivModUnique(i, 4, p.y * width + p.x, p.channel);
    DivModUnique(y * width + x, width, y, x);
    DivModUnique(p.y * width + p.x, width, p.y, p.x);
  }

  /** The sampler: the stored byte of channel c at (x, y), or None when (x, y)
      lies outside the image. Nothing is clamped or wrapped. */
  function Sample(d: seq<Byte>, width: nat, height: nat, x: int, y: int, c: nat): Option<Byte>
    requires WellFormed(d, width, height) && c < 4
  {
    if InBounds(width, height, x, y) then
      OffsetInRange(width, height, x, y, c);
      Some(d[Offset(width, x, y) + c])
    else
      None
  }
}
