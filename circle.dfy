/**
 * Circular extraction: the largest centred square of the source image is copied
 * into a fresh transparent buffer, but only the pixels on or inside the circle
 * inscribed in that square. The corners carry no image data, so a rotated crop
 * shows no square outline that could give the angle away.
 */
module Circle {
  import opened Pixels

  /** `min(width, height)`: the side of the square crop. */
  function Diameter(width: nat, height: nat): (d: nat)
    ensures d <= width && d <= height
    ensures d == width || d == height
  {
    if width <= height then width else height
  }

  /**
   * `center - radius` along one axis of length `len`: where the crop window
   * starts. Being a `nat` means the unsigned subtraction never underflows; the
   * window of `diameter` pixels from there stays inside the axis, and the
   * margins left and right of it differ by at most one pixel.
   */
  function CenterOffset(len: nat, diameter: nat): (offset: nat)
    requires diameter <= len
    ensures offset + diameter <= len
    ensures -1 <= (len - offset - diameter) - offset <= 1
  {
    len / 2 - diameter / 2
  }

  /**
   * The inclusive circle test of the extraction loop, in unbounded integers:
   * (x, y) lies on or inside the circle of the given radius centred at (radius, radius).
   */
  predicate InDisc(x: int, y: int, radius: int): (inside: bool)
    ensures x == radius && y == radius ==> inside
    // inclusive: the four axis points exactly `radius` from the centre pass
    ensures y == radius && (x == 0 || x == 2 * radius) ==> inside
    ensures x == radius && (y == 0 || y == 2 * radius) ==> inside
  {
    (x - radius) * (x - radius) + (y - radius) * (y - radius) <= radius * radius
  }

  /** What the extraction writes at (x, y) of the crop of `src`. */
  ghost function CropPixel(src: array2<Pixel>, x: nat, y: nat): (p: Pixel)
    reads src
    requires x < Diameter(src.Length0, src.Length1) && y < Diameter(src.Length0, src.Length1)
  {
    var d := Diameter(src.Length0, src.Length1);
    if InDisc(x, y, d / 2) then src[CenterOffset(src.Length0, d) + x, CenterOffset(src.Length1, d) + y]
    else Transparent
  }

  /**
   * `circle` is the circular crop of `src`: a `diameter` x `diameter` buffer whose
   * pixel (x, y) is the source pixel at the same offset from the crop window's
   * corner when (x, y) passes the circle test, and fully transparent otherwise.
   */
  ghost predicate IsCircleCrop(src: array2<Pixel>, circle: array2<Pixel>)
    reads src, circle
  {
    var d := Diameter(src.Length0, src.Length1);
    circle.Length0 == d && circle.Length1 == d &&
    forall x: nat, y: nat :: x < d && y < d ==> circle[x, y] == CropPixel(src, x, y)
  }

  /** The extraction loop of the generator. */
  method ExtractCircle(src: array2<Pixel>) returns (circle: array2<Pixel>)
    ensures IsCircleCrop(src, circle)
    ensures circle != src
  {
    var diameter := Diameter(src.Length0, src.Length1);
    var radius := diameter / 2;
    var centerX := src.Length0 / 2;
    var centerY := src.Length1 / 2;
    circle := new Pixel[diameter, diameter]((i, j) => Transparent);
    for y := 0 to diameter
      invariant forall i: nat, j: nat :: i < diameter && j < diameter ==>
        circle[i, j] == if j < y then CropPixel(src, i, j) else Transparent
    {
      for x := 0 to diameter
        invariant forall i: nat, j: nat :: i < diameter && j < diameter ==>
          circle[i, j] == if j < y || (j == y && i < x) then CropPixel(src, i, j) else Transparent
      {
        var dx := x - radius;
        var dy := y - radius;
        if dx * dx + dy * dy <= radius * radius {
          circle[x, y] := src[centerX - radius + x, centerY - radius + y];
        }
      }
    }
  }

  /** For 0 <= b <= a, squaring keeps the order. */
  lemma SquareMonotone(a: int, b: int)
    requires 0 <= b <= a
    ensures b * b <= a * a
  {
    assert b * b <= b * a;
    assert b * a <= a * a;
  }

  /** A coordinate further than `bound` from 0, on either side, has a larger square. */
  lemma SquareBeyondBound(t: int, bound: int)
    requires 0 <= bound
    requires t > bound || t < -bound
    ensures bound * bound < t * t
  {
    var m := if t > bound then t else -t;
    assert m * m == t * t;
    assert bound * bound <= bound * m;
    assert bound * m < m * m;
  }

  /** A coordinate whose square offset fits within radius^2 is at most `radius` away from the centre. */
  lemma OffsetWithinRadius(t: int, radius: int)
    requires 0 <= radius && t * t <= radius * radius
    ensures -radius <= t <= radius
  {
    if t > radius || t < -radius {
      SquareBeyondBound(t, radius);
      assert false;
    }
  }

  /**
   * Every point that passes the circle test has both coordinates in [0, 2 * radius]:
   * for an odd diameter (2 * radius + 1) the whole disc is inside the buffer; for an
   * even one it reaches one column and one row past it, which the loop never visits.
   */
  lemma {:induction false} DiscWithinSquare(x: int, y: int, radius: nat)
    requires InDisc(x, y, radius)
    ensures 0 <= x <= 2 * radius && 0 <= y <= 2 * radius
  {
    var dx, dy := x - radius, y - radius;
    assert dx * dx <= radius * radius by {
      assert dy * dy >= 0;
    }
    assert dy * dy <= radius * radius by {
      assert dx * dx >= 0;
    }
    OffsetWithinRadius(dx, radius);
    OffsetWithinRadius(dy, radius);
  }

  /**
   * The four corners of a crop fail the circle test once the crop is big enough
   * to have corners: an odd diameter of at least 3, or any diameter of at least 8.
   * (With an even diameter the circle is centred half a pixel below and right of the
   * buffer's centre; for diameters 2, 4 and 6 it still covers the corner (d-1, d-1).)
   */
  lemma {:induction false} CornersOutsideDisc(d: nat)
    requires (d % 2 == 1 && d >= 3) || d >= 8
    ensures !InDisc(0, 0, d / 2) && !InDisc(d - 1, 0, d / 2)
    ensures !InDisc(0, d - 1, d / 2) && !InDisc(d - 1, d - 1, d / 2)
  {
    var r := d / 2;
    var s := d - 1 - r;
    assert 1 <= s <= r;
    assert s * s >= 1 by { SquareMonotone(s, 1); }
    assert (0 - r) * (0 - r) == r * r;
    // corner (d-1, d-1): 2 * s * s > r * r
    if d % 2 == 1 {
      assert s == r;
    } else {
      assert s == r - 1 && r >= 4;
      assert r * (r - 4) >= 0 by { SquareMonotone(r - 4, 0); assert r * (r - 4) >= (r - 4) * (r - 4); }
      assert s * s == r * r - 2 * r + 1;
    }
  }

  /** For diameters 2, 4 and 6 the corner (d-1, d-1) passes the circle test. */
  lemma SmallEvenCropsKeepCorner()
    ensures InDisc(1, 1, 1) && InDisc(3, 3, 2) && InDisc(5, 5, 3)
  {
  }

  /**
   * The anti-leakage property of the crop: once it is big enough to have corners,
   * its four corner pixels are fully transparent, whatever the source image holds.
   */
  lemma CropCornersTransparent(src: array2<Pixel>, circle: array2<Pixel>)
    requires IsCircleCrop(src, circle)
    requires var d := circle.Length0; (d % 2 == 1 && d >= 3) || d >= 8
    ensures var d := circle.Length0;
      circle[0, 0] == Transparent && circle[d - 1, 0] == Transparent &&
      circle[0, d - 1] == Transparent && circle[d - 1, d - 1] == Transparent
  {
    var d := circle.Length0;
    CornersOutsideDisc(d);
    assert circle[0, 0] == CropPixel(src, 0, 0);
    assert circle[d - 1, 0] == CropPixel(src, d - 1, 0);
    assert circle[0, d - 1] == CropPixel(src, 0, d - 1);
    assert circle[d - 1, d - 1] == CropPixel(src, d - 1, d - 1);
  }

  // ---------------------------------------------------------------------------
  // The circle test as the source writes it, in wrapping 32-bit arithmetic.
  // ---------------------------------------------------------------------------

  const TwoTo31: int := 0x8000_0000
  const TwoTo32: int := 0x1_0000_0000

  /** Two's-complement wrap of an integer into the `i32` range, as a release build computes. */
  function Wrap32(v: int): (w: int)
    ensures -TwoTo31 <= w < TwoTo31
    ensures (w - v) % TwoTo32 == 0
    ensures -TwoTo31 <= v < TwoTo31 ==> w == v
  {
    (v + TwoTo31) % TwoTo32 - TwoTo31
  }

  /**
   * The circle test with `x as i32`, `radius as i32` and every subtraction,
   * product and sum wrapped to 32 bits. For crops with a shorter side of at most
   * 65535 pixels (radius <= 32767) it agrees with the exact test on every pixel
   * the loop visits.
   */
  predicate InDiscAsWritten(x: nat, y: nat, radius: nat): (admitted: bool)
    ensures radius <= 32767 && x <= 2 * radius && y <= 2 * radius ==> (admitted <==> InDisc(x, y, radius))
  {
    NoWrapBelowLimit(x, y, radius);
    var r := Wrap32(radius);
    var dx := Wrap32(Wrap32(x) - r);
    var dy := Wrap32(Wrap32(y) - r);
    Wrap32(Wrap32(dx * dx) + Wrap32(dy * dy)) <= Wrap32(r * r)
  }

  /**
   * With radius 32768 (a shorter side of 65536 or 65537 pixels) the wrapped sum
   * for the corner (0, 0) is 2^31, which wraps to -2^31, so the as-written test
   * admits the corner the exact test rejects, and the crop keeps a square corner.
   */
  lemma AsWrittenAdmitsCorner()
    ensures InDiscAsWritten(0, 0, 32768) && !InDisc(0, 0, 32768)
  {
    assert Wrap32(32768) == 32768;
    assert Wrap32(0) == 0;
    assert Wrap32(0 - 32768) == -32768;
    assert -32768 * -32768 == 0x4000_0000;
    assert Wrap32(0x4000_0000) == 0x4000_0000;
    assert Wrap32(0x4000_0000 + 0x4000_0000) == -TwoTo31;
    assert 32768 * 32768 == 0x4000_0000;
  }

  /** True when `v` is a value of Rust's `i32`. */
  predicate IsI32(v: int) {
    -TwoTo31 <= v < TwoTo31
  }

  /**
   * For radius <= 32767 and coordinates up to 2 * radius (every pixel of a crop
   * whose shorter side is at most 65535), every intermediate value of the circle
   * test fits in an `i32`, so nothing wraps.
   */
  lemma {:induction false} NoWrapBelowLimit(x: nat, y: nat, radius: nat)
    ensures radius <= 32767 && x <= 2 * radius && y <= 2 * radius ==>
      IsI32(x) && IsI32(y) && IsI32(radius) && IsI32(x - radius) && IsI32(y - radius) &&
      IsI32((x - radius) * (x - radius)) && IsI32((y - radius) * (y - radius)) &&
      IsI32((x - radius) * (x - radius) + (y - radius) * (y - radius)) && IsI32(radius * radius)
  {
    if radius <= 32767 && x <= 2 * radius && y <= 2 * radius {
      var dx, dy := x - radius, y - radius;
      SquareMonotone(radius, 0);
      SquareMonotone(32767, radius);
      if dx >= 0 { SquareMonotone(radius, dx); } else { SquareMonotone(radius, -dx); assert (-dx) * (-dx) == dx * dx; }
      if dy >= 0 { SquareMonotone(radius, dy); } else { SquareMonotone(radius, -dy); assert (-dy) * (-dy) == dy * dy; }
      assert 0 <= dx * dx <= 32767 * 32767 && 0 <= dy * dy <= 32767 * 32767;
    }
  }
}
