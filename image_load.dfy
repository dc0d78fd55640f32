/**
 * What `load_image` computes before its cache: the EXIF orientation correction of
 * `get_exif_rotation` and the aspect-fit size of `scale_image_aspect_fit`, in exact arithmetic.
 * Decoding, rotating and resampling pixels belong to PIL and pygame and appear only through their
 * results: the decoded size and the orientation value read, if any.
 */
module ImageLoad {
  import opened Wrappers
  import opened Arith

  datatype Size = Size(width: nat, height: nat)

  /**
   * What decoding a file yields: its size and the EXIF Orientation value, `None` when the EXIF
   * path raised (no EXIF block, no Orientation tag, a format PIL or pygame refuses), in which case
   * the file is loaded by pygame without rotation.
   */
  datatype Decoded = Decoded(size: Size, orientation: Option<int>)

  /** The counter-clockwise rotation `get_exif_rotation` applies: 3, 6 and 8 rotate, all else does not. */
  function RotationFor(orientation: Option<int>): (degrees: int)
    ensures degrees % 90 == 0 && 0 <= degrees < 360
    ensures degrees == 0 <==> orientation.None? || orientation.value !in {3, 6, 8}
    ensures orientation == Some(3) ==> degrees == 180
    ensures orientation == Some(6) ==> degrees == 270
    ensures orientation == Some(8) ==> degrees == 90
  {
    match orientation
    case Some(3) => 180
    case Some(6) => 270
    case Some(8) => 90
    case _ => 0
  }

  /**
   * The clockwise turn that the EXIF Orientation tag (tag 274 of the EXIF 2.3 standard) asks
   * for to show the stored picture upright, for its values without mirroring: 1, 3, 6 and 8.
   */
  function UprightTurn(orientation: int): (clockwise: int)
    requires orientation in {1, 3, 6, 8}
  {
    if orientation == 3 then 180 else if orientation == 6 then 90 else if orientation == 8 then 270 else 0
  }

  /** The counter-clockwise `rotate` undoes the turn the tag records: together they make whole turns. */
  lemma RotationUprights(orientation: int)
    requires orientation in {1, 3, 6, 8}
    ensures (RotationFor(Some(orientation)) + UprightTurn(orientation)) % 360 == 0
  {
  }

  /** The size after `rotate(..., expand=True)`: a quarter turn swaps the sides. */
  function OrientedSize(d: Decoded): (s: Size)
    ensures d.orientation in {Some(6), Some(8)} ==> s == Size(d.size.height, d.size.width)
    ensures d.orientation !in {Some(6), Some(8)} ==> s == d.size
  {
    if RotationFor(d.orientation) % 180 == 90 then Size(d.size.height, d.size.width) else d.size
  }

  /**
   * `scale_image_aspect_fit`: the exact form of `ratio = min(sw / iw, sh / ih)` followed by
   * `(int(iw * ratio), int(ih * ratio))`. A zero image side raises ZeroDivisionError, which
   * `load_image` turns into `None`.
   */
  function AspectFit(image: Size, screen: Size): (r: Option<Size>)
    ensures r.None? <==> image.width == 0 || image.height == 0
  {
    if image.width == 0 || image.height == 0 then None
    else if screen.width * image.height <= screen.height * image.width then
      Some(Size(screen.width, image.height * screen.width / image.width))
    else
      Some(Size(image.width * screen.height / image.height, screen.height))
  }

  /** The scale factor of the source, in exact arithmetic. */
  function Ratio(image: Size, screen: Size): real
    requires image.width > 0 && image.height > 0
  {
    var byWidth := screen.width as real / image.width as real;
    var byHeight := screen.height as real / image.height as real;
    if byHeight < byWidth then byHeight else byWidth
  }

  lemma FloorOfQuotient(n: nat, d: nat)
    requires d > 0
    ensures (n as real / d as real).Floor == n / d
  {
    var q, r := n / d, n % d;
    assert n == q * d + r;
    assert n as real / d as real == q as real + r as real / d as real;
    assert 0.0 <= r as real / d as real < 1.0;
  }

  lemma CastProduct(a: nat, b: nat)
    ensures (a * b) as real == a as real * b as real
  {
  }

  /** For positive denominators, comparing quotients is comparing cross products. */
  lemma CompareQuotients(a: real, b: real, c: real, d: real)
    requires b > 0.0 && d > 0.0
    ensures a / b <= c / d <==> a * d <= c * b
  {
    assert a / b * (b * d) == a * d;
    assert c / d * (b * d) == c * b;
  }

  /** Scaling `x` by `y / z` is the same as dividing `x * y` by `z`. */
  lemma ScaleByQuotient(x: real, y: real, z: real)
    requires z > 0.0
    ensures x * (y / z) == (x * y) / z
  {
  }

  /** `int(x * (y / z))` in exact arithmetic is the integer quotient `x * y / z`. */
  lemma FloorOfScaled(x: nat, y: nat, z: nat)
    requires z > 0
    ensures (x as real * (y as real / z as real)).Floor == x * y / z
  {
    ScaleByQuotient(x as real, y as real, z as real);
    CastProduct(x, y);
    FloorOfQuotient(x * y, z);
  }

  /** Exactly when the width is the tighter bound, the ratio is the width quotient. */
  lemma RatioChoice(image: Size, screen: Size)
    requires image.width > 0 && image.height > 0
    ensures screen.width * image.height <= screen.height * image.width ==>
              Ratio(image, screen) == screen.width as real / image.width as real
    ensures screen.width * image.height > screen.height * image.width ==>
              Ratio(image, screen) == screen.height as real / image.height as real
  {
    CastProduct(screen.width, image.height);
    CastProduct(screen.height, image.width);
    CompareQuotients(screen.width as real, image.width as real, screen.height as real, image.height as real);
  }

  /** Scaling both sides by `t / b`: side `b` becomes `t`, side `o` becomes `o * t / b`. */
  lemma ScaledFloors(b: nat, o: nat, t: nat)
    requires b > 0
    ensures (b as real * (t as real / b as real)).Floor == t
    ensures (o as real * (t as real / b as real)).Floor == o * t / b
  {
    FloorOfScaled(b, t, b);
    FloorOfScaled(o, t, b);
    CancelFactor(b, t);
  }

  /** `AspectFit` is the source's formula evaluated without rounding error. */
  lemma AspectFitIsRatioFloor(image: Size, screen: Size)
    requires image.width > 0 && image.height > 0
    ensures var s := AspectFit(image, screen).value;
            var ratio := Ratio(image, screen);
            && s.width == (image.width as real * ratio).Floor
            && s.height == (image.height as real * ratio).Floor
  {
    RatioChoice(image, screen);
    if screen.width * image.height <= screen.height * image.width {
      assert AspectFit(image, screen).value == Size(screen.width, image.height * screen.width / image.width);
      assert Ratio(image, screen) == screen.width as real / image.width as real;
      ScaledFloors(image.width, image.height, screen.width);
    } else {
      assert AspectFit(image, screen).value == Size(image.width * screen.height / image.height, screen.height);
      assert Ratio(image, screen) == screen.height as real / image.height as real;
      ScaledFloors(image.height, image.width, screen.height);
    }
  }

  lemma MulCancel(a: int, b: int, c: int)
    requires c > 0
    ensures a * c <= b * c ==> a <= b
    ensures a * c < b * c ==> a < b
  {
    if a > b {
      MulMono(b + 1, a, c);
      assert (b + 1) * c == b * c + c;
    } else if a == b {
    } else {
      MulMono(a + 1, b, c);
      assert (a + 1) * c == a * c + c;
    }
  }

  /**
   * The side `o * t / b` scaled along with `b -> t` stays within `limit` when the other side is
   * the tighter bound, strictly when it is strictly tighter, and is the floor of the exact length.
   */
  lemma ScaledSide(o: nat, t: nat, b: nat, limit: nat)
    requires b > 0 && t * o <= limit * b
    ensures o * t / b <= limit
    ensures t * o < limit * b ==> o * t / b < limit
    ensures (o * t / b) * b <= o * t < (o * t / b + 1) * b
  {
    var n := o * t;
    var q := n / b;
    assert n == q * b + n % b;
    assert (q + 1) * b == q * b + b;
    assert t * o == n;
    MulCancel(q, limit, b);
  }

  /**
   * The scaled image fits the screen, touches it on one side, and its other side is the largest
   * whole number of pixels that does not exceed the exact proportional length.
   */
  lemma AspectFitFits(image: Size, screen: Size)
    requires image.width > 0 && image.height > 0
    ensures var s := AspectFit(image, screen).value;
            && s.width <= screen.width && s.height <= screen.height
            && (s.width == screen.width || s.height == screen.height)
            && (s.width == screen.width ==>
                  s.height * image.width <= image.height * s.width < (s.height + 1) * image.width)
            && (s.width != screen.width ==>
                  s.width * image.height <= image.width * s.height < (s.width + 1) * image.height)
  {
    if screen.width * image.height <= screen.height * image.width {
      ScaledSide(image.height, screen.width, image.width, screen.height);
    } else {
      ScaledSide(image.width, screen.height, image.height, screen.width);
    }
  }

  /**
   * `load_image` without its cache: decode (an exception gives `None`), orient, then fit the
   * current screen. Loading fails exactly when decoding fails or a side of the picture is zero.
   */
  function LoadImage(decoded: Option<Decoded>, screen: Size): (r: Option<Size>)
    ensures r.Some? <==> decoded.Some? && decoded.value.size.width > 0 && decoded.value.size.height > 0
    ensures r.Some? ==> r.value.width <= screen.width && r.value.height <= screen.height
  {
    match decoded
    case None => None
    case Some(d) =>
      var oriented := OrientedSize(d);
      if oriented.width == 0 || oriented.height == 0 then None
      else
        AspectFitFits(oriented, screen);
        AspectFit(oriented, screen)
  }

  /** A pygame surface holding a scaled picture; `alpha == None` is the opaque default. */
  class Surface {
    const size: Size
    var alpha: Option<int>

    constructor (size: Size)
      ensures this.size == size && alpha == None
    {
      this.size := size;
      alpha := None;
    }
  }
}
