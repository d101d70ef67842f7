/**
 * The thumbnail converter of the previewer: the cover-fit geometry of
 * `convert` (resize so that the target box is covered, then cut the middle
 * out), the bounds and error contracts of `resize` and `crop`, and the format
 * dispatch of `SelectType`.
 *
 * Pixels are not modelled. An image is whether it is non-nil and the `Max`
 * corner of its bounds, which is all the converter reads. `sizeFactor` is an exact
 * fraction and the `int(float64(..))` truncations are floor divisions. The
 * content sniffer and the codecs are parameters.
 */
module Converter {
  import opened Wrappers
  import GoText

  const ReduceError: string := "can't reduce toOrBelow zero"
  const ResizeError: string := "can't resize to zero or negative value"
  const CorruptedError: string := "corrupted image"
  const CornerError: string := "not valid corner points"
  const UnknownFormat: string := "unknown format"

  /** `image.Point`. */
  datatype Point = Point(X: int, Y: int)

  /**
   * `Bounds().Max` of an image. Decoded and resized images have their `Min`
   * corner at the origin; a crop from reversed corners moves `Min` below it.
   */
  datatype Size = Size(width: nat, height: nat)

  /** `x`, or 0 when `x` is negative. */
  function NonNeg(x: int): nat {
    if x < 0 then 0 else x
  }

  /** Go's `/` on `int`, which truncates toward zero. */
  function Quot(a: int, b: int): int
    requires b > 0
  {
    if a < 0 then -((-a) / b) else a / b
  }

  // ---------------------------------------------------------------------------
  // resize and crop on bounds
  // ---------------------------------------------------------------------------

  /** The bounds `resize(width, height)` leaves, or its error. */
  function Resized(width: int, height: int): (r: Result<Size, string>)
    ensures r.Success? <==> width > 0 && height > 0
    ensures r.Success? ==> r.value.width == width && r.value.height == height
    ensures r.Failure? ==> r.error == ResizeError
  {
    if width <= 0 || height <= 0 then Failure(ResizeError)
    else Success(Size(width, height))
  }

  /**
   * The bounds `crop(p1, p2)` leaves on an image (`None` for a nil one), or its
   * error. The new image is `image.Rect(0, 0, p2.X - p1.X, p2.Y - p1.Y)`, which
   * swaps reversed coordinates: on an axis where `p2` lies before `p1` the
   * difference becomes `Min` and `Max` stays at 0.
   */
  function Cropped(img: Option<Size>, p1: Point, p2: Point): (r: Result<Size, string>)
    ensures r.Success? ==> img.Some? && r.value.width <= img.value.width && r.value.height <= img.value.height
  {
    if img.None? then Failure(CorruptedError)
    else if p1.X < 0 || p1.Y < 0 || p2.X > img.value.width || p2.Y > img.value.height then Failure(CornerError)
    else Success(Size(NonNeg(p2.X - p1.X), NonNeg(p2.Y - p1.Y)))
  }

  /** A crop of a window that lies inside the image gives exactly the window. */
  lemma CropWindow(img: Size, p1: Point, p2: Point)
    requires 0 <= p1.X <= p2.X <= img.width && 0 <= p1.Y <= p2.Y <= img.height
    ensures Cropped(Some(img), p1, p2) == Success(Size(p2.X - p1.X, p2.Y - p1.Y))
    ensures p2.X - p1.X <= img.width && p2.Y - p1.Y <= img.height
  {
  }

  /**
   * Reversed corners pass the corner check, and the crop leaves `Max` at 0 on
   * the reversed axis: a 10×10 image cropped from (5, 0) to (2, 3) ends at (0, 3).
   */
  lemma ReversedCorners(img: Size, p1: Point, p2: Point)
    requires 0 <= p1.X && 0 <= p1.Y && p2.X <= img.width && p2.Y <= img.height
    requires p2.X < p1.X
    ensures Cropped(Some(img), p1, p2) == Success(Size(0, NonNeg(p2.Y - p1.Y)))
    ensures Cropped(Some(Size(10, 10)), Point(5, 0), Point(2, 3)) == Success(Size(0, 3))
  {
  }

  /** A crop fails exactly when the image is nil or a corner lies outside its bounds. */
  lemma CropFails(img: Option<Size>, p1: Point, p2: Point)
    ensures Cropped(img, p1, p2).Failure? <==>
      img.None? || p1.X < 0 || p1.Y < 0 || p2.X > img.value.width || p2.Y > img.value.height
  {
  }

  // ---------------------------------------------------------------------------
  // sizeFactor and the choice made by convert
  // ---------------------------------------------------------------------------

  /** A non-negative fraction `num / den` with `den > 0`. */
  datatype Factor = Factor(num: nat, den: nat)

  /** `sizeFactor`: width over height, and 0 when the height is 0. */
  function SizeFactor(width: nat, height: nat): (f: Factor)
    ensures f.den > 0
  {
    if height == 0 then Factor(0, 1) else Factor(width, height)
  }

  /** `a > b` on fractions with positive denominators. */
  predicate Greater(a: Factor, b: Factor) {
    a.num * b.den > b.num * a.den
  }

  /** Which branch of `convert`'s switch runs. */
  datatype Fit = Wider | Same | Narrower

  function FitOf(src: Size, width: nat, height: nat): Fit {
    var sfOriginal, sfNew := SizeFactor(src.width, src.height), SizeFactor(width, height);
    if Greater(sfOriginal, sfNew) then Wider
    else if Greater(sfNew, sfOriginal) then Narrower
    else Same
  }

  /** `int(float64(height) * sf)`. */
  function CalcWidth(height: nat, sf: Factor): int
    requires sf.den > 0
  {
    (height * sf.num) / sf.den
  }

  /**
   * `int(float64(width) / sf)`; dividing by a zero factor gives `+Inf`, which
   * Go converts to the smallest `int` on amd64.
   */
  function CalcHeight(width: nat, sf: Factor): int
    requires sf.den > 0
  {
    if sf.num == 0 then GoText.MinInt64 else (width * sf.den) / sf.num
  }

  /** What `convert` does to a valid target: resize to `width × height`, then maybe crop. */
  datatype Plan = Plan(width: int, height: int, window: Option<(Point, Point)>)

  function PlanOf(src: Size, width: int, height: int): Plan
    requires width > 0 && height > 0
  {
    var sf := SizeFactor(src.width, src.height);
    match FitOf(src, width, height)
    case Wider =>
      var calcWidth := CalcWidth(height, sf);
      var x := Quot(calcWidth - width, 2);
      Plan(calcWidth, height, Some((Point(x, 0), Point(x + width, height))))
    case Same =>
      Plan(width, height, None)
    case Narrower =>
      var calcHeight := CalcHeight(width, sf);
      var y := Quot(calcHeight - height, 2);
      Plan(width, calcHeight, Some((Point(0, y), Point(width, y + height))))
  }

  /** The bounds `convert(width, height)` leaves on an image of bounds `src`, or its error. */
  function Converted(src: Size, width: int, height: int): (r: Result<Size, string>)
    ensures r.Success? ==> width > 0 && height > 0
    ensures r.Failure? ==> r.error == ReduceError || r.error == ResizeError || r.error == CornerError
  {
    if width <= 0 || height <= 0 then Failure(ReduceError)
    else
      var plan := PlanOf(src, width, height);
      match Resized(plan.width, plan.height)
      case Failure(e) => Failure(e)
      case Success(r) =>
        if plan.window.None? then Success(r)
        else Cropped(Some(r), plan.window.value.0, plan.window.value.1)
  }

  // ---------------------------------------------------------------------------
  // The cover-fit property
  // ---------------------------------------------------------------------------

  lemma DivAtLeast(a: nat, b: nat, c: nat)
    requires c > 0 && a >= b * c
    ensures a / c >= b
  {
    var q, r := a / c, a % c;
    assert a == q * c + r && r < c;
    assert (q + 1) * c == q * c + c;
    FactorLess(b, q + 1, c);
  }

  lemma FactorLess(x: int, y: int, c: nat)
    requires c > 0 && x * c < y * c
    ensures x < y
  {
    assert x * c - y * c == (x - y) * c;
  }

  /**
   * The branch taken when the source is relatively wider: the resized width
   * covers the target width, and the centred crop window lies inside the
   * resized image, with margins that differ by at most one column.
   */
  lemma WiderWindow(src: Size, width: int, height: int)
    requires src.width > 0 && src.height > 0 && width > 0 && height > 0
    requires FitOf(src, width, height) == Wider
    ensures var plan := PlanOf(src, width, height);
      && plan.width >= width && plan.height == height
      && plan.window.Some?
      && var (p1, p2) := plan.window.value;
      && 0 == p1.Y && p2.Y == height
      && 0 <= p1.X && p2.X == p1.X + width && p2.X <= plan.width
      && p1.X <= plan.width - p2.X <= p1.X + 1
  {
    DivAtLeast(height * src.width, width, src.height);
  }

  /** The mirror image of `WiderWindow`: the crop cuts rows from the top and the bottom. */
  lemma NarrowerWindow(src: Size, width: int, height: int)
    requires src.width > 0 && src.height > 0 && width > 0 && height > 0
    requires FitOf(src, width, height) == Narrower
    ensures var plan := PlanOf(src, width, height);
      && plan.height >= height && plan.width == width
      && plan.window.Some?
      && var (p1, p2) := plan.window.value;
      && 0 == p1.X && p2.X == width
      && 0 <= p1.Y && p2.Y == p1.Y + height && p2.Y <= plan.height
      && p1.Y <= plan.height - p2.Y <= p1.Y + 1
  {
    DivAtLeast(width * src.height, height, src.width);
  }

  /**
   * For a non-empty source and a positive target, `convert` succeeds and the
   * result is exactly `width × height`.
   */
  lemma CoverFit(src: Size, width: int, height: int)
    requires src.width > 0 && src.height > 0 && width > 0 && height > 0
    ensures Converted(src, width, height) == Success(Size(width, height))
  {
    var plan := PlanOf(src, width, height);
    match FitOf(src, width, height)
    case Wider =>
      WiderWindow(src, width, height);
      CropWindow(Size(plan.width, plan.height), plan.window.value.0, plan.window.value.1);
    case Same =>
    case Narrower =>
      NarrowerWindow(src, width, height);
      CropWindow(Size(plan.width, plan.height), plan.window.value.0, plan.window.value.1);
  }

  /**
   * An empty source (zero width or height) makes the resize fail: its size
   * factor is 0, so `convert` divides by it and asks for a negative height.
   */
  lemma EmptySource(src: Size, width: int, height: int)
    requires src.width == 0 || src.height == 0
    requires width > 0 && height > 0
    ensures Converted(src, width, height) == Failure(ResizeError)
  {
    var sf := SizeFactor(src.width, src.height);
    assert sf.num == 0;
    assert width * height > 0;
    assert FitOf(src, width, height) == Narrower;
  }

  /** Every outcome of `convert`, by its inputs. */
  lemma ConvertOutcome(src: Size, width: int, height: int)
    ensures Converted(src, width, height) ==
      if width <= 0 || height <= 0 then Failure(ReduceError)
      else if src.width == 0 || src.height == 0 then Failure(ResizeError)
      else Success(Size(width, height))
  {
    if width > 0 && height > 0 {
      if src.width == 0 || src.height == 0 {
        EmptySource(src, width, height);
      } else {
        CoverFit(src, width, height);
      }
    }
  }

  // ---------------------------------------------------------------------------
  // The image object
  // ---------------------------------------------------------------------------

  /** `Image`: a decoded image, replaced in place by `resize` and `crop`. */
  class Image {
    /** Whether the embedded `image.Image` is non-nil. */
    var present: bool
    /** `Bounds().Max`. */
    var size: Size

    /** `NewImage`: wraps a decoded image. */
    constructor (size: Size)
      ensures present && this.size == size
    {
      present := true;
      this.size := size;
    }

    /** `resize`: a positive target replaces the image; anything else is an error and changes nothing. */
    method Resize(width: int, height: int) returns (err: Option<string>)
      requires present
      modifies this
      ensures present
      ensures match Resized(width, height)
        case Success(r) => err == None && size == r
        case Failure(e) => err == Some(e) && size == old(size)
    {
      if width <= 0 || height <= 0 {
        return Some(ResizeError);
      }
      size := Size(width, height);
      return None;
    }

    /** `crop`: corners inside the bounds replace the image by the window; otherwise nothing changes. */
    method Crop(p1: Point, p2: Point) returns (err: Option<string>)
      modifies this
      ensures present == old(present)
      ensures match Cropped(if old(present) then Some(old(size)) else None, p1, p2)
        case Success(r) => err == None && size == r
        case Failure(e) => err == Some(e) && size == old(size)
    {
      if !present {
        return Some(CorruptedError);
      }
      if p1.X < 0 || p1.Y < 0 || p2.X > size.width || p2.Y > size.height {
        return Some(CornerError);
      }
      size := Size(NonNeg(p2.X - p1.X), NonNeg(p2.Y - p1.Y));
      return None;
    }

    /**
     * `convert`: the image becomes `width × height`, or the error of the step
     * that failed. Every failure comes before the image is replaced, so a
     * failed conversion leaves the bounds as they were.
     */
    method Convert(width: int, height: int) returns (err: Option<string>)
      requires present
      modifies this
      ensures present
      ensures match Converted(old(size), width, height)
        case Success(r) => err == None && size == r
        case Failure(e) => err == Some(e) && size == old(size)
    {
      if width <= 0 || height <= 0 {
        return Some(ReduceError);
      }
      ConvertOutcome(size, width, height);
      var plan := PlanOf(size, width, height);
      err := Resize(plan.width, plan.height);
      if err.Some? || plan.window.None? {
        return;
      }
      err := Crop(plan.window.value.0, plan.window.value.1);
    }
  }

  // ---------------------------------------------------------------------------
  // SelectType
  // ---------------------------------------------------------------------------

  datatype Format = Jpeg | Png | Gif

  /** The formats `SelectType` handles, by sniffed content type. */
  function FormatOf(contentType: string): Option<Format> {
    if contentType == "image/jpeg" then Some(Jpeg)
    else if contentType == "image/png" then Some(Png)
    else if contentType == "image/gif" then Some(Gif)
    else None
  }

  /** Encoder options: JPEG at quality 80; PNG and GIF with their defaults. */
  datatype Encoding = Encoding(format: Format, quality: Option<nat>)

  function EncodingOf(f: Format): Encoding {
    if f == Jpeg then Encoding(Jpeg, Some(80)) else Encoding(f, None)
  }

  /** `SelectType`'s result, with the sniffer and the codecs given. */
  function SelectTypeSpec(
    width: int, height: int, b: Bytes,
    sniff: Bytes -> string,
    decode: (Format, Bytes) -> Result<Size, string>,
    encode: (Encoding, Size) -> Result<Bytes, string>): Result<Bytes, string>
  {
    match FormatOf(sniff(b))
    case None => Failure(UnknownFormat)
    case Some(f) =>
      match decode(f, b)
      case Failure(e) => Failure(e)
      case Success(src) =>
        match Converted(src, width, height)
        case Failure(e) => Failure(e)
        case Success(out) => encode(EncodingOf(f), out)
  }

  /**
   * `SelectType`: sniffs the format, decodes, converts and re-encodes in the
   * same format. An image that decodes to `src` is encoded at its converted
   * bounds.
   */
  method SelectType(
    width: int, height: int, b: Bytes,
    sniff: Bytes -> string,
    decode: (Format, Bytes) -> Result<Size, string>,
    encode: (Encoding, Size) -> Result<Bytes, string>) returns (res: Result<Bytes, string>)
    ensures res == SelectTypeSpec(width, height, b, sniff, decode, encode)
  {
    var contentType := sniff(b);
    var format := FormatOf(contentType);
    if format.None? {
      return Failure(UnknownFormat);
    }
    var decoded := decode(format.value, b);
    if decoded.Failure? {
      return Failure(decoded.error);
    }
    var m := new Image(decoded.value);
    var err := m.Convert(width, height);
    if err.Some? {
      return Failure(err.value);
    }
    res := encode(EncodingOf(format.value), m.size);
  }

  /** Content that is not JPEG, PNG or GIF is refused before anything is decoded. */
  lemma UnknownFormatRefused(width: int, height: int, b: Bytes,
    sniff: Bytes -> string,
    decode: (Format, Bytes) -> Result<Size, string>,
    encode: (Encoding, Size) -> Result<Bytes, string>)
    requires FormatOf(sniff(b)).None?
    ensures SelectTypeSpec(width, height, b, sniff, decode, encode) == Failure(UnknownFormat)
  {
  }

  /**
   * A known format that decodes to a non-empty image, with a positive target,
   * is re-encoded in its own format (JPEG at quality 80) at exactly the target
   * size.
   */
  lemma SelectTypeOutput(width: int, height: int, b: Bytes,
    sniff: Bytes -> string,
    decode: (Format, Bytes) -> Result<Size, string>,
    encode: (Encoding, Size) -> Result<Bytes, string>)
    requires width > 0 && height > 0
    requires FormatOf(sniff(b)).Some?
    requires var d := decode(FormatOf(sniff(b)).value, b);
      d.Success? && d.value.width > 0 && d.value.height > 0
    ensures var f := FormatOf(sniff(b)).value;
      && SelectTypeSpec(width, height, b, sniff, decode, encode) == encode(EncodingOf(f), Size(width, height))
      && (f == Jpeg ==> EncodingOf(f).quality == Some(80))
  {
    var f := FormatOf(sniff(b)).value;
    CoverFit(decode(f, b).value, width, height);
  }
}
