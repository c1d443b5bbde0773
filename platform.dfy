/** The slice of the host platform the painter relies on: Kotlin's 32-bit
    `Int`, Android colour constants, the `Bitmap` factories the painter calls,
    and the exceptions that can surface from them. */
module Platform {

  /** Kotlin `Int` range. */
  const INT_MIN: int := -0x8000_0000
  const INT_MAX: int := 0x7FFF_FFFF
  const INT_SPAN: int := 0x1_0000_0000

  predicate InInt32(v: int) { INT_MIN <= v <= INT_MAX }

  /** Two's-complement wrap-around of an exact product or sum into an `Int`. */
  function Wrap32(v: int): (r: int)
    ensures InInt32(r)
    ensures InInt32(v) ==> r == v
  {
    (v - INT_MIN) % INT_SPAN + INT_MIN
  }

  /** Packed ARGB colours as Kotlin `Int` values (`Color.BLACK`, `Color.WHITE`,
      `Color.TRANSPARENT`). */
  type Color = int
  const BLACK: Color := -0x0100_0000
  const WHITE: Color := -1
  const TRANSPARENT: Color := 0

  /** Exceptions the modelled code can see. `IllegalState` carries the message
      Kotlin's `check` attaches. */
  datatype Exception =
    | WriterException
    | IllegalArgument
    | IllegalState(message: string)
    | IndexOutOfBounds

  /** Either a value or a thrown exception. */
  datatype Attempt<+T> = Done(value: T) | Raised(error: Exception)

  datatype Option<+T> = None | Some(value: T)

  /** Where the logo was composited onto a bitmap: the float offsets handed to
      `Canvas.drawBitmap` and the logo size those offsets were computed for. */
  datatype LogoPlacement = LogoPlacement(left: real, top: real, width: int, height: int)

  /** An ARGB_8888 bitmap: its dimensions, its row-major pixels, and the logo
      drawn over them (if any). */
  datatype Bitmap = Bitmap(width: nat, height: nat, pixels: seq<Color>, logo: Option<LogoPlacement>)

  /** `Bitmap.createBitmap(colors, width, height, ARGB_8888)`: a bitmap holding
      `colors`; a dimension that is not positive is refused. */
  function CreateBitmapFrom(colors: seq<Color>, width: int, height: int): (r: Attempt<Bitmap>)
    requires width >= 0 && height >= 0 && |colors| == width * height
    ensures r.Done? <==> width > 0 && height > 0
    ensures r.Raised? ==> r.error == IllegalArgument
    ensures r.Done? ==>
              r.value.width == width && r.value.height == height &&
              r.value.pixels == colors && r.value.logo == None
  {
    if width <= 0 || height <= 0 then Raised(IllegalArgument)
    else Done(Bitmap(width, height, colors, None))
  }

  /** `Bitmap.createBitmap(width, height, ARGB_8888)` followed by
      `eraseColor(fill)`: a bitmap whose every pixel is `fill`. A fresh
      ARGB_8888 bitmap is zero-filled, i.e. transparent. */
  function CreateFilledBitmap(width: int, height: int, fill: Color): (r: Attempt<Bitmap>)
    ensures r.Done? <==> width > 0 && height > 0
    ensures r.Raised? ==> r.error == IllegalArgument
    ensures r.Done? ==>
              r.value.width == width && r.value.height == height &&
              |r.value.pixels| == width * height && r.value.logo == None &&
              forall i :: 0 <= i < |r.value.pixels| ==> r.value.pixels[i] == fill
  {
    if width <= 0 || height <= 0 then Raised(IllegalArgument)
    else Done(Bitmap(width, height, seq(width * height, _ => fill), None))
  }
}
