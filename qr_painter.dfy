/** The QR painter: argument checks, the two bitmap generators around the
    external encoder, and the transparent fallback shown while no QR bitmap
    is available. Sizes arrive already converted to whole pixels. */
module QrPainter {
  import opened Platform
  import opened Arith
  import opened Encoder

  /** A density-independent length, compared against zero only. */
  type Dp = real

  datatype Check = Pass | Fail(error: Exception)

  /** The three `check` calls that open both painters, in source order. */
  function CheckArguments(content: string, size: Dp, padding: Dp): (r: Check)
    ensures r == Pass <==> |content| > 0 && size >= 0.0 && padding >= 0.0
    ensures |content| == 0 ==> r == Fail(IllegalState("Content must not be empty"))
    ensures |content| > 0 && size < 0.0 ==> r == Fail(IllegalState("Size must be positive"))
    ensures |content| > 0 && size >= 0.0 && padding < 0.0 ==>
              r == Fail(IllegalState("Padding must be positive"))
  {
    if |content| == 0 then Fail(IllegalState("Content must not be empty"))
    else if size < 0.0 then Fail(IllegalState("Size must be positive"))
    else if padding < 0.0 then Fail(IllegalState("Padding must be positive"))
    else Pass
  }

  /** What both generators ask the encoder for: a square code of side
      `sizePx` with the margin hint set to `paddingPx` and no other hint. */
  function EncodeRequestFor(content: string, sizePx: int, paddingPx: int): (req: EncodeRequest)
    ensures req.contents == content && req.format == QR_CODE
    ensures req.width == sizePx && req.height == sizePx
    ensures req.hints.Keys == {MARGIN} && req.hints[MARGIN] == paddingPx
  {
    EncodeRequest(content, QR_CODE, sizePx, sizePx, map[MARGIN := paddingPx])
  }

  // ---------------------------------------------------------------------------
  // Plain path

  /** The colour buffer of the plain path: one pixel per module, row-major,
      set modules black and the others white. */
  function PixelBuffer(m: Matrix): (r: seq<Color>)
    ensures |r| == m.width * m.height
    ensures forall i :: 0 <= i < |r| ==> r[i] == BLACK || r[i] == WHITE
  {
    seq(m.width * m.height, i requires 0 <= i < m.width * m.height =>
      SplitIndex(m.width, m.height, i);
      if m.Get(i % m.width, i / m.width) then BLACK else WHITE)
  }

  /** Reads a row-major buffer back as modules: black means set. */
  function ModulesOf(pixels: seq<Color>, w: nat, h: nat): (rows: seq<seq<bool>>)
    requires |pixels| == w * h
    ensures |rows| == h && forall y :: 0 <= y < h ==> |rows[y]| == w
  {
    seq(h, y requires 0 <= y < h =>
      seq(w, x requires 0 <= x < w =>
        JoinIndex(w, h, x, y);
        pixels[y * w + x] == BLACK))
  }

  /** Module `(x, y)` lands at index `y*w + x`, black exactly when it is set. */
  lemma PixelAtModule(m: Matrix, x: int, y: int)
    requires 0 <= x < m.width && 0 <= y < m.height
    ensures 0 <= y * m.width + x < |PixelBuffer(m)|
    ensures PixelBuffer(m)[y * m.width + x] == if m.Get(x, y) then BLACK else WHITE
  {
    JoinIndex(m.width, m.height, x, y);
  }

  /** The plain buffer loses nothing: reading it back gives the matrix. */
  lemma ModulesOfPixelBuffer(m: Matrix)
    ensures ModulesOf(PixelBuffer(m), m.width, m.height) == m.rows
  {
    var back := ModulesOf(PixelBuffer(m), m.width, m.height);
    forall y | 0 <= y < m.height
      ensures back[y] == m.rows[y]
    {
      forall x | 0 <= x < m.width
        ensures back[y][x] == m.rows[y][x]
      {
        PixelAtModule(m, x, y);
      }
    }
  }

  /** `generateQrBitmap`: encode, then build a bitmap of the matrix's own
      dimensions from the colour buffer. The result is absent exactly when the
      encoder throws a `WriterException`; any other exception escapes. A
      present result has the matrix's size, whatever `sizePx` was, and shows
      exactly the matrix's modules. */
  function GenerateQrBitmap(content: string, sizePx: int, paddingPx: int, encode: QrEncoder)
    : (r: Attempt<Option<Bitmap>>)
    ensures var a := encode(EncodeRequestFor(content, sizePx, paddingPx));
            (r == Done(None) <==> a == Raised(WriterException)) &&
            (a.Raised? && a.error != WriterException ==> r == Raised(a.error))
    ensures var a := encode(EncodeRequestFor(content, sizePx, paddingPx));
            a.Done? ==>
              (r.Done? <==> a.value.width > 0 && a.value.height > 0) &&
              (r.Raised? ==> r.error == IllegalArgument) &&
              (r.Done? ==> r.value.Some? && ShowsMatrix(r.value.value, a.value))
  {
    match encode(EncodeRequestFor(content, sizePx, paddingPx))
    case Raised(e) => if e == WriterException then Done(None) else Raised(e)
    case Done(m) =>
      ModulesOfPixelBuffer(m);
      match CreateBitmapFrom(PixelBuffer(m), m.width, m.height)
      case Raised(e) => Raised(e)
      case Done(b) => Done(Some(b))
  }

  /** `b` has the size of `m` and, read back with black as set, its modules. */
  predicate ShowsMatrix(b: Bitmap, m: Matrix)
  {
    b.width == m.width && b.height == m.height &&
    |b.pixels| == m.width * m.height &&
    ModulesOf(b.pixels, m.width, m.height) == m.rows
  }

  // ---------------------------------------------------------------------------
  // Fallback and the plain painter

  /** `createDefaultBitmap`: a `sizePx` square that is transparent everywhere;
      there is none for a size that is not positive. */
  function CreateDefaultBitmap(sizePx: int): (r: Attempt<Bitmap>)
    ensures r.Done? <==> sizePx > 0
    ensures r.Raised? ==> r.error == IllegalArgument
    ensures r.Done? ==> TransparentSquare(r.value, sizePx)
  {
    CreateFilledBitmap(sizePx, sizePx, TRANSPARENT)
  }

  predicate TransparentSquare(b: Bitmap, sizePx: int)
  {
    b.width == sizePx && b.height == sizePx && b.logo == None &&
    |b.pixels| == sizePx * sizePx &&
    forall i :: 0 <= i < |b.pixels| ==> b.pixels[i] == TRANSPARENT
  }

  /** `bitmapState.value ?: createDefaultBitmap(sizePx)`: a stored bitmap is
      shown as it is, an absent one as the transparent square. */
  function Displayed(state: Option<Bitmap>, sizePx: int): (r: Attempt<Bitmap>)
    ensures state.Some? ==> r == Done(state.value)
    ensures state.None? ==> (r.Done? <==> sizePx > 0) &&
                            (r.Done? ==> TransparentSquare(r.value, sizePx)) &&
                            (r.Raised? ==> r.error == IllegalArgument)
  {
    match state
    case Some(b) => Done(b)
    case None => CreateDefaultBitmap(sizePx)
  }

  /** The plain painter. The first composition shows
      `createDefaultBitmap(sizePx)` before the effect can start, so a size with
      no fallback aborts it before any encoding. Otherwise this is the bitmap
      shown once the effect has stored the generator's result. */
  function RememberQrBitmapPainter(content: string, size: Dp, padding: Dp,
                                   sizePx: int, paddingPx: int, encode: QrEncoder): (r: Attempt<Bitmap>)
    ensures CheckArguments(content, size, padding).Fail? ==>
              r == Raised(CheckArguments(content, size, padding).error)
    ensures CheckArguments(content, size, padding) == Pass && sizePx <= 0 ==>
              r == Raised(IllegalArgument)
    ensures var a := encode(EncodeRequestFor(content, sizePx, paddingPx));
            CheckArguments(content, size, padding) == Pass && sizePx > 0 ==>
              (a == Raised(WriterException) ==> r.Done? && TransparentSquare(r.value, sizePx)) &&
              (a.Raised? && a.error != WriterException ==> r == Raised(a.error)) &&
              (a.Done? ==>
                 (r.Done? <==> a.value.width > 0 && a.value.height > 0) &&
                 (r.Done? ==> ShowsMatrix(r.value, a.value)) &&
                 (r.Raised? ==> r.error == IllegalArgument))
  {
    match CheckArguments(content, size, padding)
    case Fail(e) => Raised(e)
    case Pass =>
      match CreateDefaultBitmap(sizePx)
      case Raised(e) => Raised(e)
      case Done(_) =>
        match GenerateQrBitmap(content, sizePx, paddingPx, encode)
        case Raised(e) => Raised(e)
        case Done(state) => Displayed(state, sizePx)
  }

  /** Bad arguments are refused with an `IllegalStateException` whatever the
      encoder would answer: no encoding takes part in the result. */
  lemma PlainRejectedBeforeEncoding(content: string, size: Dp, padding: Dp,
                                    sizePx: int, paddingPx: int, e1: QrEncoder, e2: QrEncoder)
    requires |content| == 0 || size < 0.0 || padding < 0.0
    ensures RememberQrBitmapPainter(content, size, padding, sizePx, paddingPx, e1)
         == RememberQrBitmapPainter(content, size, padding, sizePx, paddingPx, e2)
    ensures RememberQrBitmapPainter(content, size, padding, sizePx, paddingPx, e1).Raised?
    ensures RememberQrBitmapPainter(content, size, padding, sizePx, paddingPx, e1).error.IllegalState?
  {
  }

  /** With valid arguments, an encoder `WriterException` makes the plain
      painter show the transparent fallback square. */
  lemma PlainWriterExceptionShowsFallback(content: string, size: Dp, padding: Dp,
                                          sizePx: int, paddingPx: int, encode: QrEncoder)
    requires CheckArguments(content, size, padding) == Pass
    requires encode(EncodeRequestFor(content, sizePx, paddingPx)) == Raised(WriterException)
    ensures RememberQrBitmapPainter(content, size, padding, sizePx, paddingPx, encode)
         == Displayed(None, sizePx)
  {
  }

  /** A size that rounds to zero pixels passes the checks (which only reject
      negative sizes), yet both painters then fail on the fallback bitmap of
      the first composition, whatever the encoder or the logo. */
  lemma ZeroSizePassesChecksButHasNoFallback(content: string, size: Dp, padding: Dp, paddingPx: int,
                                             logoWidth: nat, logoHeight: nat, logoDrawable: bool,
                                             encode: QrEncoder)
    requires |content| > 0 && size >= 0.0 && padding >= 0.0
    ensures CheckArguments(content, size, padding) == Pass
    ensures RememberQrBitmapPainter(content, size, padding, 0, paddingPx, encode) == Raised(IllegalArgument)
    ensures LogoPainterOutcome(content, logoWidth, logoHeight, logoDrawable, size, padding, 0, paddingPx, encode)
         == Raised(IllegalArgument)
  {
  }

  // ---------------------------------------------------------------------------
  // Overlay path

  /** The caller's logo bitmap. Its size is fixed; its density is a mutable
      `Int` property that the overlay generator rewrites. `drawable` says
      whether a software canvas accepts it in `drawBitmap`: a hardware-backed,
      recycled or otherwise unusable bitmap makes that call throw. */
  class Logo {
    const width: nat
    const height: nat
    const drawable: bool
    var density: int

    constructor (width: nat, height: nat, drawable: bool, density: int)
      requires InInt32(density)
      ensures this.width == width && this.height == height
      ensures this.drawable == drawable && this.density == density
    {
      this.width := width;
      this.height := height;
      this.drawable := drawable;
      this.density := density;
    }
  }

  const SCALE_FACTOR: int := 8

  /** `image.density * scaleFactor` in Kotlin `Int` arithmetic. */
  function ScaledDensity(density: int): int
  {
    Wrap32(density * SCALE_FACTOR)
  }

  /** The logo's density after `n` overlay generations in a row. */
  function DensityAfter(density: int, n: nat): int
  {
    if n == 0 then density else ScaledDensity(DensityAfter(density, n - 1))
  }

  function Pow8(n: nat): int
  {
    if n == 0 then 1 else 8 * Pow8(n - 1)
  }

  /** `n` generations multiply the density by 8^n, wrapped to an `Int`. */
  lemma {:induction false} DensityCompounds(density: int, n: nat)
    requires InInt32(density)
    ensures DensityAfter(density, n) == Wrap32(density * Pow8(n))
  {
    if n > 0 {
      DensityCompounds(density, n - 1);
      WrapMul(density * Pow8(n - 1), SCALE_FACTOR);
      assert density * Pow8(n - 1) * 8 == density * Pow8(n);
    }
  }

  /** As long as the product fits in an `Int`, the density is exactly 8^n times
      the original. */
  lemma DensityExactWhileInRange(density: int, n: nat)
    requires InInt32(density) && InInt32(density * Pow8(n))
    ensures DensityAfter(density, n) == density * Pow8(n)
  {
    DensityCompounds(density, n);
  }

  /** From the eleventh generation on, every density has wrapped to 0. */
  lemma {:induction false} DensityCollapsesToZero(density: int, n: nat)
    requires InInt32(density) && n >= 11
    ensures DensityAfter(density, n) == 0
  {
    DensityCompounds(density, n);
    var k := n - 11;
    assert Pow8(n) == Pow8(k) * 2 * INT_SPAN by {
      Pow8Split(n, k);
    }
    WrapShift(0, density * Pow8(k) * 2);
    assert density * Pow8(n) == 0 + (density * Pow8(k) * 2) * INT_SPAN;
  }

  lemma {:induction false} Pow8Split(n: nat, k: nat)
    requires n == k + 11
    ensures Pow8(n) == Pow8(k) * 2 * INT_SPAN
  {
    if k == 0 {
      assert Pow8(11) == 0x2_0000_0000;
    } else {
      Pow8Split(n - 1, k - 1);
    }
  }

  /** The logo size the offsets are computed for, and the offsets: each side
      is the integer eighth of the logo's, and the offsets leave equal margins
      around a logo of that size. The size actually drawn is decided by the
      platform's density scaling, which this model does not cover. */
  function PlaceLogo(logoWidth: nat, logoHeight: nat, sizePx: int): (p: LogoPlacement)
    ensures p.width * SCALE_FACTOR <= logoWidth < (p.width + 1) * SCALE_FACTOR
    ensures p.height * SCALE_FACTOR <= logoHeight < (p.height + 1) * SCALE_FACTOR
    ensures p.left == sizePx as real - (p.left + p.width as real)
    ensures p.top == sizePx as real - (p.top + p.height as real)
  {
    var scaledWidth := logoWidth / SCALE_FACTOR;
    var scaledHeight := logoHeight / SCALE_FACTOR;
    LogoPlacement((sizePx - scaledWidth) as real / 2.0, (sizePx - scaledHeight) as real / 2.0,
                  scaledWidth, scaledHeight)
  }

  /** The offsets are non-negative exactly when the size they are computed for
      does not exceed `sizePx`; a larger logo gets negative offsets. */
  lemma LogoInsideSquareIff(logoWidth: nat, logoHeight: nat, sizePx: int)
    ensures var p := PlaceLogo(logoWidth, logoHeight, sizePx);
            (0.0 <= p.left <==> p.width <= sizePx) &&
            (0.0 <= p.top <==> p.height <= sizePx) &&
            (p.left < 0.0 <==> logoWidth / SCALE_FACTOR > sizePx)
  {
  }

  /** Pixel `i` after the paint loop has finished rows `0 .. y-1` and columns
      `0 .. x-1` of row `y`: black where a visited module is set, otherwise the
      fresh bitmap's transparent. */
  function Painted(m: Matrix, sizePx: int, y: int, x: int, i: int): Color
    requires 0 <= i < m.width * m.height
  {
    SplitIndex(m.width, m.height, i);
    var col := i % m.width;
    var row := i / m.width;
    if (row < y || (row == y && col < x)) && col < sizePx && m.Get(col, row)
    then BLACK else TRANSPARENT
  }

  /** Visiting module `(x, y)` changes at most the pixel at `y*w + x`. */
  lemma PaintStep(m: Matrix, sizePx: int, y: int, x: int, i: int)
    requires 0 <= x < m.width && 0 <= y < m.height && x < sizePx && 0 <= i < m.width * m.height
    ensures 0 <= y * m.width + x < m.width * m.height
    ensures Painted(m, sizePx, y, x + 1, i)
         == if i == y * m.width + x && m.Get(x, y) then BLACK else Painted(m, sizePx, y, x, i)
  {
    JoinIndex(m.width, m.height, x, y);
    SplitIndex(m.width, m.height, i);
  }

  /** Finishing row `y` is the same as starting row `y + 1`. */
  lemma RowStep(m: Matrix, sizePx: int, y: int, i: int)
    requires 0 <= i < m.width * m.height
    ensures Painted(m, sizePx, y, sizePx, i) == Painted(m, sizePx, y + 1, 0, i)
  {
  }

  /** Once the rows below `sizePx` are done, the buffer is the overlay layer. */
  lemma PaintDone(m: Matrix, sizePx: int, y: int, i: int)
    requires 0 <= i < m.width * m.height
    requires y == sizePx || (sizePx <= 0 && y == 0)
    ensures Painted(m, sizePx, y, 0, i) == OverlayPixels(m, sizePx)[i]
  {
  }

  /** The module layer of the overlay bitmap: the set modules with both
      coordinates below `sizePx` are black, every other pixel transparent. */
  function OverlayPixels(m: Matrix, sizePx: int): (r: seq<Color>)
    ensures |r| == m.width * m.height
    ensures forall i :: 0 <= i < |r| ==> r[i] == BLACK || r[i] == TRANSPARENT
  {
    seq(m.width * m.height, i requires 0 <= i < m.width * m.height =>
      SplitIndex(m.width, m.height, i);
      if i % m.width < sizePx && i / m.width < sizePx && m.Get(i % m.width, i / m.width)
      then BLACK else TRANSPARENT)
  }

  /** The paint loop reads modules `(x, y)` for all `x, y < sizePx`; it gets
      through only when the bitmap can be created and every read is inside
      the matrix. */
  predicate OverlayCompletes(m: Matrix, sizePx: int)
  {
    m.width > 0 && m.height > 0 && sizePx <= m.width && sizePx <= m.height
  }

  /** The encoder answers with a matrix and the paint loop gets through it:
      the point at which `generateQrCodeWithOverlay` rewrites the density. */
  predicate PaintLoopCompletes(content: string, sizePx: int, paddingPx: int, encode: QrEncoder)
  {
    var a := encode(EncodeRequestFor(content, sizePx, paddingPx));
    a.Done? && OverlayCompletes(a.value, sizePx)
  }

  /** What `generateQrCodeWithOverlay` returns: absent on any exception, from
      the encoder, the bitmap factory, a matrix read or `drawBitmap`; present
      with the module layer and the logo placement otherwise. */
  function OverlayOutcome(content: string, logoWidth: nat, logoHeight: nat, logoDrawable: bool,
                          sizePx: int, paddingPx: int, encode: QrEncoder): (r: Option<Bitmap>)
    ensures r.Some? <==> PaintLoopCompletes(content, sizePx, paddingPx, encode) && logoDrawable
    ensures r.Some? ==>
              var m := encode(EncodeRequestFor(content, sizePx, paddingPx)).value;
              r.value.width == m.width && r.value.height == m.height &&
              r.value.pixels == OverlayPixels(m, sizePx) &&
              r.value.logo == Some(PlaceLogo(logoWidth, logoHeight, sizePx))
  {
    match encode(EncodeRequestFor(content, sizePx, paddingPx))
    case Raised(_) => None
    case Done(m) =>
      if OverlayCompletes(m, sizePx) && logoDrawable
      then Some(Bitmap(m.width, m.height, OverlayPixels(m, sizePx),
                       Some(PlaceLogo(logoWidth, logoHeight, sizePx))))
      else None
  }

  /** Module `(x, y)` is black in the overlay exactly when it is set and both
      coordinates are below `sizePx`; everything else stays transparent. */
  lemma OverlayPixelAt(m: Matrix, sizePx: int, x: int, y: int)
    requires 0 <= x < m.width && 0 <= y < m.height
    ensures 0 <= y * m.width + x < |OverlayPixels(m, sizePx)|
    ensures OverlayPixels(m, sizePx)[y * m.width + x]
         == if x < sizePx && y < sizePx && m.Get(x, y) then BLACK else TRANSPARENT
  {
    JoinIndex(m.width, m.height, x, y);
  }

  /** Against the plain buffer of the same matrix: inside the painted square
      the overlay is black where the plain buffer is black and transparent
      where it is white; outside the square it is transparent. */
  lemma OverlayAgreesWithPlain(m: Matrix, sizePx: int, x: int, y: int)
    requires 0 <= x < m.width && 0 <= y < m.height
    ensures var k := y * m.width + x;
            0 <= k < m.width * m.height &&
            (OverlayPixels(m, sizePx)[k] == BLACK <==>
               x < sizePx && y < sizePx && PixelBuffer(m)[k] == BLACK) &&
            (PixelBuffer(m)[k] == WHITE ==> OverlayPixels(m, sizePx)[k] == TRANSPARENT)
  {
    OverlayPixelAt(m, sizePx, x, y);
    PixelAtModule(m, x, y);
  }

  /** When the encoder returns a matrix at least `sizePx` wide and high (as a
      QR writer does for a satisfiable request), the paint loop gets through
      and the overlay is present exactly when `drawBitmap` accepts the logo;
      when the matrix is exactly `sizePx` square, every set module is painted. */
  lemma OverlaySucceedsOnCoveringMatrix(content: string, logoWidth: nat, logoHeight: nat, logoDrawable: bool,
                                        sizePx: int, paddingPx: int, encode: QrEncoder)
    requires sizePx > 0
    requires var a := encode(EncodeRequestFor(content, sizePx, paddingPx));
             a.Done? && a.value.width >= sizePx && a.value.height >= sizePx
    ensures var m := encode(EncodeRequestFor(content, sizePx, paddingPx)).value;
            var r := OverlayOutcome(content, logoWidth, logoHeight, logoDrawable, sizePx, paddingPx, encode);
            PaintLoopCompletes(content, sizePx, paddingPx, encode) &&
            (r.Some? <==> logoDrawable) &&
            (r.Some? ==> r.value.width == m.width && r.value.height == m.height) &&
            (m.width == sizePx && m.height == sizePx ==>
               forall x, y :: 0 <= x < sizePx && 0 <= y < sizePx && m.Get(x, y) ==>
                 0 <= y * sizePx + x < |OverlayPixels(m, sizePx)| &&
                 OverlayPixels(m, sizePx)[y * sizePx + x] == BLACK)
  {
    var m := encode(EncodeRequestFor(content, sizePx, paddingPx)).value;
    if m.width == sizePx && m.height == sizePx {
      forall x, y | 0 <= x < sizePx && 0 <= y < sizePx && m.Get(x, y)
        ensures 0 <= y * sizePx + x < |OverlayPixels(m, sizePx)|
        ensures OverlayPixels(m, sizePx)[y * sizePx + x] == BLACK
      {
        OverlayPixelAt(m, sizePx, x, y);
      }
    }
  }

  /** A matrix narrower or shorter than `sizePx` makes the loop read outside
      it; the exception is swallowed and the result is absent. */
  lemma OverlayAbsentOnShortMatrix(content: string, logoWidth: nat, logoHeight: nat, logoDrawable: bool,
                                   sizePx: int, paddingPx: int, encode: QrEncoder)
    requires var a := encode(EncodeRequestFor(content, sizePx, paddingPx));
             a.Raised? || a.value.width < sizePx || a.value.height < sizePx
    ensures !PaintLoopCompletes(content, sizePx, paddingPx, encode)
    ensures OverlayOutcome(content, logoWidth, logoHeight, logoDrawable, sizePx, paddingPx, encode) == None
  {
  }

  /** The nested paint loop of `generateQrCodeWithOverlay` over the fresh,
      transparent pixel array: for `y` and then `x` in `0 until sizePx`, a set
      module is drawn as a black point. It returns false where a read falls
      outside the matrix and throws. */
  method PaintModules(m: Matrix, sizePx: int, pixels: array<Color>) returns (ok: bool)
    requires pixels.Length == m.width * m.height
    requires forall i :: 0 <= i < pixels.Length ==> pixels[i] == TRANSPARENT
    modifies pixels
    ensures ok <==> sizePx <= 0 || (sizePx <= m.width && sizePx <= m.height)
    ensures ok ==> pixels[..] == OverlayPixels(m, sizePx)
  {
    var w, h := m.width, m.height;
    var y := 0;
    while y < sizePx
      invariant 0 <= y && (y == 0 || y <= sizePx)
      invariant y <= h && (y > 0 ==> sizePx <= w)
      invariant forall i :: 0 <= i < pixels.Length ==> pixels[i] == Painted(m, sizePx, y, 0, i)
    {
      var x := 0;
      while x < sizePx
        invariant 0 <= x <= sizePx && x <= w
        invariant x > 0 ==> y < h
        invariant forall i :: 0 <= i < pixels.Length ==> pixels[i] == Painted(m, sizePx, y, x, i)
      {
        if x >= w || y >= h {
          // the matrix read throws
          return false;
        }
        if m.Get(x, y) {
          JoinIndex(w, h, x, y);
          pixels[y * w + x] := BLACK;
        }
        forall i | 0 <= i < pixels.Length
          ensures pixels[i] == Painted(m, sizePx, y, x + 1, i)
        {
          PaintStep(m, sizePx, y, x, i);
        }
        x := x + 1;
      }
      forall i | 0 <= i < pixels.Length
        ensures pixels[i] == Painted(m, sizePx, y + 1, 0, i)
      {
        RowStep(m, sizePx, y, i);
      }
      y := y + 1;
    }
    forall i | 0 <= i < pixels.Length
      ensures pixels[i] == OverlayPixels(m, sizePx)[i]
    {
      PaintDone(m, sizePx, y, i);
    }
    return true;
  }

  /** `generateQrCodeWithOverlay`: allocate a transparent bitmap of the
      matrix's size, paint the set modules of the `sizePx` square black,
      multiply the logo's density by 8 in place and draw the logo at the
      offsets. Any exception yields absent. One raised before the density
      update (encoder, bitmap factory, a read outside the matrix) leaves the
      density as it was; one from `drawBitmap` comes after it. */
  method GenerateQrCodeWithOverlay(content: string, logo: Logo, sizePx: int, paddingPx: int,
                                   encode: QrEncoder) returns (r: Option<Bitmap>)
    modifies logo
    ensures r == OverlayOutcome(content, logo.width, logo.height, logo.drawable, sizePx, paddingPx, encode)
    ensures logo.density ==
              if PaintLoopCompletes(content, sizePx, paddingPx, encode)
              then ScaledDensity(old(logo.density)) else old(logo.density)
  {
    var answer := encode(EncodeRequestFor(content, sizePx, paddingPx));
    if answer.Raised? {
      return None;
    }
    var m := answer.value;
    var w, h := m.width, m.height;
    if w <= 0 || h <= 0 {
      // Bitmap.createBitmap refuses an empty bitmap
      return None;
    }
    var pixels := new Color[w * h](_ => TRANSPARENT);
    var painted := PaintModules(m, sizePx, pixels);
    if !painted {
      return None;
    }
    logo.density := Wrap32(logo.density * SCALE_FACTOR);
    if !logo.drawable {
      // drawBitmap throws for this logo; the catch-all turns it into null
      return None;
    }
    r := Some(Bitmap(w, h, pixels[..], Some(PlaceLogo(logo.width, logo.height, sizePx))));
  }

  /** The logo painter. As in the plain painter, the first composition needs
      `createDefaultBitmap(sizePx)` before the effect can start; otherwise
      this is the bitmap shown once the effect has stored the overlay. */
  function LogoPainterOutcome(content: string, logoWidth: nat, logoHeight: nat, logoDrawable: bool,
                              size: Dp, padding: Dp, sizePx: int, paddingPx: int, encode: QrEncoder)
    : (r: Attempt<Bitmap>)
    ensures CheckArguments(content, size, padding).Fail? ==>
              r == Raised(CheckArguments(content, size, padding).error)
    ensures CheckArguments(content, size, padding) == Pass && sizePx <= 0 ==>
              r == Raised(IllegalArgument)
    ensures var o := OverlayOutcome(content, logoWidth, logoHeight, logoDrawable, sizePx, paddingPx, encode);
            CheckArguments(content, size, padding) == Pass && sizePx > 0 ==>
              r.Done? &&
              (o.Some? ==> r.value == o.value) &&
              (o.None? ==> TransparentSquare(r.value, sizePx))
  {
    match CheckArguments(content, size, padding)
    case Fail(e) => Raised(e)
    case Pass =>
      match CreateDefaultBitmap(sizePx)
      case Raised(e) => Raised(e)
      case Done(_) =>
        Displayed(OverlayOutcome(content, logoWidth, logoHeight, logoDrawable, sizePx, paddingPx, encode), sizePx)
  }

  /** The logo overload of `rememberQrBitmapPainter`: check the arguments,
      create the first composition's fallback, run the overlay generator and
      fall back to the transparent square. The logo's density changes only
      when all of that gets as far as the density update. */
  method RememberQrBitmapPainterWithLogo(content: string, logo: Logo, size: Dp, padding: Dp,
                                         sizePx: int, paddingPx: int, encode: QrEncoder)
    returns (r: Attempt<Bitmap>)
    modifies logo
    ensures r == LogoPainterOutcome(content, logo.width, logo.height, logo.drawable, size, padding,
                                    sizePx, paddingPx, encode)
    ensures logo.density ==
              if CheckArguments(content, size, padding) == Pass && sizePx > 0 &&
                 PaintLoopCompletes(content, sizePx, paddingPx, encode)
              then ScaledDensity(old(logo.density)) else old(logo.density)
  {
    var checked := CheckArguments(content, size, padding);
    if checked.Fail? {
      return Raised(checked.error);
    }
    var placeholder := CreateDefaultBitmap(sizePx);
    if placeholder.Raised? {
      // the first composition fails before the effect is launched
      return placeholder;
    }
    var state := GenerateQrCodeWithOverlay(content, logo, sizePx, paddingPx, encode);
    r := Displayed(state, sizePx);
  }

  /** Bad arguments are refused with an `IllegalStateException` whatever the
      encoder would answer. */
  lemma LogoRejectedBeforeEncoding(content: string, logoWidth: nat, logoHeight: nat, logoDrawable: bool,
                                   size: Dp, padding: Dp, sizePx: int, paddingPx: int,
                                   e1: QrEncoder, e2: QrEncoder)
    requires |content| == 0 || size < 0.0 || padding < 0.0
    ensures LogoPainterOutcome(content, logoWidth, logoHeight, logoDrawable, size, padding, sizePx, paddingPx, e1)
         == LogoPainterOutcome(content, logoWidth, logoHeight, logoDrawable, size, padding, sizePx, paddingPx, e2)
    ensures LogoPainterOutcome(content, logoWidth, logoHeight, logoDrawable, size, padding, sizePx, paddingPx, e1).Raised?
    ensures LogoPainterOutcome(content, logoWidth, logoHeight, logoDrawable, size, padding, sizePx, paddingPx, e1)
              .error.IllegalState?
  {
  }

  /** With valid arguments, any encoder exception (not only a
      `WriterException`) makes the logo painter show the transparent square. */
  lemma LogoEncoderFailureShowsFallback(content: string, logoWidth: nat, logoHeight: nat, logoDrawable: bool,
                                        size: Dp, padding: Dp, sizePx: int, paddingPx: int, encode: QrEncoder)
    requires CheckArguments(content, size, padding) == Pass
    requires encode(EncodeRequestFor(content, sizePx, paddingPx)).Raised?
    ensures LogoPainterOutcome(content, logoWidth, logoHeight, logoDrawable, size, padding, sizePx, paddingPx, encode)
         == Displayed(None, sizePx)
  {
  }

  /** A logo that `drawBitmap` refuses, with a matrix the loop gets through:
      the painter shows the transparent square although the density has
      already been multiplied. */
  lemma UndrawableLogoShowsFallback(content: string, logoWidth: nat, logoHeight: nat, size: Dp, padding: Dp,
                                    sizePx: int, paddingPx: int, encode: QrEncoder)
    requires CheckArguments(content, size, padding) == Pass && sizePx > 0
    requires PaintLoopCompletes(content, sizePx, paddingPx, encode)
    ensures OverlayOutcome(content, logoWidth, logoHeight, false, sizePx, paddingPx, encode) == None
    ensures LogoPainterOutcome(content, logoWidth, logoHeight, false, size, padding, sizePx, paddingPx, encode)
         == Displayed(None, sizePx)
  {
  }
}
