# compose-qrpainter, modelled in Dafny

The library turns a text string into a bitmap showing its QR code, for use as
an image painter in a declarative Android UI. It has two entry points, both
called `rememberQrBitmapPainter`. Both check their arguments. They ask an
external QR writer for a module matrix, turn the matrix into pixels and show a
transparent placeholder while no QR bitmap is available. The second entry
point also draws a caller-supplied logo over the code at offsets meant to centre it.

This project models that logic:

- `platform.dfy` (module `Platform`): Kotlin's 32-bit `Int` wrap-around,
  the Android colour constants, the two `Bitmap.createBitmap` factories the
  code calls, and the exceptions they raise.
- `encoder.dfy` (module `Encoder`): the encoder's interface. A request
  holds the contents, the format, the requested width and height, and the
  hints. The answer is a well-formed module matrix or an exception. The
  encoder is a function-typed parameter, so nothing is assumed about how it
  computes its matrix.
- `arith.dfy` (module `Arith`): row-major index splitting and
  modular-arithmetic lemmas.
- `qr_painter.dfy` (module `QrPainter`): the core.
  - The argument checks and the encode request.
  - The plain path's colour buffer (a per-index comprehension, so a function).
  - The overlay path: a method with the nested paint loop over an `array`,
    the in-place density update on a `Logo` class, and the logo arithmetic.
  - The fallback bitmap and the two painters.

Facts the proofs bring out:

- The KDoc of `generateQrBitmap` (qrpainter/src/main/java/com/yveskalume/compose/qrpainter/rememberQrBitmapPainter.kt:96) says `sizePx` is the size of
  the QR code in pixels. The bitmap built at line 130 has the matrix's width
  and height instead, and the model follows line 130.
- The overlay's light modules stay transparent, never white.
- A matrix larger than `sizePx` is painted only in its top-left
  `sizePx` square.
- Line 192 rewrites the `density` of the caller's logo bitmap. Each overlay
  run that gets through the paint loop multiplies it by 8 in `Int`
  arithmetic, even when the later `drawBitmap` call throws. From the
  eleventh such run on, that density is 0.
- A size that rounds to zero pixels passes the checks, which only reject
  negative sizes. Both painters then fail on the first composition's
  `createDefaultBitmap(0)`, before any encoding.

## Model

| member | source | states |
|---|---|---|
| Platform.CreateBitmapFrom | qrpainter/src/main/java/com/yveskalume/compose/qrpainter/rememberQrBitmapPainter.kt:130 | a bitmap is built from the colour buffer with the given dimensions exactly when both are positive; otherwise `IllegalArgumentException` |
| Platform.CreateFilledBitmap | qrpainter/src/main/java/com/yveskalume/compose/qrpainter/rememberQrBitmapPainter.kt:143-144 | a positive-sized bitmap whose every pixel is the erase colour; otherwise `IllegalArgumentException` |
| QrPainter.CheckArguments | qrpainter/src/main/java/com/yveskalume/compose/qrpainter/rememberQrBitmapPainter.kt:35-37 | the checks pass iff the content is non-empty and size and padding are non-negative; failures are `IllegalStateException` with the source's message, content checked first, then size, then padding |
| QrPainter.EncodeRequestFor | qrpainter/src/main/java/com/yveskalume/compose/qrpainter/rememberQrBitmapPainter.kt:109-118 | the encoder is asked for a QR code of width and height `sizePx` whose only hint is the margin, equal to `paddingPx` |
| QrPainter.PixelBuffer | qrpainter/src/main/java/com/yveskalume/compose/qrpainter/rememberQrBitmapPainter.kt:123-128 | the plain buffer has exactly `w*h` entries, each black or white |
| QrPainter.PixelAtModule | qrpainter/src/main/java/com/yveskalume/compose/qrpainter/rememberQrBitmapPainter.kt:123-128 | module `(x, y)` lands at index `y*w + x` and is black iff set, white otherwise |
| QrPainter.ModulesOfPixelBuffer | qrpainter/src/main/java/com/yveskalume/compose/qrpainter/rememberQrBitmapPainter.kt:120-130 | reading the plain buffer back (black means set) gives the encoder's matrix: no module is lost or moved |
| QrPainter.GenerateQrBitmap | qrpainter/src/main/java/com/yveskalume/compose/qrpainter/rememberQrBitmapPainter.kt:101-134 | the result is absent iff the encoder threw a `WriterException`; any other encoder exception propagates; for an encoded matrix the result exists iff both dimensions are positive, and it then has the matrix's width and height (not `sizePx`) and reads back as exactly its modules; otherwise `IllegalArgumentException` escapes |
| QrPainter.CreateDefaultBitmap | qrpainter/src/main/java/com/yveskalume/compose/qrpainter/rememberQrBitmapPainter.kt:142-146 | a `sizePx` square whose every pixel is transparent, existing iff `sizePx > 0`; otherwise `IllegalArgumentException` |
| QrPainter.Displayed | qrpainter/src/main/java/com/yveskalume/compose/qrpainter/rememberQrBitmapPainter.kt:53 | a stored bitmap is shown as it is; an absent state is shown as the transparent `sizePx` square, or raises `IllegalArgumentException` if `sizePx` is not positive |
| QrPainter.RememberQrBitmapPainter | qrpainter/src/main/java/com/yveskalume/compose/qrpainter/rememberQrBitmapPainter.kt:28-58 | failed checks raise their `IllegalStateException`; with valid arguments a non-positive `sizePx` raises `IllegalArgumentException` from the first composition's fallback; otherwise an encoder `WriterException` shows the transparent square, another encoder exception propagates, and a matrix with positive dimensions is shown at its own size with exactly its modules |
| QrPainter.PlainRejectedBeforeEncoding | qrpainter/src/main/java/com/yveskalume/compose/qrpainter/rememberQrBitmapPainter.kt:35-49 | invalid arguments give an `IllegalStateException` that is the same whatever the encoder would answer |
| QrPainter.PlainWriterExceptionShowsFallback | qrpainter/src/main/java/com/yveskalume/compose/qrpainter/rememberQrBitmapPainter.kt:49-53 | with valid arguments and an encoder `WriterException`, the plain painter shows the fallback |
| QrPainter.ZeroSizePassesChecksButHasNoFallback | qrpainter/src/main/java/com/yveskalume/compose/qrpainter/rememberQrBitmapPainter.kt:36-86 | for every non-empty content, non-negative size and padding, the checks pass, yet with `sizePx == 0` both painters raise `IllegalArgumentException` from `createDefaultBitmap`, whatever the encoder or the logo |
| QrPainter.DensityCompounds | qrpainter/src/main/java/com/yveskalume/compose/qrpainter/rememberQrBitmapPainter.kt:192 | n overlay runs that get through the paint loop (whether or not `drawBitmap` then throws) turn density `d` into `d * 8^n` wrapped to a 32-bit `Int` |
| QrPainter.DensityExactWhileInRange | qrpainter/src/main/java/com/yveskalume/compose/qrpainter/rememberQrBitmapPainter.kt:192 | while `d * 8^n` fits in an `Int`, the density after n runs is exactly that |
| QrPainter.DensityCollapsesToZero | qrpainter/src/main/java/com/yveskalume/compose/qrpainter/rememberQrBitmapPainter.kt:192 | after 11 or more runs every density has wrapped to 0 |
| QrPainter.PlaceLogo | qrpainter/src/main/java/com/yveskalume/compose/qrpainter/rememberQrBitmapPainter.kt:194-198 | the logo size the offsets are computed for is the integer eighth of the logo's width and height; the offsets leave equal margins around a logo of that size |
| QrPainter.LogoInsideSquareIff | qrpainter/src/main/java/com/yveskalume/compose/qrpainter/rememberQrBitmapPainter.kt:194-198 | the offsets are non-negative iff the size they are computed for is at most `sizePx`; a larger logo gets negative offsets |
| QrPainter.OverlayPixels | qrpainter/src/main/java/com/yveskalume/compose/qrpainter/rememberQrBitmapPainter.kt:174-187 | the overlay's module layer has `w*h` pixels, each black or transparent |
| QrPainter.OverlayPixelAt | qrpainter/src/main/java/com/yveskalume/compose/qrpainter/rememberQrBitmapPainter.kt:181-187 | pixel `y*w + x` is black iff module `(x, y)` is set and `x, y < sizePx`; every other pixel keeps the fresh bitmap's transparent |
| QrPainter.OverlayAgreesWithPlain | qrpainter/src/main/java/com/yveskalume/compose/qrpainter/rememberQrBitmapPainter.kt:181-187 | inside the `sizePx` square the overlay is black exactly where the plain buffer is black; where the plain buffer is white the overlay is transparent |
| QrPainter.OverlayOutcome | qrpainter/src/main/java/com/yveskalume/compose/qrpainter/rememberQrBitmapPainter.kt:167-204 | the overlay result is present iff the encoder answers, the paint loop gets through the matrix and `drawBitmap` accepts the logo; a present result has the matrix's size, the overlay module layer and the logo placement |
| QrPainter.OverlaySucceedsOnCoveringMatrix | qrpainter/src/main/java/com/yveskalume/compose/qrpainter/rememberQrBitmapPainter.kt:167-204 | a matrix at least `sizePx` wide and high lets the paint loop get through; the result is then present iff `drawBitmap` accepts the logo, and has the matrix's size; if the matrix is exactly `sizePx` square, every set module is painted |
| QrPainter.OverlayAbsentOnShortMatrix | qrpainter/src/main/java/com/yveskalume/compose/qrpainter/rememberQrBitmapPainter.kt:167-204 | an encoder exception, or a matrix narrower or shorter than `sizePx` (a read outside it), stops before the density update and gives the absent result |
| QrPainter.PaintModules | qrpainter/src/main/java/com/yveskalume/compose/qrpainter/rememberQrBitmapPainter.kt:181-187 | the nested loops over the transparent array get through iff `sizePx <= 0` or the matrix is at least `sizePx` wide and high; the array is then the overlay's module layer |
| QrPainter.GenerateQrCodeWithOverlay | qrpainter/src/main/java/com/yveskalume/compose/qrpainter/rememberQrBitmapPainter.kt:152-205 | the returned bitmap is the overlay outcome: transparent buffer, set modules in the `sizePx` square painted black, logo offsets; absent on any exception, including `drawBitmap` refusing the logo; the density is multiplied by 8 exactly when the paint loop gets through, even if `drawBitmap` then throws |
| QrPainter.LogoPainterOutcome | qrpainter/src/main/java/com/yveskalume/compose/qrpainter/rememberQrBitmapPainter.kt:60-91 | failed checks raise their `IllegalStateException`; with valid arguments a non-positive `sizePx` raises `IllegalArgumentException` before the generator runs; otherwise the painter shows the overlay if present and the transparent square if not |
| QrPainter.RememberQrBitmapPainterWithLogo | qrpainter/src/main/java/com/yveskalume/compose/qrpainter/rememberQrBitmapPainter.kt:60-91 | the painter's result is the logo painter outcome; the density changes only if the checks pass, `sizePx > 0` and the paint loop gets through |
| QrPainter.LogoRejectedBeforeEncoding | qrpainter/src/main/java/com/yveskalume/compose/qrpainter/rememberQrBitmapPainter.kt:68-82 | invalid arguments to the logo painter raise the same `IllegalStateException`, whatever the encoder would answer |
| QrPainter.LogoEncoderFailureShowsFallback | qrpainter/src/main/java/com/yveskalume/compose/qrpainter/rememberQrBitmapPainter.kt:82-86 | with valid arguments, any encoder exception (not only `WriterException`) makes the logo painter show the fallback |
| QrPainter.UndrawableLogoShowsFallback | qrpainter/src/main/java/com/yveskalume/compose/qrpainter/rememberQrBitmapPainter.kt:192-204 | with valid arguments, a positive size and a matrix the loop gets through, a logo that `drawBitmap` refuses gives the absent result and the transparent square |

## Left out

- QR symbol encoding (Reed–Solomon, module placement, masking) belongs to the external writer. It is a function-typed parameter. That its matrix is at least the requested size is a hypothesis of `OverlaySucceedsOnCoveringMatrix`, not a proven fact.
- Compose state wiring (`remember`, `mutableStateOf`, `LaunchedEffect`, `BitmapPainter`, `asImageBitmap`) is UI plumbing. The painters are modelled as the bitmap shown once the effect has stored its result. Before that, the state is absent and the transparent square is shown (the ensures of `QrPainter.Displayed` and `QrPainter.CreateDefaultBitmap`).
- The hop to `Dispatchers.IO` only moves work to another thread.
- The conversion from Dp to pixels goes through framework float rounding. `sizePx` and `paddingPx` are plain integer inputs. Dp values are reals, and NaN is not modelled.
- QrPainter.CheckArguments: a Dp of -0.0, which the source's `Float.compare`-based `>= 0.dp` rejects as negative, is 0.0 here and passes the checks.
- The painters' default arguments (`size = 150.dp` or `600.dp`, `padding = 0.dp`) are not modelled; every argument is passed explicitly.
- `drawPoint` with anti-aliasing is modelled as setting exactly the one pixel to black. Its rasterisation belongs to the platform.
- `drawBitmap` is recorded as a `LogoPlacement` on the result. The blit of the logo's pixels and its density-based scaling are platform behaviour and are not modelled. Whether `drawBitmap` accepts the logo (not hardware-backed, not recycled, drawable on a software canvas) is the `Logo.drawable` flag, not derived from the bitmap's configuration.
- QrPainter.PlaceLogo: the logo is drawn at width·canvasDensity/density, using the density line 192 has just multiplied. That equals the width/8 the offsets assume only on the first run, and only if the canvas density equals the logo's original density. On the second run the logo is drawn at 1/64 of its width at offsets computed for 1/8, so it is not centred. Once the density has wrapped to 0 it is drawn unscaled. The model states the offsets, not where the logo actually lands.
- QrPainter.PlaceLogo: the offsets `(sizePx - scaledWidth) / 2f` are exact reals, not 32-bit floats. They agree while `sizePx - scaledWidth` is below 2^24 in magnitude.
- A read of the module matrix outside its width or height is modelled as a thrown exception. The external matrix's own out-of-range behaviour is not part of this model.
- The `Int` product `matrixWidth * matrixHeight` is taken exactly. Matrices too large for a 32-bit buffer size are not modelled.
- A freshly created ARGB_8888 bitmap is taken to be zero-filled, that is transparent.
- The overlay generator returns a value snapshot of the bitmap, not the mutable platform object.
- The commented-out error-correction hint is dead code. `EncodeRequestFor` states that the margin is the only hint.
- The sample activity and the build configuration are not part of this model.
