/** The external QR encoder as the painter sees it: a request (contents,
    format, requested width and height, hints) and an answer that is either a
    module matrix or a thrown exception. How the matrix is computed lies
    outside this model. */
module Encoder {
  import opened Platform

  datatype BarcodeFormat = QR_CODE

  /** Hint keys the painter can pass to the encoder. */
  datatype EncodeHintType = MARGIN | ERROR_CORRECTION

  /** A grid of modules: `rows[y][x]` is module `(x, y)`, set meaning dark. */
  datatype BitMatrix = BitMatrix(width: nat, height: nat, rows: seq<seq<bool>>)
  {
    predicate WellFormed() {
      |rows| == height && forall y :: 0 <= y < |rows| ==> |rows[y]| == width
    }

    /** `bitMatrix.get(x, y)` / `bitMatrix[x, y]` for a cell inside the grid. */
    function Get(x: int, y: int): bool
      requires WellFormed() && 0 <= x < width && 0 <= y < height
    {
      rows[y][x]
    }
  }

  /** The matrices an encoder can return. */
  type Matrix = m: BitMatrix | m.WellFormed() witness BitMatrix(0, 0, [])

  datatype EncodeRequest = EncodeRequest(
    contents: string,
    format: BarcodeFormat,
    width: int,
    height: int,
    hints: map<EncodeHintType, int>)

  /** `QRCodeWriter.encode` as a black box: a deterministic answer per request. */
  type QrEncoder = EncodeRequest -> Attempt<Matrix>
}
