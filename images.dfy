/**
  The in-memory raster that the canvas store keeps and the service edits: a stand-in for a
  `BufferedImage` of 24-bit RGB samples, together with the typed failures of the core and the
  conversion between a raster value and a mutable pixel buffer.
 */
module Images {

  /** A packed 24-bit RGB sample, as `getRGB` reports it without its alpha byte. */
  type Pixel = p: int | 0 <= p < 0x100_0000

  /** The fill of a freshly allocated `TYPE_INT_RGB` image: (0, 0, 0). */
  const Black: Pixel := 0

  /** The container format the store writes. */
  const BmpFormat := "bmp"

  /**
    A raster: its dimensions, whether its pixel layout carries an alpha channel, and its samples
    row by row, origin top-left (`rows[y][x]` is the pixel at column x, row y).
   */
  datatype Raster = Raster(width: nat, height: nat, hasAlpha: bool, rows: seq<seq<Pixel>>)
  {
    /** A `BufferedImage` always has positive dimensions and a full grid of samples. */
    predicate Valid() {
      && 0 < width
      && 0 < height
      && |rows| == height
      && forall y :: 0 <= y < height ==> |rows[y]| == width
    }

    /** The sample at column x, row y. */
    function At(x: nat, y: nat): Pixel
      requires Valid() && x < width && y < height
    {
      rows[y][x]
    }
  }

  /**
    Raster equality as the tests compare images: same width, same height and the same sample at
    every position; the pixel layout is not compared.
   */
  predicate SameImage(a: Raster, b: Raster) {
    a.width == b.width && a.height == b.height && a.rows == b.rows
  }

  /** Whether the BMP codec has a writer for the raster: it has none for a layout with alpha. */
  predicate Encodable(r: Raster) {
    !r.hasAlpha
  }

  function Min(a: int, b: int): int {
    if a < b then a else b
  }

  /** A new `width` x `height` RGB raster, every sample black. */
  function Blank(width: nat, height: nat): (r: Raster)
    requires 0 < width && 0 < height
    ensures r.Valid() && r.width == width && r.height == height && Encodable(r)
    ensures forall x, y :: 0 <= x < width && 0 <= y < height ==> r.At(x, y) == Black
  {
    Raster(width, height, false, seq(height, _ => seq(width, _ => Black)))
  }

  /**
    The typed failures of the core. The first three carry the values their exception messages
    print; `NoAppropriateWriter` carries the format only, not the image type.
   */
  datatype Error =
    | ImageNotFound(path: string)
    | IllegalImageSize(imageWidth: int, width: int, imageHeight: int, height: int)
    | OffsetOutOfRange(imageWidth: int, widthOffset: int, imageHeight: int, heightOffset: int)
    | NoAppropriateWriter(format: string)

  datatype Result<T> = Success(value: T) | Failure(error: Error)

  /** The outcome of an operation that returns nothing on success. */
  datatype Outcome = Pass | Fail(error: Error)

  /** The raster value a pixel buffer holds (buffer index `[y, x]`). */
  function Freeze(a: array2<Pixel>, hasAlpha: bool): (r: Raster)
    reads a
  {
    Raster(a.Length1, a.Length0, hasAlpha,
      seq(a.Length0, y requires 0 <= y < a.Length0 reads a =>
        seq(a.Length1, x requires 0 <= x < a.Length1 reads a => a[y, x])))
  }

  /** A buffer whose dimensions and samples are those of `r` holds exactly `r`. */
  lemma FreezeMatches(a: array2<Pixel>, r: Raster)
    requires r.Valid() && a.Length0 == r.height && a.Length1 == r.width
    requires forall y, x :: 0 <= y < a.Length0 && 0 <= x < a.Length1 ==> a[y, x] == r.At(x, y)
    ensures Freeze(a, r.hasAlpha) == r
  {
    var f := Freeze(a, r.hasAlpha);
    forall y | 0 <= y < r.height
      ensures f.rows[y] == r.rows[y]
    {
      assert forall x :: 0 <= x < r.width ==> f.rows[y][x] == a[y, x];
    }
  }

  /** Decodes a raster into a fresh pixel buffer, as reading a file yields a new image. */
  method Thaw(r: Raster) returns (a: array2<Pixel>)
    requires r.Valid()
    ensures fresh(a)
    ensures a.Length0 == r.height && a.Length1 == r.width
    ensures forall y, x :: 0 <= y < a.Length0 && 0 <= x < a.Length1 ==> a[y, x] == r.At(x, y)
  {
    a := new Pixel[r.height, r.width]((y, x) =>
      if 0 <= y < |r.rows| && 0 <= x < |r.rows[y]| then r.rows[y][x] else Black);
  }
}
