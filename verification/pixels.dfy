/** Raster data shared by the compositing code and the workflow session:
    8-bit RGBA pixels, row-major grids and decoded images. */
module Pixels {

  /** A session variable of `app.js`: an image object (`Some`), or
      `null` before anything is loaded and after a reset (`None`). */
  datatype Option<+T> = None | Some(value: T)

  /** One 8-bit colour or alpha channel value. */
  type Channel = x: int | 0 <= x <= 255

  /** A non-premultiplied RGBA pixel, as `getImageData` reports it. */
  datatype Pixel = Pixel(r: Channel, g: Channel, b: Channel, a: Channel)

  /** What a cleared canvas holds at every position. */
  const Transparent: Pixel := Pixel(0, 0, 0, 0)

  /** Pixel rows, top to bottom: `grid[y][x]`. */
  type Grid = seq<seq<Pixel>>

  /** A decoded image or a canvas: its declared size and its pixels. */
  datatype Image = Image(width: nat, height: nat, pixels: Grid)

  /** `g` has exactly `height` rows of exactly `width` pixels each. */
  predicate IsFrame(g: Grid, width: nat, height: nat) {
    |g| == height && forall y :: 0 <= y < |g| ==> |g[y]| == width
  }

  /** The pixel grid of `img` agrees with its declared size. */
  predicate WellFormed(img: Image) {
    IsFrame(img.pixels, img.width, img.height)
  }

  /** Reads position (x, y) of `g`; a position outside the grid reads as
      transparent, as a canvas reads where nothing was drawn. */
  function PixelAt(g: Grid, y: int, x: int): Pixel {
    if 0 <= y < |g| && 0 <= x < |g[y]| then g[y][x] else Transparent
  }
}
