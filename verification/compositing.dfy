/** The image processing of the tool: cropping a replacement image to the
    silhouette of a mask with the Porter-Duff "destination-in" operator
    (section 9.1, "Destination In", of W3C Compositing and Blending Level 1),
    and the fit-and-centre placement of a thumbnail preview. */
module Compositing {
  import opened Pixels

  /** The browser's `drawImage(src, 0, 0, width, height)` resampling: the
      pixels of `src` stretched into a `width` by `height` frame. The
      interpolation belongs to the browser and is not modelled. */
  type Resampler = (Image, nat, nat) -> Grid

  /** A channel product never exceeds 255 times either factor. */
  lemma ProductBounds(a: Channel, m: Channel)
    ensures 0 <= a * m <= 255 * m
    ensures a * m <= 255 * a
  {
    assert (255 - a) * m >= 0;
    assert (255 - m) * a >= 0;
  }

  /** Rounding down on division by 255. */
  lemma DivBounds(p: nat, bound: nat)
    requires p <= 255 * bound
    ensures p / 255 * 255 <= p < p / 255 * 255 + 255
    ensures p / 255 <= bound
  {
  }

  /** Alpha of destination-in: the destination alpha `a` scaled by the
      source (mask) alpha `m`, both on the 0..255 scale, rounded down. */
  function DestInAlpha(a: Channel, m: Channel): (r: Channel)
    ensures r * 255 <= a * m < r * 255 + 255
    ensures m == 0 ==> r == 0
    ensures r <= a && r <= m
    ensures m == 255 ==> r == a
    ensures a == 255 ==> r == m
  {
    ProductBounds(a, m);
    DivBounds(a * m, m);
    DivBounds(a * m, a);
    a * m / 255
  }

  /** A more opaque mask never yields a less opaque output. */
  lemma DestInAlphaMonotonic(a: Channel, m1: Channel, m2: Channel)
    requires m1 <= m2
    ensures DestInAlpha(a, m1) <= DestInAlpha(a, m2)
  {
    assert a * m1 <= a * m2 by {
      assert a * (m2 - m1) >= 0;
    }
  }

  /** Destination-in of one drawn pixel `dst` against mask alpha `m`: the
      colour of `dst` is kept and its alpha scaled. A pixel whose alpha
      drops to zero is fully transparent, because the canvas stores
      premultiplied colour. */
  function DestIn(dst: Pixel, m: Channel): (p: Pixel)
    ensures p.a == DestInAlpha(dst.a, m)
    ensures p.a == 0 ==> p == Transparent
    ensures p.a > 0 ==> p.r == dst.r && p.g == dst.g && p.b == dst.b
  {
    var alpha := DestInAlpha(dst.a, m);
    if alpha == 0 then Transparent else dst.(a := alpha)
  }

  /** `cropImageWithMask`: a canvas of the mask's size holding `src`
      stretched to that size, with the mask then drawn at (0, 0) in
      destination-in mode. */
  function CropImageWithMask(mask: Image, src: Image, stretch: Resampler): (out: Image)
    ensures out.width == mask.width && out.height == mask.height
    ensures WellFormed(out)
    ensures var drawn := stretch(src, mask.width, mask.height);
      forall y, x :: 0 <= y < out.height && 0 <= x < out.width ==>
        var m := PixelAt(mask.pixels, y, x).a;
        var d := PixelAt(drawn, y, x);
        var p := out.pixels[y][x];
        && (m == 0 ==> p == Transparent)
        && p.a <= d.a && p.a <= m
        && (m == 255 ==> p.a == d.a)
        && (p.a > 0 ==> p.r == d.r && p.g == d.g && p.b == d.b)
  {
    var drawn := stretch(src, mask.width, mask.height);
    var rows := seq(mask.height, y =>
      seq(mask.width, x => DestIn(PixelAt(drawn, y, x), PixelAt(mask.pixels, y, x).a)));
    Image(mask.width, mask.height, rows)
  }

  /** Where a fully opaque mask covers the frame, the crop shows the
      stretched source unchanged, except that invisible pixels read as
      transparent. */
  lemma OpaqueMaskKeepsSource(mask: Image, src: Image, stretch: Resampler, y: nat, x: nat)
    requires y < mask.height && x < mask.width
    requires PixelAt(mask.pixels, y, x).a == 255
    ensures var d := PixelAt(stretch(src, mask.width, mask.height), y, x);
      CropImageWithMask(mask, src, stretch).pixels[y][x] == (if d.a == 0 then Transparent else d)
  {
  }

  /** Placement of a thumbnail inside a square preview box. */
  datatype Placement = Placement(x: real, y: real, width: real, height: real)

  /** Side of the square preview boxes (the default `size` argument). */
  const PreviewSize: nat := 150

  /** `generatePreview`: the picture of `width` by `height` pixels scaled by
      the larger factor that still fits inside a `size` by `size` box, and
      centred in it. */
  function FitPreview(width: nat, height: nat, size: nat): (p: Placement)
    requires width > 0 && height > 0 && size > 0
    ensures 0.0 < p.width <= size as real && 0.0 < p.height <= size as real
    ensures p.width == size as real || p.height == size as real
    ensures p.width * height as real == p.height * width as real
    ensures p.x >= 0.0 && p.y >= 0.0
    ensures p.x + p.width + p.x == size as real
    ensures p.y + p.height + p.y == size as real
  {
    var w, h, s := width as real, height as real, size as real;
    var scale := if s / w <= s / h then s / w else s / h;
    FitBounds(w, h, s);
    var sw, sh := w * scale, h * scale;
    Placement((s - sw) / 2.0, (s - sh) / 2.0, sw, sh)
  }

  /** The 200 by 100 mask canvas in the 150-pixel preview box: 150 by 75,
      centred 37.5 pixels from the top. */
  lemma FitPreviewExample()
    ensures FitPreview(200, 100, PreviewSize) == Placement(0.0, 37.5, 150.0, 75.0)
  {
  }

  /** The arithmetic behind `FitPreview`. */
  lemma FitBounds(w: real, h: real, s: real)
    requires w > 0.0 && h > 0.0 && s > 0.0
    ensures var scale := if s / w <= s / h then s / w else s / h;
      && 0.0 < w * scale <= s && 0.0 < h * scale <= s
      && (w * scale == s || h * scale == s)
      && (w * scale) * h == (h * scale) * w
  {
  }
}
