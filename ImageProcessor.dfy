/**
 * The per-image transforms of the pixelation pipeline
 * (src/processing/image_processor.py): nearest-neighbour pixelation,
 * black-shadow hardening, offset correction, the hard alpha mask and the
 * masked composite against transparent black.
 */
module ImageProcessor {
  import opened Wrappers
  import opened Os
  import opened Bitmap

  // ---------------------------------------------------------------------
  // Pixel-wise rasters

  function MapPixels<T, U>(g: Raster<T>, f: T -> U): (r: Raster<U>)
    ensures SameSize(r, g)
    ensures forall x, y | InBounds(r, x, y) :: At(r, x, y) == f(At(g, x, y))
  {
    Grid(g.width, g.height, seq(g.height, y requires 0 <= y < g.height => MapRow(g, f, y)))
  }

  function MapRow<T, U>(g: Raster<T>, f: T -> U, y: int): (row: seq<U>)
    requires 0 <= y < g.height
    ensures |row| == g.width
  {
    seq(g.width, x requires 0 <= x < g.width => f(At(g, x, y)))
  }

  function ZipPixels<T, U, V>(g: Raster<T>, h: Raster<U>, f: (T, U) -> V): (r: Raster<V>)
    requires SameSize(g, h)
    ensures SameSize(r, g)
    ensures forall x, y | InBounds(r, x, y) :: At(r, x, y) == f(At(g, x, y), At(h, x, y))
  {
    Grid(g.width, g.height, seq(g.height, y requires 0 <= y < g.height => ZipRow(g, h, f, y)))
  }

  function ZipRow<T, U, V>(g: Raster<T>, h: Raster<U>, f: (T, U) -> V, y: int): (row: seq<V>)
    requires SameSize(g, h) && 0 <= y < g.height
    ensures |row| == g.width
  {
    seq(g.width, x requires 0 <= x < g.width => f(At(g, x, y), At(h, x, y)))
  }

  // ---------------------------------------------------------------------
  // pixelate_image: NEAREST down to the intermediate size, then back up

  /**
   * Pillow's NEAREST coordinate map: `f(i, s, d)` is the source index sampled
   * for destination index `i` when resizing `s` pixels to `d`.
   */
  type NearestMap = (nat, nat, nat) -> nat

  /** Every destination index samples inside a non-empty source. */
  ghost predicate SamplesSource(f: NearestMap) {
    forall i: nat, s: nat, d: nat {:trigger f(i, s, d)} :: i < d && 0 < s ==> f(i, s, d) < s
  }

  function Sampled(img: Raster<Rgba>, w: nat, h: nat, f: NearestMap): (r: Raster<Rgba>)
    requires SamplesSource(f) && 0 < img.width && 0 < img.height
    ensures r.width == w && r.height == h
    ensures forall x, y | InBounds(r, x, y) ::
      InBounds(img, f(x, img.width, w), f(y, img.height, h))
      && At(r, x, y) == At(img, f(x, img.width, w), f(y, img.height, h))
  {
    Grid(w, h, seq(h, y requires 0 <= y < h => SampledRow(img, w, h, f, y)))
  }

  function SampledRow(img: Raster<Rgba>, w: nat, h: nat, f: NearestMap, y: int): (row: seq<Rgba>)
    requires SamplesSource(f) && 0 < img.width && 0 < img.height && 0 <= y < h
    ensures |row| == w
  {
    seq(w, x requires 0 <= x < w => At(img, f(x, img.width, w), f(y, img.height, h)))
  }

  /**
   * `image.resize((w, h), NEAREST)`: the same size returns a copy, even of an
   * empty image; otherwise a zero size raises `ValueError`, and an empty
   * source yields the transparent fill.
   */
  function Resize(img: Raster<Rgba>, w: nat, h: nat, f: NearestMap): (r: Result<Raster<Rgba>, Exception>)
    requires SamplesSource(f)
  {
    if w == img.width && h == img.height then Ok(img)
    else if w == 0 || h == 0 then Err(ValueError("height and width must be > 0"))
    else if img.width == 0 || img.height == 0 then Ok(Filled(w, h, Transparent))
    else Ok(Sampled(img, w, h, f))
  }

  /**
   * `pixelate_image` with the intermediate size `(sw, sh)` given as integers
   * (the code computes it as `round(width * resize_amount)` and so on).
   */
  function Pixelate(img: Raster<Rgba>, sw: nat, sh: nat, f: NearestMap): (r: Result<Raster<Rgba>, Exception>)
    requires SamplesSource(f)
  {
    match Resize(img, sw, sh, f)
    case Err(e) => Err(e)
    case Ok(small) => Resize(small, img.width, img.height, f)
  }

  /**
   * Pixelation raises exactly when the intermediate size differs from the
   * image's and one of the four sides is zero; otherwise the size is kept.
   */
  lemma PixelateSize(img: Raster<Rgba>, sw: nat, sh: nat, f: NearestMap)
    requires SamplesSource(f)
    ensures Pixelate(img, sw, sh, f).Err? <==>
              (sw, sh) != (img.width, img.height) && (sw == 0 || sh == 0 || img.width == 0 || img.height == 0)
    ensures Pixelate(img, sw, sh, f).Ok? ==> SameSize(Pixelate(img, sw, sh, f).value, img)
  {
  }

  /** Both passes are NEAREST, so every output pixel is one of the input's pixels. */
  lemma PixelateNoNewColours(img: Raster<Rgba>, sw: nat, sh: nat, f: NearestMap)
    requires SamplesSource(f)
    requires Pixelate(img, sw, sh, f).Ok?
    ensures var r := Pixelate(img, sw, sh, f).value;
      forall x, y | InBounds(r, x, y) :: exists u, v :: InBounds(img, u, v) && At(r, x, y) == At(img, u, v)
  {
    PixelateSize(img, sw, sh, f);
    var small := Resize(img, sw, sh, f).value;
    var r := Pixelate(img, sw, sh, f).value;
    forall x, y | InBounds(r, x, y)
      ensures exists u, v :: InBounds(img, u, v) && At(r, x, y) == At(img, u, v)
    {
      var u, v := x, y;
      if !(sw == img.width && sh == img.height) {
        u, v := f(x, small.width, img.width), f(y, small.height, img.height);
        if !(small.width == img.width && small.height == img.height) {
          u, v := f(u, img.width, sw), f(v, img.height, sh);
        }
      }
      assert InBounds(img, u, v) && At(r, x, y) == At(img, u, v);
    }
  }

  /** A flat-colour image is left unchanged by pixelation. */
  lemma PixelateFlat(img: Raster<Rgba>, sw: nat, sh: nat, f: NearestMap, c: Rgba)
    requires SamplesSource(f)
    requires forall x, y | InBounds(img, x, y) :: At(img, x, y) == c
    requires Pixelate(img, sw, sh, f).Ok?
    ensures Pixelate(img, sw, sh, f).value == img
  {
    PixelateNoNewColours(img, sw, sh, f);
    PixelateSize(img, sw, sh, f);
    var r := Pixelate(img, sw, sh, f).value;
    forall x, y | InBounds(r, x, y)
      ensures At(r, x, y) == At(img, x, y)
    {
      var u, v :| InBounds(img, u, v) && At(r, x, y) == At(img, u, v);
    }
    Extensionality(r, img);
  }

  // ---------------------------------------------------------------------
  // apply_black_shadows

  const DefaultShadow := Rgba(0, 0, 0, 255)

  /** Semi-transparent pure black: R = G = B = 0 and 64 < A < 255. */
  predicate IsShadow(p: Rgba) {
    p.r == 0 && p.g == 0 && p.b == 0 && 64 < p.a < 255
  }

  function Harden(p: Rgba, color: Rgba): Rgba {
    if IsShadow(p) then color else p
  }

  function BlackShadows(img: Raster<Rgba>, color: Rgba): Raster<Rgba> {
    MapPixels(img, p => Harden(p, color))
  }

  /** Exactly the shadow pixels take `color`; every other pixel is unchanged. */
  lemma BlackShadowsExact(img: Raster<Rgba>, color: Rgba)
    ensures SameSize(BlackShadows(img, color), img)
    ensures forall x, y | InBounds(img, x, y) ::
      && (IsShadow(At(img, x, y)) ==> At(BlackShadows(img, color), x, y) == color)
      && (!IsShadow(At(img, x, y)) ==> At(BlackShadows(img, color), x, y) == At(img, x, y))
  {
  }

  /** A pixel with alpha at most 64, fully transparent ones included, is never touched. */
  lemma BlackShadowsSparesLowAlpha(img: Raster<Rgba>, color: Rgba, x: int, y: int)
    requires InBounds(img, x, y) && At(img, x, y).a <= 64
    ensures At(BlackShadows(img, color), x, y) == At(img, x, y)
  {
  }

  /** With a colour that is not itself a shadow, such as the default opaque black, hardening is idempotent. */
  lemma BlackShadowsIdempotent(img: Raster<Rgba>, color: Rgba)
    requires !IsShadow(color)
    ensures BlackShadows(BlackShadows(img, color), color) == BlackShadows(img, color)
  {
    var once := BlackShadows(img, color);
    Extensionality(BlackShadows(once, color), once);
  }

  lemma DefaultShadowIdempotent(img: Raster<Rgba>)
    ensures BlackShadows(BlackShadows(img, DefaultShadow), DefaultShadow) == BlackShadows(img, DefaultShadow)
  {
    BlackShadowsIdempotent(img, DefaultShadow);
  }

  /** `img_array[mask] = shadow_color` on the pixel buffer. */
  method HardenInPlace(a: array2<Rgba>, color: Rgba)
    modifies a
    ensures forall y, x | 0 <= y < a.Length0 && 0 <= x < a.Length1 :: a[y, x] == Harden(old(a[y, x]), color)
  {
    var y := 0;
    while y < a.Length0
      invariant 0 <= y <= a.Length0
      invariant forall j, i | 0 <= j < a.Length0 && 0 <= i < a.Length1 ::
        a[j, i] == if j < y then Harden(old(a[j, i]), color) else old(a[j, i])
    {
      var x := 0;
      while x < a.Length1
        invariant 0 <= x <= a.Length1
        invariant forall j, i | 0 <= j < a.Length0 && 0 <= i < a.Length1 ::
          a[j, i] == if j < y || (j == y && i < x) then Harden(old(a[j, i]), color) else old(a[j, i])
      {
        if IsShadow(a[y, x]) {
          a[y, x] := color;
        }
        x := x + 1;
      }
      y := y + 1;
    }
  }

  /** `apply_black_shadows`: the pixel buffer is hardened in place and turned back into an image. */
  method ApplyBlackShadows(img: Raster<Rgba>, color: Rgba) returns (r: Raster<Rgba>)
    ensures r == BlackShadows(img, color)
  {
    var a := ToArray(img);
    HardenInPlace(a, color);
    r := FromArray(a);
    Extensionality(r, BlackShadows(img, color));
  }

  // ---------------------------------------------------------------------
  // apply_offset_correction

  /**
   * The pixel at (x, y) after the pastes, the later paste winning: the corner
   * pixel over the bottom-right block, the top row along the bottom band,
   * the left column along the right band, the image shifted by `off`
   * elsewhere, and the transparent fill where nothing was pasted.
   */
  function OffsetPixel(img: Raster<Rgba>, off: int, x: int, y: int): Rgba
    requires InBounds(img, x, y) && off > 0
  {
    if x >= img.width - off && y >= img.height - off then At(img, 0, 0)
    else if y >= img.height - off && x >= off then At(img, x - off, 0)
    else if x >= img.width - off && y >= off then At(img, 0, y - off)
    else if x >= off && y >= off then At(img, x - off, y - off)
    else Transparent
  }

  function OffsetRow(img: Raster<Rgba>, off: int, y: int): (row: seq<Rgba>)
    requires 0 <= y < img.height && off > 0
    ensures |row| == img.width
  {
    seq(img.width, x requires 0 <= x < img.width => OffsetPixel(img, off, x, y))
  }

  function OffsetCorrected(img: Raster<Rgba>, off: int): (r: Raster<Rgba>)
    ensures SameSize(r, img)
  {
    if off <= 0 then img
    else Grid(img.width, img.height, seq(img.height, y requires 0 <= y < img.height => OffsetRow(img, off, y)))
  }

  /**
   * A non-positive offset returns the input. Otherwise the size is kept, the
   * interior is the image shifted by `off`, and the top-left corner, which no
   * paste reaches, keeps the transparent fill.
   */
  lemma OffsetCorrectedShape(img: Raster<Rgba>, off: int)
    ensures off <= 0 ==> OffsetCorrected(img, off) == img
    ensures SameSize(OffsetCorrected(img, off), img)
    ensures off > 0 ==> forall x, y | InBounds(img, x, y) && x < off && y < off && x < img.width - off && y < img.height - off ::
      At(OffsetCorrected(img, off), x, y) == Transparent
    ensures off > 0 ==> forall x, y | InBounds(img, x, y) && off <= x < img.width - off && off <= y < img.height - off ::
      At(OffsetCorrected(img, off), x, y) == At(img, x - off, y - off)
  {
  }

  /** `pixelated_image.crop((x0, y0, x1, y1))`: pixels outside the source read as transparent. */
  function Cropped(img: Raster<Rgba>, x0: int, y0: int, x1: nat, y1: nat): (r: Raster<Rgba>)
    requires x0 <= x1 && y0 <= y1
    ensures r.width == x1 - x0 && r.height == y1 - y0
    ensures forall x, y | InBounds(r, x, y) ::
      At(r, x, y) == if InBounds(img, x + x0, y + y0) then At(img, x + x0, y + y0) else Transparent
  {
    Grid(x1 - x0, y1 - y0, seq(y1 - y0, y requires 0 <= y < y1 - y0 => CroppedRow(img, x0, y0, x1, y)))
  }

  function CroppedRow(img: Raster<Rgba>, x0: int, y0: int, x1: nat, y: int): (row: seq<Rgba>)
    requires x0 <= x1
    ensures |row| == x1 - x0
  {
    seq(x1 - x0, x requires 0 <= x < x1 - x0 =>
      if InBounds(img, x + x0, y + y0) then At(img, x + x0, y + y0) else Transparent)
  }

  /** How far the pastes of `apply_offset_correction` have got. */
  datatype Phase = AfterMain | AfterRight(k: int) | AfterBottom(k: int) | AfterCorner(i: int, j: int)

  /** The buffer pixel at (x, y) once the pastes up to `ph` are done. */
  function Stage(img: Raster<Rgba>, off: int, ph: Phase, x: int, y: int): Rgba
    requires InBounds(img, x, y) && off > 0
  {
    var w, h := img.width, img.height;
    var main := if x >= off && y >= off then At(img, x - off, y - off) else Transparent;
    var right := if x >= w - off && y >= off then At(img, 0, y - off) else main;
    var bottom := if y >= h - off && x >= off then At(img, x - off, 0) else right;
    match ph
    case AfterMain => main
    case AfterRight(k) => if x >= w - k && y >= off then At(img, 0, y - off) else main
    case AfterBottom(k) => if y >= h - k && x >= off then At(img, x - off, 0) else right
    case AfterCorner(i, j) =>
      if (x >= w - i && y >= h - off) || (x == w - 1 - i && y >= h - j) then At(img, 0, 0) else bottom
  }

  predicate BufferAt(a: array2<Rgba>, img: Raster<Rgba>, off: int, ph: Phase)
    reads a
    requires off > 0
  {
    a.Length0 == img.height && a.Length1 == img.width
    && forall y, x | 0 <= y < img.height && 0 <= x < img.width :: a[y, x] == Stage(img, off, ph, x, y)
  }

  /** Pastes the one-pixel-wide left column at x = w - 1 - i, y = off, for i < off. */
  method PasteRightEdge(a: array2<Rgba>, img: Raster<Rgba>, off: int)
    requires off > 0 && BufferAt(a, img, off, AfterMain)
    modifies a
    ensures BufferAt(a, img, off, AfterRight(off))
  {
    var right := Cropped(img, 0, 0, 1, img.height);
    var i := 0;
    while i < off
      invariant 0 <= i <= off
      invariant BufferAt(a, img, off, AfterRight(i))
    {
      Paste(a, right, img.width - 1 - i, off);
      i := i + 1;
    }
  }

  /** Pastes the one-pixel-high top row at x = off, y = h - 1 - i, for i < off. */
  method PasteBottomEdge(a: array2<Rgba>, img: Raster<Rgba>, off: int)
    requires off > 0 && BufferAt(a, img, off, AfterRight(off))
    modifies a
    ensures BufferAt(a, img, off, AfterBottom(off))
  {
    var bottom := Cropped(img, 0, 0, img.width, 1);
    var i := 0;
    while i < off
      invariant 0 <= i <= off
      invariant BufferAt(a, img, off, AfterBottom(i))
    {
      Paste(a, bottom, off, img.height - 1 - i);
      i := i + 1;
    }
  }

  /** Pastes the top-left pixel at every (w - 1 - i, h - 1 - j), for i, j < off. */
  method PasteCorner(a: array2<Rgba>, img: Raster<Rgba>, off: int)
    requires off > 0 && BufferAt(a, img, off, AfterBottom(off))
    modifies a
    ensures BufferAt(a, img, off, AfterCorner(off, 0))
  {
    var corner := Cropped(img, 0, 0, 1, 1);
    var i := 0;
    while i < off
      invariant 0 <= i <= off
      invariant BufferAt(a, img, off, AfterCorner(i, 0))
    {
      var j := 0;
      while j < off
        invariant 0 <= j <= off
        invariant BufferAt(a, img, off, AfterCorner(i, j))
      {
        Paste(a, corner, img.width - 1 - i, img.height - 1 - j);
        j := j + 1;
      }
      assert BufferAt(a, img, off, AfterCorner(i + 1, 0));
      i := i + 1;
    }
  }

  /** `apply_offset_correction` with the offset `round((1 / resize_amount) / 2)` given as an integer. */
  method ApplyOffsetCorrection(img: Raster<Rgba>, off: int) returns (r: Raster<Rgba>)
    ensures r == OffsetCorrected(img, off)
  {
    if off <= 0 {
      return img;
    }
    var a := ToArray(Filled(img.width, img.height, Transparent));
    Paste(a, img, off, off);
    PasteRightEdge(a, img, off);
    PasteBottomEdge(a, img, off);
    PasteCorner(a, img, off);
    r := FromArray(a);
    Extensionality(r, OffsetCorrected(img, off));
  }

  // ---------------------------------------------------------------------
  // extract_alpha_mask and apply_mask

  /** `image.split()[-1]`: the alpha band as a mode "L" image. */
  function AlphaBand(img: Raster<Rgba>): Raster<byte> {
    MapPixels(img, (p: Rgba) => p.a)
  }

  /** `point(lambda p: 255 if p > 0 else 0)`. */
  function HardMask(m: Raster<byte>): Raster<byte> {
    MapPixels(m, (v: byte) => if v > 0 then 255 as byte else 0 as byte)
  }

  function ExtractAlphaMask(img: Raster<Rgba>): (r: Raster<byte>)
    ensures SameSize(r, img)
    ensures forall x, y | InBounds(img, x, y) ::
      && (At(r, x, y) == 255 <==> At(img, x, y).a > 0)
      && (At(r, x, y) == 0 <==> At(img, x, y).a == 0)
  {
    HardMask(AlphaBand(img))
  }

  /** Pillow's rounding division by 255 used in blending. */
  function Div255(t: int): int {
    ((t + 128) / 256 + t + 128) / 256
  }

  lemma Div255Bounds(t: int)
    requires 0 <= t <= 255 * 255
    ensures 0 <= Div255(t) <= 255
  {
  }

  /** The blend is exact on the mask's two extremes. */
  lemma Div255Extremes(c: byte)
    ensures Div255(c * 255) == c
    ensures Div255(c * 0) == 0
  {
    if c <= 128 {
      assert (c * 255 + 128) / 256 == c;
    } else {
      assert (c * 255 + 128) / 256 == c - 1;
    }
  }

  /** One channel of `paste(fg, mask)` over a zero background: the background term is zero. */
  function Blend(c: byte, m: byte): (v: byte) {
    assert 0 <= c * m <= 255 * 255 by {
      assert c * m <= 255 * m <= 255 * 255;
    }
    Div255Bounds(c * m);
    Div255(c * m)
  }

  function MaskedPixel(p: Rgba, m: byte): Rgba {
    Rgba(Blend(p.r, m), Blend(p.g, m), Blend(p.b, m), Blend(p.a, m))
  }

  /**
   * `Image.composite(image, Image.new("RGBA", image.size, (0, 0, 0, 0)), mask)`;
   * a mask of another size raises `ValueError`.
   */
  function ApplyMask(img: Raster<Rgba>, mask: Raster<byte>): (r: Result<Raster<Rgba>, Exception>)
    ensures r.Ok? <==> SameSize(img, mask)
    ensures r.Ok? ==> SameSize(r.value, img)
  {
    if SameSize(img, mask) then Ok(ZipPixels(img, mask, MaskedPixel))
    else Err(ValueError("images do not match"))
  }

  ghost predicate Binary(m: Raster<byte>) {
    forall x, y | InBounds(m, x, y) :: At(m, x, y) == 0 || At(m, x, y) == 255
  }

  /** With a binary mask: the image pixel where the mask is 255, transparent black where it is 0. */
  lemma ApplyMaskBinary(img: Raster<Rgba>, mask: Raster<byte>)
    requires SameSize(img, mask) && Binary(mask)
    ensures forall x, y | InBounds(img, x, y) ::
      At(ApplyMask(img, mask).value, x, y) == if At(mask, x, y) == 255 then At(img, x, y) else Transparent
  {
    forall x, y | InBounds(img, x, y)
      ensures At(ApplyMask(img, mask).value, x, y) == if At(mask, x, y) == 255 then At(img, x, y) else Transparent
    {
      var p := At(img, x, y);
      Div255Extremes(p.r);
      Div255Extremes(p.g);
      Div255Extremes(p.b);
      Div255Extremes(p.a);
    }
  }

  /** The hard alpha mask is binary. */
  lemma HardMaskBinary(m: Raster<byte>)
    ensures Binary(HardMask(m))
  {
  }
}
