/**
 * The per-texture compositing pipeline (src/processing/pixelation_processor.py):
 * pixelate, mask with the hard alpha mask (or a custom mask file with the
 * hard mask pasted over it), put the original alpha back, and optionally
 * harden the shadows; and the parameter validation.
 */
module PixelationProcessor {
  import opened Wrappers
  import opened Os
  import opened Bitmap
  import opened ImageProcessor

  // ---------------------------------------------------------------------
  // putalpha

  function SetAlpha(p: Rgba, v: byte): Rgba {
    p.(a := v)
  }

  /** `image.putalpha(alpha)`: the alpha band replaced, colour bands kept. */
  function WithAlpha(img: Raster<Rgba>, alpha: Raster<byte>): Raster<Rgba>
    requires SameSize(img, alpha)
  {
    ZipPixels(img, alpha, SetAlpha)
  }

  method PutAlpha(a: array2<Rgba>, alpha: Raster<byte>)
    requires a.Length0 == alpha.height && a.Length1 == alpha.width
    modifies a
    ensures forall y, x | 0 <= y < a.Length0 && 0 <= x < a.Length1 :: a[y, x] == SetAlpha(old(a[y, x]), At(alpha, x, y))
  {
    var y := 0;
    while y < a.Length0
      invariant 0 <= y <= a.Length0
      invariant forall j, i | 0 <= j < a.Length0 && 0 <= i < a.Length1 ::
        a[j, i] == if j < y then SetAlpha(old(a[j, i]), At(alpha, i, j)) else old(a[j, i])
    {
      var x := 0;
      while x < a.Length1
        invariant 0 <= x <= a.Length1
        invariant forall j, i | 0 <= j < a.Length0 && 0 <= i < a.Length1 ::
          a[j, i] == if j < y || (j == y && i < x) then SetAlpha(old(a[j, i]), At(alpha, i, j)) else old(a[j, i])
      {
        a[y, x] := SetAlpha(a[y, x], At(alpha, x, y));
        x := x + 1;
      }
      y := y + 1;
    }
  }

  // ---------------------------------------------------------------------
  // The mask file

  /**
   * `Image.open(...).convert("L")` on a file's bytes; `None` when Pillow
   * cannot decode them.
   */
  type MaskDecoder = Bytes -> Option<Raster<byte>>

  /** A mask path is given when it is neither `None` nor the empty string. */
  predicate Given(maskFile: Option<string>) {
    maskFile.Some? && maskFile.value != ""
  }

  /**
   * The custom mask, if `mask_file` is given, exists, and `load_image_safely`
   * opens it (a directory or undecodable bytes give `None`).
   */
  function LoadMask(d: Disk, maskFile: Option<string>, decode: MaskDecoder): (m: Option<Raster<byte>>)
    ensures m.Some? ==> Given(maskFile) && maskFile.value in d.files && m == decode(d.files[maskFile.value])
  {
    if Given(maskFile) && Exists(d, maskFile.value) then
      if maskFile.value in d.files then decode(d.files[maskFile.value]) else None
    else None
  }

  /** The compositing mask: the custom mask with the hard mask pasted at the origin, or the hard mask. */
  function CompositingMask(hard: Raster<byte>, custom: Option<Raster<byte>>): Raster<byte> {
    if custom.Some? then Pasted(custom.value, hard, 0, 0) else hard
  }

  // ---------------------------------------------------------------------
  // process_image

  function ProcessedImage(img: Raster<Rgba>, sw: nat, sh: nat, f: NearestMap,
                          custom: Option<Raster<byte>>, shadows: bool): Result<Raster<Rgba>, Exception>
    requires SamplesSource(f)
  {
    var alpha := AlphaBand(img);
    match Pixelate(img, sw, sh, f)
    case Err(e) => Err(e)
    case Ok(pixelated) =>
      match ApplyMask(pixelated, CompositingMask(HardMask(alpha), custom))
      case Err(e) => Err(e)
      case Ok(composed) =>
        var restored := WithAlpha(composed, alpha);
        Ok(if shadows then BlackShadows(restored, DefaultShadow) else restored)
  }

  /**
   * `process_image` with the intermediate size `(sw, sh)` given as integers.
   * The custom mask buffer is pasted over in place, and so is the restored alpha.
   */
  method ProcessImage(d: Disk, img: Raster<Rgba>, sw: nat, sh: nat, f: NearestMap,
                      maskFile: Option<string>, decode: MaskDecoder, shadows: bool)
    returns (r: Result<Raster<Rgba>, Exception>)
    requires SamplesSource(f)
    ensures r == ProcessedImage(img, sw, sh, f, LoadMask(d, maskFile, decode), shadows)
  {
    var alpha := AlphaBand(img);
    var hard := HardMask(alpha);
    var pixelated := Pixelate(img, sw, sh, f);
    if pixelated.Err? {
      return Err(pixelated.error);
    }
    var custom := LoadMask(d, maskFile, decode);
    var mask := hard;
    if custom.Some? {
      var buffer := ToArray(custom.value);
      Paste(buffer, hard, 0, 0);
      mask := FromArray(buffer);
      Extensionality(mask, Pasted(custom.value, hard, 0, 0));
    }
    var composed := ApplyMask(pixelated.value, mask);
    if composed.Err? {
      return Err(composed.error);
    }
    var buffer := ToArray(composed.value);
    PutAlpha(buffer, alpha);
    var finalImage := FromArray(buffer);
    Extensionality(finalImage, WithAlpha(composed.value, alpha));
    if shadows {
      finalImage := ApplyBlackShadows(finalImage, DefaultShadow);
    }
    return Ok(finalImage);
  }

  /** The output has the input's size; it fails exactly when pixelation does or a custom mask has another size. */
  lemma ProcessedShape(img: Raster<Rgba>, sw: nat, sh: nat, f: NearestMap, custom: Option<Raster<byte>>, shadows: bool)
    requires SamplesSource(f)
    ensures var r := ProcessedImage(img, sw, sh, f, custom, shadows);
      && (r.Err? <==> Pixelate(img, sw, sh, f).Err? || (custom.Some? && !SameSize(custom.value, img)))
      && (r.Ok? ==> SameSize(r.value, img))
  {
    PixelateSize(img, sw, sh, f);
  }

  /** Without shadow hardening the output alpha is the input alpha, pixel for pixel. */
  lemma AlphaRestored(img: Raster<Rgba>, sw: nat, sh: nat, f: NearestMap, custom: Option<Raster<byte>>)
    requires SamplesSource(f)
    requires ProcessedImage(img, sw, sh, f, custom, false).Ok?
    ensures var r := ProcessedImage(img, sw, sh, f, custom, false).value;
      SameSize(r, img) && forall x, y | InBounds(img, x, y) :: At(r, x, y).a == At(img, x, y).a
  {
    ProcessedShape(img, sw, sh, f, custom, false);
  }

  /**
   * With or without hardening, a pixel that was fully transparent stays fully
   * transparent; hardening only ever raises alpha to 255 where it was above 64.
   */
  lemma TransparentStaysTransparent(img: Raster<Rgba>, sw: nat, sh: nat, f: NearestMap,
                                    custom: Option<Raster<byte>>, shadows: bool, x: int, y: int)
    requires SamplesSource(f)
    requires ProcessedImage(img, sw, sh, f, custom, shadows).Ok?
    requires InBounds(img, x, y)
    ensures var r := ProcessedImage(img, sw, sh, f, custom, shadows).value;
      && InBounds(r, x, y)
      && (At(img, x, y).a == 0 ==> At(r, x, y).a == 0)
      && (At(r, x, y).a == At(img, x, y).a || (At(r, x, y).a == 255 && At(img, x, y).a > 64))
  {
    ProcessedShape(img, sw, sh, f, custom, shadows);
  }

  /**
   * Without hardening, the output is the pixelated colour where the input was
   * visible and black where it was fully transparent, under the input's alpha.
   */
  lemma ProcessedColour(img: Raster<Rgba>, sw: nat, sh: nat, f: NearestMap, custom: Option<Raster<byte>>)
    requires SamplesSource(f)
    requires ProcessedImage(img, sw, sh, f, custom, false).Ok?
    ensures var r := ProcessedImage(img, sw, sh, f, custom, false).value;
      var pixelated := Pixelate(img, sw, sh, f).value;
      SameSize(pixelated, img) && SameSize(r, img)
      && forall x, y | InBounds(img, x, y) ::
        At(r, x, y) == SetAlpha(if At(img, x, y).a > 0 then At(pixelated, x, y) else Transparent, At(img, x, y).a)
  {
    ProcessedShape(img, sw, sh, f, custom, false);
    var pixelated := Pixelate(img, sw, sh, f).value;
    var mask := CompositingMask(HardMask(AlphaBand(img)), custom);
    assert forall x, y | InBounds(img, x, y) :: At(mask, x, y) == At(HardMask(AlphaBand(img)), x, y);
    assert Binary(mask);
    ApplyMaskBinary(pixelated, mask);
  }

  /**
   * Pasting the hard mask over a custom mask of the same size covers all of
   * it, so the custom mask's contents never matter.
   */
  lemma SameSizeMaskIgnored(img: Raster<Rgba>, sw: nat, sh: nat, f: NearestMap, custom: Raster<byte>, shadows: bool)
    requires SamplesSource(f)
    requires SameSize(custom, img)
    ensures ProcessedImage(img, sw, sh, f, Some(custom), shadows) == ProcessedImage(img, sw, sh, f, None, shadows)
  {
    var hard := HardMask(AlphaBand(img));
    Extensionality(CompositingMask(hard, Some(custom)), hard);
  }

  /** Hardening is applied to the finished, alpha-restored image, and to nothing else. */
  lemma ShadowsLast(img: Raster<Rgba>, sw: nat, sh: nat, f: NearestMap, custom: Option<Raster<byte>>)
    requires SamplesSource(f)
    ensures var plain := ProcessedImage(img, sw, sh, f, custom, false);
      var hardened := ProcessedImage(img, sw, sh, f, custom, true);
      && (hardened.Err? <==> plain.Err?)
      && (plain.Ok? ==> hardened.value == BlackShadows(plain.value, DefaultShadow))
  {
  }

  /**
   * A mask file that is not given, missing, a directory or undecodable falls
   * back to the hard alpha mask and does not make processing raise.
   */
  lemma MissingMaskFallsBack(d: Disk, img: Raster<Rgba>, sw: nat, sh: nat, f: NearestMap,
                             maskFile: Option<string>, decode: MaskDecoder, shadows: bool)
    requires SamplesSource(f)
    requires !Given(maskFile) || maskFile.value !in d.files || decode(d.files[maskFile.value]).None?
    ensures var r := ProcessedImage(img, sw, sh, f, LoadMask(d, maskFile, decode), shadows);
      && r == ProcessedImage(img, sw, sh, f, None, shadows)
      && (r.Err? <==> Pixelate(img, sw, sh, f).Err?)
  {
    ProcessedShape(img, sw, sh, f, None, shadows);
  }

  // ---------------------------------------------------------------------
  // validate_processing_params

  const MinResizeAmount: real := 0.1
  const MaxResizeAmount: real := 1.0

  datatype ParamError = ResizeOutOfRange | MaskFileMissing(path: string)

  function ValidateProcessingParams(d: Disk, resizeAmount: real, maskFile: Option<string>): (errors: seq<ParamError>)
  {
    (if resizeAmount < MinResizeAmount || resizeAmount > MaxResizeAmount then [ResizeOutOfRange] else [])
    + (if Given(maskFile) && !Exists(d, maskFile.value) then [MaskFileMissing(maskFile.value)] else [])
  }

  /** One error for an out-of-range resize amount, then one for a given but missing mask file; nothing else. */
  lemma ValidateProcessingParamsExact(d: Disk, resizeAmount: real, maskFile: Option<string>)
    ensures var errors := ValidateProcessingParams(d, resizeAmount, maskFile);
      && (ResizeOutOfRange in errors <==> !(MinResizeAmount <= resizeAmount <= MaxResizeAmount))
      && (forall p :: MaskFileMissing(p) in errors <==> Given(maskFile) && p == maskFile.value && !Exists(d, p))
      && (errors == [] <==> MinResizeAmount <= resizeAmount <= MaxResizeAmount && (!Given(maskFile) || Exists(d, maskFile.value)))
      && (|errors| == 2 ==> errors[0] == ResizeOutOfRange)
  {
  }
}
