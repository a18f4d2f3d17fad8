/**
 * The decision part of `transformImageIfNeeded` in
 * lib/convert-api/docx-to-pdf/document-helper.ts, and the format rules it
 * shares with compress-docx.ts. The image library is abstract: `probe`
 * stands for reading metadata (`None` when it throws) and `encode` for
 * running the resize/encode pipeline a plan describes (`None` when it
 * throws, which nothing catches).
 */
module ImageTransform {
  import opened Wrappers

  type Bytes = seq<int>

  /** What the probe reports; a missing or zero dimension is 0. */
  datatype Meta = Meta(width: nat, height: nat, format: string, hasAlpha: Option<bool>)

  /** The encoder a pipeline ends with. */
  datatype Encoding = JpegEnc | WebpEnc | PngEnc

  /** A resize into the bounding box (when `resize`) followed by `encoding`. */
  datatype Plan = Plan(resize: bool, encoding: Encoding)

  /** `["jpeg", "jpg", "webp", "png", "tiff"].includes(format)`. */
  predicate IsPhotoFormat(format: string)
  {
    format == "jpeg" || format == "jpg" || format == "webp" || format == "png" || format == "tiff"
  }

  predicate IsOpaquePng(m: Meta)
  {
    m.format == "png" && m.hasAlpha != Some(true)
  }

  /**
   * The encoder chosen for a photo: an opaque PNG becomes WebP or JPEG when
   * PNG conversion is on, TIFF is written as JPEG, the others keep their format.
   */
  function TargetEncoding(m: Meta, convertPng: bool, preferWebP: bool): (e: Encoding)
    requires IsPhotoFormat(m.format)
    ensures convertPng && IsOpaquePng(m) ==> e == (if preferWebP then WebpEnc else JpegEnc)
    ensures !(convertPng && IsOpaquePng(m)) ==>
      (e == PngEnc <==> m.format == "png") && (e == WebpEnc <==> m.format == "webp")
  {
    var target := if convertPng && IsOpaquePng(m) then (if preferWebP then "webp" else "jpeg") else m.format;
    if target == "jpeg" || target == "jpg" then JpegEnc
    else if target == "webp" then WebpEnc
    else if target == "png" then PngEnc
    else JpegEnc
  }

  /** A PNG with an alpha channel is always written as PNG. */
  lemma AlphaPngStaysPng(m: Meta, convertPng: bool, preferWebP: bool)
    requires m.format == "png" && m.hasAlpha == Some(true)
    ensures TargetEncoding(m, convertPng, preferWebP) == PngEnc
  {
  }

  /** TIFF is never written as TIFF: it becomes JPEG. */
  lemma TiffBecomesJpeg(m: Meta, convertPng: bool, preferWebP: bool)
    requires m.format == "tiff"
    ensures TargetEncoding(m, convertPng, preferWebP) == JpegEnc
  {
  }

  /** The encoded output replaces the input only when it is at most 97% of its size. */
  predicate KeepAtMost(out: Bytes, input: Bytes)
  {
    100 * |out| <= 97 * |input|
  }

  /** The knobs of document-helper.ts read from the environment. */
  datatype TransformConfig = TransformConfig(
    inlineResize: bool, maxW: int, maxH: int, quality: int, minBytes: int,
    convertPngPhotos: bool, preferWebP: bool)

  /** The values used when the environment sets none. */
  const DocumentDefaults := TransformConfig(true, 1800, 1800, 78, 200000, true, false)

  /** Whether and how `transformImageIfNeeded` re-encodes an input of `inputLength` bytes with metadata `meta`. */
  function TransformPlan(cfg: TransformConfig, inputLength: nat, meta: Option<Meta>): (p: Option<Plan>)
    ensures p.Some? <==>
      && cfg.inlineResize && inputLength >= cfg.minBytes
      && meta.Some? && meta.value.width > 0 && meta.value.height > 0
      && IsPhotoFormat(meta.value.format)
    ensures p.Some? ==>
      && (p.value.resize <==> meta.value.width > cfg.maxW || meta.value.height > cfg.maxH)
      && p.value.encoding == TargetEncoding(meta.value, cfg.convertPngPhotos, cfg.preferWebP)
  {
    if !cfg.inlineResize || inputLength < cfg.minBytes then None
    else match meta
      case None => None
      case Some(m) =>
        if m.width == 0 || m.height == 0 then None
        else if !IsPhotoFormat(m.format) then None
        else Some(Plan(m.width > cfg.maxW || m.height > cfg.maxH,
                       TargetEncoding(m, cfg.convertPngPhotos, cfg.preferWebP)))
  }

  /**
   * `transformImageIfNeeded(input)`: the input itself, or the re-encoded
   * image when the plan runs and its output is no more than 97% of the
   * input; `None` when the encoder throws.
   */
  function TransformImageIfNeeded(cfg: TransformConfig, input: Bytes,
                                  probe: Bytes -> Option<Meta>, encode: (Bytes, Plan) -> Option<Bytes>): (r: Option<Bytes>)
    ensures r.Some? ==> |r.value| <= |input| && (r.value == input || KeepAtMost(r.value, input))
    ensures TransformPlan(cfg, |input|, probe(input)).None? ==> r == Some(input)
    ensures TransformPlan(cfg, |input|, probe(input)).Some? ==>
      match encode(input, TransformPlan(cfg, |input|, probe(input)).value)
      case None => r.None?
      case Some(out) => r == Some(if KeepAtMost(out, input) then out else input)
  {
    match TransformPlan(cfg, |input|, probe(input))
    case None => Some(input)
    case Some(plan) =>
      match encode(input, plan)
      case None => None
      case Some(out) => if KeepAtMost(out, input) then Some(out) else Some(input)
  }

  /** An input below the size floor is returned as it is, whatever the probe or encoder would say. */
  lemma SmallInputUntouched(input: Bytes, probe: Bytes -> Option<Meta>, encode: (Bytes, Plan) -> Option<Bytes>)
    requires |input| < DocumentDefaults.minBytes
    ensures TransformImageIfNeeded(DocumentDefaults, input, probe, encode) == Some(input)
  {
  }

  /** With the defaults an opaque PNG photo within bounds is re-encoded as JPEG without resizing. */
  lemma OpaquePngToJpeg(w: nat, h: nat)
    requires 0 < w <= 1800 && 0 < h <= 1800
    ensures TransformPlan(DocumentDefaults, 200000, Some(Meta(w, h, "png", None))) == Some(Plan(false, JpegEnc))
  {
  }
}
