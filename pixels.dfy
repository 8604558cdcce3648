/**
 * The pixel-mode normalisation at the end of `decode_base64_to_image`
 * (app.py:84-93), and the image-library operations the application relies on,
 * which the model leaves uninterpreted.
 */
module Pixels {
  import opened Wrappers
  import opened Base64

  /** The modes the dispatch names; `Other` stands for every other mode (1, I, F, CMYK, YCbCr, PA, ...). */
  datatype Mode = RGB | L | RGBA | LA | P | Other

  /** A decoded image: its mode, its size and its pixel data, which the model does not interpret. */
  datatype Image = Image(mode: Mode, width: nat, height: nat, pixels: seq<int>)

  /**
   * What the image library does, as opaque functions; None stands for a call that raises:
   *  - opensAndVerifies(d): `Image.open` on the bytes `d` and `verify()` both return without raising;
   *  - load(d): the image that `Image.open` and `load()` produce from `d` with truncated images
   *    allowed;
   *  - convert(img, m): the pixel data of `img.convert(m)` (it raises for conversions Pillow
   *    does not support);
   *  - lastBand(img): `img.split()[-1]`, the alpha band of an RGBA or LA image;
   *  - pasteOnWhite(img, mask): the pixel data of a white RGB canvas of the image's size after
   *    `paste(img, mask=mask)`;
   *  - savePng(img): the bytes that `img.save(..., format="PNG")` writes (it raises for modes
   *    PNG cannot hold, such as CMYK).
   */
  datatype Library = Library(
    opensAndVerifies: seq<Byte> -> bool,
    load: seq<Byte> -> Option<Image>,
    convert: (Image, Mode) -> Option<seq<int>>,
    lastBand: Image -> Option<Image>,
    pasteOnWhite: (Image, Option<Image>) -> Option<seq<int>>,
    savePng: Image -> Option<seq<Byte>>)

  predicate HasAlphaOrPalette(m: Mode) {
    m == RGBA || m == LA || m == P
  }

  predicate IsFinalMode(m: Mode) {
    m == RGB || m == L
  }

  /** The image that is pasted onto white: a palette image is first converted to RGBA. */
  function WithAlpha(img: Image, lib: Library): (r: Option<Image>)
    requires HasAlphaOrPalette(img.mode)
    ensures r.Some? ==> (r.value.mode == RGBA || r.value.mode == LA)
    ensures r.Some? ==> r.value.width == img.width && r.value.height == img.height
    ensures img.mode != P ==> r == Some(img)
    ensures img.mode == P ==> (r.None? <==> lib.convert(img, RGBA).None?)
    ensures img.mode == P && r.Some? ==> r.value.pixels == lib.convert(img, RGBA).value
  {
    if img.mode != P then Some(img)
    else
      match lib.convert(img, RGBA)
      case None => None
      case Some(px) => Some(Image(RGBA, img.width, img.height, px))
  }

  /**
   * The pixel data of the white canvas after the alpha-carrying image is pasted through
   * its last band, or None when splitting or pasting raises.
   */
  function Flatten(src: Image, lib: Library): (r: Option<seq<int>>)
    requires src.mode == RGBA || src.mode == LA
    ensures r.None? <==> lib.lastBand(src).None? || lib.pasteOnWhite(src, lib.lastBand(src)).None?
    ensures r.Some? ==> r == lib.pasteOnWhite(src, lib.lastBand(src))
  {
    var mask := lib.lastBand(src);
    match mask
    case None => None
    case Some(band) => lib.pasteOnWhite(src, Some(band))
  }

  /**
   * RGBA, LA and P images are composited onto an opaque white RGB canvas of the same
   * size, through their alpha band; RGB and L images are returned as they are; any
   * other mode is converted to RGB. None: one of the library calls raised.
   */
  function NormaliseMode(img: Image, lib: Library): (r: Option<Image>)
    ensures r.Some? ==> IsFinalMode(r.value.mode)
    ensures r.Some? ==> r.value.width == img.width && r.value.height == img.height
    ensures IsFinalMode(img.mode) ==> r == Some(img)
    ensures HasAlphaOrPalette(img.mode) ==>
      var src := WithAlpha(img, lib);
      && (r.None? <==> src.None? || lib.lastBand(src.value).None? || lib.pasteOnWhite(src.value, lib.lastBand(src.value)).None?)
      && (r.Some? ==> r.value.mode == RGB && r.value.pixels == lib.pasteOnWhite(src.value, lib.lastBand(src.value)).value)
    ensures img.mode == Other ==>
      && (r.None? <==> lib.convert(img, RGB).None?)
      && (r.Some? ==> r.value.mode == RGB && r.value.pixels == lib.convert(img, RGB).value)
  {
    if HasAlphaOrPalette(img.mode) then
      match WithAlpha(img, lib)
      case None => None
      case Some(src) =>
        match Flatten(src, lib)
        case None => None
        case Some(px) => Some(Image(RGB, img.width, img.height, px))
    else if !IsFinalMode(img.mode) then
      match lib.convert(img, RGB)
      case None => None
      case Some(px) => Some(Image(RGB, img.width, img.height, px))
    else
      Some(img)
  }

  /** A normalised image is left alone by a second normalisation. */
  lemma NormaliseModeIdempotent(img: Image, lib: Library)
    ensures NormaliseMode(img, lib).Some? ==> NormaliseMode(NormaliseMode(img, lib).value, lib) == NormaliseMode(img, lib)
  {
  }
}
