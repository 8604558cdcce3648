/**
 * The functions of app.py around the image library: `encode_image_to_base64`,
 * `is_valid_base64`, `decode_base64_to_image` and `create_download_link`.
 * Every exception the source catches becomes a `Failure` (or `false`), so each
 * function here is total: none of them can raise.
 */
module App {
  import opened Wrappers
  import opened Base64
  import opened Normalise
  import opened Signatures
  import opened Pixels

  // ---------------------------------------------------------------------------
  // Encoding
  // ---------------------------------------------------------------------------

  /**
   * `encode_image_to_base64`: the base64 text of the image's PNG serialisation. None:
   * saving raised, and the exception leaves the function (the source does not catch it).
   */
  function EncodeImageToBase64(img: Image, lib: Library): (r: Option<string>)
    ensures r.None? <==> lib.savePng(img).None?
    ensures r.Some? ==> DecodeStrict(r.value) == Success(lib.savePng(img).value)
    ensures r.Some? ==> |r.value| == 4 * ((|lib.savePng(img).value| + 2) / 3)
  {
    match lib.savePng(img)
    case None => None
    case Some(png) =>
      DecodeEncode(png);
      Some(Encode(png))
  }

  /** A base64 character is printable ASCII: not whitespace, a comma, a colon or a quote. */
  lemma PlainChar(c: char)
    requires IsAlphabetChar(c) || c == '='
    ensures !IsSpace(c) && c != ',' && c != ':' && c != '"'
  {
    assert '!' <= c <= '~';
  }

  /** Text made of base64 characters passes through the prelude unchanged. */
  lemma CleanText(s: string)
    requires forall k :: 0 <= k < |s| ==> IsAlphabetChar(s[k]) || s[k] == '='
    ensures Prelude(s) == s
  {
    forall k | 0 <= k < |s| ensures !IsSpace(s[k]) && s[k] != ',' {
      PlainChar(s[k]);
    }
    StripWhitespaceFixpoint(s);
    assert StripWhitespace(s) == s;
    assert ',' !in s;
  }

  /** Base64 text never holds whitespace, a comma or a colon, so the prelude and padding leave it alone. */
  lemma NormalisedEncoding(d: seq<Byte>)
    ensures Prelude(Encode(d)) == Encode(d)
    ensures PadToQuad(Encode(d)) == Encode(d)
  {
    var e := Encode(d);
    forall k | 0 <= k < |e| ensures IsAlphabetChar(e[k]) || e[k] == '=' {
      if k >= |e| - PadCount(|d|) { assert e[k] == '='; }
    }
    CleanText(e);
    assert |e| % 4 == 0;
  }

  // ---------------------------------------------------------------------------
  // Validation
  // ---------------------------------------------------------------------------

  /** What the validator hands to strict decoding: the prelude's result padded to whole quads. */
  function ValidatorPayload(s: string): (r: string)
    ensures |r| % 4 == 0 && Prelude(s) <= r
  {
    PadToQuad(Prelude(s))
  }

  /**
   * `is_valid_base64`: the payload must decode strictly, be longer than ten bytes and
   * either carry a known signature or satisfy the library's open-and-verify check.
   */
  function IsValidBase64(s: string, lib: Library): (r: bool)
    ensures !WellFormed(ValidatorPayload(s)) ==> !r
    ensures r ==> |DecodeStrict(ValidatorPayload(s)).value| > 10
  {
    match DecodeStrict(ValidatorPayload(s))
    case Failure(_) => false
    case Success(d) => Sniff(d, lib.opensAndVerifies)
  }

  /** A character that is neither in the alphabet nor '=' makes the answer false. */
  lemma ForeignCharacterRejected(s: string, lib: Library, k: nat)
    requires k < |Prelude(s)| && !IsAlphabetChar(Prelude(s)[k]) && Prelude(s)[k] != '='
    ensures !IsValidBase64(s, lib)
  {
    var p := Prelude(s);
    var t := ValidatorPayload(s);
    assert t[k] == t[..|p|][k] == p[k];
    if WellFormed(t) {
      WellFormedChars(t, k);
      assert false;
    }
  }

  /** A payload that decodes to ten bytes or fewer is rejected whatever its content. */
  lemma ShortPayloadRejected(s: string, lib: Library)
    requires DecodeStrict(ValidatorPayload(s)).Success? && |DecodeStrict(ValidatorPayload(s)).value| <= 10
    ensures !IsValidBase64(s, lib)
  {
  }

  /** On the base64 text of any bytes, the validator's verdict is the signature test of those bytes. */
  lemma ValidatesEncoding(d: seq<Byte>, lib: Library)
    ensures IsValidBase64(Encode(d), lib) == Sniff(d, lib.opensAndVerifies)
  {
    NormalisedEncoding(d);
    DecodeEncode(d);
  }

  /** What the encoder produces passes the validator when its PNG bytes are longer than ten bytes and carry the PNG signature. */
  lemma EncodedPngValidates(img: Image, lib: Library)
    requires lib.savePng(img).Some? && |lib.savePng(img).value| > 10 && PngMagic <= lib.savePng(img).value
    ensures EncodeImageToBase64(img, lib).Some? && IsValidBase64(EncodeImageToBase64(img, lib).value, lib)
  {
    var png := lib.savePng(img).value;
    ValidatesEncoding(png, lib);
    assert Order[0] == Png;
    assert FirstMatch(png, Order) == 0;
  }

  /** Whitespace anywhere in the input leaves the verdict unchanged. */
  lemma ValidatorIgnoresWhitespace(a: string, w: string, b: string, lib: Library)
    requires forall k :: 0 <= k < |w| ==> IsSpace(w[k])
    ensures IsValidBase64(a + w + b, lib) == IsValidBase64(a + b, lib)
  {
    PreludeIgnoresWhitespace(a, w, b);
  }

  /** `data:<media type>,<payload>` validates as the bare payload does. */
  lemma ValidatorDataUrl(mediaType: string, payload: string, lib: Library)
    requires ',' !in mediaType && !(DataPrefix <= StripWhitespace(payload))
    ensures IsValidBase64(DataPrefix + mediaType + "," + payload, lib) == IsValidBase64(payload, lib)
  {
    PreludeDataUrl(mediaType, payload);
  }

  // ---------------------------------------------------------------------------
  // Decoding
  // ---------------------------------------------------------------------------

  /**
   * Why decoding failed: the base64 step raised, the library could not open or load the
   * bytes, or a mode conversion, split or paste raised on an image that did load.
   */
  datatype DecodeFailure = Base64Error(cause: DecodeError) | NotAnImage | ConversionFailed

  /** The steps after base64 decoding: open and load the bytes, then normalise the mode. */
  function LoadImage(bytes: seq<Byte>, lib: Library): (r: Result<Image, DecodeFailure>)
    ensures r.Success? ==> IsFinalMode(r.value.mode)
    ensures lib.load(bytes).None? ==> r == Failure(NotAnImage)
    ensures lib.load(bytes).Some? ==>
      (r.Failure? <==> NormaliseMode(lib.load(bytes).value, lib).None?)
    ensures r.Failure? && lib.load(bytes).Some? ==> r.error == ConversionFailed
    ensures r.Success? ==> lib.load(bytes).Some? && Some(r.value) == NormaliseMode(lib.load(bytes).value, lib)
  {
    match lib.load(bytes)
    case None => Failure(NotAnImage)
    case Some(img) =>
      match NormaliseMode(img, lib)
      case None => Failure(ConversionFailed)
      case Some(out) => Success(out)
  }

  /**
   * `decode_base64_to_image` as written: the prelude, then lenient decoding of the
   * unpadded text, then the library.
   */
  function DecodeBase64ToImage(s: string, lib: Library): (r: Result<Image, DecodeFailure>)
    ensures r.Success? ==> IsFinalMode(r.value.mode)
    ensures DecodeLenient(Prelude(s)).Failure? ==> r == Failure(Base64Error(DecodeLenient(Prelude(s)).error))
  {
    match DecodeLenient(Prelude(s))
    case Failure(e) => Failure(Base64Error(e))
    case Success(bytes) => LoadImage(bytes, lib)
  }

  /** Base64 text without its closing '=': what a user pastes after losing the padding. */
  function Unpadded(d: seq<Byte>): (r: string)
    ensures forall k :: 0 <= k < |r| ==> IsAlphabetChar(r[k])
    ensures |d| % 3 != 0 ==> |r| % 4 != 0
  {
    var e := Encode(d);
    PadCountFits(|d|);
    e[..|e| - PadCount(|d|)]
  }

  /** The unpadded text holds only alphabet characters, so the prelude leaves it alone. */
  lemma UnpaddedIsClean(d: seq<Byte>)
    ensures Prelude(Unpadded(d)) == Unpadded(d)
  {
    CleanText(Unpadded(d));
  }

  /** The unpadded text is left alone by the prelude, and padding restores the encoder's text. */
  lemma PaddingRestoresEncoding(d: seq<Byte>)
    ensures Prelude(Unpadded(d)) == Unpadded(d)
    ensures PadToQuad(Unpadded(d)) == Encode(d)
  {
    UnpaddedIsClean(d);
    var e, u := Encode(d), Unpadded(d);
    PadCountFits(|d|);
    assert |u| == |e| - PadCount(|d|);
    assert e[..|u|] == u;
    assert |e| % 4 == 0 && |u| <= |e| < |u| + 4;
    assert forall k :: |u| <= k < |e| ==> e[k] == '=';
    PadToQuadUnique(u, e);
  }

  /**
   * The validator pads and the decoder does not: whenever the byte count is not a
   * multiple of three, the unpadded text is judged exactly as the padded text
   * would be, yet decoding it fails in the base64 step.
   */
  lemma UnpaddedValidatesButFailsToDecode(d: seq<Byte>, lib: Library)
    requires |d| % 3 != 0
    ensures IsValidBase64(Unpadded(d), lib) == Sniff(d, lib.opensAndVerifies)
    ensures DecodeBase64ToImage(Unpadded(d), lib).Failure?
    ensures DecodeBase64ToImage(Unpadded(d), lib).error.Base64Error?
  {
    var u := Unpadded(d);
    PaddingRestoresEncoding(d);
    DecodeEncode(d);
    LenientNeedsWholeQuads(u);
  }

  /** The padding step the validator uses, added before lenient decoding. */
  function DecodeBase64ToImagePadded(s: string, lib: Library): (r: Result<Image, DecodeFailure>)
    ensures r.Success? ==> IsFinalMode(r.value.mode)
    ensures DecodeLenient(ValidatorPayload(s)).Failure? ==> r == Failure(Base64Error(DecodeLenient(ValidatorPayload(s)).error))
  {
    match DecodeLenient(ValidatorPayload(s))
    case Failure(e) => Failure(Base64Error(e))
    case Success(bytes) => LoadImage(bytes, lib)
  }

  /**
   * With the padding step, whatever the validator accepts reaches the library with the
   * very bytes the validator inspected, so decoding can then fail only in the library.
   */
  lemma ValidatedInputReachesLibrary(s: string, lib: Library)
    requires IsValidBase64(s, lib)
    ensures DecodeLenient(ValidatorPayload(s)) == DecodeStrict(ValidatorPayload(s))
    ensures DecodeBase64ToImagePadded(s, lib) == LoadImage(DecodeStrict(ValidatorPayload(s)).value, lib)
  {
    LenientAgreesWithStrict(ValidatorPayload(s));
  }

  /**
   * Both decoders read the encoder's output back to the PNG bytes the encoder wrote: the
   * encoder's text is already padded, so the missing padding step makes no difference.
   */
  lemma DecodeEncodedImage(img: Image, lib: Library)
    requires lib.savePng(img).Some?
    ensures DecodeBase64ToImage(EncodeImageToBase64(img, lib).value, lib) == LoadImage(lib.savePng(img).value, lib)
    ensures DecodeBase64ToImagePadded(EncodeImageToBase64(img, lib).value, lib) == LoadImage(lib.savePng(img).value, lib)
  {
    var d := lib.savePng(img).value;
    NormalisedEncoding(d);
    DecodeEncode(d);
    LenientAgreesWithStrict(Encode(d));
  }

  /**
   * Round trip of an RGB or greyscale image, for a library that reads back the PNG it
   * wrote: decoding the encoder's output gives the same image.
   */
  lemma ImageRoundTrip(img: Image, lib: Library)
    requires IsFinalMode(img.mode) && lib.savePng(img).Some? && lib.load(lib.savePng(img).value) == Some(img)
    ensures DecodeBase64ToImage(EncodeImageToBase64(img, lib).value, lib) == Success(img)
    ensures DecodeBase64ToImagePadded(EncodeImageToBase64(img, lib).value, lib) == Success(img)
  {
    DecodeEncodedImage(img, lib);
  }

  /** Whitespace anywhere in the input leaves the decoded result unchanged, with or without padding. */
  lemma DecoderIgnoresWhitespace(a: string, w: string, b: string, lib: Library)
    requires forall k :: 0 <= k < |w| ==> IsSpace(w[k])
    ensures DecodeBase64ToImage(a + w + b, lib) == DecodeBase64ToImage(a + b, lib)
    ensures DecodeBase64ToImagePadded(a + w + b, lib) == DecodeBase64ToImagePadded(a + b, lib)
  {
    PreludeIgnoresWhitespace(a, w, b);
  }

  /** `data:<media type>,<payload>` decodes as the bare payload does, with or without padding. */
  lemma DecoderDataUrl(mediaType: string, payload: string, lib: Library)
    requires ',' !in mediaType && !(DataPrefix <= StripWhitespace(payload))
    ensures DecodeBase64ToImage(DataPrefix + mediaType + "," + payload, lib) == DecodeBase64ToImage(payload, lib)
    ensures DecodeBase64ToImagePadded(DataPrefix + mediaType + "," + payload, lib) == DecodeBase64ToImagePadded(payload, lib)
  {
    PreludeDataUrl(mediaType, payload);
  }

  // ---------------------------------------------------------------------------
  // Download link
  // ---------------------------------------------------------------------------

  const LinkHead: string := "<a href=\""
  const LinkMediaType: string := "application/octet-stream;base64"
  /** "data:application/octet-stream;base64," */
  const LinkDataPrefix: string := DataPrefix + LinkMediaType + ","

  /** The value of the `href` attribute of a link that starts `<a href="`: the text up to the next '"'. */
  function HrefValue(html: string): (r: Option<string>)
    ensures r.Some? ==> '"' !in r.value && LinkHead + r.value + "\"" <= html
  {
    if LinkHead <= html && '"' in html[|LinkHead|..] then
      var rest := html[|LinkHead|..];
      var k := FirstIndex(rest, '"');
      assert html == LinkHead + rest;
      assert rest[..k] + "\"" == rest[..k + 1];
      Some(rest[..k])
    else None
  }

  /** An attribute value without '"' is read back whole, whatever follows its closing quote. */
  lemma HrefValueOf(v: string, tail: string)
    requires '"' !in v
    ensures HrefValue(LinkHead + v + "\"" + tail) == Some(v)
  {
    var html := LinkHead + v + "\"" + tail;
    var rest := html[|LinkHead|..];
    assert rest == v + "\"" + tail;
    assert rest[|v|] == '"';
    assert rest[..|v|] == v;
  }

  /** Base64 text holds no whitespace, comma, colon or '"'. */
  lemma EncodingIsPlain(d: seq<Byte>)
    ensures forall k :: 0 <= k < |Encode(d)| ==>
      var c := Encode(d)[k]; !IsSpace(c) && c != ',' && c != ':' && c != '"'
  {
    var e := Encode(d);
    forall k | 0 <= k < |e| ensures !IsSpace(e[k]) && e[k] != ',' && e[k] != ':' && e[k] != '"' {
      if k >= |e| - PadCount(|d|) { assert e[k] == '='; }
      PlainChar(e[k]);
    }
  }

  /** Base64 text holds no '"', so it cannot end the attribute early. */
  lemma NoQuoteInDataUrl(data: seq<Byte>)
    ensures '"' !in LinkDataPrefix + Encode(data)
  {
    EncodingIsPlain(data);
  }

  /** `create_download_link`: an anchor whose href is an octet-stream data URL of the data. */
  function CreateDownloadLink(data: seq<Byte>, filename: string, linkText: string): (r: string)
    ensures HrefValue(r) == Some(LinkDataPrefix + Encode(data))
  {
    var v := LinkDataPrefix + Encode(data);
    var tail := " download=\"" + filename + "\">" + linkText + "</a>";
    NoQuoteInDataUrl(data);
    HrefValueOf(v, tail);
    LinkHead + v + "\"" + tail
  }

  /** The link's data URL, fed back through the decoder's own steps, yields the data again. */
  lemma DownloadLinkRoundTrip(data: seq<Byte>, filename: string, linkText: string)
    ensures DecodeLenient(Prelude(HrefValue(CreateDownloadLink(data, filename, linkText)).value)) == Success(data)
  {
    var e := Encode(data);
    EncodingIsPlain(data);
    NormalisedEncoding(data);
    StripWhitespaceFixpoint(e);
    assert ',' !in LinkMediaType;
    assert DataPrefix[4] == ':';
    PreludeDataUrl(LinkMediaType, e);
    DecodeEncode(data);
    LenientAgreesWithStrict(e);
  }
}
