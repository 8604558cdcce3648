# Image base64 encoder/decoder — a Dafny model

`app.py` is a small Streamlit application that turns images into base64 text and
base64 text back into images. Around the user interface sit four functions:

- `encode_image_to_base64` serialises an image as PNG and base64-encodes it.
- `is_valid_base64` cleans a pasted string and checks it. The cleaning strips all
  whitespace, drops a `data:...,` header and pads the text to a multiple of four with `=`.
  The string then has to decode strictly to more than ten bytes. Those bytes have to carry
  a PNG, JPEG, GIF, BMP or WebP signature, or else pass the image library's open-and-verify check.
- `decode_base64_to_image` cleans the string the same way but without the padding. It
  decodes the text leniently, loads the bytes with the image library and normalises the mode:
  alpha and palette images are flattened onto white RGB, and any other mode except RGB and L
  is converted to RGB.
- `create_download_link` wraps base64 text in an `<a href="data:application/octet-stream;base64,...">` anchor.

The model is written in pure functions and lemmas, split into modules that follow the program:

- `Base64` covers the RFC 4648 alphabet, the encoder and two decoders:
  - strict decoding, as Python's `b64decode(..., validate=True)` does it;
  - lenient decoding, as CPython's `binascii.a2b_base64` does it by default.
- `Normalise` covers the cleaning steps: whitespace removal, the data-URL header and padding.
- `Signatures` covers the magic-number sniffing in `is_valid_base64`.
- `Pixels` covers the image values and the mode normalisation.
- `App` covers the four functions and the properties that connect them.
- `Scenarios` proves facts about one concrete eleven-byte PNG prefix.
- `Vectors` proves the encoder and the strict decoder on test vectors of section 10 of RFC 4648.
- `Wrappers` holds `Option` and `Result`.

The image library (Pillow) is not modelled. It is a parameter, `Pixels.Library`, a record of
functions (open-and-verify, load, convert, last band, paste onto white, save as PNG). Each
call except open-and-verify returns an `Option`, where `None` means the call raises. Every
property is therefore proved for any library, including libraries whose conversions, splits,
pastes or saves raise.

Python's `b64decode(validate=True)` checks characters with a regular expression in
Python 3.10 and with binascii's strict mode from Python 3.11. The two differ only on input
whose length is not a multiple of four. The validator always pads first, so they agree on
everything the validator decodes. `Base64.DecodeStrict` follows the 3.11 rules.

## Model

| member | source | states |
|---|---|---|
| Base64.CharOf | app.py:11 | each sextet maps to a character of the base64 alphabet |
| Base64.IndexOf | app.py:29 | the decoder's character table inverts the encoder's: `CharOf(IndexOf(c)) == c` for every alphabet character |
| Base64.IndexOfCharOf | app.py:29 | the other direction: `IndexOf(CharOf(i)) == i` for every sextet |
| Base64.PadCountFits | app.py:11 | the '=' count of an n-byte encoding is below 3 and fits in it, and the text without it has a length that is a multiple of 4 exactly when n is a multiple of 3 |
| Base64.SextetsValue | app.py:11 | the four sextets the encoder cuts from three bytes carry the same 24-bit value as the bytes, most significant first |
| Base64.Chars | app.py:11 | the first `n` characters of a 3-byte group are all alphabet characters, exactly `n` of them |
| Base64.Encode | app.py:11 | `b64encode` output has length 4·⌈n/3⌉ (a multiple of 4), alphabet characters first, then exactly (3 − n mod 3) mod 3 trailing '=' |
| Base64.DecodeQuad | app.py:29 | four alphabet characters decode to exactly three bytes |
| Base64.QuadBytesValue | app.py:29 | the three bytes the strict decoder rebuilds from four sextets carry the same 24-bit value as the sextets |
| Base64.DecodeLastQuad | app.py:29 | a final quad decodes if and only if it is well formed, to 3 bytes minus its '=' count |
| Base64.DecodeStrict | app.py:29 | strict decoding succeeds if and only if the text is well formed (length a multiple of 4, alphabet characters, at most two '=' only at the end); the result has 3·(len/4) − pads bytes |
| Base64.WellFormedChars | app.py:29 | every character of well-formed text is an alphabet character or '=' |
| Base64.QuadBytesSextets | app.py:29 | regrouping the four sextets of three bytes gives the three bytes back |
| Base64.IndexOfChars | app.py:29 | decoding an encoded character gives back the sextet it was made from |
| Base64.DecodeEncodeOne | app.py:29 | a one-byte input round-trips through "xy==" |
| Base64.DecodeEncodeTwo | app.py:29 | a two-byte input round-trips through "xyz=" |
| Base64.DecodeEncodeThree | app.py:29 | a full 3-byte group round-trips through its quad |
| Base64.LastQuadOne | app.py:29 | a final quad "xy==" made from one byte decodes to that byte |
| Base64.LastQuadTwo | app.py:29 | a final quad "xyz=" made from two bytes decodes to those bytes |
| Base64.EncodeTwo | app.py:11 | two bytes encode to their three-character group and one '=' |
| Base64.DecodeStrictLast | app.py:29 | text of exactly one quad decodes as that final quad does |
| Base64.DecodeStrictQuadThen | app.py:29 | an alphabet quad in front of text that decodes strictly gives the quad's three bytes followed by that text's bytes |
| Base64.DecodeEncodeStep | app.py:29 | the round trip extends from the tail of the input to the whole input |
| Base64.DecodeEncode | app.py:11 | round trip: strict decoding of `b64encode(d)` is `d`, for every byte string |
| Base64.DecodeLenient | app.py:70 | non-ASCII text fails before any decoding, as `b64decode` rejects it on conversion to ASCII |
| Base64.Scan | app.py:70 | the lenient scanner fails only with a padding error or a dangling character, never on a foreign character |
| Base64.ScanSkipsForeign | app.py:70 | the scanner skips a character outside the alphabet and '=' wherever it stands, from any state |
| Base64.LenientSkipsForeign | app.py:70 | lenient decoding gives the same result with or without an ASCII character outside the alphabet and '=' |
| Base64.ScanQuadSteps | app.py:70 | scanning an alphabet quad puts its three bytes in front of the scan of the rest |
| Base64.ScanQuad | app.py:70 | the lenient scanner consumes an alphabet quad as three bytes and restarts on the rest |
| Base64.ScanLastQuad | app.py:70 | on a well-formed final quad the lenient scanner agrees with strict decoding |
| Base64.LenientAgreesWithStrict | app.py:70 | on well-formed text the default (lenient) `b64decode` returns exactly what the strict one returns |
| Base64.ScanDataOnly | app.py:70 | over alphabet-only text the lenient scanner succeeds if and only if it ends on a quad boundary |
| Base64.LenientNeedsWholeQuads | app.py:70 | unpadded alphabet-only text decodes leniently if and only if its length is a multiple of 4, and fails otherwise |
| Normalise.IsSpace | app.py:18 | `\s` matches only characters outside printable ASCII, so no base64 character counts as whitespace |
| Normalise.StripWhitespace | app.py:18 | `re.sub(r'\s+', '', s)` leaves no whitespace, never lengthens, and invents no characters |
| Normalise.StripWhitespaceAppend | app.py:18 | whitespace removal distributes over concatenation |
| Normalise.StripWhitespaceFixpoint | app.py:18 | the text is unchanged if and only if it holds no whitespace |
| Normalise.StripWhitespaceIgnoresInserted | app.py:18 | inserting whitespace anywhere does not change the result |
| Normalise.AllSpaceStripsToEmpty | app.py:18 | a string of whitespace vanishes entirely |
| Normalise.FirstIndex | app.py:21 | finds the first occurrence of a character: it is there and not before |
| Normalise.StripDataUrl | app.py:20-21 | when the text has a comma and starts with "data:", the result is everything after the first comma; otherwise the text is unchanged |
| Normalise.StripDataUrlHeader | app.py:20-21 | a `data:<type>,` header with a comma-free type is removed exactly, leaving the payload |
| Normalise.Prelude | app.py:17-21 | the shared cleaning of both entry points leaves no whitespace |
| Normalise.PreludeIgnoresWhitespace | app.py:17-21 | whitespace inserted anywhere does not change the cleaned text |
| Normalise.StripWhitespaceHeader | app.py:18 | whitespace removal keeps the "data:" prefix and the comma of a header in place |
| Normalise.PreludeDataUrl | app.py:17-21 | a data-URL header with a comma-free media type does not change the cleaned text, unless the payload itself starts with another "data:" header |
| Normalise.PadToQuad | app.py:24-26 | the padded text keeps the input as a prefix, appends fewer than four '=' and reaches a multiple of 4 |
| Normalise.PadToQuadUnique | app.py:24-26 | any extension of the text by '=' to a multiple of 4 with fewer than four '=' is the padded text |
| Signatures.Find | app.py:47 | `b'WEBP' in ...`: the index found is the first occurrence at or after `from`; None means no occurrence at or after `from` (none at all when `from` is 0) |
| Signatures.Matches | app.py:35-47 | a matching payload has at least the two bytes of the shortest signature |
| Signatures.MatchesFirstTwelve | app.py:35-47 | every signature test depends only on the first twelve bytes |
| Signatures.WebpMatchesOccurrence | app.py:47 | the WebP test holds if and only if "WEBP" occurs within the first twelve bytes |
| Signatures.FirstMatch | app.py:33-48 | the index returned is the first signature in the list whose test holds |
| Signatures.Identify | app.py:33-48 | reports a signature that matches; reports none if and only if no signature matches |
| Signatures.OrderComplete | app.py:33-48 | every signature is tried |
| Signatures.Sniff | app.py:33-57 | ten bytes or fewer are rejected; longer input with a signature is accepted; otherwise the library's open-and-verify decides |
| Signatures.SignatureDecidesAlone | app.py:33-48 | with a signature present, the library's answer is irrelevant |
| Signatures.BmpBeforeWebp | app.py:44-47 | the elif order: a BMP header wins over a later "WEBP" tag |
| Pixels.WithAlpha | app.py:88-89 | an RGBA or LA image passes unchanged; a palette image becomes RGBA with the converted pixels and the same size, or fails exactly when the conversion raises |
| Pixels.Flatten | app.py:90 | pasting onto white through the last band fails exactly when the split or the paste raises, and otherwise gives the pasted pixels |
| Pixels.NormaliseMode | app.py:84-93 | a result is RGB or L with the same size; RGB and L pass unchanged; RGBA, LA and P are pasted onto white through their last band, failing exactly when the conversion, the split or the paste raises; other modes are converted to RGB, failing exactly when that conversion raises |
| Pixels.NormaliseModeIdempotent | app.py:84-93 | normalising a normalised image again gives the same image |
| App.EncodeImageToBase64 | app.py:7-12 | fails exactly when PNG saving raises; otherwise the text decodes strictly to the PNG bytes and has length 4·⌈n/3⌉ |
| App.PlainChar | app.py:18-21 | a base64 character or '=' is not whitespace, a comma, a colon or a quote |
| App.CleanText | app.py:17-21 | text made only of base64 characters and '=' is left unchanged by the cleaning |
| App.EncodingIsPlain | app.py:102 | encoder output holds no whitespace, comma, colon or quote |
| App.NormalisedEncoding | app.py:14-26 | encoder output is left alone by cleaning and padding |
| App.ValidatorPayload | app.py:17-26 | the validator's payload is the cleaned text extended to a multiple of 4 |
| App.IsValidBase64 | app.py:14-59 | malformed payloads are rejected; an accepted payload decodes to more than ten bytes |
| App.ForeignCharacterRejected | app.py:29 | a character outside the alphabet and '=' anywhere in the cleaned text makes validation fail |
| App.ShortPayloadRejected | app.py:33-57 | ten decoded bytes or fewer make validation fail |
| App.ValidatesEncoding | app.py:14-59 | validating encoder output is exactly signature sniffing of the original bytes |
| App.EncodedPngValidates | app.py:33-36 | for any library whose PNG saving succeeds with more than ten bytes starting with the PNG signature, the app's own output (app.py:7-12) exists and validates |
| App.ValidatorIgnoresWhitespace | app.py:18 | validation ignores inserted whitespace |
| App.ValidatorDataUrl | app.py:20-21 | validation ignores a data-URL header with a comma-free media type, unless the payload itself starts with another "data:" header |
| App.LoadImage | app.py:79-93 | bytes the library cannot load fail as not an image; a loaded image fails (as a conversion failure) exactly when normalisation raises, and otherwise yields the normalised image, in RGB or L |
| App.DecodeBase64ToImage | app.py:61-98 | as written: a base64 failure of the unpadded cleaned text is reported as such; success ends in RGB or L |
| App.Unpadded | app.py:24-26 | base64 text without its '=' consists of alphabet characters and, when padding was due, is not a multiple of 4 long |
| App.UnpaddedIsClean | app.py:17-21 | the cleaning leaves unpadded base64 text unchanged |
| App.PaddingRestoresEncoding | app.py:24-26 | cleaning leaves unpadded text alone, and the validator's padding restores the encoder's text |
| App.UnpaddedValidatesButFailsToDecode | app.py:24-70 | unpadded text validates exactly as the padded text would, yet the decoder fails on it with a base64 error |
| App.DecodeBase64ToImagePadded | app.py:61-98 | corrected decoder (pads like the validator): base64 failures are reported; success ends in RGB or L |
| App.ValidatedInputReachesLibrary | app.py:14-70 | for every string the validator accepts, the corrected decoder decodes the same bytes and hands them to the library |
| App.DecodeEncodedImage | app.py:7-98 | both the decoder as written and the padding decoder turn the app's own encoding back into what loading the encoder's PNG bytes gives |
| App.ImageRoundTrip | app.py:7-98 | an RGB or L image whose PNG the library loads back comes back unchanged, through the decoder as written and through the padding decoder |
| App.DecoderIgnoresWhitespace | app.py:65 | both decoders ignore inserted whitespace |
| App.DecoderDataUrl | app.py:67-68 | both decoders ignore a data-URL header with a comma-free media type, unless the payload itself starts with another "data:" header |
| App.HrefValue | app.py:103 | the attribute value read back contains no '"' and sits between `<a href="` and a '"' |
| App.HrefValueOf | app.py:103 | a quote-free value is read back whole |
| App.NoQuoteInDataUrl | app.py:102-103 | the data URL contains no '"' |
| App.CreateDownloadLink | app.py:100-104 | the anchor's href is `data:application/octet-stream;base64,` followed by the base64 of the data |
| App.DownloadLinkRoundTrip | app.py:100-104 | the link's href, passed through the decoder's cleaning and decoding (app.py:65-70), gives back the data |
| Scenarios.TinyPngAcceptedThenRejected | app.py:24-70 | the PNG signature plus three zero bytes, encoded without its '=' ("iVBORw0KGgoAAAA"), is accepted by the validator and rejected by the decoder |
| Vectors.GroupChars | app.py:11 | a group whose sextets map to the given characters encodes to exactly them |
| Vectors.EncodeGroup | app.py:11 | more than three bytes encode as a full first group followed by the encoding of the rest |
| Vectors.FooGroup | app.py:11 | the group "foo" encodes to "Zm9v" |
| Vectors.BarGroup | app.py:11 | the group "bar" encodes to "YmFy" |
| Vectors.EncodeBar | app.py:11 | BASE64("bar") = "YmFy" |
| Vectors.Foobar | app.py:11 | BASE64("foobar") = "Zm9vYmFy", as in section 10 of RFC 4648 |
| Vectors.FoobarDecodes | app.py:29 | "Zm9vYmFy" decodes strictly to "foobar" |
| Vectors.FoGroup | app.py:11 | the first three characters of the group "fo" are "Zm8" |
| Vectors.Fo | app.py:11 | BASE64("fo") = "Zm8=", as in section 10 of RFC 4648 |
| Vectors.FoDecodes | app.py:29 | "Zm8=" decodes strictly to "fo" |

## Left out

- The Streamlit user interface (app.py:106-212): page layout, uploads, text areas, buttons, image display and downloads are I/O.
- `st.error` in `decode_base64_to_image` (app.py:97): the message is not modelled; the failure is returned as a `DecodeFailure` value where the source returns `None`.
- `io.BytesIO` buffers (app.py:9, 52, 73) are identity wrappers around byte strings and are not modelled.
- Pillow itself: opening, verifying, loading, converting, splitting bands, pasting and PNG saving are uninterpreted functions of `Pixels.Library`, so pixel semantics are not modelled.
- `ImageFile.LOAD_TRUNCATED_IMAGES = True` (app.py:76-77) sets a process-wide library setting that stays on after the first decode, so later `Image.open`/`verify` calls of the validator (app.py:52-53) also run with it. The model does not track this state; `Library.load` and `Library.opensAndVerifies` are fixed functions, so a library whose behaviour changes after the first decode is not modelled.
- Base64.Sextets, Base64.QuadBytes: these functions carry no contract of their own. The 24-bit value they preserve is stated by the lemmas `SextetsValue` and `QuadBytesValue`, because as an `ensures` the arithmetic would enter every proof that unfolds an encoding and make those proofs too slow.
- Pixels.Mode: Pillow modes other than RGB, L, RGBA, LA and P are collapsed into one `Other` value, because the source treats them all alike.
- App.CreateDownloadLink: the contract speaks only of the href value; the `download` file name and the link text are copied verbatim without escaping and nothing is proved about them.
- Base64.DecodeLenient: modelled on CPython's `binascii.a2b_base64` in non-strict mode; other Python implementations are not modelled.
- Base64.DecodeLenient: its contract states only the non-ASCII failure. Its other behaviour is stated by separate lemmas: `LenientAgreesWithStrict` for well-formed text, `LenientNeedsWholeQuads` for alphabet-only text and `LenientSkipsForeign` for foreign characters. Text with '=' in the middle is described only by `Scan`'s definition.
- App.EncodeImageToBase64: when PNG saving raises, the exception leaves `encode_image_to_base64` uncaught; the model returns `None` instead.
- Scenarios.TinyPngAcceptedThenRejected: the concrete text is stated as `Unpadded(TinyPng)`; the literal "iVBORw0KGgoAAAA" for it is not proved, because the solver cannot evaluate the encoding of the zero-byte group. The literal test vectors are in `Vectors`.
- `str.isspace` is modelled by code point as `Normalise.IsSpace`; Python's `\s` in a `str` pattern matches the same Unicode whitespace set.

## Findings

| source | as written | input that shows it | evidently intended | confidence | as-written member | corrected member |
|---|---|---|---|---|---|---|
| app.py:24-26, 65-70 | `is_valid_base64` pads the cleaned text to a multiple of 4 before decoding, but `decode_base64_to_image` decodes the cleaned text without padding, so the validator accepts text the decoder then rejects with "Incorrect padding" | "iVBORw0KGgoAAAA", the 11-byte PNG signature-plus-zeros `TinyPng` without its final '=' | the decoder pads as the validator does, so every string the validator accepts reaches the image library | not executed | App.UnpaddedValidatesButFailsToDecode | App.ValidatedInputReachesLibrary |
