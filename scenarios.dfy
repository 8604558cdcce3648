/** Facts about concrete inputs, proved on the model of app.py. */
module Scenarios {
  import opened Wrappers
  import opened Base64
  import opened Normalise
  import opened Signatures
  import opened Pixels
  import opened App

  /** Eleven bytes: the PNG signature followed by three zero bytes, the start of every PNG file. */
  const TinyPng: seq<Byte> := PngMagic + [0, 0, 0]

  /**
   * Its base64 text without the closing '=' passes the validator, whatever the library
   * says, and then fails to decode.
   */
  lemma TinyPngAcceptedThenRejected(lib: Library)
    ensures IsValidBase64(Unpadded(TinyPng), lib)
    ensures DecodeBase64ToImage(Unpadded(TinyPng), lib).Failure?
  {
    UnpaddedValidatesButFailsToDecode(TinyPng, lib);
    assert Order[0] == Png;
    assert FirstMatch(TinyPng, Order) == 0;
  }
}
