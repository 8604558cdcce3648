/**
 * The magic-byte test of `is_valid_base64` (app.py:33-57): a payload of more
 * than ten bytes is an image when it starts with one of the known signatures,
 * tried in a fixed order, or holds "WEBP" in its first twelve bytes; failing
 * all of them, the image library is asked to open and verify it.
 */
module Signatures {
  import opened Wrappers
  import opened Base64

  datatype Signature = Png | Jpeg | Gif87a | Gif89a | Bmp | Webp

  /** The PNG file signature of section 5.2 of the W3C PNG Specification (Second Edition). */
  const PngMagic: seq<Byte> := [0x89, 0x50, 0x4E, 0x47, 0x0D, 0x0A, 0x1A, 0x0A]
  /** FF D8 FF: a JPEG start-of-image marker followed by the next marker's prefix. */
  const JpegMagic: seq<Byte> := [0xFF, 0xD8, 0xFF]
  /** "GIF87a" and "GIF89a" in ASCII. */
  const Gif87aMagic: seq<Byte> := [0x47, 0x49, 0x46, 0x38, 0x37, 0x61]
  const Gif89aMagic: seq<Byte> := [0x47, 0x49, 0x46, 0x38, 0x39, 0x61]
  /** "BM" in ASCII. */
  const BmpMagic: seq<Byte> := [0x42, 0x4D]
  /** "WEBP" in ASCII. */
  const WebpTag: seq<Byte> := [0x57, 0x45, 0x42, 0x50]

  /** The order in which the elif chain tries the signatures. */
  const Order: seq<Signature> := [Png, Jpeg, Gif87a, Gif89a, Bmp, Webp]

  /** `pat` occurs in `w` at position `i`. */
  predicate OccursAt(pat: seq<Byte>, w: seq<Byte>, i: int) {
    0 <= i <= |w| - |pat| && w[i..i + |pat|] == pat
  }

  /** `pat in w` on bytes objects: `pat` occurs as a contiguous run in `w`. */
  ghost predicate OccursIn(pat: seq<Byte>, w: seq<Byte>) {
    exists i :: OccursAt(pat, w, i)
  }

  /** Searches `w` for `pat` from position `from` on, returning the first occurrence. */
  function Find(pat: seq<Byte>, w: seq<Byte>, from: nat): (r: Option<nat>)
    ensures r.Some? ==> from <= r.value && OccursAt(pat, w, r.value)
    ensures r.Some? ==> forall i :: from <= i < r.value ==> !OccursAt(pat, w, i)
    ensures r.None? ==> forall i :: from <= i ==> !OccursAt(pat, w, i)
    decreases |w| - from
  {
    if from + |pat| > |w| then None
    else if w[from..from + |pat|] == pat then Some(from)
    else Find(pat, w, from + 1)
  }

  /** `decoded.startswith(...)`, or `b'WEBP' in decoded[:12]` for WebP. */
  predicate Matches(d: seq<Byte>, sig: Signature): (r: bool)
    ensures r ==> |d| >= |BmpMagic|
  {
    match sig
    case Png => PngMagic <= d
    case Jpeg => JpegMagic <= d
    case Gif87a => Gif87aMagic <= d
    case Gif89a => Gif89aMagic <= d
    case Bmp => BmpMagic <= d
    case Webp => Find(WebpTag, d[..if |d| < 12 then |d| else 12], 0).Some?
  }

  lemma WebpMatchesOccurrence(d: seq<Byte>)
    ensures Matches(d, Webp) <==> OccursIn(WebpTag, d[..if |d| < 12 then |d| else 12])
  {
    var w := d[..if |d| < 12 then |d| else 12];
    var r := Find(WebpTag, w, 0);
    if r.None? {
      assert forall i :: !OccursAt(WebpTag, w, i) by {
        forall i ensures !OccursAt(WebpTag, w, i) {
          if i >= 0 { assert 0 <= i; }
        }
      }
    }
  }

  /** Sniffing reads only the first twelve bytes: whatever follows them cannot change a match. */
  lemma MatchesFirstTwelve(d: seq<Byte>, sig: Signature)
    ensures Matches(d, sig) <==> Matches(d[..if |d| < 12 then |d| else 12], sig)
  {
    var h := d[..if |d| < 12 then |d| else 12];
    match sig
    case Png => assert PngMagic <= d <==> PngMagic <= h by { if PngMagic <= d { assert h[..8] == d[..8]; } }
    case Jpeg => assert JpegMagic <= d <==> JpegMagic <= h by { if JpegMagic <= d { assert h[..3] == d[..3]; } }
    case Gif87a => assert Gif87aMagic <= d <==> Gif87aMagic <= h by { if Gif87aMagic <= d { assert h[..6] == d[..6]; } }
    case Gif89a => assert Gif89aMagic <= d <==> Gif89aMagic <= h by { if Gif89aMagic <= d { assert h[..6] == d[..6]; } }
    case Bmp => assert BmpMagic <= d <==> BmpMagic <= h by { if BmpMagic <= d { assert h[..2] == d[..2]; } }
    case Webp => assert h[..|h|] == h;
  }

  /** The position in `order` of the first signature `d` matches, or `|order|` when none does. */
  function FirstMatch(d: seq<Byte>, order: seq<Signature>): (k: nat)
    ensures k <= |order|
    ensures forall j :: 0 <= j < k ==> !Matches(d, order[j])
    ensures k < |order| ==> Matches(d, order[k])
  {
    if order == [] then 0
    else if Matches(d, order[0]) then 0
    else 1 + FirstMatch(d, order[1..])
  }

  /** The branch of the elif chain that accepts `d`, if any does. */
  function Identify(d: seq<Byte>): (r: Option<Signature>)
    ensures r.Some? ==> Matches(d, r.value)
    ensures r.None? <==> forall sig :: !Matches(d, sig)
  {
    var k := FirstMatch(d, Order);
    if k < |Order| then Some(Order[k])
    else
      assert forall sig :: !Matches(d, sig) by {
        forall sig ensures !Matches(d, sig) {
          OrderComplete(sig);
        }
      }
      None
  }

  /** Every signature has its place in the chain. */
  lemma OrderComplete(sig: Signature)
    ensures sig in Order
  {
    match sig
    case Png => assert Order[0] == sig;
    case Jpeg => assert Order[1] == sig;
    case Gif87a => assert Order[2] == sig;
    case Gif89a => assert Order[3] == sig;
    case Bmp => assert Order[4] == sig;
    case Webp => assert Order[5] == sig;
  }

  /**
   * The verdict on decoded bytes: too short is false whatever the content; a
   * signature decides true; otherwise the verdict of `opensAndVerifies`, the
   * library's `Image.open(...).verify()` (app.py:52-56), which is left uninterpreted.
   */
  function Sniff(d: seq<Byte>, opensAndVerifies: seq<Byte> -> bool): (r: bool)
    ensures |d| <= 10 ==> !r
    ensures |d| > 10 && Identify(d).Some? ==> r
    ensures |d| > 10 && Identify(d).None? ==> r == opensAndVerifies(d)
  {
    if |d| > 10 then
      if Identify(d).Some? then true else opensAndVerifies(d)
    else false
  }

  /** A signature settles the verdict before the library is consulted: any two libraries agree. */
  lemma SignatureDecidesAlone(d: seq<Byte>, lib1: seq<Byte> -> bool, lib2: seq<Byte> -> bool)
    requires |d| > 10 && Identify(d).Some?
    ensures Sniff(d, lib1) && Sniff(d, lib2)
  {
  }

  /** Signature precedence: a bitmap header wins over a "WEBP" tag that follows it. */
  lemma BmpBeforeWebp(d: seq<Byte>)
    requires BmpMagic <= d && Matches(d, Webp)
    ensures Identify(d) == Some(Bmp)
  {
    assert !(PngMagic <= d) by { assert d[0] == 0x42; }
    assert !(JpegMagic <= d) by { assert d[0] == 0x42; }
    assert !(Gif87aMagic <= d) by { assert d[0] == 0x42; }
    assert !(Gif89aMagic <= d) by { assert d[0] == 0x42; }
    assert Order[4] == Bmp;
    assert FirstMatch(d, Order) == 4;
  }
}
