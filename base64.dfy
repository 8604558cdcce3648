/**
 * The base64 alphabet and padding of section 4 of RFC 4648, as the application
 * uses it through Python's `base64` module:
 *  - `Encode` is `b64encode` (app.py:11, app.py:102);
 *  - `DecodeStrict` is `b64decode(s, validate=True)` (app.py:29);
 *  - `DecodeLenient` is `b64decode(s)` without validation (app.py:70).
 * The bit arithmetic of a quad follows the way the decoder keeps the bits that are
 * left over from the previous character ("left") and emits one byte per character
 * after the first of a quad.
 */
module Base64 {
  import opened Wrappers

  type Byte = b: int | 0 <= b < 0x100
  type Sextet = i: int | 0 <= i < 64

  datatype DecodeError =
    | NonAscii           // the str argument could not be encoded as ASCII
    | NonAlphabet        // a character outside the alphabet (strict mode only)
    | BadPadding         // missing, misplaced or excess '=' padding
    | DanglingCharacter  // one data character more than a multiple of four

  /** A character of the 64-character alphabet of section 4 of RFC 4648. */
  predicate IsAlphabetChar(c: char) {
    ('A' <= c <= 'Z') || ('a' <= c <= 'z') || ('0' <= c <= '9') || c == '+' || c == '/'
  }

  predicate IsAscii(c: char) {
    c as int < 128
  }

  /** The character that encodes sextet `i`. */
  function CharOf(i: Sextet): (c: char)
    ensures IsAlphabetChar(c)
  {
    if i < 26 then ('A' as int + i) as char
    else if i < 52 then ('a' as int + (i - 26)) as char
    else if i < 62 then ('0' as int + (i - 52)) as char
    else if i == 62 then '+'
    else '/'
  }

  /** The sextet that an alphabet character encodes; `CharOf` is its inverse. */
  function IndexOf(c: char): (i: Sextet)
    requires IsAlphabetChar(c)
    ensures CharOf(i) == c
  {
    if 'A' <= c <= 'Z' then c as int - 'A' as int
    else if 'a' <= c <= 'z' then c as int - 'a' as int + 26
    else if '0' <= c <= '9' then c as int - '0' as int + 52
    else if c == '+' then 62
    else 63
  }

  lemma IndexOfCharOf(i: Sextet)
    ensures IndexOf(CharOf(i)) == i
  {
  }

  // ---------------------------------------------------------------------------
  // Encoding
  // ---------------------------------------------------------------------------

  /** Number of '=' characters that close the encoding of `n` bytes. */
  function PadCount(n: nat): nat {
    (3 - n % 3) % 3
  }

  /** The encoding of `n` bytes is long enough to hold its padding, and without the padding its length is a multiple of four exactly when no padding was due. */
  lemma PadCountFits(n: nat)
    ensures PadCount(n) < 3 && PadCount(n) <= 4 * ((n + 2) / 3)
    ensures (4 * ((n + 2) / 3) - PadCount(n)) % 4 == 0 <==> n % 3 == 0
  {
    var q, r := n / 3, n % 3;
    assert n == 3 * q + r;
    if r == 0 {
      assert (n + 2) / 3 == q;
    } else if r == 1 {
      assert (n + 2) / 3 == q + 1;
      assert 4 * (q + 1) - 2 == 4 * q + 2;
    } else {
      assert (n + 2) / 3 == q + 1;
      assert 4 * (q + 1) - 1 == 4 * q + 3;
    }
  }

  /** The 24-bit value of a group read as three bytes, most significant first. */
  function ByteValue(b0: int, b1: int, b2: int): int {
    b0 * 65536 + b1 * 256 + b2
  }

  /** The 24-bit value of a group read as four sextets, most significant first. */
  function SextetValue(i0: int, i1: int, i2: int, i3: int): int {
    i0 * 262144 + i1 * 4096 + i2 * 64 + i3
  }

  /** The four sextets of three bytes, most significant bits first. */
  function Sextets(b0: Byte, b1: Byte, b2: Byte): seq<Sextet> {
    [b0 / 4, (b0 % 4) * 16 + b1 / 16, (b1 % 16) * 4 + b2 / 64, b2 % 64]
  }

  /** The three bytes that four sextets carry; this is how a quad is decoded. */
  function QuadBytes(i0: Sextet, i1: Sextet, i2: Sextet, i3: Sextet): seq<Byte> {
    [i0 * 4 + i1 / 16, (i1 % 16) * 16 + i2 / 4, (i2 % 4) * 64 + i3]
  }

  /** The sextets carry the same 24 bits as the three bytes, cut six at a time. */
  lemma SextetsValue(b0: Byte, b1: Byte, b2: Byte)
    ensures var r := Sextets(b0, b1, b2); SextetValue(r[0], r[1], r[2], r[3]) == ByteValue(b0, b1, b2)
  {
    assert b0 == (b0 / 4) * 4 + b0 % 4;
    assert b1 == (b1 / 16) * 16 + b1 % 16;
    assert b2 == (b2 / 64) * 64 + b2 % 64;
  }

  /** The bytes carry the same 24 bits as the four sextets, cut eight at a time. */
  lemma QuadBytesValue(i0: Sextet, i1: Sextet, i2: Sextet, i3: Sextet)
    ensures var r := QuadBytes(i0, i1, i2, i3); ByteValue(r[0], r[1], r[2]) == SextetValue(i0, i1, i2, i3)
  {
    assert i1 == (i1 / 16) * 16 + i1 % 16;
    assert i2 == (i2 / 4) * 4 + i2 % 4;
  }

  /** The characters of the first `n` sextets of three bytes. */
  function Chars(b0: Byte, b1: Byte, b2: Byte, n: nat): (r: string)
    requires n <= 4
    ensures |r| == n && forall k :: 0 <= k < n ==> IsAlphabetChar(r[k])
  {
    var s := Sextets(b0, b1, b2);
    seq(n, k requires 0 <= k < n => CharOf(s[k]))
  }

  /** `b64encode`: four characters for every three bytes, the last group padded with '='. */
  function Encode(d: seq<Byte>): (r: string)
    ensures |r| == 4 * ((|d| + 2) / 3) && |r| % 4 == 0
    ensures forall k :: 0 <= k < |r| - PadCount(|d|) ==> IsAlphabetChar(r[k])
    ensures forall k :: |r| - PadCount(|d|) <= k < |r| ==> r[k] == '='
    decreases |d|
  {
    if |d| == 0 then ""
    else if |d| == 1 then Chars(d[0], 0, 0, 2) + "=="
    else if |d| == 2 then Chars(d[0], d[1], 0, 3) + "="
    else Chars(d[0], d[1], d[2], 4) + Encode(d[3..])
  }

  // ---------------------------------------------------------------------------
  // Strict decoding
  // ---------------------------------------------------------------------------

  /**
   * The strings strict decoding accepts: whole quads of alphabet characters, of which
   * the last may end in "=" or "==" (and nothing else may be '=').
   */
  predicate WellFormed(s: string) {
    && |s| % 4 == 0
    && (forall k :: 0 <= k < |s| - 2 ==> IsAlphabetChar(s[k]))
    && (|s| >= 4 ==>
          && (IsAlphabetChar(s[|s| - 2]) || s[|s| - 2] == '=')
          && (IsAlphabetChar(s[|s| - 1]) || s[|s| - 1] == '=')
          && (s[|s| - 2] == '=' ==> s[|s| - 1] == '='))
  }

  /** Every character of a well-formed string is in the alphabet or is '='. */
  lemma WellFormedChars(s: string, k: nat)
    requires WellFormed(s) && k < |s|
    ensures IsAlphabetChar(s[k]) || s[k] == '='
  {
  }

  /** Number of '=' at the end of a well-formed string. */
  function TrailingPads(s: string): nat {
    if |s| >= 1 && s[|s| - 1] == '=' then (if |s| >= 2 && s[|s| - 2] == '=' then 2 else 1) else 0
  }

  /** The bytes of one quad whose characters all lie in the alphabet. */
  function DecodeQuad(c0: char, c1: char, c2: char, c3: char): (r: seq<Byte>)
    requires IsAlphabetChar(c0) && IsAlphabetChar(c1) && IsAlphabetChar(c2) && IsAlphabetChar(c3)
    ensures |r| == 3
  {
    QuadBytes(IndexOf(c0), IndexOf(c1), IndexOf(c2), IndexOf(c3))
  }

  /** The final quad, which may carry padding; the unused low bits are ignored. */
  function DecodeLastQuad(q: string): (r: Result<seq<Byte>, DecodeError>)
    requires |q| == 4
    ensures r.Success? <==> WellFormed(q)
    ensures r.Success? ==> |r.value| == 3 - TrailingPads(q)
  {
    if !(IsAlphabetChar(q[0]) && IsAlphabetChar(q[1])) then
      Failure(if q[0] == '=' || q[1] == '=' then BadPadding else NonAlphabet)
    else if q[2] == '=' && q[3] == '=' then
      Success(QuadBytes(IndexOf(q[0]), IndexOf(q[1]), 0, 0)[..1])
    else if IsAlphabetChar(q[2]) && q[3] == '=' then
      Success(QuadBytes(IndexOf(q[0]), IndexOf(q[1]), IndexOf(q[2]), 0)[..2])
    else if IsAlphabetChar(q[2]) && IsAlphabetChar(q[3]) then
      Success(DecodeQuad(q[0], q[1], q[2], q[3]))
    else
      Failure(if q[2] == '=' || q[3] == '=' then BadPadding else NonAlphabet)
  }

  /** `b64decode(s, validate=True)`: accepts exactly the well-formed strings. */
  function DecodeStrict(s: string): (r: Result<seq<Byte>, DecodeError>)
    ensures r.Success? <==> WellFormed(s)
    ensures r.Success? ==> |r.value| == 3 * (|s| / 4) - TrailingPads(s)
    decreases |s|
  {
    if |s| == 0 then Success([])
    else if |s| % 4 != 0 then Failure(BadPadding)
    else if |s| == 4 then DecodeLastQuad(s)
    else if !(IsAlphabetChar(s[0]) && IsAlphabetChar(s[1]) && IsAlphabetChar(s[2]) && IsAlphabetChar(s[3])) then
      Failure(if '=' in s[..4] then BadPadding else NonAlphabet)
    else
      match DecodeStrict(s[4..])
      case Failure(e) => Failure(e)
      case Success(rest) => Success(DecodeQuad(s[0], s[1], s[2], s[3]) + rest)
  }

  lemma Rejoin16(hi: nat, lo: nat)
    requires lo < 16
    ensures (hi * 16 + lo) / 16 == hi && (hi * 16 + lo) % 16 == lo
  {
  }

  lemma Rejoin4(hi: nat, lo: nat)
    requires lo < 4
    ensures (hi * 4 + lo) / 4 == hi && (hi * 4 + lo) % 4 == lo
  {
  }

  /** Three bytes come back from their four sextets. */
  lemma QuadBytesSextets(b0: Byte, b1: Byte, b2: Byte)
    ensures var s := Sextets(b0, b1, b2); QuadBytes(s[0], s[1], s[2], s[3]) == [b0, b1, b2]
  {
    Rejoin16(b0 % 4, b1 / 16);
    Rejoin4(b1 % 16, b2 / 64);
  }

  /** The alphabet characters of a quad decode to the bytes whose sextets they are. */
  lemma IndexOfChars(b0: Byte, b1: Byte, b2: Byte, n: nat, k: nat)
    requires k < n <= 4
    ensures IndexOf(Chars(b0, b1, b2, n)[k]) == Sextets(b0, b1, b2)[k]
  {
    IndexOfCharOf(Sextets(b0, b1, b2)[k]);
  }

  /** The final quad "xy==" of one byte decodes to that byte. */
  lemma LastQuadOne(b0: Byte)
    ensures DecodeLastQuad(Chars(b0, 0, 0, 2) + "==") == Success([b0])
  {
    var q := Chars(b0, 0, 0, 2) + "==";
    var s := Sextets(b0, 0, 0);
    IndexOfChars(b0, 0, 0, 2, 0);
    IndexOfChars(b0, 0, 0, 2, 1);
    QuadBytesSextets(b0, 0, 0);
    assert s[2] == 0 && s[3] == 0;
    assert q[2] == '=' && q[3] == '=';
    assert QuadBytes(s[0], s[1], 0, 0)[..1] == [b0];
  }

  /** A single trailing byte: "xy==". */
  lemma DecodeEncodeOne(d: seq<Byte>)
    requires |d| == 1
    ensures DecodeStrict(Encode(d)) == Success(d)
  {
    assert Encode(d) == Chars(d[0], 0, 0, 2) + "==";
    DecodeStrictLast(Encode(d));
    LastQuadOne(d[0]);
    assert d == [d[0]];
  }

  /** The final quad "xyz=" of two bytes decodes to those bytes. */
  lemma LastQuadTwo(b0: Byte, b1: Byte)
    ensures DecodeLastQuad(Chars(b0, b1, 0, 3) + "=") == Success([b0, b1])
  {
    var q := Chars(b0, b1, 0, 3) + "=";
    var s := Sextets(b0, b1, 0);
    IndexOfChars(b0, b1, 0, 3, 0);
    IndexOfChars(b0, b1, 0, 3, 1);
    IndexOfChars(b0, b1, 0, 3, 2);
    QuadBytesSextets(b0, b1, 0);
    assert s[3] == 0;
    assert IsAlphabetChar(q[2]) && q[3] == '=';
    assert QuadBytes(s[0], s[1], s[2], 0)[..2] == [b0, b1];
  }

  /** The encoding of two bytes is their three characters and one '='. */
  lemma EncodeTwo(d: seq<Byte>)
    requires |d| == 2
    ensures Encode(d) == Chars(d[0], d[1], 0, 3) + "="
  {
  }

  /** A four-character string is decoded as a final quad. */
  lemma DecodeStrictLast(q: string)
    requires |q| == 4
    ensures DecodeStrict(q) == DecodeLastQuad(q)
  {
  }

  /** Two trailing bytes: "xyz=". */
  lemma DecodeEncodeTwo(d: seq<Byte>)
    requires |d| == 2
    ensures DecodeStrict(Encode(d)) == Success(d)
  {
    EncodeTwo(d);
    DecodeStrictLast(Encode(d));
    LastQuadTwo(d[0], d[1]);
    assert d == [d[0], d[1]];
  }

  /** A full quad of alphabet characters decodes to the three bytes it encodes. */
  lemma DecodeEncodeThree(b0: Byte, b1: Byte, b2: Byte)
    ensures var t := Chars(b0, b1, b2, 4); DecodeQuad(t[0], t[1], t[2], t[3]) == [b0, b1, b2]
  {
    IndexOfChars(b0, b1, b2, 4, 0);
    IndexOfChars(b0, b1, b2, 4, 1);
    IndexOfChars(b0, b1, b2, 4, 2);
    IndexOfChars(b0, b1, b2, 4, 3);
    QuadBytesSextets(b0, b1, b2);
  }

  /** One more quad keeps the remainder modulo 4. */
  lemma QuadShift(n: nat)
    ensures (n + 4) % 4 == n % 4
  {
  }

  /** A leading quad of alphabet characters decodes on its own, before the rest. */
  lemma DecodeStrictQuadThen(t: string, rest: string)
    requires |t| == 4 && forall k :: 0 <= k < 4 ==> IsAlphabetChar(t[k])
    requires |rest| > 0 && DecodeStrict(rest).Success?
    ensures DecodeStrict(t + rest) == Success(DecodeQuad(t[0], t[1], t[2], t[3]) + DecodeStrict(rest).value)
  {
    var e := t + rest;
    assert e[4..] == rest;
    assert |rest| % 4 == 0;
    QuadShift(|rest|);
    assert |e| == |rest| + 4;
    assert e[0] == t[0] && e[1] == t[1] && e[2] == t[2] && e[3] == t[3];
  }

  lemma SplitThree(d: seq<Byte>)
    requires |d| >= 3
    ensures d == [d[0], d[1], d[2]] + d[3..]
  {
  }

  /** Three bytes followed by at least one more: a full quad, then the rest. */
  lemma DecodeEncodeStep(d: seq<Byte>)
    requires |d| > 3 && DecodeStrict(Encode(d[3..])) == Success(d[3..])
    ensures DecodeStrict(Encode(d)) == Success(d)
  {
    SplitThree(d);
    var t := Chars(d[0], d[1], d[2], 4);
    var rest := Encode(d[3..]);
    assert Encode(d) == t + rest;
    DecodeEncodeThree(d[0], d[1], d[2]);
    DecodeStrictQuadThen(t, rest);
  }

  /** Round trip: strict decoding gives back every byte sequence that `Encode` produced. */
  lemma {:induction false} DecodeEncode(d: seq<Byte>)
    ensures DecodeStrict(Encode(d)) == Success(d)
    decreases |d|
  {
    if |d| == 0 {
    } else if |d| == 1 {
      DecodeEncodeOne(d);
    } else if |d| == 2 {
      DecodeEncodeTwo(d);
    } else if |d| == 3 {
      var t := Chars(d[0], d[1], d[2], 4);
      assert Encode(d) == t + Encode([]);
      assert Encode(d) == t;
      DecodeEncodeThree(d[0], d[1], d[2]);
      assert DecodeStrict(t) == DecodeLastQuad(t);
      assert d == [d[0], d[1], d[2]];
    } else {
      DecodeEncode(d[3..]);
      DecodeEncodeStep(d);
    }
  }

  // ---------------------------------------------------------------------------
  // Lenient decoding
  // ---------------------------------------------------------------------------

  /** The bits a lenient scan carries into the next byte: none before a quad starts,
      6, 4 and 2 bits after its first, second and third character. */
  predicate LeftFits(q: nat, left: int) {
    && q <= 3
    && 0 <= left
    && left < (if q == 0 then 1 else if q == 1 then 64 else if q == 2 then 16 else 4)
  }

  function Prepend(b: Byte, r: Result<seq<Byte>, DecodeError>): Result<seq<Byte>, DecodeError> {
    match r
    case Success(v) => Success([b] + v)
    case Failure(e) => Failure(e)
  }

  /**
   * The scan behind `b64decode` without validation, from quad position `q` with the
   * leftover bits `left` and `pads` '=' seen since the last data character:
   * characters outside the alphabet are skipped, '=' counts only once two data
   * characters of the quad have been seen, the '=' that completes the quad ends the
   * scan (whatever follows is ignored), and input that ends inside a quad is an error.
   */
  function Scan(s: string, q: nat, left: int, pads: nat): (r: Result<seq<Byte>, DecodeError>)
    requires LeftFits(q, left)
    ensures r.Failure? ==> r.error == BadPadding || r.error == DanglingCharacter
    decreases |s|
  {
    if |s| == 0 then
      if q == 0 then Success([]) else if q == 1 then Failure(DanglingCharacter) else Failure(BadPadding)
    else if s[0] == '=' then
      if q >= 2 && q + pads + 1 >= 4 then Success([])
      else Scan(s[1..], q, left, if q >= 2 then pads + 1 else pads)
    else if !IsAlphabetChar(s[0]) then
      Scan(s[1..], q, left, pads)
    else
      var v := IndexOf(s[0]);
      if q == 0 then Scan(s[1..], 1, v, 0)
      else if q == 1 then Prepend(left * 4 + v / 16, Scan(s[1..], 2, v % 16, 0))
      else if q == 2 then Prepend(left * 16 + v / 4, Scan(s[1..], 3, v % 4, 0))
      else Prepend(left * 64 + v, Scan(s[1..], 0, 0, 0))
  }

  predicate AllAscii(s: string) {
    forall k :: 0 <= k < |s| ==> IsAscii(s[k])
  }

  /** `b64decode(s)`: a str argument must be ASCII, then the lenient scan decodes it. */
  function DecodeLenient(s: string): (r: Result<seq<Byte>, DecodeError>)
    ensures !AllAscii(s) ==> r == Failure(NonAscii)
  {
    if !AllAscii(s) then Failure(NonAscii) else Scan(s, 0, 0, 0)
  }

  /**
   * A character that is neither in the alphabet nor '=' is skipped wherever it stands:
   * the scan over `a + [c] + b` gives what the scan over `a + b` gives.
   */
  lemma {:induction false} ScanSkipsForeign(a: string, c: char, b: string, q: nat, left: int, pads: nat)
    requires LeftFits(q, left)
    requires !IsAlphabetChar(c) && c != '='
    ensures Scan(a + [c] + b, q, left, pads) == Scan(a + b, q, left, pads)
    decreases |a|
  {
    var s1, s2 := a + [c] + b, a + b;
    if a == [] {
      assert s1 == [c] + b && s1[1..] == b && s2 == b;
    } else {
      assert s1[0] == a[0] && s2[0] == a[0];
      assert s1[1..] == a[1..] + [c] + b && s2[1..] == a[1..] + b;
      var x := a[0];
      if x == '=' {
        if !(q >= 2 && q + pads + 1 >= 4) {
          ScanSkipsForeign(a[1..], c, b, q, left, if q >= 2 then pads + 1 else pads);
        }
      } else if !IsAlphabetChar(x) {
        ScanSkipsForeign(a[1..], c, b, q, left, pads);
      } else {
        var v := IndexOf(x);
        if q == 0 {
          ScanSkipsForeign(a[1..], c, b, 1, v, 0);
        } else if q == 1 {
          ScanSkipsForeign(a[1..], c, b, 2, v % 16, 0);
        } else if q == 2 {
          ScanSkipsForeign(a[1..], c, b, 3, v % 4, 0);
        } else {
          ScanSkipsForeign(a[1..], c, b, 0, 0, 0);
        }
      }
    }
  }

  /** Lenient decoding ignores an ASCII character outside the alphabet, wherever it stands. */
  lemma LenientSkipsForeign(a: string, c: char, b: string)
    requires IsAscii(c) && !IsAlphabetChar(c) && c != '='
    ensures DecodeLenient(a + [c] + b) == DecodeLenient(a + b)
  {
    var s1, s2 := a + [c] + b, a + b;
    assert AllAscii(s1) <==> AllAscii(s2) by {
      if AllAscii(s2) {
        forall k | 0 <= k < |s1| ensures IsAscii(s1[k]) {
          if k < |a| { assert s1[k] == s2[k]; }
          else if k > |a| { assert s1[k] == s2[k - 1]; }
        }
      }
      if AllAscii(s1) {
        forall k | 0 <= k < |s2| ensures IsAscii(s2[k]) {
          if k < |a| { assert s2[k] == s1[k]; } else { assert s2[k] == s1[k + 1]; }
        }
      }
    }
    ScanSkipsForeign(a, c, b, 0, 0, 0);
  }

  /** Scanning an alphabet quad puts its three bytes, one at a time, in front of the scan of the rest. */
  lemma ScanQuadSteps(t: string, rest: string)
    requires |t| == 4 && forall k :: 0 <= k < 4 ==> IsAlphabetChar(t[k])
    ensures var b := DecodeQuad(t[0], t[1], t[2], t[3]);
      Scan(t + rest, 0, 0, 0) == Prepend(b[0], Prepend(b[1], Prepend(b[2], Scan(rest, 0, 0, 0))))
  {
    var s := t + rest;
    assert s[1..][1..][1..][1..] == rest;
    var i0: int, i1: int, i2: int, i3: int := IndexOf(t[0]), IndexOf(t[1]), IndexOf(t[2]), IndexOf(t[3]);
    assert s[0] == t[0] && s[1..][0] == t[1] && s[1..][1..][0] == t[2] && s[1..][1..][1..][0] == t[3];
    assert Scan(s, 0, 0, 0) == Scan(s[1..], 1, i0, 0);
    assert Scan(s[1..], 1, i0, 0) == Prepend(i0 * 4 + i1 / 16, Scan(s[1..][1..], 2, i1 % 16, 0));
    assert Scan(s[1..][1..], 2, i1 % 16, 0) == Prepend((i1 % 16) * 16 + i2 / 4, Scan(s[1..][1..][1..], 3, i2 % 4, 0));
    assert Scan(s[1..][1..][1..], 3, i2 % 4, 0) == Prepend((i2 % 4) * 64 + i3, Scan(rest, 0, 0, 0));
    assert DecodeQuad(t[0], t[1], t[2], t[3]) == [i0 * 4 + i1 / 16, (i1 % 16) * 16 + i2 / 4, (i2 % 4) * 64 + i3];
  }

  /** A quad of four alphabet characters yields its three bytes and leaves the scan at a quad boundary. */
  lemma ScanQuad(t: string, rest: string)
    requires |t| == 4 && forall k :: 0 <= k < 4 ==> IsAlphabetChar(t[k])
    ensures Scan(t + rest, 0, 0, 0) ==
      match Scan(rest, 0, 0, 0)
      case Failure(e) => Failure(e)
      case Success(r) => Success(DecodeQuad(t[0], t[1], t[2], t[3]) + r)
  {
    ScanQuadSteps(t, rest);
    var tail := Scan(rest, 0, 0, 0);
    if tail.Success? {
      var b := DecodeQuad(t[0], t[1], t[2], t[3]);
      assert [b[0]] + ([b[1]] + ([b[2]] + tail.value)) == b + tail.value;
    }
  }

  /** The last quad of a well-formed string, padded or not, ends the scan with the bytes strict decoding gives. */
  lemma ScanLastQuad(t: string)
    requires |t| == 4 && WellFormed(t)
    ensures Scan(t, 0, 0, 0) == DecodeLastQuad(t)
  {
    if IsAlphabetChar(t[2]) && IsAlphabetChar(t[3]) {
      ScanQuad(t, []);
      assert t + [] == t;
      assert Scan([], 0, 0, 0) == Success([]);
      var b := DecodeQuad(t[0], t[1], t[2], t[3]);
      assert b + [] == b;
    } else {
      var i0: int, i1: int := IndexOf(t[0]), IndexOf(t[1]);
      assert Scan(t, 0, 0, 0) == Scan(t[1..], 1, i0, 0);
      assert Scan(t[1..], 1, i0, 0) == Prepend(i0 * 4 + i1 / 16, Scan(t[2..], 2, i1 % 16, 0));
      if t[2] == '=' {
        assert t[3] == '=' && t[3..][0] == '=';
        assert Scan(t[2..], 2, i1 % 16, 0) == Scan(t[3..], 2, i1 % 16, 1) == Success([]);
        var b0: Byte := i0 * 4 + i1 / 16;
        assert [b0] + [] == [b0];
        assert QuadBytes(i0, i1, 0, 0)[..1] == [b0];
        assert DecodeLastQuad(t) == Success([b0]);
      } else {
        assert IsAlphabetChar(t[2]) && t[3] == '=';
        var i2: int := IndexOf(t[2]);
        assert Scan(t[2..], 2, i1 % 16, 0) == Prepend((i1 % 16) * 16 + i2 / 4, Scan(t[3..], 3, i2 % 4, 0));
        assert t[3..][0] == '=';
        assert Scan(t[3..], 3, i2 % 4, 0) == Success([]);
        assert QuadBytes(i0, i1, i2, 0)[..2] == [i0 * 4 + i1 / 16, (i1 % 16) * 16 + i2 / 4];
        assert DecodeLastQuad(t) == Success(QuadBytes(i0, i1, i2, 0)[..2]);
        var b1: Byte := (i1 % 16) * 16 + i2 / 4;
        assert [b1] + [] == [b1];
        assert Scan(t[2..], 2, i1 % 16, 0) == Success([b1]);
        var b0: Byte := i0 * 4 + i1 / 16;
        assert [b0] + [b1] == [b0, b1];
        assert Scan(t, 0, 0, 0) == Success([b0, b1]);
      }
    }
  }

  /** On the strings strict decoding accepts, lenient decoding gives the same bytes. */
  lemma {:induction false} LenientAgreesWithStrict(s: string)
    requires WellFormed(s)
    ensures DecodeLenient(s) == DecodeStrict(s)
    decreases |s|
  {
    assert AllAscii(s) by {
      forall k | 0 <= k < |s| ensures IsAscii(s[k]) {
        assert IsAlphabetChar(s[k]) || s[k] == '=';
      }
    }
    if |s| == 0 {
    } else if |s| == 4 {
      ScanLastQuad(s);
    } else {
      var t, rest := s[..4], s[4..];
      assert s == t + rest;
      assert WellFormed(rest);
      LenientAgreesWithStrict(rest);
      ScanQuad(t, rest);
    }
  }

  /** Over data characters alone, the scan succeeds exactly when it ends at a quad boundary. */
  lemma {:induction false} ScanDataOnly(s: string, q: nat, left: int, pads: nat)
    requires LeftFits(q, left)
    requires forall k :: 0 <= k < |s| ==> IsAlphabetChar(s[k])
    ensures Scan(s, q, left, pads).Success? <==> (q + |s|) % 4 == 0
    decreases |s|
  {
    if |s| > 0 {
      var v := IndexOf(s[0]);
      if q == 0 {
        ScanDataOnly(s[1..], 1, v, 0);
      } else if q == 1 {
        ScanDataOnly(s[1..], 2, v % 16, 0);
      } else if q == 2 {
        ScanDataOnly(s[1..], 3, v % 4, 0);
      } else {
        ScanDataOnly(s[1..], 0, 0, 0);
      }
    }
  }

  /** Lenient decoding of data characters alone fails unless they fill whole quads: it does not pad. */
  lemma LenientNeedsWholeQuads(s: string)
    requires forall k :: 0 <= k < |s| ==> IsAlphabetChar(s[k])
    ensures DecodeLenient(s).Success? <==> |s| % 4 == 0
  {
    assert AllAscii(s) by {
      forall k | 0 <= k < |s| ensures IsAscii(s[k]) { assert IsAlphabetChar(s[k]); }
    }
    ScanDataOnly(s, 0, 0, 0);
  }
}
