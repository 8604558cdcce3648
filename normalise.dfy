/**
 * The text clean-up that both `is_valid_base64` (app.py:18-26) and
 * `decode_base64_to_image` (app.py:65-68) apply to a pasted payload:
 * delete whitespace, drop a data-URL header, and (in the validator only)
 * pad with '=' to a whole number of quads.
 */
module Normalise {

  /**
   * The characters `\s` matches in a str pattern: those for which Python's
   * `str.isspace` holds (the ASCII controls 9-13 and 28-31, the space, U+0085,
   * U+00A0, U+1680, U+2000-U+200A, U+2028, U+2029, U+202F, U+205F, U+3000).
   */
  predicate IsSpace(c: char): (r: bool)
    ensures r ==> !('!' <= c <= '~')
  {
    var n := c as int;
    || (9 <= n <= 13) || (0x1C <= n <= 0x20) || n == 0x85 || n == 0xA0 || n == 0x1680
    || (0x2000 <= n <= 0x200A) || n == 0x2028 || n == 0x2029 || n == 0x202F || n == 0x205F || n == 0x3000
  }

  predicate NoSpace(s: string) {
    forall k :: 0 <= k < |s| ==> !IsSpace(s[k])
  }

  /** `re.sub(r'\s+', '', s)`: the characters of `s` that are not whitespace, in their order. */
  function StripWhitespace(s: string): (r: string)
    ensures NoSpace(r)
    ensures |r| <= |s|
    ensures forall c :: c in r ==> c in s
  {
    if s == [] then []
    else (if IsSpace(s[0]) then [] else [s[0]]) + StripWhitespace(s[1..])
  }

  /** Whitespace removal works piecewise, so every non-whitespace character keeps its place relative to the others. */
  lemma {:induction false} StripWhitespaceAppend(a: string, b: string)
    ensures StripWhitespace(a + b) == StripWhitespace(a) + StripWhitespace(b)
    decreases |a|
  {
    if a == [] {
      assert a + b == b;
    } else {
      assert (a + b)[1..] == a[1..] + b;
      StripWhitespaceAppend(a[1..], b);
    }
  }

  /** Removing whitespace changes a string exactly when it holds some whitespace. */
  lemma {:induction false} StripWhitespaceFixpoint(s: string)
    ensures StripWhitespace(s) == s <==> NoSpace(s)
    decreases |s|
  {
    if s != [] {
      StripWhitespaceFixpoint(s[1..]);
      if IsSpace(s[0]) {
        assert |StripWhitespace(s)| < |s|;
      } else {
        assert NoSpace(s) <==> NoSpace(s[1..]) by {
          if NoSpace(s[1..]) {
            forall k | 0 <= k < |s| ensures !IsSpace(s[k]) {
              if k > 0 { assert s[k] == s[1..][k - 1]; }
            }
          }
        }
        assert s == [s[0]] + s[1..];
      }
    }
  }

  /** A run of whitespace inserted anywhere leaves the stripped string unchanged. */
  lemma StripWhitespaceIgnoresInserted(a: string, w: string, b: string)
    requires forall k :: 0 <= k < |w| ==> IsSpace(w[k])
    ensures StripWhitespace(a + w + b) == StripWhitespace(a + b)
  {
    StripWhitespaceAppend(a + w, b);
    StripWhitespaceAppend(a, w);
    StripWhitespaceAppend(a, b);
    AllSpaceStripsToEmpty(w);
  }

  lemma {:induction false} AllSpaceStripsToEmpty(w: string)
    requires forall k :: 0 <= k < |w| ==> IsSpace(w[k])
    ensures StripWhitespace(w) == []
    decreases |w|
  {
    if w != [] {
      AllSpaceStripsToEmpty(w[1..]);
    }
  }

  const DataPrefix: string := "data:"

  /** The position of the first `c` in `s` (`str.index`). */
  function FirstIndex(s: string, c: char): (k: nat)
    requires c in s
    ensures k < |s| && s[k] == c && c !in s[..k]
  {
    if s[0] == c then 0
    else
      assert c in s[1..] by { assert s == [s[0]] + s[1..]; }
      var k := FirstIndex(s[1..], c) + 1;
      assert s[..k] == [s[0]] + s[1..][..k - 1];
      k
  }

  /**
   * `if ',' in s and s.startswith('data:'): s = s.split(',', 1)[1]`: a string that
   * starts with "data:" and holds a comma loses everything up to and including its
   * first comma; any other string is left as it is.
   */
  function StripDataUrl(s: string): (r: string)
    ensures ',' in s && DataPrefix <= s ==>
      |r| < |s| && s[|s| - |r| - 1] == ',' && ',' !in s[..|s| - |r| - 1] && r == s[|s| - |r|..]
    ensures !(',' in s && DataPrefix <= s) ==> r == s
  {
    if ',' in s && DataPrefix <= s then s[FirstIndex(s, ',') + 1..] else s
  }

  /** A data-URL header whose media type holds no comma is removed whole, whatever follows it. */
  lemma StripDataUrlHeader(mediaType: string, payload: string)
    requires ',' !in mediaType
    ensures StripDataUrl(DataPrefix + mediaType + "," + payload) == payload
  {
    var s := DataPrefix + mediaType + "," + payload;
    var k := |DataPrefix + mediaType|;
    assert s[k] == ',';
    assert ',' !in DataPrefix;
    assert s[..k] == DataPrefix + mediaType;
    assert DataPrefix <= s;
    assert s[k + 1..] == payload;
  }

  /** Both the validator and the decoder start with these two steps. */
  function Prelude(s: string): (r: string)
    ensures NoSpace(r)
  {
    var t := StripWhitespace(s);
    var r := StripDataUrl(t);
    assert forall k :: 0 <= k < |r| ==> r[k] == t[|t| - |r| + k];
    r
  }

  /** Whitespace anywhere in the input does not change what the prelude yields. */
  lemma PreludeIgnoresWhitespace(a: string, w: string, b: string)
    requires forall k :: 0 <= k < |w| ==> IsSpace(w[k])
    ensures Prelude(a + w + b) == Prelude(a + b)
  {
    StripWhitespaceIgnoresInserted(a, w, b);
  }

  /** Whitespace removal leaves the fixed parts of a data-URL header in place. */
  lemma StripWhitespaceHeader(mediaType: string, payload: string)
    ensures StripWhitespace(DataPrefix + mediaType + "," + payload) ==
      DataPrefix + StripWhitespace(mediaType) + "," + StripWhitespace(payload)
  {
    StripWhitespaceAppend(DataPrefix + mediaType + ",", payload);
    StripWhitespaceAppend(DataPrefix + mediaType, ",");
    StripWhitespaceAppend(DataPrefix, mediaType);
    StripWhitespaceFixpoint(DataPrefix);
    StripWhitespaceFixpoint(",");
  }

  /**
   * A payload behind a data-URL header yields what the bare payload yields, as long as
   * the media type holds no comma (else the header would end early) and the payload,
   * once stripped of whitespace, does not itself start with "data:" (else the bare
   * payload would lose a header of its own).
   */
  lemma PreludeDataUrl(mediaType: string, payload: string)
    requires ',' !in mediaType && !(DataPrefix <= StripWhitespace(payload))
    ensures Prelude(DataPrefix + mediaType + "," + payload) == Prelude(payload)
  {
    var m, p := StripWhitespace(mediaType), StripWhitespace(payload);
    StripWhitespaceHeader(mediaType, payload);
    StripDataUrlHeader(m, p);
    assert StripDataUrl(p) == p;
  }

  /** `len(s) % 4 != 0` adds `4 - len(s) % 4` characters '='. */
  function PadToQuad(s: string): (r: string)
    ensures |r| % 4 == 0
    ensures |s| <= |r| < |s| + 4
    ensures r[..|s|] == s
    ensures forall k :: |s| <= k < |r| ==> r[k] == '='
  {
    if |s| % 4 != 0 then s + seq(4 - |s| % 4, _ => '=') else s
  }

  /** Padding is the only way to extend `s` with '=' to a multiple of four: any such extension is `PadToQuad(s)`. */
  lemma PadToQuadUnique(s: string, e: string)
    requires |e| % 4 == 0 && |s| <= |e| < |s| + 4
    requires e[..|s|] == s
    requires forall k :: |s| <= k < |e| ==> e[k] == '='
    ensures PadToQuad(s) == e
  {
    var t := PadToQuad(s);
    assert |t| == |e|;
    forall k | 0 <= k < |t| ensures t[k] == e[k] {
      if k < |s| { assert t[..|s|][k] == e[..|s|][k]; }
    }
  }
}
