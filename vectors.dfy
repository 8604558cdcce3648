/** Test vectors of section 10 of RFC 4648, worked out group by group on the encoder. */
module Vectors {
  import opened Wrappers
  import opened Base64

  /** The characters of a group whose sextets are known, one by one. */
  lemma GroupChars(b0: Byte, b1: Byte, b2: Byte, n: nat, t: string)
    requires 1 <= n <= 4 && |t| == n
    requires forall k :: 0 <= k < n ==> CharOf(Sextets(b0, b1, b2)[k]) == t[k]
    ensures Chars(b0, b1, b2, n) == t
  {
  }

  /** More than three bytes: a full group of four characters, then the rest. */
  lemma EncodeGroup(d: seq<Byte>)
    requires |d| > 3
    ensures Encode(d) == Chars(d[0], d[1], d[2], 4) + Encode(d[3..])
  {
  }

  /** "foo" is "Zm9v". */
  lemma FooGroup()
    ensures Chars(0x66, 0x6F, 0x6F, 4) == "Zm9v"
  {
    assert Sextets(0x66, 0x6F, 0x6F) == [25, 38, 61, 47];
    assert CharOf(25) == 'Z' && CharOf(38) == 'm' && CharOf(61) == '9' && CharOf(47) == 'v';
    GroupChars(0x66, 0x6F, 0x6F, 4, "Zm9v");
  }

  /** "bar" is "YmFy". */
  lemma BarGroup()
    ensures Chars(0x62, 0x61, 0x72, 4) == "YmFy"
  {
    assert Sextets(0x62, 0x61, 0x72) == [24, 38, 5, 50];
    assert CharOf(24) == 'Y' && CharOf(38) == 'm' && CharOf(5) == 'F' && CharOf(50) == 'y';
    GroupChars(0x62, 0x61, 0x72, 4, "YmFy");
  }

  /** Three bytes make one full group and no padding. */
  lemma EncodeBar(d: seq<Byte>)
    requires d == [0x62, 0x61, 0x72]
    ensures Encode(d) == "YmFy"
  {
    assert Encode(d) == Chars(0x62, 0x61, 0x72, 4) + Encode([]);
    BarGroup();
  }

  /** BASE64("foobar") = "Zm9vYmFy". */
  lemma Foobar(d: seq<Byte>)
    requires d == [0x66, 0x6F, 0x6F, 0x62, 0x61, 0x72]
    ensures Encode(d) == "Zm9vYmFy"
  {
    EncodeGroup(d);
    EncodeBar(d[3..]);
    FooGroup();
  }

  /** "Zm9vYmFy" decodes strictly to "foobar". */
  lemma FoobarDecodes(d: seq<Byte>)
    requires d == [0x66, 0x6F, 0x6F, 0x62, 0x61, 0x72]
    ensures DecodeStrict("Zm9vYmFy") == Success(d)
  {
    Foobar(d);
    DecodeEncode(d);
  }

  /** The two bytes of "fo" give the characters "Zm8". */
  lemma FoGroup()
    ensures Chars(0x66, 0x6F, 0, 3) == "Zm8"
  {
    assert Sextets(0x66, 0x6F, 0) == [25, 38, 60, 0];
    assert CharOf(25) == 'Z' && CharOf(38) == 'm' && CharOf(60) == '8';
    GroupChars(0x66, 0x6F, 0, 3, "Zm8");
  }

  /** BASE64("fo") = "Zm8=": two bytes take three characters and one '='. */
  lemma Fo(d: seq<Byte>)
    requires d == [0x66, 0x6F]
    ensures Encode(d) == "Zm8="
  {
    EncodeTwo(d);
    FoGroup();
  }

  /** "Zm8=" decodes strictly to "fo"; the '=' ends the text. */
  lemma FoDecodes(d: seq<Byte>)
    requires d == [0x66, 0x6F]
    ensures DecodeStrict("Zm8=") == Success(d)
  {
    Fo(d);
    DecodeEncode(d);
  }
}
