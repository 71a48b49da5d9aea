/**
 * `Buffer.from(s).toString('base64')`: the UTF-8 bytes of a string,
 * encoded in the padded Base 64 alphabet of section 4 of RFC 4648.
 */
module Base64 {
  import opened Wrappers

  type Byte = b: int | 0 <= b < 256
  type Sextet = x: int | 0 <= x < 64

  // ---------------------------------------------------------------------------
  // UTF-8 (what Buffer.from does with a string)
  // ---------------------------------------------------------------------------

  /** The UTF-8 encoding of one Unicode scalar value: 1 to 4 bytes. */
  function CharUtf8(c: char): (r: seq<Byte>)
    ensures 1 <= |r| <= 4
    ensures |r| == 1 <==> c as int < 0x80
    ensures |r| == 1 ==> r[0] == c as int
  {
    var v := c as int;
    if v < 0x80 then [v]
    else if v < 0x800 then [0xC0 + v / 0x40, 0x80 + v % 0x40]
    else if v < 0x1_0000 then [0xE0 + v / 0x1000, 0x80 + (v / 0x40) % 0x40, 0x80 + v % 0x40]
    else [0xF0 + v / 0x4_0000, 0x80 + (v / 0x1000) % 0x40, 0x80 + (v / 0x40) % 0x40, 0x80 + v % 0x40]
  }

  predicate IsAscii(s: string) {
    forall i :: 0 <= i < |s| ==> s[i] as int < 0x80
  }

  /** The UTF-8 encoding of a string. */
  function Utf8(s: string): (r: seq<Byte>)
    ensures |r| >= |s|
    ensures IsAscii(s) ==> |r| == |s| && forall i :: 0 <= i < |s| ==> r[i] == s[i] as int
    decreases |s|
  {
    if s == [] then [] else CharUtf8(s[0]) + Utf8(s[1..])
  }

  /** ASCII text is encoded as its character codes. */
  lemma AsciiBytes(s: string, b: seq<Byte>)
    requires IsAscii(s) && |b| == |s| && forall i :: 0 <= i < |s| ==> b[i] == s[i] as int
    ensures Utf8(s) == b
  {
  }

  /** Strings that agree on their first k characters agree on their first k UTF-8 bytes. */
  lemma {:induction false} Utf8CommonPrefix(a: string, b: string, k: nat)
    requires k <= |a| && k <= |b| && a[..k] == b[..k]
    ensures k <= |Utf8(a)| && k <= |Utf8(b)| && Utf8(a)[..k] == Utf8(b)[..k]
    decreases k
  {
    if k > 0 {
      assert a[0] == b[0];
      Utf8CommonPrefix(a[1..], b[1..], k - 1);
      var u := CharUtf8(a[0]);
      assert a[1..][..k - 1] == a[..k][1..] && b[1..][..k - 1] == b[..k][1..];
      assert Utf8(a) == u + Utf8(a[1..]) && Utf8(b) == u + Utf8(b[1..]);
      if |u| < k {
        assert Utf8(a)[..k] == u + Utf8(a[1..])[..k - |u|];
        assert Utf8(b)[..k] == u + Utf8(b[1..])[..k - |u|];
        assert Utf8(a[1..])[..k - |u|] == Utf8(a[1..])[..k - 1][..k - |u|];
        assert Utf8(b[1..])[..k - |u|] == Utf8(b[1..])[..k - 1][..k - |u|];
      } else {
        assert Utf8(a)[..k] == u[..k] == Utf8(b)[..k];
      }
    }
  }

  // ---------------------------------------------------------------------------
  // The Base 64 alphabet (RFC 4648, section 4, table 1)
  // ---------------------------------------------------------------------------

  const Pad: char := '='

  function Alphabet(x: Sextet): (c: char)
    ensures c != Pad && IndexOf(c) == Some(x)
  {
    if x < 26 then ('A' as int + x) as char
    else if x < 52 then ('a' as int + (x - 26)) as char
    else if x < 62 then ('0' as int + (x - 52)) as char
    else if x == 62 then '+'
    else '/'
  }

  /** The inverse of Alphabet; None for a character outside it. */
  function IndexOf(c: char): Option<Sextet> {
    if 'A' <= c <= 'Z' then Some(c as int - 'A' as int)
    else if 'a' <= c <= 'z' then Some(c as int - 'a' as int + 26)
    else if '0' <= c <= '9' then Some(c as int - '0' as int + 52)
    else if c == '+' then Some(62)
    else if c == '/' then Some(63)
    else None
  }

  /** Every character of the alphabet is found at its own index. */
  lemma AlphabetIndexOf(c: char)
    requires IndexOf(c).Some?
    ensures Alphabet(IndexOf(c).value) == c
  {
  }

  /** A character of the padded encoding: the alphabet or the pad. */
  predicate IsEncodingChar(c: char) {
    IndexOf(c).Some? || c == Pad
  }

  // ---------------------------------------------------------------------------
  // Encoding and decoding
  // ---------------------------------------------------------------------------

  /** Three bytes (the missing ones as 0) split into four 6-bit groups. */
  function Sextets(b0: Byte, b1: Byte, b2: Byte): (Sextet, Sextet, Sextet, Sextet) {
    (b0 / 4, (b0 % 4) * 16 + b1 / 16, (b1 % 16) * 4 + b2 / 64, b2 % 64)
  }

  /** Four 6-bit groups joined back into three bytes. */
  function Octets(c0: Sextet, c1: Sextet, c2: Sextet, c3: Sextet): (Byte, Byte, Byte) {
    (c0 * 4 + c1 / 16, (c1 % 16) * 16 + c2 / 4, (c2 % 4) * 64 + c3)
  }

  lemma OctetsOfSextets(b0: Byte, b1: Byte, b2: Byte)
    ensures var (c0, c1, c2, c3) := Sextets(b0, b1, b2);
            Octets(c0, c1, c2, c3) == (b0, b1, b2)
  {
    var (c0, c1, c2, c3) := Sextets(b0, b1, b2);
    assert c1 / 16 == b0 % 4 && c1 % 16 == b1 / 16;
    assert c2 / 4 == b1 % 16 && c2 % 4 == b2 / 64;
  }

  /** The four characters that encode three bytes. */
  function Quad(b0: Byte, b1: Byte, b2: Byte): (r: string)
    ensures |r| == 4
  {
    var (c0, c1, c2, c3) := Sextets(b0, b1, b2);
    [Alphabet(c0), Alphabet(c1), Alphabet(c2), Alphabet(c3)]
  }

  /**
   * The padded encoding: each group of three bytes becomes four characters;
   * a final group of one or two bytes is completed with "==" or "=".
   */
  function Encode(b: seq<Byte>): (r: string)
    ensures |r| == 4 * ((|b| + 2) / 3)
    decreases |b|
  {
    if |b| == 0 then ""
    else if |b| == 1 then
      var (c0, c1, _, _) := Sextets(b[0], 0, 0);
      [Alphabet(c0), Alphabet(c1), Pad, Pad]
    else if |b| == 2 then
      var (c0, c1, c2, _) := Sextets(b[0], b[1], 0);
      [Alphabet(c0), Alphabet(c1), Alphabet(c2), Pad]
    else
      GroupCount(|b| - 3);
      Quad(b[0], b[1], b[2]) + Encode(b[3..])
  }

  /** Three more bytes make one more group. */
  lemma GroupCount(n: nat)
    ensures (n + 3 + 2) / 3 == (n + 2) / 3 + 1
  {
  }

  /** The inverse of Encode: None for a string that is not a padded encoding. */
  function Decode(s: string): Option<seq<Byte>>
    decreases |s|
  {
    if s == [] then Some([])
    else if |s| < 4 || IndexOf(s[0]).None? || IndexOf(s[1]).None? then None
    else
      var c0, c1 := IndexOf(s[0]).value, IndexOf(s[1]).value;
      if |s| == 4 && s[2] == Pad && s[3] == Pad then
        Some([Octets(c0, c1, 0, 0).0])
      else if IndexOf(s[2]).None? then None
      else
        var c2 := IndexOf(s[2]).value;
        if |s| == 4 && s[3] == Pad then
          var (b0, b1, _) := Octets(c0, c1, c2, 0);
          Some([b0, b1])
        else if IndexOf(s[3]).None? then None
        else
          var (b0, b1, b2) := Octets(c0, c1, c2, IndexOf(s[3]).value);
          match Decode(s[4..])
          case None => None
          case Some(tail) => Some([b0, b1, b2] + tail)
  }

  lemma DecodeEncodeOne(b: seq<Byte>)
    requires |b| == 1
    ensures Decode(Encode(b)) == Some(b)
  {
    OctetsOfSextets(b[0], 0, 0);
    var (c0, c1, _, _) := Sextets(b[0], 0, 0);
    assert Encode(b) == [Alphabet(c0), Alphabet(c1), Pad, Pad];
    assert b == [b[0]];
  }

  lemma DecodeEncodeTwo(b: seq<Byte>)
    requires |b| == 2
    ensures Decode(Encode(b)) == Some(b)
  {
    OctetsOfSextets(b[0], b[1], 0);
    var (c0, c1, c2, c3) := Sextets(b[0], b[1], 0);
    assert c3 == 0;
    var s := [Alphabet(c0), Alphabet(c1), Alphabet(c2), Pad];
    assert Encode(b) == s;
    assert Decode(s) == Some([Octets(c0, c1, c2, 0).0, Octets(c0, c1, c2, 0).1]);
    assert b == [b[0], b[1]];
  }

  /** Decoding a full group followed by the rest decodes the rest. */
  lemma DecodeQuad(b0: Byte, b1: Byte, b2: Byte, rest: string)
    ensures Decode(Quad(b0, b1, b2) + rest) ==
            if Decode(rest).None? then None else Some([b0, b1, b2] + Decode(rest).value)
  {
    OctetsOfSextets(b0, b1, b2);
    var s := Quad(b0, b1, b2) + rest;
    assert s[4..] == rest;
  }

  /** Decoding an encoding gives back the bytes. */
  lemma {:induction false} DecodeEncode(b: seq<Byte>)
    ensures Decode(Encode(b)) == Some(b)
    decreases |b|
  {
    if |b| == 1 {
      DecodeEncodeOne(b);
    } else if |b| == 2 {
      DecodeEncodeTwo(b);
    } else if |b| >= 3 {
      var tail := Encode(b[3..]);
      DecodeEncode(b[3..]);
      DecodeQuad(b[0], b[1], b[2], tail);
      assert Encode(b) == Quad(b[0], b[1], b[2]) + tail;
      assert [b[0], b[1], b[2]] + b[3..] == b;
    }
  }

  /** A group of three bytes followed by more is its quad followed by their encoding. */
  lemma EncodeGroup(x: Byte, y: Byte, z: Byte, rest: seq<Byte>)
    ensures Encode([x, y, z] + rest) == Quad(x, y, z) + Encode(rest)
  {
    assert ([x, y, z] + rest)[3..] == rest;
  }

  lemma QuadFoo()
    ensures Quad(102, 111, 111) == "Zm9v"
  {
    assert Sextets(102, 111, 111) == (25, 38, 61, 47);
  }

  lemma QuadBar()
    ensures Quad(98, 97, 114) == "YmFy"
  {
    assert Sextets(98, 97, 114) == (24, 38, 5, 50);
  }

  /** ASCII text is encoded as its character codes: "foobar" is 102 111 111 98 97 114. */
  lemma Utf8Foobar()
    ensures Utf8("foobar") == [102, 111, 111, 98, 97, 114]
  {
    AsciiBytes("foobar", [102, 111, 111, 98, 97, 114]);
  }

  /** The example encodings of section 10 of RFC 4648 for "", "f", "fo" and "foo". */
  lemma EncodeRfcExamplesShort()
    ensures Encode([]) == ""
    ensures Encode([102]) == "Zg=="
    ensures Encode([102, 111]) == "Zm8="
    ensures Encode([102, 111, 111]) == "Zm9v"
  {
    QuadFoo();
    assert Sextets(102, 0, 0) == (25, 32, 0, 0);
    assert Sextets(102, 111, 0) == (25, 38, 60, 0);
    EncodeGroup(102, 111, 111, []);
  }

  /** The example encodings of section 10 of RFC 4648 for "foob", "fooba" and "foobar". */
  lemma EncodeRfcExamplesLong()
    ensures Encode([102, 111, 111, 98]) == "Zm9vYg=="
    ensures Encode([102, 111, 111, 98, 97]) == "Zm9vYmE="
    ensures Encode([102, 111, 111, 98, 97, 114]) == "Zm9vYmFy"
  {
    QuadFoo();
    QuadBar();
    assert Sextets(98, 0, 0) == (24, 32, 0, 0);
    assert Sextets(98, 97, 0) == (24, 38, 4, 0);
    EncodeGroup(102, 111, 111, [98]);
    EncodeGroup(102, 111, 111, [98, 97]);
    EncodeGroup(102, 111, 111, [98, 97, 114]);
    EncodeGroup(98, 97, 114, []);
  }

  /** The first eight characters of an encoding of at least six bytes are its first two groups. */
  lemma EncodeFirstTwoGroups(b: seq<Byte>)
    requires |b| >= 6
    ensures Encode(b)[..8] == Quad(b[0], b[1], b[2]) + Quad(b[3], b[4], b[5])
  {
    EncodePrefix(b, 2);
    var c := b[..6];
    var d := c[3..];
    assert Encode(c) == Quad(c[0], c[1], c[2]) + Encode(d);
    assert Encode(d) == Quad(d[0], d[1], d[2]) + Encode(d[3..]);
    assert d[3..] == [];
  }

  /** An encoding uses only the alphabet and the pad. */
  lemma {:induction false} EncodeChars(b: seq<Byte>)
    ensures forall i :: 0 <= i < |Encode(b)| ==> IsEncodingChar(Encode(b)[i])
    decreases |b|
  {
    if |b| >= 3 {
      EncodeChars(b[3..]);
      var s := Encode(b);
      assert s[4..] == Encode(b[3..]);
      forall i | 4 <= i < |s| ensures IsEncodingChar(s[i]) {
        assert s[i] == Encode(b[3..])[i - 4];
      }
    }
  }

  /** The first 4k characters of an encoding depend only on the first 3k bytes. */
  lemma {:induction false} EncodePrefix(b: seq<Byte>, k: nat)
    requires 3 * k <= |b|
    ensures Encode(b)[..4 * k] == Encode(b[..3 * k])
    decreases k
  {
    if k > 0 {
      EncodePrefix(b[3..], k - 1);
      assert b[..3 * k][3..] == b[3..][..3 * (k - 1)];
      assert Encode(b)[4..][..4 * (k - 1)] == Encode(b)[4..4 * k];
    }
  }
}
