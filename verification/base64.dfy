/**
  The `btoa` step of nonce generation: standard base64 as defined in
  section 4 of RFC 4648 (alphabet of Table 1, `=` padding), applied to a
  "binary string" whose code units are bytes.  A strict decoder is given
  as the encoder's partner, and the two are proved inverse to each other.

  Both directions are split the way section 4 of RFC 4648 describes the
  encoding: 24-bit groups of bytes are cut into 6-bit groups (sextets),
  each sextet is one character of the alphabet, and a final partial group
  is completed with `=` characters.
 */
module Base64 {
  import opened Wrappers

  type byte = x: int | 0 <= x < 256

  /** A 6-bit group, the index of one character of the alphabet. */
  type sextet = x: int | 0 <= x < 64

  /** `btoa` throws a DOMException named InvalidCharacterError when a code unit is above 0xFF. */
  datatype DomException = InvalidCharacterError

  // ---------------------------------------------------------------- the alphabet

  /** The 64 characters of the base64 alphabet (RFC 4648, Table 1). */
  predicate IsAlphabetChar(c: char)
  {
    ('A' <= c <= 'Z') || ('a' <= c <= 'z') || ('0' <= c <= '9') || c == '+' || c == '/'
  }

  /** Table 1 of RFC 4648: value 0..25 is A..Z, 26..51 is a..z, 52..61 is 0..9, then `+` and `/`. */
  function CharOf(v: sextet): (c: char)
    ensures IsAlphabetChar(c)
  {
    if v < 26 then ('A' as int + v) as char
    else if v < 52 then ('a' as int + (v - 26)) as char
    else if v < 62 then ('0' as int + (v - 52)) as char
    else if v == 62 then '+'
    else '/'
  }

  /** The inverse of Table 1: the value of an alphabet character, None for any other character. */
  function ValueOf(c: char): (r: Option<sextet>)
    ensures r.Some? <==> IsAlphabetChar(c)
    ensures r.Some? ==> CharOf(r.value) == c
  {
    if 'A' <= c <= 'Z' then Some(c as int - 'A' as int)
    else if 'a' <= c <= 'z' then Some(c as int - 'a' as int + 26)
    else if '0' <= c <= '9' then Some(c as int - '0' as int + 52)
    else if c == '+' then Some(62)
    else if c == '/' then Some(63)
    else None
  }

  /** Distinct values have distinct characters: reading back a character gives its value. */
  lemma ValueOfCharOf(v: sextet)
    ensures ValueOf(CharOf(v)) == Some(v)
  {
  }

  /** The alphabet characters of a sequence of sextets. */
  function Chars(vs: seq<sextet>): (s: string)
    ensures |s| == |vs|
    ensures forall i | 0 <= i < |s| :: IsAlphabetChar(s[i])
  {
    seq(|vs|, i requires 0 <= i < |vs| => CharOf(vs[i]))
  }

  /** The sextets named by a text of alphabet characters; None if any character is outside the alphabet. */
  function Values(s: string): (r: Option<seq<sextet>>)
    ensures r.Some? <==> forall i | 0 <= i < |s| :: IsAlphabetChar(s[i])
    ensures r.Some? ==> |r.value| == |s| && Chars(r.value) == s
  {
    if forall i | 0 <= i < |s| :: IsAlphabetChar(s[i]) then
      var vs := seq(|s|, i requires 0 <= i < |s| => ValueOf(s[i]).value);
      assert Chars(vs) == s;
      Some(vs)
    else
      None
  }

  /** Reading back the characters of a sextet sequence gives the sequence. */
  lemma ValuesOfChars(vs: seq<sextet>)
    ensures Values(Chars(vs)) == Some(vs)
  {
    var s := Chars(vs);
    forall i | 0 <= i < |vs|
      ensures ValueOf(s[i]).value == vs[i]
    {
      ValueOfCharOf(vs[i]);
    }
    assert Values(s).value == vs;
  }

  // ---------------------------------------------------------------- bit groups

  /*
    A 3-byte group b0 b1 b2 is read as 24 bits and cut into four sextets
    s0 s1 s2 s3; the functions below name each cut and each join.
   */

  function Sextet0(b0: byte): sextet { b0 / 4 }
  function Sextet1(b0: byte, b1: byte): sextet { b0 % 4 * 16 + b1 / 16 }
  function Sextet2(b1: byte, b2: byte): sextet { b1 % 16 * 4 + b2 / 64 }
  function Sextet3(b2: byte): sextet { b2 % 64 }

  function Byte0(s0: sextet, s1: sextet): byte { s0 * 4 + s1 / 16 }
  function Byte1(s1: sextet, s2: sextet): byte { s1 % 16 * 16 + s2 / 4 }
  function Byte2(s2: sextet, s3: sextet): byte { s2 % 4 * 64 + s3 }

  lemma JoinByte0(b0: byte, b1: byte)
    ensures Byte0(Sextet0(b0), Sextet1(b0, b1)) == b0
  {
    assert Sextet1(b0, b1) / 16 == b0 % 4;
  }

  lemma JoinByte1(b0: byte, b1: byte, b2: byte)
    ensures Byte1(Sextet1(b0, b1), Sextet2(b1, b2)) == b1
  {
    assert Sextet1(b0, b1) % 16 == b1 / 16;
    assert Sextet2(b1, b2) / 4 == b1 % 16;
  }

  lemma JoinByte2(b1: byte, b2: byte)
    ensures Byte2(Sextet2(b1, b2), Sextet3(b2)) == b2
  {
    assert Sextet2(b1, b2) % 4 == b2 / 64;
  }

  lemma CutSextet0(s0: sextet, s1: sextet)
    ensures Sextet0(Byte0(s0, s1)) == s0
  {
  }

  lemma CutSextet1(s0: sextet, s1: sextet, s2: sextet)
    ensures Sextet1(Byte0(s0, s1), Byte1(s1, s2)) == s1
  {
    assert Byte0(s0, s1) % 4 == s1 / 16;
    assert Byte1(s1, s2) / 16 == s1 % 16;
  }

  lemma CutSextet2(s1: sextet, s2: sextet, s3: sextet)
    ensures Sextet2(Byte1(s1, s2), Byte2(s2, s3)) == s2
  {
    assert Byte1(s1, s2) % 16 == s2 / 4;
    assert Byte2(s2, s3) / 64 == s2 % 4;
  }

  lemma CutSextet3(s2: sextet, s3: sextet)
    ensures Sextet3(Byte2(s2, s3)) == s3
  {
  }

  /**
    The sextets of a byte sequence: four per whole 3-byte group, and for a
    final group of one or two bytes, two or three sextets whose missing bits
    are zero.
   */
  function SextetsOf(b: seq<byte>): (vs: seq<sextet>)
    ensures |vs| == (4 * |b| + 2) / 3
    decreases |b|
  {
    if |b| == 0 then []
    else if |b| == 1 then [Sextet0(b[0]), Sextet1(b[0], 0)]
    else if |b| == 2 then [Sextet0(b[0]), Sextet1(b[0], b[1]), Sextet2(b[1], 0)]
    else [Sextet0(b[0]), Sextet1(b[0], b[1]), Sextet2(b[1], b[2]), Sextet3(b[2])] + SextetsOf(b[3..])
  }

  /**
    The bytes of a sextet sequence, the inverse of SextetsOf: None when the
    length cannot come from whole bytes (one sextet left over) or when a
    final partial group has non-zero bits beyond its last byte.
   */
  function BytesOf(vs: seq<sextet>): (r: Option<seq<byte>>)
    ensures r.Some? ==> |vs| == (4 * |r.value| + 2) / 3
    decreases |vs|
  {
    if |vs| == 0 then Some([])
    else if |vs| == 1 then None
    else if |vs| == 2 then
      if vs[1] % 16 == 0 then Some([Byte0(vs[0], vs[1])]) else None
    else if |vs| == 3 then
      if vs[2] % 4 == 0 then Some([Byte0(vs[0], vs[1]), Byte1(vs[1], vs[2])]) else None
    else
      match BytesOf(vs[4..])
      case None => None
      case Some(rest) => Some([Byte0(vs[0], vs[1]), Byte1(vs[1], vs[2]), Byte2(vs[2], vs[3])] + rest)
  }

  /** Joining the sextets of a byte sequence gives back the bytes. */
  lemma {:induction false} BytesOfSextetsOf(b: seq<byte>)
    ensures BytesOf(SextetsOf(b)) == Some(b)
    decreases |b|
  {
    if |b| == 1 {
      JoinByte0(b[0], 0);
      assert b == [b[0]];
    } else if |b| == 2 {
      JoinByte0(b[0], b[1]);
      JoinByte1(b[0], b[1], 0);
      assert b == [b[0], b[1]];
    } else if |b| >= 3 {
      JoinByte0(b[0], b[1]);
      JoinByte1(b[0], b[1], b[2]);
      JoinByte2(b[1], b[2]);
      BytesOfSextetsOf(b[3..]);
      var vs := SextetsOf(b);
      assert vs[4..] == SextetsOf(b[3..]);
      assert b == [b[0], b[1], b[2]] + b[3..];
    }
  }

  /** Every sextet sequence BytesOf accepts is the sextet sequence of its result. */
  lemma {:induction false} SextetsOfBytesOf(vs: seq<sextet>)
    requires BytesOf(vs).Some?
    ensures SextetsOf(BytesOf(vs).value) == vs
    decreases |vs|
  {
    if |vs| == 2 {
      CutSextet0(vs[0], vs[1]);
      assert Sextet1(Byte0(vs[0], vs[1]), 0) == vs[1];
    } else if |vs| == 3 {
      CutSextet0(vs[0], vs[1]);
      CutSextet1(vs[0], vs[1], vs[2]);
      assert Sextet2(Byte1(vs[1], vs[2]), 0) == vs[2];
    } else if |vs| >= 4 {
      CutSextet0(vs[0], vs[1]);
      CutSextet1(vs[0], vs[1], vs[2]);
      CutSextet2(vs[1], vs[2], vs[3]);
      CutSextet3(vs[2], vs[3]);
      SextetsOfBytesOf(vs[4..]);
      var b := BytesOf(vs).value;
      assert b[3..] == BytesOf(vs[4..]).value;
      assert vs == vs[..4] + vs[4..];
    }
  }

  // ---------------------------------------------------------------- encoding and decoding

  /** Number of `=` characters that end the encoding of n bytes. */
  function PaddingLength(n: nat): (p: nat)
    ensures p < 3 && ((4 * n + 2) / 3 + p) % 4 == 0
  {
    if n % 3 == 0 then 0 else 3 - n % 3
  }

  function Padding(p: nat): (s: string)
    ensures |s| == p && forall i | 0 <= i < p :: s[i] == '='
  {
    seq(p, _ => '=')
  }

  /** The sextets of n bytes and their padding fill 4 characters per started 3-byte group. */
  lemma EncodedLength(n: nat)
    ensures (4 * n + 2) / 3 + PaddingLength(n) == 4 * ((n + 2) / 3)
  {
    var k := n / 3;
    assert n == 3 * k + n % 3;
  }

  /** Standard base64 encoding: one character per sextet, then `=` up to a multiple of four. */
  function Encode(b: seq<byte>): (s: string)
    ensures |s| == 4 * ((|b| + 2) / 3)
  {
    EncodedLength(|b|);
    Chars(SextetsOf(b)) + Padding(PaddingLength(|b|))
  }

  /** Number of `=` characters at the end of s (at most two, as base64 never has more). */
  function TrailingPadding(s: string): (p: nat)
    ensures p <= 2 && p <= |s|
    ensures forall i | |s| - p <= i < |s| :: s[i] == '='
  {
    if |s| >= 2 && s[|s| - 1] == '=' && s[|s| - 2] == '=' then 2
    else if |s| >= 1 && s[|s| - 1] == '=' then 1
    else 0
  }

  /** Strict base64 decoding: None unless the text is a canonical, padded encoding. */
  function Decode(s: string): (r: Option<seq<byte>>)
  {
    if |s| % 4 != 0 then None
    else
      var p := TrailingPadding(s);
      match Values(s[..|s| - p])
      case None => None
      case Some(vs) => BytesOf(vs)
  }

  /** The `=` characters Decode strips from an encoding are exactly the padding Encode added. */
  lemma TrailingPaddingOfEncode(b: seq<byte>)
    ensures TrailingPadding(Encode(b)) == PaddingLength(|b|)
    ensures Encode(b)[..|Encode(b)| - PaddingLength(|b|)] == Chars(SextetsOf(b))
  {
    var body, p := Chars(SextetsOf(b)), PaddingLength(|b|);
    var s := body + Padding(p);
    assert Encode(b) == s;
    if p == 2 {
      assert |body| >= 2;
    }
    assert s[..|s| - p] == body;
  }

  /** Decoding the encoding gives back the original bytes. */
  lemma DecodeEncode(b: seq<byte>)
    ensures Decode(Encode(b)) == Some(b)
  {
    var s, vs := Encode(b), SextetsOf(b);
    TrailingPaddingOfEncode(b);
    ValuesOfChars(vs);
    BytesOfSextetsOf(b);
    var k := (|b| + 2) / 3;
    assert |s| == 4 * k;
    assert |s| % 4 == 0;
    assert Values(s[..|s| - TrailingPadding(s)]) == Some(vs);
  }

  /**
    Only one padding length below three completes the (4n + 2) / 3 sextets
    of n bytes to a length that is a multiple of four.
   */
  lemma PaddingUnique(n: nat, len: nat, p: nat)
    requires p < 3 && p <= len && len % 4 == 0 && len - p == (4 * n + 2) / 3
    ensures p == PaddingLength(n)
  {
    var k := n / 3;
    assert n == 3 * k + n % 3;
    if n % 3 == 0 {
      assert (4 * n + 2) / 3 == 4 * k;
    } else if n % 3 == 1 {
      assert (4 * n + 2) / 3 == 4 * k + 2;
    } else {
      assert (4 * n + 2) / 3 == 4 * k + 3;
    }
  }

  /** A text that ends in p `=` characters is its first |s| - p characters followed by Padding(p). */
  lemma SplitPadding(s: string, p: nat)
    requires p <= |s| && forall i | |s| - p <= i < |s| :: s[i] == '='
    ensures s == s[..|s| - p] + Padding(p)
  {
    assert s[|s| - p..] == Padding(p);
    assert s == s[..|s| - p] + s[|s| - p..];
  }

  /** The pieces Decode works from, when it accepts a text. */
  lemma DecodeAccepted(s: string)
    requires Decode(s).Some?
    ensures |s| % 4 == 0
    ensures Values(s[..|s| - TrailingPadding(s)]).Some?
    ensures BytesOf(Values(s[..|s| - TrailingPadding(s)]).value) == Decode(s)
  {
  }

  /** Every text the decoder accepts is the encoding of what it decodes to. */
  lemma EncodeDecode(s: string)
    requires Decode(s).Some?
    ensures Encode(Decode(s).value) == s
  {
    DecodeAccepted(s);
    var p := TrailingPadding(s);
    var body := s[..|s| - p];
    var vs := Values(body).value;
    var b := Decode(s).value;
    SextetsOfBytesOf(vs);
    assert |vs| == |s| - p;
    PaddingUnique(|b|, |s|, p);
    SplitPadding(s, p);
    assert Chars(SextetsOf(b)) == body;
  }

  /** The decoder accepts exactly the encodings: the two are inverse bijections. */
  lemma DecodeIffEncode(s: string, b: seq<byte>)
    ensures Decode(s) == Some(b) <==> s == Encode(b)
  {
    if Decode(s) == Some(b) {
      EncodeDecode(s);
    }
    if s == Encode(b) {
      DecodeEncode(b);
    }
  }

  /** The test vectors of section 10 of RFC 4648 up to one whole group: "", "f", "fo", "foo". */
  lemma StandardVectorsShort()
    ensures Encode([]) == ""
    ensures Encode([0x66]) == "Zg=="
    ensures Encode([0x66, 0x6f]) == "Zm8="
    ensures Encode([0x66, 0x6f, 0x6f]) == "Zm9v"
  {
  }

  /** The test vectors of section 10 of RFC 4648 with a final partial group: "foob", "fooba". */
  lemma StandardVectorsPadded()
    ensures Encode([0x66, 0x6f, 0x6f, 0x62]) == "Zm9vYg=="
    ensures Encode([0x66, 0x6f, 0x6f, 0x62, 0x61]) == "Zm9vYmE="
  {
  }

  /** The test vector of section 10 of RFC 4648 with two whole groups: "foobar". */
  lemma StandardVectorFoobar()
    ensures Encode([0x66, 0x6f, 0x6f, 0x62, 0x61, 0x72]) == "Zm9vYmFy"
  {
  }

  /** The encoding is alphabet characters followed by exactly PaddingLength(|b|) `=` characters. */
  lemma EncodeShape(b: seq<byte>)
    ensures var s, p := Encode(b), PaddingLength(|b|);
      && p <= |s|
      && (forall i | 0 <= i < |s| - p :: IsAlphabetChar(s[i]))
      && (forall i | |s| - p <= i < |s| :: s[i] == '=')
  {
    var body := Chars(SextetsOf(b));
    assert Encode(b) == body + Padding(PaddingLength(|b|));
  }

  // ---------------------------------------------------------------- btoa

  /** `String.fromCharCode(...bytes)`: one code unit per byte, with the byte as its value. */
  function FromCharCode(bytes: seq<byte>): (s: string)
    ensures |s| == |bytes|
    ensures forall i | 0 <= i < |s| :: s[i] as int == bytes[i]
  {
    seq(|bytes|, i requires 0 <= i < |bytes| => bytes[i] as char)
  }

  /** `btoa(s)`: the base64 encoding of the bytes named by s's code units; fails on any code unit above 0xFF. */
  function Btoa(s: string): (r: Result<string, DomException>)
    ensures r.Success? <==> forall i | 0 <= i < |s| :: s[i] as int < 256
  {
    if forall i | 0 <= i < |s| :: s[i] as int < 256 then
      Success(Encode(seq(|s|, i requires 0 <= i < |s| => s[i] as int)))
    else
      Failure(InvalidCharacterError)
  }

  /** `btoa(String.fromCharCode(...bytes))` never throws, and yields the base64 encoding of the bytes. */
  lemma BtoaOfBytes(bytes: seq<byte>)
    ensures Btoa(FromCharCode(bytes)) == Success(Encode(bytes))
  {
    var s := FromCharCode(bytes);
    assert seq(|s|, i requires 0 <= i < |s| => s[i] as int) == bytes;
  }
}
