/**
  UTF-8: the encoder of json_tool.h, the tolerant decoder of json_writer.cc, and
  the grammar of section 4 of RFC 3629 as the reference both are compared with.

  The source works with shifts and masks. On unsigned numbers `x >> k` is
  `x / 2^k`, `x & (2^k - 1)` is `x % 2^k`, and `a | b` is `a + b` when the two
  have no bit in common; `EncoderBits` and `DecoderBits` prove these readings
  for the expressions used here, on 32-bit words.
 */
module Utf8 {
  import opened Bytes

  const REPLACEMENT_CHARACTER: nat := 0xFFFD

  // A Unicode scalar value: any code point that is not a surrogate.
  predicate Scalar(cp: int) {
    0 <= cp < 0xD800 || 0xE000 <= cp <= 0x10FFFF
  }

  lemma EncoderBits(cp: bv32)
    ensures 0x80 | (0x3F & cp) == 0x80 + cp % 64
    ensures 0xC0 | (0x1F & (cp >> 6)) == 0xC0 + cp / 64 % 32
    ensures 0x80 | (0x3F & (cp >> 6)) == 0x80 + cp / 64 % 64
    ensures 0xE0 | (0xF & (cp >> 12)) == 0xE0 + cp / 4096 % 16
    ensures 0x80 | (0x3F & (cp >> 12)) == 0x80 + cp / 4096 % 64
    ensures 0xF0 | (0x7 & (cp >> 18)) == 0xF0 + cp / 0x40000 % 8
  {
  }

  lemma DecoderBits(b0: bv32, b1: bv32, b2: bv32, b3: bv32)
    ensures ((b0 & 0x1F) << 6) | (b1 & 0x3F) == b0 % 32 * 64 + b1 % 64
    ensures ((b0 & 0x0F) << 12) | ((b1 & 0x3F) << 6) | (b2 & 0x3F)
         == b0 % 16 * 4096 + b1 % 64 * 64 + b2 % 64
    ensures ((b0 & 0x07) << 18) | ((b1 & 0x3F) << 12) | ((b2 & 0x3F) << 6) | (b3 & 0x3F)
         == b0 % 8 * 0x40000 + b1 % 64 * 4096 + b2 % 64 * 64 + b3 % 64
  {
  }

  function CodePointToUTF8(cp: nat): bytes {
    if cp <= 0x7F then [cp]
    else if cp <= 0x7FF then [0xC0 + cp / 64 % 32, 0x80 + cp % 64]
    else if cp <= 0xFFFF then [0xE0 + cp / 4096 % 16, 0x80 + cp / 64 % 64, 0x80 + cp % 64]
    else if cp <= 0x10FFFF then
      [0xF0 + cp / 0x40000 % 8, 0x80 + cp / 4096 % 64, 0x80 + cp / 64 % 64, 0x80 + cp % 64]
    else []
  }

  // The code point read, and how far the pointer moved: it is left on the last byte read.
  datatype Step = Step(cp: nat, last: nat)

  function Join2(a: int, b: int): int { a % 32 * 64 + b % 64 }
  function Join3(a: int, b: int, c: int): int { a % 16 * 4096 + b % 64 * 64 + c % 64 }
  function Join4(a: int, b: int, c: int, d: int): int {
    a % 8 * 0x40000 + b % 64 * 4096 + c % 64 * 64 + d % 64
  }

  function Utf8ToCodepoint(s: bytes): (st: Step)
    requires s != []
    ensures st.last < |s|
    ensures st.cp < 0x200000 && !(0xD800 <= st.cp <= 0xDFFF)
    ensures s[0] < 0x80 <==> st.cp < 0x80
    ensures s[0] < 0x80 ==> st == Step(s[0], 0)
  {
    var first := s[0];
    if first < 0x80 then Step(first, 0)
    else if first < 0xE0 then
      if |s| < 2 then Step(REPLACEMENT_CHARACTER, 0)
      else
        var calculated := Join2(first, s[1]);
        Step(if calculated < 0x80 then REPLACEMENT_CHARACTER else calculated, 1)
    else if first < 0xF0 then
      if |s| < 3 then Step(REPLACEMENT_CHARACTER, 0)
      else
        var calculated := Join3(first, s[1], s[2]);
        Step(if 0xD800 <= calculated <= 0xDFFF || calculated < 0x800
             then REPLACEMENT_CHARACTER else calculated, 2)
    else if first < 0xF8 then
      if |s| < 4 then Step(REPLACEMENT_CHARACTER, 0)
      else
        var calculated := Join4(first, s[1], s[2], s[3]);
        Step(if calculated < 0x10000 then REPLACEMENT_CHARACTER else calculated, 3)
    else Step(REPLACEMENT_CHARACTER, 0)
  }

  predicate Tail(b: byte) { 0x80 <= b <= 0xBF }

  // The length of the UTF8-char (RFC 3629, section 4) at the front of s; 0 if there is none.
  function CharLength(s: bytes): (n: nat)
    ensures n <= |s| && n <= 4
  {
    if |s| >= 1 && s[0] <= 0x7F then 1
    else if |s| >= 2 && 0xC2 <= s[0] <= 0xDF && Tail(s[1]) then 2
    else if && |s| >= 3
            && (|| (s[0] == 0xE0 && 0xA0 <= s[1] <= 0xBF)
                || (0xE1 <= s[0] <= 0xEC && Tail(s[1]))
                || (s[0] == 0xED && 0x80 <= s[1] <= 0x9F)
                || (0xEE <= s[0] <= 0xEF && Tail(s[1])))
            && Tail(s[2]) then 3
    else if && |s| >= 4
            && (|| (s[0] == 0xF0 && 0x90 <= s[1] <= 0xBF)
                || (0xF1 <= s[0] <= 0xF3 && Tail(s[1]))
                || (s[0] == 0xF4 && 0x80 <= s[1] <= 0x8F))
            && Tail(s[2]) && Tail(s[3]) then 4
    else 0
  }

  // UTF8-octets: a sequence of UTF8-chars.
  predicate ValidUtf8(s: bytes)
    decreases |s|
  {
    s == [] || (CharLength(s) > 0 && ValidUtf8(s[CharLength(s)..]))
  }

  // The number with base-64 digits x, y, z, w.
  function Base64(x: int, y: int, z: int, w: int): int { ((x * 64 + y) * 64 + z) * 64 + w }

  // Within their ranges, lead and tail bytes are base-64 digits.
  lemma JoinDigits(a: byte, b: byte, c: byte, d: byte)
    requires Tail(b) && Tail(c) && Tail(d)
    ensures 0xC0 <= a <= 0xDF ==> Join2(a, b) == Base64(0, 0, a - 0xC0, b - 0x80)
    ensures 0xE0 <= a <= 0xEF ==> Join3(a, b, c) == Base64(0, a - 0xE0, b - 0x80, c - 0x80)
    ensures 0xF0 <= a <= 0xF7 ==> Join4(a, b, c, d) == Base64(a - 0xF0, b - 0x80, c - 0x80, d - 0x80)
  {
  }

  // The encoder writes the base-64 digits of the code point.
  lemma EncodeDigits(cp: nat, x: int, y: int, z: int, w: int)
    requires 0 <= x && 0 <= y < 64 && 0 <= z < 64 && 0 <= w < 64 && cp == Base64(x, y, z, w)
    ensures 0x80 <= cp <= 0x7FF ==> CodePointToUTF8(cp) == [0xC0 + z, 0x80 + w]
    ensures 0x7FF < cp <= 0xFFFF ==> CodePointToUTF8(cp) == [0xE0 + y, 0x80 + z, 0x80 + w]
    ensures 0xFFFF < cp <= 0x10FFFF ==> CodePointToUTF8(cp) == [0xF0 + x, 0x80 + y, 0x80 + z, 0x80 + w]
  {
    assert cp / 64 == (x * 64 + y) * 64 + z;
    assert cp / 4096 == cp / 64 / 64 == x * 64 + y;
    assert cp / 0x40000 == cp / 4096 / 64 == x;
  }

  // A sequence of lead and tail bytes that spells a scalar value, and not an overlong one,
  // is one character for the grammar and for the decoder.
  lemma DecodeDigits(s: bytes, cp: nat, n: nat)
    requires Scalar(cp) && 2 <= n <= 4 && n <= |s|
    requires Tail(s[1]) && (n > 2 ==> Tail(s[2])) && (n > 3 ==> Tail(s[3]))
    requires n == 2 ==> cp >= 0x80 && 0xC0 <= s[0] <= 0xDF && cp == Base64(0, 0, s[0] - 0xC0, s[1] - 0x80)
    requires n == 3 ==> cp >= 0x800 && 0xE0 <= s[0] <= 0xEF
                        && cp == Base64(0, s[0] - 0xE0, s[1] - 0x80, s[2] - 0x80)
    requires n == 4 ==> cp >= 0x10000 && 0xF0 <= s[0] <= 0xF7
                        && cp == Base64(s[0] - 0xF0, s[1] - 0x80, s[2] - 0x80, s[3] - 0x80)
    ensures CharLength(s) == n && Utf8ToCodepoint(s) == Step(cp, n - 1)
  {
    var c := if n > 2 then s[2] else 0x80;
    var d := if n > 3 then s[3] else 0x80;
    JoinDigits(s[0], s[1], c, d);
  }

  /** What the encoder writes for a scalar value is one UTF8-char, and the decoder undoes it,
      ending on its last byte, whatever follows. */
  lemma EncodeThenDecode(cp: nat, rest: bytes)
    requires Scalar(cp)
    ensures var e := CodePointToUTF8(cp);
            && e != []
            && CharLength(e + rest) == |e|
            && Utf8ToCodepoint(e + rest) == Step(cp, |e| - 1)
  {
    if cp > 0x7F {
      var w, z, y, x := cp % 64, cp / 64 % 64, cp / 64 / 64 % 64, cp / 64 / 64 / 64;
      CodePointDigits(cp, x, y, z, w);
      EncodeDigits(cp, x, y, z, w);
      hide CodePointToUTF8, CharLength, Utf8ToCodepoint;
      DecodeDigits(CodePointToUTF8(cp) + rest, cp, |CodePointToUTF8(cp)|);
    }
  }

  lemma CodePointDigits(cp: nat, x: int, y: int, z: int, w: int)
    requires cp <= 0x10FFFF
    requires w == cp % 64 && z == cp / 64 % 64 && y == cp / 64 / 64 % 64 && x == cp / 64 / 64 / 64
    ensures cp == Base64(x, y, z, w) && 0 <= x <= 4 && 0 <= y < 64 && 0 <= z < 64 && 0 <= w < 64
    ensures cp <= 0xFFFF ==> x == 0
    ensures cp <= 0x7FF ==> y == 0
  {
    assert cp == cp / 64 * 64 + w && cp / 64 == cp / 64 / 64 * 64 + z && cp / 64 / 64 == x * 64 + y;
  }

  // The number a UTF8-char of n bytes spells.
  function CharValue(s: bytes, n: nat): int
    requires n <= |s| && 1 <= n <= 4
  {
    if n == 1 then s[0]
    else if n == 2 then Base64(0, 0, s[0] as int - 0xC0, s[1] as int - 0x80)
    else if n == 3 then Base64(0, s[0] as int - 0xE0, s[1] as int - 0x80, s[2] as int - 0x80)
    else Base64(s[0] as int - 0xF0, s[1] as int - 0x80, s[2] as int - 0x80, s[3] as int - 0x80)
  }

  // The grammar's ranges exclude exactly the surrogates and the overlong forms.
  lemma CharRange(s: bytes, n: nat)
    requires CharLength(s) == n > 0
    ensures Scalar(CharValue(s, n))
    ensures n == 2 ==> 0x80 <= CharValue(s, n) <= 0x7FF
    ensures n == 3 ==> 0x800 <= CharValue(s, n) <= 0xFFFF
    ensures n == 4 ==> 0x10000 <= CharValue(s, n)
  {
  }

  lemma EncodeChar(s: bytes, n: nat)
    requires CharLength(s) == n > 0
    ensures CharValue(s, n) >= 0 && CodePointToUTF8(CharValue(s, n)) == s[..n]
  {
    CharRange(s, n);
    if n == 2 {
      EncodeDigits(CharValue(s, n), 0, 0, s[0] - 0xC0, s[1] - 0x80);
    } else if n == 3 {
      EncodeDigits(CharValue(s, n), 0, s[0] - 0xE0, s[1] - 0x80, s[2] - 0x80);
    } else if n == 4 {
      EncodeDigits(CharValue(s, n), s[0] - 0xF0, s[1] - 0x80, s[2] - 0x80, s[3] - 0x80);
    }
  }

  /** Conversely a UTF8-char decodes to a scalar value that the encoder writes back as it was. */
  lemma DecodeThenEncode(s: bytes)
    requires CharLength(s) > 0
    ensures var st := Utf8ToCodepoint(s);
            Scalar(st.cp) && st.last == CharLength(s) - 1
            && CodePointToUTF8(st.cp) == s[..CharLength(s)]
  {
    var n := CharLength(s);
    CharRange(s, n);
    EncodeChar(s, n);
    if n > 1 {
      DecodeDigits(s, CharValue(s, n), n);
    }
  }

  // Any bytes at all ------------------------------------------------------------------------------

  // The length of the sequence a byte above 0x7F announces; a tail byte is taken for the lead of two, and
  // the bytes from 248 on announce nothing.
  function Announced(lead: byte): nat {
    if lead < 224 then 2 else if lead < 240 then 3 else if lead < 248 then 4 else 0
  }

  // The bits of some bytes: the low six of each, behind those there are.
  function SixBits(bits: nat, s: bytes): nat
    decreases |s|
  {
    if s == [] then bits else SixBits(bits * 64 + s[0] % 64, s[1..])
  }

  // The bits of the lead byte of a sequence that belong to the code point: five, four or three.
  function LeadBits(lead: byte): nat {
    if lead < 224 then lead % 32 else if lead < 240 then lead % 16 else lead % 8
  }

  // The smallest code point that takes that many bytes.
  function Smallest(n: nat): nat { if n == 2 then 128 else if n == 3 then 2048 else 65536 }

  /** What the decoder does with any bytes, well-formed or not: where the announced sequence is cut short it
      replaces one byte; otherwise it takes the whole sequence for its bits, whatever its bytes, and
      replaces it if it is overlong or a surrogate (but not if it is beyond Unicode). */
  lemma DecodedExactly(s: bytes)
    requires s != [] && s[0] >= 128
    ensures var n := Announced(s[0]);
            if n == 0 || |s| < n then Utf8ToCodepoint(s) == Step(65533, 0)
            else
              var bits := SixBits(LeadBits(s[0]), s[1..n]);
              Utf8ToCodepoint(s) == Step(if bits < Smallest(n) || 55296 <= bits < 57344 then 65533 else bits, n - 1)
  {
    var n := Announced(s[0]);
    if n != 0 && |s| >= n {
      SixBitsOf(LeadBits(s[0]), s[1..n]);
    }
  }

  lemma SixBitsOf(bits: nat, s: bytes)
    requires 1 <= |s| <= 3
    ensures SixBits(bits, s)
         == if |s| == 1 then bits * 64 + s[0] % 64
            else if |s| == 2 then bits * 4096 + s[0] as int % 64 * 64 + s[1] % 64
            else bits * 262144 + s[0] as int % 64 * 4096 + s[1] as int % 64 * 64 + s[2] % 64
  {
    var one := bits * 64 + s[0] % 64;
    assert SixBits(bits, s) == SixBits(one, s[1..]);
    if |s| == 1 {
      assert SixBits(one, s[1..]) == one;
    } else {
      var two := one * 64 + s[1] % 64;
      assert s[1..][0] == s[1] && s[1..][1..] == s[2..];
      assert SixBits(one, s[1..]) == SixBits(two, s[2..]);
      if |s| == 2 {
        assert SixBits(two, s[2..]) == two;
      } else {
        assert s[2..][0] == s[2] && s[2..][1..] == [];
        assert SixBits(two, s[2..]) == two * 64 + s[2] % 64;
      }
    }
  }

  /** The encoder writes three bytes for a surrogate, too, and nothing for a number beyond Unicode. */
  lemma EncodedAnyway(cp: nat)
    ensures 55296 <= cp < 57344 ==> CodePointToUTF8(cp) == [237, 160 + (cp - 55296) / 64, 128 + cp % 64]
    ensures cp > 1114111 ==> CodePointToUTF8(cp) == []
  {
  }
}
