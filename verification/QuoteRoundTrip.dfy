/** Quoting and unquoting, composed: what a string becomes on its way through a document. */
module QuoteRoundTrip {
  import opened Bytes
  import opened Utf8
  import opened Quoting
  import opened Unquoting

  // The pieces of a quoted string are read back one by one -----------------------------------

  lemma HexDigitUndone(d: int)
    requires 0 <= d < 16
    ensures HexValue(HexDigit(d)) == d
  {
  }

  lemma HexUndone(x: nat, rest: bytes)
    requires x < 0x10000
    ensures DecodeHex(ToHex16Bit(x) + rest) == Hex(x)
  {
    hide HexDigit, HexValue;
    var h, l := x / 256, x % 256;
    var t := ToHex16Bit(x) + rest;
    assert h % 256 == h;
    assert t[0] == HexDigit(h / 16) && t[1] == HexDigit(h % 16) && t[2] == HexDigit(l / 16) && t[3] == HexDigit(l % 16);
    HexDigitUndone(h / 16);
    HexDigitUndone(h % 16);
    HexDigitUndone(l / 16);
    HexDigitUndone(l % 16);
  }

  // A code point beyond 0x10FFFF, which only malformed input yields, wraps around in the ten-bit
  // fields of a surrogate pair.
  function Folded(cp: nat): nat {
    if cp <= 0x10FFFF then cp else 0x10000 + (cp - 0x10000) % 0x100000
  }

  lemma FoldedIsScalar(cp: nat)
    requires !(0xD800 <= cp <= 0xDFFF)
    ensures Scalar(Folded(cp))
  {
  }

  lemma HexPair(hi: nat, lo: nat, rest: bytes)
    requires HighSurrogate(hi) && lo < 0x10000
    ensures DecodeTurn(HexEscape(hi) + HexEscape(lo) + rest)
         == Emit(CodePointToUTF8(0x10000 + hi % 1024 * 1024 + lo % 1024), 12)
  {
    assert |ToHex16Bit(hi)| == 4;
    hide DecodeHex, ToHex16Bit, CodePointToUTF8, EscapeMeaning;
    var s := HexEscape(hi) + HexEscape(lo) + rest;
    var t := s[2..];
    assert t == ToHex16Bit(hi) + (HexEscape(lo) + rest);
    HexUndone(hi, HexEscape(lo) + rest);
    assert t[4] == BACKSLASH && t[5] == LETTER_U;
    assert t[6..] == ToHex16Bit(lo) + rest;
    HexUndone(lo, rest);
  }

  lemma TenBitFields(v: nat)
    ensures v % 0x100000 == v / 1024 % 1024 * 1024 + v % 1024
    ensures (0xD800 + v / 1024 % 1024) % 1024 == v / 1024 % 1024
    ensures (0xDC00 + v % 1024) % 1024 == v % 1024
  {
    var b, q := v % 1024, v / 1024;
    var a, p := q % 1024, q / 1024;
    assert v == q * 1024 + b && q == p * 1024 + a;
    assert v == p * 0x100000 + (a * 1024 + b) && 0 <= a * 1024 + b < 0x100000;
  }

  lemma FoldedFields(cp: nat)
    requires cp >= 0x10000
    ensures var v := cp - 0x10000;
            Folded(cp) == 0x10000 + (0xD800 + v / 1024 % 1024) % 1024 * 1024 + (0xDC00 + v % 1024) % 1024
  {
    TenBitFields(cp - 0x10000);
  }

  lemma PairUndone(cp: nat, rest: bytes)
    requires cp >= 0x10000
    ensures DecodeTurn(EscapeCodePoint(cp) + rest) == Emit(CodePointToUTF8(Folded(cp)), |EscapeCodePoint(cp)|)
  {
    var v := cp - 0x10000;
    var hi, lo := 0xD800 + v / 1024 % 1024, 0xDC00 + v % 1024;
    assert |HexEscape(hi)| == 6 && |HexEscape(lo)| == 6 && EscapeCodePoint(cp) == HexEscape(hi) + HexEscape(lo);
    hide HexEscape, CodePointToUTF8, DecodeTurn, EscapeCodePoint, Folded;
    HexPair(hi, lo, rest);
    FoldedFields(cp);
  }

  lemma HexEscapeUndone(x: nat, rest: bytes)
    requires x < 0xD800 || 0xDBFF < x < 0x10000
    ensures DecodeTurn(HexEscape(x) + rest) == Emit(CodePointToUTF8(x), 6)
  {
    var s := HexEscape(x) + rest;
    assert s[2..] == ToHex16Bit(x) + rest;
    HexUndone(x, rest);
  }

  lemma ByteUndone(c: byte, rest: bytes)
    ensures DecodeTurn(EscapeByte(c) + rest) == Emit([c], |EscapeByte(c)|)
  {
    if ShortEscape(c) == [] && c < 0x20 {
      HexEscapeUndone(c, rest);
    }
  }

  lemma CodePointUndone(cp: nat, rest: bytes)
    requires !(0xD800 <= cp <= 0xDFFF)
    ensures DecodeTurn(EscapeCodePoint(cp) + rest) == Emit(CodePointToUTF8(Folded(cp)), |EscapeCodePoint(cp)|)
  {
    if cp < 0x80 {
      ByteUndone(cp, rest);
    } else if cp < 0x10000 {
      HexEscapeUndone(cp, rest);
    } else {
      PairUndone(cp, rest);
    }
  }

  // Whole strings ---------------------------------------------------------------------------

  /** With emitUTF8 set, decoding undoes quoting on every byte string, valid UTF-8 or not. */
  lemma {:induction false} Utf8ModeRoundTrip(s: bytes)
    ensures DecodeText(Escaped(s, true)) == Decoded(s)
    decreases |s|
  {
    if s != [] {
      var rest := Escaped(s[1..], true);
      ByteUndone(s[0], rest);
      Utf8ModeRoundTrip(s[1..]);
      assert Escaped(s, true)[|EscapeByte(s[0])|..] == rest;
      assert s == [s[0]] + s[1..];
    }
  }

  // What the default mode makes of a string: every malformed character replaced.
  function Sanitized(s: bytes): bytes
    decreases |s|
  {
    if s == [] then []
    else
      var st := Utf8ToCodepoint(s);
      CodePointToUTF8(Folded(st.cp)) + Sanitized(s[st.last + 1..])
  }

  /** In the default mode decoding what was quoted always succeeds, with the sanitized string. */
  lemma {:induction false} AsciiModeDecodes(s: bytes)
    ensures DecodeText(Escaped(s, false)) == Decoded(Sanitized(s))
    decreases |s|
  {
    if s != [] {
      hide EscapeCodePoint, CodePointToUTF8, Folded, DecodeTurn, DecodeText, Utf8ToCodepoint;
      var st := Utf8ToCodepoint(s);
      var tail := s[st.last + 1..];
      CodePointUndone(st.cp, Escaped(tail, false));
      AsciiModeDecodes(tail);
      DecodeFirst(EscapeCodePoint(st.cp), Escaped(tail, false), CodePointToUTF8(Folded(st.cp)));
    }
  }

  // Decoding a text that begins with a piece the decoder takes in one turn.
  lemma DecodeFirst(piece: bytes, rest: bytes, emitted: bytes)
    requires piece != [] && DecodeTurn(piece + rest) == Emit(emitted, |piece|)
    ensures DecodeText(piece + rest) == Prepend(emitted, DecodeText(rest))
  {
    hide DecodeTurn;
    assert (piece + rest)[|piece|..] == rest;
  }

  lemma {:induction false} SanitizedIsValid(s: bytes)
    ensures ValidUtf8(Sanitized(s))
    decreases |s|
  {
    if s != [] {
      hide CodePointToUTF8, CharLength, Folded, Scalar;
      var st := Utf8ToCodepoint(s);
      var e, rest := CodePointToUTF8(Folded(st.cp)), Sanitized(s[st.last + 1..]);
      FoldedIsScalar(st.cp);
      EncodeThenDecode(Folded(st.cp), rest);
      SanitizedIsValid(s[st.last + 1..]);
      assert (e + rest)[|e|..] == rest;
    }
  }

  lemma ValidCharIsKept(s: bytes)
    requires CharLength(s) > 0
    ensures Sanitized(s) == s[..CharLength(s)] + Sanitized(s[CharLength(s)..])
  {
    hide Utf8ToCodepoint, CodePointToUTF8, CharLength;
    DecodeThenEncode(s);
  }

  lemma {:induction false} ValidIsKept(s: bytes)
    requires ValidUtf8(s)
    ensures Sanitized(s) == s
    decreases |s|
  {
    if s != [] {
      var n := CharLength(s);
      assert ValidUtf8(s[n..]);
      hide Sanitized, CharLength, ValidUtf8;
      ValidCharIsKept(s);
      ValidIsKept(s[n..]);
      Rejoin(s, n);
    }
  }

  lemma WrappedFields(v: nat)
    ensures var w := v % 0x100000; w / 1024 % 1024 == v / 1024 % 1024 && w % 1024 == v % 1024
  {
    TenBitFields(v);
    var w, a, b := v % 0x100000, v / 1024 % 1024, v % 1024;
    assert w == a * 1024 + b;
    assert w / 1024 == a;
  }

  lemma FoldedEscape(cp: nat)
    ensures EscapeCodePoint(Folded(cp)) == EscapeCodePoint(cp)
  {
    if cp > 0x10FFFF {
      WrappedFields(cp - 0x10000);
    }
  }

  lemma {:induction false} QuotingSanitized(s: bytes)
    ensures Escaped(Sanitized(s), false) == Escaped(s, false)
    decreases |s|
  {
    if s != [] {
      hide CodePointToUTF8, EscapeCodePoint, CharLength, Folded, Scalar;
      var st := Utf8ToCodepoint(s);
      var e, tail := CodePointToUTF8(Folded(st.cp)), s[st.last + 1..];
      FoldedIsScalar(st.cp);
      EncodeThenDecode(Folded(st.cp), Sanitized(tail));
      assert (e + Sanitized(tail))[|e|..] == Sanitized(tail);
      FoldedEscape(st.cp);
      QuotingSanitized(tail);
    }
  }

  /** The default mode: what comes back is valid UTF-8, is the string itself exactly when that was
      valid, and quotes to the same document text again. */
  lemma AsciiModeRoundTrip(s: bytes)
    ensures var back := DecodeText(Escaped(s, false));
            && back.Decoded? && ValidUtf8(back.text)
            && (back.text == s <==> ValidUtf8(s))
            && Quoted(back.text, false) == Quoted(s, false)
  {
    AsciiModeDecodes(s);
    SanitizedIsValid(s);
    QuotingSanitized(s);
    if ValidUtf8(s) {
      ValidIsKept(s);
    }
  }

  // Quoted strings are complete tokens --------------------------------------------------------

  // A piece without quotes or backslashes, or one escape, followed by such pieces.
  lemma ScanEscaped(e: bytes, rest: bytes)
    requires |e| >= 2 && e[0] == BACKSLASH && forall k | 2 <= k < |e| :: e[k] != QUOTE && e[k] != BACKSLASH
    requires ScanString(rest, QUOTE) > 0
    ensures ScanString(e + rest, QUOTE) == |e| + ScanString(rest, QUOTE)
  {
    assert (e + rest)[2..] == e[2..] + rest;
    ScanOver(e[2..], rest);
  }

  lemma {:induction false} ScanOver(e: bytes, rest: bytes)
    requires forall k | 0 <= k < |e| :: e[k] != QUOTE && e[k] != BACKSLASH
    requires ScanString(rest, QUOTE) > 0
    ensures ScanString(e + rest, QUOTE) == |e| + ScanString(rest, QUOTE)
    decreases |e|
  {
    if e == [] {
      assert e + rest == rest;
    } else {
      assert (e + rest)[1..] == e[1..] + rest;
      ScanOver(e[1..], rest);
    }
  }

  lemma ScanHexEscape(x: nat, rest: bytes)
    requires ScanString(rest, QUOTE) > 0
    ensures ScanString(HexEscape(x) + rest, QUOTE) == |HexEscape(x)| + ScanString(rest, QUOTE)
  {
    ScanEscaped(HexEscape(x), rest);
  }

  lemma ScanPair(hi: nat, lo: nat, rest: bytes)
    requires ScanString(rest, QUOTE) > 0
    ensures var e := HexEscape(hi) + HexEscape(lo); ScanString(e + rest, QUOTE) == |e| + ScanString(rest, QUOTE)
  {
    ScanHexEscape(lo, rest);
    ScanHexEscape(hi, HexEscape(lo) + rest);
    assert HexEscape(hi) + HexEscape(lo) + rest == HexEscape(hi) + (HexEscape(lo) + rest);
  }

  lemma ScanByte(c: byte, rest: bytes)
    requires ScanString(rest, QUOTE) > 0
    ensures ScanString(EscapeByte(c) + rest, QUOTE) == |EscapeByte(c)| + ScanString(rest, QUOTE)
  {
    if ShortEscape(c) != [] {
      ScanEscaped(EscapeByte(c), rest);
    } else if c < 0x20 {
      ScanHexEscape(c, rest);
    } else {
      ScanOver([c], rest);
    }
  }

  lemma ScanWide(cp: nat, rest: bytes)
    requires ScanString(rest, QUOTE) > 0 && cp >= 0x10000
    ensures ScanString(EscapeCodePoint(cp) + rest, QUOTE) == |EscapeCodePoint(cp)| + ScanString(rest, QUOTE)
  {
    hide ScanString, HexEscape, ToHex16Bit;
    var v := cp - 0x10000;
    var hi, lo := 0xD800 + v / 1024 % 1024, 0xDC00 + v % 1024;
    ScanPair(hi, lo, rest);
    assert EscapeCodePoint(cp) == HexEscape(hi) + HexEscape(lo);
  }

  lemma ScanCodePoint(cp: nat, rest: bytes)
    requires ScanString(rest, QUOTE) > 0
    ensures ScanString(EscapeCodePoint(cp) + rest, QUOTE) == |EscapeCodePoint(cp)| + ScanString(rest, QUOTE)
  {
    if cp < 0x80 {
      ScanByte(cp, rest);
      assert EscapeCodePoint(cp) == EscapeByte(cp);
    } else if cp < 0x10000 {
      ScanHexEscape(cp, rest);
      assert EscapeCodePoint(cp) == HexEscape(cp);
    } else {
      ScanWide(cp, rest);
    }
  }

  lemma QuoteCloses(rest: bytes)
    ensures ScanString([QUOTE] + rest, QUOTE) == 1
  {
  }

  /** In both modes a quoted string is one complete string token, whatever follows it. */
  lemma {:induction false} QuotedIsOneToken(s: bytes, emitUTF8: bool, rest: bytes)
    ensures var e := Escaped(s, emitUTF8); ScanString(e + [QUOTE] + rest, QUOTE) == |e| + 1
    decreases |s|
  {
    hide ScanString, EscapeByte, EscapeCodePoint, Utf8ToCodepoint;
    if s == [] {
      QuoteCloses(rest);
      assert Escaped(s, emitUTF8) + [QUOTE] + rest == [QUOTE] + rest;
    } else {
      var piece, size := if emitUTF8 then EscapeByte(s[0]) else EscapeCodePoint(Utf8ToCodepoint(s).cp),
                         if emitUTF8 then 1 else Utf8ToCodepoint(s).last + 1;
      var tail := Escaped(s[size..], emitUTF8) + [QUOTE] + rest;
      QuotedIsOneToken(s[size..], emitUTF8, rest);
      assert Escaped(s, emitUTF8) + [QUOTE] + rest == piece + tail;
      if emitUTF8 {
        ScanByte(s[0], tail);
      } else {
        ScanCodePoint(Utf8ToCodepoint(s).cp, tail);
      }
    }
  }
}
