/** How the reader finds the end of a string token, and how it decodes the text between the quotes. */
module Unquoting {
  import opened Bytes
  import opened Utf8
  import opened Quoting

  // The messages decodeString, decodeUnicodeCodePoint and decodeUnicodeEscapeSequence can give.
  datatype StringError =
    | EmptyEscape          // "Empty escape sequence in string"
    | BadEscape            // "Bad escape sequence in string"
    | FourDigitsExpected   // "Bad unicode escape sequence in string: four digits expected."
    | HexDigitExpected     // "Bad unicode escape sequence in string: hexadecimal digit expected."
    | SixMoreExpected      // "additional six characters expected to parse unicode surrogate pair."
    | SecondHalfExpected   // "expecting another \u token to begin the second half of a ... pair"

  datatype StringResult = Decoded(text: bytes) | BadString(error: StringError)

  function Prepend(t: bytes, r: StringResult): StringResult {
    match r
    case Decoded(text) => Decoded(t + text)
    case BadString(_) => r
  }

  /** readString after the opening quote q: how many bytes it consumes up to and including
      the closing quote, or -1 when there is none, in which case it consumes them all. */
  function ScanString(s: bytes, q: byte): (n: int)
    ensures -1 <= n <= |s| && n != 0
    ensures n > 0 ==> s[n - 1] == q
    decreases |s|
  {
    if s == [] then -1
    else if s[0] == BACKSLASH then
      if |s| == 1 then -1
      else
        var n := ScanString(s[2..], q);
        if n < 0 then -1 else n + 2
    else if s[0] == q then 1
    else
      var n := ScanString(s[1..], q);
      if n < 0 then -1 else n + 1
  }

  function HexValue(c: byte): (v: int)
    ensures -1 <= v < 16
  {
    if 0x30 <= c <= 0x39 then c - 0x30
    else if 0x61 <= c <= 0x66 then c - 0x61 + 10
    else if 0x41 <= c <= 0x46 then c - 0x41 + 10
    else -1
  }

  // decodeUnicodeEscapeSequence: the four digits after \u.
  datatype HexResult = Hex(unicode: nat) | BadHex(error: StringError)

  function DecodeHex(s: bytes): (r: HexResult)
    ensures r.Hex? ==> |s| >= 4 && r.unicode < 0x10000
                       && HexValue(s[0]) >= 0 && HexValue(s[1]) >= 0 && HexValue(s[2]) >= 0 && HexValue(s[3]) >= 0
    ensures r.BadHex? ==> r.error in {FourDigitsExpected, HexDigitExpected}
  {
    if |s| < 4 then BadHex(FourDigitsExpected)
    else if HexValue(s[0]) < 0 || HexValue(s[1]) < 0 || HexValue(s[2]) < 0 || HexValue(s[3]) < 0 then
      BadHex(HexDigitExpected)
    else Hex(((HexValue(s[0]) * 16 + HexValue(s[1])) * 16 + HexValue(s[2])) * 16 + HexValue(s[3]))
  }

  // decodeUnicodeCodePoint: one \uXXXX, or the two of a surrogate pair; `used` counts from after the first \u.
  datatype CodePointResult = CodePoint(unicode: nat, used: nat) | BadCodePoint(error: StringError)

  predicate HighSurrogate(u: int) { 0xD800 <= u <= 0xDBFF }

  function DecodeCodePoint(s: bytes): (r: CodePointResult)
    ensures r.CodePoint? ==> 4 <= r.used <= |s| && r.unicode <= 0x10FFFF
    ensures r.BadCodePoint? ==> r.error != EmptyEscape
  {
    var first := DecodeHex(s);
    if first.BadHex? then BadCodePoint(first.error)
    else if !HighSurrogate(first.unicode) then CodePoint(first.unicode, 4)
    else if |s| - 4 < 6 then BadCodePoint(SixMoreExpected)
    else if s[4] != BACKSLASH || s[5] != LETTER_U then BadCodePoint(SecondHalfExpected)
    else
      var second := DecodeHex(s[6..]);
      if second.BadHex? then BadCodePoint(second.error)
      else CodePoint(0x10000 + first.unicode % 1024 * 1024 + second.unicode % 1024, 10)
  }

  // The character a one-letter escape stands for; -1 if it is not one.
  function EscapeMeaning(escape: byte): (c: int)
    ensures -1 <= c < 256
  {
    if escape == 0x22 then 0x22
    else if escape == 0x2F then 0x2F
    else if escape == 0x5C then 0x5C
    else if escape == 0x62 then 0x08
    else if escape == 0x66 then 0x0C
    else if escape == 0x6E then 0x0A
    else if escape == 0x72 then 0x0D
    else if escape == 0x74 then 0x09
    else -1
  }

  // One turn of the loop of decodeString, on the text still to be read: it stops at a bare '"',
  // fails, or appends some bytes and moves on.
  datatype Turn = Stop | Fail(error: StringError) | Emit(text: bytes, used: nat)

  function DecodeTurn(s: bytes): (t: Turn)
    requires s != []
    ensures t.Emit? ==> 0 < t.used <= |s|
  {
    if s[0] == QUOTE then Stop
    else if s[0] != BACKSLASH then Emit([s[0]], 1)
    else if |s| == 1 then Fail(EmptyEscape)
    else if s[1] == LETTER_U then
      var cp := DecodeCodePoint(s[2..]);
      if cp.BadCodePoint? then Fail(cp.error) else Emit(CodePointToUTF8(cp.unicode), 2 + cp.used)
    else if EscapeMeaning(s[1]) < 0 then Fail(BadEscape)
    else Emit([EscapeMeaning(s[1])], 2)
  }

  // decodeString on the text between the quotes.
  function DecodeText(s: bytes): StringResult
    decreases |s|
  {
    if s == [] then Decoded([])
    else
      match DecodeTurn(s)
      case Stop => Decoded([])
      case Fail(e) => BadString(e)
      case Emit(text, used) => Prepend(text, DecodeText(s[used..]))
  }

  // Whether its loop is ever left at a bare '"'.
  predicate MeetsQuote(s: bytes)
    decreases |s|
  {
    s != [] &&
    match DecodeTurn(s)
    case Stop => true
    case Fail(_) => false
    case Emit(_, used) => MeetsQuote(s[used..])
  }

  // The scanner passes over an escape ...
  lemma ScanEscape(s: bytes, n: nat)
    requires ScanString(s, QUOTE) == n > 0 && s[0] == BACKSLASH
    ensures n > 2 && ScanString(s[2..], QUOTE) == n - 2
  {
  }

  lemma ScanPlain(s: bytes, n: nat)
    requires ScanString(s, QUOTE) == n > 0 && s[0] != BACKSLASH && s[0] != QUOTE
    ensures n > 1 && ScanString(s[1..], QUOTE) == n - 1
  {
  }

  // ... and over four hexadecimal digits, none of which is a quote or a backslash.
  lemma ScanHex(s: bytes, n: nat)
    requires ScanString(s, QUOTE) == n > 0 && DecodeHex(s[..n - 1]).Hex?
    ensures n > 4 && ScanString(s[4..], QUOTE) == n - 4
  {
    var t := s[..n - 1];
    assert t[0] == s[0] && t[1] == s[1] && t[2] == s[2] && t[3] == s[3];
    hide DecodeHex, ScanString;
    ScanPlain(s, n);
    ScanPlain(s[1..], n - 1);
    assert s[1..][1..] == s[2..];
    ScanPlain(s[2..], n - 2);
    assert s[2..][1..] == s[3..];
    ScanPlain(s[3..], n - 3);
    assert s[3..][1..] == s[4..];
  }

  // So a \u escape the decoder accepts is passed over by the scanner as well.
  lemma ScanCodePoint(s: bytes, n: nat)
    requires ScanString(s, QUOTE) == n > 0 && DecodeCodePoint(s[..n - 1]).CodePoint?
    ensures var used := DecodeCodePoint(s[..n - 1]).used;
            used < n && ScanString(s[used..], QUOTE) == n - used
  {
    hide DecodeHex, ScanString;
    var t := s[..n - 1];
    ScanHex(s, n);
    if HighSurrogate(DecodeHex(t).unicode) {
      ScanEscape(s[4..], n - 4);
      assert s[4..][2..] == s[6..] && s[6..][..n - 7] == t[6..];
      ScanHex(s[6..], n - 6);
      assert s[6..][4..] == s[10..];
    }
  }

  // One turn of the decoder, in terms of the scanner.
  lemma TurnInStep(s: bytes, n: nat)
    requires ScanString(s, QUOTE) == n > 1
    ensures var t := DecodeTurn(s[..n - 1]);
            && !t.Stop?
            && (t.Fail? ==> t.error != EmptyEscape)
            && (t.Emit? ==> t.used < n && ScanString(s[t.used..], QUOTE) == n - t.used)
  {
    hide DecodeCodePoint, CodePointToUTF8, EscapeMeaning, DecodeTurn, ScanString;
    if s[0] != BACKSLASH {
      NoQuoteYet(s, n);
      PlainTurn(s[..n - 1]);
      ScanPlain(s, n);
    } else {
      EscapeInStep(s, n);
    }
  }

  lemma NoQuoteYet(s: bytes, n: nat)
    requires ScanString(s, QUOTE) == n > 1
    ensures s[0] != QUOTE
  {
  }

  lemma EscapeInStep(s: bytes, n: nat)
    requires ScanString(s, QUOTE) == n > 1 && s[0] == BACKSLASH
    ensures var t := DecodeTurn(s[..n - 1]);
            && !t.Stop?
            && (t.Fail? ==> t.error != EmptyEscape)
            && (t.Emit? ==> t.used < n && ScanString(s[t.used..], QUOTE) == n - t.used)
  {
    hide DecodeCodePoint, DecodeTurn, ScanString;
    ScanEscape(s, n);
    if s[1] == LETTER_U {
      CodePointInStep(s, n);
      CodePointTurn(s[..n - 1]);
    } else {
      EscapeTurn(s[..n - 1]);
    }
  }

  lemma PlainTurn(s: bytes)
    requires s != [] && s[0] != QUOTE && s[0] != BACKSLASH
    ensures DecodeTurn(s) == Emit([s[0]], 1)
  {
  }

  lemma EscapeTurn(s: bytes)
    requires |s| > 1 && s[0] == BACKSLASH && s[1] != LETTER_U
    ensures var t := DecodeTurn(s); t == Fail(BadEscape) || (t.Emit? && t.used == 2)
  {
  }

  lemma CodePointTurn(s: bytes)
    requires |s| > 1 && s[0] == BACKSLASH && s[1] == LETTER_U
    ensures var t, cp := DecodeTurn(s), DecodeCodePoint(s[2..]);
            if cp.CodePoint? then t.Emit? && t.used == 2 + cp.used else t == Fail(cp.error)
  {
  }

  lemma CodePointInStep(s: bytes, n: nat)
    requires ScanString(s, QUOTE) == n > 2 && s[0] == BACKSLASH && s[1] == LETTER_U
    ensures var cp := DecodeCodePoint(s[..n - 1][2..]);
            cp.CodePoint? ==> cp.used + 2 < n && ScanString(s[2 + cp.used..], QUOTE) == n - 2 - cp.used
  {
    hide DecodeCodePoint, ScanString;
    ScanEscape(s, n);
    assert s[2..][..n - 3] == s[..n - 1][2..];
    if DecodeCodePoint(s[..n - 1][2..]).CodePoint? {
      ScanCodePoint(s[2..], n - 2);
      assert s[2..][DecodeCodePoint(s[..n - 1][2..]).used..] == s[2 + DecodeCodePoint(s[..n - 1][2..]).used..];
    }
  }

  /** Scanner and decoder stay in lockstep: in a token the scanner accepts, the decoder never meets
      a bare '"' and never finds the text ending inside an escape. */
  lemma {:induction false} Lockstep(s: bytes, n: nat)
    requires ScanString(s, QUOTE) == n > 0
    ensures !MeetsQuote(s[..n - 1])
    ensures DecodeText(s[..n - 1]) != BadString(EmptyEscape)
    decreases |s|
  {
    if n > 1 {
      var text := s[..n - 1];
      TurnInStep(s, n);
      if DecodeTurn(text).Emit? {
        var used := DecodeTurn(text).used;
        Lockstep(s[used..], n - used);
        assert s[used..][..n - used - 1] == text[used..];
      }
    }
  }
}
