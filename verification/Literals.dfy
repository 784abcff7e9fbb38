/** Strings and numbers as the reader takes them, among them all those of sections 6 and 7 of RFC
    8259, and what they denote. */
module Literals {
  import opened Bytes
  import opened Numbers
  import opened Utf8
  import opened Quoting
  import opened Unquoting
  import opened QuoteRoundTrip
  import opened Lexer

  // Strings ------------------------------------------------------------------------------------

  // A character as it is written: itself, an escape of two characters, or \u and four digits.
  datatype Char = Plain(c: byte) | Escape(letter: byte) | Unicode(digits: bytes)

  // The reader takes control characters as they are; RFC 8259 wants them escaped.
  predicate ReadableChar(ch: Char) {
    match ch
    case Plain(c) => c != QUOTE && c != BACKSLASH
    case Escape(letter) => letter in {0x22, 0x5C, 0x2F, 0x62, 0x66, 0x6E, 0x72, 0x74}
    case Unicode(digits) => |digits| == 4 && forall k :: 0 <= k < 4 ==> HexValue(digits[k]) >= 0
  }

  predicate ReadableChars(cs: seq<Char>) {
    forall k :: 0 <= k < |cs| ==> ReadableChar(cs[k])
  }

  predicate GoodChars(cs: seq<Char>) {
    ReadableChars(cs) && forall k :: 0 <= k < |cs| && cs[k].Plain? ==> cs[k].c >= 0x20
  }

  function CharText(ch: Char): bytes {
    match ch
    case Plain(c) => [c]
    case Escape(letter) => [BACKSLASH, letter]
    case Unicode(digits) => [BACKSLASH, LETTER_U] + digits
  }

  function Spelled(cs: seq<Char>): bytes {
    if cs == [] then [] else CharText(cs[0]) + Spelled(cs[1..])
  }

  // A string with its quotation marks.
  function StringText(cs: seq<Char>): bytes { [QUOTE] + Spelled(cs) + [QUOTE] }

  // The number four hexadecimal digits denote.
  function Unit(digits: bytes): (u: nat)
    requires ReadableChar(Unicode(digits))
    ensures u < 0x10000
  {
    ((HexValue(digits[0]) * 16 + HexValue(digits[1])) * 16 + HexValue(digits[2])) * 16 + HexValue(digits[3])
  }

  function Then(s: bytes, rest: Option<bytes>): Option<bytes> {
    match rest
    case None => None
    case Some(t) => Some(s + t)
  }

  // The code point decodeString makes of a high surrogate and the escape behind it, whatever that is.
  function Paired(high: nat, low: nat): nat { 0x10000 + high % 1024 * 1024 + low % 1024 }

  /** What decodeString makes of the characters, in UTF-8; nothing if a high surrogate is not followed
      by another \u. */
  function Unescaped(cs: seq<Char>): Option<bytes>
    requires ReadableChars(cs)
    decreases |cs|
  {
    if cs == [] then Some([])
    else
      match cs[0]
      case Plain(c) => Then([c], Unescaped(cs[1..]))
      case Escape(letter) => Then([Meant(letter)], Unescaped(cs[1..]))
      case Unicode(digits) =>
        if !HighSurrogate(Unit(digits)) then Then(CodePointToUTF8(Unit(digits)), Unescaped(cs[1..]))
        else if |cs| > 1 && cs[1].Unicode? then
          Then(CodePointToUTF8(Paired(Unit(digits), Unit(cs[1].digits))), Unescaped(cs[2..]))
        else None
  }

  // The character a short escape stands for.
  function Meant(letter: byte): byte {
    if letter == 0x62 then 0x08
    else if letter == 0x66 then 0x0C
    else if letter == 0x6E then 0x0A
    else if letter == 0x72 then 0x0D
    else if letter == 0x74 then 0x09
    else letter
  }

  // The reader's decoder, character by character ------------------------------------------------

  lemma UnitDecoded(digits: bytes, rest: bytes)
    requires ReadableChar(Unicode(digits))
    ensures DecodeHex(digits + rest) == Hex(Unit(digits))
  {
    hide HexValue;
    var t := digits + rest;
    assert t[0] == digits[0] && t[1] == digits[1] && t[2] == digits[2] && t[3] == digits[3];
  }

  lemma UnicodeTurn(digits: bytes, rest: bytes)
    requires ReadableChar(Unicode(digits)) && !HighSurrogate(Unit(digits))
    ensures DecodeTurn(CharText(Unicode(digits)) + rest) == Emit(CodePointToUTF8(Unit(digits)), 6)
  {
    hide DecodeHex, CodePointToUTF8, EscapeMeaning, Unit;
    var s := CharText(Unicode(digits)) + rest;
    assert s[2..] == digits + rest;
    UnitDecoded(digits, rest);
  }

  lemma PairTurn(high: bytes, low: bytes, rest: bytes)
    requires ReadableChar(Unicode(high)) && ReadableChar(Unicode(low)) && HighSurrogate(Unit(high))
    ensures DecodeTurn(CharText(Unicode(high)) + CharText(Unicode(low)) + rest)
         == Emit(CodePointToUTF8(Paired(Unit(high), Unit(low))), 12)
  {
    hide DecodeHex, CodePointToUTF8, EscapeMeaning, Unit, ReadableChar;
    GoodDigits(high);
    GoodDigits(low);
    var s := CharText(Unicode(high)) + CharText(Unicode(low)) + rest;
    var t := s[2..];
    assert t == high + (CharText(Unicode(low)) + rest);
    UnitDecoded(high, CharText(Unicode(low)) + rest);
    assert t[4] == BACKSLASH && t[5] == LETTER_U && t[6..] == low + rest;
    UnitDecoded(low, rest);
  }

  lemma GoodDigits(digits: bytes)
    requires ReadableChar(Unicode(digits))
    ensures |digits| == 4
  {
  }

  // A high surrogate with anything else behind it is an error.
  lemma UnpairedTurn(high: bytes, cs: seq<Char>)
    requires ReadableChar(Unicode(high)) && HighSurrogate(Unit(high))
    requires ReadableChars(cs) && (cs != [] ==> !cs[0].Unicode?)
    ensures DecodeTurn(CharText(Unicode(high)) + Spelled(cs)).Fail?
  {
    hide DecodeHex, Unit, DecodeCodePoint, ReadableChar;
    var s := CharText(Unicode(high)) + Spelled(cs);
    GoodDigits(high);
    assert s[2..] == high + Spelled(cs);
    UnitDecoded(high, Spelled(cs));
    NoEscapeAhead(cs);
    UnpairedCodePoint(high, Spelled(cs));
  }

  lemma UnpairedCodePoint(high: bytes, rest: bytes)
    requires |high| == 4 && DecodeHex(high + rest).Hex? && HighSurrogate(DecodeHex(high + rest).unicode)
    requires |rest| < 2 || rest[0] != BACKSLASH || rest[1] != LETTER_U
    ensures DecodeCodePoint(high + rest).BadCodePoint?
  {
    hide DecodeHex;
    assert forall k :: 0 <= k < |rest| ==> (high + rest)[4 + k] == rest[k];
  }

  lemma NoEscapeAhead(cs: seq<Char>)
    requires ReadableChars(cs) && (cs != [] ==> !cs[0].Unicode?)
    ensures var s := Spelled(cs); |s| < 2 || s[0] != BACKSLASH || s[1] != LETTER_U
  {
  }

  lemma ShortTurn(letter: byte, rest: bytes)
    requires ReadableChar(Escape(letter))
    ensures DecodeTurn(CharText(Escape(letter)) + rest) == Emit([Meant(letter)], 2)
  {
    hide DecodeCodePoint;
  }

  lemma PlainTurnOf(c: byte, rest: bytes)
    requires ReadableChar(Plain(c))
    ensures DecodeTurn(CharText(Plain(c)) + rest) == Emit([c], 1)
  {
    hide DecodeCodePoint;
  }

  ghost predicate Agree(r: StringResult, s: Option<bytes>) {
    match s
    case None => r.BadString?
    case Some(t) => r == Decoded(t)
  }

  lemma AgreeThen(piece: bytes, rest: bytes, emitted: bytes, s: Option<bytes>)
    requires piece != [] && DecodeTurn(piece + rest) == Emit(emitted, |piece|) && Agree(DecodeText(rest), s)
    ensures Agree(DecodeText(piece + rest), Then(emitted, s))
  {
    hide DecodeTurn, DecodeText;
    DecodeFirst(piece, rest, emitted);
  }

  /** decodeString denotes what the characters do, and is an error exactly when they denote nothing. */
  lemma {:induction false} CharsDecoded(cs: seq<Char>)
    requires ReadableChars(cs)
    ensures Agree(DecodeText(Spelled(cs)), Unescaped(cs))
    decreases |cs|
  {
    hide DecodeTurn, CodePointToUTF8, Unit, ReadableChar, Meant, Agree;
    if cs == [] {
      NothingDecoded();
      return;
    }
    assert ReadableChar(cs[0]);
    var rest := Spelled(cs[1..]);
    match cs[0] {
      case Plain(c) =>
        PlainTurnOf(c, rest);
        CharsDecoded(cs[1..]);
        AgreeThen(CharText(cs[0]), rest, [c], Unescaped(cs[1..]));
      case Escape(letter) =>
        ShortTurn(letter, rest);
        CharsDecoded(cs[1..]);
        AgreeThen(CharText(cs[0]), rest, [Meant(letter)], Unescaped(cs[1..]));
      case Unicode(digits) =>
        GoodDigits(digits);
        if !HighSurrogate(Unit(digits)) {
          UnicodeTurn(digits, rest);
          CharsDecoded(cs[1..]);
          AgreeThen(CharText(cs[0]), rest, CodePointToUTF8(Unit(digits)), Unescaped(cs[1..]));
        } else if |cs| > 1 && cs[1].Unicode? {
          PairDecoded(cs);
        } else {
          UnpairedTurn(digits, cs[1..]);
          FailedDecoded(CharText(cs[0]) + rest);
        }
    }
  }

  lemma NothingDecoded()
    ensures Agree(DecodeText(Spelled([])), Some([]))
  {
  }

  lemma FailedDecoded(s: bytes)
    requires s != [] && DecodeTurn(s).Fail?
    ensures Agree(DecodeText(s), None)
  {
    hide DecodeTurn;
  }

  lemma {:induction false} PairDecoded(cs: seq<Char>)
    requires ReadableChars(cs) && |cs| > 1 && cs[0].Unicode? && cs[1].Unicode? && HighSurrogate(Unit(cs[0].digits))
    ensures Agree(DecodeText(Spelled(cs)), Unescaped(cs))
    decreases |cs|, 0
  {
    hide DecodeTurn, CodePointToUTF8, Unit, ReadableChar, Agree, DecodeText;
    assert ReadableChar(cs[0]) && ReadableChar(cs[1]);
    GoodDigits(cs[0].digits);
    GoodDigits(cs[1].digits);
    var piece, rest := CharText(cs[0]) + CharText(cs[1]), Spelled(cs[2..]);
    assert cs[1..][1..] == cs[2..];
    Resume(CharText(cs[0]), CharText(cs[1]), rest);
    PairTurn(cs[0].digits, cs[1].digits, rest);
    CharsDecoded(cs[2..]);
    AgreeThen(piece, rest, CodePointToUTF8(Paired(Unit(cs[0].digits), Unit(cs[1].digits))), Unescaped(cs[2..]));
  }

  // The scanner ---------------------------------------------------------------------------------

  lemma CharScanned(ch: Char, rest: bytes)
    requires ReadableChar(ch) && ScanString(rest, QUOTE) > 0
    ensures ScanString(CharText(ch) + rest, QUOTE) == |CharText(ch)| + ScanString(rest, QUOTE)
  {
    hide ScanString;
    if ch.Plain? {
      ScanOver(CharText(ch), rest);
    } else {
      forall k | 2 <= k < |CharText(ch)| ensures CharText(ch)[k] != QUOTE && CharText(ch)[k] != BACKSLASH {
        assert HexValue(CharText(ch)[k]) >= 0;
      }
      ScanEscaped(CharText(ch), rest);
    }
  }

  /** A string is one complete token for the scanner, whatever follows. */
  lemma {:induction false} CharsScanned(cs: seq<Char>, rest: bytes)
    requires ReadableChars(cs)
    ensures ScanString(Spelled(cs) + [QUOTE] + rest, QUOTE) == |Spelled(cs)| + 1
  {
    hide ScanString, CharText, ReadableChar;
    if cs == [] {
      QuoteCloses(rest);
      assert Spelled(cs) + [QUOTE] + rest == [QUOTE] + rest;
    } else {
      var tail := Spelled(cs[1..]) + [QUOTE] + rest;
      assert ReadableChar(cs[0]);
      CharsScanned(cs[1..], rest);
      CharScanned(cs[0], tail);
      assert Spelled(cs) + [QUOTE] + rest == CharText(cs[0]) + tail;
    }
  }

  // Numbers -------------------------------------------------------------------------------------

  datatype Exponent = Exponent(letter: byte, sign: bytes, digits: bytes)

  datatype Numeral = Numeral(sign: bytes, whole: bytes, fraction: Option<bytes>, exponent: Option<Exponent>)

  const PLUS: byte := 0x2B

  predicate Sign(s: bytes) { s in {[], [PLUS], [MINUS]} }

  /** The reader asks for a digit or a sign in front; any run of digits behind it may be empty. */
  predicate ReadableNumeral(n: Numeral) {
    && Sign(n.sign) && AllDigits(n.whole) && (n.sign == [] ==> n.whole != [])
    && (n.fraction.Some? ==> AllDigits(n.fraction.value))
    && (n.exponent.Some? ==>
          var x := n.exponent.value; x.letter in {0x65, 0x45} && Sign(x.sign) && AllDigits(x.digits))
  }

  // RFC 8259 asks for more.
  predicate GoodNumeral(n: Numeral) {
    && ReadableNumeral(n) && n.sign != [PLUS]
    && n.whole != [] && (|n.whole| > 1 ==> n.whole[0] != 0x30)
    && (n.fraction.Some? ==> n.fraction.value != [])
    && (n.exponent.Some? ==> n.exponent.value.digits != [])
  }

  function FractionText(n: Numeral): bytes {
    if n.fraction.Some? then [0x2E] + n.fraction.value else []
  }

  function ExponentText(n: Numeral): bytes {
    if n.exponent.Some? then [n.exponent.value.letter] + n.exponent.value.sign + n.exponent.value.digits else []
  }

  function NumeralText(n: Numeral): bytes {
    n.sign + n.whole + FractionText(n) + ExponentText(n)
  }

  // What could continue a number, or make a sign the beginning of Infinity.
  predicate NumberByte(c: byte) {
    Digit(c) || c == 0x2E || c == 0x65 || c == 0x45 || c == PLUS || c == MINUS || c == 0x49
  }

  lemma {:induction false} DigitsRun(s: bytes, rest: bytes)
    requires AllDigits(s) && (rest == [] || !Digit(rest[0]))
    ensures DigitRun(s + rest) == |s|
  {
    if s == [] {
      assert s + rest == rest;
    } else {
      assert (s + rest)[1..] == s[1..] + rest;
      DigitsRun(s[1..], rest);
    }
  }

  lemma NoSignAhead(digits: bytes, rest: bytes)
    requires AllDigits(digits) && (rest == [] || !NumberByte(rest[0]))
    ensures var s := digits + rest; s == [] || (s[0] != PLUS && s[0] != MINUS)
  {
  }

  lemma ExponentIsRun(n: Numeral, rest: bytes)
    requires ReadableNumeral(n) && (rest == [] || !NumberByte(rest[0]))
    ensures ExponentRun(ExponentText(n) + rest) == |ExponentText(n)|
  {
    hide DigitRun;
    if n.exponent.Some? {
      var x := n.exponent.value;
      var s := ExponentText(n) + rest;
      DigitsRun(x.digits, rest);
      if x.sign == [] {
        assert s[1..] == x.digits + rest;
        NoSignAhead(x.digits, rest);
      } else {
        assert s[1] == x.sign[0] && s[2..] == x.digits + rest;
      }
    } else {
      assert ExponentText(n) + rest == rest;
    }
  }

  lemma FractionIsRun(n: Numeral, rest: bytes)
    requires ReadableNumeral(n) && (rest == [] || !(Digit(rest[0]) || rest[0] == 0x2E))
    ensures FractionRun(FractionText(n) + rest) == |FractionText(n)|
  {
    hide DigitRun;
    if n.fraction.Some? {
      DigitsRun(n.fraction.value, rest);
      assert (FractionText(n) + rest)[1..] == n.fraction.value + rest;
    } else {
      assert FractionText(n) + rest == rest;
    }
  }

  // Digits (all of the whole part, or all but the first), fraction, exponent.
  lemma NumberIsRun(n: Numeral, digits: bytes, rest: bytes)
    requires ReadableNumeral(n) && AllDigits(digits) && (rest == [] || !NumberByte(rest[0]))
    ensures NumberRun(digits + FractionText(n) + ExponentText(n) + rest)
         == |digits| + |FractionText(n)| + |ExponentText(n)|
  {
    hide DigitRun, FractionRun, ExponentRun, ReadableNumeral;
    NextIsNoDigit(n, rest);
    hide FractionText, ExponentText, NumberByte, Digit;
    var a, b := FractionText(n), ExponentText(n);
    DigitsRun(digits, a + (b + rest));
    FractionIsRun(n, b + rest);
    ExponentIsRun(n, rest);
    RunOfParts(digits, a, b, rest);
  }

  // The three runs, when each of the parts is one.
  lemma RunOfParts(digits: bytes, a: bytes, b: bytes, rest: bytes)
    requires DigitRun(digits + (a + (b + rest))) == |digits|
    requires FractionRun(a + (b + rest)) == |a| && ExponentRun(b + rest) == |b|
    ensures NumberRun(digits + a + b + rest) == |digits| + |a| + |b|
  {
    hide DigitRun, FractionRun, ExponentRun;
    var s := digits + a + b + rest;
    Resume(digits + a, b, rest);
    Resume(digits, a, b + rest);
    assert s[|digits|..] == a + (b + rest);
    assert s[|digits| + |a|..] == b + rest;
  }

  lemma NextIsNoDigit(n: Numeral, rest: bytes)
    requires ReadableNumeral(n) && (rest == [] || !NumberByte(rest[0]))
    ensures var s := ExponentText(n) + rest; s == [] || !(Digit(s[0]) || s[0] == 0x2E)
    ensures var s := FractionText(n) + (ExponentText(n) + rest); s == [] || !Digit(s[0])
  {
  }

  /** A number is one token, unless something that could continue it follows. */
  lemma NumeralLexes(f: Features, n: Numeral, rest: bytes)
    requires ReadableNumeral(n) && (rest == [] || !NumberByte(rest[0]))
    ensures LexAt(f, NumeralText(n) + rest) == Lexeme(NumberToken, |NumeralText(n)|)
    ensures var c := NumeralText(n)[0]; Digit(c) || c == PLUS || c == MINUS
  {
    hide NumberRun, LexAt, FractionText, ExponentText;
    var s := NumeralText(n) + rest;
    if n.sign != [] {
      var tail := n.whole + FractionText(n) + ExponentText(n) + rest;
      assert s[1..] == tail;
      SignThenNoLetter(n, rest);
      LexSign(f, s);
      NumberIsRun(n, n.whole, rest);
    } else {
      assert s[0] == n.whole[0];
      assert s[1..] == n.whole[1..] + FractionText(n) + ExponentText(n) + rest;
      LexDigit(f, s);
      NumberIsRun(n, n.whole[1..], rest);
    }
  }

  // What follows the sign of a number is not the I of Infinity.
  lemma SignThenNoLetter(n: Numeral, rest: bytes)
    requires ReadableNumeral(n) && (rest == [] || !NumberByte(rest[0]))
    ensures var s := n.whole + FractionText(n) + ExponentText(n) + rest; s == [] || s[0] != 0x49
  {
  }

  lemma LexDigit(f: Features, s: bytes)
    requires s != [] && Digit(s[0])
    ensures LexAt(f, s) == Lexeme(NumberToken, 1 + NumberRun(s[1..]))
  {
    hide NumberRun;
  }

  lemma LexSign(f: Features, s: bytes)
    requires s != [] && (s[0] == MINUS || s[0] == PLUS) && (|s| > 1 ==> s[1] != 0x49)
    ensures LexAt(f, s) == Lexeme(NumberToken, 1 + NumberRun(s[1..]))
  {
    hide NumberRun;
  }

  // What the writers write ----------------------------------------------------------------------

  function IntegerNumeral(i: int): Numeral {
    Numeral(if i < 0 then [MINUS] else [], Decimal(if i < 0 then -i else i), None, None)
  }

  lemma {:induction false} NoLeadingZero(n: nat)
    ensures |Decimal(n)| > 1 ==> Decimal(n)[0] != 0x30
    ensures n > 0 ==> Decimal(n)[0] != 0x30
  {
    if n >= 10 {
      NoLeadingZero(n / 10);
    }
  }

  lemma IntegerIsNumeral(i: int)
    ensures GoodNumeral(IntegerNumeral(i)) && NumeralText(IntegerNumeral(i)) == IntText(i)
  {
    hide Decimal;
    var n := if i < 0 then -i else i;
    NoLeadingZero(n);
    assert NumeralText(IntegerNumeral(i)) == IntegerNumeral(i).sign + Decimal(n);
  }

  function ByteChar(c: byte): Char {
    if ShortEscape(c) != [] then Escape(ShortEscape(c)[1])
    else if c < 0x20 then Unicode(ToHex16Bit(c))
    else Plain(c)
  }

  function CodePointChars(cp: nat): seq<Char> {
    if cp < 0x80 then [ByteChar(cp)]
    else if cp < 0x10000 then [Unicode(ToHex16Bit(cp))]
    else
      var v := cp - 0x10000;
      [Unicode(ToHex16Bit(0xD800 + v / 1024 % 1024)), Unicode(ToHex16Bit(0xDC00 + v % 1024))]
  }

  // The characters the quoted form of s is made of.
  function CharsOf(s: bytes, e: bool): seq<Char>
    decreases |s|
  {
    if s == [] then []
    else if e then [ByteChar(s[0])] + CharsOf(s[1..], e)
    else
      var st := Utf8ToCodepoint(s);
      CodePointChars(st.cp) + CharsOf(s[st.last + 1..], e)
  }

  lemma HexDigitsGood(x: nat)
    ensures ReadableChar(Unicode(ToHex16Bit(x)))
  {
    hide HexDigit, HexValue;
    var h, l := x / 256 % 256, x % 256;
    HexDigitUndone(h / 16);
    HexDigitUndone(h % 16);
    HexDigitUndone(l / 16);
    HexDigitUndone(l % 16);
  }

  lemma ByteIsChar(c: byte)
    ensures GoodChars([ByteChar(c)]) && CharText(ByteChar(c)) == EscapeByte(c)
  {
    hide ToHex16Bit;
    HexDigitsGood(c);
  }

  lemma CodePointIsChars(cp: nat)
    ensures GoodChars(CodePointChars(cp)) && Spelled(CodePointChars(cp)) == EscapeCodePoint(cp)
  {
    hide ToHex16Bit, ReadableChar, EscapeByte, ByteChar;
    if cp < 0x80 {
      ByteIsChar(cp);
      SpelledOne(ByteChar(cp));
      AsciiEscape(cp);
    } else if cp < 0x10000 {
      HexDigitsGood(cp);
      SpelledOne(Unicode(ToHex16Bit(cp)));
    } else {
      var v := cp - 0x10000;
      var x, y := ToHex16Bit(0xD800 + v / 1024 % 1024), ToHex16Bit(0xDC00 + v % 1024);
      HexDigitsGood(0xD800 + v / 1024 % 1024);
      HexDigitsGood(0xDC00 + v % 1024);
      SpelledOne(Unicode(y));
      assert CodePointChars(cp)[1..] == [Unicode(y)];
    }
  }

  lemma AsciiEscape(c: byte)
    requires c < 0x80
    ensures EscapeCodePoint(c) == EscapeByte(c)
  {
  }

  lemma SpelledOne(ch: Char)
    ensures Spelled([ch]) == CharText(ch)
  {
    assert [ch][1..] == [];
  }

  lemma {:induction false} SpelledConcat(a: seq<Char>, b: seq<Char>)
    ensures Spelled(a + b) == Spelled(a) + Spelled(b)
  {
    if a == [] {
      assert a + b == b;
    } else {
      assert (a + b)[1..] == a[1..] + b;
      SpelledConcat(a[1..], b);
    }
  }

  /** The quoted form of every string, in both modes, is a string of the grammar. */
  lemma {:induction false} EscapedIsString(s: bytes, e: bool)
    ensures GoodChars(CharsOf(s, e)) && Spelled(CharsOf(s, e)) == Escaped(s, e)
    decreases |s|
  {
    hide ReadableChar, CharText, EscapeByte, EscapeCodePoint, ByteChar, CodePointChars, Utf8ToCodepoint, Spelled;
    if s == [] {
      NothingSpelled();
    } else if e {
      ByteIsChar(s[0]);
      EscapedIsString(s[1..], e);
      SpelledConcat([ByteChar(s[0])], CharsOf(s[1..], e));
      SpelledOne(ByteChar(s[0]));
    } else {
      var st := Utf8ToCodepoint(s);
      CodePointIsChars(st.cp);
      EscapedIsString(s[st.last + 1..], e);
      SpelledConcat(CodePointChars(st.cp), CharsOf(s[st.last + 1..], e));
    }
  }

  lemma NothingSpelled()
    ensures Spelled([]) == []
  {
  }

  lemma QuotedIsString(s: bytes, e: bool)
    ensures GoodChars(CharsOf(s, e)) && StringText(CharsOf(s, e)) == Quoted(s, e)
    ensures Unescaped(CharsOf(s, e)) == Some(if e then s else Sanitized(s))
  {
    hide Escaped, Spelled, ReadableChar, Unescaped, Sanitized, DecodeText;
    EscapedIsString(s, e);
    CharsDecoded(CharsOf(s, e));
    if e {
      Utf8ModeRoundTrip(s);
    } else {
      AsciiModeDecodes(s);
    }
  }

  // No control characters ------------------------------------------------------------------------

  // Not even a newline or a NUL.
  predicate Visible(s: bytes) { forall b | b in s :: b >= 0x20 }

  lemma {:induction false} DigitsVisible(s: bytes)
    requires AllDigits(s)
    ensures Visible(s)
  {
    if s != [] {
      DigitsVisible(s[1..]);
      assert s == [s[0]] + s[1..];
    }
  }

  lemma NumeralVisible(n: Numeral)
    requires GoodNumeral(n)
    ensures Visible(NumeralText(n))
  {
    hide AllDigits;
    DigitsVisible(n.whole);
    if n.fraction.Some? {
      DigitsVisible(n.fraction.value);
    }
    if n.exponent.Some? {
      DigitsVisible(n.exponent.value.digits);
    }
  }

  lemma {:induction false} CharsVisible(cs: seq<Char>)
    requires GoodChars(cs)
    ensures Visible(Spelled(cs))
  {
    if cs != [] {
      assert ReadableChar(cs[0]);
      CharsVisible(cs[1..]);
    }
  }

  lemma QuotedVisible(s: bytes, e: bool)
    ensures Visible(Quoted(s, e)) && |Quoted(s, e)| >= 2
  {
    hide CharsOf, Quoted, GoodChars, Spelled;
    QuotedIsString(s, e);
    CharsVisible(CharsOf(s, e));
  }
}
