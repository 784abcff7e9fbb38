/** The characters of the reader and the writers, in plain view. */
module Alphabet {
  import opened Bytes
  import opened Numbers
  import opened Utf8
  import opened Quoting
  import opened Unquoting
  import opened JsonValue
  import opened Lexer
  import opened Literals
  import opened Parser
  import opened Tokens
  import opened Grammar
  import opened FastWriterModel
  import opened StyledWriterModel

  // Strings ---------------------------------------------------------------------------------------

  /** Digits are written in lower case ... */
  lemma DigitsWritten(k: nat)
    requires k < 16
    ensures HexDigit(k) == Ascii("0123456789abcdef")[k]
  {
  }

  /** ... and read in either. */
  lemma DigitsRead(c: byte, k: nat)
    requires k < 16
    ensures HexValue(c) == k <==> c == Ascii("0123456789abcdef")[k] || c == Ascii("0123456789ABCDEF")[k]
  {
  }

  // The letters of the short escapes, and the characters they stand for.
  const ESCAPES := Ascii("\"\\/bfnrt")
  const ESCAPED: bytes := [34, 92, 47, 8, 12, 10, 13, 9]

  /** Eight letters escape a character; no other does. */
  lemma EscapesRead(letter: byte)
    ensures forall k :: 0 <= k < 8 && ESCAPES[k] == letter ==> EscapeMeaning(letter) == Meant(letter) == ESCAPED[k]
    ensures EscapeMeaning(letter) >= 0 <==> letter in ESCAPES
    ensures EscapeMeaning(letter) >= 0 <==> ReadableChar(Escape(letter))
  {
    assert |ESCAPES| == 8;
    assert ESCAPES[0] == 34 && ESCAPES[1] == 92 && ESCAPES[2] == 47 && ESCAPES[3] == 98 && ESCAPES[4] == 102;
    assert ESCAPES[5] == 110 && ESCAPES[6] == 114 && ESCAPES[7] == 116;
  }

  /** They are written for their characters, but for the solidus, which is not escaped. */
  lemma EscapesWritten(c: byte)
    ensures forall k :: 0 <= k < 8 && k != 2 && ESCAPED[k] == c ==> ShortEscape(c) == Ascii("\\") + [ESCAPES[k]]
    ensures ShortEscape(c) == [] <==> c == 47 || c !in ESCAPED
  {
    assert |ESCAPES| == 8;
    assert ESCAPES[0] == 34 && ESCAPES[1] == 92 && ESCAPES[3] == 98 && ESCAPES[4] == 102;
    assert ESCAPES[5] == 110 && ESCAPES[6] == 114 && ESCAPES[7] == 116;
    assert Ascii("\\") == [92];
  }

  // \u and four digits.
  function UnicodeText(unit: nat): bytes
    requires unit < 65536
  {
    Ascii("\\u") + [HexDigit(unit / 4096), HexDigit(unit / 256 % 16), HexDigit(unit / 16 % 16), HexDigit(unit % 16)]
  }

  // Four digits of a number, and what the writer and the text above take for them.
  lemma Nibbles(unit: nat, a: nat, b: nat, c: nat, d: nat)
    requires a < 16 && b < 16 && c < 16 && d < 16 && unit == a * 4096 + b * 256 + c * 16 + d
    ensures unit / 4096 == a && unit / 256 == a * 16 + b && unit / 16 == a * 256 + b * 16 + c
    ensures unit % 256 == c * 16 + d && unit % 16 == d
    ensures unit / 256 % 16 == b && unit / 16 % 16 == c
  {
  }

  lemma FourNibbles(unit: nat) returns (a: nat, b: nat, c: nat, d: nat)
    requires unit < 65536
    ensures a < 16 && b < 16 && c < 16 && d < 16 && unit == a * 4096 + b * 256 + c * 16 + d
  {
    var low, lower := unit % 4096, unit % 4096 % 256;
    a, b, c, d := unit / 4096, low / 256, lower / 16, lower % 16;
  }

  lemma HexEscapeIs(unit: nat)
    requires unit < 65536
    ensures HexEscape(unit) == UnicodeText(unit)
  {
    hide HexDigit;
    var a, b, c, d := FourNibbles(unit);
    Nibbles(unit, a, b, c, d);
    var hi, lo := unit / 256, unit % 256;
    assert ToHex16Bit(unit) == [HexDigit(hi / 16), HexDigit(hi % 16)] + [HexDigit(lo / 16), HexDigit(lo % 16)];
    assert Ascii("\\u") == [92, 117];
  }

  /** What is written for a code point in ASCII: itself, from the space on up to the last ASCII character,
      a short escape, or \u escapes, two of them for a code point beyond 16 bits. */
  lemma CodePointWritten(cp: nat)
    requires cp <= 0x10FFFF
    ensures EscapeCodePoint(cp) ==
              if cp < 256 && ShortEscape(cp) != [] then ShortEscape(cp)
              else if 32 <= cp < 128 then [cp]
              else if cp < 65536 then UnicodeText(cp)
              else UnicodeText(55296 + (cp - 65536) / 1024) + UnicodeText(56320 + (cp - 65536) % 1024)
  {
    hide HexEscape, UnicodeText;
    if cp < 65536 {
      HexEscapeIs(cp);
    } else {
      HexEscapeIs(55296 + (cp - 65536) / 1024);
      HexEscapeIs(56320 + (cp - 65536) % 1024);
    }
  }

  /** What is written for a byte in UTF-8: itself, but for control characters and short escapes. */
  lemma ByteWritten(c: byte)
    ensures EscapeByte(c) == if ShortEscape(c) != [] then ShortEscape(c) else if c < 32 then UnicodeText(c) else [c]
  {
    hide HexEscape, UnicodeText;
    HexEscapeIs(c);
  }

  /** A byte that begins no UTF-8 character is replaced by U+FFFD. */
  lemma ReplacementWritten(c: byte)
    requires c >= 248
    ensures Quoted([c], false) == Ascii("\"\\ufffd\"")
  {
    hide HexEscape;
    HexEscapeIs(65533);
    assert Utf8ToCodepoint([c]) == Step(65533, 0);
    assert [c][1..] == [];
    assert HexDigit(15) == 102 && HexDigit(13) == 100;
    assert Escaped([c], false) == UnicodeText(65533) + [];
  }

  // Words and punctuation ----------------------------------------------------------------------------

  /** The words and marks are those of sections 2 and 3 of RFC 8259. */
  lemma TokensSpelled()
    ensures NULL_TOK == Tok(NullToken, Ascii("null")) && NULL_TEXT == Ascii("null")
    ensures TRUE_TOK == Tok(TrueToken, Ascii("true")) && TRUE_TEXT == Ascii("true")
    ensures FALSE_TOK == Tok(FalseToken, Ascii("false")) && FALSE_TEXT == Ascii("false")
    ensures OPEN_ARRAY == Tok(ArrayBegin, Ascii("[")) && CLOSE_ARRAY == Tok(ArrayEnd, Ascii("]"))
    ensures OPEN_OBJECT == Tok(ObjectBegin, Ascii("{")) && CLOSE_OBJECT == Tok(ObjectEnd, Ascii("}"))
    ensures COMMA == Tok(ArraySeparator, Ascii(",")) && COLON == Tok(MemberSeparator, Ascii(":"))
    ensures EMPTY_ARRAY == Ascii("[]") && EMPTY_OBJECT == Ascii("{}")
  {
  }

  lemma WhiteSpace(c: byte)
    ensures Space(c) <==> c in Ascii(" \t\n\r")
  {
    assert |Ascii(" \t\n\r")| == 4;
    assert Ascii(" \t\n\r")[0] == 32 && Ascii(" \t\n\r")[1] == 9 && Ascii(" \t\n\r")[2] == 10;
    assert Ascii(" \t\n\r")[3] == 13;
  }

  // Beyond RFC 8259 -----------------------------------------------------------------------------------

  /** The special numbers are tokens if and only if they are allowed. */
  lemma SpecialFloats(f: Features, rest: bytes)
    ensures LexAt(f, Ascii("NaN") + rest) == if f.allowSpecialFloats then Lexeme(NaNToken, 3) else Lexeme(Error, 1)
    ensures LexAt(f, Ascii("Infinity") + rest)
         == if f.allowSpecialFloats then Lexeme(PosInfToken, 8) else Lexeme(Error, 1)
  {
    hide NumberRun, LexString, LexComment, LexSigned;
    var nan, inf := Ascii("NaN"), Ascii("Infinity");
    assert nan == [0x4E] + NAN_REST && inf == [0x49] + INFINITY_REST;
    assert (nan + rest)[1..] == NAN_REST + rest && (inf + rest)[1..] == INFINITY_REST + rest;
  }

  lemma SignedInfinity(f: Features, rest: bytes)
    ensures LexAt(f, Ascii("-Infinity") + rest)
         == if f.allowSpecialFloats then Lexeme(NegInfToken, 9) else Lexeme(Error, 2)
    ensures LexAt(f, Ascii("+Infinity") + rest)
         == if f.allowSpecialFloats then Lexeme(PosInfToken, 9) else Lexeme(Error, 2)
  {
    hide NumberRun, LexString, LexComment;
    var minus, plus := Ascii("-Infinity"), Ascii("+Infinity");
    assert minus == [0x2D, 0x49] + INFINITY_REST && plus == [0x2B, 0x49] + INFINITY_REST;
    assert (minus + rest)[2..] == INFINITY_REST + rest && (plus + rest)[2..] == INFINITY_REST + rest;
  }

  /** What they denote. */
  lemma SpecialMeanings(f: Features, text: bytes)
    ensures TokenScalar(f, NaNToken, text) == Scalar(Real(NaN))
    ensures TokenScalar(f, PosInfToken, text) == Scalar(Real(PosInf))
    ensures TokenScalar(f, NegInfToken, text) == Scalar(Real(NegInf))
  {
    hide NumberScalar, StringScalar;
  }

  /** A string between single quotation marks is a token if and only if that is allowed; then it ends at
      the next mark of its kind that is not escaped, as one between double marks does. */
  lemma SingleQuotes(f: Features, s: bytes)
    requires s != [] && s[0] == 39
    ensures !f.allowSingleQuotes ==> LexAt(f, s) == Lexeme(Error, 1)
    ensures f.allowSingleQuotes ==>
              LexAt(f, s) == if ScanString(s[1..], 39) < 0 then Lexeme(Error, |s|)
                             else Lexeme(StringToken, ScanString(s[1..], 39) + 1)
  {
    hide ScanString;
  }

  /** A number is a name if and only if that is allowed: the one that is printed for it. */
  lemma NumericKeys(f: Features, text: bytes)
    requires IntegerToken(text)
    ensures !f.allowNumericKeys ==> TokenKey(f, NumberToken, text) == NoKey
    ensures f.allowNumericKeys && -9223372036854775808 <= IntegerOf(text) <= 18446744073709551615 ==>
              TokenKey(f, NumberToken, text) == Key(IntText(IntegerOf(text)))
    ensures f.allowNumericKeys && !(-9223372036854775808 <= IntegerOf(text) <= 18446744073709551615) ==>
              TokenKey(f, NumberToken, text)
              == if f.parseDouble(text).Some? then Key(f.printDouble(f.parseDouble(text).value))
                 else BadKey(NotANumber(text))
  {
    hide StringScalar, IntText;
  }

  /** A byte order mark is skipped if and only if that is asked for. */
  lemma ByteOrderMark(f: Features, document: bytes)
    ensures SkippedBom(f, document)
         == if f.skipBom && |document| >= 3 && document[0] == 239 && document[1] == 187 && document[2] == 191
            then 3 else 0
  {
    if |document| >= 3 {
      assert document[..3] == [document[0], document[1], document[2]];
    }
  }

  // Comments -------------------------------------------------------------------------------------------

  predicate LineBreak(c: byte) { c == 10 || c == 13 }

  /** A line comment ends behind the first line break, which may be CR LF, or with the document. */
  lemma {:induction false} LineCommentEnds(s: bytes) returns (k: nat)
    ensures k <= |s| && (forall j :: 0 <= j < k ==> !LineBreak(s[j])) && (k < |s| ==> LineBreak(s[k]))
    ensures LineComment(s)
         == if k == |s| then k else if s[k] == 13 && k + 1 < |s| && s[k + 1] == 10 then k + 2 else k + 1
  {
    k := 0;
    if s != [] && !LineBreak(s[0]) {
      k := LineCommentEnds(s[1..]);
      k := k + 1;
    }
  }

  predicate StarSlash(s: bytes, k: nat) { k + 1 < |s| && s[k] == 42 && s[k + 1] == 47 }

  /** A block comment ends behind the first star and solidus; without them it takes the rest of the document,
      and is a comment only if that ends in a solidus. */
  lemma {:induction false} BlockCommentEnds(s: bytes) returns (k: nat)
    ensures k <= |s| && (forall j: nat :: j < k ==> !StarSlash(s, j)) && (k < |s| ==> StarSlash(s, k))
    ensures BlockComment(s) == if k < |s| then Scan(k + 2, true) else Scan(|s|, s != [] && s[|s| - 1] == 47)
  {
    if |s| <= 1 {
      k := |s|;
    } else if StarSlash(s, 0) {
      k := 0;
    } else {
      k := BlockCommentEnds(s[1..]);
      k := k + 1;
      forall j: nat | j < k ensures !StarSlash(s, j) {
        if j > 0 {
          assert !StarSlash(s[1..], j - 1);
        }
      }
    }
  }

  /** What begins with two solidi, or a solidus and a star, is a comment, if it ends as one. */
  lemma CommentLexes(f: Features, s: bytes)
    requires |s| >= 2 && s[0] == 47
    ensures s[1] == 47 ==> LexAt(f, s) == Lexeme(Comment, 2 + LineComment(s[2..]))
    ensures s[1] == 42 ==>
              LexAt(f, s) == Lexeme(if BlockComment(s[2..]).ok then Comment else Error, 2 + BlockComment(s[2..]).size)
    ensures s[1] != 47 && s[1] != 42 ==> LexAt(f, s) == Lexeme(Error, 2)
  {
    hide LineComment, BlockComment;
  }

  /** What is no token: a string or a block comment without its end takes the rest of the document, a solidus
      that begins no comment and a sign before an I two bytes, anything else one. */
  lemma ErrorExtent(f: Features, s: bytes)
    requires s != [] && LexAt(f, s).kind == Error
    ensures LexAt(f, s).size
         == if s[0] == 34 || (s[0] == 39 && f.allowSingleQuotes) then |s|
            else if s[0] == 47 then (if |s| >= 2 && s[1] == 42 then |s| else if |s| >= 2 then 2 else 1)
            else if s[0] == 45 || s[0] == 43 then 2
            else 1
  {
    hide NumberRun, ScanString, LineComment, BlockComment;
    if |s| >= 2 && s[0] == 47 && s[1] == 42 {
      var k := BlockCommentEnds(s[2..]);
    }
  }
}
