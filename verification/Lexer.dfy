/** The tokens of OurReader: what readToken recognizes at the front of a byte string. */
module Lexer {
  import opened Bytes
  import opened Numbers
  import opened Unquoting
  import opened JsonValue

  datatype Option<+T> = None | Some(value: T)

  /** The reader's settings, and the two conversions of the C library it relies on: text to
      double (None when the stream rejects the text) and double to text. */
  datatype Features = Features(
    allowComments: bool,
    allowTrailingCommas: bool,
    strictRoot: bool,
    allowDroppedNullPlaceholders: bool,
    allowNumericKeys: bool,
    allowSingleQuotes: bool,
    failIfExtra: bool,
    rejectDupKeys: bool,
    allowSpecialFloats: bool,
    skipBom: bool,
    stackLimit: nat,
    parseDouble: bytes -> Option<Double>,
    printDouble: Double -> bytes)

  // CharReaderBuilder::setDefaults
  function DefaultFeatures(parseDouble: bytes -> Option<Double>, printDouble: Double -> bytes): Features {
    Features(true, true, false, false, false, false, false, false, false, true, 1000, parseDouble, printDouble)
  }

  datatype TokenType =
    | EndOfStream
    | ObjectBegin
    | ObjectEnd
    | ArrayBegin
    | ArrayEnd
    | StringToken
    | NumberToken
    | TrueToken
    | FalseToken
    | NullToken
    | NaNToken
    | PosInfToken
    | NegInfToken
    | ArraySeparator
    | MemberSeparator
    | Comment
    | Error

  // A token and its place; a failed readToken leaves kind Error.
  datatype Token = Token(kind: TokenType, start: nat, end: nat)

  predicate Space(c: byte) { c == 0x20 || c == 0x09 || c == 0x0D || c == 0x0A }

  // skipSpaces: how many bytes of white space s begins with.
  function Spaces(s: bytes): (n: nat)
    ensures n <= |s|
    ensures forall k :: 0 <= k < n ==> Space(s[k])
    ensures n < |s| ==> !Space(s[n])
  {
    if s == [] || !Space(s[0]) then 0 else 1 + Spaces(s[1..])
  }

  // readNumber, after the first character: digits, a fraction, an exponent; each may be empty.
  function DigitRun(s: bytes): (n: nat)
    ensures n <= |s|
    ensures forall k :: 0 <= k < n ==> Digit(s[k])
    ensures n < |s| ==> !Digit(s[n])
  {
    if s == [] || !Digit(s[0]) then 0 else 1 + DigitRun(s[1..])
  }

  function ExponentRun(s: bytes): (n: nat)
    ensures n <= |s|
  {
    if s == [] || (s[0] != 0x65 && s[0] != 0x45) then 0
    else if |s| > 1 && (s[1] == 0x2B || s[1] == 0x2D) then 2 + DigitRun(s[2..])
    else 1 + DigitRun(s[1..])
  }

  function FractionRun(s: bytes): (n: nat)
    ensures n <= |s|
  {
    if s == [] || s[0] != 0x2E then 0 else 1 + DigitRun(s[1..])
  }

  function NumberRun(s: bytes): (n: nat)
    ensures n <= |s|
  {
    var d := DigitRun(s);
    var p := d + FractionRun(s[d..]);
    p + ExponentRun(s[p..])
  }

  // What a comment scanner consumes, and whether it found the end.
  datatype Scan = Scan(size: nat, ok: bool)

  // readCStyleComment, after the opening "/*".
  function BlockComment(s: bytes): (r: Scan)
    ensures r.size <= |s|
    ensures r.ok ==> r.size > 0
  {
    if |s| == 0 then Scan(0, false)
    else if |s| == 1 then Scan(1, s[0] == 0x2F)
    else if s[0] == 0x2A && s[1] == 0x2F then Scan(2, true)
    else
      var r := BlockComment(s[1..]);
      Scan(r.size + 1, r.ok)
  }

  // readCppStyleComment, after the opening "//": up to and including the end of the line.
  function LineComment(s: bytes): (n: nat)
    ensures n <= |s|
  {
    if s == [] then 0
    else if s[0] == 0x0A then 1
    else if s[0] == 0x0D then (if |s| > 1 && s[1] == 0x0A then 2 else 1)
    else 1 + LineComment(s[1..])
  }

  datatype Lexeme = Lexeme(kind: TokenType, size: nat)

  // One character c, then the rest of a fixed word if it is there.
  function Word(s: bytes, kind: TokenType, rest: bytes, used: nat): (l: Lexeme)
    requires used <= |s|
    ensures used <= l.size <= |s|
  {
    if rest <= s[used..] then Lexeme(kind, used + |rest|) else Lexeme(Error, used)
  }

  const NULL_REST: bytes := [0x75, 0x6C, 0x6C]              // ull
  const TRUE_REST: bytes := [0x72, 0x75, 0x65]              // rue
  const FALSE_REST: bytes := [0x61, 0x6C, 0x73, 0x65]       // alse
  const NAN_REST: bytes := [0x61, 0x4E]                     // aN
  const INFINITY_REST: bytes := [0x6E, 0x66, 0x69, 0x6E, 0x69, 0x74, 0x79]  // nfinity

  function LexString(s: bytes, q: byte): (l: Lexeme)
    requires s != []
    ensures 1 <= l.size <= |s|
  {
    var n := ScanString(s[1..], q);
    if n < 0 then Lexeme(Error, |s|) else Lexeme(StringToken, n + 1)
  }

  function LexComment(s: bytes): (l: Lexeme)
    requires s != []
    ensures 1 <= l.size <= |s|
  {
    if |s| == 1 then Lexeme(Error, 1)
    else if s[1] == 0x2A then
      var r := BlockComment(s[2..]);
      Lexeme(if r.ok then Comment else Error, r.size + 2)
    else if s[1] == 0x2F then Lexeme(Comment, LineComment(s[2..]) + 2)
    else Lexeme(Error, 2)
  }

  // A sign, then a number or "Infinity".
  function LexSigned(f: Features, s: bytes, infinity: TokenType): (l: Lexeme)
    requires s != []
    ensures 1 <= l.size <= |s|
  {
    if |s| > 1 && s[1] == 0x49 then
      if f.allowSpecialFloats then Word(s, infinity, INFINITY_REST, 2) else Lexeme(Error, 2)
    else Lexeme(NumberToken, 1 + NumberRun(s[1..]))
  }

  // The switch of readToken, on text that does not begin with white space.
  function LexAt(f: Features, s: bytes): (l: Lexeme)
    requires s != []
    ensures 1 <= l.size <= |s|
    ensures l.kind in {ObjectBegin, ObjectEnd, ArrayBegin, ArrayEnd, ArraySeparator, MemberSeparator} ==> l.size == 1
    ensures l.kind == StringToken ==> l.size >= 2
    ensures l.kind == ArrayEnd <==> s[0] == 0x5D
  {
    var c := s[0];
    if c == 0x7B then Lexeme(ObjectBegin, 1)
    else if c == 0x7D then Lexeme(ObjectEnd, 1)
    else if c == 0x5B then Lexeme(ArrayBegin, 1)
    else if c == 0x5D then Lexeme(ArrayEnd, 1)
    else if c == 0x22 then LexString(s, 0x22)
    else if c == 0x27 then
      if f.allowSingleQuotes then LexString(s, 0x27) else Lexeme(Error, 1)
    else if c == 0x2F then LexComment(s)
    else if Digit(c) then Lexeme(NumberToken, 1 + NumberRun(s[1..]))
    else if c == 0x2D then LexSigned(f, s, NegInfToken)
    else if c == 0x2B then LexSigned(f, s, PosInfToken)
    else if c == 0x74 then Word(s, TrueToken, TRUE_REST, 1)
    else if c == 0x66 then Word(s, FalseToken, FALSE_REST, 1)
    else if c == 0x6E then Word(s, NullToken, NULL_REST, 1)
    else if c == 0x4E then
      if f.allowSpecialFloats then Word(s, NaNToken, NAN_REST, 1) else Lexeme(Error, 1)
    else if c == 0x49 then
      if f.allowSpecialFloats then Word(s, PosInfToken, INFINITY_REST, 1) else Lexeme(Error, 1)
    else if c == 0x2C then Lexeme(ArraySeparator, 1)
    else if c == 0x3A then Lexeme(MemberSeparator, 1)
    else if c == 0 then Lexeme(EndOfStream, 1)
    else Lexeme(Error, 1)
  }

  /** readToken at position i of a document. It advances, except at the end, where it reports
      the end of the stream; a NUL byte in the document reports it too, but is consumed. */
  function ReadToken(f: Features, doc: bytes, i: nat): (t: Token)
    requires i <= |doc|
    ensures i <= t.start <= t.end <= |doc|
    ensures t.start < |doc| ==> t.start < t.end
    ensures t.start == |doc| ==> t.kind == EndOfStream
    ensures t.kind in {ObjectBegin, ObjectEnd, ArrayBegin, ArrayEnd, ArraySeparator, MemberSeparator} ==>
              t.end == t.start + 1
    ensures t.kind == StringToken ==> t.start + 2 <= t.end
    ensures t.kind == ArrayEnd <==> t.start < |doc| && doc[t.start] == 0x5D
  {
    hide LexAt;
    var at := i + Spaces(doc[i..]);
    if at == |doc| then Token(EndOfStream, at, at)
    else
      var l := LexAt(f, doc[at..]);
      Token(l.kind, at, at + l.size)
  }

  lemma TokenStart(f: Features, doc: bytes, i: nat)
    requires i <= |doc|
    ensures ReadToken(f, doc, i).start == i + Spaces(doc[i..])
  {
    hide LexAt, Spaces;
  }

  lemma TokenAgain(f: Features, doc: bytes, i: nat)
    requires i <= |doc|
    ensures var t := ReadToken(f, doc, i); ReadToken(f, doc, t.start) == t
  {
    hide LexAt;
    NothingToSkip(doc, i);
  }

  lemma NothingToSkip(doc: bytes, i: nat)
    requires i <= |doc|
    ensures Spaces(doc[i + Spaces(doc[i..])..]) == 0
  {
  }
}
