/** The converse: what the reader accepts is a layout of a readable tree. */
module Accepted {
  import opened Bytes
  import opened Numbers
  import opened Utf8
  import opened Quoting
  import opened Unquoting
  import opened JsonValue
  import opened Lexer
  import opened Literals
  import opened Parser
  import opened Window
  import opened Offsets
  import opened Tokens
  import opened Grammar
  import opened GrammarCorrect
  import opened Texts

  // Numbers ----------------------------------------------------------------------------------------

  // A run of digits, a fraction and an exponent, taken apart.
  lemma RunParts(s: bytes) returns (whole: bytes, fraction: Option<bytes>, exponent: Option<Exponent>)
    ensures ReadableNumeral(Numeral([PLUS], whole, fraction, exponent))
    ensures s[..NumberRun(s)] == whole + (FractionOf(fraction) + ExponentOf(exponent))
  {
    hide DigitRun, FractionRun, ExponentRun, FractionOf, ExponentOf;
    var d := DigitRun(s);
    var p := d + FractionRun(s[d..]);
    var m := p + ExponentRun(s[p..]);
    whole := s[..d];
    fraction := FractionPart(s[d..]);
    exponent := ExponentPart(s[p..]);
    assert NumberRun(s) == m;
    hide NumberRun;
    ThreeParts(s, d, p, m);
  }

  function FractionOf(fraction: Option<bytes>): bytes {
    if fraction.Some? then [0x2E] + fraction.value else []
  }

  function ExponentOf(exponent: Option<Exponent>): bytes {
    if exponent.Some? then [exponent.value.letter] + exponent.value.sign + exponent.value.digits else []
  }

  lemma ThreeParts(s: bytes, a: nat, b: nat, c: nat)
    requires a <= b <= c <= |s|
    ensures s[a..][..b - a] == s[a..b] && s[b..][..c - b] == s[b..c]
    ensures s[..c] == s[..a] + (s[a..b] + s[b..c])
  {
  }

  lemma Cut(s: bytes, k: nat, n: nat)
    requires k + n <= |s|
    ensures s[..k + n] == s[..k] + s[k..][..n]
  {
  }

  lemma FractionPart(s: bytes) returns (fraction: Option<bytes>)
    ensures fraction.Some? ==> AllDigits(fraction.value)
    ensures s[..FractionRun(s)] == FractionOf(fraction)
  {
    if s == [] || s[0] != 0x2E {
      return None;
    }
    fraction := Some(s[1..][..DigitRun(s[1..])]);
    Cut(s, 1, DigitRun(s[1..]));
  }

  lemma ExponentPart(s: bytes) returns (exponent: Option<Exponent>)
    ensures exponent.Some? ==>
              var x := exponent.value; x.letter in {0x65, 0x45} && Sign(x.sign) && AllDigits(x.digits)
    ensures s[..ExponentRun(s)] == ExponentOf(exponent)
  {
    if s == [] || (s[0] != 0x65 && s[0] != 0x45) {
      return None;
    }
    if |s| > 1 && (s[1] == 0x2B || s[1] == 0x2D) {
      exponent := Some(Exponent(s[0], [s[1]], s[2..][..DigitRun(s[2..])]));
      Cut(s, 2, DigitRun(s[2..]));
      assert s[..2] == [s[0]] + [s[1]];
    } else {
      exponent := Some(Exponent(s[0], [], s[1..][..DigitRun(s[1..])]));
      Cut(s, 1, DigitRun(s[1..]));
      assert s[..1] == [s[0]] + [];
    }
  }

  /** Every number token is a numeral the reader takes. */
  lemma NumberIsNumeral(f: Features, s: bytes) returns (n: Numeral)
    requires s != [] && LexAt(f, s).kind == NumberToken
    ensures ReadableNumeral(n) && NumeralText(n) == s[..LexAt(f, s).size]
  {
    NumberLexeme(f, s);
    hide LexAt, NumberRun, FractionOf, ExponentOf, NumeralText, ReadableNumeral;
    var whole, fraction, exponent := RunParts(s[1..]);
    n := Assembled(s[0], whole, fraction, exponent);
    Front(s, NumberRun(s[1..]));
  }

  lemma Front(s: bytes, n: nat)
    requires n < |s|
    ensures s[..1 + n] == [s[0]] + s[1..][..n]
  {
  }

  // A digit or a sign in front of such parts.
  lemma Assembled(c: byte, whole: bytes, fraction: Option<bytes>, exponent: Option<Exponent>) returns (n: Numeral)
    requires ReadableNumeral(Numeral([PLUS], whole, fraction, exponent)) && (Digit(c) || c == PLUS || c == MINUS)
    ensures ReadableNumeral(n) && NumeralText(n) == [c] + (whole + (FractionOf(fraction) + ExponentOf(exponent)))
  {
    n := if Digit(c) then Numeral([], [c] + whole, fraction, exponent) else Numeral([c], whole, fraction, exponent);
    assert n.sign + n.whole == [c] + whole;
    var a, b := FractionText(n), ExponentText(n);
    hide FractionText, ExponentText;
    Resume(n.sign + n.whole, a, b);
    Resume([c], whole, a + b);
  }

  lemma NumberLexeme(f: Features, s: bytes)
    requires s != [] && LexAt(f, s).kind == NumberToken
    ensures LexAt(f, s).size == 1 + NumberRun(s[1..]) && (Digit(s[0]) || s[0] == PLUS || s[0] == MINUS)
  {
    hide NumberRun, BlockComment, LineComment;
  }

  // Strings ----------------------------------------------------------------------------------------

  /** A text that decodeString decodes to its end is made of characters the reader takes. */
  lemma {:induction false} DecodedIsChars(s: bytes) returns (cs: seq<Char>)
    requires DecodeText(s).Decoded? && !MeetsQuote(s)
    ensures ReadableChars(cs) && Spelled(cs) == s
    decreases |s|
  {
    if s == [] {
      return [];
    }
    OneTurn(s);
    hide DecodeTurn, DecodeText, MeetsQuote, ReadableChar, Spelled;
    var n := DecodeTurn(s).used;
    var front := TurnIsChars(s);
    var rest := DecodedIsChars(s[n..]);
    cs := front + rest;
    SpelledConcat(front, rest);
    Rejoin(s, n);
  }

  lemma OneTurn(s: bytes)
    requires s != [] && DecodeText(s).Decoded? && !MeetsQuote(s)
    ensures DecodeTurn(s).Emit?
    ensures var rest := s[DecodeTurn(s).used..]; DecodeText(rest).Decoded? && !MeetsQuote(rest)
  {
    hide DecodeTurn;
  }

  lemma TurnIsChars(s: bytes) returns (cs: seq<Char>)
    requires s != [] && DecodeTurn(s).Emit?
    ensures ReadableChars(cs) && Spelled(cs) == s[..DecodeTurn(s).used]
  {
    hide CodePointToUTF8, DecodeHex;
    if s[0] != BACKSLASH {
      cs := [Plain(s[0])];
      SpelledOne(cs[0]);
    } else if s[1] != LETTER_U {
      cs := [Escape(s[1])];
      SpelledOne(cs[0]);
      assert s[..2] == [s[0], s[1]];
    } else {
      var first := Unicode(s[2..6]);
      HexIsGood(s[2..]);
      assert s[2..][..4] == s[2..6];
      assert s[..6] == [s[0], s[1]] + s[2..6];
      SpelledOne(first);
      cs := [first];
      if DecodeTurn(s).used == 12 {
        var second := Unicode(s[8..12]);
        HexIsGood(s[2..][6..]);
        assert s[2..][6..][..4] == s[8..12];
        assert s[6] == s[2..][4] && s[7] == s[2..][5];
        assert s[..12] == s[..6] + ([s[6], s[7]] + s[8..12]);
        SpelledOne(second);
        SpelledConcat([first], [second]);
        cs := [first] + [second];
      }
    }
  }

  lemma HexIsGood(s: bytes)
    requires DecodeHex(s).Hex?
    ensures |s| >= 4 && ReadableChar(Unicode(s[..4]))
  {
    hide HexValue;
  }

  // The token of a string in double quotes.
  lemma StringIsChars(f: Features, s: bytes) returns (cs: seq<Char>)
    requires s != [] && LexAt(f, s).kind == StringToken && !f.allowSingleQuotes
    requires StringScalar(s[..LexAt(f, s).size]).Scalar?
    ensures ReadableChars(cs) && StringText(cs) == s[..LexAt(f, s).size]
  {
    StringLexeme(f, s);
    hide LexAt, ScanString, DecodeText, MeetsQuote, Spelled, ReadableChars;
    var n := ScanString(s[1..], QUOTE);
    InsideQuotes(s, n);
    Lockstep(s[1..], n);
    cs := DecodedIsChars(s[1..][..n - 1]);
  }

  lemma InsideQuotes(s: bytes, n: nat)
    requires 0 < n < |s| && s[0] == QUOTE && s[1..][n - 1] == QUOTE
    ensures s[..n + 1][1..n] == s[1..][..n - 1] && s[..n + 1] == [QUOTE] + s[1..][..n - 1] + [QUOTE]
  {
  }

  lemma StringLexeme(f: Features, s: bytes)
    requires s != [] && LexAt(f, s).kind == StringToken && !f.allowSingleQuotes
    ensures s[0] == QUOTE && ScanString(s[1..], QUOTE) > 0 && LexAt(f, s).size == ScanString(s[1..], QUOTE) + 1
  {
    hide NumberRun, BlockComment, LineComment, ScanString;
  }

  // Words and punctuation ---------------------------------------------------------------------------

  lemma FixedLexeme(f: Features, s: bytes)
    requires s != []
    ensures var l := LexAt(f, s);
            var t := Tok(l.kind, s[..l.size]);
            && (l.kind in {ObjectBegin, ObjectEnd, ArrayBegin, ArrayEnd, ArraySeparator, MemberSeparator} ==>
                  Punctuation(t))
            && (l.kind in {NullToken, TrueToken, FalseToken} ==> WordTok(t))
            && (l.kind in {NaNToken, PosInfToken, NegInfToken} ==> f.allowSpecialFloats)
            && (l.kind == EndOfStream ==> s[0] == 0)
  {
    hide NumberRun, BlockComment, LineComment, ScanString;
  }

  // Token by token ----------------------------------------------------------------------------------

  // The settings that let the reader take other tokens, or fewer, are off, as they are by default.
  predicate NoExtras(f: Features) {
    && !f.allowDroppedNullPlaceholders && !f.allowNumericKeys && !f.allowSingleQuotes && !f.allowSpecialFloats
  }

  /** From i to the end of the stream there is no comment. (Whether they are allowed is another matter: the
      reader skips comments in objects and behind elements in any case.) */
  predicate Clean(f: Features, doc: bytes, i: nat)
    requires i <= |doc|
    decreases |doc| - i
  {
    var t := ReadToken(f, doc, i);
    || t.kind == EndOfStream
    || (t.kind != Comment && Clean(f, doc, t.end))
  }

  lemma CleanToken(f: Features, doc: bytes, i: nat)
    requires i <= |doc| && Clean(f, doc, i)
    ensures var t := ReadToken(f, doc, i);
            && NextToken(f, doc, i) == t && ValueToken(f, doc, i) == t && t.kind != Comment
            && (t.kind != EndOfStream ==> Clean(f, doc, t.end))
  {
    hide Lexer.ReadToken;
  }

  lemma TokenLexeme(f: Features, doc: bytes, i: nat)
    requires i <= |doc| && ReadToken(f, doc, i).kind != EndOfStream
    ensures var t := ReadToken(f, doc, i);
            var s := doc[t.start..];
            s != [] && LexAt(f, s) == Lexeme(t.kind, t.end - t.start) && Text(doc, t) == s[..t.end - t.start]
  {
    hide LexAt;
  }

  // The token a kind of token without a choice stands for.
  function TokOf(kind: TokenType): Tok {
    match kind
    case ArrayBegin => OPEN_ARRAY
    case ArrayEnd => CLOSE_ARRAY
    case ObjectBegin => OPEN_OBJECT
    case ObjectEnd => CLOSE_OBJECT
    case ArraySeparator => COMMA
    case MemberSeparator => COLON
    case NullToken => NULL_TOK
    case TrueToken => TRUE_TOK
    case FalseToken => FALSE_TOK
    case _ => Tok(kind, [])
  }

  predicate Fixed(kind: TokenType) {
    kind in {ArrayBegin, ArrayEnd, ObjectBegin, ObjectEnd, ArraySeparator, MemberSeparator, NullToken, TrueToken,
             FalseToken}
  }

  lemma FixedToken(f: Features, doc: bytes, i: nat)
    requires i <= |doc| && Fixed(ReadToken(f, doc, i).kind)
    ensures var t := ReadToken(f, doc, i); Text(doc, t) == TokOf(t.kind).text
  {
    hide Lexer.ReadToken, LexAt, Text;
    var t := ReadToken(f, doc, i);
    TokenLexeme(f, doc, i);
    FixedLexeme(f, doc[t.start..]);
  }

  lemma LexesOne(f: Features, doc: bytes, i: nat, tok: Tok, rest: seq<Tok>, j: nat)
    requires i <= |doc|
    requires var t := ReadToken(f, doc, i); tok == Tok(t.kind, Text(doc, t)) && Lexes(f, doc, t.end, rest, j)
    ensures Lexes(f, doc, i, [tok] + rest, j)
  {
    hide Lexer.ReadToken, Text;
    assert ([tok] + rest)[1..] == rest;
  }

  lemma LexesFixed(f: Features, doc: bytes, i: nat, kind: TokenType, rest: seq<Tok>, j: nat)
    requires i <= |doc| && Fixed(kind)
    requires var t := ReadToken(f, doc, i); t.kind == kind && Lexes(f, doc, t.end, rest, j)
    ensures Lexes(f, doc, i, [TokOf(kind)] + rest, j)
  {
    hide Lexer.ReadToken, Text, Lexes;
    FixedToken(f, doc, i);
    LexesOne(f, doc, i, TokOf(kind), rest, j);
  }

  lemma {:induction false} LexesConcat(f: Features, doc: bytes, i: nat, a: seq<Tok>, k: nat, b: seq<Tok>, j: nat)
    requires i <= |doc| && k <= |doc| && Lexes(f, doc, i, a, k) && Lexes(f, doc, k, b, j)
    ensures Lexes(f, doc, i, a + b, j)
    decreases |a|
  {
    hide Lexer.ReadToken, Text;
    if a == [] {
      assert a + b == b;
    } else {
      assert (a + b)[0] == a[0] && (a + b)[1..] == a[1..] + b;
      LexesConcat(f, doc, ReadToken(f, doc, i).end, a[1..], k, b, j);
    }
  }

  lemma LexesFrom(f: Features, doc: bytes, i: nat, toks: seq<Tok>, j: nat)
    requires i <= |doc| && toks != [] && Lexes(f, doc, i + Spaces(doc[i..]), toks, j)
    ensures Lexes(f, doc, i, toks, j)
  {
    hide Lexer.ReadToken, Spaces;
    TokenStart(f, doc, i);
    TokenAgain(f, doc, i);
  }

  lemma CleanFrom(f: Features, doc: bytes, i: nat)
    requires i <= |doc| && Clean(f, doc, i)
    ensures Clean(f, doc, i + Spaces(doc[i..]))
  {
    hide Lexer.ReadToken, Spaces;
    TokenStart(f, doc, i);
    TokenAgain(f, doc, i);
  }

  // Trees --------------------------------------------------------------------------------------------

  lemma ScalarIsTree(f: Features, doc: bytes, i: nat) returns (t: Json)
    requires i <= |doc| && NoExtras(f)
    requires var tk := ReadToken(f, doc, i); TokenScalar(f, tk.kind, Text(doc, tk)).Scalar?
    ensures var tk := ReadToken(f, doc, i); Readable(t) && Toks(t) == [Tok(tk.kind, Text(doc, tk))]
  {
    hide Lexer.ReadToken, LexAt, NumberScalar, StringScalar, Text, NumeralText, StringText, ReadableNumeral,
         ReadableChars;
    var tk := ReadToken(f, doc, i);
    TokenLexeme(f, doc, i);
    var s := doc[tk.start..];
    FixedLexeme(f, s);
    match tk.kind {
      case NumberToken =>
        var n := NumberIsNumeral(f, s);
        t := JNumber(n);
      case StringToken =>
        var cs := StringIsChars(f, s);
        t := JString(cs);
      case _ =>
        FixedToken(f, doc, i);
        t := if tk.kind == NullToken then JNull else JBool(tk.kind == TrueToken);
    }
  }

  /** What is read as a value, in a clean document, is the tokens of a readable tree. */
  lemma {:induction false} ValueIsTree(f: Features, doc: bytes, i: nat, depth: nat, was: Value) returns (t: Json)
    requires i <= |doc| && NoExtras(f) && Clean(f, doc, i) && ValueWithin(ReadValue(f, doc, i, depth, was), |doc|)
    ensures var cur := ReadValue(f, doc, i, depth, was).cur;
            Readable(t) && Lexes(f, doc, i, Toks(t), cur) && Clean(f, doc, cur)
    decreases |doc| - i, 0
  {
    hide Clean, Lexes, ValueToken, Lexer.ReadToken, NextToken, TokenScalar, Text, ReadMembers, ReadElements, Elements,
         Members;
    var tk := ReadToken(f, doc, i);
    CleanToken(f, doc, i);
    if tk.kind == ObjectBegin {
      var members, comma := MembersAreTrees(f, doc, tk.end, depth, [], []);
      t := JObject(members, comma);
      LexesFixed(f, doc, i, ObjectBegin, Members(members, comma), ReadValue(f, doc, i, depth, was).cur);
    } else if tk.kind == ArrayBegin {
      var items, comma := ElementsAreTrees(f, doc, tk.end, depth, []);
      t := JArray(items, comma);
      LexesFixed(f, doc, i, ArrayBegin, Elements(items, comma), ReadValue(f, doc, i, depth, was).cur);
    } else {
      EndIsNoScalar(f, Text(doc, tk));
      t := ScalarIsTree(f, doc, i);
      LexesNothing(f, doc, tk.end);
      LexesOne(f, doc, i, Tok(tk.kind, Text(doc, tk)), [], tk.end);
      assert [Tok(tk.kind, Text(doc, tk))] + [] == Toks(t);
    }
  }

  lemma LexesNothing(f: Features, doc: bytes, i: nat)
    requires i <= |doc|
    ensures Lexes(f, doc, i, [], i)
  {
  }

  lemma KeyIsString(f: Features, doc: bytes, i: nat) returns (cs: seq<Char>)
    requires i <= |doc| && NoExtras(f)
    requires var tk := ReadToken(f, doc, i); TokenKey(f, tk.kind, Text(doc, tk)).Key?
    ensures var tk := ReadToken(f, doc, i);
            ReadableChars(cs) && Tok(tk.kind, Text(doc, tk)) == Tok(StringToken, StringText(cs))
  {
    hide Lexer.ReadToken, LexAt, StringScalar, NumberScalar, Text, StringText, ReadableChars;
    TokenLexeme(f, doc, i);
    cs := StringIsChars(f, doc[ReadToken(f, doc, i).start..]);
  }

  lemma {:induction false} MembersAreTrees(f: Features, doc: bytes, i: nat, depth: nat, es: Entries, name: bytes)
    returns (members: seq<Pair>, comma: bool)
    requires i <= |doc| && NoExtras(f) && Clean(f, doc, i)
    requires ItemsWithin(ReadMembers(f, doc, i, depth, es, name), |doc|)
    ensures var cur := ReadMembers(f, doc, i, depth, es, name).cur;
            && PairsReadable(members) && (comma ==> members != [])
            && Lexes(f, doc, i, Members(members, comma), cur) && Clean(f, doc, cur)
    decreases |doc| - i, 1
  {
    hide Clean, Lexes, Lexer.ReadToken, NextToken, ValueToken, TokenKey, Text, ReadMembers, MemberValue, Members,
         PairReadable, PairToks, StringText;
    var tk := ReadToken(f, doc, i);
    CleanToken(f, doc, i);
    MembersGo(f, doc, i, depth, es, name);
    var cur := ReadMembers(f, doc, i, depth, es, name).cur;
    if tk.kind == ObjectEnd && (name == [] || f.allowTrailingCommas) {
      members, comma := [], false;
      LexesNothing(f, doc, tk.end);
      LexesFixed(f, doc, i, ObjectEnd, [], tk.end);
      NoMembers();
    } else {
      var cs := KeyIsString(f, doc, i);
      EndIsNoKey(f, Text(doc, tk));
      var v, rest, after := MemberIsTree(f, doc, tk.end, depth, es, TokenKey(f, tk.kind, Text(doc, tk)).name);
      members, comma := [Pair(cs, v)] + rest, after;
      LexesOne(f, doc, i, Tok(StringToken, StringText(cs)), [COLON] + Toks(v) + MoreMembers(rest, comma), cur);
      MembersOf(cs, v, rest, comma);
    }
  }

  lemma NoMembers()
    ensures Members([], false) == [TokOf(ObjectEnd)] + [] && PairsReadable([])
    ensures MoreMembers([], false) == [TokOf(ObjectEnd)] + []
    ensures MoreMembers([], true) == [COMMA] + Members([], false)
  {
  }

  lemma MembersOf(cs: seq<Char>, v: Json, rest: seq<Pair>, comma: bool)
    requires ReadableChars(cs) && Readable(v) && PairsReadable(rest)
    ensures PairsReadable([Pair(cs, v)] + rest)
    ensures Members([Pair(cs, v)] + rest, comma)
         == [Tok(StringToken, StringText(cs))] + ([COLON] + Toks(v) + MoreMembers(rest, comma))
  {
    hide Toks, StringText, Readable, ReadableChars;
    var ms := [Pair(cs, v)] + rest;
    assert ms[0] == Pair(cs, v) && ms[1..] == rest;
    assert PairToks(ms[0]) == [Tok(StringToken, StringText(cs)), COLON] + Toks(v);
  }

  lemma {:induction false} MemberIsTree(f: Features, doc: bytes, i: nat, depth: nat, es: Entries, key: bytes)
    returns (v: Json, rest: seq<Pair>, comma: bool)
    requires i <= |doc| && NoExtras(f) && Clean(f, doc, i) && ItemsWithin(MemberValue(f, doc, i, depth, es, key), |doc|)
    ensures var cur := MemberValue(f, doc, i, depth, es, key).cur;
            && Readable(v) && PairsReadable(rest)
            && Lexes(f, doc, i, [COLON] + Toks(v) + MoreMembers(rest, comma), cur) && Clean(f, doc, cur)
    decreases |doc| - i, 1
  {
    hide Clean, Lexes, Lexer.ReadToken, ReadValue, AfterMember, Recover, Get, Put, Toks, MoreMembers, Readable;
    var colon := ReadToken(f, doc, i);
    CleanToken(f, doc, i);
    var was := Get(es, Name(key));
    var o := ReadValue(f, doc, colon.end, depth + 1, was);
    v := ValueIsTree(f, doc, colon.end, depth + 1, was);
    rest, comma := MoreAreTrees(f, doc, o.cur, depth, Put(es, Name(key), o.value), key);
    var cur := MemberValue(f, doc, i, depth, es, key).cur;
    LexesConcat(f, doc, colon.end, Toks(v), o.cur, MoreMembers(rest, comma), cur);
    LexesFixed(f, doc, i, MemberSeparator, Toks(v) + MoreMembers(rest, comma), cur);
    Resume([COLON], Toks(v), MoreMembers(rest, comma));
  }

  lemma {:induction false} MoreAreTrees(f: Features, doc: bytes, i: nat, depth: nat, es: Entries, key: bytes)
    returns (rest: seq<Pair>, comma: bool)
    requires i <= |doc| && NoExtras(f) && Clean(f, doc, i) && ItemsWithin(AfterMember(f, doc, i, depth, es, key), |doc|)
    ensures var cur := AfterMember(f, doc, i, depth, es, key).cur;
            PairsReadable(rest) && Lexes(f, doc, i, MoreMembers(rest, comma), cur) && Clean(f, doc, cur)
    decreases |doc| - i, 1
  {
    hide Clean, Lexes, Lexer.ReadToken, NextToken, ReadMembers, Recover, Members, PairsReadable;
    var t := ReadToken(f, doc, i);
    CleanToken(f, doc, i);
    NoMembers();
    if t.kind == ObjectEnd {
      rest, comma := [], false;
      LexesNothing(f, doc, t.end);
      LexesFixed(f, doc, i, ObjectEnd, [], t.end);
    } else {
      var members, after := MembersAreTrees(f, doc, t.end, depth, es, key);
      LexesFixed(f, doc, i, ArraySeparator, Members(members, after), AfterMember(f, doc, i, depth, es, key).cur);
      rest, comma := members, after || members == [];
    }
  }

  lemma {:induction false} ElementsAreTrees(f: Features, doc: bytes, i: nat, depth: nat, es: Entries)
    returns (items: seq<Json>, comma: bool)
    requires i <= |doc| && NoExtras(f) && Clean(f, doc, i) && ItemsWithin(ReadElements(f, doc, i, depth, es), |doc|)
    ensures var cur := ReadElements(f, doc, i, depth, es).cur;
            && AllReadable(items) && (comma ==> items != [])
            && Lexes(f, doc, i, Elements(items, comma), cur) && Clean(f, doc, cur)
    decreases |doc| - i, 1
  {
    hide Clean, Lexes, Lexer.ReadToken, ReadValue, AfterElement, Recover, Put, Toks, MoreElements, Readable;
    var at, t := i + Spaces(doc[i..]), ReadToken(f, doc, i);
    var cur := ReadElements(f, doc, i, depth, es).cur;
    TokenStart(f, doc, i);
    CleanToken(f, doc, i);
    hide Spaces;
    if at < |doc| && doc[at] == 0x5D
       && (es == [] || (f.allowTrailingCommas && !f.allowDroppedNullPlaceholders)) {
      items, comma := [], false;
      BracketSize(f, doc, i);
      LexesNothing(f, doc, t.end);
      LexesFixed(f, doc, i, ArrayEnd, [], t.end);
      assert Elements(items, comma) == [TokOf(ArrayEnd)] + [];
    } else {
      CleanFrom(f, doc, i);
      var o := ReadValue(f, doc, at, depth + 1, NullValue);
      var v := ValueIsTree(f, doc, at, depth + 1, NullValue);
      PutSome(es, Index(|es|), o.value);
      var rest, after := MoreItemsAreTrees(f, doc, o.cur, depth, Put(es, Index(|es|), o.value));
      items, comma := [v] + rest, after;
      FirstTok(v);
      LexesFrom(f, doc, i, Toks(v), o.cur);
      LexesConcat(f, doc, i, Toks(v), o.cur, MoreElements(rest, comma), cur);
      assert items[1..] == rest;
    }
  }

  lemma PutSome(es: Entries, k: CZString, v: Value)
    ensures Put(es, k, v) != []
  {
    hide LowerBound;
  }

  lemma BracketSize(f: Features, doc: bytes, i: nat)
    requires i <= |doc| && ReadToken(f, doc, i).kind == ArrayEnd
    ensures var t := ReadToken(f, doc, i); t.end == t.start + 1
  {
    hide Lexer.ReadToken;
  }

  lemma {:induction false} MoreItemsAreTrees(f: Features, doc: bytes, i: nat, depth: nat, es: Entries)
    returns (rest: seq<Json>, comma: bool)
    requires i <= |doc| && NoExtras(f) && Clean(f, doc, i) && es != []
    requires ItemsWithin(AfterElement(f, doc, i, depth, es), |doc|)
    ensures var cur := AfterElement(f, doc, i, depth, es).cur;
            AllReadable(rest) && Lexes(f, doc, i, MoreElements(rest, comma), cur) && Clean(f, doc, cur)
    decreases |doc| - i, 0
  {
    hide Clean, Lexes, Lexer.ReadToken, NextToken, ReadElements, Recover, Elements, AllReadable;
    var t := ReadToken(f, doc, i);
    CleanToken(f, doc, i);
    NoItemsLeft();
    if t.kind == ArrayEnd {
      rest, comma := [], false;
      LexesNothing(f, doc, t.end);
      LexesFixed(f, doc, i, ArrayEnd, [], t.end);
    } else {
      var items, after := ElementsAreTrees(f, doc, t.end, depth, es);
      LexesFixed(f, doc, i, ArraySeparator, Elements(items, after), AfterElement(f, doc, i, depth, es).cur);
      rest, comma := items, after || items == [];
    }
  }

  lemma NoItemsLeft()
    ensures MoreElements([], false) == [TokOf(ArrayEnd)] + [] && AllReadable([])
    ensures MoreElements([], true) == [COMMA] + Elements([], false)
  {
  }

  // Documents ---------------------------------------------------------------------------------------

  lemma {:induction false} LexedDocument(f: Features, doc: bytes, i: nat, toks: seq<Tok>, j: nat)
    requires i <= |doc| && j <= |doc| && Lexes(f, doc, i, toks, j) && ReadToken(f, doc, j).kind == EndOfStream
    ensures Document(doc[i..], toks)
    decreases |toks|
  {
    hide LexAt, Lexer.ReadToken, Spaces;
    if toks == [] {
      EndedHere(f, doc, i);
    } else {
      var t := ReadToken(f, doc, i);
      TokenStart(f, doc, i);
      SliceOfSlice(doc, i, |doc|, t.start - i, t.end - i);
      SliceOfSlice(doc, i, |doc|, t.end - i, |doc| - i);
      assert doc[i..] == doc[i..|doc|] && doc[t.end..] == doc[t.end..|doc|];
      assert Begins(doc[i..], toks[0].text) && After(doc[i..], toks[0].text) == doc[t.end..];
      LexedDocument(f, doc, t.end, toks[1..], j);
    }
  }

  lemma EndedHere(f: Features, doc: bytes, i: nat)
    requires i <= |doc| && ReadToken(f, doc, i).kind == EndOfStream
    ensures Ended(doc[i..])
  {
    hide LexAt;
    var k := Spaces(doc[i..]);
    if i + k < |doc| {
      FixedLexeme(f, doc[i + k..]);
    }
  }

  // The text begins with these tokens and, if nothing else may follow, ends with them.
  ghost predicate Opens(f: Features, doc: bytes, toks: seq<Tok>, k: nat) {
    k <= |doc| && Lexes(f, doc, 0, toks, k) && (f.failIfExtra ==> ReadToken(f, doc, k).kind == EndOfStream)
  }

  /** What the reader accepts, if it is clean, begins with (and, if nothing else may follow, is) a layout of
      a readable tree that it accepts, and has the value of that tree. */
  lemma AcceptedIsText(f: Features, document: bytes, was: Value) returns (t: Json, k: nat)
    requires NoExtras(f) && Clean(f, Unmarked(f, document), 0)
    requires var o := Parse(f, document, was); o.Done? && o.ok
    ensures Accepts(f, t) && Opens(f, Unmarked(f, document), Toks(t), k)
    ensures f.failIfExtra ==> Document(Unmarked(f, document), Toks(t))
    ensures Bare(Parse(f, document, was).value) == Meaning(f, t)
  {
    hide Clean, Lexes, ReadValue, ValueToken, Lexer.ReadToken, Toks, Readable, Meaning, Bare, Document, Accepts;
    var doc := Unmarked(f, document);
    t := ValueIsTree(f, doc, 0, 1, was);
    k := ReadValue(f, doc, 0, 1, was).cur;
    CleanToken(f, doc, k);
    AcceptsRead(f, doc, was, t, k);
    if f.failIfExtra {
      LexedDocument(f, doc, 0, Toks(t), k);
      assert doc[0..] == doc;
    }
  }

  // A tree whose tokens are read is accepted if the whole document is.
  lemma AcceptsRead(f: Features, doc: bytes, was: Value, t: Json, k: nat)
    requires k <= |doc| && Readable(t) && Lexes(f, doc, 0, Toks(t), k)
    ensures var o := ReadValue(f, doc, 0, 1, was);
            o.Done? && o.ok && !(f.strictRoot && !o.value.p.Arr? && !o.value.p.Obj?) <==> Accepts(f, t)
    ensures Accepts(f, t) ==>
              var o := ReadValue(f, doc, 0, 1, was); o.errors == [] && o.cur == k && Bare(o.value) == Meaning(f, t)
  {
    hide Lexes, Reads, ReadValue, Lexer.ReadToken, Toks, Readable, Meaning, VerdictOf, Bare, Clear, Simple;
    assert Toks(t) + [] == Toks(t);
    NoEndInside(t);
    LexesIsReads(f, doc, 0, Toks(t), k);
    var n := TreeIsRead(f, doc, 0, 1, was, t, [], k);
    VerdictExactly(f, t, 1);
    if VerdictOf(f, t, 1).Good? {
      NothingRead(f, doc, n, k);
      SameKind(f, ReadValue(f, doc, 0, 1, was).value, t);
    }
  }

  /** The documents the reader accepts, among those without comments: exactly those that
       begin with (and, if nothing else may follow, are) the tokens of a readable tree it accepts. */
  lemma AcceptedTexts(f: Features, document: bytes, was: Value)
    requires NoExtras(f) && Clean(f, Unmarked(f, document), 0)
    ensures var o := Parse(f, document, was);
            o.Done? && o.ok <==> exists t, k :: Accepts(f, t) && Opens(f, Unmarked(f, document), Toks(t), k)
  {
    hide Clean, Accepts, Opens, Toks, Parse;
    var o := Parse(f, document, was);
    if o.Done? && o.ok {
      var t, k := AcceptedIsText(f, document, was);
    }
    if t, k :| Accepts(f, t) && Opens(f, Unmarked(f, document), Toks(t), k) {
      TextIsAccepted(f, document, was, t, k);
    }
  }

  lemma TextIsAccepted(f: Features, document: bytes, was: Value, t: Json, k: nat)
    requires Clean(f, Unmarked(f, document), 0)
    requires Accepts(f, t) && Opens(f, Unmarked(f, document), Toks(t), k)
    ensures var o := Parse(f, document, was); o.Done? && o.ok && Bare(o.value) == Meaning(f, t)
  {
    hide Clean, Lexes, ReadValue, ValueToken, Lexer.ReadToken, Toks, Readable, Meaning, Bare, Clear, Simple;
    var doc := Unmarked(f, document);
    AcceptsRead(f, doc, was, t, k);
    NoEndInside(t);
    CleanBehind(f, doc, 0, Toks(t), k);
    CleanToken(f, doc, k);
  }

  lemma NoEndInside(t: Json)
    requires Readable(t)
    ensures forall tok | tok in Toks(t) :: tok.kind != EndOfStream && tok.kind != Comment
  {
    hide Toks, Readable, Writable;
    ToksWritable(t);
    NoComments(Toks(t));
  }

  lemma {:induction false} CleanBehind(f: Features, doc: bytes, i: nat, toks: seq<Tok>, j: nat)
    requires i <= |doc| && j <= |doc| && Clean(f, doc, i) && Lexes(f, doc, i, toks, j)
    requires forall t | t in toks :: t.kind != EndOfStream
    ensures Clean(f, doc, j)
    decreases |toks|
  {
    hide Lexer.ReadToken, Clean;
    if toks != [] {
      assert toks[0] in toks;
      CleanToken(f, doc, i);
      CleanBehind(f, doc, ReadToken(f, doc, i).end, toks[1..], j);
    }
  }

  // What it takes besides ---------------------------------------------------------------------------

  const BRACES_WITH_COMMENT: bytes := [0x7B, 0x2F, 0x2A, 0x2A, 0x2F, 0x7D]  // {/**/}

  /** Comments are skipped in objects even where they are not allowed. */
  lemma CommentIsSkipped(f: Features, was: Value)
    requires !f.allowComments && f.stackLimit >= 1
    ensures var o := Parse(f, BRACES_WITH_COMMENT, was); o.Done? && o.ok && o.value == Value(Obj([]), 0, 6)
    ensures !Clean(f, Unmarked(f, BRACES_WITH_COMMENT), 0)
  {
    hide TokenScalar, NumberRun, LexString, KeyedMember;
    var doc := BRACES_WITH_COMMENT;
    assert doc[0..] == doc;
    assert ReadToken(f, doc, 0) == Token(ObjectBegin, 0, 1);
    var s := doc[1..];
    assert s == [0x2F, 0x2A, 0x2A, 0x2F, 0x7D];
    assert s[2..] == [0x2A, 0x2F, 0x7D];
    assert ReadToken(f, doc, 1) == Token(Comment, 1, 5);
    assert doc[5..] == [0x7D];
    assert ReadToken(f, doc, 5) == Token(ObjectEnd, 5, 6);
    assert NextToken(f, doc, 1) == Token(ObjectEnd, 5, 6);
    assert doc[6..] == [];
    assert ReadToken(f, doc, 6) == Token(EndOfStream, 6, 6);
  }
}
