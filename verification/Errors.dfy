/** The errors the reader reports: each names a token of the document, and its message is true of that. */
module ReaderErrors {
  import opened Bytes
  import opened Unquoting
  import opened JsonValue
  import opened Lexer
  import opened Parser

  /** What a message says about the token it names. */
  predicate Fits(f: Features, message: Message, kind: TokenType, text: bytes) {
    match message
    case SyntaxError =>
      kind !in {ObjectBegin, ArrayBegin, StringToken, NumberToken, TrueToken, FalseToken, NullToken, NaNToken,
                PosInfToken, NegInfToken}
    case MissingColon => kind != MemberSeparator
    case MissingCommaOrBrace => kind !in {ArraySeparator, ObjectEnd, Comment}
    case MissingBraceOrName =>
      && kind != StringToken && !(kind == NumberToken && f.allowNumericKeys)
      && !(kind == ObjectEnd && f.allowTrailingCommas)
    case MissingCommaOrBracket => kind !in {ArraySeparator, ArrayEnd}
    case DuplicateKey(key) => f.rejectDupKeys && TokenKey(f, kind, text) == Key(key)
    case NotANumber(t) => kind == NumberToken && t == text && f.parseDouble(text).None?
    case InString(error) => kind == StringToken && |text| >= 2 && DecodeText(text[1..|text| - 1]) == BadString(error)
    case ExtraAfterValue => f.failIfExtra && kind != EndOfStream
    case NotArrayOrObject => false
  }

  /** An error with such a message, at a token the document has there. */
  predicate Apt(f: Features, doc: bytes, e: ErrorInfo) {
    && 0 <= e.start <= e.end <= |doc|
    && ReadToken(f, doc, e.start) == Token(e.kind, e.start, e.end)
    && Fits(f, e.message, e.kind, doc[e.start..e.end])
  }

  predicate AllApt(f: Features, doc: bytes, errors: seq<ErrorInfo>) {
    forall k :: 0 <= k < |errors| ==> Apt(f, doc, errors[k])
  }

  // A token of the document.
  predicate Real(f: Features, doc: bytes, t: Token) {
    t.start <= t.end <= |doc| && ReadToken(f, doc, t.start) == t
  }

  lemma ReadIsReal(f: Features, doc: bytes, i: nat)
    requires i <= |doc|
    ensures Real(f, doc, ReadToken(f, doc, i))
  {
    hide Lexer.ReadToken;
    TokenAgain(f, doc, i);
  }

  lemma {:induction false} NextIsReal(f: Features, doc: bytes, i: nat)
    requires i <= |doc|
    ensures Real(f, doc, NextToken(f, doc, i)) && Real(f, doc, ValueToken(f, doc, i))
    decreases |doc| - i
  {
    hide Lexer.ReadToken, Real;
    ReadIsReal(f, doc, i);
    if ReadToken(f, doc, i).kind == Comment {
      NextIsReal(f, doc, ReadToken(f, doc, i).end);
    }
  }

  lemma AptAt(f: Features, doc: bytes, message: Message, t: Token)
    requires Real(f, doc, t) && Fits(f, message, t.kind, Text(doc, t))
    ensures AllApt(f, doc, [At(message, t)])
  {
    hide Lexer.ReadToken, Fits;
  }

  lemma NothingWrong(f: Features, doc: bytes)
    ensures AllApt(f, doc, [])
  {
  }

  // Where the reader is when it has skipped, one after the other, to the closing tokens of the containers
  // that were open.
  function Unwound(f: Features, doc: bytes, from: nat, closers: seq<TokenType>): (j: nat)
    requires from <= |doc|
    ensures from <= j <= |doc|
    decreases |closers|
  {
    if closers == [] then from else Unwound(f, doc, Recover(f, doc, from, closers[0]), closers[1..])
  }

  lemma {:induction false} UnwoundOnce(f: Features, doc: bytes, from: nat, closers: seq<TokenType>, closer: TokenType)
    requires from <= |doc|
    ensures Unwound(f, doc, from, closers + [closer]) == Recover(f, doc, Unwound(f, doc, from, closers), closer)
    decreases |closers|
  {
    hide Recover;
    if closers == [] {
      assert [] + [closer] == [closer] && [closer][1..] == [];
    } else {
      assert (closers + [closer])[1..] == closers[1..] + [closer];
      UnwoundOnce(f, doc, Recover(f, doc, from, closers[0]), closers[1..], closer);
    }
  }

  // A failure with one apt error, behind which the reader has skipped so.
  ghost predicate Wrong(f: Features, doc: bytes, errors: seq<ErrorInfo>, ok: bool, cur: nat, closers: seq<TokenType>) {
    && AllApt(f, doc, errors)
    && (!ok ==> |errors| == 1 && 0 <= errors[0].end <= |doc| && cur == Unwound(f, doc, errors[0].end, closers))
  }

  // The same in a container: at the end it has skipped to its closing token.
  ghost predicate WrongInside(f: Features, doc: bytes, r: Items, closers: seq<TokenType>, closer: TokenType) {
    r.Items? ==>
      && Wrong(f, doc, r.errors, r.ok, r.cur, closers)
      && (!r.ok ==> closers != [] && closers[|closers| - 1] == closer)
  }

  lemma WrongHere(f: Features, doc: bytes, es: Entries, message: Message, t: Token, closer: TokenType)
    requires Real(f, doc, t) && t.end <= |doc| && Fits(f, message, t.kind, Text(doc, t))
    ensures WrongInside(f, doc, Failed(f, doc, es, [At(message, t)], t.end, closer), [closer], closer)
  {
    hide Lexer.ReadToken, Fits, AllApt, Recover, Real;
    AptAt(f, doc, message, t);
    UnwoundOnce(f, doc, t.end, [], closer);
    assert [] + [closer] == [closer];
  }

  lemma WrongBelow(f: Features, doc: bytes, es: Entries, errors: seq<ErrorInfo>, cur: nat, closers: seq<TokenType>,
                   closer: TokenType)
    requires cur <= |doc| && Wrong(f, doc, errors, false, cur, closers)
    ensures WrongInside(f, doc, Failed(f, doc, es, errors, cur, closer), closers + [closer], closer)
  {
    hide AllApt, Recover;
    UnwoundOnce(f, doc, errors[0].end, closers, closer);
  }

  lemma NothingWrongHere(f: Features, doc: bytes, es: Entries, cur: nat, closer: TokenType)
    ensures WrongInside(f, doc, Items(es, cur, [], true), [closer], closer)
  {
  }

  // A token that is read as a value but is none.
  lemma BadScalarFits(f: Features, kind: TokenType, text: bytes)
    requires kind !in {ObjectBegin, ArrayBegin} && (kind == StringToken ==> |text| >= 2)
    requires TokenScalar(f, kind, text).BadScalar?
    ensures Fits(f, TokenScalar(f, kind, text).message, kind, text)
  {
    hide DecodeText;
  }

  lemma BadKeyFits(f: Features, kind: TokenType, text: bytes)
    requires kind == StringToken ==> |text| >= 2
    ensures var key := TokenKey(f, kind, text);
            && (key.BadKey? ==> Fits(f, key.message, kind, text))
            && (key.NoKey? ==> kind != StringToken && !(kind == NumberToken && f.allowNumericKeys))
  {
    hide NumberScalar, StringScalar, Fits;
    if kind == StringToken || kind == NumberToken {
      if TokenScalar(f, kind, text).BadScalar? {
        BadScalarFits(f, kind, text);
      }
    }
  }

  /** Whatever the reader cannot take for a value, it reports at a token it is true of; then it has skipped,
      from behind that token, to the closing tokens of the containers that were open. */
  lemma {:induction false} ValueErrors(f: Features, doc: bytes, i: nat, depth: nat, was: Value)
    returns (closers: seq<TokenType>)
    requires i <= |doc|
    ensures var o := ReadValue(f, doc, i, depth, was); o.Done? ==> Wrong(f, doc, o.errors, o.ok, o.cur, closers)
    ensures var t := ValueToken(f, doc, i);
            && (t.kind == ObjectBegin ==> closers != [] && closers[|closers| - 1] == ObjectEnd)
            && (t.kind == ArrayBegin ==> closers != [] && closers[|closers| - 1] == ArrayEnd)
            && (t.kind !in {ObjectBegin, ArrayBegin} ==> closers == [])
    decreases |doc| - i, 0
  {
    hide ValueToken, TokenScalar, ReadMembers, ReadElements, AllApt, Fits, Lexer.ReadToken;
    var t := ValueToken(f, doc, i);
    closers := if t.kind == ObjectBegin then [ObjectEnd] else if t.kind == ArrayBegin then [ArrayEnd] else [];
    if depth <= f.stackLimit {
      NothingWrong(f, doc);
      NextIsReal(f, doc, i);
      if t.kind == ObjectBegin {
        var inner := MemberErrors(f, doc, t.end, depth, [], []);
        closers := if inner == [] || inner[|inner| - 1] != ObjectEnd then closers else inner;
      } else if t.kind == ArrayBegin {
        var inner := ElementErrors(f, doc, t.end, depth, []);
        closers := if inner == [] || inner[|inner| - 1] != ArrayEnd then closers else inner;
      } else if TokenScalar(f, t.kind, Text(doc, t)).BadScalar? {
        BadScalarFits(f, t.kind, Text(doc, t));
        AptAt(f, doc, TokenScalar(f, t.kind, Text(doc, t)).message, t);
      }
    }
  }

  lemma {:induction false} MemberErrors(f: Features, doc: bytes, i: nat, depth: nat, es: Entries, name: bytes)
    returns (closers: seq<TokenType>)
    requires i <= |doc|
    ensures WrongInside(f, doc, ReadMembers(f, doc, i, depth, es, name), closers, ObjectEnd)
    decreases |doc| - i, 4
  {
    hide NextToken, KeyedMember, AllApt, Lexer.ReadToken, WrongInside;
    var t := NextToken(f, doc, i);
    closers := [ObjectEnd];
    NextIsReal(f, doc, i);
    if t.kind == ObjectEnd && (name == [] || f.allowTrailingCommas) {
      NothingWrongHere(f, doc, es, t.end, ObjectEnd);
    } else {
      closers := KeyedErrors(f, doc, t, depth, es);
    }
  }

  lemma {:induction false} KeyedErrors(f: Features, doc: bytes, t: Token, depth: nat, es: Entries)
    returns (closers: seq<TokenType>)
    requires t.start <= t.end <= |doc| && Real(f, doc, t) && (t.kind == ObjectEnd ==> !f.allowTrailingCommas)
    requires t.kind == StringToken ==> t.start + 2 <= t.end
    ensures WrongInside(f, doc, KeyedMember(f, doc, t, depth, es), closers, ObjectEnd)
    decreases |doc| - t.end, 3
  {
    hide TokenKey, NamedMember, AllApt, Failed, Lexer.ReadToken, Real, WrongInside;
    var text := Text(doc, t);
    closers := [ObjectEnd];
    BadKeyFits(f, t.kind, text);
    match TokenKey(f, t.kind, text)
    case NoKey => WrongHere(f, doc, es, MissingBraceOrName, t, ObjectEnd);
    case BadKey(m) => WrongHere(f, doc, es, m, t, ObjectEnd);
    case Key(key) => closers := NamedErrors(f, doc, t, depth, es, key);
  }

  lemma {:induction false} NamedErrors(f: Features, doc: bytes, t: Token, depth: nat, es: Entries, key: bytes)
    returns (closers: seq<TokenType>)
    requires t.start <= t.end <= |doc| && Real(f, doc, t) && TokenKey(f, t.kind, Text(doc, t)) == Key(key)
    ensures WrongInside(f, doc, NamedMember(f, doc, t, depth, es, key), closers, ObjectEnd)
    decreases |doc| - t.end, 2
  {
    hide TokenKey, MemberValue, AllApt, Failed, Has, Lexer.ReadToken, Real;
    closers := [ObjectEnd];
    if |key| < KEY_LIMIT {
      if f.rejectDupKeys && Has(es, Name(key)) {
        WrongHere(f, doc, es, DuplicateKey(key), t, ObjectEnd);
      } else {
        closers := MemberValueErrors(f, doc, t.end, depth, es, key);
      }
    }
  }

  lemma {:induction false} MemberValueErrors(f: Features, doc: bytes, i: nat, depth: nat, es: Entries, key: bytes)
    returns (closers: seq<TokenType>)
    requires i <= |doc|
    ensures WrongInside(f, doc, MemberValue(f, doc, i, depth, es, key), closers, ObjectEnd)
    decreases |doc| - i, 1
  {
    hide ReadValue, AfterMember, Failed, Get, Put, Lexer.ReadToken, Wrong, WrongInside;
    var colon := ReadToken(f, doc, i);
    closers := [ObjectEnd];
    ReadIsReal(f, doc, i);
    if colon.kind != MemberSeparator {
      WrongHere(f, doc, es, MissingColon, colon, ObjectEnd);
    } else {
      var was := Get(es, Name(key));
      var inner := ValueErrors(f, doc, colon.end, depth + 1, was);
      var o := ReadValue(f, doc, colon.end, depth + 1, was);
      if o.Thrown? {
        ThrownIsNotWrong(f, doc, o.why, closers, ObjectEnd);
      } else if o.ok {
        closers := AfterMemberErrors(f, doc, o.cur, depth, Put(es, Name(key), o.value), key);
      } else {
        closers := inner + [ObjectEnd];
        WrongBelow(f, doc, Put(es, Name(key), o.value), o.errors, o.cur, inner, ObjectEnd);
      }
    }
  }

  lemma ThrownIsNotWrong(f: Features, doc: bytes, why: Exception, closers: seq<TokenType>, closer: TokenType)
    ensures WrongInside(f, doc, ItemsThrown(why), closers, closer)
  {
  }

  lemma {:induction false} AfterMemberErrors(f: Features, doc: bytes, i: nat, depth: nat, es: Entries, key: bytes)
    returns (closers: seq<TokenType>)
    requires i <= |doc|
    ensures WrongInside(f, doc, AfterMember(f, doc, i, depth, es, key), closers, ObjectEnd)
    decreases |doc| - i, 1
  {
    hide ReadMembers, Failed, Lexer.ReadToken, WrongInside;
    var comma, last := ReadToken(f, doc, i), NextToken(f, doc, i);
    closers := [ObjectEnd];
    ReadIsReal(f, doc, i);
    if comma.kind !in {ObjectEnd, ArraySeparator, Comment} {
      WrongHere(f, doc, es, MissingCommaOrBrace, comma, ObjectEnd);
    } else if last.kind != ObjectEnd {
      closers := MemberErrors(f, doc, last.end, depth, es, key);
    } else {
      NothingWrongHere(f, doc, es, last.end, ObjectEnd);
    }
  }

  lemma {:induction false} ElementErrors(f: Features, doc: bytes, i: nat, depth: nat, es: Entries)
    returns (closers: seq<TokenType>)
    requires i <= |doc|
    ensures WrongInside(f, doc, ReadElements(f, doc, i, depth, es), closers, ArrayEnd)
    decreases |doc| - i, 1
  {
    hide ReadValue, AfterElement, Failed, Put, Spaces, Wrong, WrongInside;
    var at := i + Spaces(doc[i..]);
    closers := [ArrayEnd];
    if at < |doc| && doc[at] == 0x5D
       && (es == [] || (f.allowTrailingCommas && !f.allowDroppedNullPlaceholders)) {
      NothingWrongHere(f, doc, es, at + 1, ArrayEnd);
      return;
    }
    var inner := ValueErrors(f, doc, at, depth + 1, NullValue);
    var o := ReadValue(f, doc, at, depth + 1, NullValue);
    if o.Thrown? {
      ThrownIsNotWrong(f, doc, o.why, closers, ArrayEnd);
    } else if o.ok {
      closers := AfterElementErrors(f, doc, o.cur, depth, Put(es, Index(|es|), o.value));
    } else {
      closers := inner + [ArrayEnd];
      WrongBelow(f, doc, Put(es, Index(|es|), o.value), o.errors, o.cur, inner, ArrayEnd);
    }
  }

  lemma {:induction false} AfterElementErrors(f: Features, doc: bytes, i: nat, depth: nat, es: Entries)
    returns (closers: seq<TokenType>)
    requires i <= |doc|
    ensures WrongInside(f, doc, AfterElement(f, doc, i, depth, es), closers, ArrayEnd)
    decreases |doc| - i, 0
  {
    hide NextToken, ReadElements, Failed, Lexer.ReadToken, WrongInside;
    var t := NextToken(f, doc, i);
    closers := [ArrayEnd];
    NextIsReal(f, doc, i);
    if t.kind == ArraySeparator {
      closers := ElementErrors(f, doc, t.end, depth, es);
    } else if t.kind == ArrayEnd {
      NothingWrongHere(f, doc, es, t.end, ArrayEnd);
    } else {
      WrongHere(f, doc, es, MissingCommaOrBracket, t, ArrayEnd);
    }
  }

  /** A separator or a closing bracket in the place of a value is a null if dropped nulls are allowed, with
      the byte before it for its text, and is left to be read; otherwise it is an error. */
  lemma DroppedNulls(f: Features, doc: bytes, i: nat, depth: nat, was: Value)
    requires i <= |doc| && depth <= f.stackLimit
    requires ValueToken(f, doc, i).kind in {ArraySeparator, ObjectEnd, ArrayEnd}
    ensures var (t, o) := (ValueToken(f, doc, i), ReadValue(f, doc, i, depth, was));
            if f.allowDroppedNullPlaceholders then o == Done(Value(Null, t.start - 1, t.start), t.start, [], true)
            else o == Done(was.(start := t.start, limit := t.end), t.end, [At(SyntaxError, t)], false)
  {
    hide Lexer.ReadToken, ReadMembers, ReadElements, ValueToken;
    NextIsReal(f, doc, i);
  }

  /** A string or number that cannot be decoded leaves the value that was there; so does any other token that
      is no value, which is recorded as its text. */
  lemma FailedValues(f: Features, doc: bytes, i: nat, depth: nat, was: Value)
    requires i <= |doc| && depth <= f.stackLimit
    requires var t := ValueToken(f, doc, i);
             t.kind in {StringToken, NumberToken, EndOfStream, MemberSeparator, Comment, Error}
    ensures var (t, o) := (ValueToken(f, doc, i), ReadValue(f, doc, i, depth, was));
            && o.Done?
            && (!o.ok && t.kind in {StringToken, NumberToken} ==> o.value == was && o.cur == t.end)
            && (t.kind !in {StringToken, NumberToken} ==>
                  o == Done(was.(start := t.start, limit := t.end), t.end, [At(SyntaxError, t)], false))
  {
    hide Lexer.ReadToken, ReadMembers, ReadElements, NumberScalar, StringScalar;
  }

  // Four hexadecimal digits.
  predicate FourDigits(s: bytes) {
    |s| >= 4 && HexValue(s[0]) >= 0 && HexValue(s[1]) >= 0 && HexValue(s[2]) >= 0 && HexValue(s[3]) >= 0
  }

  // The number of four digits.
  function Number(s: bytes): int
    requires |s| >= 4
  {
    ((HexValue(s[0]) * 16 + HexValue(s[1])) * 16 + HexValue(s[2])) * 16 + HexValue(s[3])
  }

  // \u and the digits of a high surrogate.
  predicate HighEscape(s: bytes) {
    |s| >= 6 && s[0] == 92 && s[1] == 117 && FourDigits(s[2..]) && 55296 <= Number(s[2..]) < 56320
  }

  /** What is wrong with a string: nothing behind a backslash, a letter that is no escape, too few digits or
      others behind \u, too little behind a high surrogate, or no second \u there. */
  lemma StringErrors(s: bytes)
    requires s != []
    ensures DecodeTurn(s) == Fail(EmptyEscape) <==> s == [92]
    ensures DecodeTurn(s) == Fail(BadEscape) <==> |s| >= 2 && s[0] == 92 && s[1] != 117 && EscapeMeaning(s[1]) < 0
    ensures DecodeTurn(s) == Fail(FourDigitsExpected) <==> |s| >= 2 && s[0] == 92 && s[1] == 117 && |s| < 6
    ensures DecodeTurn(s) == Fail(HexDigitExpected)
       <==> |s| >= 6 && s[0] == 92 && s[1] == 117
            && (!FourDigits(s[2..])
                || (HighEscape(s) && |s| >= 12 && s[6] == 92 && s[7] == 117 && !FourDigits(s[8..])))
    ensures DecodeTurn(s) == Fail(SixMoreExpected) <==> HighEscape(s) && |s| < 12
    ensures DecodeTurn(s) == Fail(SecondHalfExpected)
       <==> HighEscape(s) && |s| >= 12 && !(s[6] == 92 && s[7] == 117)
    ensures DecodeTurn(s) == Stop <==> s[0] == 34
  {
    hide HexValue;
    if |s| >= 8 {
      assert s[2..][6..] == s[8..];
    }
  }

  // The root is neither an array nor an object, though it must be; this error spans the document, from
  // the byte order mark on.
  predicate RootError(f: Features, document: bytes, e: ErrorInfo) {
    var skipped := SkippedBom(f, document);
    f.strictRoot && e == ErrorInfo(NotArrayOrObject, Error, -(skipped as int), |document| - skipped)
  }

  /** Every error of a parse is apt, but perhaps a last one about the root, those of the value coming first; a
      document is rejected with at least one of them, and accepted with none. */
  lemma ParseErrors(f: Features, document: bytes, was: Value)
    ensures var (o, doc) := (Parse(f, document, was), document[SkippedBom(f, document)..]);
            o.Done? ==>
              && (o.ok <==> o.errors == [])
              && ReadValue(f, doc, 0, 1, was).Done? && ReadValue(f, doc, 0, 1, was).errors <= o.errors
              && o.cur == ValueToken(f, doc, ReadValue(f, doc, 0, 1, was).cur).end
              && (forall k :: 0 <= k < |o.errors| ==>
                    Apt(f, doc, o.errors[k]) || (k == |o.errors| - 1 && RootError(f, document, o.errors[k])))
  {
    hide ReadValue, ValueToken, Apt, Fits, Lexer.ReadToken;
    var doc := document[SkippedBom(f, document)..];
    var o := ReadValue(f, doc, 0, 1, was);
    var closers := ValueErrors(f, doc, 0, 1, was);
    if o.Done? {
      var t := ValueToken(f, doc, o.cur);
      NextIsReal(f, doc, o.cur);
      if f.failIfExtra && t.kind != EndOfStream {
        ExtraFits(f, t.kind, Text(doc, t));
        AptAt(f, doc, ExtraAfterValue, t);
        assert [At(ExtraAfterValue, t)][0] == At(ExtraAfterValue, t);
      }
    }
  }

  lemma ExtraFits(f: Features, kind: TokenType, text: bytes)
    requires f.failIfExtra && kind != EndOfStream
    ensures Fits(f, ExtraAfterValue, kind, text)
  {
  }
}
