/** The reader itself: a cursor, a stack of values under construction and a list of errors. */
module Reader {
  import opened Bytes
  import opened Numbers
  import opened Utf8
  import opened Quoting
  import opened Unquoting
  import opened JsonValue
  import opened Lexer
  import opened Parser

  // How a reading method ends: with its boolean result, or by an exception.
  datatype Status = Returned(ok: bool) | Threw(why: Exception)

  // A stack with v in place of its top.
  ghost predicate Topped(after: seq<Value>, before: seq<Value>, v: Value) {
    before != [] && after == before[..|before| - 1] + [v]
  }

  lemma ToppedTop(after: seq<Value>, before: seq<Value>, v: Value)
    requires Topped(after, before, v)
    ensures |after| == |before| > 0 && after[|after| - 1] == v
  {
  }

  lemma ElementsEnd(f: Features, doc: bytes, i: nat, depth: nat, es: Entries)
    requires i <= |doc| && i + Spaces(doc[i..]) < |doc| && doc[i + Spaces(doc[i..])] == 0x5D
    requires es == [] || (f.allowTrailingCommas && !f.allowDroppedNullPlaceholders)
    ensures ReadElements(f, doc, i, depth, es) == Items(es, i + Spaces(doc[i..]) + 1, [], true)
    ensures var t := Lexer.ReadToken(f, doc, i + Spaces(doc[i..])); t.end == i + Spaces(doc[i..]) + 1
  {
    hide LexAt;
    NothingToSkip(doc, i);
  }

  lemma ToppedPop(after: seq<Value>, before: seq<Value>, v: Value)
    requires Topped(after, before, v)
    ensures |after| == |before| > 0 && after[|after| - 1] == v && after[..|after| - 1] == before[..|before| - 1]
  {
  }

  lemma ToppedSelf(nodes: seq<Value>)
    requires nodes != []
    ensures Topped(nodes, nodes, nodes[|nodes| - 1])
  {
  }

  lemma ToppedThen(a: seq<Value>, b: seq<Value>, c: seq<Value>, v: Value)
    requires Topped(b, a, v)
    ensures forall w | Topped(c, b, w) :: Topped(c, a, w)
  {
  }

  class OurReader {
    const f: Features
    var doc: bytes           // [begin_, end_)
    var current: nat         // current_ - begin_
    var nodes: seq<Value>    // nodes_, the top last
    var errors: seq<ErrorInfo>

    constructor (features: Features)
      ensures f == features && errors == [] && nodes == [] && doc == [] && current == 0
    {
      f := features;
      doc, current, nodes, errors := [], 0, [], [];
    }

    method GetNextChar() returns (c: byte)
      requires current <= |doc|
      modifies `current
      ensures old(current) == |doc| ==> c == 0 && current == old(current)
      ensures old(current) < |doc| ==> c == doc[old(current)] && current == old(current) + 1
    {
      if current == |doc| {
        return 0;
      }
      c := doc[current];
      current := current + 1;
    }

    method SkipSpaces()
      requires current <= |doc|
      modifies `current
      ensures current == old(current) + Spaces(doc[old(current)..])
    {
      while current != |doc|
        invariant current <= |doc|
        invariant current + Spaces(doc[current..]) == old(current) + Spaces(doc[old(current)..])
      {
        var c := doc[current];
        assert doc[current..][1..] == doc[current + 1..];
        if c == 0x20 || c == 0x09 || c == 0x0D || c == 0x0A {
          current := current + 1;
        } else {
          break;
        }
      }
    }

    method Match(pattern: bytes) returns (ok: bool)
      requires current <= |doc|
      modifies `current
      ensures ok <==> pattern <= doc[old(current)..]
      ensures current == old(current) + if ok then |pattern| else 0
    {
      if |doc| - current < |pattern| {
        return false;
      }
      var index := |pattern|;
      while index > 0
        invariant 0 <= index <= |pattern| <= |doc| - current
        invariant forall k :: index <= k < |pattern| ==> doc[current + k] == pattern[k]
      {
        index := index - 1;
        if doc[current + index] != pattern[index] {
          assert doc[current..][index] != pattern[index];
          return false;
        }
      }
      current := current + |pattern|;
      ok := true;
    }

    // readString and readStringSingleQuote, after the opening quote.
    method ReadString(q: byte) returns (ok: bool)
      requires current <= |doc| && q != BACKSLASH && q != 0
      modifies `current
      ensures var n := ScanString(doc[old(current)..], q);
              (ok <==> n >= 0) && current == if ok then old(current) + n else |doc|
    {
      hide ScanString;
      ghost var goal := ScanString(doc[current..], q);
      ghost var done := 0;
      var c: byte := 0;
      while current != |doc|
        invariant current == old(current) + done <= |doc|
        invariant c != q
        invariant var n := ScanString(doc[current..], q);
                  goal == if n < 0 then -1 else n + done
      {
        ScanStep(doc[current..], q);
        ghost var rest := doc[current..];
        assert rest[1..] == doc[current + 1..];
        c := GetNextChar();
        if c == BACKSLASH {
          assert |rest| > 1 ==> rest[2..] == doc[current + 1..];
          var _ := GetNextChar();
        } else if c == q {
          break;
        }
        done := current - old(current);
      }
      ScanNothing(q);
      assert current == |doc| ==> doc[current..] == [];
      ok := c == q;
    }

    // c = (current_ = p) < end_ ? *p++ : '\0'
    method Take(p: nat) returns (c: byte, next: nat)
      requires p <= |doc|
      modifies `current
      ensures current == p
      ensures p < |doc| ==> c == doc[p] && next == p + 1
      ensures p == |doc| ==> c == 0 && next == p
    {
      current := p;
      if current < |doc| {
        c, next := doc[p], p + 1;
      } else {
        c, next := 0, p;
      }
    }

    // while (c >= '0' && c <= '9') c = (current_ = p) < end_ ? *p++ : '\0';
    method TakeDigits(p: nat) returns (c: byte, next: nat)
      requires p <= |doc|
      modifies `current
      ensures current == p + DigitRun(doc[p..])
      ensures current < |doc| ==> c == doc[current] && next == current + 1
      ensures current == |doc| ==> c == 0 && next == current
    {
      c, next := 0x30, p;
      while 0x30 <= c <= 0x39
        invariant p <= next <= |doc|
        invariant Digit(c) ==> next + DigitRun(doc[next..]) == p + DigitRun(doc[p..])
        invariant !Digit(c) ==> && current == p + DigitRun(doc[p..])
                                && (current < |doc| ==> c == doc[current] && next == current + 1)
                                && (current == |doc| ==> c == 0 && next == current)
        decreases |doc| - next, if Digit(c) then 1 else 0
      {
        ghost var rest := doc[next..];
        if rest != [] {
          assert rest[1..] == doc[next + 1..];
        }
        c, next := Take(next);
      }
    }

    // The state between the parts of a number: c is the byte at the cursor, p the position after it.
    ghost predicate Looking(c: byte, p: nat)
      reads this
    {
      && current <= |doc|
      && (current < |doc| ==> c == doc[current] && p == current + 1)
      && (current == |doc| ==> c == 0 && p == current)
    }

    method TakeFraction(c: byte, p: nat) returns (c': byte, p': nat)
      requires Looking(c, p)
      modifies `current
      ensures Looking(c', p') && current == old(current) + FractionRun(doc[old(current)..])
    {
      c', p' := c, p;
      if c == 0x2E {
        assert doc[current..][1..] == doc[p..];
        c', p' := TakeDigits(p);
      }
    }

    method TakeExponent(c: byte, p: nat)
      requires Looking(c, p)
      modifies `current
      ensures current == old(current) + ExponentRun(doc[old(current)..])
    {
      if c == 0x65 || c == 0x45 {
        ghost var rest := doc[current..];
        assert rest[1..] == doc[p..];
        var c', p' := Take(p);
        if c' == 0x2B || c' == 0x2D {
          assert rest[2..] == doc[p'..];
          c', p' := TakeDigits(p');
        } else {
          c', p' := TakeDigits(p);
        }
      }
    }

    // readNumber, after the first character.
    method ReadNumber(checkInf: bool) returns (ok: bool)
      requires current <= |doc|
      modifies `current
      ensures var s := doc[old(current)..];
              ok == !(checkInf && s != [] && s[0] == 0x49)
              && current == old(current) + if ok then NumberRun(s) else 1
    {
      hide DigitRun, FractionRun, ExponentRun;
      ghost var start := current;
      if checkInf && current != |doc| && doc[current] == 0x49 {
        current := current + 1;
        return false;
      }
      var c, p := TakeDigits(current);
      assert doc[start..][current - start..] == doc[current..];
      c, p := TakeFraction(c, p);
      assert doc[start..][current - start..] == doc[current..];
      TakeExponent(c, p);
      ok := true;
    }

    // readCStyleComment, after the opening "/*".
    method ReadCStyleComment() returns (ok: bool)
      requires current <= |doc|
      modifies `current
      ensures var r := BlockComment(doc[old(current)..]);
              ok == r.ok && current == old(current) + r.size
    {
      ghost var start := current;
      ghost var goal := BlockComment(doc[current..]);
      while current + 1 < |doc|
        invariant start <= current <= |doc|
        invariant var r := BlockComment(doc[current..]);
                  goal == Scan(r.size + current - start, r.ok)
      {
        ghost var rest := doc[current..];
        assert rest[1..] == doc[current + 1..];
        var c := GetNextChar();
        if c == 0x2A && doc[current] == 0x2F {
          assert goal == Scan(current + 1 - start, true);
          break;
        }
      }
      var c := GetNextChar();
      ok := c == 0x2F;
    }

    // readCppStyleComment, after the opening "//".
    method ReadCppStyleComment()
      requires current <= |doc|
      modifies `current
      ensures current == old(current) + LineComment(doc[old(current)..])
    {
      ghost var goal := current + LineComment(doc[current..]);
      while current != |doc|
        invariant current <= |doc|
        invariant goal == current + LineComment(doc[current..])
      {
        ghost var rest := doc[current..];
        assert rest[1..] == doc[current + 1..];
        var c := GetNextChar();
        if c == 0x0A {
          break;
        }
        if c == 0x0D {
          if current != |doc| && doc[current] == 0x0A {
            var _ := GetNextChar();
          }
          break;
        }
      }
    }

    // readComment, after the '/'.
    method ReadComment() returns (ok: bool)
      requires 0 < current <= |doc|
      modifies `current
      ensures var l := LexComment(doc[old(current) - 1..]);
              ok == (l.kind == Comment) && l.kind in {Comment, Error}
              && current == old(current) - 1 + l.size
    {
      ghost var s := doc[current - 1..];
      assert current < |doc| ==> s[1] == doc[current] && s[2..] == doc[current + 1..];
      var c := GetNextChar();
      if c == 0x2A {
        ok := ReadCStyleComment();
      } else if c == 0x2F {
        ReadCppStyleComment();
        ok := true;
      } else {
        ok := false;
      }
    }

    // A string token, after its opening quote; a signed number or infinity, after its sign; a
    // word, after its first letter: each in terms of the text from that first character on.

    method FinishString(q: byte) returns (ok: bool)
      requires 0 < current <= |doc| && q != BACKSLASH && q != 0
      modifies `current
      ensures var l := LexString(doc[old(current) - 1..], q);
              ok == (l.kind == StringToken) && l.kind in {StringToken, Error}
              && current == old(current) - 1 + l.size
    {
      assert doc[current - 1..][1..] == doc[current..];
      ok := ReadString(q);
    }

    method FinishWord(pattern: bytes, used: nat, ghost kind: TokenType) returns (ok: bool)
      requires 0 < used <= current <= |doc| && kind != Error
      modifies `current
      ensures var l := Word(doc[old(current) - used..], kind, pattern, used);
              ok == (l.kind != Error) && l.kind in {kind, Error}
              && current == old(current) - used + l.size
    {
      assert doc[current - used..][used..] == doc[current..];
      ok := Match(pattern);
    }

    method FinishSigned(infinity: TokenType) returns (kind: TokenType)
      requires 0 < current <= |doc| && infinity in {PosInfToken, NegInfToken}
      modifies `current
      ensures var l := LexSigned(f, doc[old(current) - 1..], infinity);
              kind == l.kind && current == old(current) - 1 + l.size
    {
      ghost var s := doc[current - 1..];
      assert s[1..] == doc[current..];
      var number := ReadNumber(true);
      if number {
        return NumberToken;
      }
      kind := Error;
      if f.allowSpecialFloats {
        var ok := FinishWord(INFINITY_REST, 2, infinity);
        if ok {
          kind := infinity;
        }
      }
    }

    method ReadToken() returns (t: Token, ok: bool)
      requires current <= |doc|
      modifies `current
      ensures t == Lexer.ReadToken(f, doc, old(current))
      ensures current == t.end && ok == (t.kind != Error)
    {
      hide LexAt, Spaces;
      ghost var expected := Lexer.ReadToken(f, doc, current);
      SkipSpaces();
      var start := current;
      assert start == expected.start;
      var kind := EndOfStream;
      if current == |doc| {
        var _ := GetNextChar();
      } else {
        kind := ReadAfterSpaces();
      }
      t := Token(kind, start, current);
      ok := kind != Error;
      assert t == expected;
    }

    // The switch of readToken.
    method ReadAfterSpaces() returns (kind: TokenType)
      requires current < |doc|
      modifies `current
      ensures var l := LexAt(f, doc[old(current)..]);
              kind == l.kind && current == old(current) + l.size
    {
      hide Word, LexString, LexComment, LexSigned, NumberRun;
      ghost var s := doc[current..];
      var c := GetNextChar();
      assert s[0] == c && s[1..] == doc[current..];
      var ok := true;
      match c {
        case 0x7B => kind := ObjectBegin;
        case 0x7D => kind := ObjectEnd;
        case 0x5B => kind := ArrayBegin;
        case 0x5D => kind := ArrayEnd;
        case 0x22 =>
          kind := StringToken;
          ok := FinishString(0x22);
        case 0x27 =>
          kind := StringToken;
          if f.allowSingleQuotes {
            ok := FinishString(0x27);
          } else {
            ok := false;
          }
        case 0x2F =>
          kind := Comment;
          ok := ReadComment();
        case 0x2D => kind := FinishSigned(NegInfToken);
        case 0x2B => kind := FinishSigned(PosInfToken);
        case 0x74 =>
          kind := TrueToken;
          ok := FinishWord(TRUE_REST, 1, kind);
        case 0x66 =>
          kind := FalseToken;
          ok := FinishWord(FALSE_REST, 1, kind);
        case 0x6E =>
          kind := NullToken;
          ok := FinishWord(NULL_REST, 1, kind);
        case 0x4E =>
          kind := NaNToken;
          if f.allowSpecialFloats {
            ok := FinishWord(NAN_REST, 1, kind);
          } else {
            ok := false;
          }
        case 0x49 =>
          kind := PosInfToken;
          if f.allowSpecialFloats {
            ok := FinishWord(INFINITY_REST, 1, kind);
          } else {
            ok := false;
          }
        case 0x2C => kind := ArraySeparator;
        case 0x3A => kind := MemberSeparator;
        case 0x00 => kind := EndOfStream;
        case _ =>
          kind := Error;
          if 0x30 <= c <= 0x39 {
            kind := NumberToken;
            var _ := ReadNumber(false);
          }
      }
      if !ok {
        kind := Error;
      }
    }

    // Errors ----------------------------------------------------------------------------------

    method AddError(message: Message, t: Token)
      modifies `errors
      ensures errors == old(errors) + [At(message, t)]
    {
      errors := errors + [At(message, t)];
    }

    // Skip to a token of the given kind, forgetting whatever errors are met on the way.
    method RecoverFromError(skipUntil: TokenType)
      requires current <= |doc|
      modifies `current, `errors
      ensures current == Recover(f, doc, old(current), skipUntil)
      ensures errors == old(errors)
    {
      hide Lexer.ReadToken;
      var errorCount := |errors|;
      ghost var goal := Recover(f, doc, current, skipUntil);
      while true
        invariant current <= |doc| && errors == old(errors)
        invariant Recover(f, doc, current, skipUntil) == goal
        decreases |doc| - current
      {
        var skip, ok := ReadToken();
        if !ok {
          errors := errors[..errorCount];
        }
        if skip.kind == skipUntil || skip.kind == EndOfStream {
          break;
        }
      }
      errors := errors[..errorCount];
    }

    // Comments --------------------------------------------------------------------------------

    // The loops that read on while they find comments.
    method SkipComments(t0: Token, ghost i: nat) returns (t: Token)
      requires i <= |doc| && t0 == Lexer.ReadToken(f, doc, i) && current == t0.end
      modifies `current
      ensures t == NextToken(f, doc, i) && current == t.end
    {
      t := t0;
      ghost var from: nat := i;
      while t.kind == Comment
        invariant from <= |doc| && t == Lexer.ReadToken(f, doc, from) && current == t.end
        invariant NextToken(f, doc, from) == NextToken(f, doc, i)
        decreases |doc| - from
      {
        from := current;
        var ok;
        t, ok := ReadToken();
      }
    }

    method SkipCommentTokens() returns (t: Token)
      requires current <= |doc|
      modifies `current
      ensures t == ValueToken(f, doc, old(current)) && current == t.end
    {
      ghost var from := current;
      var ok;
      t, ok := ReadToken();
      if f.allowComments {
        t := SkipComments(t, from);
      }
    }

    // Strings ---------------------------------------------------------------------------------

    // decodeUnicodeEscapeSequence
    method DecodeUnicodeEscapeSequence(t: Token, at: nat, end: nat) returns (ok: bool, next: nat, unicode: nat)
      requires at <= end <= |doc|
      modifies `errors
      ensures match DecodeHex(doc[at..end])
              case Hex(u) => ok && next == at + 4 && unicode == u && errors == old(errors)
              case BadHex(e) => !ok && errors == old(errors) + [At(InString(e), t)]
    {
      ghost var s := doc[at..end];
      next, unicode := at, 0;
      if end - at < 4 {
        AddError(InString(FourDigitsExpected), t);
        return false, next, unicode;
      }
      var index := 0;
      while index < 4
        invariant 0 <= index <= 4 && next == at + index && errors == old(errors)
        invariant forall k :: 0 <= k < index ==> HexValue(s[k]) >= 0
        invariant index == 0 ==> unicode == 0
        invariant index == 1 ==> unicode == HexValue(s[0])
        invariant index == 2 ==> unicode == HexValue(s[0]) * 16 + HexValue(s[1])
        invariant index == 3 ==> unicode == (HexValue(s[0]) * 16 + HexValue(s[1])) * 16 + HexValue(s[2])
        invariant index == 4 ==> DecodeHex(s) == Hex(unicode)
      {
        var c := doc[next];
        assert c == s[index];
        next := next + 1;
        var digit: int;
        if 0x30 <= c <= 0x39 {
          digit := c as int - 0x30;
        } else if 0x61 <= c <= 0x66 {
          digit := c as int - 0x61 + 10;
        } else if 0x41 <= c <= 0x46 {
          digit := c as int - 0x41 + 10;
        } else {
          AddError(InString(HexDigitExpected), t);
          return false, next, unicode;
        }
        unicode := unicode * 16 + digit;
        index := index + 1;
      }
      ok := true;
    }

    // decodeUnicodeCodePoint
    method DecodeUnicodeCodePoint(t: Token, at: nat, end: nat) returns (ok: bool, next: nat, unicode: nat)
      requires at <= end <= |doc|
      modifies `errors
      ensures match DecodeCodePoint(doc[at..end])
              case CodePoint(u, used) => ok && next == at + used && unicode == u && errors == old(errors)
              case BadCodePoint(e) => !ok && errors == old(errors) + [At(InString(e), t)]
    {
      ghost var s := doc[at..end];
      ok, next, unicode := DecodeUnicodeEscapeSequence(t, at, end);
      if ok && 0xD800 <= unicode <= 0xDBFF {
        if end - next < 6 {
          AddError(InString(SixMoreExpected), t);
          return false, next, unicode;
        }
        assert doc[next] == s[4] && doc[next + 1] == s[5] && doc[next + 2..end] == s[6..];
        if doc[next] == BACKSLASH && doc[next + 1] == LETTER_U {
          var second;
          ok, next, second := DecodeUnicodeEscapeSequence(t, next + 2, end);
          if ok {
            unicode := 0x10000 + unicode % 1024 * 1024 + second % 1024;
          }
        } else {
          AddError(InString(SecondHalfExpected), t);
          ok := false;
        }
      }
    }

    // One turn of the loop of decodeString, after its test for a bare quote.
    method DecodePiece(t: Token, at: nat, end: nat) returns (ok: bool, next: nat, piece: bytes)
      requires at < end <= |doc| && doc[at] != QUOTE
      modifies `errors
      ensures match DecodeTurn(doc[at..end])
              case Stop => false
              case Emit(text, used) => ok && next == at + used && piece == text && errors == old(errors)
              case Fail(e) => !ok && errors == old(errors) + [At(InString(e), t)]
    {
      ghost var s := doc[at..end];
      var c := doc[at];
      next, piece := at + 1, [];
      if c != BACKSLASH {
        return true, next, [c];
      }
      if next == end {
        AddError(InString(EmptyEscape), t);
        return false, next, piece;
      }
      var escape := doc[next];
      assert escape == s[1] && doc[at + 2..end] == s[2..];
      next := next + 1;
      if escape == LETTER_U {
        var unicode;
        ok, next, unicode := DecodeUnicodeCodePoint(t, next, end);
        if ok {
          piece := CodePointToUTF8(unicode);
        }
      } else if EscapeMeaning(escape) >= 0 {
        ok, piece := true, [EscapeMeaning(escape)];
      } else {
        AddError(InString(BadEscape), t);
        ok := false;
      }
    }

    // decodeString(token, decoded)
    method DecodeStringInto(t: Token) returns (ok: bool, decoded: bytes)
      requires t.start + 2 <= t.end <= |doc|
      modifies `errors
      ensures match DecodeText(doc[t.start + 1..t.end - 1])
              case Decoded(s) => ok && decoded == s && errors == old(errors)
              case BadString(e) => !ok && errors == old(errors) + [At(InString(e), t)]
    {
      hide DecodeTurn;
      decoded := [];
      var at, end := t.start + 1, t.end - 1;
      ghost var goal := DecodeText(doc[at..end]);
      ghost var rest := doc[at..end];
      while at != end
        invariant t.start + 1 <= at <= end && rest == doc[at..end] && errors == old(errors)
        invariant Prepend(decoded, DecodeText(rest)) == goal
        decreases end - at
      {
        QuoteStops(rest);
        if doc[at] == QUOTE {
          break;
        }
        ghost var turn := DecodeTurn(rest);
        var piece;
        ok, at, piece := DecodePiece(t, at, end);
        if !ok {
          return false, decoded;
        }
        PrependTwice(decoded, piece, DecodeText(rest[turn.used..]));
        assert rest[turn.used..] == doc[at..end];
        rest := doc[at..end];
        decoded := decoded + piece;
      }
      ok := true;
    }

    // Numbers ---------------------------------------------------------------------------------

    // decodeNumber(token, decoded), with decodeDouble as its last resort.
    method DecodeNumberInto(t: Token) returns (ok: bool, decoded: Payload)
      requires t.start < t.end <= |doc|
      modifies `errors
      ensures match NumberScalar(f, doc[t.start..t.end])
              case Scalar(p) => ok && decoded == p && errors == old(errors)
              case BadScalar(m) => !ok && errors == old(errors) + [At(m, t)]
    {
      var text := doc[t.start..t.end];
      var number := DecodeNumber(text);
      decoded, ok := Null, true;
      match number {
        case IntNumber(i) => decoded := Int(i);
        case UIntNumber(u) => decoded := UInt(u);
        case AsDouble =>
          match f.parseDouble(text) {
            case Some(d) => decoded := Real(d);
            case None =>
              AddError(NotANumber(text), t);
              ok := false;
          }
      }
    }

    // The current value -----------------------------------------------------------------------

    function Top(): Value
      requires nodes != []
      reads this
    {
      nodes[|nodes| - 1]
    }

    method SetTop(v: Value)
      requires nodes != []
      modifies `nodes
      ensures Topped(nodes, old(nodes), v) && |nodes| == |old(nodes)| && Top() == v
    {
      nodes := nodes[..|nodes| - 1] + [v];
    }

    // What a method that reads into the current value leaves behind: the outcome the
    // specification gives, with the stack below untouched and the new errors at the end.
    ghost predicate Leaves(o: Outcome, s: Status, nodes0: seq<Value>, errors0: seq<ErrorInfo>)
      requires nodes0 != []
      reads this
    {
      match o
      case Thrown(e) => s == Threw(e)
      case Done(v, cur, errs, ok) =>
        && s == Returned(ok)
        && Topped(nodes, nodes0, v)
        && current == cur
        && errors == errors0 + errs
    }

    // The container being read: its entries in the current value, whose limit is not set yet.
    function Container(isObject: bool, es: Entries, start: int, limit: int): Value {
      Value(if isObject then Obj(es) else Arr(es), start, limit)
    }

    ghost predicate LeavesItems(r: Items, s: Status, isObject: bool, start: int, limit: int,
                                nodes0: seq<Value>, errors0: seq<ErrorInfo>)
      requires nodes0 != []
      reads this
    {
      match r
      case ItemsThrown(e) => s == Threw(e)
      case Items(es, cur, errs, ok) =>
        && s == Returned(ok)
        && Topped(nodes, nodes0, Container(isObject, es, start, limit))
        && current == cur
        && errors == errors0 + errs
    }

    // Give a container up: skip to its end, keeping the errors already added.
    method GiveUp(skipUntil: TokenType, ghost es: Entries, ghost errs: seq<ErrorInfo>, ghost errors0: seq<ErrorInfo>,
                  ghost isObject: bool, ghost start: int, ghost limit: int)
      returns (s: Status)
      requires nodes != [] && Top() == Container(isObject, es, start, limit)
      requires errors == errors0 + errs && current <= |doc|
      modifies `current, `errors
      ensures LeavesItems(Failed(f, doc, es, errs, old(current), skipUntil), s, isObject, start, limit, nodes, errors0)
    {
      hide Recover, Topped;
      ToppedSelf(nodes);
      RecoverFromError(skipUntil);
      s := Returned(false);
    }

    method AddErrorAndRecover(message: Message, t: Token, skipUntil: TokenType, ghost es: Entries,
                              ghost isObject: bool, ghost start: int, ghost limit: int)
      returns (s: Status)
      requires nodes != [] && Top() == Container(isObject, es, start, limit) && current <= |doc|
      modifies `current, `errors
      ensures LeavesItems(Failed(f, doc, es, [At(message, t)], old(current), skipUntil), s, isObject, start, limit,
                          nodes, old(errors))
    {
      ghost var errors0 := errors;
      AddError(message, t);
      s := GiveUp(skipUntil, es, [At(message, t)], errors0, isObject, start, limit);
    }

    // Values ----------------------------------------------------------------------------------

    // The scalar cases of readValue's switch.
    method ReadScalar(t: Token) returns (s: Status)
      requires nodes != [] && current == t.end <= |doc| && t.start <= t.end
      requires t.kind == NumberToken ==> t.start < t.end
      requires t.kind == StringToken ==> t.start + 2 <= t.end
      modifies this
      ensures doc == old(doc)
      ensures Leaves(match TokenScalar(f, t.kind, Text(doc, t))
                     case Scalar(p) => Done(Value(p, t.start, t.end), t.end, [], true)
                     case BadScalar(m) =>
                       Done(if t.kind == NumberToken || t.kind == StringToken then old(Top())
                            else old(Top()).(start := t.start, limit := t.end), t.end, [At(m, t)], false),
                     s, old(nodes), old(errors))
    {
      hide NumberScalar, DecodeText, Topped, At;
      var ok := true;
      var p := Null;
      match t.kind {
        case NumberToken =>
          ok, p := DecodeNumberInto(t);
        case StringToken =>
          var text;
          ok, text := DecodeStringInto(t);
          p := Str(text);
          SliceInner(doc, t.start, t.end);
        case TrueToken => p := Bool(true);
        case FalseToken => p := Bool(false);
        case NullToken => p := Null;
        case NaNToken => p := Real(NaN);
        case PosInfToken => p := Real(PosInf);
        case NegInfToken => p := Real(NegInf);
        case _ =>
          SetTop(Top().(start := t.start, limit := t.end));
          AddError(SyntaxError, t);
          return Returned(false);
      }
      if ok {
        SetTop(Value(p, t.start, t.end));
      } else {
        ToppedSelf(nodes);
      }
      s := Returned(ok);
    }

    // setOffsetLimit of the container just read.
    method FinishContainer(s: Status, ghost r: Items, ghost isObject: bool, ghost start: int, ghost nodes0: seq<Value>,
                           ghost errors0: seq<ErrorInfo>)
      requires nodes0 != [] && LeavesItems(r, s, isObject, start, nodes0[|nodes0| - 1].limit, nodes0, errors0)
      modifies `nodes
      ensures Leaves(match r
                     case ItemsThrown(e) => Thrown(e)
                     case Items(es, cur, errs, ok) =>
                       Done(Value(if isObject then Obj(es) else Arr(es), start, cur), cur, errs, ok),
                     s, nodes0, errors0)
    {
      hide Topped;
      if s.Returned? {
        ghost var nodes1, read := nodes, Container(isObject, r.entries, start, nodes0[|nodes0| - 1].limit);
        ToppedTop(nodes, nodes0, read);
        SetTop(Top().(limit := current));
        ToppedThen(nodes0, nodes1, nodes, read);
      }
    }

    /** readValue: reads a value into the top of the stack. (That the stack never holds more than
        stackLimit + 1 values is proved at every call.) */
    method ReadValue() returns (s: Status)
      requires nodes != [] && current <= |doc|
      requires |nodes| <= f.stackLimit + 1
      modifies this
      ensures doc == old(doc)
      ensures Leaves(Parser.ReadValue(f, doc, old(current), |old(nodes)|, old(Top())), s, old(nodes), old(errors))
      decreases |doc| - current, 0
    {
      hide ReadMembers, ReadElements, ValueToken, TokenScalar, Text, Get, LowerBound, Has, NumberScalar, Topped;
      ghost var nodes0, errors0 := nodes, errors;
      if |nodes| > f.stackLimit {
        return Threw(StackLimitExceeded);
      }
      var t := SkipCommentTokens();
      if t.kind == ObjectBegin {
        s := ReadObject(t);
        FinishContainer(s, ReadMembers(f, doc, t.end, |nodes0|, [], []), true, t.start, nodes0, errors0);
      } else if t.kind == ArrayBegin {
        s := ReadArray(t);
        FinishContainer(s, ReadElements(f, doc, t.end, |nodes0|, []), false, t.start, nodes0, errors0);
      } else if f.allowDroppedNullPlaceholders && t.kind in {ArraySeparator, ObjectEnd, ArrayEnd} {
        // Un-read the token and take the value for a null.
        current := current - 1;
        SetTop(Value(Null, current - 1, current));
        s := Returned(true);
      } else {
        s := ReadScalar(t);
      }
    }

    // The value of a member or an element: it goes on the stack, and is popped when it is read.
    method ReadChild(was: Value) returns (s: Status, value: Value, ghost errs: seq<ErrorInfo>)
      requires nodes != [] && |nodes| <= f.stackLimit && current <= |doc|
      modifies this
      ensures doc == old(doc)
      ensures match Parser.ReadValue(f, doc, old(current), |old(nodes)| + 1, was)
              case Thrown(e) => s == Threw(e)
              case Done(v, cur, es, ok) =>
                s == Returned(ok) && value == v && nodes == old(nodes) && current == cur
                && errors == old(errors) + errs && errs == es
      decreases |doc| - current, 1
    {
      hide Parser.ReadValue, Topped;
      value, errs := was, [];
      ghost var pushed := nodes + [was];
      nodes := nodes + [was];
      ghost var o := Parser.ReadValue(f, doc, current, |nodes|, was);
      s := ReadValue();
      if s.Returned? {
        ToppedPop(nodes, pushed, o.value);
        errs := o.errors;
        value := Top();
        nodes := nodes[..|nodes| - 1];
        assert nodes == pushed[..|pushed| - 1] == old(nodes);
      }
    }

    // The token of a member name, or of anything else in its place.
    method ReadName(t: Token) returns (key: KeyName)
      requires t.start <= t.end <= |doc|
      requires t.kind == NumberToken ==> t.start < t.end
      requires t.kind == StringToken ==> t.start + 2 <= t.end
      modifies `errors
      ensures key == TokenKey(f, t.kind, Text(doc, t))
      ensures errors == old(errors) + if key.BadKey? then [At(key.message, t)] else []
    {
      hide DecodeText, NumberScalar, IntText;
      if t.kind == StringToken {
        SliceInner(doc, t.start, t.end);
        var ok, text := DecodeStringInto(t);
        key := if ok then Key(text) else BadKey(errors[|errors| - 1].message);
      } else if t.kind == NumberToken && f.allowNumericKeys {
        var ok, p := DecodeNumberInto(t);
        if !ok {
          return BadKey(errors[|errors| - 1].message);
        }
        match p {
          case Int(i) => key := Key(IntText(i));
          case UInt(u) => key := Key(IntText(u));
          case Real(d) => key := Key(f.printDouble(d));
          case _ => key := NoKey;
        }
      } else {
        key := NoKey;
      }
    }

    // A member after its name: colon, value, separator. `more` says the loop goes on, with the
    // entries es'.
    method ReadMember(name: bytes, ghost depth: nat, ghost es: Entries, ghost start: int, ghost limit: int)
      returns (s: Status, more: bool, ghost es': Entries)
      requires 0 < depth == |nodes| <= f.stackLimit && nodes[depth - 1] == Container(true, es, start, limit)
      requires current <= |doc|
      modifies this
      ensures doc == old(doc)
      ensures !more ==> LeavesItems(MemberValue(f, doc, old(current), depth, es, name), s, true, start, limit,
                                    old(nodes), old(errors))
      ensures more ==>
                && old(current) < current <= |doc| && errors == old(errors)
                && Topped(nodes, old(nodes), Container(true, es', start, limit))
                && ReadMembers(f, doc, current, depth, es', name) == MemberValue(f, doc, old(current), depth, es, name)
      decreases |doc| - current, 2
    {
      hide Lexer.ReadToken, Failed, ReadMembers, StoredMember, Text;
      more, es' := false, es;
      var colon, ok := ReadToken();
      if !ok || colon.kind != MemberSeparator {
        s := AddErrorAndRecover(MissingColon, colon, ObjectEnd, es, true, start, limit);
        return;
      }
      s, more, es' := StoreMember(name, depth, es, start, limit);
    }

    // The member's value, stored under its name.
    method StoreMember(name: bytes, ghost depth: nat, ghost es: Entries, ghost start: int, ghost limit: int)
      returns (s: Status, more: bool, ghost es': Entries)
      requires 0 < depth == |nodes| <= f.stackLimit && nodes[depth - 1] == Container(true, es, start, limit)
      requires current <= |doc|
      modifies this
      ensures doc == old(doc)
      ensures !more ==> LeavesItems(StoredMember(f, doc, old(current), depth, es, name), s, true, start, limit,
                                    old(nodes), old(errors))
      ensures more ==>
                && old(current) < current <= |doc| && errors == old(errors)
                && Topped(nodes, old(nodes), Container(true, es', start, limit))
                && ReadMembers(f, doc, current, depth, es', name) == StoredMember(f, doc, old(current), depth, es, name)
      decreases |doc| - current, 2
    {
      hide Failed, Put, Get, Parser.ReadValue, ReadMembers, AfterMember, LowerBound, Has, Topped;
      more, es' := false, es;
      ghost var nodes0, errors0 := nodes, errors;
      var entries := Top().p.entries;
      var value;
      ghost var errs;
      s, value, errs := ReadChild(Get(entries, Name(name)));
      if s.Threw? {
        return;
      }
      SetTop(Top().(p := Obj(Put(entries, Name(name), value))));
      es' := Put(es, Name(name), value);
      ToppedThen(nodes0, nodes, nodes, Container(true, es', start, limit));
      if !s.ok {
        s := GiveUp(ObjectEnd, es', errs, errors0, true, start, limit);
        return;
      }
      s, more := ReadMemberSeparator(name, depth, es', start, limit);
    }

    // What follows a member: a comma, or the end of the object.
    method ReadMemberSeparator(ghost name: bytes, ghost depth: nat, ghost es: Entries, ghost start: int,
                               ghost limit: int)
      returns (s: Status, more: bool)
      requires 0 < depth == |nodes| <= f.stackLimit && nodes[depth - 1] == Container(true, es, start, limit)
      requires current <= |doc|
      modifies `current, `errors
      ensures !more ==> LeavesItems(AfterMember(f, doc, old(current), depth, es, name), s, true, start, limit,
                                    old(nodes), old(errors))
      ensures more ==>
                && s == Returned(true) && old(current) < current <= |doc| && errors == old(errors)
                && ReadMembers(f, doc, current, depth, es, name) == AfterMember(f, doc, old(current), depth, es, name)
    {
      hide Lexer.ReadToken, NextToken, Failed, ReadMembers, Text, Topped;
      ToppedSelf(nodes);
      ghost var from := current;
      var comma, ok := ReadToken();
      if !ok || comma.kind !in {ObjectEnd, ArraySeparator, Comment} {
        s := AddErrorAndRecover(MissingCommaOrBrace, comma, ObjectEnd, es, true, start, limit);
        return s, false;
      }
      comma := SkipComments(comma, from);
      return Returned(true), comma.kind != ObjectEnd;
    }

    // One turn of the loop of readObject: a name and its member, or the end of the object.
    method ReadMemberOrEnd(name: bytes, ghost depth: nat, ghost es: Entries, ghost start: int, ghost limit: int)
      returns (s: Status, more: bool, name': bytes, ghost es': Entries)
      requires 0 < depth == |nodes| <= f.stackLimit && nodes[depth - 1] == Container(true, es, start, limit)
      requires current <= |doc|
      modifies this
      ensures doc == old(doc)
      ensures !more ==> LeavesItems(ReadMembers(f, doc, old(current), depth, es, name), s, true, start, limit,
                                    old(nodes), old(errors))
      ensures more ==>
                && old(current) < current <= |doc| && errors == old(errors)
                && Topped(nodes, old(nodes), Container(true, es', start, limit))
                && ReadMembers(f, doc, current, depth, es', name') == ReadMembers(f, doc, old(current), depth, es, name)
      decreases |doc| - current, 5
    {
      hide Lexer.ReadToken, NextToken, KeyedMember, Text, Topped;
      more, name', es' := false, name, es;
      ToppedSelf(nodes);
      ghost var from := current;
      var t, ok := ReadToken();
      t := SkipComments(t, from);
      if t.kind == ObjectEnd && (name == [] || f.allowTrailingCommas) {
        s := Returned(true);
        return;
      }
      s, more, name', es' := ReadKeyedMember(t, depth, es, start, limit);
    }

    // A member from its name's token on.
    method ReadKeyedMember(t: Token, ghost depth: nat, ghost es: Entries, ghost start: int, ghost limit: int)
      returns (s: Status, more: bool, name': bytes, ghost es': Entries)
      requires 0 < depth == |nodes| <= f.stackLimit && nodes[depth - 1] == Container(true, es, start, limit)
      requires current == t.end <= |doc| && t.start <= t.end
      requires t.kind == NumberToken ==> t.start < t.end
      requires t.kind == StringToken ==> t.start + 2 <= t.end
      modifies this
      ensures doc == old(doc)
      ensures !more ==> LeavesItems(KeyedMember(f, doc, t, depth, es), s, true, start, limit, old(nodes), old(errors))
      ensures more ==>
                && old(current) < current <= |doc| && errors == old(errors)
                && Topped(nodes, old(nodes), Container(true, es', start, limit))
                && ReadMembers(f, doc, current, depth, es', name') == KeyedMember(f, doc, t, depth, es)
      decreases |doc| - current, 4
    {
      hide Failed, TokenKey, NamedMember, ReadMembers, Text, Topped;
      more, name', es' := false, [], es;
      ghost var errors0 := errors;
      var key := ReadName(t);
      match key {
        case NoKey =>
          s := AddErrorAndRecover(MissingBraceOrName, t, ObjectEnd, es, true, start, limit);
        case BadKey(_) =>
          s := GiveUp(ObjectEnd, es, [At(key.message, t)], errors0, true, start, limit);
        case Key(k) =>
          name' := k;
          s, more, es' := ReadNamedMember(t, k, depth, es, start, limit);
      }
    }

    // A member whose name has been decoded.
    method ReadNamedMember(t: Token, name: bytes, ghost depth: nat, ghost es: Entries, ghost start: int,
                           ghost limit: int)
      returns (s: Status, more: bool, ghost es': Entries)
      requires 0 < depth == |nodes| <= f.stackLimit && nodes[depth - 1] == Container(true, es, start, limit)
      requires current == t.end <= |doc|
      modifies this
      ensures doc == old(doc)
      ensures !more ==> LeavesItems(NamedMember(f, doc, t, depth, es, name), s, true, start, limit,
                                    old(nodes), old(errors))
      ensures more ==>
                && old(current) < current <= |doc| && errors == old(errors)
                && Topped(nodes, old(nodes), Container(true, es', start, limit))
                && ReadMembers(f, doc, current, depth, es', name) == NamedMember(f, doc, t, depth, es, name)
      decreases |doc| - current, 3
    {
      hide Failed, Has, MemberValue, ReadMembers, Put, Topped;
      more, es' := false, es;
      ToppedSelf(nodes);
      if |name| >= KEY_LIMIT {
        s := Threw(KeyTooLong);
      } else if f.rejectDupKeys && Has(Top().p.entries, Name(name)) {
        s := AddErrorAndRecover(DuplicateKey(name), t, ObjectEnd, es, true, start, limit);
      } else {
        s, more, es' := ReadMember(name, depth, es, start, limit);
      }
    }

    /** readObject, after the '{'. */
    method ReadObject(t: Token) returns (s: Status)
      requires nodes != [] && t.end == current <= |doc|
      requires |nodes| <= f.stackLimit
      modifies this
      ensures doc == old(doc)
      ensures LeavesItems(ReadMembers(f, doc, old(current), |old(nodes)|, [], []), s, true, t.start,
                          old(Top()).limit, old(nodes), old(errors))
      decreases |doc| - current, 6
    {
      hide ReadMembers, Topped;
      ghost var depth, goal := |nodes|, ReadMembers(f, doc, current, |nodes|, [], []);
      ghost var nodes0, limit := nodes, Top().limit;
      SetTop(Value(Obj([]), t.start, Top().limit));
      var name: bytes := [];
      ghost var es: Entries := [];
      var more := true;
      s := Returned(true);
      while more
        invariant doc == old(doc)
        invariant !more ==> LeavesItems(goal, s, true, t.start, limit, old(nodes), old(errors))
        invariant more ==> old(current) <= current <= |doc| && errors == old(errors)
        invariant more ==> Topped(nodes, old(nodes), Container(true, es, t.start, limit))
        invariant more ==> ReadMembers(f, doc, current, depth, es, name) == goal
        decreases if more then 1 + |doc| - current else 0
      {
        ghost var nodes1, read := nodes, Container(true, es, t.start, limit);
        ToppedTop(nodes, nodes0, read);
        s, more, name, es := ReadMemberOrEnd(name, depth, es, t.start, limit);
        ToppedThen(nodes0, nodes1, nodes, read);
      }
    }

    /** readArray, after the '['. */
    method ReadArray(t: Token) returns (s: Status)
      requires nodes != [] && t.end == current <= |doc|
      requires |nodes| <= f.stackLimit
      modifies this
      ensures doc == old(doc)
      ensures LeavesItems(ReadElements(f, doc, old(current), |old(nodes)|, []), s, false, t.start,
                          old(Top()).limit, old(nodes), old(errors))
      decreases |doc| - current, 4
    {
      hide ReadElements, Topped;
      ghost var depth, goal := |nodes|, ReadElements(f, doc, current, |nodes|, []);
      ghost var nodes0, limit := nodes, Top().limit;
      SetTop(Value(Arr([]), t.start, Top().limit));
      var index := 0;
      ghost var es: Entries := [];
      var more := true;
      s := Returned(true);
      while more
        invariant doc == old(doc)
        invariant !more ==> LeavesItems(goal, s, false, t.start, limit, old(nodes), old(errors))
        invariant more ==> old(current) <= current <= |doc| && errors == old(errors)
        invariant more ==> Topped(nodes, old(nodes), Container(false, es, t.start, limit))
        invariant more ==> Dense(es) && index == |es|
        invariant more ==> ReadElements(f, doc, current, depth, es) == goal
        decreases if more then 1 + |doc| - current else 0
      {
        ghost var nodes1, read := nodes, Container(false, es, t.start, limit);
        ToppedTop(nodes, nodes0, read);
        s, more, es := ReadElementOrEnd(index, depth, es, t.start, limit);
        ToppedThen(nodes0, nodes1, nodes, read);
        index := index + 1;
      }
    }

    // One turn of the loop of readArray: an element, or the end of the array.
    method ReadElementOrEnd(index: nat, ghost depth: nat, ghost es: Entries, ghost start: int, ghost limit: int)
      returns (s: Status, more: bool, ghost es': Entries)
      requires 0 < depth == |nodes| <= f.stackLimit && nodes[depth - 1] == Container(false, es, start, limit)
      requires Dense(es) && index == |es| && current <= |doc|
      modifies this
      ensures doc == old(doc)
      ensures !more ==> LeavesItems(ReadElements(f, doc, old(current), depth, es), s, false, start, limit,
                                    old(nodes), old(errors))
      ensures more ==>
                && old(current) < current <= |doc| && errors == old(errors)
                && Dense(es') && |es'| == |es| + 1
                && Topped(nodes, old(nodes), Container(false, es', start, limit))
                && ReadElements(f, doc, current, depth, es') == ReadElements(f, doc, old(current), depth, es)
      decreases |doc| - current, 3
    {
      hide ReadElements, Topped, Spaces, Dense;
      ToppedSelf(nodes);
      ghost var from := current;
      SkipSpaces();
      if current != |doc| && doc[current] == 0x5D
         && (index == 0 || (f.allowTrailingCommas && !f.allowDroppedNullPlaceholders)) {
        ElementsEnd(f, doc, from, depth, es);
        var endArray, ok := ReadToken();
        return Returned(true), false, es;
      }
      s, more, es' := ReadElement(index, from, depth, es, start, limit);
    }

    // One element of an array, from white space skipped, and its separator.
    method ReadElement(index: nat, ghost from: nat, ghost depth: nat, ghost es: Entries, ghost start: int,
                       ghost limit: int)
      returns (s: Status, more: bool, ghost es': Entries)
      requires 0 < depth == |nodes| <= f.stackLimit && nodes[depth - 1] == Container(false, es, start, limit)
      requires Dense(es) && index == |es|
      requires from <= current <= |doc| && current == from + Spaces(doc[from..])
      requires !(current < |doc| && doc[current] == 0x5D
                 && (es == [] || (f.allowTrailingCommas && !f.allowDroppedNullPlaceholders)))
      modifies this
      ensures doc == old(doc)
      ensures !more ==> LeavesItems(ReadElements(f, doc, from, depth, es), s, false, start, limit,
                                    old(nodes), old(errors))
      ensures more ==>
                && old(current) < current <= |doc| && errors == old(errors)
                && Dense(es') && |es'| == |es| + 1
                && Topped(nodes, old(nodes), Container(false, es', start, limit))
                && ReadElements(f, doc, current, depth, es') == ReadElements(f, doc, from, depth, es)
      decreases |doc| - current, 2
    {
      hide Failed, Put, Parser.ReadValue, AfterElement, Spaces, Get, LowerBound, Has, Topped;
      more := false;
      ghost var nodes0, errors0 := nodes, errors;
      var entries := Top().p.entries;
      var value;
      ghost var errs;
      s, value, errs := ReadChild(NullValue);
      es' := es;
      if s.Threw? {
        return;
      }
      SetTop(Top().(p := Arr(Put(entries, Index(index), value))));
      PutAtEnd(es, value);
      es' := Put(es, Index(|es|), value);
      ToppedThen(nodes0, nodes, nodes, Container(false, es', start, limit));
      if !s.ok {
        s := GiveUp(ArrayEnd, es', errs, errors0, false, start, limit);
        return;
      }
      s, more := ReadElementSeparator(depth, es', start, limit);
    }

    // What follows an element: a comma, or the end of the array.
    method ReadElementSeparator(ghost depth: nat, ghost es: Entries, ghost start: int, ghost limit: int)
      returns (s: Status, more: bool)
      requires 0 < depth == |nodes| <= f.stackLimit && nodes[depth - 1] == Container(false, es, start, limit)
      requires current <= |doc|
      modifies `current, `errors
      ensures !more ==> LeavesItems(AfterElement(f, doc, old(current), depth, es), s, false, start, limit,
                                    old(nodes), old(errors))
      ensures more ==>
                && s == Returned(true) && old(current) < current <= |doc| && errors == old(errors)
                && ReadElements(f, doc, current, depth, es) == AfterElement(f, doc, old(current), depth, es)
    {
      hide Lexer.ReadToken, NextToken, Failed, ReadElements, Text, Topped;
      ToppedSelf(nodes);
      ghost var from := current;
      var t, ok := ReadToken();
      t := SkipComments(t, from);
      if t.kind != ArraySeparator && t.kind != ArrayEnd {
        s := AddErrorAndRecover(MissingCommaOrBracket, t, ArrayEnd, es, false, start, limit);
        return s, false;
      }
      return Returned(true), t.kind != ArrayEnd;
    }

    /** parse: from the beginning of a document, whatever the reader did before. */
    method Parse(document: bytes, root: Value) returns (s: Status, value: Value)
      modifies this
      ensures match Parser.Parse(f, document, root)
              case Thrown(e) => s == Threw(e)
              case Done(v, cur, errs, ok) =>
                s == Returned(ok) && value == v && current == cur && errors == errs && nodes == []
    {
      hide Parser.ReadValue, ValueToken, Topped, At;
      doc, current, errors, nodes := document, 0, [], [root];
      if f.skipBom && BOM <= document {
        doc := document[3..];
      }
      assert document[0..] == document;
      value := root;
      ghost var o := Parser.ReadValue(f, doc, 0, 1, root);
      s := ReadValue();
      if s.Threw? {
        return;
      }
      ToppedPop(nodes, [root], o.value);
      value := Top();
      nodes := nodes[..|nodes| - 1];
      var ok := CheckRest(value, s.ok, |document| - |doc|);
      s := Returned(ok);
    }

    // What parse does after the root value.
    method CheckRest(value: Value, successful: bool, skipped: nat) returns (ok: bool)
      requires current <= |doc|
      modifies `current, `errors
      ensures var t := ValueToken(f, doc, old(current));
              && current == t.end
              && errors == old(errors) + (if f.failIfExtra && t.kind != EndOfStream then [At(ExtraAfterValue, t)]
                                          else if f.strictRoot && !value.p.Arr? && !value.p.Obj?
                                          then [ErrorInfo(NotArrayOrObject, Error, -(skipped as int), |doc|)] else [])
              && ok == (successful && errors == old(errors))
    {
      hide ValueToken;
      var t := SkipCommentTokens();
      if f.failIfExtra && t.kind != EndOfStream {
        AddError(ExtraAfterValue, t);
        return false;
      }
      if f.strictRoot && !value.p.Arr? && !value.p.Obj? {
        errors := errors + [ErrorInfo(NotArrayOrObject, Error, -(skipped as int), |doc|)];
        return false;
      }
      ok := successful;
    }
  }

  lemma SliceInner(doc: bytes, from: nat, end: nat)
    requires from + 2 <= end <= |doc|
    ensures doc[from..end][1..end - from - 1] == doc[from + 1..end - 1]
  {
    var a, b := doc[from..end][1..end - from - 1], doc[from + 1..end - 1];
    forall k | 0 <= k < |b| ensures a[k] == b[k] {
      assert a[k] == doc[from..end][k + 1];
    }
    assert |a| == |b|;
  }

  lemma ScanStep(s: bytes, q: byte)
    requires s != [] && q != BACKSLASH
    ensures s[0] == q ==> ScanString(s, q) == 1
    ensures s[0] == BACKSLASH && |s| == 1 ==> ScanString(s, q) == -1
    ensures s[0] == BACKSLASH && |s| > 1 ==>
              ScanString(s, q) == (var n := ScanString(s[2..], q); if n < 0 then -1 else n + 2)
    ensures s[0] != BACKSLASH && s[0] != q ==>
              ScanString(s, q) == (var n := ScanString(s[1..], q); if n < 0 then -1 else n + 1)
  {
  }

  lemma ScanNothing(q: byte)
    ensures ScanString([], q) == -1
  {
  }

  lemma QuoteStops(s: bytes)
    requires s != []
    ensures DecodeTurn(s).Stop? <==> s[0] == QUOTE
  {
  }

  lemma PrependTwice(a: bytes, b: bytes, r: StringResult)
    ensures Prepend(a, Prepend(b, r)) == Prepend(a + b, r)
  {
    if r.Decoded? {
      Resume(a, b, r.text);
    }
  }
}
