/** Token sequences: of a document as the lexer reads it, and of a layout as a writer produces it. */
module Tokens {
  import opened Bytes
  import opened Quoting
  import opened Unquoting
  import opened Lexer
  import opened Literals
  import opened Parser

  datatype Tok = Tok(kind: TokenType, text: bytes)

  // Reading: the lexer, started at i, yields exactly these tokens and is then at j.
  predicate Lexes(f: Features, doc: bytes, i: nat, toks: seq<Tok>, j: nat)
    requires i <= |doc|
    decreases |toks|
  {
    if toks == [] then i == j
    else
      var t := ReadToken(f, doc, i);
      t.kind == toks[0].kind && Text(doc, t) == toks[0].text && Lexes(f, doc, t.end, toks[1..], j)
  }

  // All the tokens of a document from i on, those included that a NUL byte makes (they say the
  // stream ends, but the reader may go on behind one).
  function TokensOf(f: Features, doc: bytes, i: nat): seq<Tok>
    requires i <= |doc|
    decreases |doc| - i
  {
    var t := ReadToken(f, doc, i);
    if t.start == |doc| then [] else [Tok(t.kind, Text(doc, t))] + TokensOf(f, doc, t.end)
  }

  // Writing: s is these tokens with white space before, between and after them.
  predicate Spells(s: bytes, toks: seq<Tok>)
    decreases |toks|
  {
    if toks == [] then AllSpaces(s)
    else Begins(s, toks[0].text) && Spells(After(s, toks[0].text), toks[1..])
  }

  // The same, but a NUL may stand in the place of the last white space, and anything behind it.
  predicate Document(s: bytes, toks: seq<Tok>)
    decreases |toks|
  {
    if toks == [] then Ended(s)
    else Begins(s, toks[0].text) && Document(After(s, toks[0].text), toks[1..])
  }

  predicate Ended(s: bytes) { var k := Spaces(s); k == |s| || s[k] == 0 }

  // s begins with white space and then this text; what comes after it.
  predicate Begins(s: bytes, text: bytes) {
    var k := Spaces(s);
    k + |text| <= |s| && s[k..k + |text|] == text
  }

  function After(s: bytes, text: bytes): bytes
    requires Begins(s, text)
  {
    s[Spaces(s) + |text|..]
  }

  predicate Punctuation(t: Tok) {
    || t == Tok(ObjectBegin, [0x7B]) || t == Tok(ObjectEnd, [0x7D])
    || t == Tok(ArrayBegin, [0x5B]) || t == Tok(ArrayEnd, [0x5D])
    || t == Tok(ArraySeparator, [0x2C]) || t == Tok(MemberSeparator, [0x3A])
  }

  predicate WordTok(t: Tok) {
    || t == Tok(NullToken, [0x6E] + NULL_REST)
    || t == Tok(TrueToken, [0x74] + TRUE_REST)
    || t == Tok(FalseToken, [0x66] + FALSE_REST)
  }

  // The tokens of the texts the reader accepts ...
  ghost predicate Recognized(t: Tok) {
    || Punctuation(t) || WordTok(t)
    || (t.kind == NumberToken && exists n: Numeral :: ReadableNumeral(n) && t.text == NumeralText(n))
    || (t.kind == StringToken && exists cs: seq<Char> :: ReadableChars(cs) && t.text == StringText(cs))
  }

  // ... and those of section 2 of RFC 8259.
  ghost predicate Standard(t: Tok) {
    || Punctuation(t) || WordTok(t)
    || (t.kind == NumberToken && exists n: Numeral :: GoodNumeral(n) && t.text == NumeralText(n))
    || (t.kind == StringToken && exists cs: seq<Char> :: GoodChars(cs) && t.text == StringText(cs))
  }

  // Every token is one of these, and a number is never followed by another scalar.
  ghost predicate Writable(toks: seq<Tok>) {
    && (forall t | t in toks :: Recognized(t))
    && (forall k :: 0 <= k < |toks| - 1 && toks[k].kind == NumberToken ==> Punctuation(toks[k + 1]))
  }

  // Comments ----------------------------------------------------------------------------------

  // The tokens before which the reader never looks for comments: colons, and the brackets at which it
  // looks for the end of an array.
  predicate Uncommented(kind: TokenType) { kind == MemberSeparator || kind == ArrayEnd }

  // The token taken where one of this kind stands, comments before it being skipped if they are allowed.
  function Taken(f: Features, doc: bytes, i: nat, kind: TokenType): (t: Token)
    requires i <= |doc|
    ensures i <= t.start <= t.end <= |doc|
  {
    if f.allowComments && !Uncommented(kind) then NextToken(f, doc, i) else ReadToken(f, doc, i)
  }

  // From i on these tokens are taken one after the other; the last one ends at j.
  ghost predicate Reads(f: Features, doc: bytes, i: nat, toks: seq<Tok>, j: nat)
    requires i <= |doc|
    decreases |toks|
  {
    if toks == [] then i == j
    else
      var t := Taken(f, doc, i, toks[0].kind);
      t.kind == toks[0].kind && Text(doc, t) == toks[0].text && Reads(f, doc, t.end, toks[1..], j)
  }

  // Without comments between them, they are the tokens of the lexer.
  lemma {:induction false} LexesIsReads(f: Features, doc: bytes, i: nat, toks: seq<Tok>, j: nat)
    requires i <= |doc| && Lexes(f, doc, i, toks, j) && forall t | t in toks :: t.kind != Comment
    ensures Reads(f, doc, i, toks, j)
    decreases |toks|
  {
    hide Lexer.ReadToken;
    if toks != [] {
      assert toks[0] in toks;
      LexesIsReads(f, doc, ReadToken(f, doc, i).end, toks[1..], j);
    }
  }

  lemma TokenVisible(t: Tok)
    requires Standard(t)
    ensures Visible(t.text)
  {
    hide GoodNumeral, GoodChars, NumeralText, Spelled;
    if t.kind == NumberToken {
      if n: Numeral :| GoodNumeral(n) && t.text == NumeralText(n) {
        NumeralVisible(n);
      }
    } else if t.kind == StringToken {
      if cs: seq<Char> :| GoodChars(cs) && t.text == StringText(cs) {
        CharsVisible(cs);
      }
    }
  }

  // White space -------------------------------------------------------------------------------

  predicate AllSpaces(s: bytes) { Spaces(s) == |s| }

  lemma {:induction false} SpacesBefore(w: bytes, s: bytes)
    requires AllSpaces(w)
    ensures Spaces(w + s) == |w| + Spaces(s)
  {
    if w == [] {
      assert w + s == s;
    } else {
      assert (w + s)[1..] == w[1..] + s;
      SpacesBefore(w[1..], s);
    }
  }

  lemma {:induction false} SpacesStop(s: bytes, t: bytes)
    requires Spaces(s) < |s|
    ensures Spaces(s + t) == Spaces(s)
  {
    if Space(s[0]) {
      assert (s + t)[1..] == s[1..] + t;
      SpacesStop(s[1..], t);
    }
  }

  // A text at the front stays there when more is written behind or white space before it.
  lemma BeginsBefore(a: bytes, b: bytes, text: bytes)
    requires text != [] && !Space(text[0]) && Begins(a, text)
    ensures Begins(a + b, text) && After(a + b, text) == After(a, text) + b
  {
    var k, n := Spaces(a), Spaces(a) + |text|;
    assert a[k..n][0] == text[0];
    SpacesStop(a, b);
    assert (a + b)[k..n] == a[k..n];
    assert (a + b)[n..] == a[n..] + b;
  }

  lemma BeginsAfterSpace(w: bytes, b: bytes, text: bytes)
    requires AllSpaces(w) && Begins(b, text)
    ensures Begins(w + b, text) && After(w + b, text) == After(b, text)
  {
    SpacesBefore(w, b);
    var k, n := Spaces(b), Spaces(b) + |text|;
    assert (w + b)[|w| + k..|w| + n] == b[k..n];
    assert (w + b)[|w| + n..] == b[n..];
  }

  // Layouts compose: what is written one after the other spells the tokens one after the other.
  lemma {:induction false} SpellsConcat(a: bytes, ta: seq<Tok>, b: bytes, tb: seq<Tok>)
    requires Spells(a, ta) && Spells(b, tb)
    requires forall t | t in ta :: t.text != [] && !Space(t.text[0])
    ensures Spells(a + b, ta + tb)
    decreases |ta|
  {
    hide Begins, After, Spaces;
    if ta == [] {
      assert ta + tb == tb;
      SpacesBefore(a, b);
      if tb != [] {
        BeginsAfterSpace(a, b, tb[0].text);
      }
    } else {
      assert ta[0] in ta;
      BeginsBefore(a, b, ta[0].text);
      SpellsConcat(After(a, ta[0].text), ta[1..], b, tb);
      assert (ta + tb)[1..] == ta[1..] + tb;
    }
  }

  lemma SpellsOne(t: Tok)
    requires t.text != [] && !Space(t.text[0])
    ensures Spells(t.text, [t])
  {
    assert Spaces(t.text) == 0;
    assert t.text[0..|t.text|] == t.text;
    assert t.text[|t.text|..] == [];
  }

  // The lexer recognizes each token ------------------------------------------------

  lemma StringLexes(f: Features, cs: seq<Char>, rest: bytes)
    requires ReadableChars(cs)
    ensures LexAt(f, StringText(cs) + rest) == Lexeme(StringToken, |StringText(cs)|)
  {
    hide ScanString, Spelled;
    CharsScanned(cs, rest);
    assert (StringText(cs) + rest)[1..] == Spelled(cs) + [QUOTE] + rest;
  }

  lemma WordLexes(f: Features, t: Tok, rest: bytes)
    requires WordTok(t)
    ensures LexAt(f, t.text + rest) == Lexeme(t.kind, |t.text|)
  {
    hide ScanString, NumberRun;
    var s := t.text + rest;
    assert s[1..] == t.text[1..] + rest;
  }

  lemma RecognizedLexes(f: Features, t: Tok, rest: bytes)
    requires Recognized(t) && (t.kind == NumberToken ==> rest == [] || !NumberByte(rest[0]))
    ensures LexAt(f, t.text + rest) == Lexeme(t.kind, |t.text|)
    ensures t.text != [] && !Space(t.text[0]) && t.text[0] < 0x80
  {
    hide LexAt, Spelled, NumeralText, ReadableNumeral, ReadableChars;
    if t.kind == NumberToken {
      var n :| ReadableNumeral(n) && t.text == NumeralText(n);
      NumeralLexes(f, n, rest);
    } else if t.kind == StringToken {
      var cs :| ReadableChars(cs) && t.text == StringText(cs);
      StringLexes(f, cs, rest);
    } else if Punctuation(t) {
      PunctuationLexes(f, t, rest);
    } else {
      WordLexes(f, t, rest);
    }
  }

  lemma PunctuationLexes(f: Features, t: Tok, rest: bytes)
    requires Punctuation(t)
    ensures LexAt(f, t.text + rest) == Lexeme(t.kind, |t.text|)
  {
    hide ScanString, NumberRun;
  }

  // A recognized text at position i, after white space, is the token read there.
  lemma TokenHere(f: Features, doc: bytes, i: nat, tok: Tok)
    requires i <= |doc| && Begins(doc[i..], tok.text) && tok.text != []
    requires LexAt(f, tok.text + After(doc[i..], tok.text)) == Lexeme(tok.kind, |tok.text|)
    ensures var t := ReadToken(f, doc, i);
            t.kind == tok.kind && Text(doc, t) == tok.text && doc[t.end..] == After(doc[i..], tok.text)
  {
    hide LexAt, Spaces;
    var at, k := i + Spaces(doc[i..]), i + Spaces(doc[i..]) + |tok.text|;
    SliceOfSlice(doc, i, |doc|, at - i, k - i);
    SliceOfSlice(doc, i, |doc|, k - i, |doc| - i);
    assert doc[i..] == doc[i..|doc|] && doc[at..] == doc[at..k] + doc[k..];
  }

  lemma {:induction false} SpelledDocument(s: bytes, toks: seq<Tok>)
    requires Spells(s, toks)
    ensures Document(s, toks)
    decreases |toks|
  {
    hide Begins, After, Spaces;
    if toks != [] {
      SpelledDocument(After(s, toks[0].text), toks[1..]);
    }
  }

  lemma DocumentFirst(f: Features, doc: bytes, i: nat, toks: seq<Tok>) returns (k: nat)
    requires i <= |doc| && toks != [] && Document(doc[i..], toks) && Writable(toks)
    ensures k <= |doc| && Document(doc[k..], toks[1..]) && (Spells(doc[i..], toks) ==> Spells(doc[k..], toks[1..]))
    ensures var t := ReadToken(f, doc, i);
            t.kind == toks[0].kind && Text(doc, t) == toks[0].text && t.end == k
  {
    hide LexAt, Recognized, Lexer.ReadToken, After, Begins;
    var t := toks[0];
    assert t in toks;
    var rest := After(doc[i..], t.text);
    if t.kind == NumberToken {
      AfterNumber(rest, toks);
    }
    RecognizedLexes(f, t, rest);
    TokenHere(f, doc, i, t);
    k := ReadToken(f, doc, i).end;
  }

  lemma WritableTail(toks: seq<Tok>)
    requires toks != [] && Writable(toks)
    ensures Writable(toks[1..])
  {
    hide Recognized, Punctuation;
    forall t | t in toks[1..] ensures Recognized(t) {
    }
  }

  // A layout of writable tokens lexes to them, and nothing is left but, perhaps, what a NUL hides.
  lemma {:induction false} DocumentLexes(f: Features, doc: bytes, i: nat, toks: seq<Tok>) returns (j: nat)
    requires i <= |doc| && Document(doc[i..], toks) && Writable(toks)
    ensures i <= j <= |doc| && Lexes(f, doc, i, toks, j) && Ended(doc[j..])
    ensures Spells(doc[i..], toks) ==> AllSpaces(doc[j..])
    decreases |toks|
  {
    if toks == [] {
      return i;
    }
    var k := DocumentFirst(f, doc, i, toks);
    WritableTail(toks);
    hide Spells, Document, Recognized, Writable, Lexer.ReadToken;
    j := DocumentLexes(f, doc, k, toks[1..]);
  }

  // What follows a number in a writable layout is white space, punctuation or the end.
  lemma AfterNumber(rest: bytes, toks: seq<Tok>)
    requires Writable(toks) && toks != [] && toks[0].kind == NumberToken && Document(rest, toks[1..])
    ensures rest == [] || !NumberByte(rest[0])
  {
    if rest != [] && Spaces(rest) == 0 && toks[1..] != [] {
      assert rest[0..|toks[1].text|][0] == rest[0];
    }
  }

  /** recoverFromError skips whole tokens and stops behind the first one of the kind it looks for, or
      behind the end of the stream. */
  lemma {:induction false} RecoverStops(f: Features, doc: bytes, i: nat, skipUntil: TokenType)
    returns (skipped: seq<Tok>, last: Tok)
    requires i <= |doc|
    ensures Lexes(f, doc, i, skipped + [last], Recover(f, doc, i, skipUntil))
    ensures last.kind in {skipUntil, EndOfStream} && forall t | t in skipped :: t.kind !in {skipUntil, EndOfStream}
    decreases |doc| - i
  {
    hide LexAt, Spaces;
    var t := ReadToken(f, doc, i);
    var tok := Tok(t.kind, Text(doc, t));
    if t.kind == skipUntil || t.kind == EndOfStream {
      skipped, last := [], tok;
      assert ([] + [last])[1..] == [];
    } else {
      skipped, last := RecoverStops(f, doc, t.end, skipUntil);
      assert ([tok] + skipped + [last])[1..] == skipped + [last];
      skipped := [tok] + skipped;
    }
  }
}
