/** Documents with comments, which the reader skips wherever it looks for a token, but for two places. */
module Comments {
  import opened Bytes
  import opened Unquoting
  import opened JsonValue
  import opened Lexer
  import opened Literals
  import opened Parser
  import opened Tokens
  import opened Grammar
  import opened Texts

  // The size of the comment s begins with; 0 if it begins with none.
  function CommentSize(s: bytes): (n: nat)
    ensures n <= |s|
  {
    if |s| < 2 || s[0] != 0x2F then 0
    else if s[1] == 0x2F then 2 + LineComment(s[2..])
    else if s[1] == 0x2A && BlockComment(s[2..]).ok then 2 + BlockComment(s[2..]).size
    else 0
  }

  // How many bytes of white space and comments s begins with.
  function Padding(s: bytes): (n: nat)
    ensures n <= |s|
    decreases |s|
  {
    var k := Spaces(s);
    var n := k + CommentSize(s[k..]);
    if n == k then k else n + Padding(s[n..])
  }

  // What stands before a token of this kind.
  function Before(s: bytes, kind: TokenType): (n: nat)
    ensures n <= |s|
  {
    if Uncommented(kind) then Spaces(s) else Padding(s)
  }

  /** s is these tokens with white space and comments before, between and after them, but with white space
      only before a colon and before the closing bracket of an array. */
  predicate Commented(s: bytes, toks: seq<Tok>)
    decreases |toks|
  {
    if toks == [] then Ended(s[Padding(s)..])
    else
      var k, text := Before(s, toks[0].kind), toks[0].text;
      k + |text| <= |s| && s[k..k + |text|] == text && Commented(s[k + |text|..], toks[1..])
  }

  lemma CommentLexeme(f: Features, s: bytes)
    requires s != []
    ensures CommentSize(s) > 0 ==> LexAt(f, s) == Lexeme(Comment, CommentSize(s))
    ensures CommentSize(s) == 0 ==> LexAt(f, s).kind != Comment
  {
    hide NumberRun, ScanString, LineComment, BlockComment;
  }

  // The token at i, by what stands behind the white space there.
  lemma TokenOrComment(f: Features, doc: bytes, i: nat)
    requires i <= |doc|
    ensures var at := i + Spaces(doc[i..]);
            var n, t := CommentSize(doc[at..]), ReadToken(f, doc, i);
            && (n > 0 ==> t == Token(Comment, at, at + n))
            && (n == 0 ==> t.kind != Comment && ReadToken(f, doc, at) == t)
  {
    hide LexAt, CommentSize, Spaces;
    TokenAgain(f, doc, i);
    var at := i + Spaces(doc[i..]);
    if at < |doc| {
      CommentLexeme(f, doc[at..]);
    } else {
      EmptyIsNone();
      assert doc[at..] == [];
    }
  }

  lemma EmptyIsNone()
    ensures CommentSize([]) == 0
  {
  }

  lemma {:induction false} PaddingOf(s: bytes)
    ensures var k := Spaces(s);
            var n := k + CommentSize(s[k..]);
            Padding(s) == if n == k then k else n + Padding(s[n..])
  {
    hide CommentSize, Spaces;
  }

  lemma PaddingStep(doc: bytes, i: nat)
    requires i <= |doc|
    ensures var k := Spaces(doc[i..]);
            var n := CommentSize(doc[i + k..]);
            i + Padding(doc[i..]) == i + if n == 0 then k else k + n + Padding(doc[i + k + n..])
  {
    hide CommentSize, Spaces, Padding;
    var k := Spaces(doc[i..]);
    PaddingOf(doc[i..]);
    DropTwice(doc, i, k);
    DropTwice(doc, i, k + CommentSize(doc[i + k..]));
  }

  lemma NextStep(f: Features, doc: bytes, i: nat)
    requires i <= |doc|
    ensures var t := ReadToken(f, doc, i);
            NextToken(f, doc, i) == if t.kind == Comment then NextToken(f, doc, t.end) else t
  {
    hide Lexer.ReadToken;
  }

  // The reader looks behind what stands before a token.
  lemma {:induction false} NextBehind(f: Features, doc: bytes, i: nat)
    requires i <= |doc|
    ensures NextToken(f, doc, i) == ReadToken(f, doc, i + Padding(doc[i..]))
    decreases |doc| - i
  {
    hide Lexer.ReadToken, CommentSize, Spaces, Padding, NextToken;
    TokenOrComment(f, doc, i);
    PaddingStep(doc, i);
    NextStep(f, doc, i);
    var at := i + Spaces(doc[i..]);
    var n := CommentSize(doc[at..]);
    if n > 0 {
      NextBehind(f, doc, at + n);
    }
  }

  // What stands behind a number is no part of it.
  lemma {:induction false} BehindNumber(s: bytes, toks: seq<Tok>)
    requires Writable(toks) && toks != [] && toks[0].kind == NumberToken && Commented(s, toks[1..])
    ensures s == [] || !NumberByte(s[0])
  {
    hide Recognized, CommentSize, Padding;
    PaddingOf(s);
    if s != [] && Spaces(s) == 0 {
      assert s[0..] == s;
      SolidusFirst(s);
      if CommentSize(s) == 0 && toks[1..] != [] {
        assert Punctuation(toks[1]);
        assert s[0..|toks[1].text|][0] == s[0];
      }
    }
  }

  lemma SolidusFirst(s: bytes)
    ensures CommentSize(s) > 0 ==> s[0] == 0x2F
  {
    hide BlockComment, LineComment;
  }

  // The front of a document, taken apart.
  lemma CommentedFirst(s: bytes, toks: seq<Tok>)
    requires toks != [] && Commented(s, toks)
    ensures var k := Before(s, toks[0].kind);
            var n := k + |toks[0].text|;
            n <= |s| && s[k..] == toks[0].text + s[n..] && Commented(s[n..], toks[1..])
  {
    hide Before;
    var k := Before(s, toks[0].kind);
    var n := k + |toks[0].text|;
    assert s[k..] == s[k..n] + s[n..];
  }

  lemma FrontOf(doc: bytes, i: nat, toks: seq<Tok>) returns (at: nat, k: nat)
    requires i <= |doc| && toks != [] && Commented(doc[i..], toks)
    ensures at == i + Before(doc[i..], toks[0].kind) && k == at + |toks[0].text| <= |doc|
    ensures doc[at..] == toks[0].text + doc[k..] && Commented(doc[k..], toks[1..])
  {
    hide Before, Commented;
    CommentedFirst(doc[i..], toks);
    at := i + Before(doc[i..], toks[0].kind);
    k := at + |toks[0].text|;
    DropTwice(doc, i, at - i);
    DropTwice(doc, i, k - i);
  }

  lemma FirstTaken(f: Features, doc: bytes, i: nat, toks: seq<Tok>) returns (k: nat)
    requires f.allowComments && i <= |doc| && toks != [] && Commented(doc[i..], toks) && Writable(toks)
    ensures k <= |doc| && Commented(doc[k..], toks[1..])
    ensures var t := Taken(f, doc, i, toks[0].kind);
            t.kind == toks[0].kind && Text(doc, t) == toks[0].text && t.end == k
  {
    var tok := toks[0];
    assert tok in toks;
    var at: nat;
    at, k := FrontOf(doc, i, toks);
    if tok.kind == NumberToken {
      BehindNumber(doc[k..], toks);
    }
    hide Commented, Writable;
    TakenBehind(f, doc, i, tok, at, k);
  }

  lemma TakenBehind(f: Features, doc: bytes, i: nat, tok: Tok, at: nat, k: nat)
    requires f.allowComments && i <= |doc| && Recognized(tok) && at == i + Before(doc[i..], tok.kind)
    requires k == at + |tok.text| <= |doc| && doc[at..] == tok.text + doc[k..]
    requires tok.kind == NumberToken ==> doc[k..] == [] || !NumberByte(doc[k])
    ensures var t := Taken(f, doc, i, tok.kind); t.kind == tok.kind && Text(doc, t) == tok.text && t.end == k
  {
    hide LexAt, Recognized, Padding, NextToken, Spaces, Lexer.ReadToken;
    RecognizedLexes(f, tok, doc[k..]);
    TokenAt(f, doc, at, tok);
    if Uncommented(tok.kind) {
      TokenAgain(f, doc, i);
      TokenStart(f, doc, i);
    } else {
      NextBehind(f, doc, i);
    }
  }

  lemma TokenAt(f: Features, doc: bytes, at: nat, tok: Tok)
    requires at + |tok.text| <= |doc| && doc[at..] == tok.text + doc[at + |tok.text|..]
    requires tok.text != [] && !Space(tok.text[0])
    requires LexAt(f, tok.text + doc[at + |tok.text|..]) == Lexeme(tok.kind, |tok.text|)
    ensures ReadToken(f, doc, at) == Token(tok.kind, at, at + |tok.text|)
    ensures doc[at..at + |tok.text|] == tok.text
  {
    hide LexAt;
    assert doc[at..][0] == tok.text[0];
    assert doc[at..][..|tok.text|] == tok.text;
  }

  // The tokens of such a document are taken one after the other, and nothing is left.
  lemma {:induction false} CommentedReads(f: Features, doc: bytes, i: nat, toks: seq<Tok>) returns (j: nat)
    requires f.allowComments && i <= |doc| && Commented(doc[i..], toks) && Writable(toks)
    ensures j <= |doc| && Reads(f, doc, i, toks, j) && ValueToken(f, doc, j).kind == EndOfStream
    decreases |toks|
  {
    hide Lexer.ReadToken, Padding, Spaces, Ended, Writable, Taken, NextToken;
    if toks == [] {
      j := i;
      CommentedEnd(f, doc, i);
    } else {
      var k := FirstTaken(f, doc, i, toks);
      WritableTail(toks);
      hide Commented;
      j := CommentedReads(f, doc, k, toks[1..]);
    }
  }

  lemma CommentedEnd(f: Features, doc: bytes, i: nat)
    requires i <= |doc| && Ended(doc[i..][Padding(doc[i..])..])
    ensures NextToken(f, doc, i).kind == EndOfStream
  {
    hide Lexer.ReadToken, Padding, NextToken;
    NextBehind(f, doc, i);
    var k := i + Padding(doc[i..]);
    assert doc[i..][k - i..] == doc[k..];
    NothingLeft(f, doc, k);
  }

  /** Where comments are allowed, a text with comments is parsed as it would be without them: accepted if and
      only if its tree is, and then with the value the tree denotes. */
  lemma CommentedText(f: Features, document: bytes, was: Value, t: Json)
    requires f.allowComments && Readable(t) && Commented(Unmarked(f, document), Toks(t))
    ensures var o := Parse(f, document, was);
            && (o.Done? && o.ok <==> Accepts(f, t))
            && (o.Done? && o.ok ==> o.errors == [] && Bare(o.value) == Meaning(f, t))
            && (Clear(f, t) && Depth(t) > f.stackLimit ==> o == Thrown(StackLimitExceeded))
  {
    hide Toks, Writable, Commented, Reads, Readable, Parse, VerdictOf, Meaning, Bare, Clear;
    var doc := Unmarked(f, document);
    ToksWritable(t);
    assert doc[0..] == doc;
    var j := CommentedReads(f, doc, 0, Toks(t));
    ReadTextIsParsed(f, document, was, t, j);
    VerdictExactly(f, t, 1);
  }

  /** A comment in the place of a value is skipped if comments are allowed, and is an error otherwise. */
  lemma CommentForValue(f: Features, doc: bytes, i: nat, depth: nat, was: Value)
    requires i <= |doc| && depth <= f.stackLimit && ReadToken(f, doc, i).kind == Comment
    ensures f.allowComments ==>
              ReadValue(f, doc, i, depth, was) == ReadValue(f, doc, ReadToken(f, doc, i).end, depth, was)
    ensures !f.allowComments ==>
              ReadValue(f, doc, i, depth, was).Done? && !ReadValue(f, doc, i, depth, was).ok
              && ReadValue(f, doc, i, depth, was).errors == [At(SyntaxError, ReadToken(f, doc, i))]
  {
    hide Lexer.ReadToken, ReadMembers, ReadElements;
  }
}
