/** Whole documents: the JSON texts of section 2 of RFC 8259, and all others made like them, as the
    reader parses them. */
module Texts {
  import opened Bytes
  import opened JsonValue
  import opened Lexer
  import opened Literals
  import opened Parser
  import opened Tokens
  import opened Grammar
  import opened GrammarCorrect

  // No text begins with a byte order mark.
  lemma NoBom(f: Features, doc: bytes, toks: seq<Tok>)
    requires Spells(doc, toks) && Writable(toks) && toks != []
    ensures SkippedBom(f, doc) == 0
  {
    hide Recognized, LexAt;
    assert toks[0] in toks;
    RecognizedLexes(f, toks[0], []);
    var k, n := Spaces(doc), Spaces(doc) + |toks[0].text|;
    if k == 0 {
      assert doc[k..n][0] == doc[0];
    } else {
      assert Space(doc[0]);
    }
  }

  // What is left is white space, and perhaps a NUL and what it hides.
  lemma NothingLeft(f: Features, doc: bytes, j: nat)
    requires j <= |doc| && Ended(doc[j..])
    ensures ReadToken(f, doc, j).kind == EndOfStream && ValueToken(f, doc, j).kind == EndOfStream
    ensures AllSpaces(doc[j..]) ==> ReadToken(f, doc, j).start == |doc|
  {
    hide BlockComment, LineComment, NumberRun;
    assert j + Spaces(doc[j..]) < |doc| ==> doc[j + Spaces(doc[j..])..][0] == doc[j..][Spaces(doc[j..])];
  }

  lemma NothingRead(f: Features, doc: bytes, k: nat, j: nat)
    requires k <= |doc| && Reads(f, doc, k, [], j)
    ensures k == j
  {
  }

  lemma NoComments(toks: seq<Tok>)
    requires Writable(toks)
    ensures forall t | t in toks :: t.kind != EndOfStream && t.kind != Comment
  {
    hide Recognized;
    forall t | t in toks ensures t.kind != EndOfStream && t.kind != Comment {
      RecognizedKind(t);
    }
  }

  lemma SameKind(f: Features, r: Value, t: Json)
    requires Readable(t) && VerdictOf(f, t, 1).Good? && Bare(r) == Meaning(f, t)
    ensures Simple(t) <==> !r.p.Arr? && !r.p.Obj?
  {
    hide Bare, Unescaped, ReadableChars, ReadableNumeral, NumberMeaning, ItemsMeaning, PairsMeaning;
    BareKind(r);
    if Simple(t) {
      ScalarTok(f, t);
    }
  }

  // What parsing a text must give.
  ghost predicate Answers(f: Features, t: Json, o: Outcome)
    requires Readable(t)
  {
    match VerdictOf(f, t, 1)
    case Good => o.Done? && Bare(o.value) == Meaning(f, t) && (o.ok <==> !(f.strictRoot && Simple(t)))
    case Bad => o.Done? && !o.ok
    case Throws(e) => o == Thrown(e)
  }

  // A document, behind a byte order mark that is skipped.
  function Unmarked(f: Features, document: bytes): bytes { document[SkippedBom(f, document)..] }

  // A document from which the tokens of a tree are taken, and nothing else, is parsed as the verdict says.
  lemma ReadTextIsParsed(f: Features, document: bytes, was: Value, t: Json, j: nat)
    requires Readable(t) && j <= |Unmarked(f, document)| && Reads(f, Unmarked(f, document), 0, Toks(t), j)
    requires ValueToken(f, Unmarked(f, document), j).kind == EndOfStream
    ensures Answers(f, t, Parse(f, document, was))
  {
    hide Toks, Reads, ReadValue, Lexer.ReadToken, ValueToken, Readable, VerdictOf, Meaning, Simple, Bare;
    var doc := Unmarked(f, document);
    assert Toks(t) + [] == Toks(t);
    var k := TreeIsRead(f, doc, 0, 1, was, t, [], j);
    if VerdictOf(f, t, 1).Good? {
      NothingRead(f, doc, k, j);
      SameKind(f, ReadValue(f, doc, 0, 1, was).value, t);
    }
  }

  /** Every layout of a readable tree's tokens is parsed under any settings as the verdict on the tree
      says; what is accepted has the value the tree denotes. The JSON texts of RFC 8259 are such
      layouts, of its trees. */
  lemma TextIsParsed(f: Features, document: bytes, was: Value, t: Json)
    requires Readable(t) && Document(Unmarked(f, document), Toks(t))
    ensures Answers(f, t, Parse(f, document, was))
  {
    hide Toks, Writable, Document, Lexes, Reads, Readable, Answers, Parse;
    var doc := Unmarked(f, document);
    ToksWritable(t);
    assert doc[0..] == doc;
    var j := DocumentLexes(f, doc, 0, Toks(t));
    NoComments(Toks(t));
    LexesIsReads(f, doc, 0, Toks(t), j);
    NothingLeft(f, doc, j);
    ReadTextIsParsed(f, document, was, t, j);
  }

  /** The reader accepts a tree: nothing in it is refused, it nests within the stack limit and, where the
      root must be one, it is an object or an array. */
  ghost predicate Accepts(f: Features, t: Json) {
    Readable(t) && Clear(f, t) && Depth(t) <= f.stackLimit && !(f.strictRoot && Simple(t))
  }

  /** So a text is accepted if and only if its tree is; the only obstacle of a clear text that nests too
      deeply is the exception for that. */
  lemma AcceptedExactly(f: Features, document: bytes, was: Value, t: Json)
    requires Readable(t) && Document(Unmarked(f, document), Toks(t))
    ensures var o := Parse(f, document, was);
            && (o.Done? && o.ok <==> Accepts(f, t))
            && (o.Done? && o.ok ==> o.errors == [] && Bare(o.value) == Meaning(f, t))
            && (Clear(f, t) && Depth(t) > f.stackLimit ==> o == Thrown(StackLimitExceeded))
  {
    hide Toks, Document, Parse, Readable, VerdictOf, Meaning, Simple, Bare, Clear;
    TextIsParsed(f, document, was, t);
    VerdictExactly(f, t, 1);
  }

  // White space only is a layout, and needs no byte order mark skipped.
  lemma SpelledText(f: Features, doc: bytes, t: Json)
    requires Readable(t) && Spells(doc, Toks(t))
    ensures Document(Unmarked(f, doc), Toks(t))
  {
    hide Toks, Writable, Spells, Document, Readable;
    ToksWritable(t);
    NoBom(f, doc, Toks(t));
    SpelledDocument(doc, Toks(t));
    assert doc[0..] == doc;
  }

  /** In particular the JSON texts of RFC 8259: a tree of its tokens, white space where it allows it. */
  lemma JsonTextAccepted(f: Features, doc: bytes, was: Value, t: Json)
    requires Grammatical(t) && Spells(doc, Toks(t))
    ensures var o := Parse(f, doc, was);
            && (o.Done? && o.ok <==> Accepts(f, t))
            && (o.Done? && o.ok ==> o.errors == [] && Bare(o.value) == Meaning(f, t))
            && (Clear(f, t) && Depth(t) > f.stackLimit ==> o == Thrown(StackLimitExceeded))
  {
    hide Toks, Spells, Document, Parse, Readable, Meaning, Simple, Bare, Clear, Standard, Accepts;
    SpelledText(f, doc, t);
    AcceptedExactly(f, doc, was, t);
  }

  // Trailing commas ------------------------------------------------------------------------------

  // The name of the last member is empty.
  predicate NamelessEnd(members: seq<Pair>)
    requires members != [] && PairsReadable(members)
  {
    LastIsReadable(members);
    Unescaped(members[|members| - 1].name) == Some([])
  }

  lemma {:induction false} LastIsReadable(members: seq<Pair>)
    requires members != [] && PairsReadable(members)
    ensures PairReadable(members[|members| - 1])
  {
    hide PairReadable;
    if members[1..] != [] {
      LastIsReadable(members[1..]);
      assert members[1..][|members| - 2] == members[|members| - 1];
    }
  }

  /** The tokens of an object with a comma behind its last member are those without it, and a comma before
      the closing brace; the same for an array. */
  lemma CommaBeforeEnd(t: Json) returns (front: seq<Tok>)
    requires (t.JObject? && t.members != []) || (t.JArray? && t.items != [])
    ensures Toks(t.(comma := false)) == front + [if t.JObject? then CLOSE_OBJECT else CLOSE_ARRAY]
    ensures Toks(t.(comma := true)) == front + [COMMA, if t.JObject? then CLOSE_OBJECT else CLOSE_ARRAY]
  {
    if t.JObject? {
      hide Members;
      front := MembersFront(t.members);
      Resume([OPEN_OBJECT], front, [CLOSE_OBJECT]);
      Resume([OPEN_OBJECT], front, [COMMA, CLOSE_OBJECT]);
      front := [OPEN_OBJECT] + front;
    } else {
      hide Elements;
      front := ElementsFront(t.items);
      Resume([OPEN_ARRAY], front, [CLOSE_ARRAY]);
      Resume([OPEN_ARRAY], front, [COMMA, CLOSE_ARRAY]);
      front := [OPEN_ARRAY] + front;
    }
  }

  lemma {:induction false} MembersFront(members: seq<Pair>) returns (front: seq<Tok>)
    requires members != []
    ensures Members(members, false) == front + [CLOSE_OBJECT]
    ensures Members(members, true) == front + [COMMA, CLOSE_OBJECT]
  {
    hide PairToks;
    var first := PairToks(members[0]);
    front := first;
    if members[1..] != [] {
      var more := MembersFront(members[1..]);
      front := first + ([COMMA] + more);
      Between(first, more, [CLOSE_OBJECT]);
      Between(first, more, [COMMA, CLOSE_OBJECT]);
    }
  }

  lemma {:induction false} ElementsFront(items: seq<Json>) returns (front: seq<Tok>)
    requires items != []
    ensures Elements(items, false) == front + [CLOSE_ARRAY]
    ensures Elements(items, true) == front + [COMMA, CLOSE_ARRAY]
  {
    hide Toks;
    var first := Toks(items[0]);
    front := first;
    if items[1..] != [] {
      var more := ElementsFront(items[1..]);
      front := first + ([COMMA] + more);
      Between(first, more, [CLOSE_ARRAY]);
      Between(first, more, [COMMA, CLOSE_ARRAY]);
    }
  }

  lemma Between(first: seq<Tok>, more: seq<Tok>, end: seq<Tok>)
    ensures first + ([COMMA] + (more + end)) == first + ([COMMA] + more) + end
  {
  }

  lemma {:induction false} MembersComma(f: Features, members: seq<Pair>, last: bytes, seen: set<bytes>)
    requires members != [] && PairsReadable(members)
    ensures PairsClear(f, members, true, last, seen)
       <==> PairsClear(f, members, false, last, seen) && (f.allowTrailingCommas || NamelessEnd(members))
  {
    hide PairClear, PairReadable, Unescaped, NameSet;
    var m := members[0];
    var name, names := LastName(m), seen + NameSet(m);
    if members[1..] != [] {
      MembersComma(f, members[1..], name, names);
      assert members[1..][|members| - 2] == members[|members| - 1];
    } else if PairClear(f, m, seen) {
      NamedWhenClear(f, m, seen);
    }
  }

  lemma NamedWhenClear(f: Features, m: Pair, seen: set<bytes>)
    requires PairReadable(m) && PairClear(f, m, seen)
    ensures Unescaped(m.name) == Some(LastName(m))
  {
    hide Unescaped, Clear;
  }

  lemma {:induction false} ElementsComma(f: Features, items: seq<Json>, n: nat)
    requires items != [] && AllReadable(items)
    ensures AllClear(f, items, true)
       <==> AllClear(f, items, false) && (f.allowTrailingCommas || f.allowDroppedNullPlaceholders)
    ensures ItemsMeaning(f, items, true, n)
         == ItemsMeaning(f, items, false, n)
            + if f.allowDroppedNullPlaceholders then [Entry(Index(n + |items|), NullValue)] else []
  {
    hide Clear, Meaning;
    if items[1..] != [] {
      ElementsComma(f, items[1..], n + 1);
    }
  }

  /** A comma before the closing brace of a text: it is accepted if and only if it would be without the
      comma, and trailing commas are allowed or the last name is empty. The value is the same. */
  lemma TrailingMemberComma(f: Features, plain: bytes, document: bytes, was: Value, members: seq<Pair>)
    requires Readable(JObject(members, true))
    requires Document(Unmarked(f, plain), Toks(JObject(members, false)))
    requires Document(Unmarked(f, document), Toks(JObject(members, true)))
    ensures var o, p := Parse(f, document, was), Parse(f, plain, was);
            && (o.Done? && o.ok <==> p.Done? && p.ok && (f.allowTrailingCommas || NamelessEnd(members)))
            && (o.Done? && o.ok ==> Bare(o.value) == Bare(p.value))
  {
    hide Toks, Document, Parse, Bare, PairsReadable, PairsClear, NamelessEnd, PairsMeaning, PairsDepth;
    AcceptedExactly(f, plain, was, JObject(members, false));
    AcceptedExactly(f, document, was, JObject(members, true));
    MembersComma(f, members, [], {});
  }

  /** The same for a closing bracket, where no null elements may be dropped; where they may be, the comma
      is accepted and leaves room for one. */
  lemma TrailingElementComma(f: Features, plain: bytes, document: bytes, was: Value, items: seq<Json>)
    requires Readable(JArray(items, true))
    requires Document(Unmarked(f, plain), Toks(JArray(items, false)))
    requires Document(Unmarked(f, document), Toks(JArray(items, true)))
    ensures var o, p := Parse(f, document, was), Parse(f, plain, was);
            && (o.Done? && o.ok <==> p.Done? && p.ok && (f.allowTrailingCommas || f.allowDroppedNullPlaceholders))
            && (o.Done? && o.ok && !f.allowDroppedNullPlaceholders ==> Bare(o.value) == Bare(p.value))
            && (o.Done? && o.ok && f.allowDroppedNullPlaceholders ==>
                  Bare(p.value).p.Arr? && Bare(o.value)
                  == Value(Arr(Bare(p.value).p.entries + [Entry(Index(|items|), NullValue)]), 0, 0))
  {
    hide Toks, Document, Parse, Bare, AllReadable, AllClear, ItemsMeaning, ItemsDepth;
    AcceptedExactly(f, plain, was, JArray(items, false));
    AcceptedExactly(f, document, was, JArray(items, true));
    ElementsComma(f, items, 0);
    assert ItemsMeaning(f, items, false, 0) + [] == ItemsMeaning(f, items, false, 0);
  }

  // Token sequences ------------------------------------------------------------------------------

  lemma {:induction false} LexesAll(f: Features, doc: bytes, i: nat, toks: seq<Tok>, j: nat)
    requires i <= |doc| && j <= |doc| && Lexes(f, doc, i, toks, j) && AllSpaces(doc[j..])
    requires forall t | t in toks :: t.kind != EndOfStream
    ensures TokensOf(f, doc, i) == toks
    decreases |toks|
  {
    hide LexAt;
    if toks == [] {
      NothingLeft(f, doc, i);
    } else {
      var t := ReadToken(f, doc, i);
      assert toks[0] in toks;
      LexesAll(f, doc, t.end, toks[1..], j);
      assert toks == [toks[0]] + toks[1..];
    }
  }

  lemma RecognizedKind(t: Tok)
    requires Recognized(t)
    ensures t.kind != EndOfStream && t.kind != Comment && t.kind != Error
  {
    hide ReadableNumeral, ReadableChars, NumeralText, StringText;
  }

  /** A JSON text has exactly the tokens of its tree. */
  lemma TextTokens(f: Features, doc: bytes, t: Json)
    requires Readable(t) && Spells(doc, Toks(t))
    ensures TokensOf(f, doc, 0) == Toks(t)
  {
    hide Toks, Spells, Document, Lexes, TokensOf, Readable, Recognized;
    ToksWritable(t);
    assert doc[0..] == doc;
    SpelledDocument(doc, Toks(t));
    var j := DocumentLexes(f, doc, 0, Toks(t));
    forall tok | tok in Toks(t) ensures tok.kind != EndOfStream {
      RecognizedKind(tok);
    }
    LexesAll(f, doc, 0, Toks(t), j);
  }
}
