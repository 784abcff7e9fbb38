/** The reader on the texts of the grammar: whatever the layout, the tokens of a tree are read as
    its verdict and its meaning say. */
module GrammarCorrect {
  import opened Bytes
  import opened Numbers
  import opened Unquoting
  import opened JsonValue
  import opened Lexer
  import opened Literals
  import opened Parser
  import opened Tokens
  import opened Grammar

  // One token -----------------------------------------------------------------------------------

  lemma TakeToken(f: Features, doc: bytes, i: nat, t: Tok, rest: seq<Tok>, j: nat) returns (tk: Token)
    requires i <= |doc| && Reads(f, doc, i, [t] + rest, j) && t.kind != Comment
    ensures tk == NextToken(f, doc, i) == ValueToken(f, doc, i)
    ensures tk.end <= |doc| && tk.kind == t.kind && Text(doc, tk) == t.text && Reads(f, doc, tk.end, rest, j)
    ensures ReadToken(f, doc, i).kind in {t.kind, Comment} && (Uncommented(t.kind) ==> tk == ReadToken(f, doc, i))
  {
    hide Lexer.ReadToken;
    assert ([t] + rest)[1..] == rest;
    tk := NextToken(f, doc, i);
  }

  // Skipping white space first makes no difference.
  lemma SkipSpace(f: Features, doc: bytes, i: nat, toks: seq<Tok>, j: nat)
    requires i <= |doc| && toks != [] && Reads(f, doc, i, toks, j)
    ensures Reads(f, doc, i + Spaces(doc[i..]), toks, j)
  {
    hide Lexer.ReadToken, Spaces;
    TokenStart(f, doc, i);
    TokenAgain(f, doc, i);
  }

  // Scalars -------------------------------------------------------------------------------------

  lemma NumeralScalar(f: Features, n: Numeral)
    requires ReadableNumeral(n)
    ensures var r := NumberScalar(f, NumeralText(n));
            match NumberMeaning(f, n)
            case Some(p) => r == Scalar(p)
            case None => r.BadScalar?
  {
    hide NatOf;
    NumeralToken(n);
  }

  // The numerals that are integer tokens, and the integers they denote.
  lemma NumeralToken(n: Numeral)
    requires ReadableNumeral(n)
    ensures IntegerToken(NumeralText(n)) <==> Integral(n)
    ensures IntegerToken(NumeralText(n)) ==> IntegerOf(NumeralText(n)) == Denoted(n)
  {
    AfterDigits(n);
    hide NatOf, FractionText, ExponentText, AllDigits, IntegerToken, IntegerOf;
    var rest := FractionText(n) + ExponentText(n);
    assert NumeralText(n) == n.sign + (n.whole + rest);
    SignedDigits(n.sign, n.whole, rest);
  }

  lemma SignedDigits(sign: bytes, whole: bytes, rest: bytes)
    requires Sign(sign) && AllDigits(whole) && (sign == [] ==> whole != [])
    requires rest == [] || (!Digit(rest[0]) && rest[0] != MINUS)
    ensures IntegerToken(sign + (whole + rest)) <==> rest == [] && sign != [PLUS]
    ensures rest == [] && sign != [PLUS] ==>
              IntegerOf(sign + (whole + rest)) == if sign == [MINUS] then -(NatOf(whole) as int) else NatOf(whole)
  {
    hide NatOf;
    var text := sign + (whole + rest);
    OnlyDigits(whole, rest);
    if sign == [PLUS] {
      assert text[0] == PLUS;
    } else {
      assert sign == [] ==> text[0] == whole[0];
      assert Unsigned(text) == whole + rest;
      assert rest == [] ==> whole + rest == whole;
    }
  }

  lemma AfterDigits(n: Numeral)
    requires ReadableNumeral(n)
    ensures var rest := FractionText(n) + ExponentText(n);
            && (rest == [] <==> n.fraction.None? && n.exponent.None?)
            && (rest == [] || (!Digit(rest[0]) && rest[0] != MINUS))
  {
  }

  // Digits and then something that does not begin with one.
  lemma OnlyDigits(whole: bytes, rest: bytes)
    requires AllDigits(whole) && (rest == [] || !Digit(rest[0]))
    ensures AllDigits(whole + rest) <==> rest == []
  {
    if rest != [] {
      assert (whole + rest)[|whole|] == rest[0];
    }
  }

  lemma StringScalarOf(cs: seq<Char>)
    requires ReadableChars(cs)
    ensures |StringText(cs)| >= 2
    ensures match Unescaped(cs)
            case Some(s) => StringScalar(StringText(cs)) == Scalar(Str(s))
            case None => StringScalar(StringText(cs)).BadScalar?
  {
    hide Spelled, DecodeText;
    assert StringText(cs)[1..|StringText(cs)| - 1] == Spelled(cs);
    CharsDecoded(cs);
  }

  predicate Simple(t: Json) { !t.JArray? && !t.JObject? }

  lemma ScalarTok(f: Features, t: Json)
    requires Readable(t) && Simple(t)
    ensures |Toks(t)| == 1
    ensures var tok := Toks(t)[0];
            tok.kind !in {ObjectBegin, ArrayBegin, ArraySeparator, ObjectEnd, ArrayEnd, Comment}
    ensures var tok := Toks(t)[0];
            var r := TokenScalar(f, tok.kind, tok.text);
            if VerdictOf(f, t, 0).Good? then r == Scalar(Meaning(f, t).p) else r.BadScalar? && VerdictOf(f, t, 0).Bad?
    ensures !Meaning(f, t).p.Arr? && !Meaning(f, t).p.Obj? && Meaning(f, t) == Value(Meaning(f, t).p, 0, 0)
    ensures forall depth: nat | depth <= f.stackLimit :: VerdictOf(f, t, depth) == VerdictOf(f, t, 0)
  {
    hide NumberScalar, StringScalar, NumeralText, StringText, NumberMeaning, Unescaped, ReadableNumeral, ReadableChars;
    match t
    case JNumber(n) => NumeralScalar(f, n);
    case JString(cs) => StringScalarOf(cs);
    case _ =>
  }

  // A value never begins with a separator or a closing bracket.
  lemma FirstTok(t: Json)
    ensures Toks(t) != []
    ensures Toks(t)[0].kind in {NullToken, NumberToken, StringToken, TrueToken, FalseToken, ArrayBegin, ObjectBegin}
  {
    hide NumeralText, StringText, Elements, Members;
  }

  // Trees ---------------------------------------------------------------------------------------

  // What reading a tree must give; k is where its tokens end.
  ghost predicate Matches(f: Features, t: Json, depth: nat, o: Outcome, k: nat)
    requires Readable(t)
  {
    match VerdictOf(f, t, depth)
    case Good => o.Done? && o.ok && o.errors == [] && o.cur == k && Bare(o.value) == Meaning(f, t)
    case Bad => o.Done? && !o.ok
    case Throws(e) => o == Thrown(e)
  }

  ghost predicate MatchesItems(v: Verdict, r: Items, k: nat, es: Entries) {
    match v
    case Good => r.Items? && r.ok && r.errors == [] && r.cur == k && BareItems(r.entries) == es
    case Bad => r.Items? && !r.ok
    case Throws(e) => r == ItemsThrown(e)
  }

  /** Any text that lexes to the tokens of a tree, followed by anything, is read as the verdict on
      the tree says; if that is good, as its meaning, up to exactly the end of those tokens. */
  lemma {:induction false} TreeIsRead(f: Features, doc: bytes, i: nat, depth: nat, was: Value, t: Json,
                                      rest: seq<Tok>, j: nat) returns (k: nat)
    requires i <= |doc| && Readable(t) && Reads(f, doc, i, Toks(t) + rest, j)
    ensures k <= |doc| && Matches(f, t, depth, ReadValue(f, doc, i, depth, was), k)
    ensures VerdictOf(f, t, depth).Good? ==> Reads(f, doc, k, rest, j)
    decreases t, 0
  {
    hide Reads, ValueToken, NextToken, Lexer.ReadToken, TokenScalar, ReadElements, ReadMembers, Elements, Members,
         ItemsVerdict, PairsVerdict, ItemsMeaning, PairsMeaning, Bare, BareItems;
    if depth > f.stackLimit {
      return 0;
    }
    NoItems();
    match t {
      case JArray(items, comma) =>
        Resume([OPEN_ARRAY], Elements(items, comma), rest);
        var tk := TakeToken(f, doc, i, OPEN_ARRAY, Elements(items, comma) + rest, j);
        k := ElementsAreRead(f, doc, tk.end, depth, [], items, comma, rest, j);
        ArrayIsRead(f, doc, i, depth, was, items, comma, k);
      case JObject(members, comma) =>
        Resume([OPEN_OBJECT], Members(members, comma), rest);
        var tk := TakeToken(f, doc, i, OPEN_OBJECT, Members(members, comma) + rest, j);
        k := MembersAreRead(f, doc, tk.end, depth, [], [], members, comma, rest, j);
        ObjectIsRead(f, doc, i, depth, was, members, comma, k);
      case _ =>
        k := ScalarIsRead(f, doc, i, depth, was, t, rest, j);
    }
  }

  lemma NoItems()
    ensures BareItems([]) == []
  {
  }

  lemma ScalarIsRead(f: Features, doc: bytes, i: nat, depth: nat, was: Value, t: Json, rest: seq<Tok>, j: nat)
    returns (k: nat)
    requires i <= |doc| && Readable(t) && Simple(t) && depth <= f.stackLimit && Reads(f, doc, i, Toks(t) + rest, j)
    ensures k <= |doc| && Matches(f, t, depth, ReadValue(f, doc, i, depth, was), k) && Reads(f, doc, k, rest, j)
  {
    hide Reads, ValueToken, NextToken, Lexer.ReadToken, TokenScalar, Toks, VerdictOf, Meaning;
    ScalarTok(f, t);
    assert Toks(t) == [Toks(t)[0]];
    var tk := TakeToken(f, doc, i, Toks(t)[0], rest, j);
    k := tk.end;
  }

  lemma ArrayIsRead(f: Features, doc: bytes, i: nat, depth: nat, was: Value, items: seq<Json>, comma: bool, k: nat)
    requires i <= |doc| && depth <= f.stackLimit && Readable(JArray(items, comma))
    requires ValueToken(f, doc, i).kind == ArrayBegin
    requires MatchesItems(ItemsVerdict(f, items, comma, depth + 1),
                          ReadElements(f, doc, ValueToken(f, doc, i).end, depth, []), k,
                          [] + ItemsMeaning(f, items, comma, 0))
    ensures Matches(f, JArray(items, comma), depth, ReadValue(f, doc, i, depth, was), k)
  {
    hide ValueToken, ReadElements, TokenScalar, ItemsVerdict, ItemsMeaning, BareItems;
    assert [] + ItemsMeaning(f, items, comma, 0) == ItemsMeaning(f, items, comma, 0);
  }

  lemma ObjectIsRead(f: Features, doc: bytes, i: nat, depth: nat, was: Value, members: seq<Pair>, comma: bool, k: nat)
    requires i <= |doc| && depth <= f.stackLimit && Readable(JObject(members, comma))
    requires ValueToken(f, doc, i).kind == ObjectBegin
    requires MatchesItems(PairsVerdict(f, members, comma, [], [], depth + 1),
                          ReadMembers(f, doc, ValueToken(f, doc, i).end, depth, [], []), k,
                          PairsMeaning(f, members, []))
    ensures Matches(f, JObject(members, comma), depth, ReadValue(f, doc, i, depth, was), k)
  {
    hide ValueToken, ReadMembers, TokenScalar, PairsVerdict, PairsMeaning, BareItems;
  }

  // Arrays --------------------------------------------------------------------------------------

  // What reading the rest of an array must give, some elements being read.
  ghost predicate MatchesElements(f: Features, items: seq<Json>, comma: bool, depth: nat, done: Entries, r: Items,
                                  k: nat)
    requires AllReadable(items)
  {
    MatchesItems(ItemsVerdict(f, items, comma, depth + 1), r, k,
                 BareItems(done) + ItemsMeaning(f, items, comma, |done|))
  }

  lemma {:induction false} ElementsAreRead(f: Features, doc: bytes, i: nat, depth: nat, done: Entries,
                                           items: seq<Json>, comma: bool, rest: seq<Tok>, j: nat) returns (k: nat)
    requires i <= |doc| && AllReadable(items) && Dense(done) && (items == [] ==> done == [] && !comma)
    requires Reads(f, doc, i, Elements(items, comma) + rest, j)
    ensures k <= |doc| && MatchesElements(f, items, comma, depth, done, ReadElements(f, doc, i, depth, done), k)
    ensures ItemsVerdict(f, items, comma, depth + 1).Good? ==> Reads(f, doc, k, rest, j)
    decreases items, 1
  {
    hide Reads, ValueToken, NextToken, Lexer.ReadToken, ReadValue, Put, AfterElement, Bare, BareItems, Meaning,
         VerdictOf, Toks, MoreElements, MatchesElements, ItemsVerdict;
    if items == [] {
      var t := TakeToken(f, doc, i, CLOSE_ARRAY, rest, j);
      TokenStart(f, doc, i);
      NoElements(f, depth, done, t.end);
      return t.end;
    }
    var item, tail := items[0], MoreElements(items[1..], comma) + rest;
    Resume(Toks(item), MoreElements(items[1..], comma), rest);
    var at := i + Spaces(doc[i..]);
    FirstTok(item);
    SkipSpace(f, doc, i, Toks(item) + tail, j);
    NotClosing(f, doc, i, Toks(item), tail, j);
    k := TreeIsRead(f, doc, at, depth + 1, NullValue, item, tail, j);
    var o := ReadValue(f, doc, at, depth + 1, NullValue);
    if VerdictOf(f, item, depth + 1).Good? {
      PutAtEnd(done, o.value);
      var next := done + [Entry(Index(|done|), o.value)];
      k := AfterElementIsRead(f, doc, k, depth, next, items[1..], comma, rest, j);
      OneMoreElement(f, items, comma, depth, done, o.value, AfterElement(f, doc, o.cur, depth, next), k);
    } else {
      BadElement(f, items, comma, depth, done, o, ReadElements(f, doc, i, depth, done), k);
    }
  }

  lemma NoElements(f: Features, depth: nat, done: Entries, k: nat)
    requires done == []
    ensures MatchesElements(f, [], false, depth, done, Items(done, k, [], true), k)
    ensures ItemsVerdict(f, [], false, depth + 1).Good?
  {
    assert BareItems(done) + [] == BareItems(done);
  }

  lemma OneMoreElement(f: Features, items: seq<Json>, comma: bool, depth: nat, done: Entries, v: Value, r: Items,
                       k: nat)
    requires items != [] && AllReadable(items) && VerdictOf(f, items[0], depth + 1).Good?
    requires Bare(v) == Meaning(f, items[0])
    requires MatchesElements(f, items[1..], comma, depth, done + [Entry(Index(|done|), v)], r, k)
    ensures MatchesElements(f, items, comma, depth, done, r, k)
    ensures ItemsVerdict(f, items, comma, depth + 1) == ItemsVerdict(f, items[1..], comma, depth + 1)
  {
    hide VerdictOf, Meaning, Bare;
    BareAppend(done, Index(|done|), v);
    Resume(BareItems(done), [Entry(Index(|done|), Bare(v))], ItemsMeaning(f, items[1..], comma, |done| + 1));
  }

  lemma BadElement(f: Features, items: seq<Json>, comma: bool, depth: nat, done: Entries, o: Outcome, r: Items, k: nat)
    requires items != [] && AllReadable(items) && !VerdictOf(f, items[0], depth + 1).Good?
    requires Matches(f, items[0], depth + 1, o, k)
    requires if o.Done? then r.Items? && r.ok == o.ok else r == ItemsThrown(o.why)
    ensures MatchesElements(f, items, comma, depth, done, r, k) && !ItemsVerdict(f, items, comma, depth + 1).Good?
  {
    hide VerdictOf, Meaning;
  }

  lemma {:induction false} AfterElementIsRead(f: Features, doc: bytes, i: nat, depth: nat, done: Entries,
                                              items: seq<Json>, comma: bool, rest: seq<Tok>, j: nat) returns (k: nat)
    requires i <= |doc| && AllReadable(items) && Dense(done) && Reads(f, doc, i, MoreElements(items, comma) + rest, j)
    requires depth < f.stackLimit && done != []
    ensures k <= |doc| && MatchesElements(f, items, comma, depth, done, AfterElement(f, doc, i, depth, done), k)
    ensures ItemsVerdict(f, items, comma, depth + 1).Good? ==> Reads(f, doc, k, rest, j)
    decreases items, 2
  {
    hide Reads, ValueToken, NextToken, Lexer.ReadToken, ReadElements, Elements, ItemsVerdict, ItemsMeaning, BareItems,
         MatchesElements;
    if items != [] {
      Resume([COMMA], Elements(items, comma), rest);
      var t := TakeToken(f, doc, i, COMMA, Elements(items, comma) + rest, j);
      k := ElementsAreRead(f, doc, t.end, depth, done, items, comma, rest, j);
    } else if comma {
      Resume([COMMA], [CLOSE_ARRAY], rest);
      assert [COMMA] + [CLOSE_ARRAY] == [COMMA, CLOSE_ARRAY];
      var t := TakeToken(f, doc, i, COMMA, [CLOSE_ARRAY] + rest, j);
      k := CommaIsRead(f, doc, t.end, depth, done, rest, j);
    } else {
      var t := TakeToken(f, doc, i, CLOSE_ARRAY, rest, j);
      k := t.end;
      NothingFollows(f, depth, done, k);
    }
  }

  lemma NothingFollows(f: Features, depth: nat, done: Entries, k: nat)
    ensures MatchesElements(f, [], false, depth, done, Items(done, k, [], true), k)
  {
    hide BareItems;
    assert BareItems(done) + [] == BareItems(done);
  }

  // The closing bracket behind a comma: the end if trailing commas are allowed, a null element if null
  // elements may be dropped, and otherwise an error.
  lemma CommaIsRead(f: Features, doc: bytes, i: nat, depth: nat, done: Entries, rest: seq<Tok>, j: nat)
    returns (k: nat)
    requires i <= |doc| && Dense(done) && done != [] && depth < f.stackLimit
    requires Reads(f, doc, i, [CLOSE_ARRAY] + rest, j)
    ensures k <= |doc| && MatchesElements(f, [], true, depth, done, ReadElements(f, doc, i, depth, done), k)
    ensures Reads(f, doc, k, rest, j)
  {
    hide Reads, NextToken, Lexer.ReadToken, Put, BareItems, ReadValue, AfterElement;
    var t := TakeToken(f, doc, i, CLOSE_ARRAY, rest, j);
    TokenStart(f, doc, i);
    k := t.end;
    if f.allowTrailingCommas && !f.allowDroppedNullPlaceholders {
      assert BareItems(done) + [] == BareItems(done);
    } else {
      TokenAgain(f, doc, i);
      BracketIsValue(f, doc, t.start, depth + 1);
      var o := ReadValue(f, doc, t.start, depth + 1, NullValue);
      if f.allowDroppedNullPlaceholders {
        PutAtEnd(done, o.value);
        BareAppend(done, Index(|done|), o.value);
        BracketEnds(f, doc, t.start, depth, done + [Entry(Index(|done|), o.value)]);
      }
    }
  }

  // A bracket in the place of a value.
  lemma BracketIsValue(f: Features, doc: bytes, i: nat, depth: nat)
    requires i <= |doc| && depth <= f.stackLimit
    requires ReadToken(f, doc, i).kind == ArrayEnd && ReadToken(f, doc, i).start == i
    ensures var o := ReadValue(f, doc, i, depth, NullValue);
            if f.allowDroppedNullPlaceholders then
              o.Done? && o.ok && o.errors == [] && o.cur == i && Bare(o.value) == NullValue
            else o.Done? && !o.ok
  {
    hide Lexer.ReadToken, ReadElements, ReadMembers;
  }

  lemma BracketEnds(f: Features, doc: bytes, i: nat, depth: nat, done: Entries)
    requires i <= |doc| && ReadToken(f, doc, i).kind == ArrayEnd
    ensures AfterElement(f, doc, i, depth, done) == Items(done, ReadToken(f, doc, i).end, [], true)
  {
    hide Lexer.ReadToken, ReadElements;
  }

  lemma BareAppend(done: Entries, key: CZString, v: Value)
    ensures BareItems(done + [Entry(key, v)]) == BareItems(done) + [Entry(key, Bare(v))]
  {
    BareItemsConcat(done, [Entry(key, v)]);
  }

  // At the first token of a value the array does not end.
  lemma NotClosing(f: Features, doc: bytes, i: nat, toks: seq<Tok>, tail: seq<Tok>, j: nat)
    requires i <= |doc| && toks != [] && toks[0].kind != ArrayEnd && Reads(f, doc, i, toks + tail, j)
    ensures var at := i + Spaces(doc[i..]); at == |doc| || doc[at] != 0x5D
  {
    hide LexAt;
    var t := ReadToken(f, doc, i);
  }

  // Objects -------------------------------------------------------------------------------------

  // What reading the rest of an object must give, some members being read.
  ghost predicate MatchesMembers(f: Features, members: seq<Pair>, comma: bool, last: bytes, depth: nat, done: Entries,
                                 r: Items, k: nat)
    requires PairsReadable(members)
  {
    MatchesItems(PairsVerdict(f, members, comma, last, BareItems(done), depth + 1), r, k,
                 PairsMeaning(f, members, BareItems(done)))
  }

  // The next member has this name.
  ghost predicate FirstNamed(members: seq<Pair>, name: bytes) {
    && members != [] && PairsReadable(members) && PairReadable(members[0])
    && Unescaped(members[0].name) == Some(name)
  }

  lemma KeyIsRead(f: Features, cs: seq<Char>)
    requires ReadableChars(cs)
    ensures var key := TokenKey(f, StringToken, StringText(cs));
            match Unescaped(cs)
            case Some(name) => key == Key(name)
            case None => key.BadKey?
  {
    hide StringText, StringScalar, NumberScalar, Unescaped;
    StringScalarOf(cs);
  }

  lemma {:induction false} MembersAreRead(f: Features, doc: bytes, i: nat, depth: nat, done: Entries, name: bytes,
                                          members: seq<Pair>, comma: bool, rest: seq<Tok>, j: nat) returns (k: nat)
    requires i <= |doc| && PairsReadable(members) && (members == [] ==> done == [] && name == [] && !comma)
    requires Reads(f, doc, i, Members(members, comma) + rest, j)
    ensures k <= |doc|
    ensures MatchesMembers(f, members, comma, name, depth, done, ReadMembers(f, doc, i, depth, done, name), k)
    ensures PairsVerdict(f, members, comma, name, BareItems(done), depth + 1).Good? ==> Reads(f, doc, k, rest, j)
    decreases members, 2
  {
    hide Reads, ValueToken, NextToken, Lexer.ReadToken, NamedMember, KeyedMember, Has, MoreMembers, Toks, TokenKey,
         BareItems, MatchesMembers, PairsVerdict, Unescaped, StringText, ReadableChars;
    if members == [] {
      var t := TakeToken(f, doc, i, CLOSE_OBJECT, rest, j);
      NoMembers(f, depth, done, t.end);
      return t.end;
    }
    var m, tail := members[0], MoreMembers(members[1..], comma) + rest;
    MemberTokens(members, comma, rest);
    var t := TakeToken(f, doc, i, Tok(StringToken, StringText(m.name)), [COLON] + (Toks(m.value) + tail), j);
    KeyIsRead(f, m.name);
    MembersStep(f, doc, i, depth, done, name);
    if Unescaped(m.name).Some? {
      k := NamedMemberIsRead(f, doc, t, depth, done, Unescaped(m.name).value, members, comma, name, rest, j);
    } else {
      k := t.end;
      BadName(f, members, comma, name, depth, done, ReadMembers(f, doc, i, depth, done, name), k);
    }
  }

  lemma MemberTokens(members: seq<Pair>, comma: bool, rest: seq<Tok>)
    requires members != []
    ensures var m, tail := members[0], MoreMembers(members[1..], comma) + rest;
            Members(members, comma) + rest
            == [Tok(StringToken, StringText(m.name))] + ([COLON] + (Toks(m.value) + tail))
  {
    hide Toks, StringText, MoreMembers;
  }

  lemma NoMembers(f: Features, depth: nat, done: Entries, k: nat)
    requires done == []
    ensures MatchesMembers(f, [], false, [], depth, done, Items(done, k, [], true), k)
    ensures PairsVerdict(f, [], false, [], BareItems(done), depth + 1).Good?
  {
  }

  lemma BadName(f: Features, members: seq<Pair>, comma: bool, last: bytes, depth: nat, done: Entries, r: Items, k: nat)
    requires members != [] && PairsReadable(members) && PairReadable(members[0])
    requires Unescaped(members[0].name).None? && r.Items? && !r.ok
    ensures MatchesMembers(f, members, comma, last, depth, done, r, k)
    ensures !PairsVerdict(f, members, comma, last, BareItems(done), depth + 1).Good?
  {
    hide Unescaped, VerdictOf;
    assert PairVerdict(f, members[0], BareItems(done), depth + 1).Bad?;
  }

  lemma {:induction false} NamedMemberIsRead(f: Features, doc: bytes, t: Token, depth: nat, done: Entries, name: bytes,
                                             members: seq<Pair>, comma: bool, last: bytes, rest: seq<Tok>, j: nat)
    returns (k: nat)
    requires t.end <= |doc| && FirstNamed(members, name)
    requires Reads(f, doc, t.end, [COLON] + (Toks(members[0].value) + (MoreMembers(members[1..], comma) + rest)), j)
    ensures k <= |doc|
    ensures MatchesMembers(f, members, comma, last, depth, done, NamedMember(f, doc, t, depth, done, name), k)
    ensures PairsVerdict(f, members, comma, last, BareItems(done), depth + 1).Good? ==> Reads(f, doc, k, rest, j)
    decreases members, 1
  {
    hide Reads, ReadValue, MemberValue, MoreMembers, Toks, BareItems, MatchesMembers, PairsVerdict, Unescaped, Has, Put;
    var r := NamedMember(f, doc, t, depth, done, name);
    BarePut(done, Name(name), NullValue);
    if |name| >= KEY_LIMIT || (f.rejectDupKeys && Has(done, Name(name))) {
      k := t.end;
      BadMember(f, members, comma, last, depth, done, name, r, k);
    } else {
      k := MemberIsRead(f, doc, t.end, depth, done, name, members, comma, last, rest, j);
    }
  }

  lemma BadMember(f: Features, members: seq<Pair>, comma: bool, last: bytes, depth: nat, done: Entries,
                  name: bytes, r: Items, k: nat)
    requires FirstNamed(members, name)
    requires if |name| >= KEY_LIMIT then r == ItemsThrown(KeyTooLong)
             else f.rejectDupKeys && Has(BareItems(done), Name(name)) && r.Items? && !r.ok
    ensures MatchesMembers(f, members, comma, last, depth, done, r, k)
    ensures !PairsVerdict(f, members, comma, last, BareItems(done), depth + 1).Good?
  {
    hide Unescaped, VerdictOf, Has, PairReadable;
    assert !PairVerdict(f, members[0], BareItems(done), depth + 1).Good?;
  }

  lemma {:induction false} MemberIsRead(f: Features, doc: bytes, i: nat, depth: nat, done: Entries, name: bytes,
                                        members: seq<Pair>, comma: bool, last: bytes, rest: seq<Tok>, j: nat)
    returns (k: nat)
    requires i <= |doc| && FirstNamed(members, name)
    requires |name| < KEY_LIMIT && !(f.rejectDupKeys && Has(BareItems(done), Name(name)))
    requires Reads(f, doc, i, [COLON] + (Toks(members[0].value) + (MoreMembers(members[1..], comma) + rest)), j)
    ensures k <= |doc|
    ensures MatchesMembers(f, members, comma, last, depth, done, MemberValue(f, doc, i, depth, done, name), k)
    ensures PairsVerdict(f, members, comma, last, BareItems(done), depth + 1).Good? ==> Reads(f, doc, k, rest, j)
    decreases members, 0
  {
    hide Reads, ValueToken, NextToken, Lexer.ReadToken, ReadValue, Put, Get, Has, AfterMember, MoreMembers, Toks, Bare,
         BareItems, Meaning, VerdictOf, MatchesMembers, PairsVerdict, Unescaped;
    var value, tail := members[0].value, MoreMembers(members[1..], comma) + rest;
    var colon := TakeToken(f, doc, i, COLON, Toks(value) + tail, j);
    var was := Get(done, Name(name));
    MemberValueStep(f, doc, i, depth, done, name);
    k := PairIsRead(f, doc, colon.end, depth + 1, was, members[0], tail, j);
    var o := ReadValue(f, doc, colon.end, depth + 1, was);
    if VerdictOf(f, value, depth + 1).Good? {
      var next := Put(done, Name(name), o.value);
      k := AfterMemberIsRead(f, doc, k, depth, next, name, members[1..], comma, rest, j);
      OneMoreMember(f, members, comma, last, depth, done, name, o.value,
                    AfterMember(f, doc, o.cur, depth, next, name), k);
    } else {
      BadValue(f, members, comma, last, depth, done, name, o, MemberValue(f, doc, i, depth, done, name), k);
    }
  }

  lemma {:induction false} PairIsRead(f: Features, doc: bytes, i: nat, depth: nat, was: Value, m: Pair,
                                      rest: seq<Tok>, j: nat) returns (k: nat)
    requires i <= |doc| && PairReadable(m) && Reads(f, doc, i, Toks(m.value) + rest, j)
    ensures k <= |doc| && Matches(f, m.value, depth, ReadValue(f, doc, i, depth, was), k)
    ensures VerdictOf(f, m.value, depth).Good? ==> Reads(f, doc, k, rest, j)
    decreases m, 1
  {
    k := TreeIsRead(f, doc, i, depth, was, m.value, rest, j);
  }

  lemma OneMoreMember(f: Features, members: seq<Pair>, comma: bool, last: bytes, depth: nat, done: Entries,
                      name: bytes, v: Value, r: Items, k: nat)
    requires FirstNamed(members, name)
    requires |name| < KEY_LIMIT && !(f.rejectDupKeys && Has(BareItems(done), Name(name)))
    requires VerdictOf(f, members[0].value, depth + 1).Good? && Bare(v) == Meaning(f, members[0].value)
    requires MatchesMembers(f, members[1..], comma, name, depth, Put(done, Name(name), v), r, k)
    ensures MatchesMembers(f, members, comma, last, depth, done, r, k)
    ensures PairsVerdict(f, members, comma, last, BareItems(done), depth + 1)
         == PairsVerdict(f, members[1..], comma, name, BareItems(Put(done, Name(name), v)), depth + 1)
  {
    hide Unescaped, VerdictOf, Meaning, Bare, BareItems, Put, Has;
    BarePut(done, Name(name), v);
    assert PairVerdict(f, members[0], BareItems(done), depth + 1).Good?;
    assert PutPair(f, members[0], BareItems(done)) == BareItems(Put(done, Name(name), v));
  }

  lemma BadValue(f: Features, members: seq<Pair>, comma: bool, last: bytes, depth: nat, done: Entries,
                 name: bytes, o: Outcome, r: Items, k: nat)
    requires FirstNamed(members, name)
    requires |name| < KEY_LIMIT && !(f.rejectDupKeys && Has(BareItems(done), Name(name)))
    requires !VerdictOf(f, members[0].value, depth + 1).Good? && Matches(f, members[0].value, depth + 1, o, k)
    requires if o.Done? then r.Items? && r.ok == o.ok else r == ItemsThrown(o.why)
    ensures MatchesMembers(f, members, comma, last, depth, done, r, k)
    ensures !PairsVerdict(f, members, comma, last, BareItems(done), depth + 1).Good?
  {
    hide Unescaped, VerdictOf, Meaning, Has;
    assert PairVerdict(f, members[0], BareItems(done), depth + 1) == VerdictOf(f, members[0].value, depth + 1);
  }

  lemma {:induction false} AfterMemberIsRead(f: Features, doc: bytes, i: nat, depth: nat, done: Entries, name: bytes,
                                             members: seq<Pair>, comma: bool, rest: seq<Tok>, j: nat) returns (k: nat)
    requires i <= |doc| && PairsReadable(members) && Reads(f, doc, i, MoreMembers(members, comma) + rest, j)
    ensures k <= |doc|
    ensures MatchesMembers(f, members, comma, name, depth, done, AfterMember(f, doc, i, depth, done, name), k)
    ensures PairsVerdict(f, members, comma, name, BareItems(done), depth + 1).Good? ==> Reads(f, doc, k, rest, j)
    decreases members, 3
  {
    hide Reads, ValueToken, NextToken, Lexer.ReadToken, ReadMembers, Members, BareItems, MatchesMembers;
    if members != [] {
      Resume([COMMA], Members(members, comma), rest);
      var t := TakeToken(f, doc, i, COMMA, Members(members, comma) + rest, j);
      k := MembersAreRead(f, doc, t.end, depth, done, name, members, comma, rest, j);
    } else if comma {
      Resume([COMMA], [CLOSE_OBJECT], rest);
      assert [COMMA] + [CLOSE_OBJECT] == [COMMA, CLOSE_OBJECT];
      var t := TakeToken(f, doc, i, COMMA, [CLOSE_OBJECT] + rest, j);
      var end := TakeToken(f, doc, t.end, CLOSE_OBJECT, rest, j);
      k := end.end;
      BraceIsRead(f, doc, t.end, depth, done, name);
    } else {
      var t := TakeToken(f, doc, i, CLOSE_OBJECT, rest, j);
      k := t.end;
      EndOfMembers(f, name, depth, done, k);
    }
  }

  lemma EndOfMembers(f: Features, name: bytes, depth: nat, done: Entries, k: nat)
    ensures MatchesMembers(f, [], false, name, depth, done, Items(done, k, [], true), k)
  {
    hide BareItems;
  }

  // The closing brace behind a comma: the end if trailing commas are allowed or the last name is empty,
  // and otherwise an error.
  lemma BraceIsRead(f: Features, doc: bytes, i: nat, depth: nat, done: Entries, name: bytes)
    requires i <= |doc| && NextToken(f, doc, i).kind == ObjectEnd
    ensures MatchesMembers(f, [], true, name, depth, done, ReadMembers(f, doc, i, depth, done, name),
                           NextToken(f, doc, i).end)
  {
    hide NextToken, BareItems;
    var t := NextToken(f, doc, i);
    assert TokenKey(f, t.kind, Text(doc, t)).NoKey?;
  }
}
