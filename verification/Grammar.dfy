/**
  The texts the reader may accept, as syntax trees that keep every lexical choice; their tokens, the
  value they denote, and what keeps the reader from accepting one. Those of RFC 8259 are among them.
 */
module Grammar {
  import opened Bytes
  import opened Numbers
  import opened JsonValue
  import opened Lexer
  import opened Literals
  import opened Parser
  import opened Tokens

  // A comma may follow the last element or member, though RFC 8259 has none there.
  datatype Json =
    | JNull
    | JBool(b: bool)
    | JNumber(n: Numeral)
    | JString(cs: seq<Char>)
    | JArray(items: seq<Json>, comma: bool)
    | JObject(members: seq<Pair>, comma: bool)

  datatype Pair = Pair(name: seq<Char>, value: Json)

  predicate Readable(t: Json)
    decreases t, 0
  {
    match t
    case JNumber(n) => ReadableNumeral(n)
    case JString(cs) => ReadableChars(cs)
    case JArray(items, comma) => (comma ==> items != []) && AllReadable(items)
    case JObject(members, comma) => (comma ==> members != []) && PairsReadable(members)
    case _ => true
  }

  predicate AllReadable(items: seq<Json>)
    decreases items, 1
  {
    items != [] ==> Readable(items[0]) && AllReadable(items[1..])
  }

  predicate PairsReadable(members: seq<Pair>)
    decreases members, 1
  {
    members != [] ==> PairReadable(members[0]) && PairsReadable(members[1..])
  }

  predicate PairReadable(m: Pair)
    decreases m, 1
  {
    ReadableChars(m.name) && Readable(m.value)
  }

  // Tokens ---------------------------------------------------------------------------------------

  const OPEN_ARRAY := Tok(ArrayBegin, [0x5B])
  const CLOSE_ARRAY := Tok(ArrayEnd, [0x5D])
  const OPEN_OBJECT := Tok(ObjectBegin, [0x7B])
  const CLOSE_OBJECT := Tok(ObjectEnd, [0x7D])
  const COMMA := Tok(ArraySeparator, [0x2C])
  const COLON := Tok(MemberSeparator, [0x3A])
  const NULL_TOK := Tok(NullToken, [0x6E] + NULL_REST)
  const TRUE_TOK := Tok(TrueToken, [0x74] + TRUE_REST)
  const FALSE_TOK := Tok(FalseToken, [0x66] + FALSE_REST)

  function Toks(t: Json): seq<Tok>
    decreases t, 0
  {
    match t
    case JNull => [NULL_TOK]
    case JBool(b) => [if b then TRUE_TOK else FALSE_TOK]
    case JNumber(n) => [Tok(NumberToken, NumeralText(n))]
    case JString(cs) => [Tok(StringToken, StringText(cs))]
    case JArray(items, comma) => [OPEN_ARRAY] + Elements(items, comma)
    case JObject(members, comma) => [OPEN_OBJECT] + Members(members, comma)
  }

  // The elements, separated and perhaps followed by commas, and the closing bracket.
  function Elements(items: seq<Json>, comma: bool): seq<Tok>
    decreases items, 1
  {
    if items == [] then [CLOSE_ARRAY] else Toks(items[0]) + MoreElements(items[1..], comma)
  }

  function MoreElements(items: seq<Json>, comma: bool): seq<Tok>
    decreases items, 2
  {
    if items == [] then (if comma then [COMMA, CLOSE_ARRAY] else [CLOSE_ARRAY])
    else [COMMA] + Elements(items, comma)
  }

  function Members(members: seq<Pair>, comma: bool): seq<Tok>
    decreases members, 1
  {
    if members == [] then [CLOSE_OBJECT] else PairToks(members[0]) + MoreMembers(members[1..], comma)
  }

  function MoreMembers(members: seq<Pair>, comma: bool): seq<Tok>
    decreases members, 2
  {
    if members == [] then (if comma then [COMMA, CLOSE_OBJECT] else [CLOSE_OBJECT])
    else [COMMA] + Members(members, comma)
  }

  function PairToks(m: Pair): seq<Tok>
    decreases m, 1
  {
    [Tok(StringToken, StringText(m.name)), COLON] + Toks(m.value)
  }

  // No comma before a closing bracket or brace.
  predicate CommaFree(t: Json)
    decreases t, 0
  {
    match t
    case JArray(items, comma) => !comma && AllCommaFree(items)
    case JObject(members, comma) => !comma && PairsCommaFree(members)
    case _ => true
  }

  predicate AllCommaFree(items: seq<Json>)
    decreases items, 1
  {
    items != [] ==> CommaFree(items[0]) && AllCommaFree(items[1..])
  }

  predicate PairsCommaFree(members: seq<Pair>)
    decreases members, 1
  {
    members != [] ==> PairCommaFree(members[0]) && PairsCommaFree(members[1..])
  }

  predicate PairCommaFree(m: Pair)
    decreases m, 1
  {
    CommaFree(m.value)
  }

  /** The trees of RFC 8259: those made of its tokens, without a comma behind the last element. */
  ghost predicate Grammatical(t: Json) {
    Readable(t) && CommaFree(t) && forall tok | tok in Toks(t) :: Standard(tok)
  }

  // How deeply the containers of a tree nest, the tree itself included.
  function Depth(t: Json): (n: nat)
    ensures n >= 1
    decreases t, 0
  {
    match t
    case JArray(items, comma) => 1 + ItemsDepth(items)
    case JObject(members, comma) => 1 + PairsDepth(members)
    case _ => 1
  }

  function Larger(a: nat, b: nat): nat { if a > b then a else b }

  function ItemsDepth(items: seq<Json>): nat
    decreases items, 1
  {
    if items == [] then 0 else Larger(Depth(items[0]), ItemsDepth(items[1..]))
  }

  function PairsDepth(members: seq<Pair>): nat
    decreases members, 1
  {
    if members == [] then 0 else Larger(PairDepth(members[0]), PairsDepth(members[1..]))
  }

  function PairDepth(m: Pair): nat
    decreases m, 1
  {
    Depth(m.value)
  }

  // Meaning --------------------------------------------------------------------------------------

  // A minus or no sign, and digits (if a sign, perhaps none).
  predicate Integral(n: Numeral) { n.fraction.None? && n.exponent.None? && n.sign != [PLUS] }

  function Denoted(n: Numeral): int
    requires ReadableNumeral(n)
  {
    if n.sign == [MINUS] then -(NatOf(n.whole) as int) else NatOf(n.whole)
  }

  /** An integer that fits 64 bits is that integer; any other number is left to the conversion to
      double, which may reject it. */
  function NumberMeaning(f: Features, n: Numeral): Option<Payload>
    requires ReadableNumeral(n)
  {
    if Integral(n) && MIN_INT64 <= Denoted(n) <= MAX_INT64 then Some(Int(Denoted(n)))
    else if Integral(n) && MAX_INT64 < Denoted(n) <= MAX_UINT64 then Some(UInt(Denoted(n)))
    else
      match f.parseDouble(NumeralText(n))
      case Some(d) => Some(Real(d))
      case None => None
  }

  /** The value a tree denotes; of several members with one name the last one counts. Where null
      elements may be dropped, a comma before a closing bracket leaves room for one. */
  function Meaning(f: Features, t: Json): Value
    requires Readable(t)
    decreases t, 0
  {
    match t
    case JNull => NullValue
    case JBool(b) => Value(Bool(b), 0, 0)
    case JNumber(n) => (match NumberMeaning(f, n) case Some(p) => Value(p, 0, 0) case None => NullValue)
    case JString(cs) => (match Unescaped(cs) case Some(s) => Value(Str(s), 0, 0) case None => NullValue)
    case JArray(items, comma) => Value(Arr(ItemsMeaning(f, items, comma, 0)), 0, 0)
    case JObject(members, comma) => Value(Obj(PairsMeaning(f, members, [])), 0, 0)
  }

  function ItemsMeaning(f: Features, items: seq<Json>, comma: bool, n: nat): Entries
    requires AllReadable(items)
    decreases items, 1
  {
    if items == [] then (if comma && f.allowDroppedNullPlaceholders then [Entry(Index(n), NullValue)] else [])
    else [Entry(Index(n), Meaning(f, items[0]))] + ItemsMeaning(f, items[1..], comma, n + 1)
  }

  // The members added one after the other to those that are there.
  function PairsMeaning(f: Features, members: seq<Pair>, es: Entries): Entries
    requires PairsReadable(members)
    decreases members, 1
  {
    if members == [] then es
    else PairsMeaning(f, members[1..], PutPair(f, members[0], es))
  }

  function PutPair(f: Features, m: Pair, es: Entries): Entries
    requires PairReadable(m)
    decreases m, 1
  {
    match Unescaped(m.name)
    case Some(name) => Put(es, Name(name), Meaning(f, m.value))
    case None => es
  }

  // Verdict --------------------------------------------------------------------------------------

  // Read with nodes_.size() == depth: accepted, rejected with an error, or an exception.
  datatype Verdict = Good | Bad | Throws(why: Exception)

  /** What becomes of a tree: the first obstacle met in reading order decides. */
  function VerdictOf(f: Features, t: Json, depth: nat): Verdict
    requires Readable(t)
    decreases t, 0
  {
    if depth > f.stackLimit then Throws(StackLimitExceeded)
    else
      match t
      case JNumber(n) => if NumberMeaning(f, n).Some? then Good else Bad
      case JString(cs) => if Unescaped(cs).Some? then Good else Bad
      case JArray(items, comma) => ItemsVerdict(f, items, comma, depth + 1)
      case JObject(members, comma) => PairsVerdict(f, members, comma, [], [], depth + 1)
      case _ => Good
  }

  // Whether a comma may stand before the closing bracket: it may be trailing, or an element dropped.
  predicate ElementComma(f: Features, comma: bool) {
    comma ==> f.allowTrailingCommas || f.allowDroppedNullPlaceholders
  }

  // Whether a comma may stand before the closing brace, behind a member with this name.
  predicate MemberComma(f: Features, comma: bool, last: bytes) {
    comma ==> f.allowTrailingCommas || last == []
  }

  // The name of a member; none for one that cannot be decoded.
  function LastName(m: Pair): bytes
    requires PairReadable(m)
  {
    match Unescaped(m.name)
    case Some(name) => name
    case None => []
  }

  function ItemsVerdict(f: Features, items: seq<Json>, comma: bool, depth: nat): Verdict
    requires AllReadable(items)
    decreases items, 1
  {
    if items == [] then (if ElementComma(f, comma) then Good else Bad)
    else if !VerdictOf(f, items[0], depth).Good? then VerdictOf(f, items[0], depth)
    else ItemsVerdict(f, items[1..], comma, depth)
  }

  // The members after some, the last of them with this name.
  function PairsVerdict(f: Features, members: seq<Pair>, comma: bool, last: bytes, es: Entries, depth: nat): Verdict
    requires PairsReadable(members)
    decreases members, 1
  {
    if members == [] then (if MemberComma(f, comma, last) then Good else Bad)
    else if !PairVerdict(f, members[0], es, depth).Good? then PairVerdict(f, members[0], es, depth)
    else PairsVerdict(f, members[1..], comma, LastName(members[0]), PutPair(f, members[0], es), depth)
  }

  function PairVerdict(f: Features, m: Pair, es: Entries, depth: nat): Verdict
    requires PairReadable(m)
    decreases m, 1
  {
    match Unescaped(m.name)
    case None => Bad
    case Some(name) =>
      if |name| >= KEY_LIMIT then Throws(KeyTooLong)
      else if f.rejectDupKeys && Has(es, Name(name)) then Bad
      else VerdictOf(f, m.value, depth)
  }

  /** Nothing in a tree keeps the reader from accepting it, but perhaps its depth: the numbers
      beyond 64-bit integers are accepted as doubles, no high surrogate is unpaired, names are
      shorter than 2^30 bytes and, where duplicates are rejected, distinct, and commas before
      closing brackets are allowed (or, behind an empty name, not noticed). */
  ghost predicate Clear(f: Features, t: Json)
    requires Readable(t)
    decreases t, 0
  {
    match t
    case JNumber(n) => NumberMeaning(f, n).Some?
    case JString(cs) => Unescaped(cs).Some?
    case JArray(items, comma) => AllClear(f, items, comma)
    case JObject(members, comma) => PairsClear(f, members, comma, [], {})
    case _ => true
  }

  ghost predicate AllClear(f: Features, items: seq<Json>, comma: bool)
    requires AllReadable(items)
    decreases items, 1
  {
    if items == [] then ElementComma(f, comma) else Clear(f, items[0]) && AllClear(f, items[1..], comma)
  }

  // The members after some with these names.
  ghost predicate PairsClear(f: Features, members: seq<Pair>, comma: bool, last: bytes, seen: set<bytes>)
    requires PairsReadable(members)
    decreases members, 1
  {
    if members == [] then MemberComma(f, comma, last)
    else
      && PairClear(f, members[0], seen)
      && PairsClear(f, members[1..], comma, LastName(members[0]), seen + NameSet(members[0]))
  }

  ghost predicate PairClear(f: Features, m: Pair, seen: set<bytes>)
    requires PairReadable(m)
    decreases m, 1
  {
    && Unescaped(m.name).Some? && |Unescaped(m.name).value| < KEY_LIMIT
    && (f.rejectDupKeys ==> Unescaped(m.name).value !in seen)
    && Clear(f, m.value)
  }

  ghost function NameSet(m: Pair): set<bytes>
    requires PairReadable(m)
  {
    if Unescaped(m.name).Some? then {Unescaped(m.name).value} else {}
  }

  ghost predicate Keys(es: Entries, seen: set<bytes>) {
    Sorted(es) && forall name: bytes :: Has(es, Name(name)) <==> name in seen
  }

  lemma KeysAfter(f: Features, m: Pair, es: Entries, seen: set<bytes>)
    requires PairReadable(m) && Keys(es, seen)
    ensures Keys(PutPair(f, m, es), seen + NameSet(m))
  {
    hide Unescaped, Meaning, Sorted, Has, Put, ReadableChars;
    if Unescaped(m.name).Some? {
      var key, v := Name(Unescaped(m.name).value), Meaning(f, m.value);
      PutKeepsSorted(es, key, v);
      forall name: bytes ensures Has(Put(es, key, v), Name(name)) <==> name in seen + NameSet(m) {
        PutThenGet(es, key, v, Name(name));
      }
    }
  }

  // The verdict on something clear or not, at a depth.
  ghost predicate Decides(v: Verdict, clear: bool, fits: bool) {
    && (v.Good? <==> clear && fits)
    && (clear && !fits ==> v == Throws(StackLimitExceeded))
  }

  /** A tree is accepted if and only if it is clear and does not nest too deeply; a clear one that
      does makes the reader throw. */
  lemma {:induction false} VerdictExactly(f: Features, t: Json, depth: nat)
    requires Readable(t)
    ensures Decides(VerdictOf(f, t, depth), Clear(f, t), depth + Depth(t) <= f.stackLimit + 1)
    decreases t, 0
  {
    hide NumberMeaning, Unescaped, ReadableChars, ReadableNumeral;
    match t
    case JArray(items, comma) => ItemsVerdictExactly(f, items, comma, depth + 1);
    case JObject(members, comma) =>
      NoKeys();
      PairsVerdictExactly(f, members, comma, [], [], {}, depth + 1);
    case _ =>
  }

  lemma NoKeys()
    ensures Keys([], {})
  {
  }

  lemma {:induction false} ItemsVerdictExactly(f: Features, items: seq<Json>, comma: bool, depth: nat)
    requires AllReadable(items)
    ensures Decides(ItemsVerdict(f, items, comma, depth), AllClear(f, items, comma),
                    items == [] || depth + ItemsDepth(items) <= f.stackLimit + 1)
    decreases items, 1
  {
    hide VerdictOf, Clear, ElementComma;
    if items != [] {
      VerdictExactly(f, items[0], depth);
      ItemsVerdictExactly(f, items[1..], comma, depth);
    }
  }

  lemma {:induction false} PairsVerdictExactly(f: Features, members: seq<Pair>, comma: bool, last: bytes,
                                               es: Entries, seen: set<bytes>, depth: nat)
    requires PairsReadable(members) && Keys(es, seen)
    ensures Decides(PairsVerdict(f, members, comma, last, es, depth), PairsClear(f, members, comma, last, seen),
                    members == [] || depth + PairsDepth(members) <= f.stackLimit + 1)
    decreases members, 1
  {
    hide VerdictOf, Clear, PairVerdict, PairClear, Keys, PutPair, NameSet, LastName, MemberComma;
    if members != [] {
      PairVerdictExactly(f, members[0], es, seen, depth);
      KeysAfter(f, members[0], es, seen);
      PairsVerdictExactly(f, members[1..], comma, LastName(members[0]), PutPair(f, members[0], es),
                          seen + NameSet(members[0]), depth);
    }
  }

  lemma {:induction false} PairVerdictExactly(f: Features, m: Pair, es: Entries, seen: set<bytes>, depth: nat)
    requires PairReadable(m) && Keys(es, seen)
    ensures Decides(PairVerdict(f, m, es, depth), PairClear(f, m, seen), depth + PairDepth(m) <= f.stackLimit + 1)
    decreases m, 1
  {
    hide VerdictOf, Clear, Unescaped, Has, Sorted;
    VerdictExactly(f, m.value, depth);
  }

  // Every token is one of the grammar, and a number stands before punctuation or at the end --------

  lemma WritableConcat(a: seq<Tok>, b: seq<Tok>)
    requires Writable(a) && Writable(b)
    requires a != [] && b != [] && a[|a| - 1].kind == NumberToken ==> Punctuation(b[0])
    ensures Writable(a + b)
  {
    hide Recognized, Punctuation;
  }

  lemma WritableOne(t: Tok)
    requires Recognized(t)
    ensures Writable([t])
  {
    hide Recognized, Punctuation;
  }

  lemma {:induction false} ToksWritable(t: Json)
    requires Readable(t)
    ensures Writable(Toks(t)) && Toks(t) != []
    decreases t, 0
  {
    hide Writable, ReadableNumeral, ReadableChars;
    match t {
      case JNull => WritableOne(NULL_TOK);
      case JBool(b) => WritableOne(if b then TRUE_TOK else FALSE_TOK);
      case JNumber(n) => WritableOne(Tok(NumberToken, NumeralText(n)));
      case JString(cs) => WritableOne(Tok(StringToken, StringText(cs)));
      case JArray(items, comma) =>
        ElementsWritable(items, comma);
        WritableOne(OPEN_ARRAY);
        WritableConcat([OPEN_ARRAY], Elements(items, comma));
      case JObject(members, comma) =>
        MembersWritable(members, comma);
        WritableOne(OPEN_OBJECT);
        WritableConcat([OPEN_OBJECT], Members(members, comma));
    }
  }

  lemma {:induction false} ElementsWritable(items: seq<Json>, comma: bool)
    requires AllReadable(items)
    ensures Writable(Elements(items, comma))
    decreases items, 1
  {
    hide Writable;
    if items == [] {
      WritableOne(CLOSE_ARRAY);
    } else {
      ToksWritable(items[0]);
      WritableOne(CLOSE_ARRAY);
      WritableOne(COMMA);
      if items[1..] != [] {
        ElementsWritable(items[1..], comma);
        WritableConcat([COMMA], Elements(items[1..], comma));
      } else {
        WritableConcat([COMMA], [CLOSE_ARRAY]);
        assert [COMMA] + [CLOSE_ARRAY] == [COMMA, CLOSE_ARRAY];
      }
      WritableConcat(Toks(items[0]), MoreElements(items[1..], comma));
    }
  }

  lemma {:induction false} MembersWritable(members: seq<Pair>, comma: bool)
    requires PairsReadable(members)
    ensures Writable(Members(members, comma))
    decreases members, 1
  {
    hide Writable;
    if members == [] {
      WritableOne(CLOSE_OBJECT);
    } else {
      PairWritable(members[0]);
      WritableOne(CLOSE_OBJECT);
      WritableOne(COMMA);
      if members[1..] != [] {
        MembersWritable(members[1..], comma);
        WritableConcat([COMMA], Members(members[1..], comma));
      } else {
        WritableConcat([COMMA], [CLOSE_OBJECT]);
        assert [COMMA] + [CLOSE_OBJECT] == [COMMA, CLOSE_OBJECT];
      }
      WritableConcat(PairToks(members[0]), MoreMembers(members[1..], comma));
    }
  }

  lemma {:induction false} PairWritable(m: Pair)
    requires PairReadable(m)
    ensures Writable(PairToks(m))
    decreases m, 1
  {
    hide Writable, ReadableChars;
    var name := Tok(StringToken, StringText(m.name));
    WritableOne(name);
    WritableOne(COLON);
    WritableConcat([name], [COLON]);
    assert [name] + [COLON] == [name, COLON];
    ToksWritable(m.value);
    WritableConcat([name, COLON], Toks(m.value));
  }
}
