/** Printed values as trees of the grammar: their tokens, meaning and verdict. */
module PrintedTrees {
  import opened Bytes
  import opened Numbers
  import opened Utf8
  import opened Quoting
  import opened QuoteRoundTrip
  import opened JsonValue
  import opened Lexer
  import opened Literals
  import opened Parser
  import opened Tokens
  import opened Grammar
  import opened PrintedValues

  // The tree a value is printed as, with its strings quoted in mode e. (Reals are not covered.)
  function TreeOf(v: Value, e: bool): Json
    decreases v, 1
  {
    match v.p
    case Null => JNull
    case Int(i) => JNumber(IntegerNumeral(i))
    case UInt(u) => JNumber(IntegerNumeral(u))
    case Real(_) => JNull
    case Str(s) => JString(CharsOf(s, e))
    case Bool(b) => JBool(b)
    case Arr(es) => JArray(TreesOf(es, e), false)
    case Obj(es) => JObject(PairsOf(es, e), false)
  }

  function TreesOf(es: Entries, e: bool): (r: seq<Json>)
    ensures |r| == |es|
    decreases es, 0
  {
    if es == [] then [] else [EntryTree(es[0], e)] + TreesOf(es[1..], e)
  }

  function PairsOf(es: Entries, e: bool): (r: seq<Pair>)
    ensures |r| == |es|
    decreases es, 0
  {
    if es == [] then []
    else [Pair(CharsOf(if es[0].key.Name? then es[0].key.s else [], e), EntryTree(es[0], e))] + PairsOf(es[1..], e)
  }

  function EntryTree(en: Entry, e: bool): Json
    decreases en, 2
  {
    TreeOf(en.val, e)
  }

  // Good names, in increasing order, behind some entries.
  ghost predicate Behind(done: Entries, es: Entries, e: bool) {
    Sorted(done + es) && forall k :: 0 <= k < |es| ==> GoodName(es[k].key, e)
  }

  lemma BehindNext(done: Entries, es: Entries, e: bool, v: Value)
    requires Behind(done, es, e) && es != []
    ensures GoodName(es[0].key, e) && Behind(done + [Entry(es[0].key, v)], es[1..], e)
    ensures forall m :: 0 <= m < |done| ==> KeyLess(done[m].key, es[0].key)
  {
    hide KeyLess, GoodName;
    var xs, ys := done + es, done + [Entry(es[0].key, v)] + es[1..];
    forall a, b | 0 <= a < b < |ys| ensures KeyLess(ys[a].key, ys[b].key) {
      assert xs[a].key == ys[a].key && xs[b].key == ys[b].key;
    }
    forall m | 0 <= m < |done| ensures KeyLess(done[m].key, es[0].key) {
      assert xs[m] == done[m] && xs[|done|] == es[0];
    }
  }

  // Grammar and tokens ---------------------------------------------------------------------------

  lemma {:induction false} TreeIsReadable(v: Value, e: bool)
    requires Printable(v, e)
    ensures Readable(TreeOf(v, e)) && CommaFree(TreeOf(v, e)) && Depth(TreeOf(v, e)) == Nesting(v)
    decreases v, 1
  {
    hide CharsOf, IntegerNumeral, ReadableNumeral, ReadableChars, Quoted, IntText, Unescaped;
    match v.p
    case Int(i) => IntegerIsNumeral(i);
    case UInt(u) => IntegerIsNumeral(u);
    case Str(s) => QuotedIsString(s, e);
    case Arr(es) => TreesAreReadable(es, e);
    case Obj(es) => PairsAreReadable(es, e);
    case _ =>
  }

  lemma {:induction false} TreesAreReadable(es: Entries, e: bool)
    requires AllPrintable(es, e)
    ensures AllReadable(TreesOf(es, e)) && AllCommaFree(TreesOf(es, e))
    ensures ItemsDepth(TreesOf(es, e)) == ItemsNesting(es)
    decreases es, 0
  {
    hide Readable, CommaFree, Depth, Nesting, EntryNesting;
    if es != [] {
      EntryIsReadable(es[0], e);
      TreesAreReadable(es[1..], e);
      assert TreesOf(es, e)[1..] == TreesOf(es[1..], e);
    }
  }

  lemma {:induction false} PairsAreReadable(es: Entries, e: bool)
    requires AllPrintable(es, e)
    ensures PairsReadable(PairsOf(es, e)) && PairsCommaFree(PairsOf(es, e))
    ensures PairsDepth(PairsOf(es, e)) == ItemsNesting(es)
    decreases es, 0
  {
    hide Readable, CommaFree, Depth, Nesting, EntryNesting, CharsOf, Quoted, ReadableChars, Unescaped;
    if es != [] {
      EntryIsReadable(es[0], e);
      QuotedIsString(if es[0].key.Name? then es[0].key.s else [], e);
      PairsAreReadable(es[1..], e);
      assert PairsOf(es, e)[1..] == PairsOf(es[1..], e);
      assert PairReadable(PairsOf(es, e)[0]) && PairDepth(PairsOf(es, e)[0]) == EntryNesting(es[0]);
    }
  }

  lemma {:induction false} EntryIsReadable(en: Entry, e: bool)
    requires EntryPrintable(en, e)
    ensures Readable(EntryTree(en, e)) && CommaFree(EntryTree(en, e)) && Depth(EntryTree(en, e)) == EntryNesting(en)
    decreases en, 2
  {
    TreeIsReadable(en.val, e);
  }

  // The tokens of a value are those of RFC 8259.

  ghost predicate AllStandard(toks: seq<Tok>) {
    forall tok | tok in toks :: Standard(tok)
  }

  lemma StandardConcat(a: seq<Tok>, b: seq<Tok>)
    requires AllStandard(a) && AllStandard(b)
    ensures AllStandard(a + b)
  {
    hide Standard;
  }

  lemma StringIsStandard(s: bytes, e: bool)
    ensures Standard(StringTok(s, e))
  {
    hide CharsOf, Quoted, StringText, Unescaped;
    QuotedIsString(s, e);
  }

  lemma IntegerIsStandard(i: int)
    ensures Standard(Tok(NumberToken, IntText(i)))
  {
    hide IntegerNumeral, IntText, NumeralText, GoodNumeral;
    IntegerIsNumeral(i);
  }

  lemma PunctuationIsStandard(t: Tok)
    requires Punctuation(t)
    ensures AllStandard([t])
  {
  }

  lemma {:induction false} ValueIsStandard(v: Value, e: bool)
    requires Printable(v, e)
    ensures AllStandard(ValueToks(v, e))
    decreases v, 1
  {
    hide AllStandard, Standard, ItemToks;
    match v.p
    case Arr(es) =>
      ItemsAreStandard(es, e);
      Enclosed(OPEN_ARRAY, ItemToks(es, e), CLOSE_ARRAY);
    case Obj(es) =>
      ItemsAreStandard(es, e);
      Enclosed(OPEN_OBJECT, ItemToks(es, e), CLOSE_OBJECT);
    case _ =>
      ScalarIsStandard(v, e);
  }

  lemma Enclosed(first: Tok, toks: seq<Tok>, last: Tok)
    requires Punctuation(first) && AllStandard(toks) && Punctuation(last)
    ensures AllStandard([first] + toks + [last])
  {
    hide AllStandard;
    PunctuationIsStandard(first);
    PunctuationIsStandard(last);
    StandardConcat([first], toks);
    StandardConcat([first] + toks, [last]);
  }

  lemma ScalarIsStandard(v: Value, e: bool)
    requires Printable(v, e) && !v.p.Arr? && !v.p.Obj?
    ensures AllStandard(ValueToks(v, e))
  {
    hide Quoted, IntText;
    match v.p
    case Int(i) => IntegerIsStandard(i);
    case UInt(u) => IntegerIsStandard(u);
    case Str(s) => StringIsStandard(s, e);
    case _ =>
  }

  lemma {:induction false} ItemsAreStandard(es: Entries, e: bool)
    requires AllPrintable(es, e)
    ensures AllStandard(ItemToks(es, e))
    decreases es, 0
  {
    hide EntryToks, Standard;
    if es != [] {
      EntryIsStandard(es[0], e);
      ItemToksStep(es, e);
      if es[1..] != [] {
        ItemsAreStandard(es[1..], e);
        PunctuationIsStandard(COMMA);
        StandardConcat([COMMA], ItemToks(es[1..], e));
        StandardConcat(EntryToks(es[0], e), [COMMA] + ItemToks(es[1..], e));
      }
    }
  }

  lemma {:induction false} EntryIsStandard(en: Entry, e: bool)
    requires EntryPrintable(en, e)
    ensures AllStandard(EntryToks(en, e))
    decreases en, 2
  {
    hide ValueToks, Quoted;
    ValueIsStandard(en.val, e);
    if en.key.Name? {
      StringIsStandard(en.key.s, e);
      assert Punctuation(COLON);
      StandardConcat([StringTok(en.key.s, e), COLON], ValueToks(en.val, e));
    }
  }

  /** The tokens of the tree are those of the value. */
  lemma {:induction false} TreeToks(v: Value, e: bool)
    requires Printable(v, e)
    ensures Toks(TreeOf(v, e)) == ValueToks(v, e)
    decreases v, 1
  {
    hide CharsOf, IntegerNumeral, Quoted, IntText, NumeralText, StringText, Unescaped, Elements, Members, ItemToks;
    match v.p
    case Int(i) => IntegerIsNumeral(i);
    case UInt(u) => IntegerIsNumeral(u);
    case Str(s) => QuotedIsString(s, e);
    case Arr(es) =>
      TreesToks(es, e);
      Resume([OPEN_ARRAY], ItemToks(es, e), [CLOSE_ARRAY]);
    case Obj(es) =>
      PairsToks(es, e);
      Resume([OPEN_OBJECT], ItemToks(es, e), [CLOSE_OBJECT]);
    case _ =>
  }

  lemma {:induction false} TreesToks(es: Entries, e: bool)
    requires AllPrintable(es, e) && forall k :: 0 <= k < |es| ==> es[k].key.Index?
    ensures Elements(TreesOf(es, e), false) == ItemToks(es, e) + [CLOSE_ARRAY]
    decreases es, 0
  {
    hide Toks, EntryToks, ValueToks;
    if es == [] {
      assert ItemToks(es, e) + [CLOSE_ARRAY] == [CLOSE_ARRAY];
      return;
    }
    var more := if es[1..] == [] then [] else [COMMA] + ItemToks(es[1..], e);
    EntryTreeToks(es[0], e);
    ItemToksStep(es, e);
    assert TreesOf(es, e)[1..] == TreesOf(es[1..], e);
    Resume(EntryToks(es[0], e), more, [CLOSE_ARRAY]);
    if es[1..] != [] {
      TreesToks(es[1..], e);
      Resume([COMMA], ItemToks(es[1..], e), [CLOSE_ARRAY]);
    } else {
      assert more + [CLOSE_ARRAY] == [CLOSE_ARRAY];
    }
  }

  lemma {:induction false} EntryTreeToks(en: Entry, e: bool)
    requires EntryPrintable(en, e)
    ensures Toks(EntryTree(en, e)) == ValueToks(en.val, e)
    ensures en.key.Index? ==> EntryToks(en, e) == ValueToks(en.val, e)
    decreases en, 2
  {
    hide ValueToks;
    TreeToks(en.val, e);
  }

  lemma {:induction false} PairsToks(es: Entries, e: bool)
    requires AllPrintable(es, e) && forall k :: 0 <= k < |es| ==> GoodName(es[k].key, e)
    ensures Members(PairsOf(es, e), false) == ItemToks(es, e) + [CLOSE_OBJECT]
    decreases es, 0
  {
    hide Toks, EntryToks, ValueToks, CharsOf, Quoted, StringText, Unescaped, ValidUtf8;
    if es == [] {
      assert ItemToks(es, e) + [CLOSE_OBJECT] == [CLOSE_OBJECT];
      return;
    }
    var more := if es[1..] == [] then [] else [COMMA] + ItemToks(es[1..], e);
    assert GoodName(es[0].key, e);
    QuotedIsString(es[0].key.s, e);
    EntryTreeToks(es[0], e);
    EntryToksOfPair(es[0], e);
    ItemToksStep(es, e);
    assert PairsOf(es, e)[1..] == PairsOf(es[1..], e);
    Resume(EntryToks(es[0], e), more, [CLOSE_OBJECT]);
    if es[1..] != [] {
      PairsToks(es[1..], e);
      Resume([COMMA], ItemToks(es[1..], e), [CLOSE_OBJECT]);
    } else {
      assert more + [CLOSE_OBJECT] == [CLOSE_OBJECT];
    }
  }

  lemma EntryToksOfPair(en: Entry, e: bool)
    requires en.key.Name?
    ensures EntryToks(en, e) == [Tok(StringToken, Quoted(en.key.s, e)), COLON] + ValueToks(en.val, e)
  {
    hide ValueToks, Quoted;
  }

  /** A printable value is printed as a tree of RFC 8259. */
  lemma TreeIsGrammatical(v: Value, e: bool)
    requires Printable(v, e)
    ensures Grammatical(TreeOf(v, e)) && Depth(TreeOf(v, e)) == Nesting(v)
  {
    hide Printable, TreeOf, Readable, CommaFree, Depth, Nesting, Standard, Toks, ValueToks;
    TreeIsReadable(v, e);
    TreeToks(v, e);
    ValueIsStandard(v, e);
  }

  // Meaning --------------------------------------------------------------------------------------

  lemma IntegerMeaning(f: Features, i: int)
    requires MIN_INT64 <= i <= MAX_UINT64
    ensures ReadableNumeral(IntegerNumeral(i))
    ensures NumberMeaning(f, IntegerNumeral(i)) == Some(if i <= MAX_INT64 then Int(i) else UInt(i))
  {
    hide NatOf, Decimal, IntText;
    IntegerIsNumeral(i);
    DecimalDenotes(if i < 0 then -i else i);
  }

  // The name a good name is read as.
  lemma NameMeaning(key: CZString, e: bool)
    requires GoodName(key, e)
    ensures ReadableChars(CharsOf(key.s, e)) && Unescaped(CharsOf(key.s, e)) == Some(key.s)
  {
    hide CharsOf, ReadableChars, Unescaped, Quoted;
    QuotedIsString(key.s, e);
    if !e {
      ValidIsKept(key.s);
    }
  }

  /** The tree of a value means the value as it comes back, and nothing but its depth can keep the
      reader from accepting it. */
  lemma {:induction false} TreeMeaning(f: Features, v: Value, e: bool)
    requires Printable(v, e) && Readable(TreeOf(v, e))
    ensures Meaning(f, TreeOf(v, e)) == Canonical(v, e) && Clear(f, TreeOf(v, e))
    decreases v, 1
  {
    hide CharsOf, IntegerNumeral, Quoted, NumberMeaning, StringText, Unescaped, Sanitized, ItemsMeaning, PairsMeaning,
         PairsClear, AllClear, ReadableChars, ReadableNumeral;
    match v.p
    case Int(i) => IntegerMeaning(f, i);
    case UInt(u) => IntegerMeaning(f, u);
    case Str(s) => QuotedIsString(s, e);
    case Arr(es) => TreesMeaning(f, es, e, 0);
    case Obj(es) =>
      assert [] + es == es && [] + CanonicalItems(es, e) == CanonicalItems(es, e);
      PairsOfMeaning(f, [], [], es, e, {});
    case _ =>
  }

  lemma {:induction false} TreesMeaning(f: Features, es: Entries, e: bool, n: nat)
    requires AllPrintable(es, e) && AllReadable(TreesOf(es, e))
    requires forall k :: 0 <= k < |es| ==> es[k].key == Index(n + k)
    ensures ItemsMeaning(f, TreesOf(es, e), false, n) == CanonicalItems(es, e) && AllClear(f, TreesOf(es, e), false)
    decreases es, 0
  {
    hide Meaning, Canonical, Clear;
    if es != [] {
      assert TreesOf(es, e)[1..] == TreesOf(es[1..], e);
      EntryMeaning(f, es[0], e);
      TreesMeaning(f, es[1..], e, n + 1);
    }
  }

  lemma {:induction false} EntryMeaning(f: Features, en: Entry, e: bool)
    requires EntryPrintable(en, e)
    ensures Readable(EntryTree(en, e)) && Meaning(f, EntryTree(en, e)) == Canonical(en.val, e)
    ensures Clear(f, EntryTree(en, e)) && CanonicalEntry(en, e) == Entry(en.key, Canonical(en.val, e))
    decreases en, 2
  {
    hide Canonical, Meaning, Clear;
    EntryIsReadable(en, e);
    TreeMeaning(f, en.val, e);
  }

  // The names of some entries.
  ghost predicate NamesOf(done: Entries, seen: set<bytes>) {
    forall name: bytes :: name in seen ==> exists k :: 0 <= k < |done| && done[k].key == Name(name)
  }

  lemma {:induction false} PairsOfMeaning(f: Features, last: bytes, done: Entries, es: Entries, e: bool,
                                          seen: set<bytes>)
    requires AllPrintable(es, e) && PairsReadable(PairsOf(es, e)) && Behind(done, es, e) && NamesOf(done, seen)
    ensures PairsMeaning(f, PairsOf(es, e), done) == done + CanonicalItems(es, e)
    ensures PairsClear(f, PairsOf(es, e), false, last, seen)
    decreases es, 0
  {
    hide Meaning, Canonical, Clear, CharsOf, Unescaped, Behind, NamesOf, Put, Has, ReadableChars, GoodName, KeyLess;
    if es == [] {
      assert done + CanonicalItems(es, e) == done;
      return;
    }
    var m, key, v := PairsOf(es, e)[0], es[0].key, Canonical(es[0].val, e);
    assert PairsOf(es, e)[1..] == PairsOf(es[1..], e);
    EntryMeaning(f, es[0], e);
    BehindNext(done, es, e, v);
    NewName(done, key, v, e, seen);
    assert m == Pair(CharsOf(key.s, e), EntryTree(es[0], e));
    assert PutPair(f, m, done) == done + [Entry(key, v)] && NameSet(m) == {key.s} && PairClear(f, m, seen);
    PairsOfMeaning(f, LastName(m), done + [Entry(key, v)], es[1..], e, seen + {key.s});
    Resume(done, [Entry(key, v)], CanonicalItems(es[1..], e));
  }

  // A name behind all those of a map is new, and its entry goes last.
  lemma NewName(done: Entries, key: CZString, v: Value, e: bool, seen: set<bytes>)
    requires GoodName(key, e) && NamesOf(done, seen) && forall m :: 0 <= m < |done| ==> KeyLess(done[m].key, key)
    ensures key.Name? && |key.s| < KEY_LIMIT && ReadableChars(CharsOf(key.s, e))
    ensures Unescaped(CharsOf(key.s, e)) == Some(key.s) && key == Name(key.s) && key.s !in seen
    ensures Put(done, key, v) == done + [Entry(key, v)] && NamesOf(done + [Entry(key, v)], seen + {key.s})
  {
    hide CharsOf, Unescaped, KeyLess, ReadableChars, ValidUtf8;
    NameMeaning(key, e);
    assert LowerBound(done, key) == |done|;
    KeyOrder(key, key);
    var next := done + [Entry(key, v)];
    forall name: bytes | name in seen + {key.s} ensures exists k :: 0 <= k < |next| && next[k].key == Name(name) {
      if name in seen {
        var k :| 0 <= k < |done| && done[k].key == Name(name);
        assert next[k].key == Name(name);
      } else {
        assert next[|done|].key == Name(name);
      }
    }
  }
}
