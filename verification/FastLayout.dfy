/** What FastWriter writes is a layout of the value's tokens. */
module FastLayout {
  import opened Bytes
  import opened Numbers
  import opened Quoting
  import opened JsonValue
  import opened Lexer
  import opened Tokens
  import opened Grammar
  import opened PrintedValues
  import opened FastWriterModel

  // A text that spells tokens, none of which begins with white space.
  ghost predicate Lays(s: bytes, toks: seq<Tok>) {
    Spells(s, toks) && Solid(toks)
  }

  lemma Join(a: bytes, ta: seq<Tok>, b: bytes, tb: seq<Tok>)
    requires Lays(a, ta) && Lays(b, tb)
    ensures Lays(a + b, ta + tb)
  {
    hide Spells;
    SpellsConcat(a, ta, b, tb);
  }

  lemma LaysOne(t: Tok)
    requires t.text != [] && !Space(t.text[0])
    ensures Lays(t.text, [t])
  {
    SpellsOne(t);
  }

  lemma LaysSpace(w: bytes)
    requires AllSpaces(w)
    ensures Lays(w, [])
  {
  }

  lemma QuotedBegins(s: bytes, e: bool)
    ensures Quoted(s, e) != [] && Quoted(s, e)[0] == QUOTE
  {
    hide Escaped;
  }

  lemma LaysString(s: bytes, e: bool)
    ensures Lays(Quoted(s, e), [StringTok(s, e)])
  {
    hide Quoted, Lays;
    QuotedBegins(s, e);
    LaysOne(StringTok(s, e));
  }

  lemma LaysInteger(i: int)
    ensures Lays(IntText(i), [Tok(NumberToken, IntText(i))])
  {
    hide Decimal;
    var t := Tok(NumberToken, IntText(i));
    assert Digit(Decimal(if i < 0 then -i else i)[0]);
    LaysOne(t);
  }

  // An opening text, a body and a closing text.
  lemma LaysBracketed(open: bytes, to: seq<Tok>, body: bytes, tb: seq<Tok>, close: bytes, tc: seq<Tok>)
    requires Lays(open, to) && Lays(body, tb) && Lays(close, tc)
    ensures Lays(open + body + close, to + tb + tc)
  {
    hide Lays;
    Join(open, to, body, tb);
    Join(open + body, to + tb, close, tc);
  }

  lemma LaysScalar(c: FastStyle, v: Value)
    requires Printable(v, false) && !c.dropNull && !v.p.Arr? && !v.p.Obj?
    ensures Lays(Fast(c, v), ValueToks(v, false))
  {
    hide Lays, Quoted, IntText;
    match v.p
    case Null =>
      assert NULL_TEXT == NULL_TOK.text;
      LaysOne(NULL_TOK);
    case Int(i) => LaysInteger(i);
    case UInt(u) => LaysInteger(u);
    case Str(s) => LaysString(s, false);
    case Bool(b) =>
      assert TRUE_TEXT == TRUE_TOK.text && FALSE_TEXT == FALSE_TOK.text;
      LaysOne(if b then TRUE_TOK else FALSE_TOK);
  }

  lemma LaysCommaOrNothing(k: nat)
    ensures Lays(if k > 0 then [0x2C] else [], if k > 0 then [COMMA] else [])
  {
    if k > 0 {
      LaysOne(COMMA);
    } else {
      LaysSpace([]);
    }
  }

  lemma LaysColon(c: FastStyle)
    ensures Lays(ColonText(c), [COLON])
  {
    LaysOne(COLON);
    if c.yaml {
      LaysSpace([0x20]);
      Join([0x3A], [COLON], [0x20], []);
      assert [0x3A] + [0x20] == ColonText(c) && [COLON] + [] == [COLON];
    }
  }

  /** Whatever the colon style, the output of FastWriter (nulls kept) spells the value's tokens. */
  lemma {:induction false} FastLays(c: FastStyle, v: Value)
    requires Printable(v, false) && !c.dropNull
    ensures Lays(Fast(c, v), ValueToks(v, false))
    decreases Nesting(v), 1, 0
  {
    hide Lays, Fast, FastElements, FastMembers, ItemToks;
    match v.p
    case Arr(es) =>
      FastArray(c, v);
      FastElementsLay(c, es, 0);
      ItemsFromStart(es);
      LaysOne(OPEN_ARRAY);
      LaysOne(CLOSE_ARRAY);
      LaysBracketed([0x5B], [OPEN_ARRAY], FastElements(c, es, 0), ItemToks(es, false), [0x5D], [CLOSE_ARRAY]);
    case Obj(es) =>
      FastObject(c, v);
      FastMembersLay(c, es, 0);
      ItemsFromStart(es);
      LaysOne(OPEN_OBJECT);
      LaysOne(CLOSE_OBJECT);
      LaysBracketed([0x7B], [OPEN_OBJECT], FastMembers(c, es, 0), ItemToks(es, false), [0x7D], [CLOSE_OBJECT]);
    case _ => LaysScalar(c, v);
  }

  lemma ItemsFromStart(es: Entries)
    ensures ItemsFrom(es, 0, false) == ItemToks(es, false)
  {
    hide EntryToks;
    assert es[0..] == es;
  }

  lemma {:induction false} FastElementsLay(c: FastStyle, es: Entries, index: nat)
    requires Dense(es) && AllPrintable(es, false) && !c.dropNull && index <= |es|
    ensures Lays(FastElements(c, es, index), ItemsFrom(es, index, false))
    decreases 1 + ItemsNesting(es), 0, |es| - index
  {
    hide Lays, Fast, ItemsFrom, Get, Has, ValueToks;
    DenseIsSorted(es);
    if index == |es| {
      LaysSpace([]);
      ItemsFromEnd(es, false);
      return;
    }
    var v := es[index].val;
    var comma, commaTok := if index > 0 then [0x2C] else [], if index > 0 then [COMMA] else [];
    NestingAt(es, index);
    PrintableAt(es, index, false);
    LaysCommaOrNothing(index);
    FastLays(c, v);
    FastElementsLay(c, es, index + 1);
    assert EntryToks(es[index], false) == ValueToks(v, false);
    ItemsFromStep(es, index, false);
    LaysBracketed(comma, commaTok, Fast(c, v), ValueToks(v, false), FastElements(c, es, index + 1),
                  ItemsFrom(es, index + 1, false));
  }

  lemma ItemsFromEnd(es: Entries, e: bool)
    ensures ItemsFrom(es, |es|, e) == []
  {
  }

  lemma {:induction false} FastMembersLay(c: FastStyle, es: Entries, k: nat)
    requires Sorted(es) && (forall m :: 0 <= m < |es| ==> GoodName(es[m].key, false))
    requires AllPrintable(es, false) && !c.dropNull && k <= |es|
    ensures Lays(FastMembers(c, es, k), ItemsFrom(es, k, false))
    decreases 1 + ItemsNesting(es), 0, |es| - k
  {
    hide Lays, Fast, ItemsFrom, Get, Has, ValueToks, Sorted, Quoted, EntryToks;
    if k == |es| {
      LaysSpace([]);
      ItemsFromEnd(es, false);
      return;
    }
    var name, v := es[k].key.s, es[k].val;
    var comma, commaTok := if k > 0 then [0x2C] else [], if k > 0 then [COMMA] else [];
    FoundAt(es, k);
    NestingAt(es, k);
    PrintableAt(es, k, false);
    LaysCommaOrNothing(k);
    LaysString(name, false);
    LaysColon(c);
    FastLays(c, v);
    FastMembersLay(c, es, k + 1);
    ItemsFromStep(es, k, false);
    MemberToks(es[k], false);
    var before, toksBefore := comma + Quoted(name, false) + ColonText(c), commaTok + [StringTok(name, false)] + [COLON];
    LaysBracketed(comma, commaTok, Quoted(name, false), [StringTok(name, false)], ColonText(c), [COLON]);
    LaysBracketed(before, toksBefore, Fast(c, v), ValueToks(v, false), FastMembers(c, es, k + 1),
                  ItemsFrom(es, k + 1, false));
    MemberTokens(commaTok, StringTok(name, false), ValueToks(v, false), ItemsFrom(es, k + 1, false));
  }

  lemma MemberToks(en: Entry, e: bool)
    requires en.key.Name?
    ensures EntryToks(en, e) == [StringTok(en.key.s, e), COLON] + ValueToks(en.val, e)
  {
    hide ValueToks, Quoted;
  }

  lemma MemberTokens(comma: seq<Tok>, name: Tok, value: seq<Tok>, rest: seq<Tok>)
    ensures comma + [name] + [COLON] + value + rest == comma + ([name, COLON] + value) + rest
  {
  }
}
