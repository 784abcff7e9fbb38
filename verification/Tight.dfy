/** Documents without white space: the tokens of the value and nothing else. */
module TightLayout {
  import opened Bytes
  import opened Numbers
  import opened Quoting
  import opened JsonValue
  import opened Tokens
  import opened Grammar
  import opened PrintedValues
  import opened FastWriterModel
  import opened StyledWriterModel
  import opened FastLayout
  import opened StyledLayout

  // The texts of some tokens, one right after the other; a colon and a null are written as given.
  function Glued(toks: seq<Tok>, colon: bytes, none: bytes): bytes {
    if toks == [] then []
    else
      (if toks[0] == COLON then colon else if toks[0] == NULL_TOK then none else toks[0].text)
      + Glued(toks[1..], colon, none)
  }

  lemma {:induction false} GluedConcat(a: seq<Tok>, b: seq<Tok>, colon: bytes, none: bytes)
    ensures Glued(a + b, colon, none) == Glued(a, colon, none) + Glued(b, colon, none)
  {
    if a == [] {
      assert a + b == b;
    } else {
      assert (a + b)[1..] == a[1..] + b;
      GluedConcat(a[1..], b, colon, none);
    }
  }

  lemma GluedOne(t: Tok, colon: bytes, none: bytes)
    ensures Glued([t], colon, none) == if t == COLON then colon else if t == NULL_TOK then none else t.text
  {
    assert [t][1..] == [];
  }

  lemma GluedThree(a: seq<Tok>, b: seq<Tok>, z: seq<Tok>, colon: bytes, none: bytes)
    ensures Glued(a + b + z, colon, none)
         == Glued(a, colon, none) + Glued(b, colon, none) + Glued(z, colon, none)
  {
    GluedConcat(a + b, z, colon, none);
    GluedConcat(a, b, colon, none);
  }

  // FastWriter ------------------------------------------------------------------------------------

  function NullText(c: FastStyle): bytes { if c.dropNull then [] else NULL_TEXT }

  lemma FastScalar(c: FastStyle, v: Value)
    requires Printable(v, false) && !v.p.Arr? && !v.p.Obj?
    ensures Fast(c, v) == Glued(ValueToks(v, false), ColonText(c), NullText(c))
  {
    hide Quoted, IntText, Glued;
    GluedOne(ValueToks(v, false)[0], ColonText(c), NullText(c));
  }

  /** What FastWriter writes for a value is the value's tokens and nothing else. */
  lemma {:induction false} FastIsGlued(c: FastStyle, v: Value)
    requires Printable(v, false)
    ensures Fast(c, v) == Glued(ValueToks(v, false), ColonText(c), NullText(c))
    decreases Nesting(v), 1, 0
  {
    hide Glued, Fast, FastElements, FastMembers, ItemToks, ColonText, NullText;
    match v.p
    case Arr(es) =>
      FastArray(c, v);
      FastElementsGlued(c, es, 0);
      ItemsFromStart(es);
      GluedOne(OPEN_ARRAY, ColonText(c), NullText(c));
      GluedOne(CLOSE_ARRAY, ColonText(c), NullText(c));
      GluedThree([OPEN_ARRAY], ItemToks(es, false), [CLOSE_ARRAY], ColonText(c), NullText(c));
    case Obj(es) =>
      FastObject(c, v);
      FastMembersGlued(c, es, 0);
      ItemsFromStart(es);
      GluedOne(OPEN_OBJECT, ColonText(c), NullText(c));
      GluedOne(CLOSE_OBJECT, ColonText(c), NullText(c));
      GluedThree([OPEN_OBJECT], ItemToks(es, false), [CLOSE_OBJECT], ColonText(c), NullText(c));
    case _ => FastScalar(c, v);
  }

  lemma GluedComma(k: nat, colon: bytes, none: bytes)
    ensures Glued(if k > 0 then [COMMA] else [], colon, none) == if k > 0 then [0x2C] else []
  {
    if k > 0 {
      GluedOne(COMMA, colon, none);
    }
  }

  lemma {:induction false} FastElementsGlued(c: FastStyle, es: Entries, index: nat)
    requires Dense(es) && AllPrintable(es, false) && index <= |es|
    ensures FastElements(c, es, index) == Glued(ItemsFrom(es, index, false), ColonText(c), NullText(c))
    decreases 1 + ItemsNesting(es), 0, |es| - index
  {
    hide Glued, Fast, ItemsFrom, Get, Has, ValueToks, ColonText, NullText;
    DenseIsSorted(es);
    if index == |es| {
      ItemsFromEnd(es, false);
      NothingGlued(ColonText(c), NullText(c));
      return;
    }
    var v, comma := es[index].val, if index > 0 then [COMMA] else [];
    NestingAt(es, index);
    PrintableAt(es, index, false);
    FastIsGlued(c, v);
    FastElementsGlued(c, es, index + 1);
    assert EntryToks(es[index], false) == ValueToks(v, false);
    ItemsFromStep(es, index, false);
    GluedComma(index, ColonText(c), NullText(c));
    GluedThree(comma, ValueToks(v, false), ItemsFrom(es, index + 1, false), ColonText(c), NullText(c));
  }

  lemma NothingGlued(colon: bytes, none: bytes)
    ensures Glued([], colon, none) == []
  {
  }

  lemma {:induction false} FastMembersGlued(c: FastStyle, es: Entries, k: nat)
    requires Sorted(es) && (forall m :: 0 <= m < |es| ==> GoodName(es[m].key, false))
    requires AllPrintable(es, false) && k <= |es|
    ensures FastMembers(c, es, k) == Glued(ItemsFrom(es, k, false), ColonText(c), NullText(c))
    decreases 1 + ItemsNesting(es), 0, |es| - k
  {
    hide Glued, Fast, ItemsFrom, Get, Has, ValueToks, Sorted, Quoted, EntryToks, ColonText, NullText;
    if k == |es| {
      ItemsFromEnd(es, false);
      NothingGlued(ColonText(c), NullText(c));
      return;
    }
    var v, comma := es[k].val, if k > 0 then [COMMA] else [];
    FoundAt(es, k);
    NestingAt(es, k);
    PrintableAt(es, k, false);
    FastIsGlued(c, v);
    FastMembersGlued(c, es, k + 1);
    ItemsFromStep(es, k, false);
    GluedComma(k, ColonText(c), NullText(c));
    GluedMember(es[k], ColonText(c), NullText(c));
    GluedThree(comma, EntryToks(es[k], false), ItemsFrom(es, k + 1, false), ColonText(c), NullText(c));
    MemberPieces(if k > 0 then [0x2C] else [], Quoted(es[k].key.s, false), ColonText(c), Fast(c, v),
                 FastMembers(c, es, k + 1));
  }

  lemma MemberPieces(comma: bytes, name: bytes, colon: bytes, value: bytes, rest: bytes)
    ensures comma + name + colon + value + rest == comma + (name + colon + value) + rest
  {
  }

  lemma GluedMember(en: Entry, colon: bytes, none: bytes)
    requires en.key.Name?
    ensures Glued(EntryToks(en, false), colon, none)
         == Quoted(en.key.s, false) + colon + Glued(ValueToks(en.val, false), colon, none)
  {
    hide Glued, ValueToks, Quoted;
    MemberToks(en, false);
    var name := StringTok(en.key.s, false);
    assert [name] + [COLON] == [name, COLON];
    GluedThree([name], [COLON], ValueToks(en.val, false), colon, none);
    GluedOne(name, colon, none);
    GluedOne(COLON, colon, none);
  }

  /** A document of FastWriter: the tokens of the value and, unless it is omitted, a line feed. A colon is
      followed by a space for YAML, and nulls may be dropped; there is no other white space. */
  lemma FastIsTight(c: FastStyle, v: Value)
    requires Printable(v, false)
    ensures var colon, none := Ascii(if c.yaml then ": " else ":"), Ascii(if c.dropNull then "" else "null");
            FastDocument(c, v) == Glued(ValueToks(v, false), colon, none) + if c.omitLineFeed then [] else [0x0A]
  {
    hide Glued, Printable, ValueToks, Fast;
    FastIsGlued(c, v);
    assert ColonText(c) == Ascii(if c.yaml then ": " else ":");
    assert NullText(c) == Ascii(if c.dropNull then "" else "null");
  }

  // The stream writer -----------------------------------------------------------------------------

  // The same switches for the other writer.
  function AsFast(c: Style, yaml: bool, dropNull: bool): FastStyle {
    FastStyle(yaml, dropNull, true, c.printDouble)
  }

  // No indentation, no \u escapes left out, and the symbols of these switches.
  predicate Compact(c: Style, yaml: bool, dropNull: bool) {
    && c.indentation == [] && !c.emitUtf8
    && c.colonSymbol == (if yaml then [0x3A, 0x20] else [0x3A])
    && c.nullSymbol == (if dropNull then [] else NULL_TEXT)
  }

  lemma InlineIsFast(c: Style, v: Value, yaml: bool, dropNull: bool)
    requires Flat(v) && Compact(c, yaml, dropNull)
    ensures Inline(c, v) == Fast(AsFast(c, yaml, dropNull), v)
  {
    hide Quoted, IntText;
    var f := AsFast(c, yaml, dropNull);
    if v.p.Arr? {
      FastArray(f, v);
      assert FastElements(f, v.p.entries, 0) == [];
      assert [0x5B] + [] + [0x5D] == EMPTY_ARRAY;
    } else if v.p.Obj? {
      FastObject(f, v);
      assert FastMembers(f, v.p.entries, 0) == [];
      assert [0x7B] + [] + [0x7D] == EMPTY_OBJECT;
    }
  }

  /** Without an indentation the stream writer writes what FastWriter does. */
  lemma {:induction false} StyledIsFast(c: Style, v: Value, indent: bytes, indented: bool, yaml: bool, dropNull: bool)
    requires Printable(v, false) && Compact(c, yaml, dropNull)
    ensures Styled(c, v, indent, indented) == Fast(AsFast(c, yaml, dropNull), v)
    decreases Nesting(v), 2, 0
  {
    hide StyledMembers, StyledElements, LineElements, MultiLine, Inline, Fast, FastElements, FastMembers;
    if Flat(v) {
      InlineIsFast(c, v, yaml, dropNull);
      return;
    }
    var f, es := AsFast(c, yaml, dropNull), v.p.entries;
    if v.p.Obj? {
      FastObject(f, v);
      MembersAreFast(c, es, 0, indent + c.indentation, yaml, dropNull);
    } else {
      FastArray(f, v);
      ElementsFast(c, es, indent + c.indentation, yaml, dropNull);
    }
    NoSpace(c, indent, indented);
  }

  lemma NoSpace(c: Style, indent: bytes, indented: bool)
    requires c.indentation == []
    ensures Lead(c, indent, indented) == [] && Indent(c, indent) == [] && Gap(c) == []
  {
  }

  lemma ElementsFast(c: Style, es: Entries, indent: bytes, yaml: bool, dropNull: bool)
    requires Dense(es) && AllPrintable(es, false) && Compact(c, yaml, dropNull) && es != []
    ensures StyledElements(c, es, 0, indent) == FastElements(AsFast(c, yaml, dropNull), es, 0)
    ensures !MultiLine(c, es) ==> LineElements(c, es, 0) == FastElements(AsFast(c, yaml, dropNull), es, 0)
    decreases 1 + ItemsNesting(es), 1, 0
  {
    ElementsAreFast(c, es, 0, indent, yaml, dropNull);
    DenseIsSorted(es);
    if !MultiLine(c, es) {
      LineIsFast(c, es, 0, yaml, dropNull);
    }
  }

  lemma {:induction false} ElementsAreFast(c: Style, es: Entries, index: nat, indent: bytes, yaml: bool, dropNull: bool)
    requires Dense(es) && AllPrintable(es, false) && Compact(c, yaml, dropNull) && index < |es|
    ensures (if index > 0 then [0x2C] else []) + StyledElements(c, es, index, indent)
         == FastElements(AsFast(c, yaml, dropNull), es, index)
    decreases 1 + ItemsNesting(es), 0, |es| - index
  {
    hide Styled, StyledElements, Fast, FastElements, Get, Has;
    DenseIsSorted(es);
    var v, f := es[index].val, AsFast(c, yaml, dropNull);
    NestingAt(es, index);
    PrintableAt(es, index, false);
    StyledIsFast(c, v, indent, true, yaml, dropNull);
    CompactElement(c, es, index, indent);
    FastElementsStep(f, es, index);
    Resume(if index > 0 then [0x2C] else [], Fast(f, v),
           if index + 1 < |es| then [0x2C] + StyledElements(c, es, index + 1, indent) else []);
    if index + 1 < |es| {
      ElementsAreFast(c, es, index + 1, indent, yaml, dropNull);
    } else {
      FastElementsEnd(f, es);
    }
  }

  lemma CompactElement(c: Style, es: Entries, index: nat, indent: bytes)
    requires Dense(es) && index < |es| && c.indentation == []
    ensures StyledElements(c, es, index, indent)
         == Styled(c, es[index].val, indent, true)
            + if index + 1 < |es| then [0x2C] + StyledElements(c, es, index + 1, indent) else []
  {
    hide Styled, StyledElements, Get, Has;
    DenseIsSorted(es);
    NoSpace(c, indent, true);
    StyledElementsStep(c, es, index, indent);
    var text := Styled(c, es[index].val, indent, true);
    assert [] + text == text;
  }

  lemma FastElementsStep(c: FastStyle, es: Entries, index: nat)
    requires Dense(es) && index < |es|
    ensures FastElements(c, es, index)
         == (if index > 0 then [0x2C] else []) + Fast(c, es[index].val) + FastElements(c, es, index + 1)
  {
    hide Fast, Get, Has;
    DenseIsSorted(es);
  }

  lemma FastElementsEnd(c: FastStyle, es: Entries)
    requires Dense(es)
    ensures FastElements(c, es, |es|) == []
  {
    DenseIsSorted(es);
  }

  lemma {:induction false} LineIsFast(c: Style, es: Entries, index: nat, yaml: bool, dropNull: bool)
    requires Dense(es) && AllPrintable(es, false) && Compact(c, yaml, dropNull) && AllFlat(es, |es|) && index <= |es|
    ensures LineElements(c, es, index) == FastElements(AsFast(c, yaml, dropNull), es, index)
    decreases |es| - index
  {
    hide Inline, Fast, FastElements, Get, Has, Flat;
    DenseIsSorted(es);
    if index < |es| {
      assert Flat(Element(es, index));
      InlineIsFast(c, es[index].val, yaml, dropNull);
      FastElementsStep(AsFast(c, yaml, dropNull), es, index);
      LineIsFast(c, es, index + 1, yaml, dropNull);
    } else {
      FastElementsEnd(AsFast(c, yaml, dropNull), es);
    }
  }

  lemma {:induction false} MembersAreFast(c: Style, es: Entries, k: nat, indent: bytes, yaml: bool, dropNull: bool)
    requires Sorted(es) && (forall m :: 0 <= m < |es| ==> GoodName(es[m].key, false))
    requires AllPrintable(es, false) && Compact(c, yaml, dropNull) && k < |es|
    ensures (if k > 0 then [0x2C] else []) + StyledMembers(c, es, k, indent)
         == FastMembers(AsFast(c, yaml, dropNull), es, k)
    decreases 1 + ItemsNesting(es), 0, |es| - k
  {
    hide Styled, StyledMembers, Fast, FastMembers, Get, Has, Sorted, Quoted, ColonText;
    FoundAt(es, k);
    NestingAt(es, k);
    PrintableAt(es, k, false);
    assert GoodName(es[k].key, false);
    hide GoodName;
    var v, f := es[k].val, AsFast(c, yaml, dropNull);
    StyledIsFast(c, v, indent, false, yaml, dropNull);
    CompactMember(c, es, k, indent);
    FastMembersStep(f, es, k);
    assert c.colonSymbol == ColonText(f) by {
      SameColon(c, yaml, dropNull);
    }
    Gathered(if k > 0 then [0x2C] else [], Quoted(es[k].key.s, false), c.colonSymbol, Fast(f, v),
             if k + 1 < |es| then [0x2C] + StyledMembers(c, es, k + 1, indent) else []);
    if k + 1 < |es| {
      MembersAreFast(c, es, k + 1, indent, yaml, dropNull);
    } else {
      FastMembersEnd(f, es);
    }
  }

  lemma Gathered(comma: bytes, name: bytes, colon: bytes, value: bytes, rest: bytes)
    ensures comma + (name + colon + value + rest) == comma + name + colon + value + rest
  {
  }

  lemma SameColon(c: Style, yaml: bool, dropNull: bool)
    requires Compact(c, yaml, dropNull)
    ensures c.colonSymbol == ColonText(AsFast(c, yaml, dropNull))
  {
  }

  lemma CompactMember(c: Style, es: Entries, k: nat, indent: bytes)
    requires Sorted(es) && k < |es| && es[k].key.Name? && c.indentation == []
    ensures StyledMembers(c, es, k, indent)
         == Quoted(es[k].key.s, c.emitUtf8) + c.colonSymbol + Styled(c, es[k].val, indent, false)
            + if k + 1 < |es| then [0x2C] + StyledMembers(c, es, k + 1, indent) else []
  {
    hide Styled, StyledMembers, Get, Has, Sorted, Quoted;
    FoundAt(es, k);
    NoSpace(c, indent, false);
    StyledMembersStep(c, es, k, indent);
    var name := Quoted(es[k].key.s, c.emitUtf8);
    assert [] + name == name;
  }

  lemma FastMembersStep(c: FastStyle, es: Entries, k: nat)
    requires Sorted(es) && k < |es| && es[k].key.Name?
    ensures FastMembers(c, es, k)
         == (if k > 0 then [0x2C] else []) + Quoted(es[k].key.s, false) + ColonText(c) + Fast(c, es[k].val)
            + FastMembers(c, es, k + 1)
  {
    hide Fast, Get, Has, Sorted, Quoted;
    FoundAt(es, k);
  }

  lemma FastMembersEnd(c: FastStyle, es: Entries)
    ensures FastMembers(c, es, |es|) == []
  {
  }

  /** Built without an indentation, the stream writer writes the document of FastWriter, without its
      line feed. */
  lemma CompactDocument(cs: CommentStyle, yaml: bool, dropNull: bool, printDouble: Double -> bytes, v: Value)
    requires Printable(v, false)
    ensures StyledDocument(NewStreamWriter([], cs, yaml, dropNull, false, printDouble), v)
         == FastDocument(FastStyle(yaml, dropNull, true, printDouble), v)
  {
    hide Styled, Fast, Printable;
    StyledIsFast(NewStreamWriter([], cs, yaml, dropNull, false, printDouble), v, [], true, yaml, dropNull);
  }

  /** The symbols newStreamWriter chooses. */
  lemma BuilderSymbols(indentation: bytes, cs: CommentStyle, yaml: bool, dropNull: bool, emitUtf8: bool,
                       printDouble: Double -> bytes)
    ensures var c := NewStreamWriter(indentation, cs, yaml, dropNull, emitUtf8, printDouble);
            && c.indentation == indentation && c.cs == cs && c.emitUtf8 == emitUtf8 && c.printDouble == printDouble
            && c.colonSymbol == Ascii(if yaml then ": " else if indentation != [] then " : " else ":")
            && c.nullSymbol == Ascii(if dropNull then "" else "null") && c.endingLineFeedSymbol == []
  {
  }
}
