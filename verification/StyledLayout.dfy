/** What BuiltStyledStreamWriter writes is a layout of the value's tokens too. */
module StyledLayout {
  import opened Bytes
  import opened Numbers
  import opened Quoting
  import opened JsonValue
  import opened Lexer
  import opened Tokens
  import opened Grammar
  import opened PrintedValues
  import opened FastWriterModel
  import opened StyledWriterModel
  import opened FastLayout

  // The settings that keep a document JSON: white space where white space is expected, a colon
  // between white space, and nulls written out.
  ghost predicate Neat(c: Style) {
    && AllSpaces(c.indentation) && AllSpaces(c.endingLineFeedSymbol)
    && Lays(c.colonSymbol, [COLON]) && c.nullSymbol == NULL_TEXT
  }

  lemma SpacesConcat(a: bytes, b: bytes)
    requires AllSpaces(a) && AllSpaces(b)
    ensures AllSpaces(a + b)
  {
    SpacesBefore(a, b);
  }

  lemma LaysIndent(c: Style, indent: bytes)
    requires AllSpaces(indent)
    ensures Lays(Indent(c, indent), [])
  {
    if c.indentation != [] {
      SpacesConcat([0x0A], indent);
      LaysSpace([0x0A] + indent);
    } else {
      LaysSpace([]);
    }
  }

  lemma LaysGap(c: Style)
    ensures Lays(Gap(c), [])
  {
    LaysSpace(Gap(c));
  }

  // White space in front changes nothing.
  lemma LaysAfterSpace(w: bytes, s: bytes, toks: seq<Tok>)
    requires Lays(w, []) && Lays(s, toks)
    ensures Lays(w + s, toks)
  {
    hide Lays;
    Join(w, [], s, toks);
    assert [] + toks == toks;
  }

  lemma LaysEmpty(open: Tok, close: Tok)
    requires open.text != [] && !Space(open.text[0]) && close.text != [] && !Space(close.text[0])
    ensures Lays(open.text + close.text, [open] + [] + [close])
  {
    hide Lays;
    LaysOne(open);
    LaysOne(close);
    Join(open.text, [open], close.text, [close]);
    assert [open] + [] == [open];
  }

  lemma LaysEmptyContainer(c: Style, v: Value)
    requires Printable(v, c.emitUtf8) && Flat(v) && (v.p.Arr? || v.p.Obj?)
    ensures Lays(Inline(c, v), ValueToks(v, c.emitUtf8))
  {
    hide Lays;
    assert EMPTY_ARRAY == OPEN_ARRAY.text + CLOSE_ARRAY.text && EMPTY_OBJECT == OPEN_OBJECT.text + CLOSE_OBJECT.text;
    if v.p.Arr? {
      DenseIsSorted(v.p.entries);
      assert v.p.entries == [] && ItemToks([], c.emitUtf8) == [];
      LaysEmpty(OPEN_ARRAY, CLOSE_ARRAY);
    } else {
      LaysEmpty(OPEN_OBJECT, CLOSE_OBJECT);
    }
  }

  lemma InlineLays(c: Style, v: Value)
    requires Printable(v, c.emitUtf8) && Flat(v) && Neat(c)
    ensures Lays(Inline(c, v), ValueToks(v, c.emitUtf8))
  {
    if v.p.Arr? || v.p.Obj? {
      LaysEmptyContainer(c, v);
      return;
    }
    hide Lays, Quoted, IntText;
    match v.p {
      case Null =>
        assert NULL_TEXT == NULL_TOK.text;
        LaysOne(NULL_TOK);
      case Int(i) => LaysInteger(i);
      case UInt(u) => LaysInteger(u);
      case Str(s) => LaysString(s, c.emitUtf8);
      case Bool(b) =>
        assert TRUE_TEXT == TRUE_TOK.text && FALSE_TEXT == FALSE_TOK.text;
        LaysOne(if b then TRUE_TOK else FALSE_TOK);
    }
  }

  // A container over several lines: white space, a bracket, the items, white space, a bracket.
  lemma LaysIndented(lead: bytes, open: Tok, body: bytes, items: seq<Tok>, indent: bytes, close: Tok)
    requires Lays(lead, []) && Lays(body, items) && Lays(indent, [])
    requires open.text != [] && !Space(open.text[0]) && close.text != [] && !Space(close.text[0])
    ensures Lays(lead + open.text + body + indent + close.text, [open] + items + [close])
  {
    hide Lays;
    LaysOne(open);
    LaysOne(close);
    LaysAfterSpace(lead, open.text, [open]);
    Join(lead + open.text, [open], body, items);
    Join(lead + open.text + body, [open] + items, indent, []);
    assert [open] + items + [] == [open] + items;
    Join(lead + open.text + body + indent, [open] + items, close.text, [close]);
  }

  /** The output of BuiltStyledStreamWriter, whatever the indentation and the widths of lines,
      spells the value's tokens. */
  lemma {:induction false} StyledLays(c: Style, v: Value, indent: bytes, indented: bool)
    requires Printable(v, c.emitUtf8) && Neat(c) && AllSpaces(indent)
    ensures Lays(Styled(c, v, indent, indented), ValueToks(v, c.emitUtf8))
    decreases Nesting(v), 1, 0
  {
    if Flat(v) {
      InlineLays(c, v);
      return;
    }
    hide Lays, Flat, MultiLine, StyledMembers, StyledElements, LineElements, ItemToks, AllSpaces, Indent;
    var es := v.p.entries;
    LaysIndent(c, indent);
    LaysSpace([]);
    SpacesConcat(indent, c.indentation);
    NotFlat(v);
    if v.p.Obj? {
      StyledMembersLay(c, es, 0, indent + c.indentation);
      LaysIndented(Lead(c, indent, indented), OPEN_OBJECT, StyledMembers(c, es, 0, indent + c.indentation),
                   ItemToks(es, c.emitUtf8), Indent(c, indent), CLOSE_OBJECT);
    } else if MultiLine(c, es) {
      StyledElementsLay(c, es, 0, indent + c.indentation);
      LaysIndented(Lead(c, indent, indented), OPEN_ARRAY, StyledElements(c, es, 0, indent + c.indentation),
                   ItemToks(es, c.emitUtf8), Indent(c, indent), CLOSE_ARRAY);
    } else {
      OneLineLays(c, es);
    }
  }

  lemma NotFlat(v: Value)
    requires !Flat(v) && (v.p.Arr? ==> Dense(v.p.entries))
    ensures (v.p.Arr? || v.p.Obj?) && v.p.entries != [] && v.p.entries[0..] == v.p.entries
  {
    if v.p.Arr? {
      DenseIsSorted(v.p.entries);
    }
  }

  // Two or more items: the first, a comma and the others.
  lemma ItemsSplit(es: Entries, k: nat, e: bool)
    requires k < |es|
    ensures ItemToks(es[k..], e)
            == if k + 1 < |es| then EntryToks(es[k], e) + [COMMA] + ItemToks(es[k + 1..], e) else EntryToks(es[k], e)
  {
    hide EntryToks;
    assert es[k..][1..] == es[k + 1..] && es[k..][0] == es[k];
    ItemToksStep(es[k..], e);
    if k + 1 < |es| {
      Resume(EntryToks(es[k], e), [COMMA], ItemToks(es[k + 1..], e));
    }
  }

  lemma {:induction false} StyledElementsLay(c: Style, es: Entries, index: nat, indent: bytes)
    requires Dense(es) && AllPrintable(es, c.emitUtf8) && Neat(c) && AllSpaces(indent) && index < |es|
    ensures Lays(StyledElements(c, es, index, indent), ItemToks(es[index..], c.emitUtf8))
    decreases 1 + ItemsNesting(es), 0, |es| - index
  {
    hide Lays, Styled, StyledElements, ItemToks, Get, Has, ValueToks, AllSpaces, Indent;
    DenseIsSorted(es);
    var v := es[index].val;
    NestingAt(es, index);
    PrintableAt(es, index, c.emitUtf8);
    StyledLays(c, v, indent, true);
    LaysIndent(c, indent);
    LaysAfterSpace(Indent(c, indent), Styled(c, v, indent, true), ValueToks(v, c.emitUtf8));
    assert EntryToks(es[index], c.emitUtf8) == ValueToks(v, c.emitUtf8);
    StyledElementsStep(c, es, index, indent);
    ItemsSplit(es, index, c.emitUtf8);
    if index + 1 < |es| {
      StyledElementsLay(c, es, index + 1, indent);
      LaysOne(COMMA);
      LaysBracketed(ElementText(c, es, index, indent), ValueToks(v, c.emitUtf8), [0x2C], [COMMA],
                    StyledElements(c, es, index + 1, indent), ItemToks(es[index + 1..], c.emitUtf8));
    }
  }

  lemma {:induction false} StyledMembersLay(c: Style, es: Entries, k: nat, indent: bytes)
    requires Sorted(es) && (forall m :: 0 <= m < |es| ==> GoodName(es[m].key, c.emitUtf8))
    requires AllPrintable(es, c.emitUtf8) && Neat(c) && AllSpaces(indent) && k < |es|
    ensures Lays(StyledMembers(c, es, k, indent), ItemToks(es[k..], c.emitUtf8))
    decreases 1 + ItemsNesting(es), 0, |es| - k
  {
    hide Lays, Styled, StyledMembers, ItemToks, ValueToks, AllSpaces, EntryToks, MemberText, Get;
    FoundAt(es, k);
    NestingAt(es, k);
    PrintableAt(es, k, c.emitUtf8);
    StyledLays(c, es[k].val, indent, false);
    MemberLays(c, es, k, indent);
    StyledMembersStep(c, es, k, indent);
    ItemsSplit(es, k, c.emitUtf8);
    if k + 1 < |es| {
      StyledMembersLay(c, es, k + 1, indent);
      LaysOne(COMMA);
      LaysBracketed(MemberText(c, es, k, indent), EntryToks(es[k], c.emitUtf8), [0x2C], [COMMA],
                    StyledMembers(c, es, k + 1, indent), ItemToks(es[k + 1..], c.emitUtf8));
    }
  }

  lemma MemberLays(c: Style, es: Entries, k: nat, indent: bytes)
    requires k < |es| && es[k].key.Name? && Member(es, k) == es[k].val && Neat(c) && AllSpaces(indent)
    requires Lays(Styled(c, es[k].val, indent, false), ValueToks(es[k].val, c.emitUtf8))
    ensures Lays(MemberText(c, es, k, indent), EntryToks(es[k], c.emitUtf8))
  {
    hide Lays, Styled, ValueToks, AllSpaces, Quoted, Get, EntryToks, Indent;
    var name, e := es[k].key.s, c.emitUtf8;
    LaysString(name, e);
    LaysIndent(c, indent);
    LaysAfterSpace(Indent(c, indent), Quoted(name, e), [StringTok(name, e)]);
    LaysBracketed(Indent(c, indent) + Quoted(name, e), [StringTok(name, e)], c.colonSymbol, [COLON],
                  Styled(c, es[k].val, indent, false), ValueToks(es[k].val, e));
    MemberToks(es[k], e);
    assert [StringTok(name, e)] + [COLON] == [StringTok(name, e), COLON];
  }

  lemma OneLineLays(c: Style, es: Entries)
    requires Dense(es) && AllPrintable(es, c.emitUtf8) && Neat(c) && es != [] && !MultiLine(c, es)
    ensures Lays(OneLine(c, es), [OPEN_ARRAY] + ItemToks(es, c.emitUtf8) + [CLOSE_ARRAY])
  {
    hide Lays, LineElements, ItemToks, ItemsFrom, Wrapped, LineLength;
    DenseIsSorted(es);
    LaysGap(c);
    LaysSpace([]);
    LineElementsLay(c, es, 0);
    ItemsFromStep(es, 0, c.emitUtf8);
    LaysAfterSpace(Gap(c), LineElements(c, es, 0), ItemToks(es, c.emitUtf8));
    LaysIndented([], OPEN_ARRAY, Gap(c) + LineElements(c, es, 0), ItemToks(es, c.emitUtf8), Gap(c), CLOSE_ARRAY);
    OneLineText(c, es);
  }

  lemma OneLineText(c: Style, es: Entries)
    ensures OneLine(c, es) == [] + [0x5B] + (Gap(c) + LineElements(c, es, 0)) + Gap(c) + [0x5D]
  {
    hide LineElements, Gap;
  }

  lemma {:induction false} LineElementsLay(c: Style, es: Entries, index: nat)
    requires Dense(es) && AllPrintable(es, c.emitUtf8) && Neat(c) && AllFlat(es, |es|) && index <= |es|
    ensures Lays(LineElements(c, es, index), ItemsFrom(es, index, c.emitUtf8))
    decreases |es| - index
  {
    hide Lays, Inline, ItemsFrom, Get, Has, ValueToks, Flat, Gap;
    DenseIsSorted(es);
    if index == |es| {
      LaysSpace([]);
      ItemsFromEnd(es, c.emitUtf8);
      return;
    }
    var v, e := es[index].val, c.emitUtf8;
    PrintableAt(es, index, e);
    assert Flat(Element(es, index));
    InlineLays(c, v);
    LineElementsLay(c, es, index + 1);
    assert EntryToks(es[index], e) == ValueToks(v, e);
    ItemsFromStep(es, index, e);
    var comma, commaTok := if index > 0 then [0x2C] + Gap(c) else [], if index > 0 then [COMMA] else [];
    LaysCommaGap(c, index);
    LaysBracketed(comma, commaTok, Inline(c, v), ValueToks(v, e), LineElements(c, es, index + 1),
                  ItemsFrom(es, index + 1, e));
  }

  lemma LaysCommaGap(c: Style, index: nat)
    ensures Lays(if index > 0 then [0x2C] + Gap(c) else [], if index > 0 then [COMMA] else [])
  {
    if index > 0 {
      hide Lays;
      LaysOne(COMMA);
      LaysGap(c);
      Join([0x2C], [COMMA], Gap(c), []);
      assert [COMMA] + [] == [COMMA];
    } else {
      LaysSpace([]);
    }
  }

  lemma StyledDocumentLays(c: Style, v: Value)
    requires Printable(v, c.emitUtf8) && Neat(c)
    ensures Lays(StyledDocument(c, v), ValueToks(v, c.emitUtf8))
  {
    hide Lays, Styled, ValueToks, Printable;
    StyledLays(c, v, [], true);
    LaysSpace(c.endingLineFeedSymbol);
    Join(Styled(c, v, [], true), ValueToks(v, c.emitUtf8), c.endingLineFeedSymbol, []);
    assert ValueToks(v, c.emitUtf8) + [] == ValueToks(v, c.emitUtf8);
  }

  // StreamWriterBuilder -------------------------------------------------------------------------

  // The writer newStreamWriter builds from its settings.
  function NewStreamWriter(indentation: bytes, cs: CommentStyle, yaml: bool, dropNull: bool, emitUtf8: bool,
                           printDouble: Double -> bytes): Style
  {
    Style(indentation, cs,
          if yaml then [0x3A, 0x20] else if indentation == [] then [0x3A] else [0x20, 0x3A, 0x20],
          if dropNull then [] else NULL_TEXT, [], emitUtf8, printDouble)
  }

  /** Every builder with a white-space indentation and null placeholders makes such a writer. */
  lemma BuilderIsNeat(indentation: bytes, cs: CommentStyle, yaml: bool, emitUtf8: bool, printDouble: Double -> bytes)
    requires AllSpaces(indentation)
    ensures Neat(NewStreamWriter(indentation, cs, yaml, false, emitUtf8, printDouble))
  {
    hide Lays;
    LaysOne(COLON);
    LaysSpace([0x20]);
    Join([0x3A], [COLON], [0x20], []);
    assert [0x3A] + [0x20] == [0x3A, 0x20] && [COLON] + [] == [COLON];
    LaysAfterSpace([0x20], [0x3A, 0x20], [COLON]);
    assert [0x20] + [0x3A, 0x20] == [0x20, 0x3A, 0x20];
  }
}
