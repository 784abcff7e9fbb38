/** BuiltStyledStreamWriter: an indented document, with short arrays kept on one line. */
module StyledWriterModel {
  import opened Bytes
  import opened Numbers
  import opened Quoting
  import opened JsonValue
  import opened PrintedValues
  import opened FastWriterModel

  datatype CommentStyle = NoComments | MostComments | AllComments

  // The writer's switches, and the conversion of doubles it relies on.
  datatype Style = Style(indentation: bytes, cs: CommentStyle, colonSymbol: bytes, nullSymbol: bytes,
                         endingLineFeedSymbol: bytes, emitUtf8: bool, printDouble: Double -> bytes)

  const RIGHT_MARGIN := 74
  const EMPTY_ARRAY: bytes := [0x5B, 0x5D]
  const EMPTY_OBJECT: bytes := [0x7B, 0x7D]

  // Arithmetic on ArrayIndex wraps around.
  function Wrapped(n: int): nat { n % 0x1_0000_0000 }

  // Neither an array with elements nor an object with members.
  predicate Flat(v: Value) {
    match v.p
    case Arr(es) => ArraySize(es) == 0
    case Obj(es) => es == []
    case _ => true
  }

  // What is written for a flat value, on any line.
  function Inline(c: Style, v: Value): bytes {
    match v.p
    case Null => c.nullSymbol
    case Int(i) => IntText(i)
    case UInt(u) => IntText(u)
    case Real(d) => c.printDouble(d)
    case Str(s) => Quoted(s, c.emitUtf8)
    case Bool(b) => if b then TRUE_TEXT else FALSE_TEXT
    case Arr(_) => EMPTY_ARRAY
    case Obj(_) => EMPTY_OBJECT
  }

  function Element(es: Entries, index: nat): Value { Get(es, Index(index)) }

  function MemberName(key: CZString): bytes { if key.Name? then key.s else [] }

  function Member(es: Entries, k: nat): Value
    requires k < |es|
  {
    Get(es, Name(MemberName(es[k].key)))
  }

  // When an array goes over several lines ------------------------------------------------------

  function InlineLength(c: Style, es: Entries, n: nat): nat {
    if n == 0 then 0 else InlineLength(c, es, n - 1) + |Inline(c, Element(es, n - 1))|
  }

  function LineLength(c: Style, es: Entries): nat {
    Wrapped(4 + (ArraySize(es) - 1) * 2 + InlineLength(c, es, ArraySize(es)))
  }

  predicate AllFlat(es: Entries, n: nat) {
    forall k :: 0 <= k < n ==> Flat(Element(es, k))
  }

  // isMultilineArray
  predicate TooWide(c: Style, es: Entries) {
    || Wrapped(ArraySize(es) * 3) >= RIGHT_MARGIN
    || !AllFlat(es, ArraySize(es))
    || LineLength(c, es) >= RIGHT_MARGIN
  }

  predicate MultiLine(c: Style, es: Entries) {
    c.cs == AllComments || TooWide(c, es)
  }

  // The text -----------------------------------------------------------------------------------

  function Indent(c: Style, indent: bytes): bytes {
    if c.indentation != [] then [0x0A] + indent else []
  }

  function Lead(c: Style, indent: bytes, indented: bool): bytes {
    if indented then [] else Indent(c, indent)
  }

  function Gap(c: Style): bytes {
    if c.indentation != [] then [0x20] else []
  }

  // An array on one line, from an index on.
  function LineElements(c: Style, es: Entries, index: nat): bytes
    decreases ArraySize(es) - index
  {
    if index >= ArraySize(es) then []
    else (if index > 0 then [0x2C] + Gap(c) else []) + Inline(c, Element(es, index)) + LineElements(c, es, index + 1)
  }

  function OneLine(c: Style, es: Entries): bytes {
    [0x5B] + Gap(c) + LineElements(c, es, 0) + Gap(c) + [0x5D]
  }

  // Whether the text of a value spans several lines (if there is an indentation at all).
  predicate Tall(c: Style, v: Value) {
    !Flat(v) && (v.p.Arr? ==> MultiLine(c, v.p.entries))
  }

  /** What writeValue writes for a value at the given indentation, the line being indented or not. */
  function Styled(c: Style, v: Value, indent: bytes, indented: bool): bytes
    decreases Nesting(v), 1, 0
  {
    if Flat(v) then Inline(c, v)
    else if v.p.Obj? then
      Lead(c, indent, indented) + [0x7B] + StyledMembers(c, v.p.entries, 0, indent + c.indentation)
      + Indent(c, indent) + [0x7D]
    else if MultiLine(c, v.p.entries) then
      Lead(c, indent, indented) + [0x5B] + StyledElements(c, v.p.entries, 0, indent + c.indentation)
      + Indent(c, indent) + [0x5D]
    else OneLine(c, v.p.entries)
  }

  // The elements from an index on, each on its own line.
  function StyledElements(c: Style, es: Entries, index: nat, indent: bytes): bytes
    decreases 1 + ItemsNesting(es), 0, ArraySize(es) - index
  {
    if index >= ArraySize(es) then []
    else
      GetNesting(es, Index(index));
      Indent(c, indent) + Styled(c, Element(es, index), indent, true)
      + (if index + 1 < ArraySize(es) then [0x2C] else []) + StyledElements(c, es, index + 1, indent)
  }

  // The members from the k-th on, each on its own line.
  function StyledMembers(c: Style, es: Entries, k: nat, indent: bytes): bytes
    decreases 1 + ItemsNesting(es), 0, |es| - k
  {
    if k >= |es| then []
    else
      GetNesting(es, Name(MemberName(es[k].key)));
      Indent(c, indent) + Quoted(MemberName(es[k].key), c.emitUtf8) + c.colonSymbol
      + Styled(c, Member(es, k), indent, false)
      + (if k + 1 < |es| then [0x2C] else []) + StyledMembers(c, es, k + 1, indent)
  }

  // StreamWriter::write
  function StyledDocument(c: Style, v: Value): bytes {
    Styled(c, v, [], true) + c.endingLineFeedSymbol
  }

  // The writer ---------------------------------------------------------------------------------

  // The texts collected for the elements of an array, all of them flat.
  ghost predicate Listed(childValues: seq<bytes>, c: Style, es: Entries, n: nat) {
    |childValues| == n && AllFlat(es, n) && forall k :: 0 <= k < n ==> childValues[k] == Inline(c, Element(es, k))
  }

  lemma ListedNext(childValues: seq<bytes>, c: Style, es: Entries, n: nat)
    requires Listed(childValues, c, es, n) && Flat(Element(es, n))
    ensures Listed(childValues + [Inline(c, Element(es, n))], c, es, n + 1)
  {
    hide Flat, Inline, Element;
  }

  class BuiltStyledStreamWriter {
    const style: Style
    var sout: bytes
    var childValues: seq<bytes>
    var indentString: bytes
    var addChildValues: bool
    var indented: bool

    // With all comments kept, no array is ever tried on one line.
    ghost predicate Valid()
      reads this
    {
      style.cs == AllComments ==> childValues == [] && !addChildValues
    }

    constructor (c: Style)
      ensures style == c && Valid() && sout == []
    {
      style := c;
      sout, childValues, indentString, addChildValues, indented := [], [], [], false, false;
    }

    method Write(root: Value)
      requires Valid() && IntegersFit(root)
      modifies this
      ensures Valid() && sout == old(sout) + StyledDocument(style, root)
      ensures indentString == []
    {
      hide Styled, IntegersFit;
      addChildValues := false;
      indented := true;
      indentString := [];
      WriteValue(root);
      Resume(old(sout), Styled(style, root, [], true), style.endingLineFeedSymbol);
      sout := sout + style.endingLineFeedSymbol;
    }

    // Collected in childValues when addChildValues is set, written otherwise.
    method PushValue(value: bytes)
      requires Valid()
      modifies `sout, `childValues
      ensures Valid()
      ensures if addChildValues then sout == old(sout) && childValues == old(childValues) + [value]
              else sout == old(sout) + value && childValues == old(childValues)
    {
      if addChildValues {
        childValues := childValues + [value];
      } else {
        sout := sout + value;
      }
    }

    method WriteIndent()
      modifies `sout
      ensures sout == old(sout) + Indent(style, indentString)
    {
      if style.indentation != [] {
        sout := sout + ([0x0A] + indentString);
      }
    }

    method WriteWithIndent(value: bytes)
      modifies `sout, `indented
      ensures sout == old(sout) + (Lead(style, indentString, old(indented)) + value) && !indented
    {
      if !indented {
        WriteIndent();
      }
      sout := sout + value;
      indented := false;
    }

    method IndentMore()
      modifies `indentString
      ensures indentString == old(indentString) + style.indentation
    {
      indentString := indentString + style.indentation;
    }

    method Unindent()
      requires |indentString| >= |style.indentation|
      modifies `indentString
      ensures indentString == old(indentString[..|indentString| - |style.indentation|])
    {
      indentString := indentString[..|indentString| - |style.indentation|];
    }

    method WriteValue(value: Value)
      requires Valid() && IntegersFit(value) && (addChildValues ==> Flat(value))
      modifies this
      ensures Valid() && indentString == old(indentString) && addChildValues == old(addChildValues)
      ensures if addChildValues
              then sout == old(sout) && childValues == old(childValues) + [Inline(style, value)]
                   && indented == old(indented)
              else sout == old(sout) + Styled(style, value, indentString, old(indented))
                   && indented == (old(indented) && !Tall(style, value))
      decreases Nesting(value), 3
    {
      hide Quoted, IntText, MultiLine;
      match value.p {
        case Null => PushValue(style.nullSymbol);
        case Int(i) =>
          var text := IntToText(i as int64);
          PushValue(text);
        case UInt(u) =>
          var text := UIntToText(u as uint64);
          PushValue(text);
        case Real(d) => PushValue(style.printDouble(d));
        case Str(s) =>
          var text := ValueToQuotedStringN(s, style.emitUtf8);
          PushValue(text);
        case Bool(b) => PushValue(if b then TRUE_TEXT else FALSE_TEXT);
        case Arr(es) => WriteArrayValue(value);
        case Obj(es) =>
          if es == [] {
            PushValue(EMPTY_OBJECT);
          } else {
            WriteObject(value);
          }
      }
    }

    method WriteObject(value: Value)
      requires Valid() && value.p.Obj? && IntegersFit(value) && !Flat(value) && !addChildValues
      modifies this
      ensures Valid() && indentString == old(indentString) && !addChildValues && !indented
      ensures sout == old(sout) + Styled(style, value, indentString, old(indented))
      decreases Nesting(value), 2
    {
      hide Styled, StyledMembers, Appending, Indent;
      var es := value.p.entries;
      WriteWithIndent([0x7B]);
      IndentMore();
      ghost var start, inner := sout, indentString;
      AppendingStart(sout, StyledMembers(style, es, 0, inner));
      var k := 0;
      while true
        invariant k < |es| && Valid() && indentString == inner && !addChildValues && !indented
        invariant Appending(sout, StyledMembers(style, es, k, inner), start + StyledMembers(style, es, 0, inner))
        decreases |es| - k
      {
        NextMemberLine(sout, style, es, k, inner, start + StyledMembers(style, es, 0, inner));
        WriteMember(es, k, value);
        k := k + 1;
        if k == |es| {
          break;
        }
        sout := sout + [0x2C];
      }
      Unindent();
      assert indentString == old(indentString);
      WriteWithIndent([0x7D]);
      StyledObject(style, value, indentString, old(indented));
      Reassociate(old(sout), Lead(style, indentString, old(indented)), [0x7B], StyledMembers(style, es, 0, inner),
                  Indent(style, indentString), [0x7D]);
    }

    method WriteMember(es: Entries, k: nat, ghost value: Value)
      requires Valid() && value.p.Obj? && value.p.entries == es && IntegersFit(value) && k < |es|
      requires !addChildValues && !indented
      modifies this
      ensures Valid() && indentString == old(indentString) && !addChildValues && !indented
      ensures sout == old(sout) + MemberText(style, es, k, indentString)
      decreases Nesting(value), 1
    {
      hide Styled, Get, Quoted, Tall, Flat, Indent;
      var name := MemberName(es[k].key);
      var text := ValueToQuotedStringN(name, style.emitUtf8);
      WriteWithIndent(text);
      ghost var before := Indent(style, indentString) + text;
      sout := sout + style.colonSymbol;
      Resume(old(sout), before, style.colonSymbol);
      GetNesting(es, Name(name));
      GetFits(es, Name(name));
      WriteValue(Member(es, k));
      Resume(old(sout), before + style.colonSymbol, Styled(style, Member(es, k), indentString, false));
    }

    method WriteArrayValue(value: Value)
      requires Valid() && value.p.Arr? && IntegersFit(value) && (addChildValues ==> Flat(value))
      modifies this
      ensures Valid() && indentString == old(indentString) && addChildValues == old(addChildValues)
      ensures if addChildValues
              then sout == old(sout) && childValues == old(childValues) + [Inline(style, value)]
                   && indented == old(indented)
              else sout == old(sout) + Styled(style, value, indentString, old(indented))
                   && indented == (old(indented) && !Tall(style, value))
      decreases Nesting(value), 2
    {
      hide Lead, Indent, StyledElements, OneLine, Listed, TooWide;
      var es := value.p.entries;
      if ArraySize(es) == 0 {
        PushValue(EMPTY_ARRAY);
        return;
      }
      var isMultiLine := style.cs == AllComments;
      if !isMultiLine {
        isMultiLine := IsMultilineArray(value);
      }
      if isMultiLine {
        WriteMultiLineArray(value);
      } else {
        WriteOneLineArray(es);
      }
    }

    method WriteMultiLineArray(value: Value)
      requires Valid() && value.p.Arr? && IntegersFit(value) && !addChildValues
      requires !Flat(value) && MultiLine(style, value.p.entries)
      requires childValues == [] || Listed(childValues, style, value.p.entries, ArraySize(value.p.entries))
      modifies this
      ensures Valid() && indentString == old(indentString) && !addChildValues && !indented
      ensures sout == old(sout) + Styled(style, value, indentString, old(indented))
      decreases Nesting(value), 1
    {
      hide Styled, StyledElements, Appending, Indent, Listed, MultiLine;
      var es := value.p.entries;
      var size := ArraySize(es);
      WriteWithIndent([0x5B]);
      IndentMore();
      ghost var start, inner, listed := sout, indentString, childValues;
      AppendingStart(sout, StyledElements(style, es, 0, inner));
      var hasChildValue := childValues != [];
      var index := 0;
      while true
        invariant index < size && Valid() && indentString == inner && !addChildValues && !indented
        invariant hasChildValue ==> childValues == listed
        invariant Appending(sout, StyledElements(style, es, index, inner), start + StyledElements(style, es, 0, inner))
        decreases size - index
      {
        NextElementLine(sout, style, es, index, inner, start + StyledElements(style, es, 0, inner));
        WriteElement(es, index, hasChildValue, value);
        index := index + 1;
        if index == size {
          break;
        }
        sout := sout + [0x2C];
      }
      Unindent();
      assert indentString == old(indentString);
      WriteWithIndent([0x5D]);
      StyledArray(style, value, indentString, old(indented));
      Reassociate(old(sout), Lead(style, indentString, old(indented)), [0x5B], StyledElements(style, es, 0, inner),
                  Indent(style, indentString), [0x5D]);
    }

    method WriteElement(es: Entries, index: nat, hasChildValue: bool, ghost value: Value)
      requires Valid() && value.p.Arr? && value.p.entries == es && IntegersFit(value) && index < ArraySize(es)
      requires !addChildValues && !indented
      requires hasChildValue ==> Listed(childValues, style, es, ArraySize(es))
      modifies this
      ensures Valid() && indentString == old(indentString) && !addChildValues && !indented
      ensures hasChildValue ==> childValues == old(childValues)
      ensures sout == old(sout) + ElementText(style, es, index, indentString)
      decreases Nesting(value), 0
    {
      hide Get, Tall, Inline, Flat, Indent;
      if hasChildValue {
        WriteWithIndent(childValues[index]);
      } else {
        hide Styled;
        WriteIndent();
        indented := true;
        GetNesting(es, Index(index));
        GetFits(es, Index(index));
        WriteValue(Element(es, index));
        Resume(old(sout), Indent(style, indentString), Styled(style, Element(es, index), indentString, true));
        indented := false;
      }
    }

    // Decides, and for an array that may go on one line collects the texts of its elements.
    method IsMultilineArray(value: Value) returns (isMultiLine: bool)
      requires Valid() && value.p.Arr? && IntegersFit(value) && !addChildValues && style.cs != AllComments
      requires !Flat(value)
      modifies this
      ensures Valid() && indentString == old(indentString) && !addChildValues && indented == old(indented)
      ensures sout == old(sout)
      ensures isMultiLine == TooWide(style, value.p.entries)
      ensures childValues == [] || Listed(childValues, style, value.p.entries, ArraySize(value.p.entries))
      ensures !isMultiLine ==> Listed(childValues, style, value.p.entries, ArraySize(value.p.entries))
      decreases Nesting(value), 1
    {
      var es := value.p.entries;
      var size := ArraySize(es);
      assert size > 0;
      hide Element, Flat, Inline, InlineLength, Listed;
      isMultiLine := Wrapped(size * 3) >= RIGHT_MARGIN;
      childValues := [];
      var index := 0;
      while index < size && !isMultiLine
        invariant index <= size && !addChildValues && sout == old(sout)
        invariant indentString == old(indentString) && indented == old(indented) && childValues == []
        invariant isMultiLine ==> Wrapped(size * 3) >= RIGHT_MARGIN || !AllFlat(es, size)
        invariant !isMultiLine ==> Wrapped(size * 3) < RIGHT_MARGIN && AllFlat(es, index)
      {
        isMultiLine := !Flat(Element(es, index));
        index := index + 1;
      }
      if !isMultiLine {
        assert AllFlat(es, size);
        var lineLength := CollectChildValues(value);
        isMultiLine := lineLength >= RIGHT_MARGIN;
      }
    }

    method CollectChildValues(value: Value) returns (lineLength: nat)
      requires Valid() && value.p.Arr? && IntegersFit(value) && !addChildValues && style.cs != AllComments
      requires AllFlat(value.p.entries, ArraySize(value.p.entries)) && ArraySize(value.p.entries) > 0
               && childValues == []
      modifies this
      ensures Valid() && indentString == old(indentString) && !addChildValues && indented == old(indented)
      ensures sout == old(sout)
      ensures lineLength == LineLength(style, value.p.entries)
      ensures Listed(childValues, style, value.p.entries, ArraySize(value.p.entries))
      decreases Nesting(value), 0
    {
      hide Get, Flat, Inline, InlineLength, Styled, Listed;
      var es := value.p.entries;
      var size := ArraySize(es);
      addChildValues := true;
      lineLength := Wrapped(4 + (size - 1) * 2);
      var index := 0;
      LengthFrom(style, es);
      ListedNone(style, es);
      while index < size
        invariant index <= size && addChildValues && sout == old(sout) && Valid()
        invariant indentString == old(indentString) && indented == old(indented)
        invariant Listed(childValues, style, es, index)
        invariant lineLength == Wrapped(4 + (size - 1) * 2 + InlineLength(style, es, index))
      {
        ElementNesting(es, index);
        GetFits(es, Index(index));
        ElementFlat(es, index, size);
        ListedNext(childValues, style, es, index);
        LengthNext(style, es, size, index);
        ghost var was := childValues;
        WriteValue(Element(es, index));
        assert childValues[|was|] == Inline(style, Element(es, index));
        ListedLength(was, style, es, index);
        lineLength := Wrapped(lineLength + Wrapped(|childValues[index]|));
        index := index + 1;
      }
      addChildValues := false;
    }

    method WriteOneLineArray(es: Entries)
      requires ArraySize(es) > 0 && Listed(childValues, style, es, ArraySize(es))
      modifies `sout
      ensures sout == old(sout) + OneLine(style, es)
    {
      hide LineElements, Appending, Listed, Inline, Element;
      var size := ArraySize(es);
      ListedLength(childValues, style, es, size);
      assert |childValues| == size;
      sout := sout + [0x5B];
      sout := sout + Gap(style);
      ghost var start := sout;
      AppendingStart(sout, LineElements(style, es, 0));
      var index := 0;
      while index < size
        invariant index <= size
        invariant Appending(sout, LineElements(style, es, index), start + LineElements(style, es, 0))
      {
        ListedAt(childValues, style, es, size, index);
        NextOnLine(sout, style, es, index, start + LineElements(style, es, 0));
        ghost var before := sout;
        if index > 0 {
          sout := sout + ([0x2C] + Gap(style));
        }
        assert before + [] == before;
        sout := sout + childValues[index];
        Resume(before, if index > 0 then [0x2C] + Gap(style) else [], Inline(style, Element(es, index)));
        index := index + 1;
      }
      LineEnd(sout, style, es, start + LineElements(style, es, 0));
      ReassociateLine(old(sout), [0x5B], Gap(style), LineElements(style, es, 0), [0x5D]);
      sout := sout + Gap(style);
      sout := sout + [0x5D];
    }
  }

  // One turn of the loops ----------------------------------------------------------------------

  function ElementText(c: Style, es: Entries, index: nat, indent: bytes): bytes {
    Indent(c, indent) + Styled(c, Element(es, index), indent, true)
  }

  function MemberText(c: Style, es: Entries, k: nat, indent: bytes): bytes
    requires k < |es|
  {
    Indent(c, indent) + Quoted(MemberName(es[k].key), c.emitUtf8) + c.colonSymbol
    + Styled(c, Member(es, k), indent, false)
  }

  lemma AppendingStart(written: bytes, rest: bytes)
    ensures Appending(written, rest, written + rest)
  {
  }

  lemma NextMemberLine(written: bytes, c: Style, es: Entries, k: nat, indent: bytes, goal: bytes)
    requires k < |es| && Appending(written, StyledMembers(c, es, k, indent), goal)
    ensures if k + 1 < |es|
            then Appending(written + MemberText(c, es, k, indent) + [0x2C], StyledMembers(c, es, k + 1, indent), goal)
            else written + MemberText(c, es, k, indent) == goal
  {
    hide Styled, Get, Quoted, Indent, MemberText;
    StyledMembersStep(c, es, k, indent);
    if k + 1 < |es| {
      Reassociate3(written, MemberText(c, es, k, indent), [0x2C], StyledMembers(c, es, k + 1, indent));
    }
  }

  lemma StyledMembersStep(c: Style, es: Entries, k: nat, indent: bytes)
    requires k < |es|
    ensures StyledMembers(c, es, k, indent)
            == if k + 1 < |es| then MemberText(c, es, k, indent) + [0x2C] + StyledMembers(c, es, k + 1, indent)
               else MemberText(c, es, k, indent)
  {
    hide Styled, Get, Quoted, Indent;
  }

  lemma NextElementLine(written: bytes, c: Style, es: Entries, index: nat, indent: bytes, goal: bytes)
    requires index < ArraySize(es) && Appending(written, StyledElements(c, es, index, indent), goal)
    ensures if index + 1 < ArraySize(es)
            then Appending(written + ElementText(c, es, index, indent) + [0x2C],
                           StyledElements(c, es, index + 1, indent), goal)
            else written + ElementText(c, es, index, indent) == goal
  {
    hide Styled, Get, Indent, ElementText;
    StyledElementsStep(c, es, index, indent);
    if index + 1 < ArraySize(es) {
      Reassociate3(written, ElementText(c, es, index, indent), [0x2C], StyledElements(c, es, index + 1, indent));
    }
  }

  lemma StyledElementsStep(c: Style, es: Entries, index: nat, indent: bytes)
    requires index < ArraySize(es)
    ensures StyledElements(c, es, index, indent)
            == if index + 1 < ArraySize(es)
               then ElementText(c, es, index, indent) + [0x2C] + StyledElements(c, es, index + 1, indent)
               else ElementText(c, es, index, indent)
  {
    hide Styled, Get, Indent, Element;
  }

  lemma NextOnLine(written: bytes, c: Style, es: Entries, index: nat, goal: bytes)
    requires index < ArraySize(es) && Appending(written, LineElements(c, es, index), goal)
    ensures Appending(written + ((if index > 0 then [0x2C] + Gap(c) else []) + Inline(c, Element(es, index))),
                      LineElements(c, es, index + 1), goal)
  {
    hide Inline, Element, Gap;
    Resume(written, (if index > 0 then [0x2C] + Gap(c) else []) + Inline(c, Element(es, index)),
           LineElements(c, es, index + 1));
  }

  lemma LineEnd(written: bytes, c: Style, es: Entries, goal: bytes)
    requires Appending(written, LineElements(c, es, ArraySize(es)), goal)
    ensures written == goal
  {
  }

  lemma StyledObject(c: Style, v: Value, indent: bytes, indented: bool)
    requires v.p.Obj? && !Flat(v)
    ensures Styled(c, v, indent, indented)
            == Lead(c, indent, indented) + [0x7B] + StyledMembers(c, v.p.entries, 0, indent + c.indentation)
               + Indent(c, indent) + [0x7D]
  {
  }

  lemma StyledArray(c: Style, v: Value, indent: bytes, indented: bool)
    requires v.p.Arr? && !Flat(v) && MultiLine(c, v.p.entries)
    ensures Styled(c, v, indent, indented)
            == Lead(c, indent, indented) + [0x5B] + StyledElements(c, v.p.entries, 0, indent + c.indentation)
               + Indent(c, indent) + [0x5D]
  {
  }

  lemma Reassociate(was: bytes, lead: bytes, open: bytes, body: bytes, indent: bytes, close: bytes)
    ensures was + (lead + open) + body + (indent + close) == was + (lead + open + body + indent + close)
  {
  }

  lemma Reassociate3(a: bytes, b: bytes, c: bytes, d: bytes)
    ensures a + (b + c + d) == a + b + c + d
  {
  }

  lemma ReassociateLine(was: bytes, open: bytes, gap: bytes, body: bytes, close: bytes)
    ensures was + open + gap + body + gap + close == was + (open + gap + body + gap + close)
  {
  }

  // The state of isMultilineArray ---------------------------------------------------------------

  lemma ListedNone(c: Style, es: Entries)
    ensures Listed([], c, es, 0)
  {
  }

  lemma ListedLength(childValues: seq<bytes>, c: Style, es: Entries, n: nat)
    requires Listed(childValues, c, es, n)
    ensures |childValues| == n
  {
  }

  lemma ListedAt(childValues: seq<bytes>, c: Style, es: Entries, n: nat, k: nat)
    requires Listed(childValues, c, es, n) && k < n
    ensures |childValues| == n && Flat(Element(es, k)) && childValues[k] == Inline(c, Element(es, k))
  {
  }

  lemma LengthFrom(c: Style, es: Entries)
    ensures InlineLength(c, es, 0) == 0
  {
  }

  lemma LengthNext(c: Style, es: Entries, size: nat, n: nat)
    requires size > 0
    ensures Wrapped(Wrapped(4 + (size - 1) * 2 + InlineLength(c, es, n)) + Wrapped(|Inline(c, Element(es, n))|))
            == Wrapped(4 + (size - 1) * 2 + InlineLength(c, es, n + 1))
  {
    hide Inline, Element;
    assert InlineLength(c, es, n + 1) == InlineLength(c, es, n) + |Inline(c, Element(es, n))|;
    WrappedSum(4 + (size - 1) * 2 + InlineLength(c, es, n), |Inline(c, Element(es, n))|);
  }

  lemma WrappedSum(a: nat, b: nat)
    ensures Wrapped(Wrapped(a) + Wrapped(b)) == Wrapped(a + b)
  {
  }

  lemma ElementNesting(es: Entries, index: nat)
    requires index < ArraySize(es)
    ensures Nesting(Element(es, index)) <= ItemsNesting(es)
  {
    GetNesting(es, Index(index));
  }

  lemma ElementFlat(es: Entries, index: nat, n: nat)
    requires index < n && AllFlat(es, n)
    ensures Flat(Element(es, index))
  {
  }
}
