/** FastWriter: a document on one line. */
module FastWriterModel {
  import opened Bytes
  import opened Numbers
  import opened Quoting
  import opened JsonValue
  import opened PrintedValues

  // The writer's switches, and the conversion of doubles it relies on.
  datatype FastStyle = FastStyle(yaml: bool, dropNull: bool, omitLineFeed: bool, printDouble: Double -> bytes)

  const NULL_TEXT: bytes := [0x6E, 0x75, 0x6C, 0x6C]
  const TRUE_TEXT: bytes := [0x74, 0x72, 0x75, 0x65]
  const FALSE_TEXT: bytes := [0x66, 0x61, 0x6C, 0x73, 0x65]

  function ColonText(c: FastStyle): bytes { if c.yaml then [0x3A, 0x20] else [0x3A] }

  /** What writeValue appends for a value. */
  function Fast(c: FastStyle, v: Value): bytes
    decreases Nesting(v), 1, 0
  {
    match v.p
    case Null => if c.dropNull then [] else NULL_TEXT
    case Int(i) => IntText(i)
    case UInt(u) => IntText(u)
    case Real(d) => c.printDouble(d)
    case Str(s) => Quoted(s, false)
    case Bool(b) => if b then TRUE_TEXT else FALSE_TEXT
    case Arr(es) => [0x5B] + FastElements(c, es, 0) + [0x5D]
    case Obj(es) => [0x7B] + FastMembers(c, es, 0) + [0x7D]
  }

  // The elements from an index on; a missing one is written as null.
  function FastElements(c: FastStyle, es: Entries, index: nat): bytes
    decreases 1 + ItemsNesting(es), 0, ArraySize(es) - index
  {
    if index >= ArraySize(es) then []
    else
      GetNesting(es, Index(index));
      (if index > 0 then [0x2C] else []) + Fast(c, Get(es, Index(index))) + FastElements(c, es, index + 1)
  }

  // The members from the k-th name on.
  function FastMembers(c: FastStyle, es: Entries, k: nat): bytes
    decreases 1 + ItemsNesting(es), 0, |es| - k
  {
    if k >= |es| || es[k].key.Index? then []
    else
      GetNesting(es, es[k].key);
      (if k > 0 then [0x2C] else []) + Quoted(es[k].key.s, false) + ColonText(c)
      + Fast(c, Get(es, es[k].key)) + FastMembers(c, es, k + 1)
  }

  // FastWriter::write
  function FastDocument(c: FastStyle, v: Value): bytes {
    Fast(c, v) + if c.omitLineFeed then [] else [0x0A]
  }

  class FastWriter {
    const style: FastStyle
    var document: bytes

    constructor (c: FastStyle)
      ensures style == c && document == []
    {
      style, document := c, [];
    }

    method Write(root: Value) returns (text: bytes)
      requires IntegersFit(root)
      modifies this
      ensures text == document == FastDocument(style, root)
    {
      document := [];
      WriteValue(root);
      if !style.omitLineFeed {
        document := document + [0x0A];
      }
      text := document;
    }

    method WriteValue(v: Value)
      requires IntegersFit(v)
      modifies this
      ensures document == old(document) + Fast(style, v)
      decreases Nesting(v), 1
    {
      match v.p {
        case Null =>
          if !style.dropNull {
            document := document + NULL_TEXT;
          }
        case Int(i) =>
          var text := IntToText(i as int64);
          document := document + text;
        case UInt(u) =>
          var text := UIntToText(u as uint64);
          document := document + text;
        case Real(d) => document := document + style.printDouble(d);
        case Str(s) =>
          var text := ValueToQuotedStringN(s);
          document := document + text;
        case Bool(b) => document := document + if b then TRUE_TEXT else FALSE_TEXT;
        case Arr(es) => WriteArray(v);
        case Obj(es) => WriteObject(v);
      }
    }

    method WriteArray(v: Value)
      requires v.p.Arr? && IntegersFit(v)
      modifies this
      ensures document == old(document) + Fast(style, v)
      decreases Nesting(v), 0, 1
    {
      hide Fast, FastElements, Appending;
      var es := v.p.entries;
      FastArray(style, v);
      ghost var goal := document + ([0x5B] + FastElements(style, es, 0));
      AppendingElements(document, style, es, goal);
      document := document + [0x5B];
      var size := ArraySize(es);
      var index := 0;
      while index < size
        invariant index <= size && Appending(document, FastElements(style, es, index), goal)
      {
        NextElement(document, style, es, index, goal);
        WriteElement(es, index, v);
        index := index + 1;
      }
      LastElement(document, style, es, goal);
      Resume(old(document), [0x5B] + FastElements(style, es, 0), [0x5D]);
      document := document + [0x5D];
    }

    method WriteElement(es: Entries, index: nat, ghost v: Value)
      requires v.p.Arr? && v.p.entries == es && IntegersFit(v) && index < ArraySize(es)
      modifies this
      ensures document == old(document) + ((if index > 0 then [0x2C] else []) + Fast(style, Get(es, Index(index))))
      decreases Nesting(v), 0, 0
    {
      hide Fast, Get;
      ghost var start := document;
      if index > 0 {
        document := document + [0x2C];
      }
      GetNesting(es, Index(index));
      GetFits(es, Index(index));
      WriteValue(Get(es, Index(index)));
      Resume(start, if index > 0 then [0x2C] else [], Fast(style, Get(es, Index(index))));
    }

    method WriteObject(v: Value)
      requires v.p.Obj? && IntegersFit(v)
      modifies this
      ensures document == old(document) + Fast(style, v)
      decreases Nesting(v), 0, 1
    {
      hide Fast, FastMembers, Appending;
      var es := v.p.entries;
      FastObject(style, v);
      ghost var goal := document + ([0x7B] + FastMembers(style, es, 0));
      AppendingMembers(document, style, es, goal);
      document := document + [0x7B];
      var k := 0;
      while k < |es| && es[k].key.Name?
        invariant k <= |es| && Appending(document, FastMembers(style, es, k), goal)
      {
        NextMember(document, style, es, k, goal);
        WriteMember(es, k, v);
        k := k + 1;
      }
      LastMember(document, style, es, k, goal);
      Resume(old(document), [0x7B] + FastMembers(style, es, 0), [0x7D]);
      document := document + [0x7D];
    }

    method WriteMember(es: Entries, k: nat, ghost v: Value)
      requires v.p.Obj? && v.p.entries == es && IntegersFit(v) && k < |es| && es[k].key.Name?
      modifies this
      ensures document == old(document) + ((if k > 0 then [0x2C] else []) + Quoted(es[k].key.s, false)
                                           + ColonText(style) + Fast(style, Get(es, es[k].key)))
      decreases Nesting(v), 0, 0
    {
      hide Fast, Get, Quoted;
      ghost var start := document;
      if k > 0 {
        document := document + [0x2C];
      }
      var name := ValueToQuotedStringN(es[k].key.s);
      document := document + name;
      document := document + ColonText(style);
      GetNesting(es, es[k].key);
      GetFits(es, es[k].key);
      ghost var before := (if k > 0 then [0x2C] else []) + Quoted(es[k].key.s, false) + ColonText(style);
      assert document == start + before;
      WriteValue(Get(es, es[k].key));
      Resume(start, before, Fast(style, Get(es, es[k].key)));
    }
  }

  // The state of a writer's loop: what is written, and what is still to come, make the goal.
  ghost predicate Appending(written: bytes, rest: bytes, goal: bytes) {
    written + rest == goal
  }

  lemma FastArray(c: FastStyle, v: Value)
    requires v.p.Arr?
    ensures Fast(c, v) == [0x5B] + FastElements(c, v.p.entries, 0) + [0x5D]
  {
  }

  lemma FastObject(c: FastStyle, v: Value)
    requires v.p.Obj?
    ensures Fast(c, v) == [0x7B] + FastMembers(c, v.p.entries, 0) + [0x7D]
  {
  }

  lemma AppendingElements(document: bytes, c: FastStyle, es: Entries, goal: bytes)
    requires goal == document + ([0x5B] + FastElements(c, es, 0))
    ensures Appending(document + [0x5B], FastElements(c, es, 0), goal)
  {
    Resume(document, [0x5B], FastElements(c, es, 0));
  }

  lemma NextElement(written: bytes, c: FastStyle, es: Entries, index: nat, goal: bytes)
    requires index < ArraySize(es) && Appending(written, FastElements(c, es, index), goal)
    ensures Appending(written + ((if index > 0 then [0x2C] else []) + Fast(c, Get(es, Index(index)))),
                      FastElements(c, es, index + 1), goal)
  {
    hide Fast, Get;
    Resume(written, (if index > 0 then [0x2C] else []) + Fast(c, Get(es, Index(index))),
           FastElements(c, es, index + 1));
  }

  lemma LastElement(written: bytes, c: FastStyle, es: Entries, goal: bytes)
    requires Appending(written, FastElements(c, es, ArraySize(es)), goal)
    ensures written == goal
  {
  }

  lemma AppendingMembers(document: bytes, c: FastStyle, es: Entries, goal: bytes)
    requires goal == document + ([0x7B] + FastMembers(c, es, 0))
    ensures Appending(document + [0x7B], FastMembers(c, es, 0), goal)
  {
    Resume(document, [0x7B], FastMembers(c, es, 0));
  }

  lemma NextMember(written: bytes, c: FastStyle, es: Entries, k: nat, goal: bytes)
    requires k < |es| && es[k].key.Name? && Appending(written, FastMembers(c, es, k), goal)
    ensures Appending(written + ((if k > 0 then [0x2C] else []) + Quoted(es[k].key.s, false) + ColonText(c)
                                 + Fast(c, Get(es, es[k].key))),
                      FastMembers(c, es, k + 1), goal)
  {
    hide Fast, Get, Quoted;
    Resume(written, (if k > 0 then [0x2C] else []) + Quoted(es[k].key.s, false) + ColonText(c)
                    + Fast(c, Get(es, es[k].key)), FastMembers(c, es, k + 1));
  }

  lemma LastMember(written: bytes, c: FastStyle, es: Entries, k: nat, goal: bytes)
    requires (k >= |es| || es[k].key.Index?) && Appending(written, FastMembers(c, es, k), goal)
    ensures written == goal
  {
  }
}
