/** The lines that BuiltStyledStreamWriter writes, and how far each of them is indented. */
module StyledLines {
  import opened Bytes
  import opened Numbers
  import opened Quoting
  import opened JsonValue
  import opened Literals
  import opened PrintedValues
  import opened FastWriterModel
  import opened StyledWriterModel

  // A line: how many containers are open around it, and what follows the indentation.
  datatype Line = Line(depth: nat, text: bytes)

  // The lines of a value --------------------------------------------------------------------------

  // The elements of an array on one line.
  function Listing(c: Style, es: Entries, index: nat): bytes
    decreases ArraySize(es) - index
  {
    if index >= ArraySize(es) then []
    else if index + 1 == ArraySize(es) then Inline(c, Element(es, index))
    else Inline(c, Element(es, index)) + Ascii(", ") + Listing(c, es, index + 1)
  }

  // A value that stays on one line; its elements stand between "[ " and " ]".
  function OnOneLine(c: Style, v: Value): bytes
    requires !Tall(c, v)
  {
    if Flat(v) then Inline(c, v) else Ascii("[ ") + Listing(c, v.p.entries, 0) + Ascii(" ]")
  }

  /** The lines of a value with something in front of it and something behind it on the same lines: one,
      or, for an object or an array that goes over several lines, its opening bracket, its members or
      elements one level deeper, each beginning a line, and its closing bracket. The bracket of a
      member's value begins a line, too. */
  function LinesOf(c: Style, v: Value, depth: nat, head: bytes, tail: bytes): seq<Line>
    decreases Nesting(v), 1, 0
  {
    if !Tall(c, v) then [Line(depth, head + OnOneLine(c, v) + tail)]
    else
      (if head == [] then [] else [Line(depth, head)])
      + [Line(depth, Ascii(if v.p.Obj? then "{" else "["))]
      + (if v.p.Obj? then MemberLines(c, v.p.entries, 0, depth + 1) else ElementLines(c, v.p.entries, 0, depth + 1))
      + [Line(depth, Ascii(if v.p.Obj? then "}" else "]") + tail)]
  }

  function ElementLines(c: Style, es: Entries, index: nat, depth: nat): seq<Line>
    decreases 1 + ItemsNesting(es), 0, ArraySize(es) - index
  {
    if index >= ArraySize(es) then []
    else
      GetNesting(es, Index(index));
      LinesOf(c, Element(es, index), depth, [], CommaBut(index + 1 == ArraySize(es)))
      + ElementLines(c, es, index + 1, depth)
  }

  function MemberLines(c: Style, es: Entries, k: nat, depth: nat): seq<Line>
    decreases 1 + ItemsNesting(es), 0, |es| - k
  {
    if k >= |es| then []
    else
      GetNesting(es, Name(MemberName(es[k].key)));
      LinesOf(c, Member(es, k), depth, Quoted(MemberName(es[k].key), c.emitUtf8) + c.colonSymbol,
              CommaBut(k + 1 == |es|))
      + MemberLines(c, es, k + 1, depth)
  }

  // A comma behind all but the last.
  function CommaBut(last: bool): bytes { if last then [] else Ascii(",") }

  // Indented text ---------------------------------------------------------------------------------

  function Repeat(s: bytes, n: nat): bytes { if n == 0 then [] else Repeat(s, n - 1) + s }

  function Rendered(c: Style, line: Line): bytes { Repeat(c.indentation, line.depth) + line.text }

  // The lines, each behind a newline.
  function Broken(c: Style, lines: seq<Line>): bytes {
    if lines == [] then [] else [0x0A] + Rendered(c, lines[0]) + Broken(c, lines[1..])
  }

  lemma {:induction false} BrokenConcat(c: Style, a: seq<Line>, b: seq<Line>)
    ensures Broken(c, a + b) == Broken(c, a) + Broken(c, b)
  {
    hide Rendered;
    if a == [] {
      assert a + b == b;
    } else {
      assert (a + b)[1..] == a[1..] + b;
      BrokenConcat(c, a[1..], b);
    }
  }

  lemma BrokenOne(c: Style, line: Line)
    requires c.indentation != []
    ensures Broken(c, [line]) == Indent(c, Repeat(c.indentation, line.depth)) + line.text
  {
    assert [line][1..] == [];
  }

  lemma Listed(c: Style, es: Entries)
    requires c.indentation != [] && ArraySize(es) > 0
    ensures OneLine(c, es) == Ascii("[ ") + Listing(c, es, 0) + Ascii(" ]")
  {
    hide Inline, Element;
    ListedFrom(c, es, 0);
    assert Ascii("[ ") == [0x5B] + [0x20] && Ascii(" ]") == [0x20] + [0x5D];
  }

  lemma {:induction false} ListedFrom(c: Style, es: Entries, index: nat)
    requires c.indentation != [] && index < ArraySize(es)
    ensures LineElements(c, es, index) == (if index > 0 then Ascii(", ") else []) + Listing(c, es, index)
    decreases ArraySize(es) - index
  {
    hide Inline, Element;
    assert Ascii(", ") == [0x2C] + [0x20];
    if index + 1 < ArraySize(es) {
      ListedFrom(c, es, index + 1);
    } else {
      assert LineElements(c, es, index + 1) == [];
    }
  }

  // What stands in front of a container's bracket, around its body, and behind it.
  lemma Assembled(indent: bytes, head: bytes, lead: bytes, open: bytes, body: bytes, close: bytes, tail: bytes)
    ensures indent + head + (lead + open + body + indent + close) + tail
         == (indent + head + lead + open) + body + (indent + (close + tail))
  {
  }

  lemma Opened(c: Style, depth: nat, head: bytes, open: bytes)
    requires c.indentation != []
    ensures var indent := Indent(c, Repeat(c.indentation, depth));
            indent + head + Lead(c, Repeat(c.indentation, depth), head == []) + open
            == Broken(c, (if head == [] then [] else [Line(depth, head)]) + [Line(depth, open)])
  {
    hide Repeat;
    var indent := Indent(c, Repeat(c.indentation, depth));
    BrokenOne(c, Line(depth, open));
    if head == [] {
      assert [] + [Line(depth, open)] == [Line(depth, open)];
      assert indent + [] + [] == indent;
    } else {
      BrokenOne(c, Line(depth, head));
      BrokenConcat(c, [Line(depth, head)], [Line(depth, open)]);
    }
  }

  /** What is written for a value, with what stands around it, is its lines. */
  lemma {:induction false} ValueIsLines(c: Style, v: Value, depth: nat, head: bytes, tail: bytes)
    requires c.indentation != []
    ensures var indent := Repeat(c.indentation, depth);
            Indent(c, indent) + head + Styled(c, v, indent, head == []) + tail
            == Broken(c, LinesOf(c, v, depth, head, tail))
    decreases Nesting(v), 1, 0
  {
    hide Repeat, Indent, Inline, MultiLine, Broken, OneLine, Listing, StyledMembers, StyledElements, MemberLines,
         ElementLines, Ascii;
    var indent := Repeat(c.indentation, depth);
    if !Tall(c, v) {
      OneLineText(c, v, indent, head == []);
      BrokenOne(c, Line(depth, head + OnOneLine(c, v) + tail));
      Resume(Indent(c, indent), head + OnOneLine(c, v), tail);
      Resume(Indent(c, indent), head, OnOneLine(c, v));
      return;
    }
    var open, close := Ascii(if v.p.Obj? then "{" else "["), Ascii(if v.p.Obj? then "}" else "]");
    var body := if v.p.Obj? then StyledMembers(c, v.p.entries, 0, indent + c.indentation)
                else StyledElements(c, v.p.entries, 0, indent + c.indentation);
    var lines := if v.p.Obj? then MemberLines(c, v.p.entries, 0, depth + 1)
                 else ElementLines(c, v.p.entries, 0, depth + 1);
    if v.p.Obj? {
      MembersAreLines(c, v.p.entries, 0, depth + 1);
    } else {
      ElementsAreLines(c, v.p.entries, 0, depth + 1);
    }
    Deeper(c, depth);
    TallText(c, v, indent, head == []);
    Assembled(Indent(c, indent), head, Lead(c, indent, head == []), open, body, close, tail);
    Opened(c, depth, head, open);
    var first := (if head == [] then [] else [Line(depth, head)]) + [Line(depth, open)];
    BrokenConcat(c, first, lines);
    BrokenConcat(c, first + lines, [Line(depth, close + tail)]);
    BrokenOne(c, Line(depth, close + tail));
  }

  lemma Deeper(c: Style, depth: nat)
    ensures Repeat(c.indentation, depth) + c.indentation == Repeat(c.indentation, depth + 1)
  {
  }

  lemma OneLineText(c: Style, v: Value, indent: bytes, indented: bool)
    requires c.indentation != [] && !Tall(c, v)
    ensures Styled(c, v, indent, indented) == OnOneLine(c, v)
  {
    hide Inline, OneLine, Listing, MultiLine, StyledMembers, StyledElements, Ascii;
    if !Flat(v) {
      Listed(c, v.p.entries);
    }
  }

  lemma TallText(c: Style, v: Value, indent: bytes, indented: bool)
    requires Tall(c, v)
    ensures Styled(c, v, indent, indented)
         == Lead(c, indent, indented) + Ascii(if v.p.Obj? then "{" else "[")
            + (if v.p.Obj? then StyledMembers(c, v.p.entries, 0, indent + c.indentation)
               else StyledElements(c, v.p.entries, 0, indent + c.indentation))
            + Indent(c, indent) + Ascii(if v.p.Obj? then "}" else "]")
  {
    hide Lead, Indent, StyledMembers, StyledElements, MultiLine;
    assert Ascii("{") == [0x7B] && Ascii("}") == [0x7D] && Ascii("[") == [0x5B] && Ascii("]") == [0x5D];
  }

  lemma {:induction false} ElementsAreLines(c: Style, es: Entries, index: nat, depth: nat)
    requires c.indentation != []
    ensures StyledElements(c, es, index, Repeat(c.indentation, depth)) == Broken(c, ElementLines(c, es, index, depth))
    decreases 1 + ItemsNesting(es), 0, ArraySize(es) - index
  {
    hide Repeat, Indent, Styled, LinesOf, Element;
    if index < ArraySize(es) {
      GetNesting(es, Index(index));
      ElementNests(es, index);
      var indent, v := Repeat(c.indentation, depth), Element(es, index);
      var comma := CommaBut(index + 1 == ArraySize(es));
      OneComma();
      ValueIsLines(c, v, depth, [], comma);
      ElementsAreLines(c, es, index + 1, depth);
      BrokenConcat(c, LinesOf(c, v, depth, [], comma), ElementLines(c, es, index + 1, depth));
      assert Indent(c, indent) + [] == Indent(c, indent);
    }
  }

  lemma OneComma()
    ensures CommaBut(false) == [0x2C] && CommaBut(true) == []
  {
  }

  lemma {:induction false} MembersAreLines(c: Style, es: Entries, k: nat, depth: nat)
    requires c.indentation != []
    ensures StyledMembers(c, es, k, Repeat(c.indentation, depth)) == Broken(c, MemberLines(c, es, k, depth))
    decreases 1 + ItemsNesting(es), 0, |es| - k
  {
    hide Repeat, Indent, Styled, LinesOf, Member, Quoted;
    if k < |es| {
      var name := MemberName(es[k].key);
      GetNesting(es, Name(name));
      MemberNests(es, k);
      var indent, v, comma := Repeat(c.indentation, depth), Member(es, k), CommaBut(k + 1 == |es|);
      var head := Quoted(name, c.emitUtf8) + c.colonSymbol;
      OneComma();
      QuotedVisible(name, c.emitUtf8);
      ValueIsLines(c, v, depth, head, comma);
      MembersAreLines(c, es, k + 1, depth);
      BrokenConcat(c, LinesOf(c, v, depth, head, comma), MemberLines(c, es, k + 1, depth));
      Resume(Indent(c, indent), Quoted(name, c.emitUtf8), c.colonSymbol);
    }
  }

  lemma MemberNests(es: Entries, k: nat)
    requires k < |es|
    ensures Member(es, k) == Get(es, Name(MemberName(es[k].key)))
  {
  }

  // Splitting at newlines --------------------------------------------------------------------------

  // The lines of a text.
  function Split(s: bytes): (r: seq<bytes>)
    ensures r != []
  {
    if s == [] then [[]]
    else if s[0] == 0x0A then [[]] + Split(s[1..])
    else
      var r := Split(s[1..]);
      [[s[0]] + r[0]] + r[1..]
  }

  predicate Unbroken(s: bytes) { 0x0A !in s }

  lemma {:induction false} SplitLine(a: bytes, b: bytes)
    requires Unbroken(a)
    ensures Split(a) == [a] && Split(a + ([0x0A] + b)) == [a] + Split(b)
  {
    if a == [] {
      assert a + ([0x0A] + b) == [0x0A] + b && ([0x0A] + b)[1..] == b;
    } else {
      var s := a + ([0x0A] + b);
      assert s[0] == a[0] && s[1..] == a[1..] + ([0x0A] + b);
      SplitLine(a[1..], b);
      assert a == [a[0]] + a[1..];
    }
  }

  function AllRendered(c: Style, lines: seq<Line>): (r: seq<bytes>)
    ensures |r| == |lines| && forall k :: 0 <= k < |lines| ==> r[k] == Rendered(c, lines[k])
  {
    if lines == [] then [] else [Rendered(c, lines[0])] + AllRendered(c, lines[1..])
  }

  predicate AllUnbroken(lines: seq<Line>) { forall k :: 0 <= k < |lines| ==> Unbroken(lines[k].text) }

  lemma {:induction false} RepeatUnbroken(s: bytes, n: nat)
    requires Unbroken(s)
    ensures Unbroken(Repeat(s, n))
  {
    if n > 0 {
      RepeatUnbroken(s, n - 1);
    }
  }

  lemma {:induction false} SplitBroken(c: Style, lines: seq<Line>)
    requires lines != [] && AllUnbroken(lines) && Unbroken(c.indentation)
    ensures Split(Broken(c, lines)[1..]) == AllRendered(c, lines)
  {
    hide Split, Repeat;
    var first, rest := Rendered(c, lines[0]), lines[1..];
    RepeatUnbroken(c.indentation, lines[0].depth);
    assert Unbroken(first);
    assert Broken(c, lines)[1..] == first + Broken(c, rest);
    if rest == [] {
      SplitLine(first, []);
      assert first + Broken(c, rest) == first;
    } else {
      SplitBroken(c, rest);
      var more := Broken(c, rest);
      assert more == [0x0A] + more[1..];
      SplitLine(first, more[1..]);
    }
  }

  // No newline is written but at the ends of lines --------------------------------------------------

  // The symbols, the indentation and the texts of numbers contain no newline.
  ghost predicate Tame(c: Style) {
    && Unbroken(c.indentation) && Unbroken(c.colonSymbol) && Unbroken(c.nullSymbol)
    && Unbroken(c.endingLineFeedSymbol) && forall d: Double :: Unbroken(c.printDouble(d))
  }

  lemma IntegerUnbroken(i: int)
    ensures Unbroken(IntText(i))
  {
    hide IntText, IntegerNumeral, NumeralText, GoodNumeral;
    IntegerIsNumeral(i);
    NumeralVisible(IntegerNumeral(i));
  }

  lemma InlineUnbroken(c: Style, v: Value)
    requires Tame(c)
    ensures Unbroken(Inline(c, v))
  {
    hide Quoted, IntText;
    match v.p
    case Int(i) => IntegerUnbroken(i);
    case UInt(u) => IntegerUnbroken(u);
    case Str(s) => QuotedVisible(s, c.emitUtf8);
    case _ =>
  }

  lemma {:induction false} ListingUnbroken(c: Style, es: Entries, index: nat)
    requires Tame(c)
    ensures Unbroken(Listing(c, es, index))
    decreases ArraySize(es) - index
  {
    hide Inline, Element;
    if index < ArraySize(es) {
      InlineUnbroken(c, Element(es, index));
      if index + 1 < ArraySize(es) {
        ListingUnbroken(c, es, index + 1);
      }
    }
  }

  lemma OnOneLineUnbroken(c: Style, v: Value)
    requires Tame(c) && !Tall(c, v)
    ensures Unbroken(OnOneLine(c, v))
  {
    hide Inline, Listing;
    if Flat(v) {
      InlineUnbroken(c, v);
    } else {
      ListingUnbroken(c, v.p.entries, 0);
    }
  }

  lemma {:induction false} LinesUnbroken(c: Style, v: Value, depth: nat, head: bytes, tail: bytes)
    requires Tame(c) && Unbroken(head) && Unbroken(tail)
    ensures AllUnbroken(LinesOf(c, v, depth, head, tail))
    decreases Nesting(v), 1, 0
  {
    hide Tame, OnOneLine, MultiLine, MemberLines, ElementLines;
    if !Tall(c, v) {
      OnOneLineUnbroken(c, v);
    } else if v.p.Obj? {
      MembersUnbroken(c, v.p.entries, 0, depth + 1);
    } else {
      ElementsUnbroken(c, v.p.entries, 0, depth + 1);
    }
  }

  lemma {:induction false} ElementsUnbroken(c: Style, es: Entries, index: nat, depth: nat)
    requires Tame(c)
    ensures AllUnbroken(ElementLines(c, es, index, depth))
    decreases 1 + ItemsNesting(es), 0, ArraySize(es) - index
  {
    hide Tame, LinesOf, Element;
    if index < ArraySize(es) {
      GetNesting(es, Index(index));
      ElementNests(es, index);
      LinesUnbroken(c, Element(es, index), depth, [], CommaBut(index + 1 == ArraySize(es)));
      ElementsUnbroken(c, es, index + 1, depth);
    }
  }

  lemma ElementNests(es: Entries, index: nat)
    ensures Element(es, index) == Get(es, Index(index))
  {
  }

  lemma {:induction false} MembersUnbroken(c: Style, es: Entries, k: nat, depth: nat)
    requires Tame(c)
    ensures AllUnbroken(MemberLines(c, es, k, depth))
    decreases 1 + ItemsNesting(es), 0, |es| - k
  {
    hide LinesOf, Member, Quoted;
    if k < |es| {
      var name := MemberName(es[k].key);
      GetNesting(es, Name(name));
      MemberNests(es, k);
      QuotedVisible(name, c.emitUtf8);
      LinesUnbroken(c, Member(es, k), depth, Quoted(name, c.emitUtf8) + c.colonSymbol, CommaBut(k + 1 == |es|));
      MembersUnbroken(c, es, k + 1, depth);
    }
  }

  /** With an indentation, a document consists of the lines of its value, each indented once for every
      container that is open there, and of no other lines. */
  lemma DocumentLines(c: Style, v: Value)
    requires c.indentation != [] && Tame(c)
    ensures var lines := LinesOf(c, v, 0, [], c.endingLineFeedSymbol);
            Split(StyledDocument(c, v)) == AllRendered(c, lines)
  {
    hide Tame, Split, Styled, LinesOf, AllRendered, AllUnbroken;
    var lines := LinesOf(c, v, 0, [], c.endingLineFeedSymbol);
    ValueIsLines(c, v, 0, [], c.endingLineFeedSymbol);
    TameParts(c);
    LinesUnbroken(c, v, 0, [], c.endingLineFeedSymbol);
    assert Broken(c, lines) == [0x0A] + StyledDocument(c, v) by {
      assert [0x0A] + [] + [] == [0x0A];
    }
    SplitBroken(c, lines);
  }

  lemma TameParts(c: Style)
    requires Tame(c)
    ensures Unbroken(c.indentation) && Unbroken(c.endingLineFeedSymbol) && Unbroken([])
  {
  }

  // How deep a line stands -------------------------------------------------------------------------

  predicate Opens(text: bytes) { text == [0x5B] || text == [0x7B] }

  predicate Closes(text: bytes) { text != [] && (text[0] == 0x5D || text[0] == 0x7D) }

  // The number of containers open behind a line that stands where some are.
  function OpenBehind(open: int, text: bytes): int {
    open - (if Closes(text) then 1 else 0) + if Opens(text) then 1 else 0
  }

  // Each line is indented as many times as containers are open there: one that closes a container
  // as often as the line that opened it.
  predicate Balanced(lines: seq<Line>, open: int) {
    lines != [] ==>
      && lines[0].depth == open - (if Closes(lines[0].text) then 1 else 0)
      && Balanced(lines[1..], OpenBehind(open, lines[0].text))
  }

  // Neither an opening nor a closing line.
  predicate Inert(text: bytes) { !Opens(text) && !Closes(text) }

  lemma BalancedOne(depth: nat, text: bytes, rest: seq<Line>, open: int)
    requires depth == open - if Closes(text) then 1 else 0
    ensures Balanced([Line(depth, text)] + rest, open) <==> Balanced(rest, OpenBehind(open, text))
  {
    assert ([Line(depth, text)] + rest)[1..] == rest;
  }

  // A name and a colon begin with a quotation mark.
  lemma HeadInert(name: bytes, e: bool, more: bytes)
    ensures Inert(Quoted(name, e) + more)
  {
    hide CharsOf, Quoted, GoodChars, Spelled, Unescaped;
    QuotedIsString(name, e);
  }

  lemma InlineInert(c: Style, v: Value, tail: bytes)
    requires !v.p.Real? && Flat(v) && Inert(c.nullSymbol + tail)
    ensures Inert(Inline(c, v) + tail)
  {
    hide Quoted, IntText;
    match v.p
    case Int(i) => NumberInert(i, tail);
    case UInt(u) => NumberInert(u, tail);
    case Str(s) => HeadInert(s, c.emitUtf8, tail);
    case _ =>
  }

  lemma NumberInert(i: int, tail: bytes)
    ensures Inert(IntText(i) + tail)
  {
    hide IntegerNumeral;
    IntegerIsNumeral(i);
    var n := IntegerNumeral(i);
    assert n.whole != [] && Digit(n.whole[0]);
    assert IntText(i)[0] == if i < 0 then MINUS else n.whole[0];
    assert (IntText(i) + tail)[0] == IntText(i)[0];
  }

  lemma OneLineInert(c: Style, v: Value, head: bytes, tail: bytes)
    requires !v.p.Real? && !Tall(c, v) && Inert(c.nullSymbol + tail) && (head == [] || head[0] == 0x22)
    ensures Inert(head + OnOneLine(c, v) + tail)
  {
    hide Inline, Listing, Flat, MultiLine;
    if head == [] {
      assert head + OnOneLine(c, v) + tail == OnOneLine(c, v) + tail;
      if Flat(v) {
        InlineInert(c, v, tail);
      } else {
        assert (OnOneLine(c, v) + tail)[0] == 0x5B && (OnOneLine(c, v) + tail)[1] == 0x20;
      }
    } else {
      assert (head + OnOneLine(c, v) + tail)[0] == 0x22;
    }
  }

  lemma GetPrintable(es: Entries, key: CZString, e: bool)
    requires AllPrintable(es, e)
    ensures Printable(Get(es, key), e)
  {
    if Has(es, key) {
      PrintableAt(es, LowerBound(es, key), e);
    }
  }

  // Lines that leave as many containers open as there were, whatever comes behind them.
  lemma {:induction false} LinesBalanced(c: Style, v: Value, depth: nat, head: bytes, tail: bytes, rest: seq<Line>)
    requires Printable(v, c.emitUtf8) && Inert(c.nullSymbol + tail) && (head == [] || head[0] == 0x22)
    requires Inert(c.nullSymbol) && Inert(c.nullSymbol + [0x2C])
    ensures Balanced(LinesOf(c, v, depth, head, tail) + rest, depth) <==> Balanced(rest, depth)
    decreases Nesting(v), 1, 0
  {
    hide Balanced, OnOneLine, MultiLine, MemberLines, ElementLines, Ascii, Inline;
    if !Tall(c, v) {
      OneLineInert(c, v, head, tail);
      BalancedOne(depth, head + OnOneLine(c, v) + tail, rest, depth);
      return;
    }
    Brackets();
    var open, close := Ascii(if v.p.Obj? then "{" else "["), Ascii(if v.p.Obj? then "}" else "]") + tail;
    var body := if v.p.Obj? then MemberLines(c, v.p.entries, 0, depth + 1)
                else ElementLines(c, v.p.entries, 0, depth + 1);
    var end := [Line(depth, close)] + rest;
    if v.p.Obj? {
      MembersBalanced(c, v.p.entries, 0, depth + 1, end);
    } else {
      ElementsBalanced(c, v.p.entries, 0, depth + 1, end);
    }
    Bracketed(depth, head, open, body, close, rest);
  }

  lemma Bracketed(depth: nat, head: bytes, open: bytes, body: seq<Line>, close: bytes, rest: seq<Line>)
    requires Opens(open) && Closes(close) && !Opens(close) && !Closes(open) && (head == [] || head[0] == 0x22)
    requires var end := [Line(depth, close)] + rest; Balanced(body + end, depth + 1) <==> Balanced(end, depth + 1)
    ensures var lines := (if head == [] then [] else [Line(depth, head)]) + [Line(depth, open)] + body
                         + [Line(depth, close)];
            Balanced(lines + rest, depth) <==> Balanced(rest, depth)
  {
    hide Balanced;
    var end := [Line(depth, close)] + rest;
    BalancedOne(depth, close, rest, depth + 1);
    BalancedOne(depth, open, body + end, depth);
    var inner := [Line(depth, open)] + (body + end);
    if head == [] {
      assert [] + [Line(depth, open)] + body + [Line(depth, close)] + rest == inner;
    } else {
      BalancedOne(depth, head, inner, depth);
      assert [Line(depth, head)] + [Line(depth, open)] + body + [Line(depth, close)] + rest
             == [Line(depth, head)] + inner;
    }
  }

  lemma Brackets()
    ensures Opens(Ascii("{")) && Opens(Ascii("[")) && !Closes(Ascii("{")) && !Closes(Ascii("["))
    ensures Ascii("}") == [0x7D] && Ascii("]") == [0x5D]
    ensures forall tail: bytes :: Closes([0x7D] + tail) && Closes([0x5D] + tail)
    ensures forall tail: bytes :: !Opens([0x7D] + tail) && !Opens([0x5D] + tail)
  {
  }

  lemma {:induction false} ElementsBalanced(c: Style, es: Entries, index: nat, depth: nat, rest: seq<Line>)
    requires AllPrintable(es, c.emitUtf8) && Inert(c.nullSymbol) && Inert(c.nullSymbol + [0x2C])
    ensures Balanced(ElementLines(c, es, index, depth) + rest, depth) <==> Balanced(rest, depth)
    decreases 1 + ItemsNesting(es), 0, ArraySize(es) - index
  {
    hide Balanced, LinesOf, Element, Inert;
    if index < ArraySize(es) {
      GetNesting(es, Index(index));
      ElementNests(es, index);
      GetPrintable(es, Index(index), c.emitUtf8);
      var comma, more := CommaBut(index + 1 == ArraySize(es)), ElementLines(c, es, index + 1, depth);
      OneComma();
      assert c.nullSymbol + [] == c.nullSymbol;
      LinesBalanced(c, Element(es, index), depth, [], comma, more + rest);
      ElementsBalanced(c, es, index + 1, depth, rest);
      Resume(LinesOf(c, Element(es, index), depth, [], comma), more, rest);
    } else {
      assert ElementLines(c, es, index, depth) + rest == rest;
    }
  }

  lemma {:induction false} MembersBalanced(c: Style, es: Entries, k: nat, depth: nat, rest: seq<Line>)
    requires AllPrintable(es, c.emitUtf8) && Inert(c.nullSymbol) && Inert(c.nullSymbol + [0x2C])
    ensures Balanced(MemberLines(c, es, k, depth) + rest, depth) <==> Balanced(rest, depth)
    decreases 1 + ItemsNesting(es), 0, |es| - k
  {
    hide Balanced, LinesOf, Member, Inert, Quoted;
    if k < |es| {
      var name := MemberName(es[k].key);
      GetNesting(es, Name(name));
      MemberNests(es, k);
      GetPrintable(es, Name(name), c.emitUtf8);
      var head, comma := Quoted(name, c.emitUtf8) + c.colonSymbol, CommaBut(k + 1 == |es|);
      var more := MemberLines(c, es, k + 1, depth);
      OneComma();
      assert c.nullSymbol + [] == c.nullSymbol;
      QuotedFirst(name, c.emitUtf8);
      LinesBalanced(c, Member(es, k), depth, head, comma, more + rest);
      MembersBalanced(c, es, k + 1, depth, rest);
      Resume(LinesOf(c, Member(es, k), depth, head, comma), more, rest);
    } else {
      assert MemberLines(c, es, k, depth) + rest == rest;
    }
  }

  lemma QuotedFirst(s: bytes, e: bool)
    ensures |Quoted(s, e)| >= 2 && Quoted(s, e)[0] == 0x22
  {
    hide CharsOf, Quoted, GoodChars, Spelled, Unescaped;
    QuotedIsString(s, e);
  }

  /** In a document each line is indented once for every container that an earlier line has opened and
      none has closed. */
  lemma DocumentBalanced(c: Style, v: Value)
    requires Printable(v, c.emitUtf8) && (c.nullSymbol == NULL_TEXT || c.nullSymbol == [])
    requires c.endingLineFeedSymbol == []
    ensures Balanced(LinesOf(c, v, 0, [], c.endingLineFeedSymbol), 0)
  {
    hide Printable, LinesOf;
    assert [] + [0x2C] == [0x2C] && (NULL_TEXT + [0x2C])[0] == 0x6E;
    assert c.nullSymbol + [] == c.nullSymbol;
    LinesBalanced(c, v, 0, [], [], []);
    assert LinesOf(c, v, 0, [], []) + [] == LinesOf(c, v, 0, [], []);
  }

  // When an array stays on one line ----------------------------------------------------------------

  lemma {:induction false} ListingLength(c: Style, es: Entries, index: nat)
    requires index < ArraySize(es)
    ensures |Listing(c, es, index)| + InlineLength(c, es, index)
         == InlineLength(c, es, ArraySize(es)) + 2 * (ArraySize(es) - 1 - index)
    decreases ArraySize(es) - index
  {
    hide Inline, Element;
    if index + 1 < ArraySize(es) {
      ListingLength(c, es, index + 1);
    }
  }

  /** An array that is not empty goes over several lines if and only if all comments are kept, a third of
      74 or more are its elements, one of these is an object or an array that is not empty, or it would
      take 74 bytes or more on one line. (The numbers involved wrap around at 2^32.) */
  lemma MultiLineExactly(c: Style, es: Entries)
    requires 0 < ArraySize(es) && ArraySize(es) * 3 < 4294967296
    requires |Ascii("[ ") + Listing(c, es, 0) + Ascii(" ]")| < 4294967296
    ensures MultiLine(c, es) <==>
              || c.cs == AllComments
              || ArraySize(es) * 3 >= 74
              || (exists k: nat :: k < ArraySize(es) && Full(Element(es, k)))
              || |Ascii("[ ") + Listing(c, es, 0) + Ascii(" ]")| >= 74
  {
    hide Element, Listing, Inline, Flat, Full, ArraySize;
    ListingLength(c, es, 0);
    forall k: nat ensures Full(Element(es, k)) <==> !Flat(Element(es, k)) {
      FullOrFlat(Element(es, k));
    }
  }

  lemma FullOrFlat(v: Value)
    ensures Full(v) <==> !Flat(v)
  {
  }

  // An object or an array that is not empty.
  predicate Full(v: Value) {
    (v.p.Arr? && ArraySize(v.p.entries) > 0) || (v.p.Obj? && v.p.entries != [])
  }
}
