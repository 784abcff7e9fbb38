/** Printing and reading, end to end. */
module RoundTrip {
  import opened Bytes
  import opened Numbers
  import opened Utf8
  import opened QuoteRoundTrip
  import opened JsonValue
  import opened Lexer
  import opened Parser
  import opened Tokens
  import opened Grammar
  import opened GrammarCorrect
  import opened PrintedValues
  import opened PrintedTrees
  import opened Texts
  import opened FastWriterModel
  import opened FastLayout
  import opened StyledWriterModel
  import opened StyledLayout

  /** Any document that is a layout of a printable value's tokens is parsed as that value, with no
      error, if the stack limit admits its nesting and, where the root must be one, the value is an
      array or an object; a value that nests more deeply makes the reader throw. */
  lemma LayoutIsParsed(f: Features, doc: bytes, was: Value, v: Value, e: bool)
    requires Printable(v, e) && Spells(doc, ValueToks(v, e))
    ensures var o := Parse(f, doc, was);
            && (o.Done? && o.ok <==> Nesting(v) <= f.stackLimit && (f.strictRoot ==> v.p.Arr? || v.p.Obj?))
            && (o.Done? && o.ok ==> o.errors == [] && Bare(o.value) == Canonical(v, e))
            && (o == Thrown(StackLimitExceeded) <==> Nesting(v) > f.stackLimit)
  {
    hide ValueToks, Toks, Spells, Document, Parse, TreeOf, Readable, VerdictOf, Meaning, Bare, Nesting, Depth, Clear,
         Printable;
    TreeIsReadable(v, e);
    TreeToks(v, e);
    TreeMeaning(f, v, e);
    VerdictExactly(f, TreeOf(v, e), 1);
    SpelledText(f, doc, TreeOf(v, e));
    TextIsParsed(f, doc, was, TreeOf(v, e));
    AcceptedExactly(f, doc, was, TreeOf(v, e));
    SimpleTree(v, e);
  }

  lemma SimpleTree(v: Value, e: bool)
    requires Printable(v, e)
    ensures Simple(TreeOf(v, e)) <==> !v.p.Arr? && !v.p.Obj?
  {
  }

  lemma FastDocumentLays(c: FastStyle, v: Value)
    requires Printable(v, false) && !c.dropNull
    ensures Lays(FastDocument(c, v), ValueToks(v, false))
  {
    hide Lays, Fast, ValueToks, Printable;
    FastLays(c, v);
    if !c.omitLineFeed {
      LaysSpace([0x0A]);
      Join(Fast(c, v), ValueToks(v, false), [0x0A], []);
      assert ValueToks(v, false) + [] == ValueToks(v, false);
    } else {
      assert Fast(c, v) + [] == Fast(c, v);
    }
  }

  /** Parsing what FastWriter wrote gives back the tree. */
  lemma {:induction false} FastRoundTrip(f: Features, c: FastStyle, v: Value, was: Value)
    requires Printable(v, false) && !c.dropNull
    requires Nesting(v) <= f.stackLimit && (f.strictRoot ==> v.p.Arr? || v.p.Obj?)
    ensures var o := Parse(f, FastDocument(c, v), was);
            o.Done? && o.ok && o.errors == [] && Bare(o.value) == Canonical(v, false)
  {
    hide Parse, FastDocument, Printable, Spells;
    FastDocumentLays(c, v);
    LayoutIsParsed(f, FastDocument(c, v), was, v, false);
  }

  // Every string of the value, and every name, is valid UTF-8.
  predicate ValidStrings(v: Value)
    decreases v, 1
  {
    && (v.p.Str? ==> ValidUtf8(v.p.s))
    && (v.p.Arr? || v.p.Obj? ==> AllValidStrings(v.p.entries))
  }

  predicate AllValidStrings(es: Entries)
    decreases es, 0
  {
    es != [] ==> EntryValidStrings(es[0]) && AllValidStrings(es[1..])
  }

  predicate EntryValidStrings(en: Entry)
    decreases en, 2
  {
    ValidStrings(en.val)
  }

  // The tree as printed: unsigned integers that fit read as signed, nothing else changed.
  function Signed(v: Value): Value
    decreases v, 1
  {
    match v.p
    case UInt(u) => Value(if u <= MAX_INT64 then Int(u) else UInt(u), 0, 0)
    case Arr(es) => Value(Arr(SignedItems(es)), 0, 0)
    case Obj(es) => Value(Obj(SignedItems(es)), 0, 0)
    case _ => Value(v.p, 0, 0)
  }

  function SignedItems(es: Entries): Entries
    decreases es, 0
  {
    if es == [] then [] else [SignedEntry(es[0])] + SignedItems(es[1..])
  }

  function SignedEntry(en: Entry): Entry
    decreases en, 2
  {
    Entry(en.key, Signed(en.val))
  }

  /** With valid UTF-8 strings nothing is lost: only the tag of small unsigned integers changes. */
  lemma {:induction false} CanonicalOfValid(v: Value)
    requires ValidStrings(v)
    ensures Canonical(v, false) == Signed(v)
    decreases v, 1
  {
    if v.p.Str? {
      ValidIsKept(v.p.s);
    } else if v.p.Arr? || v.p.Obj? {
      CanonicalItemsOfValid(v.p.entries);
    }
  }

  lemma {:induction false} CanonicalItemsOfValid(es: Entries)
    requires AllValidStrings(es)
    ensures CanonicalItems(es, false) == SignedItems(es)
    decreases es, 0
  {
    if es != [] {
      CanonicalEntryOfValid(es[0]);
      CanonicalItemsOfValid(es[1..]);
    }
  }

  lemma {:induction false} CanonicalEntryOfValid(en: Entry)
    requires EntryValidStrings(en)
    ensures CanonicalEntry(en, false) == SignedEntry(en)
    decreases en, 2
  {
    CanonicalOfValid(en.val);
  }

  /** The round trip of the service: replies of FastWriter, read with the default settings. */
  lemma DefaultRoundTrip(parseDouble: bytes -> Option<Double>, printDouble: Double -> bytes, v: Value)
    requires Printable(v, false) && ValidStrings(v) && Nesting(v) <= 1000
    ensures var o := Parse(DefaultFeatures(parseDouble, printDouble),
                           FastDocument(FastStyle(false, false, false, printDouble), v), NullValue);
            o.Done? && o.ok && o.errors == [] && Bare(o.value) == Signed(v)
  {
    hide Parse, FastDocument, Printable;
    FastRoundTrip(DefaultFeatures(parseDouble, printDouble), FastStyle(false, false, false, printDouble), v, NullValue);
    CanonicalOfValid(v);
  }

  // Token sequences -----------------------------------------------------------------------------

  /** A layout of a printable value's tokens lexes to exactly those tokens. */
  lemma LayoutTokens(f: Features, doc: bytes, v: Value, e: bool)
    requires Printable(v, e) && Spells(doc, ValueToks(v, e))
    ensures TokensOf(f, doc, 0) == ValueToks(v, e)
  {
    hide ValueToks, Toks, Spells, TokensOf, Printable, Readable, TreeOf;
    TreeIsReadable(v, e);
    TreeToks(v, e);
    TextTokens(f, doc, TreeOf(v, e));
  }

  /** Layout does not change meaning: with ASCII quoting, the indented document has the very
      tokens of the one on a single line ... */
  lemma SameTokens(f: Features, styled: Style, fast: FastStyle, v: Value)
    requires Printable(v, false) && Neat(styled) && !styled.emitUtf8 && !fast.dropNull
    ensures TokensOf(f, StyledDocument(styled, v), 0) == TokensOf(f, FastDocument(fast, v), 0)
  {
    hide Printable, TokensOf, StyledDocument, FastDocument, Spells, Neat;
    StyledDocumentLays(styled, v);
    FastDocumentLays(fast, v);
    LayoutTokens(f, StyledDocument(styled, v), v, false);
    LayoutTokens(f, FastDocument(fast, v), v, false);
  }

  /** ... and in either quoting mode it is read back as the tree. */
  lemma StyledRoundTrip(f: Features, c: Style, v: Value, was: Value)
    requires Printable(v, c.emitUtf8) && Neat(c)
    requires Nesting(v) <= f.stackLimit && (f.strictRoot ==> v.p.Arr? || v.p.Obj?)
    ensures var o := Parse(f, StyledDocument(c, v), was);
            o.Done? && o.ok && o.errors == [] && Bare(o.value) == Canonical(v, c.emitUtf8)
  {
    hide Parse, StyledDocument, Printable, Spells, Neat;
    StyledDocumentLays(c, v);
    LayoutIsParsed(f, StyledDocument(c, v), was, v, c.emitUtf8);
  }

  /** The round trip of the test client: requests of StreamWriterBuilder, read by the server. */
  lemma RequestRoundTrip(parseDouble: bytes -> Option<Double>, printDouble: Double -> bytes, v: Value)
    requires Printable(v, false) && ValidStrings(v) && Nesting(v) <= 1000
    ensures var c := NewStreamWriter([0x09], AllComments, false, false, false, printDouble);
            var o := Parse(DefaultFeatures(parseDouble, printDouble), StyledDocument(c, v), NullValue);
            o.Done? && o.ok && o.errors == [] && Bare(o.value) == Signed(v)
  {
    hide Parse, StyledDocument, Printable, Neat;
    BuilderIsNeat([0x09], AllComments, false, false, printDouble);
    StyledRoundTrip(DefaultFeatures(parseDouble, printDouble),
                    NewStreamWriter([0x09], AllComments, false, false, false, printDouble), v, NullValue);
    CanonicalOfValid(v);
  }
}
