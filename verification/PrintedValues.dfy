/** What a printed value consists of: its tokens, and what reading them must give back. */
module PrintedValues {
  import opened Bytes
  import opened Numbers
  import opened Utf8
  import opened Quoting
  import opened QuoteRoundTrip
  import opened JsonValue
  import opened Lexer
  import opened Parser
  import opened Tokens
  import opened Grammar

  function StringTok(s: bytes, e: bool): Tok { Tok(StringToken, Quoted(s, e)) }

  // The tokens of a value, with its strings quoted in mode e. (Reals are not covered.)
  function ValueToks(v: Value, e: bool): seq<Tok>
    decreases v, 1
  {
    match v.p
    case Null => [NULL_TOK]
    case Int(i) => [Tok(NumberToken, IntText(i))]
    case UInt(u) => [Tok(NumberToken, IntText(u))]
    case Real(_) => []
    case Str(s) => [StringTok(s, e)]
    case Bool(b) => [if b then TRUE_TOK else FALSE_TOK]
    case Arr(es) => [OPEN_ARRAY] + ItemToks(es, e) + [CLOSE_ARRAY]
    case Obj(es) => [OPEN_OBJECT] + ItemToks(es, e) + [CLOSE_OBJECT]
  }

  // Elements or members, separated by commas.
  function ItemToks(es: Entries, e: bool): seq<Tok>
    decreases es, 0
  {
    if es == [] then []
    else EntryToks(es[0], e) + (if |es| == 1 then [] else [COMMA] + ItemToks(es[1..], e))
  }

  function EntryToks(en: Entry, e: bool): seq<Tok>
    decreases en, 2
  {
    (if en.key.Name? then [StringTok(en.key.s, e), COLON] else []) + ValueToks(en.val, e)
  }

  /** The values the round trip is stated for: no reals, integers that fit their type, arrays
      without gaps, names shorter than 2^30 and, when quoted as ASCII, valid UTF-8. */
  predicate Printable(v: Value, e: bool)
    decreases v, 1
  {
    match v.p
    case Null => true
    case Int(i) => MIN_INT64 <= i <= MAX_INT64
    case UInt(u) => 0 <= u <= MAX_UINT64
    case Real(_) => false
    case Str(_) => true
    case Bool(_) => true
    case Arr(es) => Dense(es) && AllPrintable(es, e)
    case Obj(es) =>
      && Sorted(es) && AllPrintable(es, e)
      && forall k :: 0 <= k < |es| ==> GoodName(es[k].key, e)
  }

  predicate GoodName(key: CZString, e: bool) {
    key.Name? && |key.s| < KEY_LIMIT && (e || ValidUtf8(key.s))
  }

  predicate AllPrintable(es: Entries, e: bool)
    decreases es, 0
  {
    es != [] ==> EntryPrintable(es[0], e) && AllPrintable(es[1..], e)
  }

  predicate EntryPrintable(en: Entry, e: bool)
    decreases en, 2
  {
    Printable(en.val, e)
  }

  /** What comes back: the same tree, except that an unsigned integer that fits is signed, and
      that a string quoted as ASCII comes back sanitized (unchanged if it is valid UTF-8). */
  function Canonical(v: Value, e: bool): Value
    decreases v, 1
  {
    match v.p
    case UInt(u) => Value(if u <= MAX_INT64 then Int(u) else UInt(u), 0, 0)
    case Str(s) => Value(Str(if e then s else Sanitized(s)), 0, 0)
    case Arr(es) => Value(Arr(CanonicalItems(es, e)), 0, 0)
    case Obj(es) => Value(Obj(CanonicalItems(es, e)), 0, 0)
    case _ => Value(v.p, 0, 0)
  }

  function CanonicalItems(es: Entries, e: bool): Entries
    decreases es, 0
  {
    if es == [] then [] else [CanonicalEntry(es[0], e)] + CanonicalItems(es[1..], e)
  }

  function CanonicalEntry(en: Entry, e: bool): Entry
    decreases en, 2
  {
    Entry(en.key, Canonical(en.val, e))
  }

  lemma {:induction false} PrintableAt(es: Entries, k: nat, e: bool)
    requires AllPrintable(es, e) && k < |es|
    ensures Printable(es[k].val, e)
  {
    if k > 0 {
      PrintableAt(es[1..], k - 1, e);
    } else {
      assert EntryPrintable(es[0], e);
    }
  }

  // Token texts are not empty and do not begin with white space.
  ghost predicate Solid(toks: seq<Tok>) {
    forall t | t in toks :: t.text != [] && !Space(t.text[0])
  }

  // A list of items from position k on, with the comma before it when it is not at the front.
  function ItemsFrom(es: Entries, k: nat, e: bool): seq<Tok>
    requires k <= |es|
  {
    if k == |es| then [] else (if k > 0 then [COMMA] else []) + ItemToks(es[k..], e)
  }

  lemma ItemToksStep(es: Entries, e: bool)
    requires es != []
    ensures ItemToks(es, e) == EntryToks(es[0], e) + if es[1..] == [] then [] else [COMMA] + ItemToks(es[1..], e)
  {
    hide EntryToks;
  }

  lemma ItemsFromStep(es: Entries, k: nat, e: bool)
    requires k < |es|
    ensures ItemsFrom(es, k, e) == (if k > 0 then [COMMA] else []) + EntryToks(es[k], e) + ItemsFrom(es, k + 1, e)
    ensures ItemsFrom(es, 0, e) == ItemToks(es, e)
  {
    hide EntryToks;
    assert es[k..][1..] == es[k + 1..] && es[0..] == es;
    assert es[k..][0] == es[k];
    ItemToksStep(es[k..], e);
    Resume(if k > 0 then [COMMA] else [], EntryToks(es[k], e), ItemsFrom(es, k + 1, e));
  }

  // Integers are within the ranges of the types that hold them.
  predicate IntegersFit(v: Value)
    decreases v, 1
  {
    && (v.p.Int? ==> MIN_INT64 <= v.p.i <= MAX_INT64)
    && (v.p.UInt? ==> 0 <= v.p.u <= MAX_UINT64)
    && (v.p.Arr? || v.p.Obj? ==> AllIntegersFit(v.p.entries))
  }

  predicate AllIntegersFit(es: Entries)
    decreases es, 0
  {
    es != [] ==> EntryIntegersFit(es[0]) && AllIntegersFit(es[1..])
  }

  predicate EntryIntegersFit(en: Entry)
    decreases en, 2
  {
    IntegersFit(en.val)
  }

  lemma {:induction false} FitAt(es: Entries, k: nat)
    requires AllIntegersFit(es) && k < |es|
    ensures IntegersFit(es[k].val)
  {
    if k > 0 {
      FitAt(es[1..], k - 1);
    } else {
      assert EntryIntegersFit(es[0]);
    }
  }

  lemma GetFits(es: Entries, key: CZString)
    requires AllIntegersFit(es)
    ensures IntegersFit(Get(es, key))
  {
    if Has(es, key) {
      FitAt(es, LowerBound(es, key));
    }
  }
}
