/** The offsets a successful parse records. */
module Offsets {
  import opened Bytes
  import opened JsonValue
  import opened Lexer
  import opened Parser
  import opened Window

  // The text [start, limit) of a value, read by itself from its first byte into any value, is
  // consumed to the end and gives that same value, its offsets counted from there.
  ghost predicate ReadsAlone(f: Features, doc: bytes, v: Value) {
    && 0 <= v.start < v.limit <= |doc|
    && forall was: Value ::
         ReadValue(f, doc[v.start..v.limit], 0, 1, was) == Done(Moved(v, v.start), v.limit - v.start, [], true)
  }

  // A null where a value was dropped: its recorded text is the byte before the token that stands in
  // its place (which may even lie before the document).
  predicate Placeholder(v: Value) { v.p.Null? && v.limit == v.start + 1 }

  predicate EndsDropped(c: byte) { c == 0x2C || c == 0x7D || c == 0x5D }

  // Where the token of a value begins.
  function Place(v: Value): int { if Placeholder(v) then v.limit else v.start }

  /** A value and all values in it: texts nest and do not overlap, the elements of an array stand one
      after the other with keys 0, 1, ..., and every text reads alone; but a placeholder is followed
      by the separator or bracket it was read at. */
  ghost predicate Anchored(f: Features, doc: bytes, v: Value)
    decreases v, 0
  {
    if Placeholder(v) then f.allowDroppedNullPlaceholders && 0 <= v.limit < |doc| && EndsDropped(doc[v.limit])
    else
      && ReadsAlone(f, doc, v)
      && (v.p.Arr? || v.p.Obj? ==> Inside(f, doc, v.p.entries, v.start, v.limit - 1))
      && (v.p.Arr? ==> InTurn(v.p.entries))
  }

  // The values of a map, each anchored, with texts apart from one another and between lo and hi (lo
  // itself can only be the byte of a placeholder).
  ghost predicate Inside(f: Features, doc: bytes, es: Entries, lo: int, hi: int)
    decreases es, 0
  {
    && Spread(es)
    && forall k :: 0 <= k < |es| ==> lo < Place(es[k].val) && es[k].val.limit <= hi && EntryAnchored(f, doc, es[k])
  }

  ghost predicate EntryAnchored(f: Features, doc: bytes, en: Entry)
    decreases en, 0
  {
    Anchored(f, doc, en.val)
  }

  // The texts of two values do not overlap.
  predicate Apart(v: Value, w: Value) { v.limit <= w.start || w.limit <= v.start }

  predicate Spread(es: Entries) {
    forall j, k :: 0 <= j < k < |es| ==> Apart(es[j].val, es[k].val)
  }

  predicate InTurn(es: Entries) {
    && Dense(es)
    && forall j, k :: 0 <= j < k < |es| ==>
                        es[j].val.limit <= es[k].val.start && es[j].val.limit < Place(es[k].val)
  }

  /** The placeholders are exactly the values whose recorded text does not read alone. */
  lemma PlaceholderExactly(f: Features, doc: bytes, v: Value)
    requires Anchored(f, doc, v)
    ensures ReadsAlone(f, doc, v) <==> !Placeholder(v)
  {
    hide ReadValue, Inside, InTurn;
    if ReadsAlone(f, doc, v) && Placeholder(v) {
      NoShortNull(f, doc[v.start..v.limit], v);
    }
  }

  lemma NoShortNull(f: Features, s: bytes, v: Value)
    requires |s| == 1 && v.p.Null? && v.limit == v.start + 1
    ensures ReadValue(f, s, 0, 1, NullValue) != Done(Moved(v, v.start), 1, [], true)
  {
    hide ValueToken, TokenScalar, ReadMembers, ReadElements, Text;
    if ValueWithin(ReadValue(f, s, 0, 1, NullValue), |s|) {
      ValuePlace(f, s, 0, 1, NullValue);
    }
  }

  // Reading starts at the value's token ---------------------------------------------------------

  lemma {:induction false} NextAgain(f: Features, doc: bytes, i: nat)
    requires i <= |doc|
    ensures var t := NextToken(f, doc, i); NextToken(f, doc, t.start) == t
    decreases |doc| - i
  {
    hide Lexer.ReadToken, NextToken;
    NextOnce(f, doc, i);
    var t := ReadToken(f, doc, i);
    if t.kind == Comment {
      NextAgain(f, doc, t.end);
    } else {
      TokenAgain(f, doc, i);
      NextOnce(f, doc, t.start);
    }
  }

  lemma FromItsToken(f: Features, doc: bytes, i: nat, depth: nat, was: Value)
    requires i <= |doc|
    ensures var t := ValueToken(f, doc, i);
            ReadValue(f, doc, t.start, depth, was) == ReadValue(f, doc, i, depth, was)
            && ValueToken(f, doc, t.start) == t
  {
    hide Lexer.ReadToken, NextToken, TokenScalar, ReadMembers, ReadElements;
    var t := ValueToken(f, doc, i);
    if f.allowComments {
      NextAgain(f, doc, i);
    } else {
      TokenAgain(f, doc, i);
    }
    assert ValueToken(f, doc, t.start) == t;
    hide ValueToken;
  }

  lemma PlainLexeme(f: Features, s: bytes)
    requires s != []
    ensures LexAt(f, s).kind == NullToken ==> LexAt(f, s).size == 4
    ensures LexAt(f, s).kind in {ArraySeparator, ObjectEnd, ArrayEnd} ==> EndsDropped(s[0])
  {
    hide BlockComment, LineComment, NumberRun;
    assert |NULL_REST| == 3;
  }

  lemma NullSize(f: Features, doc: bytes, i: nat)
    requires i <= |doc| && ValueToken(f, doc, i).kind == NullToken
    ensures var t := ValueToken(f, doc, i); t.end == t.start + 4
  {
    hide NextToken, LexAt, Spaces;
    ReadAgain(f, doc, i);
    var t := ValueToken(f, doc, i);
    TokenStart(f, doc, t.start);
    hide ValueToken;
    PlainLexeme(f, doc[t.start..]);
  }

  // Where a value that is read successfully stands.
  lemma ValuePlace(f: Features, doc: bytes, i: nat, depth: nat, was: Value)
    requires i <= |doc| && ValueWithin(ReadValue(f, doc, i, depth, was), |doc|)
    ensures var v, t := ReadValue(f, doc, i, depth, was).value, ValueToken(f, doc, i);
            && Place(v) == t.start && v.limit == ReadValue(f, doc, i, depth, was).cur
            && (Placeholder(v) <==> Dropped(f, t.kind))
            && (Placeholder(v) ==> v.limit == t.start < |doc| && EndsDropped(doc[v.limit]))
            && (!Placeholder(v) ==> v.start < v.limit && t.end <= v.limit)
  {
    hide ValueToken, TokenScalar, ReadMembers, ReadElements, Text;
    var t := ValueToken(f, doc, i);
    EndIsNoScalar(f, Text(doc, t));
    ValueEnds(f, doc, i, depth, was);
    if Dropped(f, t.kind) {
      PunctuationByte(f, doc, i);
    } else if t.kind == NullToken {
      NullSize(f, doc, i);
    } else {
      OnlyNullIsNull(f, t.kind, Text(doc, t));
    }
  }

  lemma PunctuationByte(f: Features, doc: bytes, i: nat)
    requires i <= |doc| && ValueToken(f, doc, i).kind in {ArraySeparator, ObjectEnd, ArrayEnd}
    ensures var t := ValueToken(f, doc, i); t.start < |doc| && EndsDropped(doc[t.start])
  {
    hide NextToken, LexAt, Spaces;
    ReadAgain(f, doc, i);
    var t := ValueToken(f, doc, i);
    TokenStart(f, doc, t.start);
    hide ValueToken;
    PlainLexeme(f, doc[t.start..]);
  }

  lemma OnlyNullIsNull(f: Features, kind: TokenType, text: bytes)
    requires kind != NullToken
    ensures TokenScalar(f, kind, text) != Scalar(Null)
  {
    hide NumberScalar, StringScalar;
  }

  lemma EndIsNoScalar(f: Features, text: bytes)
    ensures TokenScalar(f, EndOfStream, text).BadScalar?
  {
  }

  lemma ValueReadsAlone(f: Features, doc: bytes, i: nat, depth: nat, was: Value)
    requires i <= |doc| && depth >= 1 && ValueWithin(ReadValue(f, doc, i, depth, was), |doc|)
    requires !Placeholder(ReadValue(f, doc, i, depth, was).value)
    ensures ReadsAlone(f, doc, ReadValue(f, doc, i, depth, was).value)
  {
    hide ReadValue, Moved, ValueToken;
    var v := ReadValue(f, doc, i, depth, was).value;
    ValuePlace(f, doc, i, depth, was);
    FromItsToken(f, doc, i, depth, was);
    forall was': Value
      ensures ReadValue(f, doc[v.start..v.limit], 0, 1, was') == Done(Moved(v, v.start), v.limit - v.start, [], true)
    {
      ValueInWindow(f, doc, doc[v.start..v.limit], v.start, v.limit, v.start, depth, was, 1, was');
    }
  }

  // Containers ----------------------------------------------------------------------------------

  lemma InsideWider(f: Features, doc: bytes, es: Entries, lo: int, hi: int, hi': int)
    requires Inside(f, doc, es, lo, hi) && hi <= hi'
    ensures Inside(f, doc, es, lo, hi')
  {
    hide EntryAnchored, Spread;
  }

  lemma PutSpread(es: Entries, k: CZString, v: Value)
    requires Spread(es) && forall j :: 0 <= j < |es| ==> es[j].val.limit <= v.start
    ensures Spread(Put(es, k, v))
  {
    hide KeyLess, LowerBound;
    var n := LowerBound(es, k);
  }

  lemma PutInside(f: Features, doc: bytes, es: Entries, k: CZString, v: Value, lo: int, hi: int)
    requires Inside(f, doc, es, lo, hi) && Anchored(f, doc, v) && lo < Place(v) && v.limit <= hi
    requires forall j :: 0 <= j < |es| ==> es[j].val.limit <= v.start
    ensures Inside(f, doc, Put(es, k, v), lo, hi)
  {
    PutSpread(es, k, v);
    hide Spread;
    assert EntryAnchored(f, doc, Entry(k, v));
    hide EntryAnchored, LowerBound;
  }

  lemma PutInTurn(es: Entries, v: Value)
    requires InTurn(es) && forall k :: 0 <= k < |es| ==> es[k].val.limit <= v.start && es[k].val.limit < Place(v)
    ensures InTurn(Put(es, Index(|es|), v))
  {
    PutAtEnd(es, v);
  }

  /** Every value that is read successfully is anchored. */
  lemma {:induction false} ValueAnchored(f: Features, doc: bytes, i: nat, depth: nat, was: Value)
    requires i <= |doc| && depth >= 1 && ValueWithin(ReadValue(f, doc, i, depth, was), |doc|)
    ensures var o := ReadValue(f, doc, i, depth, was);
            Anchored(f, doc, o.value) && i <= Place(o.value) <= o.value.limit == o.cur
    decreases |doc| - i, 0
  {
    hide ValueToken, TokenScalar, ReadMembers, ReadElements, ReadsAlone, Inside, InTurn, Text;
    var t := ValueToken(f, doc, i);
    ValuePlace(f, doc, i, depth, was);
    if Dropped(f, t.kind) {
      return;
    }
    ValueReadsAlone(f, doc, i, depth, was);
    if t.kind == ObjectBegin {
      NothingInside(f, doc, t.start);
      InsideWider(f, doc, [], t.start, t.start, t.end);
      MembersAnchored(f, doc, t.end, depth, [], [], t.start);
    } else if t.kind == ArrayBegin {
      NothingInside(f, doc, t.start);
      ElementsAnchored(f, doc, t.end, depth, [], t.start, t.start);
    } else {
      ScalarIsNoContainer(f, t.kind, Text(doc, t));
    }
  }

  lemma NothingInside(f: Features, doc: bytes, lo: int)
    ensures Inside(f, doc, [], lo, lo) && InTurn([])
  {
  }

  lemma {:induction false} MembersAnchored(f: Features, doc: bytes, i: nat, depth: nat, es: Entries, name: bytes,
                                           lo: nat)
    requires lo < i <= |doc| && depth >= 1 && Inside(f, doc, es, lo, i)
    requires ItemsWithin(ReadMembers(f, doc, i, depth, es, name), |doc|)
    ensures var r := ReadMembers(f, doc, i, depth, es, name); Inside(f, doc, r.entries, lo, r.cur - 1)
    decreases |doc| - i, 1
  {
    hide NextToken, ReadMembers, MemberValue, TokenKey, Text, Inside;
    var t := NextToken(f, doc, i);
    MembersGo(f, doc, i, depth, es, name);
    if t.kind == ObjectEnd && (name == [] || f.allowTrailingCommas) {
      InsideWider(f, doc, es, lo, i, t.end - 1);
    } else {
      InsideWider(f, doc, es, lo, i, t.end);
      MemberValueAnchored(f, doc, t.end, depth, es, TokenKey(f, t.kind, Text(doc, t)).name, lo);
    }
  }

  // How reading members goes on, if it succeeds.
  lemma MembersGo(f: Features, doc: bytes, i: nat, depth: nat, es: Entries, name: bytes)
    requires i <= |doc| && ItemsWithin(ReadMembers(f, doc, i, depth, es, name), |doc|)
    ensures var t := NextToken(f, doc, i);
            var key := TokenKey(f, t.kind, Text(doc, t));
            if t.kind == ObjectEnd && (name == [] || f.allowTrailingCommas) then
              i < t.end && ReadMembers(f, doc, i, depth, es, name) == Items(es, t.end, [], true)
            else
              key.Key? && i < t.end
              && ReadMembers(f, doc, i, depth, es, name) == MemberValue(f, doc, t.end, depth, es, key.name)
  {
    hide NextToken, NamedMember, Text, Recover;
    var t := NextToken(f, doc, i);
    EndIsNoKey(f, Text(doc, t));
    MembersStep(f, doc, i, depth, es, name);
    hide TokenKey, KeyedMember;
    if !(t.kind == ObjectEnd && (name == [] || f.allowTrailingCommas)) {
      NamedIsValue(f, doc, t, depth, es, TokenKey(f, t.kind, Text(doc, t)).name);
    }
  }

  lemma NamedIsValue(f: Features, doc: bytes, t: Token, depth: nat, es: Entries, key: bytes)
    requires t.end <= |doc| && ItemsWithin(NamedMember(f, doc, t, depth, es, key), |doc|)
    ensures NamedMember(f, doc, t, depth, es, key) == MemberValue(f, doc, t.end, depth, es, key)
  {
    hide MemberValue, Has, Recover;
  }

  lemma {:induction false} MemberValueAnchored(f: Features, doc: bytes, i: nat, depth: nat, es: Entries, key: bytes,
                                               lo: nat)
    requires lo < i <= |doc| && depth >= 1 && Inside(f, doc, es, lo, i)
    requires ItemsWithin(MemberValue(f, doc, i, depth, es, key), |doc|)
    ensures var r := MemberValue(f, doc, i, depth, es, key); Inside(f, doc, r.entries, lo, r.cur - 1)
    decreases |doc| - i, 1
  {
    hide Lexer.ReadToken, ReadValue, AfterMember, Recover, Inside, Get, Put, Anchored;
    var colon := ReadToken(f, doc, i);
    var o := ReadValue(f, doc, colon.end, depth + 1, Get(es, Name(key)));
    ValueAnchored(f, doc, colon.end, depth + 1, Get(es, Name(key)));
    InsideBefore(f, doc, es, lo, i, o.value.start);
    InsideWider(f, doc, es, lo, i, o.cur);
    PutInside(f, doc, es, Name(key), o.value, lo, o.cur);
    AfterMemberAnchored(f, doc, o.cur, depth, Put(es, Name(key), o.value), key, lo);
  }

  lemma {:induction false} AfterMemberAnchored(f: Features, doc: bytes, i: nat, depth: nat, es: Entries, key: bytes,
                                               lo: nat)
    requires lo < i <= |doc| && depth >= 1 && Inside(f, doc, es, lo, i)
    requires ItemsWithin(AfterMember(f, doc, i, depth, es, key), |doc|)
    ensures var r := AfterMember(f, doc, i, depth, es, key); Inside(f, doc, r.entries, lo, r.cur - 1)
    decreases |doc| - i, 1
  {
    hide Lexer.ReadToken, NextToken, ReadMembers, Recover, Inside;
    var last := NextToken(f, doc, i);
    CommaAdvances(f, doc, i);
    InsideWider(f, doc, es, lo, i, last.end - 1);
    InsideWider(f, doc, es, lo, i, last.end);
    if last.kind != ObjectEnd {
      MembersAnchored(f, doc, last.end, depth, es, key, lo);
    }
  }

  // A token other than the end of the stream takes at least a byte.
  lemma CommaAdvances(f: Features, doc: bytes, i: nat)
    requires i <= |doc| && ReadToken(f, doc, i).kind != EndOfStream
    ensures NextToken(f, doc, i).end > i
  {
    hide Lexer.ReadToken, NextToken;
    NextOnce(f, doc, i);
  }

  lemma {:induction false} ElementsAnchored(f: Features, doc: bytes, i: nat, depth: nat, es: Entries, lo: nat, hi: nat)
    requires lo <= hi < i <= |doc| && depth >= 1
    requires Inside(f, doc, es, lo, hi) && InTurn(es)
    requires ItemsWithin(ReadElements(f, doc, i, depth, es), |doc|)
    ensures var r := ReadElements(f, doc, i, depth, es); Inside(f, doc, r.entries, lo, r.cur - 1) && InTurn(r.entries)
    decreases |doc| - i, 1
  {
    hide ReadValue, AfterElement, Recover, Inside, Put, InTurn, Anchored;
    var at := i + Spaces(doc[i..]);
    hide Spaces;
    InsideWider(f, doc, es, lo, hi, at);
    if at < |doc| && doc[at] == 0x5D
       && (es == [] || (f.allowTrailingCommas && !f.allowDroppedNullPlaceholders)) {
      return;
    }
    var o := ReadValue(f, doc, at, depth + 1, NullValue);
    ValueAnchored(f, doc, at, depth + 1, NullValue);
    InsideBefore(f, doc, es, lo, hi, hi);
    PutInTurn(es, o.value);
    InsideWider(f, doc, es, lo, hi, o.cur);
    PutInside(f, doc, es, Index(|es|), o.value, lo, o.cur);
    AfterElementAnchored(f, doc, o.cur, depth, Put(es, Index(|es|), o.value), lo);
  }

  lemma InsideBefore(f: Features, doc: bytes, es: Entries, lo: int, hi: int, at: int)
    requires Inside(f, doc, es, lo, hi) && hi <= at
    ensures forall k :: 0 <= k < |es| ==> es[k].val.limit <= at
  {
  }

  lemma {:induction false} AfterElementAnchored(f: Features, doc: bytes, i: nat, depth: nat, es: Entries, lo: nat)
    requires lo < i <= |doc| && depth >= 1
    requires Inside(f, doc, es, lo, i) && InTurn(es)
    requires ItemsWithin(AfterElement(f, doc, i, depth, es), |doc|)
    ensures var r := AfterElement(f, doc, i, depth, es); Inside(f, doc, r.entries, lo, r.cur - 1) && InTurn(r.entries)
    decreases |doc| - i, 0
  {
    hide NextToken, ReadElements, Recover, Inside, InTurn;
    var t := NextToken(f, doc, i);
    InsideWider(f, doc, es, lo, i, t.end - 1);
    if t.kind != ArrayEnd {
      ElementsAnchored(f, doc, t.end, depth, es, lo, i);
    }
  }

  // Documents -----------------------------------------------------------------------------------

  /** After a successful parse the offsets, counted from behind a byte order mark, nest in the
      document, and every value's text reads alone. */
  lemma ParsedOffsets(f: Features, document: bytes, was: Value)
    ensures var o := Parse(f, document, was);
            o.Done? && o.ok ==> Anchored(f, document[SkippedBom(f, document)..], o.value)
  {
    hide ReadValue, Anchored, ValueToken;
    if ValueWithin(ReadValue(f, document[SkippedBom(f, document)..], 0, 1, was), |document|) {
      ValueAnchored(f, document[SkippedBom(f, document)..], 0, 1, was);
    }
  }

  // A text that can be read as a value does not begin with a byte order mark.
  lemma NoBomBeforeValue(f: Features, doc: bytes, was: Value)
    requires ValueWithin(ReadValue(f, doc, 0, 1, was), |doc|)
    requires ReadValue(f, doc, 0, 1, was).value.start == 0
    ensures SkippedBom(f, doc) == 0
  {
    hide TokenScalar, ReadMembers, ReadElements;
    if BOM <= doc {
      assert doc[0] == BOM[0];
      BomIsError(f, doc);
      assert ValueToken(f, doc, 0).kind == Error;
      BadToken(f, Text(doc, ValueToken(f, doc, 0)));
    }
  }

  lemma BomIsError(f: Features, doc: bytes)
    requires doc != [] && doc[0] == 0xEF
    ensures ReadToken(f, doc, 0).kind == NextToken(f, doc, 0).kind == Error
  {
    hide NumberRun, LexString;
    assert doc[0..] == doc;
  }

  lemma BadToken(f: Features, text: bytes)
    ensures TokenScalar(f, Error, text).BadScalar?
  {
  }

  lemma EndThere(f: Features, doc: bytes)
    ensures ValueToken(f, doc, |doc|) == Token(EndOfStream, |doc|, |doc|)
  {
    assert doc[|doc|..] == [];
  }

  /** So the slice of any value of a parsed tree, parsed as a document of its own, is accepted,
      consumed to its end, and yields that value (with a strict root, only for containers). */
  lemma SliceParses(f: Features, doc: bytes, v: Value, was: Value)
    requires ReadsAlone(f, doc, v) && (f.strictRoot ==> v.p.Arr? || v.p.Obj?)
    ensures Parse(f, doc[v.start..v.limit], was) == Done(Moved(v, v.start), v.limit - v.start, [], true)
  {
    hide ReadValue, ValueToken;
    var s := doc[v.start..v.limit];
    NoBomBeforeValue(f, s, was);
    assert s[0..] == s;
    EndThere(f, s);
  }
}
