/** What a document means depends on its tokens only: not on white space, nor on where they stand. */
module TokenMeaning {
  import opened Bytes
  import opened JsonValue
  import opened Lexer
  import opened Parser
  import opened Window
  import opened Tokens
  import opened Offsets

  // Two places from where on the same tokens follow.
  ghost predicate Alike(f: Features, a: bytes, i: nat, b: bytes, j: nat) {
    i <= |a| && j <= |b| && TokensOf(f, a, i) == TokensOf(f, b, j)
  }

  ghost predicate AlikeTokens(f: Features, a: bytes, t: Token, b: bytes, u: Token) {
    && t.kind == u.kind && t.start <= t.end <= |a| && u.start <= u.end <= |b|
    && Text(a, t) == Text(b, u) && Alike(f, a, t.end, b, u.end)
  }

  // Tokens -------------------------------------------------------------------------------------

  lemma TokensStep(f: Features, doc: bytes, i: nat)
    requires i <= |doc|
    ensures var t := ReadToken(f, doc, i);
            TokensOf(f, doc, i)
            == if t.start == |doc| then [] else [Tok(t.kind, Text(doc, t))] + TokensOf(f, doc, t.end)
  {
    hide Lexer.ReadToken;
  }

  lemma ReadAlike(f: Features, a: bytes, i: nat, b: bytes, j: nat)
    requires Alike(f, a, i, b, j)
    ensures AlikeTokens(f, a, ReadToken(f, a, i), b, ReadToken(f, b, j))
  {
    hide Lexer.ReadToken, TokensOf;
    var t, u := ReadToken(f, a, i), ReadToken(f, b, j);
    TokensStep(f, a, i);
    TokensStep(f, b, j);
    var x, y := TokensOf(f, a, i), TokensOf(f, b, j);
    TokensStep(f, a, |a|);
    TokensStep(f, b, |b|);
    assert (t.start == |a| <==> x == []) && (u.start == |b| <==> y == []);
    if t.start < |a| {
      assert x[0] == Tok(t.kind, Text(a, t)) && y[0] == Tok(u.kind, Text(b, u));
      assert x[1..] == TokensOf(f, a, t.end) && y[1..] == TokensOf(f, b, u.end);
    }
  }

  lemma {:induction false} NextAlike(f: Features, a: bytes, i: nat, b: bytes, j: nat)
    requires Alike(f, a, i, b, j)
    ensures AlikeTokens(f, a, NextToken(f, a, i), b, NextToken(f, b, j))
    decreases |a| - i
  {
    hide Lexer.ReadToken, NextToken, TokensOf, Text;
    ReadAlike(f, a, i, b, j);
    NextOnce(f, a, i);
    NextOnce(f, b, j);
    if ReadToken(f, a, i).kind == Comment {
      NextAlike(f, a, ReadToken(f, a, i).end, b, ReadToken(f, b, j).end);
    }
  }

  lemma ValueTokenAlike(f: Features, a: bytes, i: nat, b: bytes, j: nat)
    requires Alike(f, a, i, b, j)
    ensures AlikeTokens(f, a, ValueToken(f, a, i), b, ValueToken(f, b, j))
  {
    hide Lexer.ReadToken, NextToken, AlikeTokens, TokensOf;
    if f.allowComments {
      NextAlike(f, a, i, b, j);
    } else {
      ReadAlike(f, a, i, b, j);
    }
  }

  // A token that is un-read is read again.
  lemma Unread(f: Features, doc: bytes, i: nat)
    requires i <= |doc| && ValueToken(f, doc, i).kind in {ArraySeparator, ObjectEnd, ArrayEnd}
    ensures var t := ValueToken(f, doc, i);
            t.end - 1 == t.start && TokensOf(f, doc, t.start) == [Tok(t.kind, Text(doc, t))] + TokensOf(f, doc, t.end)
  {
    hide Lexer.ReadToken, NextToken, TokensOf;
    var t := ValueToken(f, doc, i);
    ReadAgain(f, doc, i);
    PunctuationSize(f, doc, i);
    TokensStep(f, doc, t.start);
  }

  // Trees without offsets ------------------------------------------------------------------------

  lemma AlikePut(es: Entries, es': Entries, k: CZString, v: Value, v': Value)
    requires BareItems(es) == BareItems(es') && Bare(v) == Bare(v')
    ensures |es| == |es'| && (Has(es, k) <==> Has(es', k)) && BareItems(Put(es, k, v)) == BareItems(Put(es', k, v'))
  {
    hide BareItems, Bare, Put, Has;
    assert |BareItems(es)| == |es| && |BareItems(es')| == |es'|;
    BarePut(es, k, v);
    BarePut(es', k, v');
  }

  // Readings -------------------------------------------------------------------------------------

  // The reading of b succeeds like that of a: with the same tree, the same tokens left.
  ghost predicate ReadLike(f: Features, a: bytes, o: Outcome, b: bytes, p: Outcome) {
    o.Done? && o.ok && p.Done? && p.ok && Bare(o.value) == Bare(p.value) && Alike(f, a, o.cur, b, p.cur)
  }

  ghost predicate ReadItemsLike(f: Features, a: bytes, r: Items, b: bytes, q: Items) {
    r.Items? && r.ok && q.Items? && q.ok && BareItems(r.entries) == BareItems(q.entries) && Alike(f, a, r.cur, b, q.cur)
  }

  lemma {:induction false} ValueAlike(f: Features, a: bytes, i: nat, was: Value, b: bytes, j: nat, was': Value,
                                      depth: nat)
    requires Alike(f, a, i, b, j) && ValueWithin(ReadValue(f, a, i, depth, was), |a|)
    ensures ReadLike(f, a, ReadValue(f, a, i, depth, was), b, ReadValue(f, b, j, depth, was'))
    decreases |a| - i, 0
  {
    hide ValueToken, TokenScalar, ReadMembers, ReadElements, Text, TokensOf;
    var t, u := ValueToken(f, a, i), ValueToken(f, b, j);
    ValueTokenAlike(f, a, i, b, j);
    EndIsNoScalar(f, Text(a, t));
    if t.kind == ObjectBegin {
      MembersAlike(f, a, t.end, [], b, u.end, [], [], depth);
    } else if t.kind == ArrayBegin {
      ElementsAlike(f, a, t.end, [], b, u.end, [], depth);
    } else if Dropped(f, t.kind) {
      Unread(f, a, i);
      Unread(f, b, j);
    } else {
      ScalarIsNoContainer(f, t.kind, Text(a, t));
    }
  }

  lemma {:induction false} MembersAlike(f: Features, a: bytes, i: nat, es: Entries, b: bytes, j: nat, es': Entries,
                                        name: bytes, depth: nat)
    requires Alike(f, a, i, b, j) && BareItems(es) == BareItems(es')
    requires ItemsWithin(ReadMembers(f, a, i, depth, es, name), |a|)
    ensures ReadItemsLike(f, a, ReadMembers(f, a, i, depth, es, name), b, ReadMembers(f, b, j, depth, es', name))
    decreases |a| - i, 1
  {
    hide NextToken, MemberValue, Text, Recover, BareItems, Has, TokensOf;
    var t, u := NextToken(f, a, i), NextToken(f, b, j);
    NextAlike(f, a, i, b, j);
    EndIsNoKey(f, Text(a, t));
    MembersStep(f, a, i, depth, es, name);
    MembersStep(f, b, j, depth, es', name);
    hide TokenKey, KeyedMember;
    if t.kind == ObjectEnd && (name == [] || f.allowTrailingCommas) {
      return;
    }
    var key := TokenKey(f, t.kind, Text(a, t)).name;
    AlikePut(es, es', Name(key), NullValue, NullValue);
    MemberValueAlike(f, a, t.end, es, b, u.end, es', key, depth);
  }

  lemma {:induction false} MemberValueAlike(f: Features, a: bytes, i: nat, es: Entries, b: bytes, j: nat, es': Entries,
                                            key: bytes, depth: nat)
    requires Alike(f, a, i, b, j) && BareItems(es) == BareItems(es')
    requires ItemsWithin(MemberValue(f, a, i, depth, es, key), |a|)
    ensures ReadItemsLike(f, a, MemberValue(f, a, i, depth, es, key), b, MemberValue(f, b, j, depth, es', key))
    decreases |a| - i, 1
  {
    hide Lexer.ReadToken, ReadValue, AfterMember, Recover, BareItems, Bare, Get, Put, TokensOf, Text;
    var colon, colon' := ReadToken(f, a, i), ReadToken(f, b, j);
    ReadAlike(f, a, i, b, j);
    var o, p := ReadValue(f, a, colon.end, depth + 1, Get(es, Name(key))),
                ReadValue(f, b, colon'.end, depth + 1, Get(es', Name(key)));
    ValueAlike(f, a, colon.end, Get(es, Name(key)), b, colon'.end, Get(es', Name(key)), depth + 1);
    AlikePut(es, es', Name(key), o.value, p.value);
    AfterMemberAlike(f, a, o.cur, Put(es, Name(key), o.value), b, p.cur, Put(es', Name(key), p.value), key, depth);
  }

  lemma {:induction false} AfterMemberAlike(f: Features, a: bytes, i: nat, es: Entries, b: bytes, j: nat, es': Entries,
                                            key: bytes, depth: nat)
    requires Alike(f, a, i, b, j) && BareItems(es) == BareItems(es')
    requires ItemsWithin(AfterMember(f, a, i, depth, es, key), |a|)
    ensures ReadItemsLike(f, a, AfterMember(f, a, i, depth, es, key), b, AfterMember(f, b, j, depth, es', key))
    decreases |a| - i, 1
  {
    hide Lexer.ReadToken, NextToken, ReadMembers, Recover, BareItems, TokensOf, Text;
    var last, last' := NextToken(f, a, i), NextToken(f, b, j);
    ReadAlike(f, a, i, b, j);
    NextAlike(f, a, i, b, j);
    CommaAdvances(f, a, i);
    if last.kind != ObjectEnd {
      MembersAlike(f, a, last.end, es, b, last'.end, es', key, depth);
    }
  }

  lemma {:induction false} ElementsAlike(f: Features, a: bytes, i: nat, es: Entries, b: bytes, j: nat, es': Entries,
                                         depth: nat)
    requires Alike(f, a, i, b, j) && BareItems(es) == BareItems(es')
    requires ItemsWithin(ReadElements(f, a, i, depth, es), |a|)
    ensures ReadItemsLike(f, a, ReadElements(f, a, i, depth, es), b, ReadElements(f, b, j, depth, es'))
    decreases |a| - i, 1
  {
    hide ReadValue, AfterElement, Recover, BareItems, Bare, Put, TokensOf, LexAt, Text;
    var at, at' := i + Spaces(a[i..]), j + Spaces(b[j..]);
    AfterSpaces(f, a, i);
    AfterSpaces(f, b, j);
    ReadAlike(f, a, i, b, j);
    AlikePut(es, es', Index(|es|), NullValue, NullValue);
    if at < |a| && a[at] == 0x5D
       && (es == [] || (f.allowTrailingCommas && !f.allowDroppedNullPlaceholders)) {
      return;
    }
    hide Lexer.ReadToken, Spaces;
    var o, p := ReadValue(f, a, at, depth + 1, NullValue), ReadValue(f, b, at', depth + 1, NullValue);
    ValueAlike(f, a, at, NullValue, b, at', NullValue, depth + 1);
    AlikePut(es, es', Index(|es|), o.value, p.value);
    AfterElementAlike(f, a, o.cur, Put(es, Index(|es|), o.value), b, p.cur, Put(es', Index(|es'|), p.value), depth);
  }

  // White space before the next token makes no difference.
  lemma AfterSpaces(f: Features, doc: bytes, i: nat)
    requires i <= |doc|
    ensures var at := i + Spaces(doc[i..]);
            TokensOf(f, doc, at) == TokensOf(f, doc, i) && ReadToken(f, doc, i).start == at
  {
    hide Lexer.ReadToken, TokensOf;
    TokenStart(f, doc, i);
    TokenAgain(f, doc, i);
    TokensStep(f, doc, i);
    TokensStep(f, doc, i + Spaces(doc[i..]));
  }

  lemma {:induction false} AfterElementAlike(f: Features, a: bytes, i: nat, es: Entries, b: bytes, j: nat, es': Entries,
                                             depth: nat)
    requires Alike(f, a, i, b, j) && BareItems(es) == BareItems(es')
    requires ItemsWithin(AfterElement(f, a, i, depth, es), |a|)
    ensures ReadItemsLike(f, a, AfterElement(f, a, i, depth, es), b, AfterElement(f, b, j, depth, es'))
    decreases |a| - i, 0
  {
    hide NextToken, ReadElements, Recover, BareItems, TokensOf, Text;
    var t, u := NextToken(f, a, i), NextToken(f, b, j);
    NextAlike(f, a, i, b, j);
    if t.kind == ArraySeparator {
      ElementsAlike(f, a, t.end, es, b, u.end, es', depth);
    }
  }

  // Documents ------------------------------------------------------------------------------------

  ghost predicate Accepted(o: Outcome) { o.Done? && o.ok }

  function Body(f: Features, document: bytes): bytes { document[SkippedBom(f, document)..] }

  lemma AcceptedAlike(f: Features, a: bytes, was: Value, b: bytes, was': Value)
    requires Alike(f, Body(f, a), 0, Body(f, b), 0) && Accepted(Parse(f, a, was))
    ensures Accepted(Parse(f, b, was')) && Bare(Parse(f, a, was).value) == Bare(Parse(f, b, was').value)
  {
    hide ReadValue, ValueToken, TokensOf, Bare, SkippedBom;
    var x, y := Body(f, a), Body(f, b);
    ValueAlike(f, x, 0, was, y, 0, was', 1);
    var o, p := ReadValue(f, x, 0, 1, was), ReadValue(f, y, 0, 1, was');
    ValueTokenAlike(f, x, o.cur, y, p.cur);
    SameContainer(o.value, p.value);
  }

  lemma SameContainer(v: Value, w: Value)
    requires Bare(v) == Bare(w)
    ensures (v.p.Arr? <==> w.p.Arr?) && (v.p.Obj? <==> w.p.Obj?)
  {
    hide Bare;
    BareKind(v);
    BareKind(w);
  }

  /** Two documents with the same tokens are both accepted or both rejected, whatever the settings,
      and if accepted have the same tree. */
  lemma MeaningIsTokens(f: Features, a: bytes, was: Value, b: bytes, was': Value)
    ensures TokensOf(f, Body(f, a), 0) == TokensOf(f, Body(f, b), 0) ==>
              && (Accepted(Parse(f, a, was)) <==> Accepted(Parse(f, b, was')))
              && (Accepted(Parse(f, a, was)) ==> Bare(Parse(f, a, was).value) == Bare(Parse(f, b, was').value))
  {
    hide Parse, Bare, TokensOf, SkippedBom;
    if TokensOf(f, Body(f, a), 0) == TokensOf(f, Body(f, b), 0) {
      if Accepted(Parse(f, a, was)) {
        AcceptedAlike(f, a, was, b, was');
      }
      if Accepted(Parse(f, b, was')) {
        AcceptedAlike(f, b, was', a, was);
      }
    }
  }
}
