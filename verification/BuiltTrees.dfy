/** The shape of the trees the reader builds, whether it succeeds or fails. */
module BuiltTrees {
  import opened Bytes
  import opened JsonValue
  import opened Lexer
  import opened Parser

  // Everywhere in a value: arrays without gaps, objects as ordered maps of names.
  predicate Tidy(v: Value)
    decreases v, 0
  {
    match v.p
    case Arr(es) => TidyArray(es)
    case Obj(es) => TidyObject(es)
    case _ => true
  }

  predicate TidyArray(es: Entries)
    decreases es, 1
  {
    Dense(es) && AllTidy(es)
  }

  predicate TidyObject(es: Entries)
    decreases es, 1
  {
    Sorted(es) && AllTidy(es) && forall k :: 0 <= k < |es| ==> es[k].key.Name?
  }

  predicate AllTidy(es: Entries)
    decreases es, 0
  {
    forall k :: 0 <= k < |es| ==> EntryTidy(es[k])
  }

  predicate EntryTidy(en: Entry)
    decreases en, 0
  {
    Tidy(en.val)
  }

  lemma PutTidy(es: Entries, k: CZString, v: Value)
    requires AllTidy(es) && Tidy(v)
    ensures AllTidy(Put(es, k, v))
  {
    assert EntryTidy(Entry(k, v));
    hide EntryTidy, LowerBound;
  }

  lemma PutName(es: Entries, name: bytes, v: Value)
    requires TidyObject(es) && Tidy(v)
    ensures TidyObject(Put(es, Name(name), v))
  {
    hide AllTidy, Tidy;
    PutTidy(es, Name(name), v);
    PutKeepsSorted(es, Name(name), v);
  }

  lemma PutElement(es: Entries, v: Value)
    requires TidyArray(es) && Tidy(v)
    ensures TidyArray(Put(es, Index(|es|), v))
  {
    hide AllTidy, Tidy;
    PutTidy(es, Index(|es|), v);
    PutAtEnd(es, v);
  }

  lemma GetTidy(es: Entries, k: CZString)
    requires AllTidy(es)
    ensures Tidy(Get(es, k))
  {
    if Has(es, k) {
      assert EntryTidy(es[LowerBound(es, k)]);
    }
  }

  /** Read into a tidy value, whatever the document and the settings, and whether the parse succeeds
      or fails, the reader leaves a tidy value. */
  lemma {:induction false} ValueIsTidy(f: Features, doc: bytes, i: nat, depth: nat, was: Value)
    requires i <= |doc| && Tidy(was)
    ensures var o := ReadValue(f, doc, i, depth, was); o.Done? ==> Tidy(o.value)
    decreases |doc| - i, 0
  {
    hide ValueToken, TokenScalar, ReadMembers, ReadElements, TidyObject, TidyArray, Text;
    if depth <= f.stackLimit {
      var t := ValueToken(f, doc, i);
      NothingIsTidy();
      if t.kind == ObjectBegin {
        MembersAreTidy(f, doc, t.end, depth, [], []);
      } else if t.kind == ArrayBegin {
        ElementsAreTidy(f, doc, t.end, depth, []);
      } else {
        ScalarIsTidy(f, t.kind, Text(doc, t));
      }
    }
  }

  lemma NothingIsTidy()
    ensures TidyObject([]) && TidyArray([])
  {
  }

  lemma ScalarIsTidy(f: Features, kind: TokenType, text: bytes)
    ensures var r := TokenScalar(f, kind, text); r.Scalar? ==> Tidy(Value(r.p, 0, 0)) && !r.p.Arr? && !r.p.Obj?
  {
    hide NumberScalar, StringScalar;
  }

  lemma {:induction false} MembersAreTidy(f: Features, doc: bytes, i: nat, depth: nat, es: Entries, name: bytes)
    requires i <= |doc| && TidyObject(es)
    ensures var r := ReadMembers(f, doc, i, depth, es, name); r.Items? ==> TidyObject(r.entries)
    decreases |doc| - i, 1
  {
    hide NextToken, MemberValue, Text, Recover, Has, TidyObject, NumberScalar, StringScalar;
    var t := NextToken(f, doc, i);
    var key := TokenKey(f, t.kind, Text(doc, t));
    MembersStep(f, doc, i, depth, es, name);
    hide TokenKey, KeyedMember;
    if key.Key? {
      MemberValueIsTidy(f, doc, t.end, depth, es, key.name);
    }
  }

  lemma {:induction false} MemberValueIsTidy(f: Features, doc: bytes, i: nat, depth: nat, es: Entries, key: bytes)
    requires i <= |doc| && TidyObject(es)
    ensures var r := MemberValue(f, doc, i, depth, es, key); r.Items? ==> TidyObject(r.entries)
    decreases |doc| - i, 1
  {
    hide Lexer.ReadToken, ReadValue, AfterMember, Recover, Get, Put, Tidy;
    var colon := ReadToken(f, doc, i);
    if colon.kind == MemberSeparator {
      GetTidy(es, Name(key));
      hide TidyObject;
      ValueIsTidy(f, doc, colon.end, depth + 1, Get(es, Name(key)));
      var o := ReadValue(f, doc, colon.end, depth + 1, Get(es, Name(key)));
      if o.Done? {
        PutName(es, key, o.value);
        AfterMemberIsTidy(f, doc, o.cur, depth, Put(es, Name(key), o.value), key);
      }
    }
  }

  lemma {:induction false} AfterMemberIsTidy(f: Features, doc: bytes, i: nat, depth: nat, es: Entries, key: bytes)
    requires i <= |doc| && TidyObject(es)
    ensures var r := AfterMember(f, doc, i, depth, es, key); r.Items? ==> TidyObject(r.entries)
    decreases |doc| - i, 1
  {
    hide Lexer.ReadToken, ReadMembers, Recover, TidyObject;
    var last := NextToken(f, doc, i);
    if ReadToken(f, doc, i).kind in {ObjectEnd, ArraySeparator, Comment} && last.kind != ObjectEnd {
      MembersAreTidy(f, doc, last.end, depth, es, key);
    }
  }

  lemma {:induction false} ElementsAreTidy(f: Features, doc: bytes, i: nat, depth: nat, es: Entries)
    requires i <= |doc| && TidyArray(es)
    ensures var r := ReadElements(f, doc, i, depth, es); r.Items? ==> TidyArray(r.entries)
    decreases |doc| - i, 1
  {
    hide ReadValue, AfterElement, Recover, Put, Spaces, TidyArray;
    var at := i + Spaces(doc[i..]);
    if at < |doc| && doc[at] == 0x5D
       && (es == [] || (f.allowTrailingCommas && !f.allowDroppedNullPlaceholders)) {
      return;
    }
    ValueIsTidy(f, doc, at, depth + 1, NullValue);
    var o := ReadValue(f, doc, at, depth + 1, NullValue);
    if o.Done? {
      PutElement(es, o.value);
      AfterElementIsTidy(f, doc, o.cur, depth, Put(es, Index(|es|), o.value));
    }
  }

  lemma {:induction false} AfterElementIsTidy(f: Features, doc: bytes, i: nat, depth: nat, es: Entries)
    requires i <= |doc| && TidyArray(es)
    ensures var r := AfterElement(f, doc, i, depth, es); r.Items? ==> TidyArray(r.entries)
    decreases |doc| - i, 0
  {
    hide NextToken, ReadElements, Recover, TidyArray;
    var t := NextToken(f, doc, i);
    if t.kind == ArraySeparator {
      ElementsAreTidy(f, doc, t.end, depth, es);
    }
  }
}
