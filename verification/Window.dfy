/** Reading part of a document: a value is read the same from any window that contains its text. */
module Window {
  import opened Bytes
  import opened JsonValue
  import opened Lexer
  import opened Parser
  import opened LexLocal

  // A tree with all its offsets counted from a.
  function Moved(v: Value, a: int): Value
    decreases v, 1
  {
    match v.p
    case Arr(es) => Value(Arr(MovedItems(es, a)), v.start - a, v.limit - a)
    case Obj(es) => Value(Obj(MovedItems(es, a)), v.start - a, v.limit - a)
    case _ => Value(v.p, v.start - a, v.limit - a)
  }

  function MovedItems(es: Entries, a: int): (r: Entries)
    ensures |r| == |es| && forall k :: 0 <= k < |es| ==> r[k] == MovedEntry(es[k], a)
    decreases es, 0
  {
    if es == [] then [] else [MovedEntry(es[0], a)] + MovedItems(es[1..], a)
  }

  function MovedEntry(en: Entry, a: int): (r: Entry)
    ensures r == Entry(en.key, Moved(en.val, a))
    decreases en, 2
  {
    Entry(en.key, Moved(en.val, a))
  }

  lemma MovedPut(es: Entries, k: CZString, v: Value, a: int)
    ensures Has(MovedItems(es, a), k) <==> Has(es, k)
    ensures Put(MovedItems(es, a), k, Moved(v, a)) == MovedItems(Put(es, k, v), a)
  {
    hide LowerBound, Moved, MovedItems, KeyLess;
    SameBound(MovedItems(es, a), es, k);
  }

  // Tokens -------------------------------------------------------------------------------------

  lemma TextInWindow(doc: bytes, w: bytes, a: nat, m: nat, t: Token)
    requires IsWindow(w, doc, a, m) && a <= t.start <= t.end <= m
    ensures Text(w, Shifted(t, a)) == Text(doc, t)
  {
    SliceOfSlice(doc, a, m, t.start - a, t.end - a);
  }

  lemma NextOnce(f: Features, doc: bytes, i: nat)
    requires i <= |doc|
    ensures var t := ReadToken(f, doc, i);
            NextToken(f, doc, i) == if t.kind == Comment then NextToken(f, doc, t.end) else t
  {
    hide IsWindow, Lexer.ReadToken;
  }

  lemma {:induction false} NextInWindow(f: Features, doc: bytes, w: bytes, a: nat, m: nat, i: nat)
    requires IsWindow(w, doc, a, m) && a <= i <= m && NextToken(f, doc, i).end <= m
    ensures NextToken(f, w, i - a) == Shifted(NextToken(f, doc, i), a)
    decreases |doc| - i
  {
    hide IsWindow, Lexer.ReadToken, NextToken;
    var t := ReadToken(f, doc, i);
    NextOnce(f, doc, i);
    TokenInWindow(f, doc, w, a, m, i);
    NextOnce(f, w, i - a);
    if t.kind == Comment {
      NextInWindow(f, doc, w, a, m, t.end);
    }
  }

  lemma ValueTokenInWindow(f: Features, doc: bytes, w: bytes, a: nat, m: nat, i: nat)
    requires IsWindow(w, doc, a, m) && a <= i <= m && ValueToken(f, doc, i).end <= m
    ensures ValueToken(f, w, i - a) == Shifted(ValueToken(f, doc, i), a)
  {
    hide IsWindow, Lexer.ReadToken, NextToken;
    if f.allowComments {
      NextInWindow(f, doc, w, a, m, i);
    } else {
      TokenInWindow(f, doc, w, a, m, i);
    }
  }

  // Values -------------------------------------------------------------------------------------

  // What a successful reading of a value, or of the rest of a container, gives in a window that
  // begins at a.
  ghost predicate ValueWithin(o: Outcome, m: nat) { o.Done? && o.ok && o.cur <= m }

  ghost predicate ItemsWithin(r: Items, m: nat) { r.Items? && r.ok && r.cur <= m }

  function MovedOutcome(o: Outcome, a: nat): Outcome
    requires o.Done? && o.cur >= a
  {
    Done(Moved(o.value, a), o.cur - a, [], true)
  }

  function MovedResult(r: Items, a: nat): Items
    requires r.Items? && r.cur >= a
  {
    Items(MovedItems(r.entries, a), r.cur - a, [], true)
  }

  // A token other than a comment that is un-read is what is read next.
  lemma ReadAgain(f: Features, doc: bytes, i: nat)
    requires i <= |doc| && ValueToken(f, doc, i).kind != Comment
    ensures var t := ValueToken(f, doc, i); ReadToken(f, doc, t.start) == NextToken(f, doc, t.start) == t
  {
    hide Lexer.ReadToken, NextToken;
    var t := ValueToken(f, doc, i);
    if f.allowComments {
      NextIsRead(f, doc, i);
    } else {
      TokenAgain(f, doc, i);
    }
    NextOnce(f, doc, t.start);
  }

  lemma {:induction false} NextIsRead(f: Features, doc: bytes, i: nat)
    requires i <= |doc|
    ensures var t := NextToken(f, doc, i); ReadToken(f, doc, t.start) == t
    decreases |doc| - i
  {
    hide Lexer.ReadToken, NextToken;
    NextOnce(f, doc, i);
    if ReadToken(f, doc, i).kind == Comment {
      NextIsRead(f, doc, ReadToken(f, doc, i).end);
    } else {
      TokenAgain(f, doc, i);
    }
  }

  // A value ends with its text, except for a dropped null: the token in its place is un-read.
  lemma ValueEnds(f: Features, doc: bytes, i: nat, depth: nat, was: Value)
    requires i <= |doc| && ValueWithin(ReadValue(f, doc, i, depth, was), |doc|)
    ensures var o, t := ReadValue(f, doc, i, depth, was), ValueToken(f, doc, i);
            if Dropped(f, t.kind) then
              o.cur == t.start < t.end == t.start + 1 && o.value == Value(Null, t.start - 1, t.start)
              && ReadToken(f, doc, o.cur) == NextToken(f, doc, o.cur) == t
            else t.end <= o.cur
  {
    hide ValueToken, NextToken, Lexer.ReadToken, TokenScalar, ReadMembers, ReadElements, Text;
    var t := ValueToken(f, doc, i);
    if Dropped(f, t.kind) {
      PunctuationSize(f, doc, i);
      ReadAgain(f, doc, i);
    }
  }

  lemma PunctuationSize(f: Features, doc: bytes, i: nat)
    requires i <= |doc| && ValueToken(f, doc, i).kind in {ArraySeparator, ObjectEnd, ArrayEnd}
    ensures var t := ValueToken(f, doc, i); t.end == t.start + 1
  {
    hide NextToken, Lexer.ReadToken;
    ReadAgain(f, doc, i);
  }

  // What is read behind a value covers the token it was read at.
  lemma MemberCovered(f: Features, doc: bytes, i: nat, depth: nat, was: Value, d: nat, es: Entries, key: bytes)
    requires i <= |doc| && ValueWithin(ReadValue(f, doc, i, depth, was), |doc|)
    ensures var r := AfterMember(f, doc, ReadValue(f, doc, i, depth, was).cur, d, es, key);
            r.Items? && r.ok ==> ValueToken(f, doc, i).end <= r.cur
  {
    hide ValueToken, Lexer.ReadToken, NextToken, ReadValue, ReadMembers, Recover;
    ValueEnds(f, doc, i, depth, was);
  }

  lemma ElementCovered(f: Features, doc: bytes, i: nat, depth: nat, was: Value, d: nat, es: Entries)
    requires i <= |doc| && ValueWithin(ReadValue(f, doc, i, depth, was), |doc|)
    ensures var r := AfterElement(f, doc, ReadValue(f, doc, i, depth, was).cur, d, es);
            r.Items? && r.ok ==> ValueToken(f, doc, i).end <= r.cur
  {
    hide ValueToken, NextToken, ReadValue, ReadElements, Recover;
    ValueEnds(f, doc, i, depth, was);
  }

  /** A value that is read successfully is read the same in every window around its text (and the
      token in its place, if it is a dropped null), at any smaller depth, and whatever the current
      value was. */
  lemma {:induction false} ValueInWindow(f: Features, doc: bytes, w: bytes, a: nat, m: nat, i: nat, depth: nat,
                                         was: Value,
                                         depth': nat, was': Value)
    requires IsWindow(w, doc, a, m) && a <= i <= m && depth' <= depth
    requires ValueWithin(ReadValue(f, doc, i, depth, was), m) && ValueToken(f, doc, i).end <= m
    ensures ReadValue(f, w, i - a, depth', was') == MovedOutcome(ReadValue(f, doc, i, depth, was), a)
    decreases |doc| - i, 0
  {
    hide IsWindow, ValueToken, TokenScalar, ReadMembers, ReadElements, Text, MovedItems;
    MovedNothing(a);
    var t := ValueToken(f, doc, i);
    ValueTokenInWindow(f, doc, w, a, m, i);
    if t.kind == ObjectBegin {
      MembersInWindow(f, doc, w, a, m, t.end, depth, [], [], depth');
    } else if t.kind == ArrayBegin {
      ElementsInWindow(f, doc, w, a, m, t.end, depth, [], depth');
    } else {
      TextInWindow(doc, w, a, m, t);
      ScalarIsNoContainer(f, t.kind, Text(doc, t));
    }
  }

  lemma MovedNothing(a: int)
    ensures MovedItems([], a) == []
  {
  }

  lemma ScalarIsNoContainer(f: Features, kind: TokenType, text: bytes)
    ensures var r := TokenScalar(f, kind, text); r.Scalar? ==> !r.p.Arr? && !r.p.Obj?
  {
    hide IsWindow, NumberScalar, StringScalar;
  }

  lemma EndIsNoKey(f: Features, text: bytes)
    ensures TokenKey(f, EndOfStream, text) == NoKey
  {
  }

  lemma {:induction false} MembersInWindow(f: Features, doc: bytes, w: bytes, a: nat, m: nat, i: nat, depth: nat,
                                           es: Entries,
                                           name: bytes, depth': nat)
    requires IsWindow(w, doc, a, m) && a <= i <= m && depth' <= depth
    requires ItemsWithin(ReadMembers(f, doc, i, depth, es, name), m)
    ensures ReadMembers(f, w, i - a, depth', MovedItems(es, a), name)
         == MovedResult(ReadMembers(f, doc, i, depth, es, name), a)
    decreases |doc| - i, 1
  {
    hide IsWindow, NextToken, NamedMember, Text, Recover, MovedItems, Moved;
    var t := NextToken(f, doc, i);
    EndIsNoKey(f, Text(doc, t));
    MembersStep(f, doc, i, depth, es, name);
    WindowTail(doc, w, a, m, i);
    MembersStep(f, w, i - a, depth', MovedItems(es, a), name);
    hide TokenKey, KeyedMember;
    NextInWindow(f, doc, w, a, m, i);
    TextInWindow(doc, w, a, m, t);
    if t.kind == ObjectEnd && (name == [] || f.allowTrailingCommas) {
      return;
    }
    NamedMemberInWindow(f, doc, w, a, m, t, depth, es, TokenKey(f, t.kind, Text(doc, t)).name, depth');
  }

  lemma {:induction false} NamedMemberInWindow(f: Features, doc: bytes, w: bytes, a: nat, m: nat, t: Token, depth: nat,
                                               es: Entries, name: bytes, depth': nat)
    requires IsWindow(w, doc, a, m) && a <= t.start && a <= t.end <= m && depth' <= depth
    requires ItemsWithin(NamedMember(f, doc, t, depth, es, name), m)
    ensures NamedMember(f, w, Shifted(t, a), depth', MovedItems(es, a), name)
         == MovedResult(NamedMember(f, doc, t, depth, es, name), a)
    decreases |doc| - t.end, 2
  {
    hide IsWindow, MemberValue, Recover, MovedItems, Moved, Has, Put;
    MovedPut(es, Name(name), NullValue, a);
    MemberValueInWindow(f, doc, w, a, m, t.end, depth, es, name, depth');
  }

  lemma {:induction false} MemberValueInWindow(f: Features, doc: bytes, w: bytes, a: nat, m: nat, i: nat, depth: nat,
                                               es: Entries,
                                               key: bytes, depth': nat)
    requires IsWindow(w, doc, a, m) && a <= i <= m && depth' <= depth
    requires ItemsWithin(MemberValue(f, doc, i, depth, es, key), m)
    ensures MemberValue(f, w, i - a, depth', MovedItems(es, a), key)
         == MovedResult(MemberValue(f, doc, i, depth, es, key), a)
    decreases |doc| - i, 1
  {
    hide IsWindow, ValueToken, Lexer.ReadToken, ReadValue, AfterMember, Recover, MovedItems, Moved, Get, Put, Has;
    var colon := ReadToken(f, doc, i);
    TokenInWindow(f, doc, w, a, m, i);
    var o := ReadValue(f, doc, colon.end, depth + 1, Get(es, Name(key)));
    MemberCovered(f, doc, colon.end, depth + 1, Get(es, Name(key)), depth, Put(es, Name(key), o.value), key);
    ValueInWindow(f, doc, w, a, m, colon.end, depth + 1, Get(es, Name(key)), depth' + 1,
                  Get(MovedItems(es, a), Name(key)));
    MovedPut(es, Name(key), o.value, a);
    AfterMemberInWindow(f, doc, w, a, m, o.cur, depth, Put(es, Name(key), o.value), key, depth');
  }

  lemma {:induction false} AfterMemberInWindow(f: Features, doc: bytes, w: bytes, a: nat, m: nat, i: nat, depth: nat,
                                               es: Entries,
                                               key: bytes, depth': nat)
    requires IsWindow(w, doc, a, m) && a <= i <= m && depth' <= depth
    requires ItemsWithin(AfterMember(f, doc, i, depth, es, key), m)
    ensures AfterMember(f, w, i - a, depth', MovedItems(es, a), key)
         == MovedResult(AfterMember(f, doc, i, depth, es, key), a)
    decreases |doc| - i, 1
  {
    hide IsWindow, Lexer.ReadToken, NextToken, ReadMembers, Recover, MovedItems, Moved, Text;
    var last := NextToken(f, doc, i);
    NextOnce(f, doc, i);
    TokenInWindow(f, doc, w, a, m, i);
    NextInWindow(f, doc, w, a, m, i);
    if last.kind != ObjectEnd {
      MembersInWindow(f, doc, w, a, m, last.end, depth, es, key, depth');
    }
  }

  lemma {:induction false} ElementsInWindow(f: Features, doc: bytes, w: bytes, a: nat, m: nat, i: nat, depth: nat,
                                            es: Entries,
                                            depth': nat)
    requires IsWindow(w, doc, a, m) && a <= i <= m && depth' <= depth
    requires ItemsWithin(ReadElements(f, doc, i, depth, es), m)
    ensures ReadElements(f, w, i - a, depth', MovedItems(es, a))
         == MovedResult(ReadElements(f, doc, i, depth, es), a)
    decreases |doc| - i, 1
  {
    hide IsWindow, ValueToken, ReadValue, AfterElement, Recover, MovedItems, Moved, Put, Get, Has, LowerBound, Text;
    var at := i + Spaces(doc[i..]);
    assert at <= m;
    WindowTail(doc, w, a, m, at);
    SpacesInWindow(doc, w, a, m, i);
    hide IsWindow, Spaces;
    if at < |doc| && doc[at] == 0x5D
       && (es == [] || (f.allowTrailingCommas && !f.allowDroppedNullPlaceholders)) {
      return;
    }
    var o := ReadValue(f, doc, at, depth + 1, NullValue);
    ElementCovered(f, doc, at, depth + 1, NullValue, depth, Put(es, Index(|es|), o.value));
    ValueInWindow(f, doc, w, a, m, at, depth + 1, NullValue, depth' + 1, NullValue);
    MovedPut(es, Index(|es|), o.value, a);
    AfterElementInWindow(f, doc, w, a, m, o.cur, depth, Put(es, Index(|es|), o.value), depth');
  }

  lemma {:induction false} AfterElementInWindow(f: Features, doc: bytes, w: bytes, a: nat, m: nat, i: nat,
                                                depth: nat, es: Entries,
                                                depth': nat)
    requires IsWindow(w, doc, a, m) && a <= i <= m && depth' <= depth
    requires ItemsWithin(AfterElement(f, doc, i, depth, es), m)
    ensures AfterElement(f, w, i - a, depth', MovedItems(es, a))
         == MovedResult(AfterElement(f, doc, i, depth, es), a)
    decreases |doc| - i, 0
  {
    hide IsWindow, NextToken, ReadElements, Recover, MovedItems, Moved;
    var t := NextToken(f, doc, i);
    NextInWindow(f, doc, w, a, m, i);
    if t.kind != ArrayEnd {
      ElementsInWindow(f, doc, w, a, m, t.end, depth, es, depth');
    }
  }
}
