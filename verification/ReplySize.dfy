/** How long the replies are, and which requests are long enough to be answered: do_write sizes the
    buffer of a reply by its request. */
module ReplySize {
  import opened Bytes
  import opened Numbers
  import opened Quoting
  import opened Unquoting
  import opened JsonValue
  import opened Lexer
  import opened Parser
  import opened Window
  import opened Offsets
  import opened FastWriterModel
  import opened TightLayout
  import opened ServerModel

  // Replies ----------------------------------------------------------------------------------------

  lemma QuotedPlain(s: bytes)
    requires forall c | c in s :: !RequiresEscaping(c)
    ensures Quoted(s, false) == Ascii("\"") + s + Ascii("\"")
  {
    NothingToEscape(s, false);
  }

  lemma QuotedKeys()
    ensures Quoted(ERROR, false) == Ascii("\"error\"") && Quoted(VALUE, false) == Ascii("\"value\"")
  {
    hide Escaped;
    QuotedPlain(ERROR);
    QuotedPlain(VALUE);
    assert Ascii("\"") + ERROR + Ascii("\"") == Ascii("\"error\"");
    assert Ascii("\"") + VALUE + Ascii("\"") == Ascii("\"value\"");
  }

  // A name with its colon, and what stands before it.
  lemma Labels(c: FastStyle)
    requires !c.yaml
    ensures [] + Quoted(ERROR, false) + ColonText(c) == Ascii("\"error\":")
    ensures [0x2C] + Quoted(VALUE, false) + ColonText(c) == Ascii(",\"value\":")
  {
    hide Quoted;
    QuotedKeys();
    assert Ascii("\"error\"") + [0x3A] == Ascii("\"error\":");
    assert [0x2C] + Ascii("\"value\"") + [0x3A] == Ascii(",\"value\":");
  }

  lemma ErrorMember(c: FastStyle, r: S.Reply)
    requires !c.yaml && r.value.None?
    ensures FastMembers(c, ReplyValue(r).p.entries, 0) == Ascii("\"error\":") + IntText(r.error)
  {
    hide Fast, FastMembers, Quoted, IntText, Ascii, ColonText, KeyLess;
    var es := ReplyValue(r).p.entries;
    Labels(c);
    ScalarText(c, es[0].val);
    FastMembersStep(c, es, 0);
    FastMembersEnd(c, es);
  }

  lemma BothMembers(c: FastStyle, r: S.Reply)
    requires !c.yaml && r.value.Some?
    ensures FastMembers(c, ReplyValue(r).p.entries, 0)
         == Ascii("\"error\":") + IntText(r.error) + (Ascii(",\"value\":") + Quoted(r.value.value, false))
  {
    hide Fast, FastMembers, Quoted, IntText, Ascii, ColonText;
    var es := ReplyValue(r).p.entries;
    ReplyKeys();
    hide KeyLess;
    Labels(c);
    ScalarText(c, es[0].val);
    ScalarText(c, es[1].val);
    FastMembersStep(c, es, 0);
    FastMembersStep(c, es, 1);
    FastMembersEnd(c, es);
    assert FastMembers(c, es, 1) == Ascii(",\"value\":") + Quoted(r.value.value, false) + [];
  }

  /** The text of every reply. */
  lemma ReplyTextIs(f: Features, r: S.Reply)
    ensures ReplyText(f, r)
         == Ascii("{\"error\":") + IntText(r.error)
            + (if r.value.None? then [] else Ascii(",\"value\":") + Quoted(r.value.value, false))
            + Ascii("}\n")
  {
    var c, v := FastStyle(false, false, false, f.printDouble), ReplyValue(r);
    Braces();
    hide Fast, FastMembers, Quoted, IntText, Ascii, ReplyValue;
    FastObjectOf(c, r);
    if r.value.None? {
      ErrorMember(c, r);
      PiecesJoined(Ascii("\"error\":"), IntText(r.error), []);
    } else {
      BothMembers(c, r);
      PiecesJoined(Ascii("\"error\":"), IntText(r.error), Ascii(",\"value\":") + Quoted(r.value.value, false));
    }
  }

  lemma Braces()
    ensures [0x7B] + Ascii("\"error\":") == Ascii("{\"error\":") && [0x7D] + [0x0A] == Ascii("}\n")
  {
  }

  lemma FastObjectOf(c: FastStyle, r: S.Reply)
    ensures Fast(c, ReplyValue(r)) == [0x7B] + FastMembers(c, ReplyValue(r).p.entries, 0) + [0x7D]
  {
    hide Fast, FastMembers;
    FastObject(c, ReplyValue(r));
  }

  lemma PiecesJoined(name: bytes, code: bytes, value: bytes)
    ensures [0x7B] + (name + code) + [0x7D] + [0x0A] == ([0x7B] + name) + code + [] + ([0x7D] + [0x0A])
    ensures [0x7B] + (name + code + value) + [0x7D] + [0x0A] == ([0x7B] + name) + code + value + ([0x7D] + [0x0A])
  {
  }

  /** ... and its length. */
  lemma ReplyLength(f: Features, r: S.Reply)
    ensures |ReplyText(f, r)|
         == 11 + |IntText(r.error)| + if r.value.None? then 0 else 9 + |Quoted(r.value.value, false)|
  {
    hide ReplyText, Quoted, IntText;
    ReplyTextIs(f, r);
  }

  lemma ScalarText(c: FastStyle, v: Value)
    ensures v.p.Int? ==> Fast(c, v) == IntText(v.p.i)
    ensures v.p.Str? ==> Fast(c, v) == Quoted(v.p.s, false)
  {
  }

  // Keys --------------------------------------------------------------------------------------------

  // The bytes the names of a map take in a document, with their quotes and colons.
  function KeyWeight(es: Entries): nat {
    if es == [] then 0 else EntryWeight(es[0].key) + KeyWeight(es[1..])
  }

  function EntryWeight(key: CZString): nat { if key.Name? then |key.s| + 3 else 0 }

  lemma {:induction false} KeyWeightConcat(a: Entries, b: Entries)
    ensures KeyWeight(a + b) == KeyWeight(a) + KeyWeight(b)
  {
    if a == [] {
      assert a + b == b;
    } else {
      assert (a + b)[1..] == a[1..] + b;
      KeyWeightConcat(a[1..], b);
    }
  }

  lemma KeyWeightOne(en: Entry)
    ensures KeyWeight([en]) == EntryWeight(en.key)
  {
    assert [en][1..] == [];
  }

  lemma PutWeighs(es: Entries, k: CZString, v: Value)
    ensures KeyWeight(Put(es, k, v)) <= KeyWeight(es) + EntryWeight(k)
  {
    hide KeyWeight, LowerBound, KeyLess;
    var n, en := LowerBound(es, k), Entry(k, v);
    KeyWeightOne(en);
    KeyWeightConcat(es[..n], [en]);
    if Has(es, k) {
      var after := es[n + 1..];
      KeyWeightConcat(es[..n] + [en], after);
      assert Put(es, k, v) == es[..n] + [en] + after;
      KeyWeightConcat(es[..n], [es[n]]);
      KeyWeightConcat(es[..n] + [es[n]], after);
      assert es == es[..n] + [es[n]] + after;
      KeyWeightOne(es[n]);
    } else {
      KeyWeightConcat(es[..n] + [en], es[n..]);
      KeyWeightConcat(es[..n], es[n..]);
      assert es == es[..n] + es[n..];
    }
  }

  // Two different names of a map both take their bytes.
  lemma TwoNames(es: Entries, a: CZString, b: CZString)
    requires Has(es, a) && Has(es, b) && a != b
    ensures KeyWeight(es) >= EntryWeight(a) + EntryWeight(b)
  {
    hide KeyWeight, LowerBound, EntryWeight;
    var m, n := LowerBound(es, a), LowerBound(es, b);
    if m < n {
      TwoPlaces(es, m, n);
    } else {
      TwoPlaces(es, n, m);
    }
  }

  lemma TwoPlaces(es: Entries, m: nat, n: nat)
    requires m < n < |es|
    ensures KeyWeight(es) >= EntryWeight(es[m].key) + EntryWeight(es[n].key)
  {
    hide KeyWeight, EntryWeight;
    var a, b, c := es[..m], es[m + 1..n], es[n + 1..];
    assert es == a + [es[m]] + b + [es[n]] + c;
    KeyWeightOne(es[m]);
    KeyWeightOne(es[n]);
    KeyWeightConcat(a, [es[m]]);
    KeyWeightConcat(a + [es[m]], b);
    KeyWeightConcat(a + [es[m]] + b, [es[n]]);
    KeyWeightConcat(a + [es[m]] + b + [es[n]], c);
  }

  // Documents are at least as long as their names --------------------------------------------------

  lemma TurnShorter(s: bytes)
    requires s != []
    ensures var t := DecodeTurn(s); t.Emit? ==> |t.text| <= t.used
  {
    hide DecodeCodePoint, EscapeMeaning;
  }

  lemma {:induction false} DecodedShorter(s: bytes)
    ensures var r := DecodeText(s); r.Decoded? ==> |r.text| <= |s|
    decreases |s|
  {
    hide DecodeTurn;
    if s != [] && DecodeTurn(s).Emit? {
      TurnShorter(s);
      DecodedShorter(s[DecodeTurn(s).used..]);
    }
  }

  lemma NameShorter(f: Features, kind: TokenType, text: bytes)
    requires !f.allowNumericKeys && TokenKey(f, kind, text).Key?
    ensures |TokenKey(f, kind, text).name| + 2 <= |text|
  {
    hide DecodeText;
    if |text| >= 2 {
      DecodedShorter(text[1..|text| - 1]);
    }
  }

  lemma {:induction false} MembersWeigh(f: Features, doc: bytes, i: nat, depth: nat, es: Entries, name: bytes)
    requires i <= |doc| && !f.allowNumericKeys && ItemsWithin(ReadMembers(f, doc, i, depth, es, name), |doc|)
    ensures var r := ReadMembers(f, doc, i, depth, es, name); KeyWeight(r.entries) + i < KeyWeight(es) + r.cur
    decreases |doc| - i, 1
  {
    hide NextToken, ReadMembers, MemberValue, TokenKey, Text, KeyWeight;
    var t := NextToken(f, doc, i);
    MembersGo(f, doc, i, depth, es, name);
    if !(t.kind == ObjectEnd && (name == [] || f.allowTrailingCommas)) {
      NameShorter(f, t.kind, Text(doc, t));
      TextSize(doc, t);
      MemberWeighs(f, doc, t.end, depth, es, TokenKey(f, t.kind, Text(doc, t)).name);
    }
  }

  lemma TextSize(doc: bytes, t: Token)
    requires t.start <= t.end <= |doc|
    ensures |Text(doc, t)| == t.end - t.start
  {
  }

  lemma {:induction false} MemberWeighs(f: Features, doc: bytes, i: nat, depth: nat, es: Entries, key: bytes)
    requires i <= |doc| && !f.allowNumericKeys && ItemsWithin(MemberValue(f, doc, i, depth, es, key), |doc|)
    ensures var r := MemberValue(f, doc, i, depth, es, key);
            KeyWeight(r.entries) + i < KeyWeight(es) + |key| + 2 + r.cur
    decreases |doc| - i, 1
  {
    hide Lexer.ReadToken, ReadValue, AfterMember, Recover, Get, Put, KeyWeight;
    var colon := ReadToken(f, doc, i);
    var o := ReadValue(f, doc, colon.end, depth + 1, Get(es, Name(key)));
    PutWeighs(es, Name(key), o.value);
    MembersGoOn(f, doc, o.cur, depth, Put(es, Name(key), o.value), key);
  }

  lemma {:induction false} MembersGoOn(f: Features, doc: bytes, i: nat, depth: nat, es: Entries, key: bytes)
    requires i <= |doc| && !f.allowNumericKeys && ItemsWithin(AfterMember(f, doc, i, depth, es, key), |doc|)
    ensures var r := AfterMember(f, doc, i, depth, es, key); KeyWeight(r.entries) + i < KeyWeight(es) + r.cur
    decreases |doc| - i, 1
  {
    hide Lexer.ReadToken, NextToken, ReadMembers, Recover, KeyWeight;
    var last := NextToken(f, doc, i);
    CommaAdvances(f, doc, i);
    if last.kind != ObjectEnd {
      MembersWeigh(f, doc, last.end, depth, es, key);
    }
  }

  /** An object that is parsed from a document fits into it with all its names. */
  lemma ObjectWeighs(f: Features, document: bytes, was: Value)
    requires !f.allowNumericKeys
    ensures var o := Parse(f, document, was);
            o.Done? && o.ok && o.value.p.Obj? ==> KeyWeight(o.value.p.entries) + 2 <= |document|
  {
    hide ValueToken, TokenScalar, ReadMembers, ReadElements, Text, KeyWeight;
    var doc := document[SkippedBom(f, document)..];
    if ValueWithin(ReadValue(f, doc, 0, 1, was), |doc|) {
      var t := ValueToken(f, doc, 0);
      if t.kind == ObjectBegin {
        NoNames();
        MembersWeigh(f, doc, t.end, 1, [], []);
      } else if t.kind != ArrayBegin && !Dropped(f, t.kind) {
        ScalarIsNoContainer(f, t.kind, Text(doc, t));
      }
    }
  }

  lemma NoNames()
    ensures KeyWeight([]) == 0
  {
  }

  // Requests ----------------------------------------------------------------------------------------

  // A field with a text in it is there.
  lemma FieldIsThere(f: Features, root: Value, name: bytes)
    requires S.TextField(f, root, name).Some? && S.TextField(f, root, name).value != []
    ensures root.p.Obj? && Has(root.p.entries, Name(name))
  {
    hide Has;
  }

  lemma OpIsThere(f: Features, root: Value)
    requires !S.Decode(f, root).Unknown? && !S.Decode(f, root).Bad?
    ensures var op := S.TextField(f, root, Ascii("op")); op.Some? && op.value != []
  {
    hide S.TextField, S.Field, S.BatchOf;
  }

  /** A request that reaches its database and asks for a known operation is at least 16 bytes long. */
  lemma KnownRequestsAreLong(f: Features, dbs: seq<S.Db>, inp: bytes)
    requires !f.allowNumericKeys
    requires var t := S.TargetOf(f, dbs, inp);
             t.Target? && !S.Decode(f, t.root).Unknown? && !S.Decode(f, t.root).Bad?
    ensures |inp| >= 16
  {
    hide Parse, S.TextField, S.Decode, S.FindDb, KeyWeight, Has;
    var root := S.TargetOf(f, dbs, inp).root;
    OpIsThere(f, root);
    FieldIsThere(f, root, Ascii("dbname"));
    FieldIsThere(f, root, Ascii("op"));
    assert |Ascii("dbname")| == 6 && |Ascii("op")| == 2;
    TwoNames(root.p.entries, Name(Ascii("dbname")), Name(Ascii("op")));
    ObjectWeighs(f, inp, NullValue);
  }

  /** A request has room for its reply: 12 bytes for an error code alone, and, if it is a get that is
      served and finds a value, 21 bytes and the value as it is quoted. */
  predicate RoomFor(f: Features, s: S.State, inp: bytes, env: S.Env) {
    && |inp| >= 12
    && var found := S.Found(f, s, inp, env);
       found.Some? ==> |inp| >= 21 + |Quoted(found.value, false)|
  }

  /** The reply of a request is no longer than the request if and only if there is room for it, which
      the request, the configuration and the stored value decide. */
  lemma FitsExactly(f: Features, s: S.State, inp: bytes, env: S.Env)
    requires !f.allowNumericKeys && S.Exec(f, s, inp, env).0.Answer?
    ensures |ReplyText(f, S.Exec(f, s, inp, env).0.reply)| <= |inp| <==> RoomFor(f, s, inp, env)
  {
    hide S.Exec, S.Found, Quoted, ReplyText;
    var r := S.Exec(f, s, inp, env).0.reply;
    S.FailureChangesNothing(f, s, inp, env);
    S.FoundIsReplied(f, s, inp, env);
    ReplyLength(f, r);
    OneDigit(r.error);
    if r.error == -2 {
      S.MissIsKnown(f, s, inp, env);
      KnownRequestsAreLong(f, s.dbs, inp);
    }
  }

  lemma OneDigit(error: int)
    requires -2 <= error <= 7
    ensures |IntText(error)| == if error < 0 then 2 else 1
  {
  }

  /** A request for which there is no room: the empty one, which any client may send as a frame of
      length 0, is answered in 12 bytes. */
  lemma EmptyRequestHasNoRoom(f: Features, s: S.State, env: S.Env)
    requires f.stackLimit >= 1
    ensures S.Exec(f, s, [], env) == (S.Answer(S.Reply(1, None)), s)
    ensures |ReplyText(f, S.Reply(1, None))| == 12
  {
    EmptyDocument(f);
    ReplyLength(f, S.Reply(1, None));
    OneDigit(1);
  }

  lemma EmptyDocument(f: Features)
    requires f.stackLimit >= 1
    ensures var o := Parse(f, [], NullValue); o.Done? && !o.ok
  {
    hide TokenScalar;
    EndThere(f, []);
    EndIsNoScalar(f, []);
  }

  // Runs ----------------------------------------------------------------------------------------------

  /** There is room for the reply of every request of a run, up to one that ends the program. */
  predicate RoomForAll(f: Features, s: S.State, rs: seq<S.Request>)
    decreases |rs|
  {
    rs == [] ||
    var (result, s') := S.Exec(f, s, rs[0].inp, rs[0].env);
    result.Crashed? || (RoomFor(f, s, rs[0].inp, rs[0].env) && RoomForAll(f, s', rs[1..]))
  }

  lemma {:induction false} RoomLast(f: Features, s: S.State, rs: seq<S.Request>, r: S.Request)
    requires S.RunAll(f, s, rs).Some?
    ensures var s' := S.RunAll(f, s, rs).value;
            var room := S.Exec(f, s', r.inp, r.env).0.Crashed? || RoomFor(f, s', r.inp, r.env);
            RoomForAll(f, s, rs + [r]) <==> RoomForAll(f, s, rs) && room
    decreases |rs|
  {
    hide S.Exec, RoomFor;
    if rs == [] {
      assert rs + [r] == [r] && [r][1..] == [];
    } else {
      assert (rs + [r])[0] == rs[0] && (rs + [r])[1..] == rs[1..] + [r];
      RoomLast(f, S.Exec(f, s, rs[0].inp, rs[0].env).1, rs[1..], r);
    }
  }

  // No request behind one that ends the program matters, nor any behind one without room.
  lemma {:induction false} RoomBefore(f: Features, s: S.State, rs: seq<S.Request>, more: seq<S.Request>)
    ensures RoomForAll(f, s, rs + more) ==> RoomForAll(f, s, rs)
    ensures S.RunAll(f, s, rs).None? ==>
              S.RunAll(f, s, rs + more).None? && (RoomForAll(f, s, rs + more) <==> RoomForAll(f, s, rs))
    decreases |rs|
  {
    hide S.Exec, RoomFor;
    if rs != [] {
      assert (rs + more)[0] == rs[0] && (rs + more)[1..] == rs[1..] + more;
      RoomBefore(f, S.Exec(f, s, rs[0].inp, rs[0].env).1, rs[1..], more);
    }
  }
}
