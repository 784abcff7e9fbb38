/** What a client asks for, as documents, and what it is told. */
module ClientModel {
  import opened Bytes
  import opened Utf8
  import opened QuoteRoundTrip
  import opened JsonValue
  import opened Lexer
  import opened Parser
  import opened Tokens
  import opened PrintedValues
  import opened RoundTrip
  import opened ServerModel

  // Requests ---------------------------------------------------------------------------------------

  function Object(es: Entries): Value { Value(Obj(es), 0, 0) }

  function Text(field: string, s: bytes): Entry { Entry(Name(Ascii(field)), Value(Str(s), 0, 0)) }

  // An object whose members are texts.
  function Fields(pairs: seq<(bytes, bytes)>): Value { Object(Members(pairs)) }

  function Members(pairs: seq<(bytes, bytes)>): (es: Entries)
    ensures |es| == |pairs|
    ensures forall k :: 0 <= k < |es| ==> es[k] == Entry(Name(pairs[k].0), Value(Str(pairs[k].1), 0, 0))
  {
    seq(|pairs|, k requires 0 <= k < |pairs| => Entry(Name(pairs[k].0), Value(Str(pairs[k].1), 0, 0)))
  }

  predicate Known(a: S.Action) { !a.Unknown? && !a.Bad? }

  /** The object a client sends to have this done. */
  function RequestFor(name: bytes, a: S.Action): Value
    requires Known(a)
  {
    hide Ascii;
    Object(
      match a
      case PutCf(column, key, value) =>
        [Text("column", column), Text("dbname", name), Text("key", key), Text("op", Ascii("put_cf")),
         Text("value", value)]
      case Put(key, value) =>
        [Text("dbname", name), Text("key", key), Text("op", Ascii("put")), Text("value", value)]
      case WriteBatch(items) =>
        [Text("dbname", name), Entry(Name(Ascii("items")), Fields(items)), Text("op", Ascii("write_batch"))]
      case Get(key) =>
        [Text("dbname", name), Text("key", key), Text("op", Ascii("get"))]
      case GetCf(column, key) =>
        [Text("column", column), Text("dbname", name), Text("key", key), Text("op", Ascii("get_cf"))])
  }

  // All texts are valid UTF-8, and the items of a batch are in the order of their names, each of which
  // is shorter than 2^30.
  ghost predicate Sendable(name: bytes, a: S.Action) {
    && ValidUtf8(name)
    && (a.Put? || a.PutCf? || a.Get? || a.GetCf? ==> ValidUtf8(a.key))
    && (a.Put? || a.PutCf? ==> ValidUtf8(a.value))
    && (a.PutCf? || a.GetCf? ==> ValidUtf8(a.column))
    && (a.WriteBatch? ==> Items(a.items))
  }

  ghost predicate Items(items: seq<(bytes, bytes)>) {
    && Sorted(Members(items))
    && forall k :: 0 <= k < |items| ==> Item(items[k])
  }

  ghost predicate Item(item: (bytes, bytes)) {
    ValidUtf8(item.0) && |item.0| < KEY_LIMIT && ValidUtf8(item.1)
  }

  // A document, in any layout, that asks for this.
  ghost predicate Asks(doc: bytes, request: Value) {
    Spells(doc, ValueToks(request, false))
  }

  // Values that come back as they are ---------------------------------------------------------------

  ghost predicate Settled(v: Value, n: nat) {
    Printable(v, false) && Canonical(v, false) == v && Nesting(v) <= n
  }

  lemma TextSettled(s: bytes, n: nat)
    requires ValidUtf8(s) && n >= 1
    ensures Settled(Value(Str(s), 0, 0), n)
  {
    hide ValidUtf8, Sanitized;
    ValidIsKept(s);
  }

  lemma {:induction false} AllSettled(es: Entries, n: nat)
    requires forall k :: 0 <= k < |es| ==> Settled(es[k].val, n)
    ensures AllPrintable(es, false) && CanonicalItems(es, false) == es && ItemsNesting(es) <= n
  {
    hide Printable, Canonical, Nesting;
    if es != [] {
      assert EntryPrintable(es[0], false) && EntryNesting(es[0]) == Nesting(es[0].val);
      AllSettled(es[1..], n);
      assert CanonicalEntry(es[0], false) == es[0];
      assert es == [es[0]] + es[1..];
    }
  }

  lemma ObjectSettled(es: Entries, n: nat)
    requires Sorted(es) && forall k :: 0 <= k < |es| ==> Settled(es[k].val, n) && GoodName(es[k].key, false)
    ensures Settled(Object(es), n + 1)
  {
    hide Sorted, GoodName, AllPrintable, ItemsNesting, CanonicalItems;
    AllSettled(es, n);
  }

  lemma FieldsSettled(items: seq<(bytes, bytes)>)
    requires Items(items)
    ensures Settled(Fields(items), 2)
  {
    hide Settled, Sorted, ValidUtf8;
    var es := Members(items);
    forall k | 0 <= k < |es| ensures Settled(es[k].val, 1) && GoodName(es[k].key, false) {
      assert Item(items[k]);
      TextSettled(items[k].1, 1);
    }
    ObjectSettled(es, 1);
  }

  // Short ASCII names with increasing first letters.
  ghost predicate Labelled(es: Entries) {
    && (forall k :: 0 <= k < |es| ==> GoodName(es[k].key, false) && es[k].key.s != [])
    && forall j, k :: 0 <= j < k < |es| ==> es[j].key.s[0] < es[k].key.s[0]
  }

  lemma LabelledSorted(es: Entries)
    requires Labelled(es)
    ensures Sorted(es)
  {
    hide ValidUtf8;
  }

  lemma Label(field: string)
    requires (forall k :: 0 <= k < |field| ==> field[k] < 128 as char) && 0 < |field| < KEY_LIMIT
    ensures GoodName(Name(Ascii(field)), false) && ValidUtf8(Ascii(field))
    ensures Ascii(field) != [] && Ascii(field)[0] == field[0] as int
  {
    AsciiIsValid(field);
    hide ValidUtf8;
  }

  // How deeply a request nests.
  function Levels(a: S.Action): nat { if a.WriteBatch? then 3 else 2 }

  ghost predicate NameBegins(field: string, first: byte) {
    GoodName(Name(Ascii(field)), false) && Ascii(field) != [] && Ascii(field)[0] == first
  }

  lemma Labels()
    ensures NameBegins("column", 0x63) && NameBegins("dbname", 0x64) && NameBegins("items", 0x69)
    ensures NameBegins("key", 0x6B) && NameBegins("op", 0x6F) && NameBegins("value", 0x76)
    ensures ValidUtf8(Ascii("put_cf")) && ValidUtf8(Ascii("put")) && ValidUtf8(Ascii("write_batch"))
    ensures ValidUtf8(Ascii("get")) && ValidUtf8(Ascii("get_cf"))
  {
    hide ValidUtf8, Ascii, GoodName;
    Label("column");
    Label("dbname");
    Label("key");
    Label("op");
    Label("value");
    Label("items");
    Label("put_cf");
    Label("put");
    Label("write_batch");
    Label("get");
    Label("get_cf");
  }

  lemma RequestSettled(name: bytes, a: S.Action)
    requires Known(a) && Sendable(name, a)
    ensures Labelled(RequestFor(name, a).p.entries) && Settled(RequestFor(name, a), Levels(a))
  {
    hide ValidUtf8, Ascii, Settled, Sorted, Items;
    var es := RequestFor(name, a).p.entries;
    Labels();
    if a.WriteBatch? {
      FieldsSettled(a.items);
    }
    forall k | 0 <= k < |es| ensures Settled(es[k].val, Levels(a) - 1) {
      if es[k].val.p.Str? {
        TextSettled(es[k].val.p.s, Levels(a) - 1);
      }
    }
    LabelledSorted(es);
    ObjectSettled(es, Levels(a) - 1);
  }

  /** The document of a request is parsed, with the default settings, as the request. */
  lemma RequestIsParsed(f: Features, doc: bytes, name: bytes, a: S.Action)
    requires Known(a) && Sendable(name, a) && Asks(doc, RequestFor(name, a)) && f.stackLimit >= Levels(a)
    ensures var o := Parse(f, doc, NullValue); o.Done? && o.ok && Bare(o.value) == RequestFor(name, a)
  {
    hide Parse, Spells, ValueToks, Bare, Sendable, Labelled, Printable, Canonical, Nesting;
    RequestSettled(name, a);
    LayoutIsParsed(f, doc, NullValue, RequestFor(name, a), false);
  }

  // Fields ------------------------------------------------------------------------------------------

  lemma GetBare(es: Entries, k: CZString)
    ensures Get(BareItems(es), k) == Bare(Get(es, k))
  {
    hide LowerBound, Bare, BareItems, KeyLess;
    SameBound(BareItems(es), es, k);
    NullIsBare();
  }

  lemma NullIsBare()
    ensures Bare(NullValue) == NullValue
  {
  }

  lemma AsStringBare(f: Features, v: Value)
    ensures S.AsString(f, v) == S.AsString(f, Bare(v))
  {
    hide BareItems;
  }

  // A member of an object, read back from it.
  lemma FieldOf(f: Features, root: Value, es: Entries, k: nat)
    requires Labelled(es) && k < |es| && Bare(root) == Object(es)
    ensures var v := S.Field(root, es[k].key.s); v.Some? && Bare(v.value) == es[k].val
    ensures es[k].val.p.Str? ==> S.TextField(f, root, es[k].key.s) == Some(es[k].val.p.s)
  {
    hide Sorted, Get, ValidUtf8, BareItems;
    LabelledSorted(es);
    FoundAt(es, k);
    GetBare(root.p.entries, es[k].key);
    AsStringBare(f, Get(root.p.entries, es[k].key));
  }

  // The text under a name; the k-th member is the one that has it.
  lemma TextOf(f: Features, root: Value, es: Entries, k: nat, field: string, s: bytes)
    requires Labelled(es) && Bare(root) == Object(es) && k < |es| && es[k] == Text(field, s)
    ensures S.TextField(f, root, Ascii(field)) == Some(s)
  {
    hide Labelled, Bare, S.TextField, S.Field, Ascii;
    FieldOf(f, root, es, k);
  }

  // The items of a batch are its texts.
  lemma BatchOfFields(f: Features, v: Value, items: seq<(bytes, bytes)>)
    requires Items(items) && Bare(v) == Fields(items)
    ensures S.BatchOf(f, v) == Some(items)
  {
    hide Sorted, Item;
    BareEntries(v.p.entries);
    BatchFromFields(f, v.p.entries, items, 0);
    assert items[0..] == items;
  }

  lemma {:induction false} BareEntries(es: Entries)
    ensures |BareItems(es)| == |es|
    ensures forall k :: 0 <= k < |es| ==> BareItems(es)[k] == Entry(es[k].key, Bare(es[k].val))
  {
    hide Bare;
    if es != [] {
      BareEntries(es[1..]);
      assert BareEntry(es[0]) == Entry(es[0].key, Bare(es[0].val));
    }
  }

  lemma {:induction false} BatchFromFields(f: Features, es: Entries, items: seq<(bytes, bytes)>, k: nat)
    requires Sorted(Members(items)) && BareItems(es) == Members(items) && |es| == |items| && k <= |es| && S.Named(es)
    requires forall j :: 0 <= j < |es| ==> es[j].key == Members(items)[j].key
    ensures S.BatchFrom(f, es, k) == Some(items[k..])
    decreases |es| - k
  {
    hide Sorted, Get, BareItems, Bare, S.AsString;
    if k == |es| {
      assert items[k..] == [];
    } else {
      BatchFromFields(f, es, items, k + 1);
      ItemText(f, es, items, k);
      assert es[k].key.s == items[k].0;
      assert items[k..] == [items[k]] + items[k + 1..];
    }
  }

  lemma {:induction false} ItemText(f: Features, es: Entries, items: seq<(bytes, bytes)>, k: nat)
    requires Sorted(Members(items)) && BareItems(es) == Members(items) && k < |es| == |items|
    requires es[k].key == Members(items)[k].key
    ensures S.AsString(f, Get(es, es[k].key)) == Some(items[k].1)
  {
    hide Sorted, Get, BareItems, Bare;
    FoundAt(Members(items), k);
    GetBare(es, es[k].key);
    AsStringBare(f, Get(es, es[k].key));
  }

  // Decoding ----------------------------------------------------------------------------------------

  lemma DifferentOps()
    ensures Ascii("put") !in {Ascii("put_cf")}
    ensures Ascii("write_batch") !in {Ascii("put_cf"), Ascii("put")}
    ensures Ascii("get") !in {Ascii("put_cf"), Ascii("put"), Ascii("write_batch")}
    ensures Ascii("get_cf") !in {Ascii("put_cf"), Ascii("put"), Ascii("write_batch"), Ascii("get")}
  {
    assert |Ascii("put")| == |Ascii("get")| == 3 && |Ascii("put_cf")| == |Ascii("get_cf")| == 6;
    assert |Ascii("write_batch")| == 11;
    assert Ascii("put")[0] == Ascii("put_cf")[0] == 0x70 && Ascii("get")[0] == Ascii("get_cf")[0] == 0x67;
  }

  // The operation of a request's object.
  lemma ActionOf(f: Features, root: Value, name: bytes, a: S.Action)
    requires Known(a) && Sendable(name, a) && Bare(root) == RequestFor(name, a)
    ensures S.TextField(f, root, Ascii("dbname")) == Some(name) && S.Decode(f, root) == a
  {
    hide Bare, S.TextField, S.Field, S.BatchOf, Ascii, Labelled, ValidUtf8, Settled;
    var es := RequestFor(name, a).p.entries;
    RequestSettled(name, a);
    DifferentOps();
    match a {
      case PutCf(column, key, value) =>
        TextOf(f, root, es, 0, "column", column);
        TextOf(f, root, es, 1, "dbname", name);
        TextOf(f, root, es, 2, "key", key);
        TextOf(f, root, es, 3, "op", Ascii("put_cf"));
        TextOf(f, root, es, 4, "value", value);
      case Put(key, value) =>
        TextOf(f, root, es, 0, "dbname", name);
        TextOf(f, root, es, 1, "key", key);
        TextOf(f, root, es, 2, "op", Ascii("put"));
        TextOf(f, root, es, 3, "value", value);
      case WriteBatch(items) =>
        TextOf(f, root, es, 0, "dbname", name);
        FieldOf(f, root, es, 1);
        BatchOfFields(f, S.Field(root, Ascii("items")).value, items);
        TextOf(f, root, es, 2, "op", Ascii("write_batch"));
      case Get(key) =>
        TextOf(f, root, es, 0, "dbname", name);
        TextOf(f, root, es, 1, "key", key);
        TextOf(f, root, es, 2, "op", Ascii("get"));
      case GetCf(column, key) =>
        TextOf(f, root, es, 0, "column", column);
        TextOf(f, root, es, 1, "dbname", name);
        TextOf(f, root, es, 2, "key", key);
        TextOf(f, root, es, 3, "op", Ascii("get_cf"));
    }
  }

  /** A request's document, in any layout, for a configured database, leads to that database and to
      what the client wants done there. */
  lemma RequestDecodes(f: Features, dbs: seq<S.Db>, doc: bytes, name: bytes, a: S.Action)
    requires Known(a) && Sendable(name, a) && Asks(doc, RequestFor(name, a)) && f.stackLimit >= Levels(a)
    requires name != [] && S.FindDb(dbs, name) < |dbs|
    ensures S.AsksFor(f, dbs, doc, S.FindDb(dbs, name), a)
  {
    hide Parse, Sendable, Asks, S.TextField, S.FindDb, Ascii, S.Decode, Bare, RequestFor;
    RequestIsParsed(f, doc, name, a);
    ActionOf(f, Parse(f, doc, NullValue).value, name, a);
  }

  /** In the words of the protocol: a document with these texts under these names puts the value under
      the key, in the column family named by "column". */
  lemma PutCfDecodes(f: Features, dbs: seq<S.Db>, doc: bytes, name: bytes, column: bytes, key: bytes, value: bytes)
    requires ValidUtf8(name) && ValidUtf8(column) && ValidUtf8(key) && ValidUtf8(value) && f.stackLimit >= 2
    requires Asks(doc, Object([Text("column", column), Text("dbname", name), Text("key", key),
                               Text("op", Ascii("put_cf")), Text("value", value)]))
    requires name != [] && S.FindDb(dbs, name) < |dbs|
    ensures S.AsksFor(f, dbs, doc, S.FindDb(dbs, name), S.PutCf(column, key, value))
  {
    hide ValidUtf8, Asks, S.AsksFor, S.FindDb, Ascii;
    RequestDecodes(f, dbs, doc, name, S.PutCf(column, key, value));
  }

  /** ... or, without a column, in the default family. */
  lemma PutDecodes(f: Features, dbs: seq<S.Db>, doc: bytes, name: bytes, key: bytes, value: bytes)
    requires ValidUtf8(name) && ValidUtf8(key) && ValidUtf8(value) && f.stackLimit >= 2
    requires Asks(doc, Object([Text("dbname", name), Text("key", key), Text("op", Ascii("put")),
                               Text("value", value)]))
    requires name != [] && S.FindDb(dbs, name) < |dbs|
    ensures S.AsksFor(f, dbs, doc, S.FindDb(dbs, name), S.Put(key, value))
  {
    hide ValidUtf8, Asks, S.AsksFor, S.FindDb, Ascii;
    RequestDecodes(f, dbs, doc, name, S.Put(key, value));
  }

  /** Each member of "items" is put: its name is the key and its text the value. */
  lemma BatchDecodes(f: Features, dbs: seq<S.Db>, doc: bytes, name: bytes, items: seq<(bytes, bytes)>)
    requires ValidUtf8(name) && Items(items) && f.stackLimit >= 3
    requires Asks(doc, Object([Text("dbname", name), Entry(Name(Ascii("items")), Fields(items)),
                               Text("op", Ascii("write_batch"))]))
    requires name != [] && S.FindDb(dbs, name) < |dbs|
    ensures S.AsksFor(f, dbs, doc, S.FindDb(dbs, name), S.WriteBatch(items))
  {
    hide ValidUtf8, Items, Asks, S.AsksFor, S.FindDb, Ascii;
    RequestDecodes(f, dbs, doc, name, S.WriteBatch(items));
  }

  lemma GetDecodes(f: Features, dbs: seq<S.Db>, doc: bytes, name: bytes, key: bytes)
    requires ValidUtf8(name) && ValidUtf8(key) && f.stackLimit >= 2
    requires Asks(doc, Object([Text("dbname", name), Text("key", key), Text("op", Ascii("get"))]))
    requires name != [] && S.FindDb(dbs, name) < |dbs|
    ensures S.AsksFor(f, dbs, doc, S.FindDb(dbs, name), S.Get(key))
  {
    hide ValidUtf8, Asks, S.AsksFor, S.FindDb, Ascii;
    RequestDecodes(f, dbs, doc, name, S.Get(key));
  }

  lemma GetCfDecodes(f: Features, dbs: seq<S.Db>, doc: bytes, name: bytes, column: bytes, key: bytes)
    requires ValidUtf8(name) && ValidUtf8(column) && ValidUtf8(key) && f.stackLimit >= 2
    requires Asks(doc, Object([Text("column", column), Text("dbname", name), Text("key", key),
                               Text("op", Ascii("get_cf"))]))
    requires name != [] && S.FindDb(dbs, name) < |dbs|
    ensures S.AsksFor(f, dbs, doc, S.FindDb(dbs, name), S.GetCf(column, key))
  {
    hide ValidUtf8, Asks, S.AsksFor, S.FindDb, Ascii;
    RequestDecodes(f, dbs, doc, name, S.GetCf(column, key));
  }
}
