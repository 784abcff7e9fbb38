/** What the program does before it serves: it reads its configuration, and what databases that names. */
module StartupModel {
  import opened Bytes
  import opened Numbers
  import opened Utf8
  import opened JsonValue
  import opened Lexer
  import opened Reader
  import opened BuiltTrees
  import opened Tokens
  import opened PrintedValues
  import opened RoundTrip
  import opened ServerModel
  import opened ClientModel

  // The text of a key (Value::asString); that of a position is a decimal.
  function KeyText(key: CZString): bytes {
    match key
    case Name(s) => s
    case Index(i) => IntText(i)
  }

  /** The databases a configuration names: one for each member of "dbs", in their order. */
  ghost predicate Loads(f: Features, accepts: Value -> bool, root: Value, dbs: seq<S.Db>) {
    var members := S.Field(root, Ascii("dbs"));
    && members.Some?
    && var es := MembersOf(members.value);
       && |dbs| == |es|
       && forall k :: 0 <= k < |es| ==> Describes(f, accepts, KeyText(es[k].key), es[k].val, dbs[k])
  }

  /** There is at most one such list. */
  lemma LoadsOne(f: Features, accepts: Value -> bool, root: Value, dbs: seq<S.Db>, dbs': seq<S.Db>)
    requires Loads(f, accepts, root, dbs) && Loads(f, accepts, root, dbs')
    ensures dbs == dbs'
  {
    hide Describes, S.Field, Ascii;
    var es := MembersOf(S.Field(root, Ascii("dbs")).value);
    forall k | 0 <= k < |dbs| ensures dbs[k] == dbs'[k] {
      DescribesOne(f, accepts, KeyText(es[k].key), es[k].val, dbs[k], dbs'[k]);
    }
  }

  /** Each database has the name of its member; those of an array are named by their positions, in decimal. */
  lemma NamesOfDatabases(f: Features, accepts: Value -> bool, root: Value, dbs: seq<S.Db>, k: nat)
    requires Loads(f, accepts, root, dbs) && k < |dbs|
    ensures var key := MembersOf(S.Field(root, Ascii("dbs")).value)[k].key;
            && (key.Name? ==> dbs[k].name == key.s)
            && (key.Index? ==> dbs[k].name == IntText(key.i))
  {
    hide S.Field, Ascii, IntText, S.AsString, FamiliesIn;
  }

  /** Without "dbs" no database is configured. */
  lemma NoDatabases(f: Features, accepts: Value -> bool, root: Value, dbs: seq<S.Db>)
    requires root.p.Obj? && !Has(root.p.entries, Name(Ascii("dbs")))
    ensures Loads(f, accepts, root, dbs) <==> dbs == []
  {
    hide Ascii;
  }

  // The loop of main ---------------------------------------------------------------------------------

  ghost function DbsOf(cs: seq<Config>): (dbs: seq<S.Db>)
    reads cs
    ensures |dbs| == |cs|
  {
    seq(|cs|, i requires 0 <= i < |cs| reads cs => cs[i].Abs())
  }

  lemma MembersSorted(v: Value)
    requires Tidy(v)
    ensures Sorted(MembersOf(v)) && AllTidy(MembersOf(v))
  {
    hide AllTidy;
    if v.p.Arr? {
      DenseIsSorted(v.p.entries);
    } else if !v.p.Obj? {
      assert AllTidy([]) by {
        NothingTidy();
      }
    }
  }

  lemma NothingTidy()
    ensures AllTidy([])
  {
  }

  lemma FieldTidy(root: Value, key: bytes)
    requires Tidy(root)
    ensures S.Field(root, key).Some? ==> Tidy(S.Field(root, key).value)
  {
    hide AllTidy, Get;
    if root.p.Obj? {
      GetTidy(root.p.entries, Name(key));
    }
  }

  // One configuration for every member, or None when a conversion throws.
  method ReadConfigs(f: Features, accepts: Value -> bool, root: Value, garbage: Option<bytes>)
    returns (configs: Option<seq<Config>>)
    requires Tidy(root)
    ensures configs.Some? ==>
              && (forall i :: 0 <= i < |configs.value| ==> fresh(configs.value[i]) && configs.value[i].Valid())
              && (forall i, j :: 0 <= i < j < |configs.value| ==> configs.value[i] != configs.value[j])
              && Loads(f, accepts, root, DbsOf(configs.value))
    ensures configs.None? ==> forall dbs :: !Loads(f, accepts, root, dbs)
  {
    hide Describes, S.Field, Ascii, Tidy, AllTidy, Config.Valid, Sorted;
    var dbs := S.Field(root, Ascii("dbs"));
    if dbs.None? {
      return None;
    }
    FieldTidy(root, Ascii("dbs"));
    MembersSorted(dbs.value);
    var es := MembersOf(dbs.value);
    var cs: seq<Config> := [];
    var k := 0;
    while k < |es|
      invariant k == |cs| <= |es|
      invariant forall i :: 0 <= i < k ==> fresh(cs[i]) && cs[i].Valid()
      invariant forall i, j :: 0 <= i < j < k ==> cs[i] != cs[j]
      invariant forall i :: 0 <= i < k ==> Describes(f, accepts, KeyText(es[i].key), es[i].val, cs[i].Abs())
    {
      MemberTidy(es, k);
      MembersSorted(es[k].val);
      var c := ReadConfig(f, accepts, KeyText(es[k].key), es[k].val, garbage);
      if c.None? {
        return None;
      }
      cs := cs + [c.value];
      k := k + 1;
    }
    configs := Some(cs);
  }

  lemma MemberTidy(es: Entries, k: nat)
    requires AllTidy(es) && k < |es|
    ensures Tidy(es[k].val)
  {
    assert EntryTidy(es[k]);
  }

  lemma ParsedIsTidy(f: Features, document: bytes)
    ensures var o := P.Parse(f, document, NullValue); o.Done? ==> Tidy(o.value)
  {
    hide P.ReadValue, P.ValueToken;
    var doc := document[P.SkippedBom(f, document)..];
    NullTidy();
    hide Tidy;
    ValueIsTidy(f, doc, 0, 1, NullValue);
  }

  lemma NullTidy()
    ensures Tidy(NullValue)
  {
  }

  /** main, up to where it serves: the server with the databases the configuration file names, or None when
      the file is not accepted or a conversion throws. */
  method Start(parseDouble: bytes -> Option<Double>, printDouble: Double -> bytes, accepts: Value -> bool,
               document: bytes, store: Store, garbage: Option<bytes>) returns (server: Option<Server>)
    ensures var f := DefaultFeatures(parseDouble, printDouble);
            var o := P.Parse(f, document, NullValue);
            if server.Some? then
              && server.value.Valid() && server.value.f == f && server.value.store == store
              && o.Done? && o.ok && Loads(f, accepts, o.value, server.value.Dbs())
            else
              o.Done? && o.ok ==> forall dbs :: !Loads(f, accepts, o.value, dbs)
  {
    hide P.Parse, Loads, Tidy, Config.Valid;
    var f := DefaultFeatures(parseDouble, printDouble);
    var reader := new OurReader(f);
    ParsedIsTidy(f, document);
    var s, root := reader.Parse(document, NullValue);
    if s.Threw? || !s.ok {
      return None;
    }
    var configs := ReadConfigs(f, accepts, root, garbage);
    if configs.None? {
      return None;
    }
    var r := new Server(parseDouble, printDouble, configs.value, store);
    assert r.Dbs() == DbsOf(configs.value);
    server := Some(r);
  }

  // Configuration files ------------------------------------------------------------------------------

  // A database to configure; its column families may be left out.
  datatype Described = Described(name: bytes, path: bytes, families: Option<seq<bytes>>)

  function TextArray(texts: seq<bytes>): Value { Value(Arr(Elements(texts)), 0, 0) }

  function Elements(texts: seq<bytes>): (es: Entries)
    ensures |es| == |texts|
    ensures forall k :: 0 <= k < |es| ==> es[k] == Entry(Index(k), Value(Str(texts[k]), 0, 0))
  {
    seq(|texts|, k requires 0 <= k < |texts| => Entry(Index(k), Value(Str(texts[k]), 0, 0)))
  }

  function DbObject(d: Described): Value {
    hide Ascii;
    Object((if d.families.Some? then [Entry(Name(Ascii("column_family")), TextArray(d.families.value))] else [])
           + [Text("dbname", d.path)])
  }

  function DbMembers(ds: seq<Described>): (es: Entries)
    ensures |es| == |ds|
    ensures forall k :: 0 <= k < |es| ==> es[k] == Entry(Name(ds[k].name), DbObject(ds[k]))
  {
    seq(|ds|, k requires 0 <= k < |ds| => Entry(Name(ds[k].name), DbObject(ds[k])))
  }

  /** The object that configures some databases. */
  function ConfigFile(ds: seq<Described>): Value {
    hide Ascii;
    Object([Entry(Name(Ascii("dbs")), Object(DbMembers(ds)))])
  }

  // What it configures.
  function DbOf(d: Described): S.Db {
    S.Db(d.name, d.path, if d.families.None? then [] else [Ascii("default")] + Others(d.families.value), false)
  }

  // Valid UTF-8, and the names short and in order.
  ghost predicate Writable(ds: seq<Described>) {
    && Sorted(DbMembers(ds))
    && forall k :: 0 <= k < |ds| ==> WritableDb(ds[k])
  }

  ghost predicate WritableDb(d: Described) {
    && ValidUtf8(d.name) && |d.name| < P.KEY_LIMIT && ValidUtf8(d.path)
    && (d.families.Some? ==> forall t | t in d.families.value :: ValidUtf8(t))
  }

  lemma ArraySettled(texts: seq<bytes>)
    requires forall t | t in texts :: ValidUtf8(t)
    ensures Settled(TextArray(texts), 2)
  {
    hide Settled, ValidUtf8;
    var es := Elements(texts);
    forall k | 0 <= k < |es| ensures Settled(es[k].val, 1) {
      assert texts[k] in texts;
      TextSettled(texts[k], 1);
    }
    AllSettled(es, 1);
    SettledArray(es, 1);
  }

  lemma SettledArray(es: Entries, n: nat)
    requires Dense(es) && AllPrintable(es, false) && CanonicalItems(es, false) == es && ItemsNesting(es) <= n
    ensures Settled(Value(Arr(es), 0, 0), n + 1)
  {
    hide AllPrintable, CanonicalItems, ItemsNesting;
  }

  lemma NameIsGood(name: bytes)
    requires ValidUtf8(name) && |name| < P.KEY_LIMIT
    ensures GoodName(Name(name), false)
  {
    hide ValidUtf8;
  }

  lemma DbLabels()
    ensures NameBegins("column_family", 0x63) && NameBegins("dbname", 0x64) && NameBegins("dbs", 0x64)
  {
    hide Ascii, GoodName;
    Label("column_family");
    Label("dbname");
    Label("dbs");
  }

  lemma DbSettled(d: Described)
    requires WritableDb(d)
    ensures Labelled(DbObject(d).p.entries) && Settled(DbObject(d), 3)
  {
    hide ValidUtf8, Ascii, Settled, Sorted;
    var es := DbObject(d).p.entries;
    DbLabels();
    if d.families.Some? {
      ArraySettled(d.families.value);
    }
    TextSettled(d.path, 2);
    LabelledSorted(es);
    ObjectSettled(es, 2);
  }

  lemma FileSettled(ds: seq<Described>)
    requires Writable(ds)
    ensures Labelled(ConfigFile(ds).p.entries) && Settled(ConfigFile(ds), 5)
  {
    hide ValidUtf8, Ascii, Settled, Sorted;
    var es := DbMembers(ds);
    forall k | 0 <= k < |es| ensures Settled(es[k].val, 3) && GoodName(es[k].key, false) {
      assert WritableDb(ds[k]);
      DbSettled(ds[k]);
      NameIsGood(ds[k].name);
    }
    ObjectSettled(es, 3);
    DbLabels();
    LabelledSorted(ConfigFile(ds).p.entries);
    ObjectSettled(ConfigFile(ds).p.entries, 4);
  }

  lemma FileIsParsed(f: Features, document: bytes, ds: seq<Described>)
    requires Writable(ds) && Asks(document, ConfigFile(ds)) && f.stackLimit >= 5
    ensures var o := P.Parse(f, document, NullValue); o.Done? && o.ok && Bare(o.value) == ConfigFile(ds)
  {
    hide P.Parse, Spells, ValueToks, Bare, Labelled, Printable, Canonical, Nesting, ConfigFile, Sorted;
    FileSettled(ds);
    FileIsObject(ds);
    LayoutIsParsed(f, document, NullValue, ConfigFile(ds), false);
  }

  lemma FileIsObject(ds: seq<Described>)
    ensures ConfigFile(ds).p.Obj?
  {
  }

  // The families an array of texts configures.
  lemma ArrayTexts(f: Features, v: Value, texts: seq<bytes>)
    requires Bare(v) == TextArray(texts)
    ensures ElementTexts(f, v, texts)
  {
    hide Bare, Get, Sorted, S.AsString;
    var es := ArrayEntries(v);
    BareEntries(es);
    DenseIsSorted(Elements(texts));
    DenseIsSorted(es);
    forall i | 0 <= i < |texts| ensures S.AsString(f, Get(es, Index(i))) == Some(texts[i]) {
      ElementText(f, es, texts, i);
    }
  }

  lemma ElementText(f: Features, es: Entries, texts: seq<bytes>, i: nat)
    requires BareItems(es) == Elements(texts) && Sorted(Elements(texts)) && i < |texts|
    ensures S.AsString(f, Get(es, Index(i))) == Some(texts[i])
  {
    hide Bare, BareItems, Get, Sorted;
    FoundAt(Elements(texts), i);
    GetBare(es, Index(i));
    AsStringBare(f, Get(es, Index(i)));
  }

  lemma ArrayEntries(v: Value) returns (es: Entries)
    requires Bare(v).p.Arr?
    ensures v.p == Arr(es) && BareItems(es) == Bare(v).p.entries
  {
    hide BareItems;
    es := v.p.entries;
  }

  lemma ObjectEntries(v: Value) returns (es: Entries)
    requires Bare(v).p.Obj?
    ensures v.p == Obj(es) && BareItems(es) == Bare(v).p.entries
  {
    hide BareItems;
    es := v.p.entries;
  }

  lemma HasBare(es: Entries, k: CZString)
    ensures Has(BareItems(es), k) <==> Has(es, k)
  {
    BarePut(es, k, NullValue);
  }

  // The object of a database describes it.
  lemma DbIsDescribed(f: Features, accepts: Value -> bool, v: Value, d: Described)
    requires WritableDb(d) && Bare(v) == DbObject(d)
    ensures Describes(f, accepts, d.name, v, DbOf(d))
  {
    hide Bare, Get, Has, Ascii, S.AsString, ValidUtf8, Settled, Labelled, Sorted, ElementTexts, Others;
    var es := ObjectEntries(v);
    var want := DbObject(d).p.entries;
    DbSettled(d);
    WhatDbHas(d);
    HasBare(es, Name(Ascii("dbname")));
    HasBare(es, Name(Ascii("column_family")));
    HasBare(es, Name(Ascii("options")));
    GetBare(es, Name(Ascii("dbname")));
    GetBare(es, Name(Ascii("column_family")));
    AsStringBare(f, Get(es, Name(Ascii("dbname"))));
    StringText(f, d.path);
    if d.families.Some? {
      ArrayTexts(f, Get(es, Name(Ascii("column_family"))), d.families.value);
    }
  }

  lemma StringText(f: Features, s: bytes)
    ensures S.AsString(f, Value(Str(s), 0, 0)) == Some(s)
  {
  }

  lemma WhatDbHas(d: Described)
    requires Labelled(DbObject(d).p.entries)
    ensures var es := DbObject(d).p.entries;
            && Has(es, Name(Ascii("dbname"))) && Get(es, Name(Ascii("dbname"))) == Value(Str(d.path), 0, 0)
            && (Has(es, Name(Ascii("column_family"))) <==> d.families.Some?)
            && (d.families.Some? ==>
                  Get(es, Name(Ascii("column_family"))) == TextArray(d.families.value))
            && !Has(es, Name(Ascii("options")))
  {
    hide Get, Ascii, Sorted, GoodName;
    var es := DbObject(d).p.entries;
    LabelledSorted(es);
    FoundAt(es, |es| - 1);
    FoundAt(es, 0);
    NamesDiffer();
    HasExactly(es, Name(Ascii("column_family")));
    HasExactly(es, Name(Ascii("options")));
  }

  lemma NamesDiffer()
    ensures Ascii("options") !in {Ascii("column_family"), Ascii("dbname")}
    ensures Ascii("column_family") != Ascii("dbname")
  {
    assert |Ascii("options")| == 7 && |Ascii("column_family")| == 13 && |Ascii("dbname")| == 6;
  }

  lemma HasExactly(es: Entries, k: CZString)
    ensures Has(es, k) ==> exists i :: 0 <= i < |es| && es[i].key == k
  {
    hide LowerBound;
    if Has(es, k) {
      assert es[LowerBound(es, k)].key == k;
    }
  }

  /** The databases a configuration file names, in any layout: each has its name and path, and "default"
      and the other families it lists, in order; and a request that gives the name finds it. */
  lemma FileLoads(f: Features, accepts: Value -> bool, document: bytes, ds: seq<Described>, dbs: seq<S.Db>)
    requires Writable(ds) && Asks(document, ConfigFile(ds)) && f.stackLimit >= 5
    ensures var o := P.Parse(f, document, NullValue);
            && o.Done? && o.ok
            && (Loads(f, accepts, o.value, dbs)
                <==> |dbs| == |ds| && forall k :: 0 <= k < |ds| ==> dbs[k] == DbOf(ds[k]))
  {
    hide P.Parse, Asks, Loads, Bare, Writable, ConfigFile, DbOf;
    FileIsParsed(f, document, ds);
    var root := P.Parse(f, document, NullValue).value;
    var all := seq(|ds|, k requires 0 <= k < |ds| => DbOf(ds[k]));
    AllDescribed(f, accepts, root, ds, all);
    if Loads(f, accepts, root, dbs) {
      LoadsOne(f, accepts, root, dbs, all);
    }
    if |dbs| == |ds| && forall k :: 0 <= k < |ds| ==> dbs[k] == DbOf(ds[k]) {
      assert dbs == all;
    }
  }

  lemma AllDescribed(f: Features, accepts: Value -> bool, root: Value, ds: seq<Described>, all: seq<S.Db>)
    requires Writable(ds) && Bare(root) == ConfigFile(ds)
    requires |all| == |ds| && forall k :: 0 <= k < |ds| ==> all[k] == DbOf(ds[k])
    ensures Loads(f, accepts, root, all)
  {
    hide Bare, S.Field, Ascii, Describes, Settled, Labelled, Sorted, WritableDb, DbObject, DbOf;
    FileSettled(ds);
    FieldOf(f, root, ConfigFile(ds).p.entries, 0);
    var es := ObjectEntries(S.Field(root, Ascii("dbs")).value);
    BareEntries(es);
    forall k | 0 <= k < |es| ensures Describes(f, accepts, KeyText(es[k].key), es[k].val, all[k]) {
      DbIsDescribed(f, accepts, es[k].val, ds[k]);
      SameName(ds[k]);
    }
  }

  lemma SameName(d: Described)
    ensures DbOf(d).name == d.name
  {
  }

  /** Each is found under its name. */
  lemma {:induction false} FoundByName(ds: seq<Described>, dbs: seq<S.Db>, k: nat)
    requires Sorted(DbMembers(ds)) && k < |ds| == |dbs| && forall j :: 0 <= j < |ds| ==> dbs[j].name == ds[j].name
    ensures S.FindDb(dbs, ds[k].name) == k
  {
    hide Sorted, KeyLess;
    forall j | 0 <= j < k ensures dbs[j].name != ds[k].name {
      NamesApart(DbMembers(ds), j, k);
    }
    FoundIs(dbs, ds[k].name, k);
  }

  lemma NamesApart(es: Entries, j: nat, k: nat)
    requires Sorted(es) && j < k < |es|
    ensures es[j].key != es[k].key
  {
    hide KeyLess;
    KeyOrder(es[j].key, es[k].key);
  }
}
