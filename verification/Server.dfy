/** The service itself: configurations that open their databases lazily, and exec_json. */
module ServerModel {
  import opened Bytes
  import opened Utf8
  import opened QuoteRoundTrip
  import opened JsonValue
  import opened Lexer
  import P = Parser
  import opened Reader
  import opened PrintedValues
  import opened FastWriterModel
  import opened RoundTrip
  import S = Service

  // RocksDB, as assumed: each call succeeds or fails as a whole, and a failed one changes nothing.
  class Store {
    var data: S.Data

    constructor ()
      ensures data == map[]
    {
      data := map[];
    }

    method Put(cell: S.Cell, value: bytes, serves: bool) returns (ok: bool)
      modifies this
      ensures ok == serves && data == if ok then old(data)[cell := value] else old(data)
    {
      ok := serves;
      if ok {
        data := data[cell := value];
      }
    }

    // Get fails for a missing key, too.
    method Get(cell: S.Cell, serves: bool) returns (ok: bool, value: bytes)
      ensures ok == (serves && cell in data) && (ok ==> value == data[cell])
    {
      ok, value := serves && cell in data, [];
      if ok {
        value := data[cell];
      }
    }

    // Write: the puts of a batch, in the order they were added.
    method Write(path: bytes, batch: seq<(bytes, bytes)>, serves: bool) returns (ok: bool)
      modifies this
      ensures ok == serves
      ensures data == if ok then S.PutAll(old(data), path, S.DEFAULT_FAMILY, batch) else old(data)
    {
      ok := serves;
      if ok {
        data := S.PutAll(data, path, S.DEFAULT_FAMILY, batch);
      }
    }
  }

  // An open column family: where it is and the name it was opened under.
  datatype Handle = Handle(path: bytes, family: bytes)

  // No column families at all, or "default" first and nowhere else.
  predicate Configured(cfNames: seq<bytes>) {
    cfNames != [] ==> cfNames[0] == S.DEFAULT_FAMILY && S.DEFAULT_FAMILY !in cfNames[1..]
  }

  // The families open() asks for: "default", then the configured ones other than it.
  function Asked(cfNames: seq<bytes>): seq<bytes> {
    [S.DEFAULT_FAMILY] + Others(cfNames)
  }

  function Others(cfNames: seq<bytes>): seq<bytes> {
    if cfNames == [] then []
    else (if cfNames[0] == S.DEFAULT_FAMILY then [] else [cfNames[0]]) + Others(cfNames[1..])
  }

  lemma {:induction false} OthersConcat(a: seq<bytes>, b: seq<bytes>)
    ensures Others(a + b) == Others(a) + Others(b)
  {
    if a == [] {
      assert a + b == b;
    } else {
      assert (a + b)[1..] == a[1..] + b;
      OthersConcat(a[1..], b);
    }
  }

  lemma MoreOthers(cfNames: seq<bytes>, k: nat)
    requires k <= |cfNames|
    ensures |Others(cfNames[..k])| <= |Others(cfNames)|
  {
    OthersConcat(cfNames[..k], cfNames[k..]);
    assert cfNames[..k] + cfNames[k..] == cfNames;
  }

  lemma {:induction false} OthersOfOthers(cfNames: seq<bytes>)
    requires S.DEFAULT_FAMILY !in cfNames
    ensures Others(cfNames) == cfNames
  {
    if cfNames != [] {
      OthersOfOthers(cfNames[1..]);
      assert cfNames == [cfNames[0]] + cfNames[1..];
    }
  }

  /** Of a configured list, exactly that list is opened, in that order. */
  lemma AskedIsConfigured(cfNames: seq<bytes>)
    requires cfNames != [] && Configured(cfNames)
    ensures Asked(cfNames) == cfNames
  {
    OthersOfOthers(cfNames[1..]);
    assert cfNames == [cfNames[0]] + cfNames[1..];
  }

  class Config {
    const name: bytes
    const path: bytes
    const cfNames: seq<bytes>
    const isCf: bool
    var isOpen: bool
    var handles: seq<Handle>
    var db: Option<bytes>  // the open database, by its path; None for nullptr

    ghost predicate Valid()
      reads this
    {
      && isCf == (cfNames != []) && Configured(cfNames)
      && (isOpen ==> db == Some(path) && (isCf ==> Aligned()))
    }

    // The handles line up with the names.
    ghost predicate Aligned()
      reads this
    {
      |handles| == |cfNames| && forall k :: 0 <= k < |cfNames| ==> handles[k] == Handle(path, cfNames[k])
    }

    ghost function Abs(): S.Db
      reads this
    {
      S.Db(name, path, cfNames, isOpen)
    }

    // The pointer db is not initialized.
    constructor (name_: bytes, path_: bytes, cfNames_: seq<bytes>, garbage: Option<bytes>)
      requires Configured(cfNames_)
      ensures Valid() && Abs() == S.Db(name_, path_, cfNames_, false)
    {
      name, path, cfNames, isCf := name_, path_, cfNames_, cfNames_ != [];
      isOpen, handles, db := false, [], garbage;
    }

    // The descriptors of the families to open; the default one has to be among them.
    method Descriptors() returns (columnFamilies: seq<bytes>)
      ensures columnFamilies == Asked(cfNames)
    {
      columnFamilies := [S.DEFAULT_FAMILY];
      var k := 0;
      while k < |cfNames|
        invariant k <= |cfNames| && columnFamilies == [S.DEFAULT_FAMILY] + Others(cfNames[..k])
      {
        assert cfNames[..k + 1] == cfNames[..k] + [cfNames[k]];
        OthersConcat(cfNames[..k], [cfNames[k]]);
        if cfNames[k] != S.DEFAULT_FAMILY {
          columnFamilies := columnFamilies + [cfNames[k]];
        }
        k := k + 1;
      }
      assert cfNames[..k] == cfNames;
    }

    // The database and its families are created where the path does not exist; an assertion
    // follows every call.
    method Create(env: S.Env) returns (created: bool)
      ensures created <==> S.Creates(env, |Asked(cfNames)|)
    {
      var calls := 0;
      var status := S.Created(env, calls);
      calls := 1;
      if !status {
        return false;
      }
      assert cfNames[..0] == [];
      var k := 0;
      while k < |cfNames|
        invariant k <= |cfNames| && calls == 1 + |Others(cfNames[..k])| && S.Creates(env, calls)
      {
        assert cfNames[..k + 1] == cfNames[..k] + [cfNames[k]];
        OthersConcat(cfNames[..k], [cfNames[k]]);
        if cfNames[k] != S.DEFAULT_FAMILY {
          status := S.Created(env, calls);
          calls := calls + 1;
          if !status {
            MoreOthers(cfNames, k + 1);
            return false;
          }
        }
        k := k + 1;
      }
      assert cfNames[..k] == cfNames;
      created := true;
    }

    /** open: only the first successful call does anything; afterwards the handles line up with
        the configured names. */
    method Open(env: S.Env) returns (aborted: bool, error: int)
      requires Valid()
      modifies `isOpen, `handles, `db
      ensures Valid()
      ensures aborted <==> S.Opening(old(Abs()), env).None?
      ensures !aborted ==> Some(isOpen) == S.Opening(old(Abs()), env) && error == if isOpen then 0 else 4
      ensures aborted ==> isOpen == old(isOpen)
    {
      if isOpen {
        return false, 0;
      }
      if !isCf {
        db := if env.opens then Some(path) else None;
      } else {
        AskedIsConfigured(cfNames);
        if !env.present {
          var created := Create(env);
          if !created {
            return true, 0;
          }
        }
        var columnFamilies := Descriptors();
        // DB::Open: one handle for every descriptor, in order.
        handles := if env.opens then seq(|columnFamilies|, i requires 0 <= i < |columnFamilies| =>
                                           Handle(path, columnFamilies[i])) else [];
        db := if env.opens then Some(path) else None;
      }
      isOpen := env.opens;
      return false, if env.opens then 0 else 4;
    }

    /** get_handle: of an open database, the handle opened under that name, or none if the name is
        not configured. */
    method GetHandle(str: bytes) returns (handle: Option<Handle>)
      requires Valid() && isOpen
      ensures handle == if str in cfNames then Some(Handle(path, str)) else None
    {
      handle := None;
      var iter := 0;
      while iter < |cfNames| && cfNames[iter] != str
        invariant iter <= |cfNames| && str !in cfNames[..iter]
      {
        iter := iter + 1;
      }
      if iter != |cfNames| {
        handle := Some(handles[iter]);
      }
    }

    // The operations. (The pointer db is used only when it is set, and then by open().)

    method Put(store: Store, key: bytes, value: bytes, env: S.Env) returns (err: S.Reply)
      requires Valid() && (db.Some? ==> isOpen)
      modifies store
      ensures if db.None? then err.error == -1 && store.data == old(store.data)
              else (err, store.data) == S.Perform(Abs(), old(store.data), S.Put(key, value), env)
    {
      if db.None? {
        return S.Reply(-1, None);
      }
      var ok := store.Put(S.Cell(db.value, S.DEFAULT_FAMILY, key), value, env.serves);
      err := S.Reply(if ok then 0 else -2, None);
    }

    method PutCf(store: Store, cfName: bytes, key: bytes, value: bytes, env: S.Env) returns (err: S.Reply)
      requires Valid() && (db.Some? ==> isOpen)
      modifies store
      ensures if db.None? then err.error == -1 && store.data == old(store.data)
              else (err, store.data) == S.Perform(Abs(), old(store.data), S.PutCf(cfName, key, value), env)
    {
      if db.None? {
        return S.Reply(-1, None);
      }
      var handle := GetHandle(cfName);
      if handle.None? {
        return S.Reply(7, None);
      }
      var ok := store.Put(S.Cell(handle.value.path, handle.value.family, key), value, env.serves);
      err := S.Reply(if ok then 0 else -2, None);
    }

    method Get(store: Store, key: bytes, env: S.Env) returns (err: S.Reply)
      requires Valid() && (db.Some? ==> isOpen)
      ensures if db.None? then err.error == -1
              else (err, store.data) == S.Perform(Abs(), store.data, S.Get(key), env)
    {
      if db.None? {
        return S.Reply(-1, None);
      }
      var ok, value := store.Get(S.Cell(db.value, S.DEFAULT_FAMILY, key), env.serves);
      err := if ok then S.Reply(0, Some(value)) else S.Reply(-2, None);
    }

    method GetCf(store: Store, cfName: bytes, key: bytes, env: S.Env) returns (err: S.Reply)
      requires Valid() && (db.Some? ==> isOpen)
      ensures if db.None? then err.error == -1
              else (err, store.data) == S.Perform(Abs(), store.data, S.GetCf(cfName, key), env)
    {
      if db.None? {
        return S.Reply(-1, None);
      }
      var handle := GetHandle(cfName);
      if handle.None? {
        return S.Reply(7, None);
      }
      var ok, value := store.Get(S.Cell(handle.value.path, handle.value.family, key), env.serves);
      err := if ok then S.Reply(0, Some(value)) else S.Reply(-2, None);
    }

    /** write_batch: all members are converted before anything is written. */
    method WriteBatch(store: Store, f: Features, items: Value, env: S.Env) returns (r: S.Result)
      requires Valid() && (db.Some? ==> isOpen)
      modifies store
      ensures if db.None? then r == S.Answer(S.Reply(-1, None)) && store.data == old(store.data)
              else match S.BatchOf(f, items)
                   case None => r == S.Crashed && store.data == old(store.data)
                   case Some(batch) =>
                     r.Answer? && (r.reply, store.data) == S.Perform(Abs(), old(store.data), S.WriteBatch(batch), env)
    {
      if db.None? {
        return S.Answer(S.Reply(-1, None));
      }
      if !items.p.Null? && !items.p.Obj? {
        return S.Crashed;
      }
      var es := if items.p.Obj? then items.p.entries else [];
      if !S.Named(es) {
        return S.Crashed;
      }
      var batch := CollectBatch(f, es);
      if batch.None? {
        return S.Crashed;
      }
      var ok := store.Write(db.value, batch.value, env.serves);
      r := S.Answer(S.Reply(if ok then 0 else -2, None));
    }
  }

  // read_config ----------------------------------------------------------------------------------

  const COLUMN_FAMILY := Ascii("column_family")
  const DBNAME := Ascii("dbname")
  const OPTIONS := Ascii("options")

  function MembersOf(root: Value): Entries {
    if root.p.Arr? || root.p.Obj? then root.p.entries else []
  }

  // The elements of an array as texts, in order; nothing that is not an array has any.
  predicate ElementTexts(f: Features, v: Value, texts: seq<bytes>) {
    match v.p
    case Arr(es) =>
      && |texts| == ArraySize(es)
      && forall i :: 0 <= i < |texts| ==> S.AsString(f, JsonValue.Get(es, Index(i))) == Some(texts[i])
    case Obj(es) => es == [] && texts == []
    case _ => texts == []
  }

  // "default", and the elements of an array other than it, as texts and in order.
  ghost predicate FamiliesIn(f: Features, v: Value, families: seq<bytes>) {
    exists texts :: ElementTexts(f, v, texts) && families == [Ascii("default")] + Others(texts)
  }

  /** The configuration a member of "dbs" describes: it has the member's name, the path is the text of
      "dbname", the column families are those in "column_family" (none if there is no such member); and
      the "options" are `accept`ed, that is, converted without an exception. */
  ghost predicate Describes(f: Features, accepts: Value -> bool, name: bytes, root: Value, db: S.Db) {
    var es := MembersOf(root);
    && db.name == name && !db.isOpen
    && (if Has(es, Name(Ascii("dbname")))
        then S.AsString(f, JsonValue.Get(es, Name(Ascii("dbname")))) == Some(db.path) else db.path == [])
    && (if Has(es, Name(Ascii("column_family")))
        then FamiliesIn(f, JsonValue.Get(es, Name(Ascii("column_family"))), db.families) else db.families == [])
    && (Has(es, Name(Ascii("options"))) ==> accepts(JsonValue.Get(es, Name(Ascii("options")))))
  }

  /** There is at most one. */
  lemma DescribesOne(f: Features, accepts: Value -> bool, name: bytes, root: Value, db: S.Db, db': S.Db)
    requires Describes(f, accepts, name, root, db) && Describes(f, accepts, name, root, db')
    ensures db == db'
  {
    hide S.AsString, JsonValue.Get, Has, Ascii, ElementTexts, Others;
    var es := MembersOf(root);
    if Has(es, Name(Ascii("column_family"))) {
      var v := JsonValue.Get(es, Name(Ascii("column_family")));
      var a :| ElementTexts(f, v, a) && db.families == [Ascii("default")] + Others(a);
      var b :| ElementTexts(f, v, b) && db'.families == [Ascii("default")] + Others(b);
      SameTexts(f, v, a, b);
    }
  }

  lemma SameTexts(f: Features, v: Value, a: seq<bytes>, b: seq<bytes>)
    requires ElementTexts(f, v, a) && ElementTexts(f, v, b)
    ensures a == b
  {
    hide S.AsString, JsonValue.Get, ArraySize;
  }

  // What is left of a list without "default": the others, all of them and in order.
  lemma {:induction false} OthersAreNotDefault(texts: seq<bytes>)
    ensures S.DEFAULT_FAMILY !in Others(texts)
  {
    hide Ascii;
    if texts != [] {
      OthersAreNotDefault(texts[1..]);
    }
  }

  /** Every configuration has "default" first in its families and nowhere else, or no families. */
  lemma ConfigIsConfigured(f: Features, accepts: Value -> bool, name: bytes, root: Value, db: S.Db)
    requires Describes(f, accepts, name, root, db)
    ensures Configured(db.families)
    ensures db.families != [] <==> Has(MembersOf(root), Name(COLUMN_FAMILY))
  {
    hide S.AsString, JsonValue.Get, Has, Ascii, Others, ElementTexts;
    var es := MembersOf(root);
    if Has(es, Name(COLUMN_FAMILY)) {
      FamiliesAreConfigured(f, JsonValue.Get(es, Name(COLUMN_FAMILY)), db.families);
    }
  }

  lemma FamiliesAreConfigured(f: Features, v: Value, families: seq<bytes>)
    requires FamiliesIn(f, v, families)
    ensures Configured(families) && families != []
  {
    hide S.AsString, JsonValue.Get, Ascii, Others, ElementTexts;
    var texts :| ElementTexts(f, v, texts) && families == [S.DEFAULT_FAMILY] + Others(texts);
    OthersAreNotDefault(texts);
    assert families[1..] == Others(texts);
  }

  /** On a configured database, put means put_cf on "default", and get means get_cf on it, if and only
      if its configuration has a "column_family" member; without one the latter two reply 7. */
  lemma DefaultFamilyConfigured(f: Features, accepts: Value -> bool, name: bytes, root: Value, s: S.State, i: nat,
                                plain: Value, named: Value, env: S.Env)
    requires i < |s.dbs| && Describes(f, accepts, name, root, s.dbs[i].(isOpen := false))
    requires S.Opening(s.dbs[i], env) == Some(true)
    requires var a, b := S.Decode(f, plain), S.Decode(f, named);
             || (a.Put? && b == S.PutCf(S.DEFAULT_FAMILY, a.key, a.value))
             || (a.Get? && b == S.GetCf(S.DEFAULT_FAMILY, a.key))
    ensures S.ExecOn(f, s, i, plain, env) == S.ExecOn(f, s, i, named, env)
       <==> Has(MembersOf(root), Name(COLUMN_FAMILY))
    ensures !Has(MembersOf(root), Name(COLUMN_FAMILY)) ==>
              S.ExecOn(f, s, i, named, env).0 == S.Answer(S.Reply(7, None))
  {
    hide S.Decode, Describes, Has, Ascii, Configured;
    ConfigIsConfigured(f, accepts, name, root, s.dbs[i].(isOpen := false));
    var db := s.dbs[i].(isOpen := true);
    if Has(MembersOf(root), Name(COLUMN_FAMILY)) {
      DefaultListed(db.families);
      S.DefaultFamily(db, s.data, S.Decode(f, plain).key,
                      if S.Decode(f, plain).Put? then S.Decode(f, plain).value else [], env);
    }
  }

  lemma DefaultListed(families: seq<bytes>)
    requires Configured(families) && families != []
    ensures S.DEFAULT_FAMILY in families
  {
  }

  // The families, or None when an element cannot be converted.
  method ReadFamilies(f: Features, v: Value) returns (cf: Option<seq<bytes>>)
    ensures if cf.Some? then FamiliesIn(f, v, cf.value) else forall families :: !FamiliesIn(f, v, families)
  {
    hide S.AsString, JsonValue.Get, Ascii;
    var size := match v.p case Arr(es) => ArraySize(es) case Obj(es) => |es| case _ => 0;
    if !v.p.Arr? {
      assert size == 0 ==> ElementTexts(f, v, []) && Others([]) == [];
      return if size == 0 then Some([S.DEFAULT_FAMILY] + []) else None;
    }
    ghost var texts: seq<bytes> := [];
    var names: seq<bytes> := [];
    var i := 0;
    while i < size
      invariant i == |texts| <= size && names == Others(texts)
      invariant forall j :: 0 <= j < i ==> S.AsString(f, JsonValue.Get(v.p.entries, Index(j))) == Some(texts[j])
    {
      var name := S.AsString(f, JsonValue.Get(v.p.entries, Index(i)));
      if name.None? {
        return None;
      }
      OthersConcat(texts, [name.value]);
      OneOther(name.value);
      names := names + if name.value == S.DEFAULT_FAMILY then [] else [name.value];
      texts := texts + [name.value];
      i := i + 1;
    }
    assert ElementTexts(f, v, texts);
    cf := Some([S.DEFAULT_FAMILY] + names);
  }

  lemma OneOther(name: bytes)
    ensures Others([name]) == if name == S.DEFAULT_FAMILY then [] else [name]
  {
    hide Ascii;
    assert [name][1..] == [];
  }

  lemma PrependedMore<T>(done: seq<T>, xs: seq<T>, rest: Option<seq<T>>)
    ensures Prepended(done, if rest.None? then None else Some(xs + rest.value)) == Prepended(done + xs, rest)
  {
    if rest.Some? {
      Resume(done, xs, rest.value);
    }
  }

  // A key that stands before position k.
  predicate Seen(es: Entries, key: CZString, k: nat) { Has(es, key) && LowerBound(es, key) < k }

  lemma SeenNext(es: Entries, key: CZString, k: nat)
    requires Sorted(es) && k < |es|
    ensures Seen(es, key, k + 1) <==> Seen(es, key, k) || es[k].key == key
    ensures es[k].key == key ==> Has(es, key) && Get(es, key) == es[k].val
  {
    FoundAt(es, k);
  }

  lemma SeenAll(es: Entries, key: CZString)
    ensures Seen(es, key, |es|) <==> Has(es, key)
    ensures !Seen(es, key, 0)
  {
  }

  /** read_config: the configuration of one database, or None when a conversion throws. */
  method ReadConfig(f: Features, accepts: Value -> bool, name: bytes, root: Value, garbage: Option<bytes>)
    returns (c: Option<Config>)
    requires Sorted(MembersOf(root))
    ensures c.Some? ==> fresh(c.value) && c.value.Valid() && Describes(f, accepts, name, root, c.value.Abs())
    ensures c.None? ==> forall db :: !Describes(f, accepts, name, root, db)
  {
    hide S.AsString, FamiliesIn, JsonValue.Get, Has, Ascii, Seen, Sorted, Configured;
    var es := MembersOf(root);
    var path: bytes, cf: seq<bytes> := [], [];
    var k := 0;
    SeenAll(es, Name(DBNAME));
    SeenAll(es, Name(COLUMN_FAMILY));
    SeenAll(es, Name(OPTIONS));
    DifferentNames();
    while k < |es|
      invariant k <= |es|
      invariant if Seen(es, Name(DBNAME), k) then S.AsString(f, Get(es, Name(DBNAME))) == Some(path) else path == []
      invariant if Seen(es, Name(COLUMN_FAMILY), k) then FamiliesIn(f, Get(es, Name(COLUMN_FAMILY)), cf) else cf == []
      invariant Seen(es, Name(OPTIONS), k) ==> accepts(Get(es, Name(OPTIONS)))
    {
      SeenNext(es, Name(DBNAME), k);
      SeenNext(es, Name(COLUMN_FAMILY), k);
      SeenNext(es, Name(OPTIONS), k);
      if es[k].key == Name(COLUMN_FAMILY) {
        var names := ReadFamilies(f, es[k].val);
        if names.None? {
          return None;
        }
        cf := names.value;
      } else if es[k].key == Name(DBNAME) {
        var text := S.AsString(f, es[k].val);
        if text.None? {
          return None;
        }
        path := text.value;
      } else if es[k].key == Name(OPTIONS) {
        if !accepts(es[k].val) {
          return None;
        }
      }
      k := k + 1;
    }
    ConfigIsConfigured(f, accepts, name, root, S.Db(name, path, cf, false));
    var config := new Config(name, path, cf, garbage);
    c := Some(config);
  }

  lemma DifferentNames()
    ensures Name(DBNAME) != Name(COLUMN_FAMILY) && Name(OPTIONS) !in {Name(DBNAME), Name(COLUMN_FAMILY)}
  {
    assert |DBNAME| != |COLUMN_FAMILY| && |OPTIONS| !in {|DBNAME|, |COLUMN_FAMILY|};
  }

  // The loop of write_batch that fills the batch.
  method CollectBatch(f: Features, es: Entries) returns (r: Option<seq<(bytes, bytes)>>)
    requires S.Named(es)
    ensures r == S.BatchFrom(f, es, 0)
  {
    hide JsonValue.Get, S.AsString;
    var batch: seq<(bytes, bytes)> := [];
    ghost var goal := S.BatchFrom(f, es, 0);
    PrependedNothing(goal);
    var k := 0;
    while k < |es|
      invariant k <= |es|
      invariant goal == Prepended(batch, S.BatchFrom(f, es, k))
    {
      var value := S.AsString(f, JsonValue.Get(es, es[k].key));
      if value.None? {
        return None;
      }
      PrependedMore(batch, [(es[k].key.s, value.value)], S.BatchFrom(f, es, k + 1));
      batch := batch + [(es[k].key.s, value.value)];
      k := k + 1;
    }
    assert batch + [] == batch;
    r := Some(batch);
  }

  lemma PrependedNothing<T>(rest: Option<seq<T>>)
    ensures Prepended([], rest) == rest
  {
    if rest.Some? {
      assert [] + rest.value == rest.value;
    }
  }

  function Prepended<T>(done: seq<T>, rest: Option<seq<T>>): Option<seq<T>> {
    if rest.None? then None else Some(done + rest.value)
  }

  // Replies --------------------------------------------------------------------------------------

  const ERROR := Ascii("error")
  const VALUE := Ascii("value")

  // A reply as a JSON object.
  function ReplyValue(r: S.Reply): Value {
    var es := [Entry(Name(ERROR), Value(Int(r.error), 0, 0))];
    Value(Obj(if r.value.None? then es else es + [Entry(Name(VALUE), Value(Str(r.value.value), 0, 0))]), 0, 0)
  }

  // The text sent for it.
  function ReplyText(f: Features, r: S.Reply): bytes {
    FastDocument(FastStyle(false, false, false, f.printDouble), ReplyValue(r))
  }

  class Server {
    const f: Features
    const configs: seq<Config>
    const store: Store

    ghost predicate Valid()
      reads configs
    {
      && f == DefaultFeatures(f.parseDouble, f.printDouble)
      && (forall i :: 0 <= i < |configs| ==> configs[i].Valid())
      && forall i, j :: 0 <= i < j < |configs| ==> configs[i] != configs[j]
    }

    ghost function Dbs(): (dbs: seq<S.Db>)
      reads configs
    {
      seq(|configs|, i requires 0 <= i < |configs| reads configs => configs[i].Abs())
    }

    ghost function Abs(): S.State
      reads configs, store
    {
      S.State(Dbs(), store.data)
    }

    constructor (parseDouble: bytes -> Option<Double>, printDouble: Double -> bytes, cs: seq<Config>, s: Store)
      requires forall i :: 0 <= i < |cs| ==> cs[i].Valid()
      requires forall i, j :: 0 <= i < j < |cs| ==> cs[i] != cs[j]
      ensures Valid() && configs == cs && store == s && f == DefaultFeatures(parseDouble, printDouble)
    {
      f := DefaultFeatures(parseDouble, printDouble);
      configs, store := cs, s;
    }

    // find_if: the first configuration of that name, or |configs|.
    method Find(name: bytes) returns (i: nat)
      ensures i == S.FindDb(Dbs(), name)
    {
      i := 0;
      while i < |configs| && configs[i].name != name
        invariant i <= |configs| && forall j :: 0 <= j < i ==> configs[j].name != name
      {
        i := i + 1;
      }
      ghost var dbs := Dbs();
      assert forall j :: 0 <= j < |dbs| ==> dbs[j].name == configs[j].name;
      FoundIs(dbs, name, i);
    }

    // What follows the lookup of the database: opening it and dispatching on "op".
    method Dispatch(i: nat, root: Value, env: S.Env) returns (r: S.Result)
      requires Valid() && i < |configs|
      modifies configs, store
      ensures Valid()
      ensures (r, Abs()) == S.ExecOn(f, old(Abs()), i, root, env)
    {
      hide S.Decode, S.Perform, S.TextField;
      var item := configs[i];
      var aborted, error := item.Open(env);
      assert Dbs() == old(Dbs())[i := item.Abs()];
      if aborted {
        assert old(Dbs())[i := item.Abs()] == old(Dbs());
        return S.Crashed;
      }
      if !item.isOpen {
        return S.Answer(S.Reply(error, None));
      }
      r := Operate(item, root, env);
    }

    method Operate(item: Config, root: Value, env: S.Env) returns (r: S.Result)
      requires item.Valid() && item.isOpen
      modifies store
      ensures var a := S.Decode(f, root);
              if a.Bad? then r == S.Crashed && store.data == old(store.data)
              else r.Answer? && (r.reply, store.data) == S.Perform(item.Abs(), old(store.data), a, env)
    {
      hide S.TextField, S.BatchOf, Ascii, S.PutAll;
      var op := S.TextField(f, root, Ascii("op"));
      if op.None? {
        return S.Crashed;
      }
      if op.value == Ascii("put_cf") {
        var column := S.TextField(f, root, Ascii("column"));
        var key := S.TextField(f, root, Ascii("key"));
        var value := S.TextField(f, root, Ascii("value"));
        if column.None? || key.None? || value.None? {
          return S.Crashed;
        }
        var reply := item.PutCf(store, column.value, key.value, value.value, env);
        r := S.Answer(reply);
      } else if op.value == Ascii("put") {
        var key := S.TextField(f, root, Ascii("key"));
        var value := S.TextField(f, root, Ascii("value"));
        if key.None? || value.None? {
          return S.Crashed;
        }
        var reply := item.Put(store, key.value, value.value, env);
        r := S.Answer(reply);
      } else if op.value == Ascii("write_batch") {
        var items := S.Field(root, Ascii("items"));
        if items.None? {
          return S.Crashed;
        }
        r := item.WriteBatch(store, f, items.value, env);
      } else if op.value == Ascii("get") {
        var key := S.TextField(f, root, Ascii("key"));
        if key.None? {
          return S.Crashed;
        }
        var reply := item.Get(store, key.value, env);
        r := S.Answer(reply);
      } else if op.value == Ascii("get_cf") {
        var column := S.TextField(f, root, Ascii("column"));
        var key := S.TextField(f, root, Ascii("key"));
        if column.None? || key.None? {
          return S.Crashed;
        }
        var reply := item.GetCf(store, column.value, key.value, env);
        r := S.Answer(reply);
      } else {
        r := S.Answer(S.Reply(7, None));
      }
    }

    // exec_json up to the reply object.
    method Execute(inp: bytes, env: S.Env) returns (r: S.Result)
      requires Valid()
      modifies configs, store
      ensures Valid()
      ensures (r, Abs()) == S.Exec(f, old(Abs()), inp, env)
    {
      hide S.ExecOn, S.TextField, S.FindDb, P.Parse;
      var reader := new OurReader(f);
      var s, root := reader.Parse(inp, NullValue);
      if s.Threw? {
        return S.Crashed;
      }
      if !s.ok {
        return S.Answer(S.Reply(1, None));
      }
      var dbName := S.TextField(f, root, Ascii("dbname"));
      if dbName.None? {
        return S.Crashed;
      }
      if dbName.value == [] {
        return S.Answer(S.Reply(6, None));
      }
      var i := Find(dbName.value);
      if i == |configs| {
        return S.Answer(S.Reply(3, None));
      }
      r := Dispatch(i, root, env);
    }

    /** exec_json: refines the state machine, and writes its reply; None when the program ends. */
    method ExecJson(inp: bytes, env: S.Env) returns (text: Option<bytes>)
      requires Valid()
      modifies configs, store
      ensures Valid() && Abs() == S.Exec(f, old(Abs()), inp, env).1
      ensures text == match S.Exec(f, old(Abs()), inp, env).0
                      case Crashed => None
                      case Answer(reply) => Some(ReplyText(f, reply))
    {
      hide S.Exec, FastDocument;
      S.FailureChangesNothing(f, Abs(), inp, env);
      var r := Execute(inp, env);
      if r.Crashed? {
        return None;
      }
      var writer := new FastWriter(FastStyle(false, false, false, f.printDouble));
      ReplyFits(r.reply);
      var out := writer.Write(ReplyValue(r.reply));
      text := Some(out);
    }

    /** A run of requests, one after the other, until one ends the program: the state machine's run,
        and the texts of its replies. */
    method Serve(rs: seq<S.Request>) returns (texts: seq<bytes>, ended: bool)
      requires Valid()
      modifies configs, store
      ensures Valid() && (ended <==> S.RunAll(f, old(Abs()), rs).None?)
      ensures !ended ==> Some(Abs()) == S.RunAll(f, old(Abs()), rs)
      ensures var replies := S.Replies(f, old(Abs()), rs);
              |texts| == |replies| && forall k :: 0 <= k < |texts| ==> texts[k] == ReplyText(f, replies[k])
    {
      hide S.Exec, S.RunAll, S.Replies, Serving, ReplyText;
      ghost var s0, sent: seq<S.Reply> := Abs(), [];
      ServingStarts(f, s0, rs);
      texts, ended := [], false;
      var k := 0;
      while k < |rs|
        invariant k <= |rs| && Valid()
        invariant Serving(f, s0, rs, sent, Abs(), rs[k..])
        invariant |texts| == |sent| && forall j :: 0 <= j < |texts| ==> texts[j] == ReplyText(f, sent[j])
      {
        ServingGoesOn(f, s0, rs, sent, Abs(), k);
        ghost var r := S.Exec(f, Abs(), rs[k].inp, rs[k].env).0;
        var text := ExecJson(rs[k].inp, rs[k].env);
        if text.None? {
          return texts, true;
        }
        texts := texts + [text.value];
        sent := sent + [r.reply];
        k := k + 1;
      }
      ServingEnds(f, s0, rs, sent, Abs());
    }
  }

  // The state of a run of requests: the replies sent and the state reached, and the rest of the run.
  ghost predicate Serving(f: Features, s0: S.State, rs: seq<S.Request>, sent: seq<S.Reply>, s: S.State,
                          rest: seq<S.Request>) {
    && S.RunAll(f, s0, rs) == S.RunAll(f, s, rest)
    && S.Replies(f, s0, rs) == sent + S.Replies(f, s, rest)
  }

  lemma ServingStarts(f: Features, s0: S.State, rs: seq<S.Request>)
    ensures Serving(f, s0, rs, [], s0, rs[0..])
  {
    assert rs[0..] == rs && [] + S.Replies(f, s0, rs) == S.Replies(f, s0, rs);
  }

  lemma ServingGoesOn(f: Features, s0: S.State, rs: seq<S.Request>, sent: seq<S.Reply>, s: S.State, k: nat)
    requires k < |rs| && Serving(f, s0, rs, sent, s, rs[k..])
    ensures var (r, s') := S.Exec(f, s, rs[k].inp, rs[k].env);
            if r.Crashed? then S.RunAll(f, s0, rs).None? && S.Replies(f, s0, rs) == sent
            else Serving(f, s0, rs, sent + [r.reply], s', rs[k + 1..])
  {
    hide S.Exec;
    assert rs[k..][0] == rs[k] && rs[k..][1..] == rs[k + 1..];
    var (r, s') := S.Exec(f, s, rs[k].inp, rs[k].env);
    if r.Crashed? {
      assert sent + [] == sent;
    } else {
      Resume(sent, [r.reply], S.Replies(f, s', rs[k + 1..]));
    }
  }

  lemma ServingEnds(f: Features, s0: S.State, rs: seq<S.Request>, sent: seq<S.Reply>, s: S.State)
    requires Serving(f, s0, rs, sent, s, rs[|rs|..])
    ensures S.RunAll(f, s0, rs) == Some(s) && S.Replies(f, s0, rs) == sent
  {
    assert rs[|rs|..] == [] && sent + [] == sent;
  }

  lemma FoundIs(dbs: seq<S.Db>, name: bytes, i: nat)
    requires i <= |dbs| && (i < |dbs| ==> dbs[i].name == name) && forall j :: 0 <= j < i ==> dbs[j].name != name
    ensures S.FindDb(dbs, name) == i
  {
  }

  lemma ReplyFits(r: S.Reply)
    requires -2 <= r.error <= 7
    ensures IntegersFit(ReplyValue(r)) && Printable(ReplyValue(r), false) && Nesting(ReplyValue(r)) == 2
  {
    var e := Entry(Name(ERROR), Value(Int(r.error), 0, 0));
    FitsFirst(e, []);
    if r.value.Some? {
      var v := Entry(Name(VALUE), Value(Str(r.value.value), 0, 0));
      FitsFirst(v, []);
      FitsFirst(e, [v]);
      assert [e] + [v] == ReplyValue(r).p.entries;
      ReplyKeys();
    } else {
      assert [e] + [] == ReplyValue(r).p.entries;
      ReplyKeys();
    }
  }

  // "error" comes before "value", and both are short and valid UTF-8.
  lemma ReplyKeys()
    ensures KeyLess(Name(ERROR), Name(VALUE)) && GoodName(Name(ERROR), false) && GoodName(Name(VALUE), false)
  {
    AsciiIsValid("error");
    AsciiIsValid("value");
    assert |ERROR| == |VALUE| == 5 && ERROR[0] == 0x65 && VALUE[0] == 0x76;
    hide Ascii, ValidUtf8;
  }

  lemma {:induction false} AsciiIsValid(s: string)
    requires forall k :: 0 <= k < |s| ==> s[k] < 128 as char
    ensures ValidUtf8(Ascii(s)) && |Ascii(s)| == |s|
  {
    if s != [] {
      assert Ascii(s)[1..] == Ascii(s[1..]);
      AsciiIsValid(s[1..]);
    }
  }

  lemma FitsFirst(en: Entry, es: Entries)
    requires IntegersFit(en.val) && Printable(en.val, false) && Nesting(en.val) == 1
    requires AllIntegersFit(es) && AllPrintable(es, false) && ItemsNesting(es) <= 1
    ensures AllIntegersFit([en] + es) && AllPrintable([en] + es, false) && ItemsNesting([en] + es) == 1
  {
    assert ([en] + es)[1..] == es;
    assert EntryIntegersFit(en) && EntryPrintable(en, false) && EntryNesting(en) == 1;
  }

  /** The client side: every reply text is read back, with the default settings, as the reply's
      object, the value sanitized if it is not valid UTF-8. */
  lemma ReplyIsRead(parseDouble: bytes -> Option<Double>, printDouble: Double -> bytes, r: S.Reply)
    requires -2 <= r.error <= 7
    ensures var f := DefaultFeatures(parseDouble, printDouble);
            var o := P.Parse(f, ReplyText(f, r), NullValue);
            && o.Done? && o.ok && o.errors == []
            && Bare(o.value)
               == ReplyValue(S.Reply(r.error, if r.value.None? then None else Some(Sanitized(r.value.value))))
  {
    hide P.Parse, FastDocument, Printable, Sanitized;
    var f := DefaultFeatures(parseDouble, printDouble);
    ReplyFits(r);
    FastRoundTrip(f, FastStyle(false, false, false, printDouble), ReplyValue(r), NullValue);
    CanonicalReply(r);
  }

  lemma CanonicalReply(r: S.Reply)
    ensures Canonical(ReplyValue(r), false)
         == ReplyValue(S.Reply(r.error, if r.value.None? then None else Some(Sanitized(r.value.value))))
  {
    hide Sanitized;
    var e := Entry(Name(ERROR), Value(Int(r.error), 0, 0));
    if r.value.Some? {
      var v := Entry(Name(VALUE), Value(Str(r.value.value), 0, 0));
      assert ([e] + [v])[1..] == [v] && [v][1..] == [];
      assert CanonicalItems([v], false) == [CanonicalEntry(v, false)] + [];
      assert CanonicalItems([e] + [v], false) == [CanonicalEntry(e, false)] + CanonicalItems([v], false);
      assert CanonicalEntry(e, false) == e;
      assert CanonicalEntry(v, false) == Entry(Name(VALUE), Value(Str(Sanitized(r.value.value)), 0, 0));
      assert [CanonicalEntry(v, false)] + [] == [CanonicalEntry(v, false)];
    } else {
      assert [e][1..] == [];
      assert CanonicalItems([e], false) == [CanonicalEntry(e, false)] + [];
    }
  }
}
