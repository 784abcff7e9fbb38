/**
  The key-value service as a state machine: what one request does to the databases, and what a
  run of requests amounts to. RocksDB is taken for a map from (path, column family, key) to value
  whose operations succeed or fail as a whole; the file system and the outcome of each call are
  given with every request.
 */
module Service {
  import opened Bytes
  import opened Numbers
  import opened JsonValue
  import opened Lexer
  import opened Parser
  import FastWriterModel

  const DEFAULT_FAMILY := Ascii("default")  // RDB::kDefaultColumnFamilyName

  datatype Cell = Cell(path: bytes, family: bytes, key: bytes)
  type Data = map<Cell, bytes>

  // A configured database: its column families, "default" first, or none.
  datatype Db = Db(name: bytes, path: bytes, families: seq<bytes>, isOpen: bool)

  datatype State = State(dbs: seq<Db>, data: Data)

  // Whether the path exists, which of the calls that create a database there succeed (first the
  // database, then one family after the other), whether opening does, and whether the read or
  // write that follows does.
  datatype Env = Env(present: bool, creates: seq<bool>, opens: bool, serves: bool)

  // The first n calls that create something succeed.
  predicate Creates(env: Env, n: nat) {
    forall k :: 0 <= k < n ==> Created(env, k)
  }

  predicate Created(env: Env, k: nat) { k < |env.creates| && env.creates[k] }

  datatype Reply = Reply(error: int, value: Option<bytes>)

  // A reply, or the end of the program by an exception or a failed assertion.
  datatype Result = Answer(reply: Reply) | Crashed

  // The requested operation; Bad when a field cannot be converted to a string.
  datatype Action =
    | PutCf(column: bytes, key: bytes, value: bytes)
    | Put(key: bytes, value: bytes)
    | WriteBatch(items: seq<(bytes, bytes)>)
    | Get(key: bytes)
    | GetCf(column: bytes, key: bytes)
    | Unknown
    | Bad

  // Values as the service uses them --------------------------------------------------------------

  // Value::asString; None for the exception.
  function AsString(f: Features, v: Value): Option<bytes> {
    match v.p
    case Null => Some([])
    case Str(s) => Some(s)
    case Bool(b) => Some(if b then FastWriterModel.TRUE_TEXT else FastWriterModel.FALSE_TEXT)
    case Int(i) => Some(IntText(i))
    case UInt(u) => Some(IntText(u))
    case Real(d) => Some(f.printDouble(d))
    case Arr(_) => None
    case Obj(_) => None
  }

  // root[key]; None for the exception of a value that is not an object.
  function Field(root: Value, key: bytes): Option<Value> {
    match root.p
    case Null => Some(NullValue)
    case Obj(es) => Some(JsonValue.Get(es, Name(key)))
    case _ => None
  }

  function TextField(f: Features, root: Value, key: bytes): Option<bytes> {
    match Field(root, key)
    case None => None
    case Some(v) => AsString(f, v)
  }

  // The members of a batch from the k-th on, as texts.
  function BatchFrom(f: Features, es: Entries, k: nat): Option<seq<(bytes, bytes)>>
    requires forall j :: 0 <= j < |es| ==> es[j].key.Name?
    decreases |es| - k
  {
    if k >= |es| then Some([])
    else
      match (AsString(f, JsonValue.Get(es, es[k].key)), BatchFrom(f, es, k + 1))
      case (Some(value), Some(rest)) => Some([(es[k].key.s, value)] + rest)
      case (_, _) => None
  }

  predicate Named(es: Entries) { forall j :: 0 <= j < |es| ==> es[j].key.Name? }

  function BatchOf(f: Features, items: Value): Option<seq<(bytes, bytes)>> {
    match items.p
    case Null => Some([])
    case Obj(es) => if Named(es) then BatchFrom(f, es, 0) else None
    case _ => None
  }

  function Decode(f: Features, root: Value): Action {
    hide TextField, Field, BatchOf, Ascii;
    match TextField(f, root, Ascii("op"))
    case None => Bad
    case Some(op) =>
      if op == Ascii("put_cf") then
        match (TextField(f, root, Ascii("column")), TextField(f, root, Ascii("key")),
               TextField(f, root, Ascii("value")))
        case (Some(column), Some(key), Some(value)) => PutCf(column, key, value)
        case (_, _, _) => Bad
      else if op == Ascii("put") then
        match (TextField(f, root, Ascii("key")), TextField(f, root, Ascii("value")))
        case (Some(key), Some(value)) => Put(key, value)
        case (_, _) => Bad
      else if op == Ascii("write_batch") then
        match Field(root, Ascii("items"))
        case None => Bad
        case Some(items) =>
          match BatchOf(f, items)
          case Some(batch) => WriteBatch(batch)
          case None => Bad
      else if op == Ascii("get") then
        match TextField(f, root, Ascii("key"))
        case Some(key) => Get(key)
        case None => Bad
      else if op == Ascii("get_cf") then
        match (TextField(f, root, Ascii("column")), TextField(f, root, Ascii("key")))
        case (Some(column), Some(key)) => GetCf(column, key)
        case (_, _) => Bad
      else Unknown
  }

  // Steps ----------------------------------------------------------------------------------------

  // The first database of that name, or |dbs|.
  function FindDb(dbs: seq<Db>, name: bytes): (i: nat)
    ensures i <= |dbs|
    ensures i < |dbs| ==> dbs[i].name == name
    ensures forall j :: 0 <= j < i ==> dbs[j].name != name
  {
    if dbs == [] || dbs[0].name == name then 0 else 1 + FindDb(dbs[1..], name)
  }

  // config::open: whether the database is open afterwards; None when an assertion fails. (The first
  // family, "default", comes with the database.)
  function Opening(db: Db, env: Env): Option<bool> {
    if db.isOpen then Some(true)
    else if db.families != [] && !env.present && !Creates(env, |db.families|) then None
    else Some(env.opens)
  }

  function ReadCell(data: Data, cell: Cell, env: Env): Reply {
    if env.serves && cell in data then Reply(0, Some(data[cell])) else Reply(-2, None)
  }

  function WriteReply(env: Env): Reply { Reply(if env.serves then 0 else -2, None) }

  function PutAll(data: Data, path: bytes, family: bytes, items: seq<(bytes, bytes)>): Data
    decreases |items|
  {
    if items == [] then data
    else PutAll(data[Cell(path, family, items[0].0) := items[0].1], path, family, items[1..])
  }

  // An operation on an open database.
  function Perform(db: Db, data: Data, a: Action, env: Env): (Reply, Data) {
    match a
    case Put(key, value) =>
      (WriteReply(env), if env.serves then data[Cell(db.path, DEFAULT_FAMILY, key) := value] else data)
    case PutCf(column, key, value) =>
      if column !in db.families then (Reply(7, None), data)
      else (WriteReply(env), if env.serves then data[Cell(db.path, column, key) := value] else data)
    case WriteBatch(items) =>
      (WriteReply(env), if env.serves then PutAll(data, db.path, DEFAULT_FAMILY, items) else data)
    case Get(key) => (ReadCell(data, Cell(db.path, DEFAULT_FAMILY, key), env), data)
    case GetCf(column, key) =>
      if column !in db.families then (Reply(7, None), data)
      else (ReadCell(data, Cell(db.path, column, key), env), data)
    case Unknown => (Reply(7, None), data)
    case Bad => (Reply(7, None), data)
  }

  // What a request names: a database and an operation.
  datatype Target = NoTarget(result: Result) | Target(db: nat, root: Value)

  function TargetOf(f: Features, dbs: seq<Db>, inp: bytes): (t: Target)
    ensures t.Target? ==> t.db < |dbs|
    ensures t.NoTarget? && t.result.Answer? ==> t.result.reply.error in {1, 3, 6} && t.result.reply.value.None?
  {
    hide Parse, TextField, FindDb, Ascii;
    match Parse(f, inp, NullValue)
    case Thrown(_) => NoTarget(Crashed)
    case Done(root, _, _, ok) =>
      if !ok then NoTarget(Answer(Reply(1, None)))
      else
        match TextField(f, root, Ascii("dbname"))
        case None => NoTarget(Crashed)
        case Some(name) =>
          if name == [] then NoTarget(Answer(Reply(6, None)))
          else if FindDb(dbs, name) == |dbs| then NoTarget(Answer(Reply(3, None)))
          else Target(FindDb(dbs, name), root)
  }

  /** exec_json on one request. */
  function Exec(f: Features, s: State, inp: bytes, env: Env): (Result, State) {
    match TargetOf(f, s.dbs, inp)
    case NoTarget(result) => (result, s)
    case Target(i, root) => ExecOn(f, s, i, root, env)
  }

  // A request for the i-th database: opened if need be, then asked for the operation.
  function ExecOn(f: Features, s: State, i: nat, root: Value, env: Env): (Result, State)
    requires i < |s.dbs|
  {
    match Opening(s.dbs[i], env)
    case None => (Crashed, s)
    case Some(isOpen) =>
      var db := s.dbs[i].(isOpen := isOpen);
      var dbs := s.dbs[i := db];
      if !isOpen then (Answer(Reply(4, None)), State(dbs, s.data))
      else if Decode(f, root).Bad? then (Crashed, State(dbs, s.data))
      else
        var (reply, data) := Perform(db, s.data, Decode(f, root), env);
        (Answer(reply), State(dbs, data))
  }

  // Properties of one step -----------------------------------------------------------------------

  /** A request that does not succeed changes no data, and only these error codes are replied. */
  lemma FailureChangesNothing(f: Features, s: State, inp: bytes, env: Env)
    ensures var (r, s') := Exec(f, s, inp, env);
            && (r.Crashed? || r.reply.error != 0 ==> s'.data == s.data)
            && (r.Answer? ==> r.reply.error in {0, 1, 3, 4, 6, 7, -2} && (r.reply.value.Some? ==> r.reply.error == 0))
  {
    hide Parse, TargetOf, Decode, PutAll;
  }

  /** What a request is replied: 1 if it is not accepted as a document, 6 without the name of a database, 3
      if no database has that name, 4 if it cannot be opened ... */
  lemma ErrorsBefore(f: Features, s: State, inp: bytes, env: Env)
    ensures var (o, r) := (Parse(f, inp, NullValue), Exec(f, s, inp, env).0);
            && (o.Thrown? ==> r.Crashed?)
            && (o.Done? ==> (r == Answer(Reply(1, None)) <==> !o.ok))
            && (o.Done? && o.ok ==>
                  var name := TextField(f, o.value, Ascii("dbname"));
                  && (name.None? ==> r.Crashed?)
                  && (r == Answer(Reply(6, None)) <==> name == Some([]))
                  && (r == Answer(Reply(3, None)) <==>
                        name.Some? && name.value != [] && forall db | db in s.dbs :: db.name != name.value)
                  && (r == Answer(Reply(4, None)) <==>
                        && name.Some? && name.value != []
                        && exists i :: 0 <= i < |s.dbs| && NamedFirst(s.dbs, i, name.value)
                                       && Opening(s.dbs[i], env) == Some(false)))
  {
    hide Parse, TextField, Opening, Decode, PutAll, Ascii, FindDb;
    var o := Parse(f, inp, NullValue);
    if o.Done? && o.ok && TextField(f, o.value, Ascii("dbname")).Some? {
      FoundFirst(s.dbs, TextField(f, o.value, Ascii("dbname")).value);
    }
  }

  // The first database of that name.
  predicate NamedFirst(dbs: seq<Db>, i: int, name: bytes) {
    0 <= i < |dbs| && dbs[i].name == name && forall j :: 0 <= j < i ==> dbs[j].name != name
  }

  lemma {:induction false} FoundFirst(dbs: seq<Db>, name: bytes)
    ensures FindDb(dbs, name) == |dbs| <==> forall db | db in dbs :: db.name != name
    ensures forall i :: 0 <= i < |dbs| ==> (FindDb(dbs, name) == i <==> NamedFirst(dbs, i, name))
  {
    hide FindDb;
    var k := FindDb(dbs, name);
    if k < |dbs| {
      assert dbs[k] in dbs;
    }
  }

  /** ... 7 for an unknown operation or column, -2 if the operation fails or a key is not there, and 0 if it
      has been performed. */
  lemma ErrorsBehind(f: Features, s: State, i: nat, root: Value, env: Env)
    requires i < |s.dbs| && Opening(s.dbs[i], env) == Some(true)
    ensures var (r, a, db) := (ExecOn(f, s, i, root, env).0, Decode(f, root), s.dbs[i]);
            && (r.Crashed? <==> a.Bad?)
            && (r == Answer(Reply(7, None)) <==>
                  a.Unknown? || ((a.PutCf? || a.GetCf?) && a.column !in db.families))
            && (r == Answer(Reply(-2, None)) <==>
                  && !a.Bad? && !a.Unknown? && ((a.PutCf? || a.GetCf?) ==> a.column in db.families)
                  && (!env.serves
                      || (a.Get? && Cell(db.path, Ascii("default"), a.key) !in s.data)
                      || (a.GetCf? && Cell(db.path, a.column, a.key) !in s.data)))
            && (r == Answer(Reply(0, None)) <==>
                  && env.serves && (a.Put? || a.WriteBatch? || (a.PutCf? && a.column in db.families)))
  {
    hide Decode, PutAll, Ascii;
  }

  /** A database is created only where its path does not exist and it has column families; when that
      fails, the program ends. Otherwise opening it succeeds or fails, and leaves an open one open. */
  lemma OpeningExactly(db: Db, env: Env)
    ensures Opening(db, env).None? <==>
              && !db.isOpen && !env.present && db.families != []
              && exists k :: 0 <= k < |db.families| && !Created(env, k)
    ensures Opening(db, env) == Some(true) <==> db.isOpen || (Opening(db, env).Some? && env.opens)
  {
  }

  /** The texts of values: numbers in decimal, none of arrays and objects. */
  lemma TextsOfValues(f: Features, v: Value)
    ensures v.p.Null? ==> AsString(f, v) == Some([])
    ensures v.p.Bool? ==> AsString(f, v) == Some(Ascii(if v.p.b then "true" else "false"))
    ensures v.p.Int? ==> AsString(f, v) == Some(IntText(v.p.i))
    ensures v.p.UInt? ==> AsString(f, v) == Some(IntText(v.p.u))
    ensures v.p.Str? ==> AsString(f, v) == Some(v.p.s)
    ensures v.p.Real? ==> AsString(f, v) == Some(f.printDouble(v.p.d))
    ensures v.p.Arr? || v.p.Obj? ==> AsString(f, v) == None
  {
    hide IntText;
    assert FastWriterModel.TRUE_TEXT == Ascii("true") && FastWriterModel.FALSE_TEXT == Ascii("false");
  }

  // The names and texts of the members from the k-th on.
  predicate ItemsAre(f: Features, es: Entries, k: nat, batch: seq<(bytes, bytes)>)
    requires Named(es) && k <= |es|
  {
    && |batch| == |es| - k
    && forall j :: 0 <= j < |batch| ==>
         batch[j].0 == es[k + j].key.s && AsString(f, es[k + j].val) == Some(batch[j].1)
  }

  /** The items of a batch are the members of an object, each name with the text of its value; none if one
      of these has no text. Null has no items; anything else is no batch. */
  lemma ItemsOfValues(f: Features, items: Value, batch: seq<(bytes, bytes)>)
    ensures items.p.Null? ==> (BatchOf(f, items) == Some(batch) <==> batch == [])
    ensures items.p.Obj? && Named(items.p.entries) && Sorted(items.p.entries) ==>
              (BatchOf(f, items) == Some(batch) <==> ItemsAre(f, items.p.entries, 0, batch))
    ensures !items.p.Null? && !items.p.Obj? ==> BatchOf(f, items) == None
  {
    hide AsString, Sorted, BatchFrom, ItemsAre;
    if items.p.Obj? && Named(items.p.entries) && Sorted(items.p.entries) {
      BatchIsItems(f, items.p.entries, 0, batch);
    }
  }

  lemma {:induction false} BatchIsItems(f: Features, es: Entries, k: nat, batch: seq<(bytes, bytes)>)
    requires Named(es) && Sorted(es) && k <= |es|
    ensures BatchFrom(f, es, k) == Some(batch) <==> ItemsAre(f, es, k, batch)
    decreases |es| - k
  {
    hide AsString, Sorted, JsonValue.Get;
    if k < |es| {
      FoundAt(es, k);
      if batch != [] {
        BatchIsItems(f, es, k + 1, batch[1..]);
        assert batch == [batch[0]] + batch[1..];
        if BatchFrom(f, es, k) == Some(batch) {
          BatchStep(f, es, k, batch);
        }
        if ItemsAre(f, es, k, batch) {
          ItemsStep(f, es, k, batch);
        }
      }
    }
  }

  lemma BatchStep(f: Features, es: Entries, k: nat, batch: seq<(bytes, bytes)>)
    requires Named(es) && k < |es| && batch != [] && BatchFrom(f, es, k) == Some(batch)
    requires ItemsAre(f, es, k + 1, batch[1..]) && JsonValue.Get(es, es[k].key) == es[k].val
    ensures ItemsAre(f, es, k, batch)
  {
    hide AsString, JsonValue.Get;
    forall j | 0 < j < |batch| ensures batch[j].0 == es[k + j].key.s && AsString(f, es[k + j].val) == Some(batch[j].1) {
      assert batch[1..][j - 1] == batch[j];
    }
  }

  lemma ItemsStep(f: Features, es: Entries, k: nat, batch: seq<(bytes, bytes)>)
    requires Named(es) && k < |es| && batch != [] && ItemsAre(f, es, k, batch)
    ensures ItemsAre(f, es, k + 1, batch[1..])
    ensures batch[0].0 == es[k].key.s && AsString(f, es[k].val) == Some(batch[0].1)
  {
    hide AsString;
    forall j | 0 <= j < |batch| - 1
      ensures batch[1..][j].0 == es[k + 1 + j].key.s && AsString(f, es[k + 1 + j].val) == Some(batch[1..][j].1)
    {
      assert batch[1..][j] == batch[j + 1];
    }
  }

  /** The member of an object; null where there is none, and of null. */
  lemma FieldsOfValues(root: Value, key: bytes)
    ensures root.p.Null? ==> Field(root, key) == Some(NullValue)
    ensures root.p.Obj? ==> Field(root, key) == Some(JsonValue.Get(root.p.entries, Name(key)))
    ensures !root.p.Null? && !root.p.Obj? ==> Field(root, key) == None
  {
  }

  /** On a database with column families, put is put_cf on "default", and get is get_cf on it. */
  lemma DefaultFamily(db: Db, data: Data, key: bytes, value: bytes, env: Env)
    requires DEFAULT_FAMILY in db.families
    ensures Perform(db, data, Put(key, value), env) == Perform(db, data, PutCf(DEFAULT_FAMILY, key, value), env)
    ensures Perform(db, data, Get(key), env) == Perform(db, data, GetCf(DEFAULT_FAMILY, key), env)
  {
  }

  // The last value of a key in a batch.
  function LastItem(items: seq<(bytes, bytes)>, key: bytes): Option<bytes> {
    if items == [] then None
    else if LastItem(items[1..], key).Some? then LastItem(items[1..], key)
    else if items[0].0 == key then Some(items[0].1)
    else None
  }

  /** What a batch leaves in every cell. */
  lemma {:induction false} PutAllCell(data: Data, path: bytes, family: bytes, items: seq<(bytes, bytes)>, c: Cell)
    ensures var after, last := PutAll(data, path, family, items), LastItem(items, c.key);
            if c.path == path && c.family == family && last.Some? then c in after && after[c] == last.value
            else (c in after <==> c in data) && (c in data ==> after[c] == data[c])
    decreases |items|
  {
    if items != [] {
      PutAllCell(data[Cell(path, family, items[0].0) := items[0].1], path, family, items[1..], c);
    }
  }

  // Putting the items one request after the other, all of them served.
  function PutEach(db: Db, data: Data, items: seq<(bytes, bytes)>, env: Env): Data
    decreases |items|
  {
    if items == [] then data
    else PutEach(db, Perform(db, data, Put(items[0].0, items[0].1), env).1, items[1..], env)
  }

  /** A batch that is written equals putting each of its members. */
  lemma {:induction false} BatchIsPuts(db: Db, data: Data, items: seq<(bytes, bytes)>, env: Env)
    requires env.serves
    ensures Perform(db, data, WriteBatch(items), env) == (Reply(0, None), PutEach(db, data, items, env))
    decreases |items|
  {
    if items != [] {
      BatchIsPuts(db, data[Cell(db.path, DEFAULT_FAMILY, items[0].0) := items[0].1], items[1..], env);
    }
  }

  // Runs -----------------------------------------------------------------------------------------

  datatype Request = Request(inp: bytes, env: Env)

  datatype Write = Write(cell: Cell, value: bytes)

  function BatchWrites(path: bytes, items: seq<(bytes, bytes)>): seq<Write> {
    if items == [] then []
    else [Write(Cell(path, DEFAULT_FAMILY, items[0].0), items[0].1)] + BatchWrites(path, items[1..])
  }

  // The writes an operation asks for, in order.
  function Asked(db: Db, a: Action): seq<Write> {
    match a
    case Put(key, value) => [Write(Cell(db.path, DEFAULT_FAMILY, key), value)]
    case PutCf(column, key, value) => [Write(Cell(db.path, column, key), value)]
    case WriteBatch(items) => BatchWrites(db.path, items)
    case _ => []
  }

  // The successful writes of a request: those it asks for, if the reply is 0.
  function Written(f: Features, s: State, r: Request): seq<Write> {
    match TargetOf(f, s.dbs, r.inp)
    case NoTarget(_) => []
    case Target(i, root) =>
      if Exec(f, s, r.inp, r.env).0 == Answer(Reply(0, None)) then Asked(s.dbs[i], Decode(f, root)) else []
  }

  // The state after a run; None if a request ended the program.
  function RunAll(f: Features, s: State, rs: seq<Request>): Option<State>
    decreases |rs|
  {
    if rs == [] then Some(s)
    else
      var (result, s') := Exec(f, s, rs[0].inp, rs[0].env);
      if result.Crashed? then None else RunAll(f, s', rs[1..])
  }

  // The replies of a run.
  function Replies(f: Features, s: State, rs: seq<Request>): seq<Reply>
    decreases |rs|
  {
    if rs == [] then []
    else
      var (result, s') := Exec(f, s, rs[0].inp, rs[0].env);
      if result.Crashed? then [] else [result.reply] + Replies(f, s', rs[1..])
  }

  function History(f: Features, s: State, rs: seq<Request>): seq<Write>
    decreases |rs|
  {
    if rs == [] then []
    else Written(f, s, rs[0]) + History(f, Exec(f, s, rs[0].inp, rs[0].env).1, rs[1..])
  }

  // The value of a cell after some writes: the last one written to it, or what was there.
  function Remembered(before: Option<bytes>, h: seq<Write>, c: Cell): Option<bytes>
    decreases |h|
  {
    if h == [] then before
    else Remembered(if h[0].cell == c then Some(h[0].value) else before, h[1..], c)
  }

  function Lookup(data: Data, c: Cell): Option<bytes> {
    if c in data then Some(data[c]) else None
  }

  lemma {:induction false} RememberedConcat(before: Option<bytes>, a: seq<Write>, b: seq<Write>, c: Cell)
    ensures Remembered(before, a + b, c) == Remembered(Remembered(before, a, c), b, c)
    decreases |a|
  {
    if a == [] {
      assert a + b == b;
    } else {
      assert (a + b)[1..] == a[1..] + b;
      RememberedConcat(if a[0].cell == c then Some(a[0].value) else before, a[1..], b, c);
    }
  }

  lemma {:induction false} BatchRemembered(data: Data, path: bytes, items: seq<(bytes, bytes)>, c: Cell)
    ensures Lookup(PutAll(data, path, DEFAULT_FAMILY, items), c)
         == Remembered(Lookup(data, c), BatchWrites(path, items), c)
    decreases |items|
  {
    if items != [] {
      var w := Write(Cell(path, DEFAULT_FAMILY, items[0].0), items[0].1);
      assert ([w] + BatchWrites(path, items[1..]))[1..] == BatchWrites(path, items[1..]);
      BatchRemembered(data[w.cell := w.value], path, items[1..], c);
    }
  }

  lemma PerformRemembered(db: Db, data: Data, a: Action, env: Env, c: Cell)
    ensures var (reply, after) := Perform(db, data, a, env);
            Lookup(after, c)
            == if reply == Reply(0, None) then Remembered(Lookup(data, c), Asked(db, a), c) else Lookup(data, c)
  {
    hide PutAll, BatchWrites;
    if a.WriteBatch? {
      BatchRemembered(data, db.path, a.items, c);
    }
  }

  lemma ExecRemembered(f: Features, s: State, r: Request, c: Cell)
    ensures Lookup(Exec(f, s, r.inp, r.env).1.data, c) == Remembered(Lookup(s.data, c), Written(f, s, r), c)
  {
    hide Parse, TargetOf, Decode, Perform, Asked;
    var t := TargetOf(f, s.dbs, r.inp);
    if t.Target? && Opening(s.dbs[t.db], r.env) == Some(true) {
      var db := s.dbs[t.db].(isOpen := true);
      PerformRemembered(db, s.data, Decode(f, t.root), r.env, c);
      SameAsked(s.dbs[t.db], db, Decode(f, t.root));
    }
  }

  lemma SameAsked(x: Db, y: Db, a: Action)
    requires x.path == y.path
    ensures Asked(x, a) == Asked(y, a)
  {
  }

  /** Over every run, each cell holds the value of the last successful write to it. */
  lemma {:induction false} RunRemembers(f: Features, s: State, rs: seq<Request>, c: Cell)
    ensures var end := RunAll(f, s, rs);
            end.Some? ==> Lookup(end.value.data, c) == Remembered(Lookup(s.data, c), History(f, s, rs), c)
    decreases |rs|
  {
    hide Exec, Written, Remembered, Lookup;
    if rs != [] {
      var next := Exec(f, s, rs[0].inp, rs[0].env).1;
      ExecRemembered(f, s, rs[0], c);
      RunRemembers(f, next, rs[1..], c);
      RememberedConcat(Lookup(s.data, c), Written(f, s, rs[0]), History(f, next, rs[1..]), c);
    } else {
      NothingRemembered(Lookup(s.data, c), c);
    }
  }

  lemma NothingRemembered(before: Option<bytes>, c: Cell)
    ensures Remembered(before, [], c) == before
  {
  }

  // The cell a get or get_cf of this database is about.
  function AskedCell(db: Db, a: Action): Cell
    requires a.Get? || a.GetCf?
  {
    Cell(db.path, if a.Get? then DEFAULT_FAMILY else a.column, a.key)
  }

  /** After any run, a get (or a get_cf on a configured family) that reaches its database and is
      served replies the last value successfully written, or -2 if there never was one. */
  lemma GetAnswersLastWrite(f: Features, s: State, rs: seq<Request>, r: Request)
    requires RunAll(f, s, rs).Some?
    requires var t := TargetOf(f, RunAll(f, s, rs).value.dbs, r.inp);
             t.Target? && (var db, a := RunAll(f, s, rs).value.dbs[t.db], Decode(f, t.root);
                           && Opening(db, r.env) == Some(true) && r.env.serves
                           && (a.Get? || (a.GetCf? && a.column in db.families)))
    ensures var s' := RunAll(f, s, rs).value;
            var t := TargetOf(f, s'.dbs, r.inp);
            var c := AskedCell(s'.dbs[t.db], Decode(f, t.root));
            var v := Remembered(Lookup(s.data, c), History(f, s, rs), c);
            Exec(f, s', r.inp, r.env).0 == Answer(Reply(if v.Some? then 0 else -2, v))
  {
    hide TargetOf, Decode, Remembered, History, RunAll;
    var s' := RunAll(f, s, rs).value;
    var t := TargetOf(f, s'.dbs, r.inp);
    RunRemembers(f, s, rs, AskedCell(s'.dbs[t.db], Decode(f, t.root)));
  }

  /** Requests for one database leave the cells of all others alone, and nothing but `isOpen` of
      that database changes in the configuration. */
  lemma OthersUntouched(f: Features, s: State, inp: bytes, env: Env, c: Cell)
    requires var t := TargetOf(f, s.dbs, inp); t.Target? ==> c.path != s.dbs[t.db].path
    ensures var s' := Exec(f, s, inp, env).1;
            && Lookup(s'.data, c) == Lookup(s.data, c)
            && |s'.dbs| == |s.dbs|
            && forall i :: 0 <= i < |s.dbs| ==> s'.dbs[i] == s.dbs[i].(isOpen := s'.dbs[i].isOpen)
  {
    hide TargetOf, Decode, PutAll;
    var t := TargetOf(f, s.dbs, inp);
    if t.Target? && Decode(f, t.root).WriteBatch? {
      PutAllCell(s.data, s.dbs[t.db].path, DEFAULT_FAMILY, Decode(f, t.root).items, c);
    }
  }

  // Reading one's own write ------------------------------------------------------------------------

  // Runs, one request at a time from the end.
  lemma {:induction false} RunLast(f: Features, s: State, rs: seq<Request>, r: Request)
    requires RunAll(f, s, rs).Some?
    ensures var (result, s') := Exec(f, RunAll(f, s, rs).value, r.inp, r.env);
            if result.Crashed? then RunAll(f, s, rs + [r]).None? && Replies(f, s, rs + [r]) == Replies(f, s, rs)
            else RunAll(f, s, rs + [r]) == Some(s')
                 && Replies(f, s, rs + [r]) == Replies(f, s, rs) + [result.reply]
    decreases |rs|
  {
    hide Exec;
    if rs == [] {
      assert rs + [r] == [r] && [r][1..] == [];
    } else {
      assert (rs + [r])[0] == rs[0] && (rs + [r])[1..] == rs[1..] + [r];
      RunLast(f, Exec(f, s, rs[0].inp, rs[0].env).1, rs[1..], r);
    }
  }

  lemma {:induction false} RunPrefix(f: Features, s: State, rs: seq<Request>, more: seq<Request>)
    requires RunAll(f, s, rs + more).Some?
    ensures RunAll(f, s, rs).Some?
    decreases |rs|
  {
    hide Exec;
    if rs != [] {
      assert (rs + more)[0] == rs[0] && (rs + more)[1..] == rs[1..] + more;
      RunPrefix(f, Exec(f, s, rs[0].inp, rs[0].env).1, rs[1..], more);
    }
  }

  lemma {:induction false} RepliesCount(f: Features, s: State, rs: seq<Request>)
    requires RunAll(f, s, rs).Some?
    ensures |Replies(f, s, rs)| == |rs|
    decreases |rs|
  {
    hide Exec;
    if rs != [] {
      RepliesCount(f, Exec(f, s, rs[0].inp, rs[0].env).1, rs[1..]);
    }
  }

  // Over a run the configured databases stay what they are, and an open one stays open.
  lemma {:induction false} StaysOpen(f: Features, s: State, rs: seq<Request>)
    requires RunAll(f, s, rs).Some?
    ensures var dbs := RunAll(f, s, rs).value.dbs;
            |dbs| == |s.dbs| && forall i :: 0 <= i < |dbs| ==> SameDb(s.dbs[i], dbs[i])
    decreases |rs|
  {
    hide Exec, SameDb;
    if rs == [] {
      forall i | 0 <= i < |s.dbs| ensures SameDb(s.dbs[i], s.dbs[i]) {
        SameItself(s.dbs[i]);
      }
    } else {
      var s' := Exec(f, s, rs[0].inp, rs[0].env).1;
      StaysOpenOnce(f, s, rs[0].inp, rs[0].env);
      StaysOpen(f, s', rs[1..]);
      var dbs := RunAll(f, s, rs).value.dbs;
      forall i | 0 <= i < |s.dbs| ensures SameDb(s.dbs[i], dbs[i]) {
        SameThrough(s.dbs[i], s'.dbs[i], dbs[i]);
      }
    }
  }

  predicate SameDb(a: Db, b: Db) { b == a.(isOpen := b.isOpen) && (a.isOpen ==> b.isOpen) }

  lemma SameItself(a: Db)
    ensures SameDb(a, a)
  {
  }

  lemma SameThrough(a: Db, b: Db, c: Db)
    requires SameDb(a, b) && SameDb(b, c)
    ensures SameDb(a, c)
  {
  }

  lemma StaysOpenOnce(f: Features, s: State, inp: bytes, env: Env)
    ensures var dbs := Exec(f, s, inp, env).1.dbs;
            |dbs| == |s.dbs| && forall i :: 0 <= i < |dbs| ==> SameDb(s.dbs[i], dbs[i])
  {
    hide TargetOf, Decode, Perform;
  }

  lemma {:induction false} SameNames(xs: seq<Db>, ys: seq<Db>, name: bytes)
    requires |xs| == |ys| && forall i :: 0 <= i < |xs| ==> SameDb(xs[i], ys[i])
    ensures FindDb(xs, name) == FindDb(ys, name)
    decreases |xs|
  {
    if xs != [] {
      assert SameDb(xs[0], ys[0]);
      SameNames(xs[1..], ys[1..], name);
    }
  }

  lemma {:induction false} NothingSince(before: Option<bytes>, h: seq<Write>, c: Cell)
    requires forall w | w in h :: w.cell != c
    ensures Remembered(before, h, c) == before
    decreases |h|
  {
    if h != [] {
      assert h[0] in h;
      NothingSince(before, h[1..], c);
    }
  }

  // A request for the i-th database, asking for this.
  predicate AsksFor(f: Features, dbs: seq<Db>, inp: bytes, i: nat, a: Action) {
    var t := TargetOf(f, dbs, inp);
    t.Target? && t.db == i && Decode(f, t.root) == a
  }

  // The family an operation is about.
  function Family(a: Action): bytes {
    if a.PutCf? || a.GetCf? then a.column else Ascii("default")
  }

  // What a write stores under a key; of several items of a batch with one name, the last one.
  function Stored(w: Action, key: bytes): Option<bytes> {
    match w
    case Put(k, value) => if k == key then Some(value) else None
    case PutCf(_, k, value) => if k == key then Some(value) else None
    case WriteBatch(items) => LastItem(items, key)
    case _ => None
  }

  // A get for what a write stores, both on families the database has.
  predicate ReadsBack(db: Db, w: Action, g: Action, value: bytes) {
    && (g.Get? || g.GetCf?) && Family(w) == Family(g) && Stored(w, g.key) == Some(value)
    && (w.PutCf? ==> w.column in db.families)
    && (g.GetCf? ==> g.column in db.families)
  }

  /** A write that is served, requests that write other cells, if any, and a get of the same family and
      key that is served: the get replies the value written. */
  lemma ReadsItsWrite(f: Features, s: State, first: Request, between: seq<Request>, last: Request, i: nat,
                      w: Action, g: Action, value: bytes)
    requires i < |s.dbs| && AsksFor(f, s.dbs, first.inp, i, w) && ReadsBack(s.dbs[i], w, g, value)
    requires Opening(s.dbs[i], first.env) == Some(true) && first.env.serves && last.env.serves
    requires RunAll(f, s, [first] + between).Some?
    requires forall x | x in History(f, Exec(f, s, first.inp, first.env).1, between) ::
               x.cell != Cell(s.dbs[i].path, Family(g), g.key)
    requires AsksFor(f, RunAll(f, s, [first] + between).value.dbs, last.inp, i, g)
    ensures Exec(f, RunAll(f, s, [first] + between).value, last.inp, last.env).0 == Answer(Reply(0, Some(value)))
  {
    hide TargetOf, Decode, RunAll, Remembered, Lookup, PutAll, Ascii, Stored, Asked;
    var rs, s1, c := [first] + between, Exec(f, s, first.inp, first.env).1, Cell(s.dbs[i].path, Family(g), g.key);
    assert rs[0] == first && rs[1..] == between;
    OpenAfter(f, s, first, between, i);
    GetAnswersLastWrite(f, s, rs, last);
    StoredByWrite(w, g.key);
    assert Written(f, s, first) == Asked(s.dbs[i], w);
    RememberedConcat(Lookup(s.data, c), Asked(s.dbs[i], w), History(f, s1, between), c);
    StoredRemembered(s.dbs[i], Lookup(s.data, c), w, g.key);
    NothingSince(Some(value), History(f, s1, between), c);
  }

  // Only a write stores anything.
  lemma StoredByWrite(a: Action, key: bytes)
    requires Stored(a, key).Some?
    ensures a.Put? || a.PutCf? || a.WriteBatch?
  {
  }

  /** After the writes an operation asks for, each key of its family has what the operation stores. */
  lemma StoredRemembered(db: Db, before: Option<bytes>, w: Action, key: bytes)
    ensures var v := Remembered(before, Asked(db, w), Cell(db.path, Family(w), key));
            v == if Stored(w, key).Some? then Stored(w, key) else before
  {
    match w {
      case WriteBatch(items) => BatchStored(db.path, before, items, key);
      case _ =>
    }
  }

  lemma {:induction false} BatchStored(path: bytes, before: Option<bytes>, items: seq<(bytes, bytes)>, key: bytes)
    ensures Remembered(before, BatchWrites(path, items), Cell(path, DEFAULT_FAMILY, key))
         == if LastItem(items, key).Some? then LastItem(items, key) else before
    decreases |items|
  {
    hide Ascii;
    if items != [] {
      var w, c := Write(Cell(path, DEFAULT_FAMILY, items[0].0), items[0].1), Cell(path, DEFAULT_FAMILY, key);
      assert ([w] + BatchWrites(path, items[1..]))[1..] == BatchWrites(path, items[1..]);
      BatchStored(path, if w.cell == c then Some(w.value) else before, items[1..], key);
    }
  }

  // Once a request has opened a database, it is open to the end of the run.
  lemma OpenAfter(f: Features, s: State, first: Request, between: seq<Request>, i: nat)
    requires i < |s.dbs| && TargetOf(f, s.dbs, first.inp).Target? && TargetOf(f, s.dbs, first.inp).db == i
    requires Opening(s.dbs[i], first.env) == Some(true) && RunAll(f, s, [first] + between).Some?
    ensures var dbs := RunAll(f, s, [first] + between).value.dbs;
            i < |dbs| && dbs[i] == s.dbs[i].(isOpen := true)
  {
    hide TargetOf, Decode, Perform;
    assert ([first] + between)[0] == first && ([first] + between)[1..] == between;
    StaysOpen(f, Exec(f, s, first.inp, first.env).1, between);
  }

  // Values found -----------------------------------------------------------------------------------

  /** The value a get or get_cf finds: it reaches an open database and a configured family, is served,
      and the cell holds something. */
  function Found(f: Features, s: State, inp: bytes, env: Env): Option<bytes> {
    match TargetOf(f, s.dbs, inp)
    case NoTarget(_) => None
    case Target(i, root) =>
      var db, a := s.dbs[i], Decode(f, root);
      if Opening(db, env) == Some(true) && env.serves && (a.Get? || (a.GetCf? && a.column in db.families)) then
        Lookup(s.data, AskedCell(db, a))
      else None
  }

  /** ... and a value is replied exactly if it is found. */
  lemma FoundIsReplied(f: Features, s: State, inp: bytes, env: Env)
    ensures var r := Exec(f, s, inp, env).0; r.Answer? ==> r.reply.value == Found(f, s, inp, env)
  {
    hide TargetOf, Decode, PutAll, Parse;
    TargetReplies(f, s.dbs, inp);
  }

  lemma TargetReplies(f: Features, dbs: seq<Db>, inp: bytes)
    ensures var t := TargetOf(f, dbs, inp);
            t.NoTarget? && t.result.Answer? ==> t.result.reply.error in {1, 3, 6} && t.result.reply.value.None?
  {
    hide Parse, TextField, FindDb;
  }

  // -2 is the reply to a known operation only.
  lemma MissIsKnown(f: Features, s: State, inp: bytes, env: Env)
    requires Exec(f, s, inp, env).0.Answer? && Exec(f, s, inp, env).0.reply.error == -2
    ensures var t := TargetOf(f, s.dbs, inp);
            t.Target? && !Decode(f, t.root).Unknown? && !Decode(f, t.root).Bad?
  {
    hide TargetOf, Decode, PutAll;
    TargetReplies(f, s.dbs, inp);
  }
}
